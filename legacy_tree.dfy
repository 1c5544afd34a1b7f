/**
 * The legacy tree as the Java objects hold it: one RootSectionNode and the
 * nodes under it, updated in place by `addChild`, `set`, `load` and
 * `value(Object)`. Every method is proved to leave exactly the state the
 * specification function in module Legacy gives.
 */
module LegacyTree {
  import opened Wrappers
  import opened Values
  import opened Errors
  import opened Legacy

  class RootSection {
    /** The node objects, by identity; identity 0 is the RootSectionNode. */
    var nodes: map<nat, Node>
    /** The identity the next node allocated receives. */
    var next: nat

    function State(): Tree
      reads this
    {
      Tree(nodes, next)
    }

    predicate Valid()
      reads this
    {
      WellFormed(State())
    }

    /** `new RootSectionNode(header)`: no children yet. */
    constructor (header: Option<string>)
      ensures Valid() && State() == NewRoot(header)
    {
      nodes := map[0 := SectionNode("", 0, StringUtils.EmptyToNull(header), map[], [])];
      next := 1;
    }

    /** `addChild(key, value[, description])`. */
    method AddChild(sec: nat, key: string, v: Value, description: Option<string>)
      requires Valid() && IsSection(State(), sec)
      modifies this
      ensures Valid() && State() == Legacy.AddChild(old(State()), sec, key, v, description)
    {
      ghost var target := Legacy.AddChild(State(), sec, key, v, description);
      var id := next;
      nodes := nodes[id := NewValue(key, sec, v, description)][sec := PutChild(nodes[sec], key, id)];
      next := next + 1;
      assert State() == target;
    }

    /** `addSection(key[, description])`: returns the new section. */
    method AddSection(sec: nat, key: string, description: Option<string>) returns (id: nat)
      requires Valid() && IsSection(State(), sec)
      modifies this
      ensures Valid() && State() == Legacy.AddSection(old(State()), sec, key, description)
      ensures id == old(next) && IsSection(State(), id)
    {
      ghost var target := Legacy.AddSection(State(), sec, key, description);
      id := next;
      nodes := nodes[id := NewSection(key, sec, description)][sec := PutChild(nodes[sec], key, id)];
      next := next + 1;
      assert State() == target;
    }

    /** `ValueNodeImpl.value(Object)`: overwrites the value of node `id`. */
    method WriteValue(id: nat, v: Value)
      requires Valid() && IsValueNode(State(), id)
      modifies this
      ensures Valid() && State() == StoreValue(old(State()), id, v)
    {
      ghost var target := StoreValue(State(), id, v);
      nodes := nodes[id := nodes[id].(value := v)];
      assert State() == target;
    }

    /** The section setter `description(String)`. */
    method SetDescription(sec: nat, d: Option<string>)
      requires Valid() && IsSection(State(), sec)
      modifies this
      ensures Valid() && State() == Redescribe(old(State()), sec, d)
    {
      ghost var target := Redescribe(State(), sec, d);
      var s := nodes[sec];
      nodes := nodes[sec := SectionNode(s.key, s.parent, d, s.children, s.order)];
      assert State() == target;
    }

    /** `set(path, value)` on the segments of the path; returns the value node set. */
    method Set(sec: nat, segs: seq<string>, v: Value) returns (r: Result<nat>)
      requires Valid() && IsSection(State(), sec)
      modifies this
      ensures Valid() && Outcome(r, State()) == Legacy.Set(old(State()), sec, segs, v)
      decreases |segs|
    {
      if |segs| == 0 {
        return Err(IndexOutOfBounds);
      }
      ghost var a := State();
      var key := segs[0];
      if key !in nodes[sec].children {
        if |segs| == 1 {
          r := Ok(next);
          AddChild(sec, key, v, None);
        } else {
          var s := AddSection(sec, key, None);
          r := Set(s, segs[1..], v);
        }
      } else {
        var c := nodes[sec].children[key];
        assert NodeOk(a, sec) && ChildOk(a, sec, key, c);
        if |segs| == 1 {
          if nodes[c].SectionNode? {
            r := Err(PathLedToSection);
          } else {
            WriteValue(c, v);
            r := Ok(c);
          }
        } else if nodes[c].SectionNode? {
          r := Set(c, segs[1..], v);
        } else {
          r := Err(ClassCast);
        }
      }
    }

    /** `load(map)`: the entries one after the other; the first exception ends it. */
    method Load(sec: nat, doc: Value) returns (r: Result<()>)
      requires Valid() && IsSection(State(), sec) && doc.MapV?
      modifies this
      ensures Valid() && Outcome(r, State()) == Legacy.Load(old(State()), sec, doc)
      decreases doc, 1
    {
      ghost var a := State();
      var i := 0;
      while i < |doc.entries|
        invariant 0 <= i <= |doc.entries|
        invariant Valid() && IsSection(State(), sec)
        invariant LoadEntries(a, sec, doc, 0) == LoadEntries(State(), sec, doc, i)
        decreases |doc.entries| - i
      {
        r := LoadEntry(sec, doc, i);
        if r.Err? {
          return;
        }
        i := i + 1;
      }
      r := Ok(());
    }

    /**
     * The body of the lambda `load` runs on entry `i`. On success the rest
     * of the load is unchanged by having done this entry first.
     */
    method LoadEntry(sec: nat, doc: Value, i: nat) returns (r: Result<()>)
      requires Valid() && IsSection(State(), sec) && doc.MapV? && i < |doc.entries|
      modifies this
      ensures Valid() && IsSection(State(), sec)
      ensures r.Err? ==> Outcome(r, State()) == LoadEntries(old(State()), sec, doc, i)
      ensures r.Ok? ==> LoadEntries(State(), sec, doc, i + 1) == LoadEntries(old(State()), sec, doc, i)
      decreases doc, 0
    {
      ghost var a := State();
      var key := doc.entries[i].0;
      var v := doc.entries[i].1;
      if key !in nodes[sec].children {
        return Err(UnrecognizedKey(key));
      }
      var c := nodes[sec].children[key];
      assert NodeOk(a, sec) && ChildOk(a, sec, key, c);
      if v.MapV? && nodes[c].SectionNode? {
        r := Load(c, v);
        SameShapeKeepsSection(a, State(), sec);
      } else if nodes[c].SectionNode? {
        r := Err(CannotSetValue(key, v));
      } else {
        WriteValue(c, v);
        r := Ok(());
      }
    }

    /** SectionNodeImpl's varargs `set(value, path...)`. */
    method VarSet(sec: nat, v: Value, path: seq<string>) returns (r: Result<()>)
      requires Valid() && IsSection(State(), sec)
      modifies this
      ensures Valid() && Outcome(r, State()) == Legacy.VarSet(old(State()), sec, v, path)
    {
      if |path| == 0 {
        return Err(IndexOutOfBounds);
      }
      if path[0] !in nodes[sec].children {
        return Err(NullPointer);
      }
      var c := nodes[sec].children[path[0]];
      assert NodeOk(State(), sec) && ChildOk(State(), sec, path[0], c);
      if |path| == 1 {
        if nodes[c].SectionNode? {
          return Err(PathLedToSection);
        }
        WriteValue(c, v);
        return Ok(());
      }
      if !nodes[c].SectionNode? {
        return Err(ClassCast);
      }
      var g := VarGet(State(), c, path[1..]);
      r := if g.Err? then Err(g.error) else Ok(());
    }

    /** `values(includeSections)`: one entry per child, in a fresh map. */
    method Values(sec: nat, includeSections: bool) returns (m: map<string, Entry>)
      requires Valid() && IsSection(State(), sec)
      ensures m == ValuesOf(State(), sec, includeSections)
    {
      var order := nodes[sec].order;
      var children := nodes[sec].children;
      assert NodeOk(State(), sec);
      m := map[];
      var i := 0;
      while i < |order|
        invariant 0 <= i <= |order|
        invariant forall k :: k in m <==> k in order[..i] && (includeSections || nodes[children[k]].ValueNode?)
        invariant forall k | k in m :: m[k] == ValuesOf(State(), sec, true)[k]
      {
        var c := children[order[i]];
        assert ChildOk(State(), sec, order[i], c);
        var child := nodes[c];
        if child.SectionNode? && includeSections {
          m := m[order[i] := OfSection(c)];
        }
        if child.ValueNode? {
          m := m[order[i] := OfValue(child.value)];
        }
        assert order[..i + 1] == order[..i] + [order[i]];
        i := i + 1;
      }
      assert order[..i] == order;
    }

    /** `asString(indent)`: appends the text of each child in insertion order. */
    method AsString(sec: nat, indent: nat, encode: (string, Value) -> string) returns (r: Result<string>)
      requires Valid() && IsSection(State(), sec)
      ensures r == Render(State(), sec, indent, encode)
      decreases next - sec, 1
    {
      ghost var t := State();
      var order := nodes[sec].order;
      assert NodeOk(t, sec);
      var s := "";
      var i := 0;
      assert order[i..] == order;
      ghost var whole := Render(t, sec, indent, encode);
      assert whole.Ok? ==> s + whole.value == whole.value;
      while i < |order|
        invariant 0 <= i <= |order|
        invariant Prefixed(s, RenderKeys(t, sec, order[i..], indent, encode)) == Render(t, sec, indent, encode)
      {
        var c := nodes[sec].children[order[i]];
        RenderKeysStep(t, sec, order, i, indent, encode, s);
        var text := ChildString(sec, c, indent, encode);
        if text.Err? {
          return text;
        }
        s := s + text.value;
        i := i + 1;
      }
      assert order[i..] == [] && s + "" == s;
      r := Ok(s);
    }

    /** The text of one child: a value node's `asString`, or a section's header lines and its children. */
    method ChildString(sec: nat, c: nat, indent: nat, encode: (string, Value) -> string) returns (text: Result<string>)
      requires Valid() && IsSection(State(), sec) && c in nodes && sec < c < next
      ensures text == ChildText(State(), sec, c, indent, encode)
      decreases next - sec, 0
    {
      var child := nodes[c];
      if child.ValueNode? {
        text := ValueText(child, indent, encode);
      } else {
        var inner := AsString(c, indent + INDENT, encode);
        text := if inner.Err? then inner else Ok(SectionHeader(child, indent) + inner.value);
      }
    }
  }
}
