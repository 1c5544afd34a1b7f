/**
 * The mutable configuration tree of one file: lectern-core's
 * ConfigurationNode with all the nodes under it. The node objects live in
 * `nodes`, which the methods update in place as the Java methods update the
 * children maps and value fields; every method is proved to leave exactly
 * the state that the operation's specification function gives.
 */
module ConfigTree {
  import opened Wrappers
  import opened Values
  import opened Errors
  import opened Validators
  import opened Nodes
  import opened ValueNodes
  import opened InvalidKeyHandler
  import opened SectionNodes

  /**
   * The non-root ancestor keys that `Node.path()` still has to put in front
   * once its cursor reaches `cursor`, outermost first.
   */
  function PendingKeys(a: Arena, cursor: Option<Id>): (r: seq<string>)
    requires WellFormed(a) && (cursor.Some? ==> cursor.value in a.nodes)
    decreases if cursor.Some? then cursor.value + 1 else 0
  {
    match cursor
    case None => []
    case Some(p) =>
      if IsRoot(a.nodes[p]) then []
      else
        assert ParentOk(a, p);
        PendingKeys(a, a.nodes[p].parent) + [a.nodes[p].key]
  }

  /** A node's path segments are its pending ancestor keys followed by its own key. */
  lemma {:induction false} PendingKeysOfParent(a: Arena, id: Id)
    requires WellFormed(a) && id in a.nodes
    ensures ParentOk(a, id) && PathSegments(a, id) == PendingKeys(a, a.nodes[id].parent) + [a.nodes[id].key]
    decreases id
  {
    assert ParentOk(a, id);
    match a.nodes[id].parent
    case None =>
    case Some(p) =>
      if !IsRoot(a.nodes[p]) {
        PendingKeysOfParent(a, p);
      }
  }

  /** Joining with a first segment in front puts that segment and "." in front. */
  lemma {:induction false} JoinPathCons(k: string, segs: seq<string>)
    requires |segs| > 0
    ensures JoinPath([k] + segs) == k + "." + JoinPath(segs)
    decreases |segs|
  {
    var ks := [k] + segs;
    if |segs| == 1 {
      assert ks[..|ks| - 1] == [k];
    } else {
      assert ks[..|ks| - 1] == [k] + segs[..|segs| - 1];
      JoinPathCons(k, segs[..|segs| - 1]);
    }
  }

  // The four cases of `set`, one step each.

  lemma SetNewValue(a: Arena, obj: Obj, sec: Id, segs: seq<string>, t: JavaType, v: Value)
    requires WellFormed(a) && IsSection(a, sec) && |segs| == 1 && segs[0] !in a.nodes[sec].children
    ensures SectionNodes.Set(a, obj, sec, segs, t, v) == Outcome(Ok(a.next), SectionNodes.AddValue(a, sec, segs[0], None, t, v), obj)
  {
  }

  lemma SetNewSection(a: Arena, obj: Obj, sec: Id, segs: seq<string>, t: JavaType, v: Value)
    requires WellFormed(a) && IsSection(a, sec) && |segs| > 1 && segs[0] !in a.nodes[sec].children
    ensures SectionNodes.AddSection(a, sec, segs[0], None).nodes[a.next].SectionNode?
    ensures SectionNodes.Set(a, obj, sec, segs, t, v) ==
      SectionNodes.Set(SectionNodes.AddSection(a, sec, segs[0], None), obj, a.next, segs[1..], t, v)
  {
  }

  lemma SetIntoSection(a: Arena, obj: Obj, sec: Id, segs: seq<string>, t: JavaType, v: Value)
    requires WellFormed(a) && IsSection(a, sec) && |segs| > 0 && segs[0] in a.nodes[sec].children
    requires IsSection(a, a.nodes[sec].children[segs[0]])
    ensures SectionNodes.Set(a, obj, sec, segs, t, v) ==
      SectionNodes.Set(a, obj, a.nodes[sec].children[segs[0]], if |segs| == 1 then segs else segs[1..], t, v)
  {
  }

  lemma SetIntoValue(a: Arena, obj: Obj, sec: Id, segs: seq<string>, t: JavaType, v: Value)
    requires WellFormed(a) && IsSection(a, sec) && |segs| > 0 && segs[0] in a.nodes[sec].children
    requires IsValueNode(a, a.nodes[sec].children[segs[0]])
    ensures var c := a.nodes[sec].children[segs[0]];
      var w := ValueNodes.WriteValue(a, obj, c, v);
      SectionNodes.Set(a, obj, sec, segs, t, v) == Outcome(if w.result.Ok? then Ok(c) else Err(w.result.error), w.arena, w.obj)
  {
  }

  // The cases of one entry of `load`, one step each.

  lemma LoadUnknownKey(a: Arena, obj: Obj, sec: Id, doc: Value, i: nat, ctx: LoadContext)
    requires WellFormed(a) && IsSection(a, sec) && doc.MapV? && i < |doc.entries|
    requires doc.entries[i].0 !in a.nodes[sec].children
    ensures var h := HandleInvalidKey(ctx.policy, doc.entries[i].0);
      LoadEntries(a, obj, sec, doc, i, ctx) ==
        if h.Err? then Outcome(Err(h.error), a, obj) else LoadEntries(a, obj, sec, doc, i + 1, ctx)
  {
  }

  lemma LoadIntoSection(a: Arena, obj: Obj, sec: Id, doc: Value, i: nat, ctx: LoadContext)
    requires WellFormed(a) && IsSection(a, sec) && doc.MapV? && i < |doc.entries|
    requires doc.entries[i].0 in a.nodes[sec].children && doc.entries[i].1.MapV?
    requires IsSection(a, a.nodes[sec].children[doc.entries[i].0])
    ensures var o := SectionNodes.Load(a, obj, a.nodes[sec].children[doc.entries[i].0], doc.entries[i].1, ctx);
      LoadEntries(a, obj, sec, doc, i, ctx) ==
        if o.result.Err? then o else LoadEntries(o.arena, o.obj, sec, doc, i + 1, ctx)
  {
  }

  lemma LoadOverSection(a: Arena, obj: Obj, sec: Id, doc: Value, i: nat, ctx: LoadContext)
    requires WellFormed(a) && IsSection(a, sec) && doc.MapV? && i < |doc.entries|
    requires doc.entries[i].0 in a.nodes[sec].children && !doc.entries[i].1.MapV?
    requires IsSection(a, a.nodes[sec].children[doc.entries[i].0])
    ensures LoadEntries(a, obj, sec, doc, i, ctx) == Outcome(Err(ClassCast), a, obj)
  {
  }

  lemma LoadIntoValue(a: Arena, obj: Obj, sec: Id, doc: Value, i: nat, ctx: LoadContext)
    requires WellFormed(a) && IsSection(a, sec) && doc.MapV? && i < |doc.entries|
    requires doc.entries[i].0 in a.nodes[sec].children
    requires IsValueNode(a, a.nodes[sec].children[doc.entries[i].0])
    ensures var c := a.nodes[sec].children[doc.entries[i].0];
      var v := doc.entries[i].1;
      LoadEntries(a, obj, sec, doc, i, ctx) ==
        match ctx.decode(a.nodes[c].valueType, v)
        case None => Outcome(Err(CannotConvert(PathOf(a, c), v, ctx.file)), a, obj)
        case Some(d) =>
          var w := ValueNodes.WriteValue(a, obj, c, d);
          if w.result.Err? then Outcome(Err(w.result.error), w.arena, w.obj)
          else LoadEntries(w.arena, w.obj, sec, doc, i + 1, ctx)
  {
  }

  class Tree {
    /** The node objects, by identity; identity 0 is this ConfigurationNode. */
    var nodes: map<Id, Node>
    /** The identity the next node allocated receives. */
    var next: Id
    /** The file of the ConfigurationNode. */
    const file: string
    /** The LoadContext: the root's file, the invalid-key handler and the codec's decoder. */
    const loadContext: LoadContext
    /** The SerializeContext: the comment character, the indentation step and the codec's encoder. */
    const serializeContext: SerializeContext

    function State(): Arena
      reads this
    {
      Arena(nodes, next)
    }

    /** The tree invariant: a well-formed arena whose node 0 is the root ConfigurationNode of `file`. */
    predicate Valid()
      reads this
    {
      WellFormed(State()) && IsConfiguration(State(), 0) && IsRoot(nodes[0]) &&
      nodes[0].file == Some(file) && loadContext.file == file
    }

    /** A ConfigurationNode of `file` without children, as the builder creates it. */
    constructor (file: string, policy: Preset, decode: (JavaType, Value) -> Option<Value>,
                 commentChar: char, indentSize: nat, encode: (string, Value) -> string)
      ensures Valid() && State() == Initial(file)
      ensures loadContext == LoadContext(file, policy, decode)
      ensures serializeContext == SerializeContext(commentChar, indentSize, encode)
    {
      this.file := file;
      this.loadContext := LoadContext(file, policy, decode);
      this.serializeContext := SerializeContext(commentChar, indentSize, encode);
      nodes := map[0 := NewConfiguration(file)];
      next := 1;
    }

    /** Operations that only allocate and mutate keep node 0 the root of `file`. */
    lemma GrowsKeepsRoot(a: Arena, b: Arena)
      requires Valid() && a == State() && WellFormed(b) && Grows(a, b)
      ensures WellFormed(b) && IsConfiguration(b, 0) && IsRoot(b.nodes[0]) && b.nodes[0].file == Some(file)
    {
      assert SameIdentity(a.nodes[0], b.nodes[0]);
    }

    /** `addChild(key, description, type, value)`: a new value node under `key`; returns its identity. */
    method AddValue(sec: Id, key: string, description: Option<string>, t: JavaType, v: Value) returns (id: Id)
      requires Valid() && IsSection(State(), sec)
      modifies this
      ensures Valid() && State() == SectionNodes.AddValue(old(State()), sec, key, description, t, v)
      ensures id == old(next)
    {
      GrowsKeepsRoot(State(), SectionNodes.AddValue(State(), sec, key, description, t, v));
      id := next;
      nodes := nodes[id := NewValueNode(key, sec, description, t, v)][sec := PutChild(nodes[sec], key, id)];
      next := next + 1;
    }

    /** `addSection(key, description)`: a new empty section under `key`; returns its identity. */
    method AddSection(sec: Id, key: string, description: Option<string>) returns (id: Id)
      requires Valid() && IsSection(State(), sec)
      modifies this
      ensures Valid() && State() == SectionNodes.AddSection(old(State()), sec, key, description)
      ensures id == old(next) && IsSection(State(), id)
    {
      GrowsKeepsRoot(State(), SectionNodes.AddSection(State(), sec, key, description));
      id := next;
      nodes := nodes[id := NewSection(key, sec, description)][sec := PutChild(nodes[sec], key, id)];
      next := next + 1;
    }

    /** `clear()`. */
    method Clear(sec: Id)
      requires Valid() && IsSection(State(), sec)
      modifies this
      ensures Valid() && State() == SectionNodes.Clear(old(State()), sec)
    {
      GrowsKeepsRoot(State(), SectionNodes.Clear(State(), sec));
      nodes := nodes[sec := nodes[sec].(children := map[], order := [])];
    }

    /**
     * `ValueNode.value(T)` and `setValue(Object)`: validate, run the
     * callback, then store. The bound object is passed in and handed back.
     */
    method WriteValue(obj: Obj, id: Id, v: Value) returns (r: Result<()>, obj': Obj)
      requires Valid() && IsValueNode(State(), id)
      modifies this
      ensures Valid() && Outcome(r, State(), obj') == ValueNodes.WriteValue(old(State()), obj, id, v)
    {
      var valid := IsValid(State(), id, v);
      if valid.Err? {
        return Err(valid.error), obj;
      }
      if !valid.value {
        return Err(NotAValidValue(v)), obj;
      }
      var fired := Fire(obj, nodes[id].callback, v);
      if fired.Err? {
        return Err(fired.error), obj;
      }
      ghost var target := StoreValue(State(), id, v);
      nodes := nodes[id := nodes[id].(value := v)];
      assert State() == target;
      r, obj' := Ok(()), fired.value;
    }

    /** `validators(List)`: replaces the validator list of value node `id`. */
    method SetValidators(id: Id, vs: seq<Validator>)
      requires Valid() && IsValueNode(State(), id)
      modifies this
      ensures Valid() && next == old(next) && nodes == old(nodes)[id := WithValidators(old(nodes[id]), vs)]
    {
      ReplacePreserves(State(), id, WithValidators(nodes[id], vs));
      nodes := nodes[id := WithValidators(nodes[id], vs)];
    }

    /** The assignment to `ValueNode.callback` that the binder makes. */
    method SetCallback(id: Id, cb: Callback)
      requires Valid() && IsValueNode(State(), id)
      modifies this
      ensures Valid() && next == old(next) && nodes == old(nodes)[id := old(nodes[id]).(callback := cb)]
    {
      ReplacePreserves(State(), id, nodes[id].(callback := cb));
      nodes := nodes[id := nodes[id].(callback := cb)];
    }

    /** `Node.description(String)`: only the description of node `id` changes. */
    method SetDescription(id: Id, d: Option<string>)
      requires Valid() && id in nodes
      modifies this
      ensures Valid() && next == old(next) && nodes == old(nodes)[id := WithDescription(old(nodes[id]), d)]
    {
      ReplacePreserves(State(), id, WithDescription(nodes[id], d));
      nodes := nodes[id := WithDescription(nodes[id], d)];
    }

    /**
     * `set(path, type, value)` on the segments of the path, recursing into
     * the sections it finds or creates as the Java method recurses.
     */
    method Set(obj: Obj, sec: Id, segs: seq<string>, t: JavaType, v: Value) returns (r: Result<Id>, obj': Obj)
      requires Valid() && IsSection(State(), sec)
      modifies this
      ensures Valid() && Outcome(r, State(), obj') == SectionNodes.Set(old(State()), obj, sec, segs, t, v)
      decreases |segs|, next - sec
    {
      if |segs| == 0 {
        return Err(IndexOutOfBounds), obj;
      }
      ghost var a := State();
      var key := segs[0];
      if key !in nodes[sec].children {
        if |segs| == 1 {
          SetNewValue(a, obj, sec, segs, t, v);
          var id := AddValue(sec, key, None, t, v);
          return Ok(id), obj;
        }
        SetNewSection(a, obj, sec, segs, t, v);
        var s := AddSection(sec, key, None);
        r, obj' := Set(obj, s, segs[1..], t, v);
      } else {
        var c := nodes[sec].children[key];
        assert ChildOk(a, sec, key, c) by { assert ChildrenOk(a, sec); }
        if nodes[c].SectionNode? {
          SetIntoSection(a, obj, sec, segs, t, v);
          r, obj' := Set(obj, c, if |segs| == 1 then segs else segs[1..], t, v);
        } else {
          SetIntoValue(a, obj, sec, segs, t, v);
          var w;
          w, obj' := WriteValue(obj, c, v);
          r := if w.Ok? then Ok(c) else Err(w.error);
        }
      }
    }

    /** `Node.path()`: walks up from the parent, putting each non-root ancestor's key and "." in front. */
    method Path(id: Id) returns (s: string)
      requires Valid() && id in nodes
      ensures s == PathOf(State(), id)
    {
      s := nodes[id].key;
      var cursor := nodes[id].parent;
      ghost var segs := [nodes[id].key];
      PendingKeysOfParent(State(), id);
      while cursor.Some? && !IsRoot(nodes[cursor.value])
        invariant cursor.Some? ==> cursor.value in nodes
        invariant |segs| > 0 && s == JoinPath(segs)
        invariant PendingKeys(State(), cursor) + segs == PathSegments(State(), id)
        decreases if cursor.Some? then cursor.value + 1 else 0
      {
        var p := cursor.value;
        assert ParentOk(State(), p);
        assert PendingKeys(State(), cursor) == PendingKeys(State(), nodes[p].parent) + [nodes[p].key];
        JoinPathCons(nodes[p].key, segs);
        s := nodes[p].key + "." + s;
        segs := [nodes[p].key] + segs;
        cursor := nodes[p].parent;
      }
      assert PendingKeys(State(), cursor) == [];
      assert segs == PathSegments(State(), id);
    }

    /**
     * `Node.root()`: the do-while walk from the parent to the nearest
     * ConfigurationNode; a null parent is dereferenced on the first round.
     */
    method Root(id: Id) returns (r: Result<Id>)
      requires Valid() && id in nodes
      ensures r == RootOf(State(), id)
    {
      if nodes[id].parent.None? {
        return Err(NullPointer);
      }
      assert ParentOk(State(), id);
      var n := nodes[id].parent.value;
      while !IsConfiguration(State(), n) && nodes[n].parent.Some?
        invariant n in nodes && RootFrom(State(), n) == RootFrom(State(), nodes[id].parent.value)
        decreases n
      {
        assert ParentOk(State(), n);
        n := nodes[n].parent.value;
      }
      if IsConfiguration(State(), n) {
        r := Ok(n);
      } else {
        var path := Path(id);
        r := Err(NoRoot(path));
      }
    }

    /**
     * `load(node, context)`: the entries of an object node, one after the
     * other, as `forEachRemaining` runs them; the first exception ends it.
     */
    method Load(obj: Obj, sec: Id, doc: Value) returns (r: Result<()>, obj': Obj)
      requires Valid() && IsSection(State(), sec)
      modifies this
      ensures Valid() && Outcome(r, State(), obj') == SectionNodes.Load(old(State()), obj, sec, doc, loadContext)
      decreases doc, 1
    {
      if !doc.MapV? {
        return Ok(()), obj;
      }
      ghost var a := State();
      var i := 0;
      obj' := obj;
      while i < |doc.entries|
        invariant 0 <= i <= |doc.entries|
        invariant Valid() && IsSection(State(), sec)
        invariant LoadEntries(a, obj, sec, doc, 0, loadContext) == LoadEntries(State(), obj', sec, doc, i, loadContext)
        decreases |doc.entries| - i
      {
        r, obj' := LoadEntry(obj', sec, doc, i);
        if r.Err? {
          return;
        }
        i := i + 1;
      }
      r := Ok(());
    }

    /**
     * The body of the lambda `load` runs on entry `i`: the invalid-key
     * handler for an unknown key, a recursive load for an object over a
     * section, and otherwise a decode and a `setValue`. On success the rest
     * of the load is unchanged by having done this entry first.
     */
    method LoadEntry(obj: Obj, sec: Id, doc: Value, i: nat) returns (r: Result<()>, obj': Obj)
      requires Valid() && IsSection(State(), sec) && doc.MapV? && i < |doc.entries|
      modifies this
      ensures Valid() && IsSection(State(), sec)
      ensures r.Err? ==> Outcome(r, State(), obj') == LoadEntries(old(State()), obj, sec, doc, i, loadContext)
      ensures r.Ok? ==> LoadEntries(State(), obj', sec, doc, i + 1, loadContext) == LoadEntries(old(State()), obj, sec, doc, i, loadContext)
      decreases doc, 0
    {
      ghost var a := State();
      var key := doc.entries[i].0;
      var v := doc.entries[i].1;
      obj' := obj;
      if key !in nodes[sec].children {
        LoadUnknownKey(a, obj, sec, doc, i, loadContext);
        r := HandleInvalidKey(loadContext.policy, key);
        return;
      }
      var c := nodes[sec].children[key];
      assert ChildOk(a, sec, key, c) by { assert ChildrenOk(a, sec); }
      if v.MapV? && nodes[c].SectionNode? {
        LoadIntoSection(a, obj, sec, doc, i, loadContext);
        r, obj' := Load(obj, c, v);
        SameShapeKeepsSection(a, State(), sec);
      } else if nodes[c].SectionNode? {
        LoadOverSection(a, obj, sec, doc, i, loadContext);
        r := Err(ClassCast);
      } else {
        LoadIntoValue(a, obj, sec, doc, i, loadContext);
        var decoded := loadContext.decode(nodes[c].valueType, v);
        if decoded.None? {
          var path := Path(c);
          return Err(CannotConvert(path, v, loadContext.file)), obj;
        }
        r, obj' := WriteValue(obj, c, decoded.value);
      }
    }

    /**
     * `asString(context, indent)`: appends the text of each child in
     * insertion order, recursing into child sections.
     */
    method AsString(sec: Id, indent: nat) returns (s: string)
      requires Valid() && IsSection(State(), sec)
      ensures s == Render(State(), sec, indent, serializeContext)
      decreases next - sec, 1
    {
      var order := nodes[sec].order;
      assert KeysInOrder(nodes[sec].children, order) by { assert ChildrenOk(State(), sec); }
      s := "";
      var i := 0;
      while i < |order|
        invariant 0 <= i <= |order|
        invariant s + RenderKeys(State(), sec, order[i..], indent, serializeContext) == Render(State(), sec, indent, serializeContext)
      {
        var c := nodes[sec].children[order[i]];
        assert ChildOk(State(), sec, order[i], c) by { assert ChildrenOk(State(), sec); }
        assert order[i..][1..] == order[i + 1..];
        var piece := ChildString(sec, c, indent);
        s := s + piece;
        i := i + 1;
      }
    }

    /** The text of child `c` of section `sec`: its value lines, or its header and its own children. */
    method ChildString(sec: Id, c: Id, indent: nat) returns (s: string)
      requires Valid() && IsSection(State(), sec) && c in nodes && sec < c
      ensures s == ChildText(State(), sec, c, indent, serializeContext)
      decreases next - sec, 0
    {
      var child := nodes[c];
      if child.ValueNode? {
        s := ValueText(child, indent, serializeContext);
      } else {
        var inner := AsString(c, indent + serializeContext.indentSize);
        s := SectionHeader(child, indent, serializeContext) + inner;
      }
    }

    /** `ConfigurationNode.save()`: the text written to the file, the whole tree from indentation 0. */
    method Save() returns (text: string)
      requires Valid()
      ensures text == Render(State(), 0, 0, serializeContext)
    {
      text := AsString(0, 0);
    }

    /** `ConfigurationNode.reload()`: `doc` is the tree the codec read from the file. */
    method Reload(obj: Obj, doc: Value) returns (r: Result<()>, obj': Obj)
      requires Valid()
      modifies this
      ensures Valid() && Outcome(r, State(), obj') == SectionNodes.Load(old(State()), obj, 0, doc, loadContext)
    {
      r, obj' := Load(obj, 0, doc);
    }
  }
}
