/**
 * lectern-core's SectionNode operations on the arena: attaching children,
 * path lookup, `set` with its creation of missing nodes, `clear`, the
 * overlay `load` of an external key/value tree, and `asString`.
 */
module SectionNodes {
  import opened Wrappers
  import opened Values
  import opened Errors
  import opened Validators
  import opened Nodes
  import opened Text
  import opened ValueNodes
  import opened InvalidKeyHandler

  /** The parts of a node that no operation of the tree ever changes. */
  predicate SameIdentity(m: Node, n: Node) {
    m.key == n.key && m.parent == n.parent && (m.SectionNode? <==> n.SectionNode?) &&
    (m.SectionNode? ==> n.file == m.file)
  }

  /** `b` is `a` after operations that only allocate and mutate: every old node is still there as itself. */
  predicate Grows(a: Arena, b: Arena) {
    a.next <= b.next &&
    forall x | x in a.nodes :: x in b.nodes && SameIdentity(a.nodes[x], b.nodes[x])
  }

  /** `n` is `m`, or differs from it in the current value only. */
  predicate ValueOnlyChange(m: Node, n: Node) {
    n == m || (m.ValueNode? && n.ValueNode? && n == m.(value := n.value))
  }

  /** `b` is `a` with some current values changed, and nothing else. */
  predicate SameShape(a: Arena, b: Arena) {
    a.next == b.next && a.nodes.Keys == b.nodes.Keys &&
    forall x | x in a.nodes :: ValueOnlyChange(a.nodes[x], b.nodes[x])
  }

  lemma SameShapeTransitive(a: Arena, b: Arena, c: Arena)
    requires SameShape(a, b) && SameShape(b, c)
    ensures SameShape(a, c)
  {
    forall x | x in a.nodes
      ensures ValueOnlyChange(a.nodes[x], c.nodes[x])
    {
      assert ValueOnlyChange(a.nodes[x], b.nodes[x]);
      assert ValueOnlyChange(b.nodes[x], c.nodes[x]);
    }
  }

  lemma SameShapeWellFormed(a: Arena, b: Arena)
    requires WellFormed(a) && SameShape(a, b)
    ensures WellFormed(b)
  {
    forall x | x in b.nodes
      ensures x < b.next && ParentOk(b, x) && ChildrenOk(b, x)
    {
      assert ValueOnlyChange(a.nodes[x], b.nodes[x]);
      assert ParentOk(a, x) && ChildrenOk(a, x);
      var p := a.nodes[x].parent;
      if p.Some? {
        assert ValueOnlyChange(a.nodes[p.value], b.nodes[p.value]);
      }
      if b.nodes[x].SectionNode? {
        forall k | k in b.nodes[x].children
          ensures ChildOk(b, x, k, b.nodes[x].children[k])
        {
          var c := a.nodes[x].children[k];
          assert ChildOk(a, x, k, c);
          assert ValueOnlyChange(a.nodes[c], b.nodes[c]);
        }
      }
    }
  }

  lemma GrowsTransitive(a: Arena, b: Arena, c: Arena)
    requires Grows(a, b) && Grows(b, c)
    ensures Grows(a, c)
  {
  }

  /** A section stays a section when the arena only grows. */
  lemma GrowsKeepsSection(a: Arena, b: Arena, sec: Id)
    requires IsSection(a, sec) && Grows(a, b)
    ensures IsSection(b, sec)
  {
    assert SameIdentity(a.nodes[sec], b.nodes[sec]);
  }

  /** A section stays a section when only current values change. */
  lemma SameShapeKeepsSection(a: Arena, b: Arena, sec: Id)
    requires IsSection(a, sec) && SameShape(a, b)
    ensures IsSection(b, sec)
  {
    assert ValueOnlyChange(a.nodes[sec], b.nodes[sec]);
  }

  /** The LinkedHashMap of section `sec` after `put(n.key, n)`: a re-put key keeps its position. */
  function PutChild(s: Node, key: string, c: Id): (r: Node)
    requires s.SectionNode?
    ensures r.SectionNode? && SameIdentity(s, r) && r.description == s.description
    ensures r.children == s.children[key := c]
    ensures key in s.children ==> r.order == s.order
    ensures key !in s.children ==> r.order == s.order + [key]
  {
    s.(children := s.children[key := c], order := if key in s.children then s.order else s.order + [key])
  }

  /**
   * `SectionNode.addChild(Node)` for a node created for this section: the
   * node is allocated and stored under its own key, replacing any previous
   * child with that key.
   */
  function Put(a: Arena, sec: Id, n: Node): (r: Arena)
    requires WellFormed(a) && IsSection(a, sec)
    requires n.parent == Some(sec)
    requires n.SectionNode? ==> n.children == map[] && n.order == []
    ensures WellFormed(r) && Grows(a, r) && r.next == a.next + 1
    ensures r.nodes.Keys == a.nodes.Keys + {a.next} && r.nodes[a.next] == n
    ensures r.nodes[sec] == PutChild(a.nodes[sec], n.key, a.next)
    ensures forall x | x in a.nodes && x != sec :: r.nodes[x] == a.nodes[x]
  {
    var r := Arena(a.nodes[a.next := n][sec := PutChild(a.nodes[sec], n.key, a.next)], a.next + 1);
    PutPreserves(a, sec, n, r);
    r
  }

  lemma PutPreserves(a: Arena, sec: Id, n: Node, r: Arena)
    requires WellFormed(a) && IsSection(a, sec)
    requires n.parent == Some(sec)
    requires n.SectionNode? ==> n.children == map[] && n.order == []
    requires r == Arena(a.nodes[a.next := n][sec := PutChild(a.nodes[sec], n.key, a.next)], a.next + 1)
    ensures WellFormed(r)
  {
    assert a.next !in a.nodes;
    forall x | x in r.nodes
      ensures x < r.next && ParentOk(r, x) && ChildrenOk(r, x)
    {
      if x == sec {
        assert ParentOk(a, sec) && ChildrenOk(a, sec);
        PutSectionOk(a, sec, n, r);
      } else if x != a.next {
        PutOtherOk(a, sec, n, r, x);
      }
    }
  }

  /** After the put, the section itself still lists its children in order, the new one included. */
  lemma PutSectionOk(a: Arena, sec: Id, n: Node, r: Arena)
    requires IsSection(a, sec) && sec < a.next && a.next !in a.nodes && ParentOk(a, sec) && ChildrenOk(a, sec)
    requires n.parent == Some(sec)
    requires r == Arena(a.nodes[a.next := n][sec := PutChild(a.nodes[sec], n.key, a.next)], a.next + 1)
    ensures ParentOk(r, sec) && ChildrenOk(r, sec)
  {
    var s := a.nodes[sec];
    var t := r.nodes[sec];
    forall k | k in t.children
      ensures ChildOk(r, sec, k, t.children[k])
    {
      if k != n.key {
        assert ChildOk(a, sec, k, s.children[k]);
      }
    }
    KeysInOrderPut(s.children, s.order, n.key, a.next);
  }

  /** `put` on a LinkedHashMap keeps its keys each once in insertion order; a new key goes last. */
  lemma KeysInOrderPut(children: map<string, Id>, order: seq<string>, key: string, c: Id)
    requires KeysInOrder(children, order)
    ensures KeysInOrder(children[key := c], if key in children then order else order + [key])
  {
    if key !in children {
      var o := order + [key];
      assert forall i | 0 <= i < |order| :: order[i] != key;
      assert forall i | 0 <= i < |o| :: o[i] == if i < |order| then order[i] else key;
    }
  }

  /** After the put, every other old node keeps its parent and children. */
  lemma PutOtherOk(a: Arena, sec: Id, n: Node, r: Arena, x: Id)
    requires WellFormed(a) && IsSection(a, sec)
    requires r == Arena(a.nodes[a.next := n][sec := PutChild(a.nodes[sec], n.key, a.next)], a.next + 1)
    requires x in a.nodes && x != sec
    ensures x < r.next && ParentOk(r, x) && ChildrenOk(r, x)
  {
    assert a.next !in a.nodes;
    assert ParentOk(a, x) && ChildrenOk(a, x);
    if r.nodes[x].SectionNode? {
      forall k | k in r.nodes[x].children
        ensures ChildOk(r, x, k, r.nodes[x].children[k])
      {
        assert ChildOk(a, x, k, a.nodes[x].children[k]);
      }
    }
  }

  /** A new empty section, as `new SectionNode(key, this, description)` builds it. */
  function NewSection(key: string, parent: Id, description: Option<string>): (r: Node)
    ensures r.SectionNode? && r.key == key && r.parent == Some(parent) && r.description == description
    ensures r.children == map[] && r.order == [] && r.file.None?
  {
    SectionNode(key, Some(parent), description, map[], [], None)
  }

  /** `addSection(key, description)`: the new section gets identity `a.next`. */
  function AddSection(a: Arena, sec: Id, key: string, description: Option<string>): (r: Arena)
    requires WellFormed(a) && IsSection(a, sec)
    ensures WellFormed(r) && Grows(a, r) && r.next == a.next + 1
    ensures r.nodes.Keys == a.nodes.Keys + {a.next} && r.nodes[a.next] == NewSection(key, sec, description)
    ensures r.nodes[sec] == PutChild(a.nodes[sec], key, a.next)
    ensures forall x | x in a.nodes && x != sec :: r.nodes[x] == a.nodes[x]
  {
    Put(a, sec, NewSection(key, sec, description))
  }

  /** `addChild(key, description, type, value)`: the new value node gets identity `a.next`. */
  function AddValue(a: Arena, sec: Id, key: string, description: Option<string>, t: JavaType, v: Value): (r: Arena)
    requires WellFormed(a) && IsSection(a, sec)
    ensures WellFormed(r) && Grows(a, r) && r.next == a.next + 1
    ensures r.nodes.Keys == a.nodes.Keys + {a.next} && r.nodes[a.next] == NewValueNode(key, sec, description, t, v)
    ensures r.nodes[sec] == PutChild(a.nodes[sec], key, a.next)
    ensures forall x | x in a.nodes && x != sec :: r.nodes[x] == a.nodes[x]
  {
    Put(a, sec, NewValueNode(key, sec, description, t, v))
  }

  /** `clear()`: the section loses all its children; the nodes themselves stay allocated. */
  function Clear(a: Arena, sec: Id): (r: Arena)
    requires WellFormed(a) && IsSection(a, sec)
    ensures WellFormed(r) && Grows(a, r) && r.next == a.next && r.nodes.Keys == a.nodes.Keys
    ensures r.nodes[sec].children == map[] && r.nodes[sec].order == []
    ensures r.nodes[sec].description == a.nodes[sec].description
    ensures forall x | x in a.nodes && x != sec :: r.nodes[x] == a.nodes[x]
  {
    var r := Arena(a.nodes[sec := a.nodes[sec].(children := map[], order := [])], a.next);
    forall x | x in r.nodes
      ensures x < r.next && ParentOk(r, x) && ChildrenOk(r, x)
    {
      assert ParentOk(a, x) && ChildrenOk(a, x);
      if x != sec && r.nodes[x].SectionNode? {
        forall k | k in r.nodes[x].children
          ensures ChildOk(r, x, k, r.nodes[x].children[k])
        {
          assert ChildOk(a, x, k, a.nodes[x].children[k]);
        }
      }
    }
    r
  }

  /** The Java `String.split("\\.")` that turns a path into segments: trailing empty segments are dropped. */
  function SplitPath(s: string): (r: seq<string>)
    ensures (forall i | 0 <= i < |s| :: s[i] != '.') ==> r == [s]
  {
    if forall i | 0 <= i < |s| :: s[i] != '.' then [s]
    else DropTrailingEmpty(SplitAll(s))
  }

  /** Every piece between dots. */
  function SplitAll(s: string): (r: seq<string>)
    ensures |r| > 0
    decreases |s|
  {
    if |s| == 0 then [""]
    else
      var rest := SplitAll(s[1..]);
      if s[0] == '.' then [""] + rest
      else [[s[0]] + rest[0]] + rest[1..]
  }

  function DropTrailingEmpty(ss: seq<string>): (r: seq<string>)
    ensures |r| <= |ss| && r == ss[..|r|]
    ensures |r| > 0 ==> r[|r| - 1] != ""
    ensures forall i | |r| <= i < |ss| :: ss[i] == ""
  {
    if |ss| == 0 then []
    else if ss[|ss| - 1] == "" then DropTrailingEmpty(ss[..|ss| - 1])
    else ss
  }

  /** Splitting the examples: a dotted key, a key without dots, and the degenerate keys "" and ".". */
  lemma SplitPathExamples()
    ensures SplitPath("a.b") == ["a", "b"]
    ensures SplitPath("key") == ["key"]
    ensures SplitPath("") == [""]
    ensures SplitPath(".") == []
  {
    assert SplitAll("") == [""];
    assert "b"[1..] == "" && "b"[0] == 'b';
    var rb := SplitAll("b"[1..]);
    assert ['b'] + rb[0] == "b" && rb[1..] == [];
    assert SplitAll("b") == ["b"];
    assert ".b"[1..] == "b" && ".b"[0] == '.';
    assert SplitAll(".b") == ["", "b"];
    assert "a.b"[1..] == ".b" && "a.b"[0] == 'a';
    var rab := SplitAll("a.b"[1..]);
    assert ['a'] + rab[0] == "a" && rab[1..] == ["b"];
    assert SplitAll("a.b") == ["a", "b"];
    assert "a.b"[1] == '.';
    assert "."[1..] == "" && "."[0] == '.';
    assert SplitAll(".") == ["", ""];
    assert DropTrailingEmpty(["", ""]) == DropTrailingEmpty([""]);
    assert DropTrailingEmpty([""]) == DropTrailingEmpty([]);
  }

  /**
   * `getNode(path)` on the segments of the path: null for an absent first
   * segment, the child for a single segment, and otherwise the lookup of the
   * rest in the child section. An empty segment array throws
   * ArrayIndexOutOfBoundsException, and a path through a value node
   * ClassCastException.
   */
  function GetNode(a: Arena, sec: Id, segs: seq<string>): (r: Result<Option<Id>>)
    requires WellFormed(a) && IsSection(a, sec)
    ensures |segs| == 0 <==> r == Err(IndexOutOfBounds)
    ensures |segs| > 0 && segs[0] !in a.nodes[sec].children ==> r == Ok(None)
    ensures |segs| == 1 && segs[0] in a.nodes[sec].children ==> r == Ok(Some(a.nodes[sec].children[segs[0]]))
    ensures r.Ok? && r.value.Some? ==>
      r.value.value in a.nodes && a.nodes[r.value.value].key == segs[|segs| - 1] && sec < r.value.value
    ensures r.Err? ==> r == Err(IndexOutOfBounds) || r == Err(ClassCast)
    decreases |segs|
  {
    if |segs| == 0 then Err(IndexOutOfBounds)
    else if segs[0] !in a.nodes[sec].children then Ok(None)
    else
      var c := a.nodes[sec].children[segs[0]];
      assert ChildOk(a, sec, segs[0], c) by { assert ChildrenOk(a, sec); }
      if |segs| == 1 then Ok(Some(c))
      else if a.nodes[c].SectionNode? then GetNode(a, c, segs[1..])
      else Err(ClassCast)
  }

  /** What `get(path)` returns: null, a value node's (non-null) value, or a section node. */
  datatype Got = NullRef | ValueRef(v: Value) | SectionRef(id: Id)

  /** `get(path)`: a value node's current value, the section node itself, or null when there is no node. */
  function Get(a: Arena, sec: Id, segs: seq<string>): (r: Result<Got>)
    requires WellFormed(a) && IsSection(a, sec)
    ensures GetNode(a, sec, segs).Err? <==> r.Err?
    ensures GetNode(a, sec, segs) == Ok(None) ==> r == Ok(NullRef)
    ensures r.Ok? && r.value.ValueRef? ==> !r.value.v.Null?
    ensures r.Ok? && r.value.SectionRef? ==> GetNode(a, sec, segs) == Ok(Some(r.value.id)) && IsSection(a, r.value.id)
    ensures r.Ok? && r.value.ValueRef? ==>
      exists x :: GetNode(a, sec, segs) == Ok(Some(x)) && IsValueNode(a, x) && a.nodes[x].value == r.value.v
  {
    match GetNode(a, sec, segs)
    case Err(e) => Err(e)
    case Ok(None) => Ok(NullRef)
    case Ok(Some(x)) =>
      if a.nodes[x].ValueNode? then (if a.nodes[x].value.Null? then Ok(NullRef) else Ok(ValueRef(a.nodes[x].value)))
      else Ok(SectionRef(x))
  }

  /**
   * `set(path, type, value)` on the segments of the path. An absent last
   * segment gets a new value node holding the value as default and current
   * value; an absent intermediate segment a new section, into which the rest
   * is set. An existing section is descended into with the rest of the path,
   * which for a single segment is that same segment again (`substring` from
   * `indexOf('.') + 1` of a path without a dot is the whole path). An existing
   * value node, last segment or not, receives a validated `value(...)` write
   * and is returned.
   */
  function Set(a: Arena, obj: Obj, sec: Id, segs: seq<string>, t: JavaType, v: Value): (o: Outcome<Id>)
    requires WellFormed(a) && IsSection(a, sec)
    ensures WellFormed(o.arena) && Grows(a, o.arena)
    ensures forall x | x in a.nodes && x < sec :: o.arena.nodes[x] == a.nodes[x]
    ensures o.result.Ok? ==> IsValueNode(o.arena, o.result.value) && o.arena.nodes[o.result.value].value == v
    decreases |segs|, a.next - sec
  {
    if |segs| == 0 then Outcome(Err(IndexOutOfBounds), a, obj)
    else
      var key := segs[0];
      var s := a.nodes[sec];
      if key !in s.children then
        if |segs| == 1 then
          Outcome(Ok(a.next), AddValue(a, sec, key, None, t, v), obj)
        else
          var a1 := AddSection(a, sec, key, None);
          var r := Set(a1, obj, a.next, segs[1..], t, v);
          GrowsTransitive(a, a1, r.arena);
          r
      else
        var c := s.children[key];
        assert ChildOk(a, sec, key, c) by { assert ChildrenOk(a, sec); }
        if a.nodes[c].SectionNode? then
          Set(a, obj, c, if |segs| == 1 then segs else segs[1..], t, v)
        else
          var w := WriteValue(a, obj, c, v);
          Outcome(if w.result.Ok? then Ok(c) else Err(w.result.error), w.arena, w.obj)
  }

  /** What `load` is given besides the tree: the root's file, the invalid-key policy and the codec's decoder. */
  datatype LoadContext = LoadContext(file: string, policy: Preset, decode: (JavaType, Value) -> Option<Value>)

  /**
   * `load(node, context)`: an object node overlays its entries onto the
   * section's children in the order of the entries; anything else is
   * ignored.
   */
  function Load(a: Arena, obj: Obj, sec: Id, doc: Value, ctx: LoadContext): (o: Outcome<()>)
    requires WellFormed(a) && IsSection(a, sec)
    ensures WellFormed(o.arena) && SameShape(a, o.arena)
    decreases doc, 1
  {
    if doc.MapV? then LoadEntries(a, obj, sec, doc, 0, ctx) else Outcome(Ok(()), a, obj)
  }

  /**
   * The entries of `doc` from the `i`-th on. An unknown key goes to the
   * invalid-key policy; an object entry whose child is a section is loaded
   * into it; an entry whose child is a section otherwise fails the cast to
   * ValueNode; any other entry is decoded to the node's type, which failing
   * throws IllegalArgumentException naming the path, value and file, and the
   * decoded value goes through `setValue`. The first exception ends the load;
   * the entries before it stay applied.
   */
  function LoadEntries(a: Arena, obj: Obj, sec: Id, doc: Value, i: nat, ctx: LoadContext): (o: Outcome<()>)
    requires WellFormed(a) && IsSection(a, sec) && doc.MapV?
    ensures WellFormed(o.arena) && SameShape(a, o.arena)
    decreases doc, 0, |doc.entries| - i
  {
    if i >= |doc.entries| then Outcome(Ok(()), a, obj)
    else
      var key := doc.entries[i].0;
      var v := doc.entries[i].1;
      var s := a.nodes[sec];
      if key !in s.children then
        match HandleInvalidKey(ctx.policy, key)
        case Err(e) => Outcome(Err(e), a, obj)
        case Ok(_) => LoadEntries(a, obj, sec, doc, i + 1, ctx)
      else
        var c := s.children[key];
        assert ChildOk(a, sec, key, c) by { assert ChildrenOk(a, sec); }
        if v.MapV? && a.nodes[c].SectionNode? then
          var o := Load(a, obj, c, v, ctx);
          if o.result.Err? then o
          else
            var rest := LoadEntries(o.arena, o.obj, sec, doc, i + 1, ctx);
            SameShapeTransitive(a, o.arena, rest.arena);
            rest
        else if a.nodes[c].SectionNode? then Outcome(Err(ClassCast), a, obj)
        else
          match ctx.decode(a.nodes[c].valueType, v)
          case None => Outcome(Err(CannotConvert(PathOf(a, c), v, ctx.file)), a, obj)
          case Some(d) =>
            var w := WriteValue(a, obj, c, d);
            assert SameShape(a, w.arena) by {
              assert forall x | x in a.nodes :: ValueOnlyChange(a.nodes[x], w.arena.nodes[x]);
            }
            if w.result.Err? then Outcome(Err(w.result.error), w.arena, w.obj)
            else
              var rest := LoadEntries(w.arena, w.obj, sec, doc, i + 1, ctx);
              SameShapeTransitive(a, w.arena, rest.arena);
              rest
  }

  /**
   * `asString(context, indent)`: the children in insertion order; a value
   * child renders itself, a section child renders its description comment
   * line, its `key:` line and then its own children one indentation step
   * deeper.
   */
  function Render(a: Arena, sec: Id, indent: nat, ctx: SerializeContext): string
    requires WellFormed(a) && IsSection(a, sec)
    decreases a.next - sec, 2, 0
  {
    assert KeysInOrder(a.nodes[sec].children, a.nodes[sec].order) by {
      assert ChildrenOk(a, sec);
    }
    RenderKeys(a, sec, a.nodes[sec].order, indent, ctx)
  }

  /** The text of the children under `keys`, one after the other. */
  function RenderKeys(a: Arena, sec: Id, keys: seq<string>, indent: nat, ctx: SerializeContext): string
    requires WellFormed(a) && IsSection(a, sec)
    requires forall i | 0 <= i < |keys| :: keys[i] in a.nodes[sec].children
    decreases a.next - sec, 1, |keys|
  {
    if |keys| == 0 then ""
    else
      assert ChildrenOk(a, sec);
      assert ChildOk(a, sec, keys[0], a.nodes[sec].children[keys[0]]);
      ChildText(a, sec, a.nodes[sec].children[keys[0]], indent, ctx) + RenderKeys(a, sec, keys[1..], indent, ctx)
  }

  /** The text of one child `c` of section `sec`. */
  function ChildText(a: Arena, sec: Id, c: Id, indent: nat, ctx: SerializeContext): string
    requires WellFormed(a) && IsSection(a, sec) && c in a.nodes && sec < c
    decreases a.next - sec, 0, 0
  {
    var n := a.nodes[c];
    if n.ValueNode? then ValueText(n, indent, ctx)
    else SectionHeader(n, indent, ctx) + Render(a, c, indent + ctx.indentSize, ctx)
  }

  /** The lines that introduce a child section: the optional description comment and `key:`. */
  function SectionHeader(n: Node, indent: nat, ctx: SerializeContext): string {
    (if n.description.Some? then Spaces(indent) + [ctx.commentChar] + " " + n.description.value + "\n" else "")
    + Spaces(indent) + n.key + ":\n"
  }
}
