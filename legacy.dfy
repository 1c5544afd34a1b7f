/**
 * The older configuration tree of the `lectern` module: a RootSectionNode,
 * which is its own parent, with sections and plain value nodes under it.
 * Its `set` refuses to pass through or onto the wrong kind of node, its
 * `load` rejects every unknown key, value writes are not validated, and
 * SectionNodeImpl adds a varargs `get` and `set`. The nodes live in an arena
 * as in the core tree; identity 0 is the root.
 */
module Legacy {
  import opened Wrappers
  import opened Values
  import opened Errors
  import opened Text
  import opened StringUtils
  import Nodes
  import ValueNodes
  import SectionNodes

  /** `LecternConfig.INDENT` and `LecternConfigImpl.INDENT`, the indentation step of `asString`. */
  const INDENT: nat := 2

  /** A legacy node; `parent` is an identity, and the root's parent is the root. */
  datatype Node =
    | SectionNode(key: string, parent: nat, description: Option<string>, children: map<string, nat>, order: seq<string>)
    | ValueNode(key: string, parent: nat, description: Option<string>, value: Value)

  datatype Tree = Tree(nodes: map<nat, Node>, next: nat)

  /** An operation's exception or result, and the tree after it. */
  datatype Outcome<T> = Outcome(result: Result<T>, tree: Tree)

  predicate ChildOk(t: Tree, id: nat, k: string, c: nat) {
    c in t.nodes && id < c && t.nodes[c].key == k && t.nodes[c].parent == id
  }

  /**
   * Node `id` was allocated; the root is a section with key "" that is its
   * own parent; any other node has a section allocated before it as parent;
   * and a section maps each key once, in order, to a child with that key.
   */
  predicate NodeOk(t: Tree, id: nat)
    requires id in t.nodes
  {
    var n := t.nodes[id];
    id < t.next &&
    (id == 0 ==> n.SectionNode? && n.key == "" && n.parent == 0) &&
    (id != 0 ==> n.parent < id && n.parent in t.nodes && t.nodes[n.parent].SectionNode?) &&
    (n.SectionNode? ==>
      Nodes.KeysInOrder(n.children, n.order) && forall k | k in n.children :: ChildOk(t, id, k, n.children[k]))
  }

  predicate WellFormed(t: Tree) {
    0 in t.nodes && forall id {:trigger NodeOk(t, id)} | id in t.nodes :: NodeOk(t, id)
  }

  predicate IsSection(t: Tree, id: nat) {
    id in t.nodes && t.nodes[id].SectionNode?
  }

  predicate IsValueNode(t: Tree, id: nat) {
    id in t.nodes && t.nodes[id].ValueNode?
  }

  /** `isRoot()`: true for the RootSectionNode only. */
  predicate IsRoot(t: Tree, id: nat) {
    id == 0
  }

  /** The root is the only node that is its own parent. */
  lemma OwnParentIsRoot(t: Tree, x: nat)
    requires WellFormed(t) && x in t.nodes
    ensures t.nodes[x].parent == x <==> IsRoot(t, x)
  {
    assert NodeOk(t, x);
  }

  /** The RootSectionNode of `header`: key "", its own parent, and the header through `emptyToNull`. */
  function NewRoot(header: Option<string>): (r: Tree)
    ensures WellFormed(r) && r.nodes.Keys == {0} && r.next == 1
    ensures r.nodes[0].SectionNode? && r.nodes[0].key == "" && r.nodes[0].parent == 0
    ensures r.nodes[0].description.None? <==> header.None? || IsBlank(header.value)
    ensures r.nodes[0].children == map[]
  {
    Tree(map[0 := SectionNode("", 0, EmptyToNull(header), map[], [])], 1)
  }

  /** `b` is `a` after operations that only allocate and mutate: old nodes keep key, parent and kind. */
  predicate Grows(a: Tree, b: Tree) {
    a.next <= b.next &&
    forall x | x in a.nodes ::
      x in b.nodes && b.nodes[x].key == a.nodes[x].key && b.nodes[x].parent == a.nodes[x].parent &&
      (b.nodes[x].SectionNode? <==> a.nodes[x].SectionNode?)
  }

  /** `b` is `a` with some values changed, and nothing else. */
  predicate SameShape(a: Tree, b: Tree) {
    a.next == b.next && a.nodes.Keys == b.nodes.Keys &&
    forall x | x in a.nodes ::
      b.nodes[x] == a.nodes[x] || (a.nodes[x].ValueNode? && b.nodes[x].ValueNode? && b.nodes[x] == a.nodes[x].(value := b.nodes[x].value))
  }

  /** Every allocated identity is below `next`. */
  lemma Allocated(t: Tree)
    requires WellFormed(t)
    ensures forall x | x in t.nodes :: x < t.next
    ensures t.next !in t.nodes
  {
    forall x | x in t.nodes
      ensures x < t.next
    {
      assert NodeOk(t, x);
    }
  }

  /** Changing values leaves every section as it was. */
  lemma SameShapeKeepsSection(a: Tree, b: Tree, sec: nat)
    requires SameShape(a, b) && IsSection(a, sec)
    ensures IsSection(b, sec) && b.nodes[sec] == a.nodes[sec]
  {
  }

  lemma GrowsTransitive(a: Tree, b: Tree, c: Tree)
    requires Grows(a, b) && Grows(b, c)
    ensures Grows(a, c)
  {
  }

  lemma SameShapeTransitive(a: Tree, b: Tree, c: Tree)
    requires SameShape(a, b) && SameShape(b, c)
    ensures SameShape(a, c)
  {
  }

  /** The children map after `children.put(key, c)`: a re-put key keeps its position. */
  function PutChild(s: Node, key: string, c: nat): (r: Node)
    requires s.SectionNode?
    ensures r.SectionNode? && r.key == s.key && r.parent == s.parent && r.description == s.description
    ensures r.children == s.children[key := c]
    ensures r.order == if key in s.children then s.order else s.order + [key]
  {
    s.(children := s.children[key := c], order := if key in s.children then s.order else s.order + [key])
  }

  /** `addChild(node)` for a node created for section `sec`: allocated as `t.next`, stored under its key. */
  function Put(t: Tree, sec: nat, n: Node): (r: Tree)
    requires WellFormed(t) && IsSection(t, sec) && n.parent == sec
    requires n.SectionNode? ==> n.children == map[] && n.order == []
    ensures WellFormed(r) && Grows(t, r) && r.next == t.next + 1
    ensures r.nodes.Keys == t.nodes.Keys + {t.next} && r.nodes[t.next] == n
    ensures r.nodes[sec] == PutChild(t.nodes[sec], n.key, t.next)
    ensures forall x | x in t.nodes && x != sec :: r.nodes[x] == t.nodes[x]
  {
    var r := Tree(t.nodes[t.next := n][sec := PutChild(t.nodes[sec], n.key, t.next)], t.next + 1);
    Allocated(t);
    PutPreserves(t, sec, n, r);
    PutFrame(t, sec, n, r);
    r
  }

  lemma PutPreserves(t: Tree, sec: nat, n: Node, r: Tree)
    requires WellFormed(t) && IsSection(t, sec) && n.parent == sec
    requires n.SectionNode? ==> n.children == map[] && n.order == []
    requires r == Tree(t.nodes[t.next := n][sec := PutChild(t.nodes[sec], n.key, t.next)], t.next + 1)
    ensures WellFormed(r)
  {
    Allocated(t);
    assert NodeOk(t, 0);
    forall x | x in r.nodes
      ensures NodeOk(r, x)
    {
      if x == t.next {
        assert NodeOk(t, sec);
      } else {
        assert NodeOk(t, x);
        if x == sec {
          var s := t.nodes[sec];
          var u := r.nodes[sec];
          forall k | k in u.children
            ensures ChildOk(r, x, k, u.children[k])
          {
            if k != n.key {
              assert ChildOk(t, x, k, s.children[k]);
            }
          }
          if n.key !in s.children {
            assert forall i | 0 <= i < |s.order| :: s.order[i] != n.key;
          }
          assert Nodes.NoDup(u.order);
        } else if r.nodes[x].SectionNode? {
          forall k | k in r.nodes[x].children
            ensures ChildOk(r, x, k, r.nodes[x].children[k])
          {
            assert ChildOk(t, x, k, t.nodes[x].children[k]);
          }
        }
      }
    }
  }

  lemma PutFrame(t: Tree, sec: nat, n: Node, r: Tree)
    requires IsSection(t, sec) && t.next !in t.nodes
    requires r == Tree(t.nodes[t.next := n][sec := PutChild(t.nodes[sec], n.key, t.next)], t.next + 1)
    ensures Grows(t, r)
    ensures forall x | x in t.nodes && x != sec :: r.nodes[x] == t.nodes[x]
  {
  }

  /** `new ValueNodeImpl(key, parent, value, description)`: a blank description is stored as null. */
  function NewValue(key: string, sec: nat, v: Value, description: Option<string>): (r: Node)
    ensures r.ValueNode? && r.key == key && r.parent == sec && r.value == v
    ensures r.description == EmptyToNull(description)
  {
    ValueNode(key, sec, EmptyToNull(description), v)
  }

  /** `new SectionNode(key, parent, description)`: empty, with a blank description stored as null. */
  function NewSection(key: string, sec: nat, description: Option<string>): (r: Node)
    ensures r.SectionNode? && r.key == key && r.parent == sec && r.children == map[] && r.order == []
    ensures r.description == EmptyToNull(description)
  {
    SectionNode(key, sec, EmptyToNull(description), map[], [])
  }

  /** `addChild(key, value[, description])`: a value node under `key`, allocated as `t.next`. */
  function AddChild(t: Tree, sec: nat, key: string, v: Value, description: Option<string>): (r: Tree)
    requires WellFormed(t) && IsSection(t, sec)
    ensures WellFormed(r) && Grows(t, r) && r.next == t.next + 1
    ensures t.next in r.nodes && r.nodes[t.next] == NewValue(key, sec, v, description)
    ensures r.nodes[sec].children == t.nodes[sec].children[key := t.next]
    ensures forall x | x in t.nodes && x != sec :: r.nodes[x] == t.nodes[x]
  {
    Put(t, sec, NewValue(key, sec, v, description))
  }

  /** `addSection(key[, description])`: a new empty section under `key`, allocated as `t.next`. */
  function AddSection(t: Tree, sec: nat, key: string, description: Option<string>): (r: Tree)
    requires WellFormed(t) && IsSection(t, sec)
    ensures WellFormed(r) && Grows(t, r) && r.next == t.next + 1
    ensures t.next in r.nodes && r.nodes[t.next] == NewSection(key, sec, description)
    ensures r.nodes[sec].children == t.nodes[sec].children[key := t.next]
    ensures forall x | x in t.nodes && x != sec :: r.nodes[x] == t.nodes[x]
  {
    Put(t, sec, NewSection(key, sec, description))
  }

  /** `value(Object)`: the value is overwritten, without any check. */
  function StoreValue(t: Tree, id: nat, v: Value): (r: Tree)
    requires WellFormed(t) && IsValueNode(t, id)
    ensures WellFormed(r) && SameShape(t, r)
    ensures r.nodes[id] == t.nodes[id].(value := v)
    ensures forall x | x in t.nodes && x != id :: r.nodes[x] == t.nodes[x]
  {
    var r := Tree(t.nodes[id := t.nodes[id].(value := v)], t.next);
    forall x | x in r.nodes
      ensures NodeOk(r, x)
    {
      assert NodeOk(t, x);
      if r.nodes[x].SectionNode? {
        forall k | k in r.nodes[x].children
          ensures ChildOk(r, x, k, r.nodes[x].children[k])
        {
          assert ChildOk(t, x, k, t.nodes[x].children[k]);
        }
      }
    }
    r
  }

  /**
   * The section setter `description(String)`: it stores the text as given,
   * without the blank-to-null normalisation the constructors apply.
   */
  function Redescribe(t: Tree, sec: nat, d: Option<string>): (r: Tree)
    requires WellFormed(t) && IsSection(t, sec)
    ensures WellFormed(r) && r.next == t.next && r.nodes.Keys == t.nodes.Keys
    ensures var s := t.nodes[sec]; r.nodes[sec] == SectionNode(s.key, s.parent, d, s.children, s.order)
    ensures forall x | x in t.nodes && x != sec :: r.nodes[x] == t.nodes[x]
  {
    var s := t.nodes[sec];
    var r := Tree(t.nodes[sec := SectionNode(s.key, s.parent, d, s.children, s.order)], t.next);
    forall x | x in r.nodes
      ensures NodeOk(r, x)
    {
      assert NodeOk(t, x);
      if r.nodes[x].SectionNode? {
        forall k | k in r.nodes[x].children
          ensures ChildOk(r, x, k, r.nodes[x].children[k])
        {
          assert ChildOk(t, x, k, t.nodes[x].children[k]);
        }
      }
    }
    r
  }

  /** A blank description survives the setter, though a constructor given it stores null. */
  lemma SetterKeepsBlank(t: Tree, sec: nat, key: string)
    requires WellFormed(t) && IsSection(t, sec)
    ensures Redescribe(t, sec, Some(" ")).nodes[sec].description == Some(" ")
    ensures NewSection(key, sec, Some(" ")).description.None?
  {
    assert IsBlank(" ");
  }

  /**
   * `getNode(path)` on the segments of the path: null for an absent first
   * segment, the child for a single segment, and otherwise the lookup of the
   * rest in the child, which throws ClassCastException when the child is a
   * value node.
   */
  function GetNode(t: Tree, sec: nat, segs: seq<string>): (r: Result<Option<nat>>)
    requires WellFormed(t) && IsSection(t, sec)
    ensures |segs| == 0 <==> r == Err(IndexOutOfBounds)
    ensures |segs| > 0 && segs[0] !in t.nodes[sec].children ==> r == Ok(None)
    ensures r.Ok? && r.value.Some? ==> r.value.value in t.nodes && sec < r.value.value
    decreases |segs|
  {
    if |segs| == 0 then Err(IndexOutOfBounds)
    else if segs[0] !in t.nodes[sec].children then Ok(None)
    else
      var c := t.nodes[sec].children[segs[0]];
      assert NodeOk(t, sec) && ChildOk(t, sec, segs[0], c);
      if |segs| == 1 then Ok(Some(c))
      else if t.nodes[c].SectionNode? then GetNode(t, c, segs[1..])
      else Err(ClassCast)
  }

  /** What a node found by a path yields as `get` returns it: null, a value or the section. */
  function Yield(t: Tree, x: Option<nat>): SectionNodes.Got
    requires x.Some? ==> x.value in t.nodes
  {
    match x
    case None => SectionNodes.NullRef
    case Some(c) =>
      match t.nodes[c]
      case ValueNode(_, _, _, v) => if v.Null? then SectionNodes.NullRef else SectionNodes.ValueRef(v)
      case SectionNode(_, _, _, _, _) => SectionNodes.SectionRef(c)
  }

  /** `get(path)`: the value of the value node the path leads to, the section itself, or null. */
  function Get(t: Tree, sec: nat, segs: seq<string>): (r: Result<SectionNodes.Got>)
    requires WellFormed(t) && IsSection(t, sec)
    ensures GetNode(t, sec, segs).Err? <==> r.Err?
    ensures GetNode(t, sec, segs).Err? ==> r == Err(GetNode(t, sec, segs).error)
    ensures GetNode(t, sec, segs).Ok? ==> r == Ok(Yield(t, GetNode(t, sec, segs).value))
  {
    match GetNode(t, sec, segs)
    case Err(e) => Err(e)
    case Ok(x) => Ok(Yield(t, x))
  }

  /**
   * `set(path, value)` on the segments of the path. For a single segment:
   * an absent key gets a new value node, a section throws "Path led to a
   * SectionNode", and a value node is overwritten and returned. For more
   * segments: an absent first key gets a new section, into which the rest is
   * set; an existing section is descended into; a value node fails the cast
   * to SectionNode.
   */
  function Set(t: Tree, sec: nat, segs: seq<string>, v: Value): (o: Outcome<nat>)
    requires WellFormed(t) && IsSection(t, sec)
    ensures WellFormed(o.tree) && Grows(t, o.tree)
    ensures forall x | x in t.nodes && x < sec :: o.tree.nodes[x] == t.nodes[x]
    ensures o.result.Ok? ==> IsValueNode(o.tree, o.result.value) && o.tree.nodes[o.result.value].value == v
    ensures o.result.Err? ==> o.tree == t
    ensures |segs| > 0 && t.nodes[sec].children == map[] ==> o.result.Ok?
    decreases |segs|
  {
    if |segs| == 0 then Outcome(Err(IndexOutOfBounds), t)
    else
      var key := segs[0];
      if key !in t.nodes[sec].children then
        if |segs| == 1 then Outcome(Ok(t.next), AddChild(t, sec, key, v, None))
        else
          var t1 := AddSection(t, sec, key, None);
          var o := Set(t1, t.next, segs[1..], v);
          GrowsTransitive(t, t1, o.tree);
          o
      else
        var c := t.nodes[sec].children[key];
        assert NodeOk(t, sec) && ChildOk(t, sec, key, c);
        if |segs| == 1 then
          if t.nodes[c].SectionNode? then Outcome(Err(PathLedToSection), t)
          else Outcome(Ok(c), StoreValue(t, c, v))
        else if t.nodes[c].SectionNode? then Set(t, c, segs[1..], v)
        else Outcome(Err(ClassCast), t)
  }

  /**
   * `load(map)` of a non-null map: its entries in order. An unknown key
   * throws "is not a recognized key"; a map entry whose child is a section
   * is loaded into it; an entry whose child is a section otherwise fails the
   * cast to ValueNode, rethrown as "could not be set as the value"; and any
   * other entry overwrites the value node. The entries before the failing one
   * stay applied.
   */
  function Load(t: Tree, sec: nat, doc: Value): (o: Outcome<()>)
    requires WellFormed(t) && IsSection(t, sec) && doc.MapV?
    ensures WellFormed(o.tree) && SameShape(t, o.tree)
    decreases doc, 1
  {
    LoadEntries(t, sec, doc, 0)
  }

  function LoadEntries(t: Tree, sec: nat, doc: Value, i: nat): (o: Outcome<()>)
    requires WellFormed(t) && IsSection(t, sec) && doc.MapV?
    ensures WellFormed(o.tree) && SameShape(t, o.tree)
    decreases doc, 0, |doc.entries| - i
  {
    if i >= |doc.entries| then Outcome(Ok(()), t)
    else
      var key := doc.entries[i].0;
      var v := doc.entries[i].1;
      if key !in t.nodes[sec].children then Outcome(Err(UnrecognizedKey(key)), t)
      else
        var c := t.nodes[sec].children[key];
        assert NodeOk(t, sec) && ChildOk(t, sec, key, c);
        if v.MapV? && t.nodes[c].SectionNode? then
          var o := Load(t, c, v);
          assert IsSection(o.tree, sec);
          if o.result.Err? then o
          else
            var rest := LoadEntries(o.tree, sec, doc, i + 1);
            SameShapeTransitive(t, o.tree, rest.tree);
            rest
        else if t.nodes[c].SectionNode? then Outcome(Err(CannotSetValue(key, v)), t)
        else
          var t1 := StoreValue(t, c, v);
          var rest := LoadEntries(t1, sec, doc, i + 1);
          SameShapeTransitive(t, t1, rest.tree);
          rest
  }

  /** `SectionNode.load(@Nullable map)`: null is ignored. */
  function LoadNullable(t: Tree, sec: nat, doc: Option<Value>): (o: Outcome<()>)
    requires WellFormed(t) && IsSection(t, sec) && (doc.Some? ==> doc.value.MapV?)
    ensures doc.None? ==> o == Outcome(Ok(()), t)
    ensures doc.Some? ==> o == Load(t, sec, doc.value)
  {
    if doc.None? then Outcome(Ok(()), t) else Load(t, sec, doc.value)
  }

  /** An entry of the map `values(includeSections)` returns: a value node's value or a section node. */
  datatype Entry = OfValue(v: Value) | OfSection(id: nat)

  /**
   * `values(includeSections)`: each value child's key mapped to its value,
   * and each section child's key mapped to the section when sections are
   * included.
   */
  function ValuesOf(t: Tree, sec: nat, includeSections: bool): (r: map<string, Entry>)
    requires WellFormed(t) && IsSection(t, sec)
    ensures forall k :: k in r <==>
      k in t.nodes[sec].children && t.nodes[sec].children[k] in t.nodes &&
      (includeSections || t.nodes[t.nodes[sec].children[k]].ValueNode?)
    ensures forall k | k in r ::
      var c := t.nodes[sec].children[k];
      r[k] == if t.nodes[c].ValueNode? then OfValue(t.nodes[c].value) else OfSection(c)
  {
    var s := t.nodes[sec];
    map k | k in s.children && s.children[k] in t.nodes && (includeSections || t.nodes[s.children[k]].ValueNode?) ::
      if t.nodes[s.children[k]].ValueNode? then OfValue(t.nodes[s.children[k]].value) else OfSection(s.children[k])
  }

  /**
   * `ValueNodeImpl.asString(indent)`: the codec's dump of the single-entry
   * map `{key: value}`, after "# " and the description when there is one,
   * every line indented, and a final "\n". `Map.of` refuses a null value.
   */
  function ValueText(n: Node, indent: nat, encode: (string, Value) -> string): (r: Result<string>)
    requires n.ValueNode?
    ensures r.Err? <==> n.value.Null?
    ensures r.Err? ==> r.error == NullPointer
  {
    if n.value.Null? then Err(NullPointer)
    else
      var ctx := ValueNodes.SerializeContext('#', INDENT, encode);
      Ok(JoinLines(IndentLines(Lines(ValueNodes.Commented(n.description, encode(n.key, n.value), ctx)), indent)) + "\n")
  }

  /** The text built so far in front of the rest of the rendering, or the exception that ends it. */
  function Prefixed(s: string, rest: Result<string>): (r: Result<string>)
    ensures r.Err? <==> rest.Err?
    ensures rest.Ok? ==> r.value == s + rest.value
    ensures rest.Err? ==> r.error == rest.error
  {
    match rest
    case Err(e) => Err(e)
    case Ok(x) => Ok(s + x)
  }

  /** The lines that introduce a child section: the optional "# description" line and `key:`. */
  function SectionHeader(n: Node, indent: nat): string {
    (if n.description.Some? then Spaces(indent) + "# " + n.description.value + "\n" else "")
    + Spaces(indent) + n.key + ":\n"
  }

  /** `asString(indent)`: the children in insertion order, sections one step of INDENT deeper. */
  function Render(t: Tree, sec: nat, indent: nat, encode: (string, Value) -> string): (r: Result<string>)
    requires WellFormed(t) && IsSection(t, sec)
    ensures r.Err? ==> r.error == NullPointer
    decreases t.next - sec, 2, 0
  {
    assert NodeOk(t, sec);
    RenderKeys(t, sec, t.nodes[sec].order, indent, encode)
  }

  function RenderKeys(t: Tree, sec: nat, keys: seq<string>, indent: nat, encode: (string, Value) -> string): (r: Result<string>)
    requires WellFormed(t) && IsSection(t, sec)
    requires forall i | 0 <= i < |keys| :: keys[i] in t.nodes[sec].children
    ensures r.Err? ==> r.error == NullPointer
    decreases t.next - sec, 1, |keys|
  {
    if |keys| == 0 then Ok("")
    else
      assert NodeOk(t, sec) && ChildOk(t, sec, keys[0], t.nodes[sec].children[keys[0]]);
      assert NodeOk(t, t.nodes[sec].children[keys[0]]);
      match ChildText(t, sec, t.nodes[sec].children[keys[0]], indent, encode)
      case Err(e) => Err(e)
      case Ok(head) =>
        Prefixed(head, RenderKeys(t, sec, keys[1..], indent, encode))
  }

  function ChildText(t: Tree, sec: nat, c: nat, indent: nat, encode: (string, Value) -> string): (r: Result<string>)
    requires WellFormed(t) && IsSection(t, sec) && c in t.nodes && sec < c
    requires c < t.next
    ensures r.Err? ==> r.error == NullPointer
    decreases t.next - sec, 0, 0
  {
    var n := t.nodes[c];
    if n.ValueNode? then ValueText(n, indent, encode)
    else
      match Render(t, c, indent + INDENT, encode)
      case Err(e) => Err(e)
      case Ok(inner) => Ok(SectionHeader(n, indent) + inner)
  }

  /** One step of the rendering loop over `keys`: the text of `keys[i]` either ends it with its exception or joins the prefix. */
  lemma RenderKeysStep(t: Tree, sec: nat, keys: seq<string>, i: nat, indent: nat, encode: (string, Value) -> string, s: string)
    requires WellFormed(t) && IsSection(t, sec) && i < |keys|
    requires forall j | 0 <= j < |keys| :: keys[j] in t.nodes[sec].children
    ensures var c := t.nodes[sec].children[keys[i]];
      c in t.nodes && sec < c < t.next &&
      var head := ChildText(t, sec, c, indent, encode);
      (head.Err? ==> Prefixed(s, RenderKeys(t, sec, keys[i..], indent, encode)) == head) &&
      (head.Ok? ==>
        Prefixed(s, RenderKeys(t, sec, keys[i..], indent, encode)) ==
        Prefixed(s + head.value, RenderKeys(t, sec, keys[i + 1..], indent, encode)))
  {
    var c := t.nodes[sec].children[keys[i]];
    assert NodeOk(t, sec) && ChildOk(t, sec, keys[i], c);
    assert NodeOk(t, c);
    assert keys[i..][0] == keys[i] && keys[i..][1..] == keys[i + 1..];
    var rest := RenderKeys(t, sec, keys[i + 1..], indent, encode);
    var head := ChildText(t, sec, c, indent, encode);
    if head.Ok? && rest.Ok? {
      assert s + (head.value + rest.value) == (s + head.value) + rest.value;
    }
  }

  /**
   * SectionNodeImpl's varargs `get(path...)`: for one key, null when it is
   * absent, the value of a value node or the section; for more, the lookup of
   * the rest in the child, which throws NullPointerException when the child
   * is absent and ClassCastException when it is a value node.
   */
  function VarGet(t: Tree, sec: nat, path: seq<string>): (r: Result<SectionNodes.Got>)
    requires WellFormed(t) && IsSection(t, sec)
    decreases |path|
  {
    if |path| == 0 then Err(IndexOutOfBounds)
    else if path[0] !in t.nodes[sec].children then
      if |path| == 1 then Ok(SectionNodes.NullRef) else Err(NullPointer)
    else
      var c := t.nodes[sec].children[path[0]];
      assert NodeOk(t, sec) && ChildOk(t, sec, path[0], c);
      if |path| == 1 then Ok(Yield(t, Some(c)))
      else if t.nodes[c].SectionNode? then VarGet(t, c, path[1..])
      else Err(ClassCast)
  }

  /**
   * SectionNodeImpl's varargs `set(value, path...)`: for one key, an
   * absent key throws NullPointerException, a section throws "Path led to a
   * SectionNode" and a value node is overwritten; for more keys it only runs
   * `get` on the rest in the child, so nothing changes.
   */
  function VarSet(t: Tree, sec: nat, v: Value, path: seq<string>): (o: Outcome<()>)
    requires WellFormed(t) && IsSection(t, sec)
    ensures WellFormed(o.tree) && SameShape(t, o.tree)
  {
    if |path| == 0 then Outcome(Err(IndexOutOfBounds), t)
    else if path[0] !in t.nodes[sec].children then Outcome(Err(NullPointer), t)
    else
      var c := t.nodes[sec].children[path[0]];
      assert NodeOk(t, sec) && ChildOk(t, sec, path[0], c);
      if |path| == 1 then
        if t.nodes[c].SectionNode? then Outcome(Err(PathLedToSection), t)
        else Outcome(Ok(()), StoreValue(t, c, v))
      else if t.nodes[c].SectionNode? then
        match VarGet(t, c, path[1..])
        case Err(e) => Outcome(Err(e), t)
        case Ok(_) => Outcome(Ok(()), t)
      else Outcome(Err(ClassCast), t)
  }

  // Properties of the legacy tree.

  /** `x` is `d` or lies in the subtree under `d`. */
  predicate Descends(t: Tree, d: nat, x: nat)
    decreases x
  {
    x == d || (x in t.nodes && x != 0 && t.nodes[x].parent < x && Descends(t, d, t.nodes[x].parent))
  }

  lemma {:induction false} DescendsAbove(t: Tree, d: nat, x: nat)
    requires Descends(t, d, x)
    ensures d <= x
    decreases x
  {
    if x != d {
      DescendsAbove(t, d, t.nodes[x].parent);
    }
  }

  /** The subtree under a child section lies in the subtree under its parent. */
  lemma {:induction false} DescendsThroughChild(t: Tree, sec: nat, c: nat, x: nat)
    requires c in t.nodes && c != 0 && t.nodes[c].parent == sec && sec < c
    requires Descends(t, c, x)
    ensures Descends(t, sec, x)
    decreases x
  {
    if x != c && x != sec {
      DescendsThroughChild(t, sec, c, t.nodes[x].parent);
    }
  }

  /** Changing values leaves every subtree as it was. */
  lemma {:induction false} DescendsSameShape(t: Tree, u: Tree, d: nat, x: nat)
    requires SameShape(t, u)
    ensures Descends(t, d, x) <==> Descends(u, d, x)
    decreases x
  {
    if x != d && x in t.nodes && x != 0 {
      assert u.nodes[x].parent == t.nodes[x].parent;
      if t.nodes[x].parent < x {
        DescendsSameShape(t, u, d, t.nodes[x].parent);
      }
    }
  }

  /** A child of `sec` does not lie under a sibling. */
  lemma SiblingNotBelow(t: Tree, sec: nat, c: nat, d: nat)
    requires WellFormed(t) && c in t.nodes && d in t.nodes && c != d
    requires c != 0 && t.nodes[c].parent == sec && sec < d
    ensures !Descends(t, d, c)
  {
    if Descends(t, d, c) {
      DescendsAbove(t, d, sec);
    }
  }

  /** `load` changes nothing outside the subtree of the section it loads into. */
  lemma {:induction false} LoadFrame(t: Tree, sec: nat, doc: Value, x: nat)
    requires WellFormed(t) && IsSection(t, sec) && doc.MapV? && x in t.nodes && !Descends(t, sec, x)
    ensures Load(t, sec, doc).tree.nodes[x] == t.nodes[x]
    decreases doc, 1
  {
    LoadEntriesFrame(t, sec, doc, 0, x);
  }

  lemma {:induction false} LoadEntriesFrame(t: Tree, sec: nat, doc: Value, i: nat, x: nat)
    requires WellFormed(t) && IsSection(t, sec) && doc.MapV? && x in t.nodes && !Descends(t, sec, x)
    ensures LoadEntries(t, sec, doc, i).tree.nodes[x] == t.nodes[x]
    decreases doc, 0, |doc.entries| - i
  {
    if i < |doc.entries| && doc.entries[i].0 in t.nodes[sec].children {
      var key := doc.entries[i].0;
      var v := doc.entries[i].1;
      var c := t.nodes[sec].children[key];
      assert NodeOk(t, sec) && ChildOk(t, sec, key, c);
      if v.MapV? && t.nodes[c].SectionNode? {
        if Descends(t, c, x) {
          DescendsThroughChild(t, sec, c, x);
        }
        LoadFrame(t, c, v, x);
        var o := Load(t, c, v);
        if o.result.Ok? {
          DescendsSameShape(t, o.tree, sec, x);
          LoadEntriesFrame(o.tree, sec, doc, i + 1, x);
        }
      } else if t.nodes[c].ValueNode? {
        assert Descends(t, sec, c);
        var t1 := StoreValue(t, c, v);
        DescendsSameShape(t, t1, sec, x);
        LoadEntriesFrame(t1, sec, doc, i + 1, x);
      }
    }
  }

  /** No entry from position `i` on has key `k`. */
  predicate Unmentioned(doc: Value, i: nat, k: string)
    requires doc.MapV?
  {
    forall j | i <= j < |doc.entries| :: doc.entries[j].0 != k
  }

  /**
   * `load` is a sparse overlay: a child whose key the map does not mention
   * keeps its node, and so its value.
   */
  lemma LoadKeepsUnmentioned(t: Tree, sec: nat, doc: Value, k: string)
    requires WellFormed(t) && IsSection(t, sec) && doc.MapV? && k in t.nodes[sec].children
    requires Unmentioned(doc, 0, k)
    ensures var c := t.nodes[sec].children[k];
      c in t.nodes && Load(t, sec, doc).tree.nodes[c] == t.nodes[c]
  {
    assert NodeOk(t, sec) && ChildOk(t, sec, k, t.nodes[sec].children[k]);
    LoadEntriesKeepsUnmentioned(t, sec, doc, 0, k);
  }

  lemma {:induction false} LoadEntriesKeepsUnmentioned(t: Tree, sec: nat, doc: Value, i: nat, k: string)
    requires WellFormed(t) && IsSection(t, sec) && doc.MapV? && k in t.nodes[sec].children
    requires Unmentioned(doc, i, k)
    ensures var c := t.nodes[sec].children[k];
      c in t.nodes && LoadEntries(t, sec, doc, i).tree.nodes[c] == t.nodes[c]
    decreases |doc.entries| - i
  {
    var c := t.nodes[sec].children[k];
    assert NodeOk(t, sec) && ChildOk(t, sec, k, c);
    if i < |doc.entries| && doc.entries[i].0 in t.nodes[sec].children {
      var key := doc.entries[i].0;
      var v := doc.entries[i].1;
      var d := t.nodes[sec].children[key];
      assert ChildOk(t, sec, key, d);
      if v.MapV? && t.nodes[d].SectionNode? {
        SiblingNotBelow(t, sec, c, d);
        LoadFrame(t, d, v, c);
        var o := Load(t, d, v);
        if o.result.Ok? {
          LoadEntriesKeepsUnmentioned(o.tree, sec, doc, i + 1, k);
        }
      } else if t.nodes[d].ValueNode? {
        LoadEntriesKeepsUnmentioned(StoreValue(t, d, v), sec, doc, i + 1, k);
      }
    }
  }

  /** A successful `load` met only keys the section has: any unknown key ends it with an exception. */
  lemma {:induction false} LoadOkKnownKeys(t: Tree, sec: nat, doc: Value, i: nat)
    requires WellFormed(t) && IsSection(t, sec) && doc.MapV?
    ensures LoadEntries(t, sec, doc, i).result.Ok? ==>
      forall j | i <= j < |doc.entries| :: doc.entries[j].0 in t.nodes[sec].children
    decreases |doc.entries| - i
  {
    if i < |doc.entries| && doc.entries[i].0 in t.nodes[sec].children {
      var key := doc.entries[i].0;
      var v := doc.entries[i].1;
      var c := t.nodes[sec].children[key];
      assert NodeOk(t, sec) && ChildOk(t, sec, key, c);
      if v.MapV? && t.nodes[c].SectionNode? {
        var o := Load(t, c, v);
        if o.result.Ok? {
          LoadOkKnownKeys(o.tree, sec, doc, i + 1);
        }
      } else if t.nodes[c].ValueNode? {
        LoadOkKnownKeys(StoreValue(t, c, v), sec, doc, i + 1);
      }
    }
  }

  /** The first entry with an unknown key gives the "is not a recognized key" exception, naming it. */
  lemma LoadRejectsUnknownKey(t: Tree, sec: nat, doc: Value)
    requires WellFormed(t) && IsSection(t, sec) && doc.MapV? && |doc.entries| > 0
    requires doc.entries[0].0 !in t.nodes[sec].children
    ensures Load(t, sec, doc) == Outcome(Err(UnrecognizedKey(doc.entries[0].0)), t)
  {
  }

  /**
   * An entry whose key names a section child but whose value is not a map
   * ends the load with the "cannot set value" exception, naming the key and
   * the value, and with the tree as it was before that entry.
   */
  lemma LoadEntriesRejectsValueOverSection(t: Tree, sec: nat, doc: Value, i: nat)
    requires WellFormed(t) && IsSection(t, sec) && doc.MapV? && i < |doc.entries|
    requires doc.entries[i].0 in t.nodes[sec].children && IsSection(t, t.nodes[sec].children[doc.entries[i].0])
    requires !doc.entries[i].1.MapV?
    ensures LoadEntries(t, sec, doc, i) == Outcome(Err(CannotSetValue(doc.entries[i].0, doc.entries[i].1)), t)
  {
  }

  /**
   * One entry of a load that goes on: it leaves a tree of the same shape,
   * from which the remaining entries are loaded.
   */
  lemma LoadEntriesStep(t: Tree, sec: nat, doc: Value, i: nat) returns (u: Tree)
    requires WellFormed(t) && IsSection(t, sec) && doc.MapV? && i < |doc.entries|
    requires LoadEntries(t, sec, doc, i).result.Ok?
    ensures WellFormed(u) && SameShape(t, u) && IsSection(u, sec)
    ensures LoadEntries(t, sec, doc, i) == LoadEntries(u, sec, doc, i + 1)
  {
    var key := doc.entries[i].0;
    var v := doc.entries[i].1;
    var c := t.nodes[sec].children[key];
    assert NodeOk(t, sec) && ChildOk(t, sec, key, c);
    if v.MapV? && t.nodes[c].SectionNode? {
      u := Load(t, c, v).tree;
    } else {
      u := StoreValue(t, c, v);
    }
    SameShapeKeepsSection(t, u, sec);
  }

  /**
   * `load` stores what the map mentions: after a load that succeeds, a value
   * child whose key the map mentions holds the value of the last entry with
   * that key, whatever it held before.
   */
  lemma LoadStoresMentionedValue(t: Tree, sec: nat, doc: Value, j: nat)
    requires WellFormed(t) && IsSection(t, sec) && doc.MapV? && j < |doc.entries|
    requires doc.entries[j].0 in t.nodes[sec].children && IsValueNode(t, t.nodes[sec].children[doc.entries[j].0])
    requires Unmentioned(doc, j + 1, doc.entries[j].0)
    requires Load(t, sec, doc).result.Ok?
    ensures var c := t.nodes[sec].children[doc.entries[j].0];
      var u := Load(t, sec, doc).tree;
      IsValueNode(u, c) && u.nodes[c].value == doc.entries[j].1
  {
    LoadEntriesStoresMentioned(t, sec, doc, 0, j);
  }

  lemma {:induction false} LoadEntriesStoresMentioned(t: Tree, sec: nat, doc: Value, i: nat, j: nat)
    requires WellFormed(t) && IsSection(t, sec) && doc.MapV? && i <= j < |doc.entries|
    requires doc.entries[j].0 in t.nodes[sec].children && IsValueNode(t, t.nodes[sec].children[doc.entries[j].0])
    requires Unmentioned(doc, j + 1, doc.entries[j].0)
    requires LoadEntries(t, sec, doc, i).result.Ok?
    ensures var c := t.nodes[sec].children[doc.entries[j].0];
      var u := LoadEntries(t, sec, doc, i).tree;
      IsValueNode(u, c) && u.nodes[c].value == doc.entries[j].1
    decreases j - i
  {
    var key := doc.entries[j].0;
    var c := t.nodes[sec].children[key];
    if i < j {
      var u := LoadEntriesStep(t, sec, doc, i);
      SameShapeKeepsSection(t, u, sec);
      assert u.nodes[c].ValueNode?;
      LoadEntriesStoresMentioned(u, sec, doc, i + 1, j);
    } else {
      var t1 := LoadEntriesStoresHere(t, sec, doc, j);
      LoadEntriesKeepsUnmentioned(t1, sec, doc, j + 1, key);
    }
  }

  /** The entry that names a value child stores its value there, and the load goes on from that tree. */
  lemma LoadEntriesStoresHere(t: Tree, sec: nat, doc: Value, j: nat) returns (t1: Tree)
    requires WellFormed(t) && IsSection(t, sec) && doc.MapV? && j < |doc.entries|
    requires doc.entries[j].0 in t.nodes[sec].children && IsValueNode(t, t.nodes[sec].children[doc.entries[j].0])
    ensures WellFormed(t1) && IsSection(t1, sec) && t1.nodes[sec] == t.nodes[sec]
    ensures var c := t.nodes[sec].children[doc.entries[j].0];
      IsValueNode(t1, c) && t1.nodes[c].value == doc.entries[j].1
    ensures LoadEntries(t, sec, doc, j) == LoadEntries(t1, sec, doc, j + 1)
  {
    var key := doc.entries[j].0;
    var c := t.nodes[sec].children[key];
    assert NodeOk(t, sec) && ChildOk(t, sec, key, c);
    t1 := StoreValue(t, c, doc.entries[j].1);
  }

  /** After a successful `set`, `getNode` on the same path finds the node `set` returned. */
  lemma {:induction false} SetThenGetNode(t: Tree, sec: nat, segs: seq<string>, v: Value)
    requires WellFormed(t) && IsSection(t, sec)
    ensures var o := Set(t, sec, segs, v);
      o.result.Ok? ==> IsSection(o.tree, sec) && GetNode(o.tree, sec, segs) == Ok(Some(o.result.value))
    decreases |segs|, 1
  {
    if |segs| > 1 {
      if segs[0] !in t.nodes[sec].children {
        SetThenGetNodeNew(t, sec, segs, v);
      } else {
        SetThenGetNodeExisting(t, sec, segs, v);
      }
    } else if |segs| == 1 {
      SetThenGetNodeOne(t, sec, segs[0], v);
    }
  }

  /** The case of `SetThenGetNode` for a single key. */
  lemma SetThenGetNodeOne(t: Tree, sec: nat, key: string, v: Value)
    requires WellFormed(t) && IsSection(t, sec)
    ensures var o := Set(t, sec, [key], v);
      o.result.Ok? ==> IsSection(o.tree, sec) && GetNode(o.tree, sec, [key]) == Ok(Some(o.result.value))
  {
    if key in t.nodes[sec].children {
      var c := t.nodes[sec].children[key];
      assert NodeOk(t, sec) && ChildOk(t, sec, key, c);
      if t.nodes[c].ValueNode? {
        var u := StoreValue(t, c, v);
        assert Set(t, sec, [key], v) == Outcome(Ok(c), u);
        SameShapeKeepsSection(t, u, sec);
      }
    } else {
      Allocated(t);
      var u := AddChild(t, sec, key, v, None);
      assert Set(t, sec, [key], v) == Outcome(Ok(t.next), u);
      assert IsSection(u, sec);
    }
  }

  /** The case of `SetThenGetNode` that creates the intermediate section `segs[0]`. */
  lemma {:induction false} SetThenGetNodeNew(t: Tree, sec: nat, segs: seq<string>, v: Value)
    requires WellFormed(t) && IsSection(t, sec) && |segs| > 1 && segs[0] !in t.nodes[sec].children
    ensures var o := Set(t, sec, segs, v);
      o.result.Ok? ==> IsSection(o.tree, sec) && GetNode(o.tree, sec, segs) == Ok(Some(o.result.value))
    decreases |segs|, 0
  {
    Allocated(t);
    var t1 := AddSection(t, sec, segs[0], None);
    SetThenGetNode(t1, t.next, segs[1..], v);
  }

  /** The case of `SetThenGetNode` that descends into the existing child `segs[0]`. */
  lemma {:induction false} SetThenGetNodeExisting(t: Tree, sec: nat, segs: seq<string>, v: Value)
    requires WellFormed(t) && IsSection(t, sec) && |segs| > 1 && segs[0] in t.nodes[sec].children
    ensures var o := Set(t, sec, segs, v);
      o.result.Ok? ==> IsSection(o.tree, sec) && GetNode(o.tree, sec, segs) == Ok(Some(o.result.value))
    decreases |segs|, 0
  {
    Allocated(t);
    var c := t.nodes[sec].children[segs[0]];
    assert NodeOk(t, sec) && ChildOk(t, sec, segs[0], c);
    if t.nodes[c].SectionNode? {
      SetThenGetNode(t, c, segs[1..], v);
    }
  }

  /** After a successful `set(path, v)`, `get(path)` returns `v` (null when `v` is null). */
  lemma SetThenGet(t: Tree, sec: nat, segs: seq<string>, v: Value)
    requires WellFormed(t) && IsSection(t, sec)
    ensures var o := Set(t, sec, segs, v);
      o.result.Ok? ==>
        IsSection(o.tree, sec) && Get(o.tree, sec, segs) == Ok(if v.Null? then SectionNodes.NullRef else SectionNodes.ValueRef(v))
  {
    SetThenGetNode(t, sec, segs, v);
  }

  /**
   * The varargs `get` agrees with `get` on the same segments, except that a
   * missing section along a longer path makes it throw NullPointerException
   * where `get` returns null.
   */
  lemma {:induction false} VarGetAgreesWithGet(t: Tree, sec: nat, path: seq<string>)
    requires WellFormed(t) && IsSection(t, sec)
    ensures VarGet(t, sec, path) == Get(t, sec, path) ||
      (VarGet(t, sec, path) == Err(NullPointer) && Get(t, sec, path) == Ok(SectionNodes.NullRef))
    ensures VarGet(t, sec, path).Ok? ==> VarGet(t, sec, path) == Get(t, sec, path)
    decreases |path|
  {
    if |path| > 1 && path[0] in t.nodes[sec].children {
      var c := t.nodes[sec].children[path[0]];
      assert NodeOk(t, sec) && ChildOk(t, sec, path[0], c);
      if t.nodes[c].SectionNode? {
        VarGetAgreesWithGet(t, c, path[1..]);
      }
    }
  }

  /** A value child whose value is null makes the rendering of the keys that include it fail. */
  lemma {:induction false} RenderKeysFailsOnNull(t: Tree, sec: nat, keys: seq<string>, indent: nat, encode: (string, Value) -> string, j: nat)
    requires WellFormed(t) && IsSection(t, sec)
    requires forall i | 0 <= i < |keys| :: keys[i] in t.nodes[sec].children
    requires j < |keys| && IsValueNode(t, t.nodes[sec].children[keys[j]]) && t.nodes[t.nodes[sec].children[keys[j]]].value.Null?
    ensures RenderKeys(t, sec, keys, indent, encode) == Err(NullPointer)
    decreases |keys|
  {
    assert NodeOk(t, sec) && ChildOk(t, sec, keys[0], t.nodes[sec].children[keys[0]]);
    assert NodeOk(t, t.nodes[sec].children[keys[0]]);
    if j > 0 {
      RenderKeysFailsOnNull(t, sec, keys[1..], indent, encode, j - 1);
    }
  }

  /**
   * A described non-null value renders as lines that start with the indented
   * "# description" line, followed by the indented lines of the codec's dump,
   * and the text ends in "\n".
   */
  lemma ValueTextLayout(n: Node, indent: nat, encode: (string, Value) -> string)
    requires n.ValueNode? && !n.value.Null? && n.description.Some? && NoBreaks(n.description.value)
    ensures ValueText(n, indent, encode).Ok?
    ensures var t := ValueText(n, indent, encode).value;
      var out := encode(n.key, n.value);
      |t| > 0 && t[|t| - 1] == '\n' &&
      Lines(t) == [Spaces(indent) + "# " + n.description.value] + IndentLines(Lines(out), indent)
  {
    var out := encode(n.key, n.value);
    var line := "# " + n.description.value;
    assert NoBreaks("# ");
    ConcatNoBreaks("# ", n.description.value);
    var ctx := ValueNodes.SerializeContext('#', INDENT, encode);
    var body := ValueNodes.Commented(n.description, out, ctx);
    assert body == line + "\n" + out;
    LinesOfLine(line, out);
    IndentedNoBreaks(Lines(body), indent);
    LinesOfJoin(IndentLines(Lines(body), indent));
    IndentLinesCons(line, Lines(out), indent);
    assert Spaces(indent) + line == Spaces(indent) + "# " + n.description.value;
  }

  /**
   * What the varargs `set(value, path...)` does: an absent first key throws
   * NullPointerException; a single key naming a value node overwrites it, so
   * the varargs `get` then returns the value; and a longer path changes
   * nothing, whatever its outcome.
   */
  lemma VarSetEffects(t: Tree, sec: nat, v: Value, path: seq<string>)
    requires WellFormed(t) && IsSection(t, sec) && |path| > 0
    ensures path[0] !in t.nodes[sec].children ==> VarSet(t, sec, v, path) == Outcome(Err(NullPointer), t)
    ensures |path| > 1 ==> VarSet(t, sec, v, path).tree == t
    ensures |path| == 1 && path[0] in t.nodes[sec].children && IsValueNode(t, t.nodes[sec].children[path[0]]) ==>
      var o := VarSet(t, sec, v, path);
      o.result.Ok? && IsSection(o.tree, sec) &&
      VarGet(o.tree, sec, path) == Ok(if v.Null? then SectionNodes.NullRef else SectionNodes.ValueRef(v))
  {
    if |path| == 1 && path[0] in t.nodes[sec].children {
      var c := t.nodes[sec].children[path[0]];
      assert NodeOk(t, sec) && ChildOk(t, sec, path[0], c);
    }
  }

  /** `asString` of a section with a value child holding null throws NullPointerException. */
  lemma RenderFailsOnNull(t: Tree, sec: nat, k: string, indent: nat, encode: (string, Value) -> string)
    requires WellFormed(t) && IsSection(t, sec) && k in t.nodes[sec].children
    requires IsValueNode(t, t.nodes[sec].children[k]) && t.nodes[t.nodes[sec].children[k]].value.Null?
    ensures Render(t, sec, indent, encode) == Err(NullPointer)
  {
    assert NodeOk(t, sec);
    var order := t.nodes[sec].order;
    var j :| 0 <= j < |order| && order[j] == k;
    RenderKeysFailsOnNull(t, sec, order, indent, encode, j);
  }
}
