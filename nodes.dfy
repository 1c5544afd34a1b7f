/**
 * The node objects of lectern-core's configuration tree (Node.java and its
 * subclasses SectionNode, ValueNode and ConfigurationNode), held in an
 * arena: every node object is an entry of `nodes` under an identity that
 * stands for its Java object reference, and `next` is the identity the next
 * allocation receives. A section refers to its children, and every node to
 * its parent, by identity.
 */
module Nodes {
  import opened Wrappers
  import opened Values
  import opened Validators

  type Id = nat

  /**
   * The bound configuration object: the value of each of its fields, by the
   * path of field keys from the configuration class down, and the nested
   * section fields that hold null.
   */
  datatype Obj = Obj(values: map<seq<string>, Value>, unset: set<seq<string>>)

  /** Which object a value node's callback writes into. */
  datatype Owner =
    | Bound     // the configuration object the tree is bound to
    | Detached  // a section instance created for the schema that no field refers to

  /** `ValueNode.callback`: nothing, or the reflective `field.set` of one field. */
  datatype Callback =
    | NoCallback
    | SetField(owner: Owner, field: seq<string>, fieldType: JavaType)

  /**
   * A node. A `SectionNode` whose `file` is present is a ConfigurationNode,
   * the root of a file. `children` with `order` is the LinkedHashMap of a
   * section: the map from key to child and the keys in insertion order.
   */
  datatype Node =
    | SectionNode(key: string, parent: Option<Id>, description: Option<string>,
                  children: map<string, Id>, order: seq<string>, file: Option<string>)
    | ValueNode(key: string, parent: Option<Id>, description: Option<string>,
                valueType: JavaType, validators: seq<Validator>, defaultValue: Value,
                value: Value, callback: Callback)

  datatype Arena = Arena(nodes: map<Id, Node>, next: Id)

  /** An operation's exception or result, the arena after it and the bound object after it. */
  datatype Outcome<T> = Outcome(result: Errors.Result<T>, arena: Arena, obj: Obj)

  predicate NoDup(s: seq<string>) {
    forall i, j | 0 <= i < j < |s| :: s[i] != s[j]
  }

  /** The keys of a LinkedHashMap: each key once, in insertion order. */
  predicate KeysInOrder(children: map<string, Id>, order: seq<string>) {
    (forall k | k in children :: k in order) &&
    (forall i | 0 <= i < |order| :: order[i] in children) &&
    NoDup(order)
  }

  /** A node allocated after its parent, and the parent a section. */
  predicate ParentOk(a: Arena, id: Id)
    requires id in a.nodes
  {
    var p := a.nodes[id].parent;
    p.Some? ==> p.value in a.nodes && p.value < id && a.nodes[p.value].SectionNode?
  }

  /** The child under key `k` of section `id` has that key and `id` as its parent. */
  predicate ChildOk(a: Arena, id: Id, k: string, c: Id) {
    c in a.nodes && id < c && a.nodes[c].key == k && a.nodes[c].parent == Some(id)
  }

  predicate ChildrenOk(a: Arena, id: Id)
    requires id in a.nodes
  {
    var n := a.nodes[id];
    n.SectionNode? ==>
      KeysInOrder(n.children, n.order) &&
      forall k | k in n.children :: ChildOk(a, id, k, n.children[k])
  }

  /**
   * The invariant of the arena: every node was allocated, its parent is a
   * section allocated before it, and every section maps each of its keys
   * once, in order, to a child that has that key and that section as parent.
   * A node replaced under its key stays in the arena, unreachable.
   */
  predicate WellFormed(a: Arena) {
    (forall id | id in a.nodes :: id < a.next) &&
    forall id {:trigger ParentOk(a, id)} {:trigger ChildrenOk(a, id)} | id in a.nodes :: ParentOk(a, id) && ChildrenOk(a, id)
  }

  predicate IsSection(a: Arena, id: Id) {
    id in a.nodes && a.nodes[id].SectionNode?
  }

  predicate IsValueNode(a: Arena, id: Id) {
    id in a.nodes && a.nodes[id].ValueNode?
  }

  /** `instanceof ConfigurationNode`. */
  predicate IsConfiguration(a: Arena, id: Id) {
    id in a.nodes && a.nodes[id].SectionNode? && a.nodes[id].file.Some?
  }

  /** `SectionNode.isRoot`: the key is the empty string. */
  predicate IsRoot(n: Node) {
    n.SectionNode? && n.key == ""
  }

  /** The ConfigurationNode of a file: key "", no parent, a file. */
  function NewConfiguration(file: string): (r: Node)
    ensures IsRoot(r) && r.parent.None? && r.children == map[] && r.order == []
  {
    SectionNode("", None, None, map[], [], Some(file))
  }

  /** A tree holding only the root of `file`, under identity 0. */
  function Initial(file: string): (r: Arena)
    ensures WellFormed(r) && IsConfiguration(r, 0) && IsRoot(r.nodes[0])
  {
    Arena(map[0 := NewConfiguration(file)], 1)
  }

  /** `x` is `n` or one of its ancestors. */
  predicate AncestorOrSelf(a: Arena, x: Id, n: Id)
    requires WellFormed(a) && n in a.nodes
    ensures AncestorOrSelf(a, x, n) ==> x <= n && x in a.nodes
    decreases n
  {
    assert ParentOk(a, n);
    x == n || (a.nodes[n].parent.Some? && AncestorOrSelf(a, x, a.nodes[n].parent.value))
  }

  /**
   * The key path that `Node.path()` joins with "."-separators: the node's
   * own key, after the keys of the ancestors below the nearest root section.
   */
  function PathSegments(a: Arena, id: Id): (r: seq<string>)
    requires WellFormed(a) && id in a.nodes
    ensures |r| > 0 && r[|r| - 1] == a.nodes[id].key
    decreases id
  {
    var n := a.nodes[id];
    assert ParentOk(a, id);
    match n.parent
    case None => [n.key]
    case Some(p) => if IsRoot(a.nodes[p]) then [n.key] else PathSegments(a, p) + [n.key]
  }

  /** `String.join(".", segments)`. */
  function JoinPath(segs: seq<string>): string {
    if |segs| == 0 then ""
    else if |segs| == 1 then segs[0]
    else JoinPath(segs[..|segs| - 1]) + "." + segs[|segs| - 1]
  }

  /** The string `Node.path()` builds. */
  function PathOf(a: Arena, id: Id): (r: string)
    requires WellFormed(a) && id in a.nodes
  {
    JoinPath(PathSegments(a, id))
  }

  /** A node whose parent is absent or a root section has its bare key as its path. */
  lemma PathOfTopLevel(a: Arena, id: Id)
    requires WellFormed(a) && id in a.nodes
    requires a.nodes[id].parent.None? || (a.nodes[id].parent.value in a.nodes && IsRoot(a.nodes[a.nodes[id].parent.value]))
    ensures PathOf(a, id) == a.nodes[id].key
  {
    assert ParentOk(a, id);
  }

  /** Below a non-root parent, the path is the parent's path, ".", and the key. */
  lemma PathOfNested(a: Arena, id: Id)
    requires WellFormed(a) && id in a.nodes
    requires a.nodes[id].parent.Some? && a.nodes[id].parent.value in a.nodes && !IsRoot(a.nodes[a.nodes[id].parent.value])
    ensures PathOf(a, id) == PathOf(a, a.nodes[id].parent.value) + "." + a.nodes[id].key
  {
    assert ParentOk(a, id);
    var p := a.nodes[id].parent.value;
    var segs := PathSegments(a, id);
    assert segs == PathSegments(a, p) + [a.nodes[id].key];
    assert segs[..|segs| - 1] == PathSegments(a, p);
  }

  /**
   * The nearest of `n` and its ancestors that is a ConfigurationNode: the
   * body of the `do ... while` loop of `Node.root()`.
   */
  function RootFrom(a: Arena, n: Id): (r: Option<Id>)
    requires WellFormed(a) && n in a.nodes
    ensures r.Some? ==> IsConfiguration(a, r.value) && AncestorOrSelf(a, r.value, n)
    ensures r.Some? ==> forall x: Id | AncestorOrSelf(a, x, n) && IsConfiguration(a, x) :: x <= r.value
    ensures r.None? ==> forall x: Id | AncestorOrSelf(a, x, n) :: !IsConfiguration(a, x)
    decreases n
  {
    assert ParentOk(a, n);
    if IsConfiguration(a, n) then Some(n)
    else match a.nodes[n].parent
      case None => None
      case Some(p) => RootFrom(a, p)
  }

  /**
   * `Node.root()`: the nearest ancestor that is a ConfigurationNode, an
   * IllegalStateException naming the path when there is none, and a
   * NullPointerException on a node without a parent, whose loop dereferences
   * the null parent.
   */
  function RootOf(a: Arena, id: Id): (r: Errors.Result<Id>)
    requires WellFormed(a) && id in a.nodes
    ensures a.nodes[id].parent.None? <==> r == Errors.Err(Errors.NullPointer)
    ensures r.Ok? ==> IsConfiguration(a, r.value) && r.value != id && AncestorOrSelf(a, r.value, id)
    ensures r.Err? && a.nodes[id].parent.Some? ==>
      r == Errors.Err(Errors.NoRoot(PathOf(a, id))) &&
      forall x: Id | AncestorOrSelf(a, x, id) && x != id :: !IsConfiguration(a, x)
  {
    assert ParentOk(a, id);
    match a.nodes[id].parent
    case None => Errors.Err(Errors.NullPointer)
    case Some(p) =>
      match RootFrom(a, p)
      case Some(r) => Errors.Ok(r)
      case None => Errors.Err(Errors.NoRoot(PathOf(a, id)))
  }

  /** The description setter, `Node.description(String)`: only the description changes. */
  function WithDescription(n: Node, d: Option<string>): (r: Node)
    ensures r.description == d && r.key == n.key && r.parent == n.parent
    ensures r.SectionNode? <==> n.SectionNode?
    ensures r.SectionNode? ==> r.children == n.children && r.order == n.order && r.file == n.file
    ensures r.ValueNode? ==>
      r.valueType == n.valueType && r.validators == n.validators && r.defaultValue == n.defaultValue &&
      r.value == n.value && r.callback == n.callback
  {
    n.(description := d)
  }

  /**
   * A replacement node of the same kind with the same key, parent, children
   * and order keeps the arena well formed.
   */
  lemma ReplacePreserves(a: Arena, id: Id, n: Node)
    requires WellFormed(a) && id in a.nodes
    requires n.key == a.nodes[id].key && n.parent == a.nodes[id].parent
    requires n.SectionNode? <==> a.nodes[id].SectionNode?
    requires n.SectionNode? ==> n.children == a.nodes[id].children && n.order == a.nodes[id].order
    ensures WellFormed(Arena(a.nodes[id := n], a.next))
  {
    var b := Arena(a.nodes[id := n], a.next);
    forall x | x in b.nodes
      ensures x < b.next && ParentOk(b, x) && ChildrenOk(b, x)
    {
      assert ParentOk(a, x) && ChildrenOk(a, x);
      if b.nodes[x].SectionNode? {
        forall k | k in b.nodes[x].children
          ensures ChildOk(b, x, k, b.nodes[x].children[k])
        {
          assert ChildOk(a, x, k, a.nodes[x].children[k]);
        }
      }
    }
  }
}
