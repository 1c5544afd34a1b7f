/**
 * What the SectionNode operations promise, proved about the arena model:
 * insertion order and replacement, `set` followed by `get`, writes through
 * existing value nodes, rejected writes, the sparse overlay of `load`, the
 * path round trip, and the order of `asString`.
 */
module SectionNodeProperties {
  import opened Wrappers
  import opened Values
  import opened Errors
  import opened Nodes
  import opened ValueNodes
  import opened InvalidKeyHandler
  import opened SectionNodes

  // ---------------------------------------------------------------- children

  /**
   * Keys put into an empty section are kept in insertion order; putting a
   * key again moves nothing and rebinds it to the new node.
   */
  lemma InsertionOrder(s: Node, b: Id, a: Id, c: Id, a': Id)
    requires s.SectionNode? && s.children == map[] && s.order == []
    ensures
      var s3 := PutChild(PutChild(PutChild(s, "b", b), "a", a), "c", c);
      var s4 := PutChild(s3, "a", a');
      s3.order == ["b", "a", "c"] && s3.children == map["b" := b, "a" := a, "c" := c] &&
      s4.order == ["b", "a", "c"] && s4.children == map["b" := b, "a" := a', "c" := c]
  {
    var s1 := PutChild(s, "b", b);
    assert s1.order == ["b"] && s1.children == map["b" := b];
    var s2 := PutChild(s1, "a", a);
    assert s2.order == ["b", "a"] && s2.children == map["b" := b, "a" := a];
    var s3 := PutChild(s2, "c", c);
    assert s3.order == ["b", "a", "c"];
    assert "a" in s3.children;
    assert map["b" := b, "a" := a, "c" := c]["a" := a'] == map["b" := b, "a" := a', "c" := c];
  }

  /** `addSection` attaches a new empty section under the key, with this section as its parent. */
  lemma AddSectionAttaches(a: Arena, sec: Id, key: string, d: Option<string>)
    requires WellFormed(a) && IsSection(a, sec)
    ensures var r := AddSection(a, sec, key, d);
      IsSection(r, a.next) && r.nodes[sec].children[key] == a.next &&
      r.nodes[a.next].parent == Some(sec) && r.nodes[a.next].key == key &&
      r.nodes[a.next].description == d && r.nodes[a.next].children == map[] &&
      GetNode(r, sec, [key]) == Ok(Some(a.next))
  {
  }

  /** `clear` leaves a section without children, so every lookup below it finds nothing. */
  lemma ClearEmpties(a: Arena, sec: Id, segs: seq<string>)
    requires WellFormed(a) && IsSection(a, sec) && |segs| > 0
    ensures GetNode(Clear(a, sec), sec, segs) == Ok(None)
  {
  }

  // ---------------------------------------------------------------- set

  /** Setting any non-empty path below an empty section succeeds and runs no callback. */
  lemma {:induction false} SetIntoEmpty(a: Arena, obj: Obj, sec: Id, segs: seq<string>, t: JavaType, v: Value)
    requires WellFormed(a) && IsSection(a, sec) && a.nodes[sec].children == map[] && |segs| > 0
    ensures Set(a, obj, sec, segs, t, v).result.Ok?
    ensures Set(a, obj, sec, segs, t, v).obj == obj
    decreases |segs|
  {
    if |segs| > 1 {
      SetIntoEmpty(AddSection(a, sec, segs[0], None), obj, a.next, segs[1..], t, v);
    }
  }

  /** A `set` that throws has changed neither the tree nor the bound object. */
  lemma {:induction false} SetFailureChangesNothing(a: Arena, obj: Obj, sec: Id, segs: seq<string>, t: JavaType, v: Value)
    requires WellFormed(a) && IsSection(a, sec)
    requires Set(a, obj, sec, segs, t, v).result.Err?
    ensures Set(a, obj, sec, segs, t, v).arena == a
    ensures Set(a, obj, sec, segs, t, v).obj == obj
    decreases |segs|, a.next - sec
  {
    if |segs| > 0 {
      var key := segs[0];
      if key !in a.nodes[sec].children {
        if |segs| > 1 {
          SetIntoEmpty(AddSection(a, sec, key, None), obj, a.next, segs[1..], t, v);
        }
      } else {
        var c := a.nodes[sec].children[key];
        assert ChildOk(a, sec, key, c) by { assert ChildrenOk(a, sec); }
        if a.nodes[c].SectionNode? {
          SetFailureChangesNothing(a, obj, c, if |segs| == 1 then segs else segs[1..], t, v);
        }
      }
    }
  }

  /**
   * A path `set` leads along without surprises: each existing intermediate
   * segment names a section, and an existing last segment a value node.
   */
  predicate PlainPath(a: Arena, sec: Id, segs: seq<string>)
    requires WellFormed(a) && IsSection(a, sec)
    decreases |segs|
  {
    |segs| > 0 &&
    (segs[0] !in a.nodes[sec].children ||
      (var c := a.nodes[sec].children[segs[0]];
       assert ChildOk(a, sec, segs[0], c) by { assert ChildrenOk(a, sec); }
       if |segs| == 1 then IsValueNode(a, c)
       else IsSection(a, c) && PlainPath(a, c, segs[1..])))
  }

  /** After a successful `set` along a plain path, `getNode` of the path finds the node `set` returned, and `get` its value. */
  lemma {:induction false} SetThenGet(a: Arena, obj: Obj, sec: Id, segs: seq<string>, t: JavaType, v: Value)
    requires WellFormed(a) && IsSection(a, sec) && PlainPath(a, sec, segs)
    requires Set(a, obj, sec, segs, t, v).result.Ok?
    ensures var o := Set(a, obj, sec, segs, t, v);
      GetNode(o.arena, sec, segs) == Ok(Some(o.result.value)) &&
      Get(o.arena, sec, segs) == Ok(if v.Null? then NullRef else ValueRef(v))
    decreases |segs|, 1
  {
    if |segs| > 1 {
      if segs[0] !in a.nodes[sec].children {
        SetThenGetNew(a, obj, sec, segs, t, v);
      } else {
        SetThenGetExisting(a, obj, sec, segs, t, v);
      }
    }
  }

  /** The case of `SetThenGet` that creates the intermediate section `segs[0]`. */
  lemma {:induction false} SetThenGetNew(a: Arena, obj: Obj, sec: Id, segs: seq<string>, t: JavaType, v: Value)
    requires WellFormed(a) && IsSection(a, sec) && |segs| > 1 && segs[0] !in a.nodes[sec].children
    requires Set(a, obj, sec, segs, t, v).result.Ok?
    ensures var o := Set(a, obj, sec, segs, t, v);
      GetNode(o.arena, sec, segs) == Ok(Some(o.result.value)) &&
      Get(o.arena, sec, segs) == Ok(if v.Null? then NullRef else ValueRef(v))
    decreases |segs|, 0
  {
    var o := Set(a, obj, sec, segs, t, v);
    var a1 := AddSection(a, sec, segs[0], None);
    var n0 := a.next;
    assert IsSection(a1, n0) && a1.nodes[n0].children == map[];
    assert PlainPath(a1, n0, segs[1..]) by { PlainPathIntoEmpty(a1, n0, segs[1..]); }
    SetThenGet(a1, obj, n0, segs[1..], t, v);
    assert o.arena.nodes[sec] == a1.nodes[sec];
  }

  /** The case of `SetThenGet` that descends into the existing section `segs[0]`. */
  lemma {:induction false} SetThenGetExisting(a: Arena, obj: Obj, sec: Id, segs: seq<string>, t: JavaType, v: Value)
    requires WellFormed(a) && IsSection(a, sec) && PlainPath(a, sec, segs) && |segs| > 1 && segs[0] in a.nodes[sec].children
    requires Set(a, obj, sec, segs, t, v).result.Ok?
    ensures var o := Set(a, obj, sec, segs, t, v);
      GetNode(o.arena, sec, segs) == Ok(Some(o.result.value)) &&
      Get(o.arena, sec, segs) == Ok(if v.Null? then NullRef else ValueRef(v))
    decreases |segs|, 0
  {
    var o := Set(a, obj, sec, segs, t, v);
    var c := a.nodes[sec].children[segs[0]];
    assert ChildOk(a, sec, segs[0], c) by { assert ChildrenOk(a, sec); }
    SetThenGet(a, obj, c, segs[1..], t, v);
    assert o.arena.nodes[sec] == a.nodes[sec];
  }

  /** Below an empty section every non-empty path is plain. */
  lemma {:induction false} PlainPathIntoEmpty(a: Arena, sec: Id, segs: seq<string>)
    requires WellFormed(a) && IsSection(a, sec) && a.nodes[sec].children == map[] && |segs| > 0
    ensures PlainPath(a, sec, segs)
  {
  }

  /**
   * `set` whose first segment names an existing value node writes through
   * that node, whatever the rest of the path: it returns the same node, and
   * no node is created or replaced.
   */
  lemma SetWritesThroughValueNode(a: Arena, obj: Obj, sec: Id, segs: seq<string>, t: JavaType, v: Value)
    requires WellFormed(a) && IsSection(a, sec) && |segs| > 0 && segs[0] in a.nodes[sec].children
    requires IsValueNode(a, a.nodes[sec].children[segs[0]])
    ensures var c := a.nodes[sec].children[segs[0]];
      var o := Set(a, obj, sec, segs, t, v);
      var w := WriteValue(a, obj, c, v);
      (o.result.Ok? <==> w.result.Ok?) && (o.result.Ok? ==> o.result.value == c) &&
      o.arena == w.arena && o.obj == w.obj &&
      o.arena.nodes.Keys == a.nodes.Keys && o.arena.nodes[sec] == a.nodes[sec]
  {
  }

  /** A single segment naming a section descends into it with that same segment, creating `key.key`. */
  lemma SetSingleSegmentDescends(a: Arena, obj: Obj, sec: Id, key: string, t: JavaType, v: Value)
    requires WellFormed(a) && IsSection(a, sec) && key in a.nodes[sec].children
    requires IsSection(a, a.nodes[sec].children[key])
    requires key !in a.nodes[a.nodes[sec].children[key]].children
    ensures var c := a.nodes[sec].children[key];
      var o := Set(a, obj, sec, [key], t, v);
      o.result == Ok(a.next) &&
      GetNode(o.arena, sec, [key]) == Ok(Some(c)) &&
      GetNode(o.arena, sec, [key, key]) == Ok(Some(a.next))
  {
    var c := a.nodes[sec].children[key];
    assert ChildOk(a, sec, key, c) by { assert ChildrenOk(a, sec); }
    var o := Set(a, obj, sec, [key], t, v);
    assert o == Set(a, obj, c, [key], t, v);
    assert o.arena.nodes[sec] == a.nodes[sec];
  }

  /** A new value node made by `set` starts with the set value as both its default and its current value. */
  lemma SetCreatesWithDefault(a: Arena, obj: Obj, sec: Id, key: string, t: JavaType, v: Value)
    requires WellFormed(a) && IsSection(a, sec) && key !in a.nodes[sec].children
    ensures var o := Set(a, obj, sec, [key], t, v);
      o.result == Ok(a.next) && o.arena.nodes[a.next] == NewValueNode(key, sec, None, t, v) &&
      o.arena.nodes[a.next].defaultValue == v
  {
  }

  // ---------------------------------------------------------------- getNode and paths

  lemma {:induction false} GetNodeSnoc(a: Arena, b: Id, s: seq<string>, p: Id, k: string)
    requires WellFormed(a) && IsSection(a, b) && IsSection(a, p)
    requires GetNode(a, b, s) == Ok(Some(p))
    ensures GetNode(a, b, s + [k]) == GetNode(a, p, [k])
    decreases |s|
  {
    assert |s| > 0;
    var c := a.nodes[b].children[s[0]];
    assert ChildOk(a, b, s[0], c) by { assert ChildrenOk(a, b); }
    assert (s + [k])[0] == s[0];
    assert (s + [k])[1..] == s[1..] + [k];
    if |s| > 1 {
      assert a.nodes[c].SectionNode?;
      GetNodeSnoc(a, c, s[1..], p, k);
    }
  }

  /** Every node from `id` up to the section where its path starts is stored in its parent under its own key. */
  predicate Registered(a: Arena, id: Id)
    requires WellFormed(a) && id in a.nodes
    decreases id
  {
    match a.nodes[id].parent
    case None => true
    case Some(p) =>
      assert ParentOk(a, id);
      a.nodes[id].key in a.nodes[p].children && a.nodes[p].children[a.nodes[id].key] == id &&
      (IsRoot(a.nodes[p]) || Registered(a, p))
  }

  /** The root section at which `Node.path()` stops, when there is one. */
  function PathBase(a: Arena, id: Id): (r: Option<Id>)
    requires WellFormed(a) && id in a.nodes
    ensures r.Some? ==> IsSection(a, r.value) && IsRoot(a.nodes[r.value]) && r.value < id
    decreases id
  {
    assert ParentOk(a, id);
    match a.nodes[id].parent
    case None => None
    case Some(p) => if IsRoot(a.nodes[p]) then Some(p) else PathBase(a, p)
  }

  /** `getNode` of a registered node's path segments, from the root section the path starts at, finds that node. */
  lemma {:induction false} PathRoundTrip(a: Arena, id: Id)
    requires WellFormed(a) && id in a.nodes && Registered(a, id) && PathBase(a, id).Some?
    ensures GetNode(a, PathBase(a, id).value, PathSegments(a, id)) == Ok(Some(id))
    decreases id
  {
    assert ParentOk(a, id);
    var p := a.nodes[id].parent.value;
    if !IsRoot(a.nodes[p]) {
      PathRoundTrip(a, p);
      GetNodeSnoc(a, PathBase(a, id).value, PathSegments(a, p), p, a.nodes[id].key);
    }
  }

  // ---------------------------------------------------------------- load

  /** The value nodes `load` may write: those an entry of `doc` leads to. */
  function Targets(a: Arena, sec: Id, doc: Value): set<Id>
    requires WellFormed(a) && IsSection(a, sec)
    decreases doc, 1
  {
    if doc.MapV? then TargetsFrom(a, sec, doc, 0) else {}
  }

  function TargetsFrom(a: Arena, sec: Id, doc: Value, i: nat): set<Id>
    requires WellFormed(a) && IsSection(a, sec) && doc.MapV?
    decreases doc, 0, |doc.entries| - i
  {
    if i >= |doc.entries| then {}
    else
      var key := doc.entries[i].0;
      var v := doc.entries[i].1;
      var here :=
        if key !in a.nodes[sec].children then {}
        else
          var c := a.nodes[sec].children[key];
          assert ChildOk(a, sec, key, c) by { assert ChildrenOk(a, sec); }
          if v.MapV? && a.nodes[c].SectionNode? then Targets(a, c, v) else {c};
      here + TargetsFrom(a, sec, doc, i + 1)
  }

  lemma {:induction false} TargetsShape(a: Arena, b: Arena, sec: Id, doc: Value)
    requires WellFormed(a) && WellFormed(b) && SameShape(a, b) && IsSection(a, sec)
    ensures IsSection(b, sec) && Targets(b, sec, doc) == Targets(a, sec, doc)
    decreases doc, 1
  {
    assert ValueOnlyChange(a.nodes[sec], b.nodes[sec]);
    if doc.MapV? {
      TargetsFromShape(a, b, sec, doc, 0);
    }
  }

  lemma {:induction false} TargetsFromShape(a: Arena, b: Arena, sec: Id, doc: Value, i: nat)
    requires WellFormed(a) && WellFormed(b) && SameShape(a, b) && IsSection(a, sec) && doc.MapV?
    ensures IsSection(b, sec) && TargetsFrom(b, sec, doc, i) == TargetsFrom(a, sec, doc, i)
    decreases doc, 0, |doc.entries| - i
  {
    assert ValueOnlyChange(a.nodes[sec], b.nodes[sec]);
    if i < |doc.entries| {
      TargetsFromShape(a, b, sec, doc, i + 1);
      var key := doc.entries[i].0;
      var v := doc.entries[i].1;
      if key in a.nodes[sec].children {
        var c := a.nodes[sec].children[key];
        assert ChildOk(a, sec, key, c) by { assert ChildrenOk(a, sec); }
        assert ValueOnlyChange(a.nodes[c], b.nodes[c]);
        if v.MapV? && a.nodes[c].SectionNode? {
          TargetsShape(a, b, c, v);
        }
      }
    }
  }

  /** `load` is a sparse overlay: a node no entry of the document leads to is left exactly as it was. */
  lemma {:induction false} LoadIsSparse(a: Arena, obj: Obj, sec: Id, doc: Value, ctx: LoadContext, x: Id)
    requires WellFormed(a) && IsSection(a, sec) && x in a.nodes && x !in Targets(a, sec, doc)
    ensures Load(a, obj, sec, doc, ctx).arena.nodes[x] == a.nodes[x]
    decreases doc, 1
  {
    if doc.MapV? {
      LoadEntriesIsSparse(a, obj, sec, doc, 0, ctx, x);
    }
  }

  lemma {:induction false} LoadEntriesIsSparse(a: Arena, obj: Obj, sec: Id, doc: Value, i: nat, ctx: LoadContext, x: Id)
    requires WellFormed(a) && IsSection(a, sec) && doc.MapV? && x in a.nodes && x !in TargetsFrom(a, sec, doc, i)
    ensures LoadEntries(a, obj, sec, doc, i, ctx).arena.nodes[x] == a.nodes[x]
    decreases doc, 0, |doc.entries| - i
  {
    if i < |doc.entries| {
      var key := doc.entries[i].0;
      var v := doc.entries[i].1;
      if key !in a.nodes[sec].children {
        if HandleInvalidKey(ctx.policy, key).Ok? {
          LoadEntriesIsSparse(a, obj, sec, doc, i + 1, ctx, x);
        }
      } else {
        var c := a.nodes[sec].children[key];
        assert ChildOk(a, sec, key, c) by { assert ChildrenOk(a, sec); }
        if v.MapV? && a.nodes[c].SectionNode? {
          var o := Load(a, obj, c, v, ctx);
          LoadIsSparse(a, obj, c, v, ctx, x);
          if o.result.Ok? {
            TargetsFromShape(a, o.arena, sec, doc, i + 1);
            LoadEntriesIsSparse(o.arena, o.obj, sec, doc, i + 1, ctx, x);
          }
        } else if !a.nodes[c].SectionNode? {
          var dv := ctx.decode(a.nodes[c].valueType, v);
          if dv.Some? {
            var w := WriteValue(a, obj, c, dv.value);
            if w.result.Ok? {
              assert SameShape(a, w.arena) by {
                assert forall y | y in a.nodes :: ValueOnlyChange(a.nodes[y], w.arena.nodes[y]);
              }
              TargetsFromShape(a, w.arena, sec, doc, i + 1);
              LoadEntriesIsSparse(w.arena, w.obj, sec, doc, i + 1, ctx, x);
            }
          }
        }
      }
    }
  }

  lemma {:induction false} AncestorTransitive(a: Arena, x: Id, y: Id, z: Id)
    requires WellFormed(a) && y in a.nodes && z in a.nodes
    requires AncestorOrSelf(a, x, y) && AncestorOrSelf(a, y, z)
    ensures AncestorOrSelf(a, x, z)
    decreases z
  {
    if y != z {
      assert ParentOk(a, z);
      AncestorTransitive(a, x, y, a.nodes[z].parent.value);
    }
  }

  /** Every node `load` may write lies strictly below the section it loads into. */
  lemma {:induction false} TargetsBelow(a: Arena, sec: Id, doc: Value, t: Id)
    requires WellFormed(a) && IsSection(a, sec) && t in Targets(a, sec, doc)
    ensures t in a.nodes && sec < t && AncestorOrSelf(a, sec, t)
    decreases doc, 1
  {
    TargetsFromBelow(a, sec, doc, 0, t);
  }

  lemma {:induction false} TargetsFromBelow(a: Arena, sec: Id, doc: Value, i: nat, t: Id)
    requires WellFormed(a) && IsSection(a, sec) && doc.MapV? && t in TargetsFrom(a, sec, doc, i)
    ensures t in a.nodes && sec < t && AncestorOrSelf(a, sec, t)
    decreases doc, 0, |doc.entries| - i
  {
    var key := doc.entries[i].0;
    var v := doc.entries[i].1;
    if t !in TargetsFrom(a, sec, doc, i + 1) {
      var c := a.nodes[sec].children[key];
      assert ChildOk(a, sec, key, c) by { assert ChildrenOk(a, sec); }
      assert AncestorOrSelf(a, sec, c);
      if v.MapV? && a.nodes[c].SectionNode? {
        TargetsBelow(a, c, v, t);
        AncestorTransitive(a, sec, c, t);
      }
    } else {
      TargetsFromBelow(a, sec, doc, i + 1, t);
    }
  }

  /** A child whose key no entry of the document mentions keeps its node, value included. */
  lemma LoadKeepsUnmentionedKey(a: Arena, obj: Obj, sec: Id, entries: seq<(string, Value)>, ctx: LoadContext, key: string)
    requires WellFormed(a) && IsSection(a, sec) && key in a.nodes[sec].children
    requires forall i | 0 <= i < |entries| :: entries[i].0 != key
    ensures var c := a.nodes[sec].children[key]; var b := Load(a, obj, sec, MapV(entries), ctx).arena;
      c in b.nodes && b.nodes[c] == a.nodes[c]
  {
    var c := a.nodes[sec].children[key];
    assert ChildOk(a, sec, key, c) by { assert ChildrenOk(a, sec); }
    if c in Targets(a, sec, MapV(entries)) {
      UnmentionedNotTarget(a, sec, MapV(entries), 0, key);
    }
    LoadIsSparse(a, obj, sec, MapV(entries), ctx, c);
  }

  lemma {:induction false} UnmentionedNotTarget(a: Arena, sec: Id, doc: Value, i: nat, key: string)
    requires WellFormed(a) && IsSection(a, sec) && doc.MapV? && key in a.nodes[sec].children
    requires forall j | i <= j < |doc.entries| :: doc.entries[j].0 != key
    ensures a.nodes[sec].children[key] !in TargetsFrom(a, sec, doc, i)
    decreases |doc.entries| - i
  {
    if i < |doc.entries| {
      UnmentionedNotTarget(a, sec, doc, i + 1, key);
      var c := a.nodes[sec].children[key];
      assert ChildOk(a, sec, key, c) by { assert ChildrenOk(a, sec); }
      var k := doc.entries[i].0;
      var v := doc.entries[i].1;
      if k in a.nodes[sec].children {
        var d := a.nodes[sec].children[k];
        assert ChildOk(a, sec, k, d) by { assert ChildrenOk(a, sec); }
        if v.MapV? && a.nodes[d].SectionNode? && c in Targets(a, d, v) {
          TargetsBelow(a, d, v, c);
          assert false;
        }
      }
    }
  }

  /**
   * One entry of a load that goes on: it leaves a tree of the same shape,
   * from which the remaining entries are loaded.
   */
  lemma LoadEntriesStep(a: Arena, obj: Obj, sec: Id, doc: Value, i: nat, ctx: LoadContext) returns (b: Arena, p: Obj)
    requires WellFormed(a) && IsSection(a, sec) && doc.MapV? && i < |doc.entries|
    requires LoadEntries(a, obj, sec, doc, i, ctx).result.Ok?
    ensures WellFormed(b) && SameShape(a, b) && IsSection(b, sec)
    ensures LoadEntries(a, obj, sec, doc, i, ctx) == LoadEntries(b, p, sec, doc, i + 1, ctx)
  {
    var key := doc.entries[i].0;
    var v := doc.entries[i].1;
    b, p := a, obj;
    if key in a.nodes[sec].children {
      var c := a.nodes[sec].children[key];
      assert ChildOk(a, sec, key, c) by { assert ChildrenOk(a, sec); }
      if v.MapV? && a.nodes[c].SectionNode? {
        var o := Load(a, obj, c, v, ctx);
        b, p := o.arena, o.obj;
      } else {
        var w := WriteValue(a, obj, c, ctx.decode(a.nodes[c].valueType, v).value);
        b, p := w.arena, w.obj;
      }
    }
    SameShapeKeepsSection(a, b, sec);
  }

  /**
   * The sparse overlay applies what the document mentions: after a load
   * that succeeds, a value child whose key the document mentions holds the
   * node value the codec decodes from the last entry with that key.
   */
  lemma LoadWritesMentionedValue(a: Arena, obj: Obj, sec: Id, entries: seq<(string, Value)>, ctx: LoadContext, j: nat)
    requires WellFormed(a) && IsSection(a, sec) && j < |entries|
    requires entries[j].0 in a.nodes[sec].children && IsValueNode(a, a.nodes[sec].children[entries[j].0])
    requires forall m | j < m < |entries| :: entries[m].0 != entries[j].0
    requires Load(a, obj, sec, MapV(entries), ctx).result.Ok?
    ensures var c := a.nodes[sec].children[entries[j].0];
      var d := ctx.decode(a.nodes[c].valueType, entries[j].1);
      var b := Load(a, obj, sec, MapV(entries), ctx).arena;
      d.Some? && IsValueNode(b, c) && b.nodes[c].value == d.value
  {
    LoadEntriesWritesMentioned(a, obj, sec, MapV(entries), 0, ctx, j);
  }

  lemma {:induction false} LoadEntriesWritesMentioned(a: Arena, obj: Obj, sec: Id, doc: Value, i: nat, ctx: LoadContext, j: nat)
    requires WellFormed(a) && IsSection(a, sec) && doc.MapV? && i <= j < |doc.entries|
    requires doc.entries[j].0 in a.nodes[sec].children && IsValueNode(a, a.nodes[sec].children[doc.entries[j].0])
    requires forall m | j < m < |doc.entries| :: doc.entries[m].0 != doc.entries[j].0
    requires LoadEntries(a, obj, sec, doc, i, ctx).result.Ok?
    ensures var c := a.nodes[sec].children[doc.entries[j].0];
      var d := ctx.decode(a.nodes[c].valueType, doc.entries[j].1);
      var b := LoadEntries(a, obj, sec, doc, i, ctx).arena;
      d.Some? && IsValueNode(b, c) && b.nodes[c].value == d.value
    decreases j - i
  {
    var key := doc.entries[j].0;
    var c := a.nodes[sec].children[key];
    if i < j {
      var b, p := LoadEntriesStep(a, obj, sec, doc, i, ctx);
      assert ValueOnlyChange(a.nodes[sec], b.nodes[sec]);
      assert ValueOnlyChange(a.nodes[c], b.nodes[c]);
      LoadEntriesWritesMentioned(b, p, sec, doc, i + 1, ctx, j);
    } else {
      assert ChildOk(a, sec, key, c) by { assert ChildrenOk(a, sec); }
      var d := ctx.decode(a.nodes[c].valueType, doc.entries[j].1);
      assert d.Some?;
      var w := WriteValue(a, obj, c, d.value);
      assert w.result.Ok?;
      assert w.arena.nodes[sec] == a.nodes[sec];
      UnmentionedNotTarget(w.arena, sec, doc, j + 1, key);
      LoadEntriesIsSparse(w.arena, w.obj, sec, doc, j + 1, ctx, c);
    }
  }

  /** Anything but an object node loads as nothing. */
  lemma LoadIgnoresNonObject(a: Arena, obj: Obj, sec: Id, doc: Value, ctx: LoadContext)
    requires WellFormed(a) && IsSection(a, sec) && !doc.MapV?
    ensures Load(a, obj, sec, doc, ctx) == Outcome(Ok(()), a, obj)
  {
  }

  /**
   * Under the default policy, a document whose first key the section does
   * not declare throws InvalidKeyException for that key, before anything
   * is written.
   */
  lemma DefaultPolicyRejectsUnknownKey(a: Arena, obj: Obj, sec: Id, entries: seq<(string, Value)>, ctx: LoadContext)
    requires WellFormed(a) && IsSection(a, sec) && ctx.policy == DefaultPolicy
    requires |entries| > 0 && entries[0].0 !in a.nodes[sec].children
    ensures Load(a, obj, sec, MapV(entries), ctx) == Outcome(Err(InvalidKey(entries[0].0)), a, obj)
  {
  }

  /** Under SILENT, a document of unknown keys only loads successfully, with no effect at all. */
  lemma {:induction false} SilentIgnoresUnknownKeys(a: Arena, obj: Obj, sec: Id, doc: Value, i: nat, ctx: LoadContext)
    requires WellFormed(a) && IsSection(a, sec) && doc.MapV? && ctx.policy == Silent
    requires forall j | 0 <= j < |doc.entries| :: doc.entries[j].0 !in a.nodes[sec].children
    ensures LoadEntries(a, obj, sec, doc, i, ctx) == Outcome(Ok(()), a, obj)
    decreases |doc.entries| - i
  {
    if i < |doc.entries| {
      SilentIgnoresUnknownKeys(a, obj, sec, doc, i + 1, ctx);
    }
  }

  // ---------------------------------------------------------------- asString

  /** `b` holds every node of `a` from identity `lo` on unchanged. */
  predicate AgreeFrom(a: Arena, b: Arena, lo: int) {
    forall x | x in a.nodes && lo <= x :: x in b.nodes && b.nodes[x] == a.nodes[x]
  }

  lemma {:induction false} RenderFrame(a: Arena, b: Arena, sec: Id, indent: nat, ctx: SerializeContext)
    requires WellFormed(a) && WellFormed(b) && IsSection(a, sec) && AgreeFrom(a, b, sec)
    ensures IsSection(b, sec) && Render(b, sec, indent, ctx) == Render(a, sec, indent, ctx)
    decreases a.next - sec, 2, 0
  {
    assert ChildrenOk(a, sec);
    RenderKeysFrame(a, b, sec, a.nodes[sec].order, indent, ctx);
  }

  lemma {:induction false} RenderKeysFrame(a: Arena, b: Arena, sec: Id, keys: seq<string>, indent: nat, ctx: SerializeContext)
    requires WellFormed(a) && WellFormed(b) && IsSection(a, sec) && IsSection(b, sec) && AgreeFrom(a, b, sec + 1)
    requires forall i | 0 <= i < |keys| ::
      (keys[i] in a.nodes[sec].children && keys[i] in b.nodes[sec].children &&
       b.nodes[sec].children[keys[i]] == a.nodes[sec].children[keys[i]])
    ensures RenderKeys(b, sec, keys, indent, ctx) == RenderKeys(a, sec, keys, indent, ctx)
    decreases a.next - sec, 1, |keys|
  {
    if |keys| > 0 {
      var c := a.nodes[sec].children[keys[0]];
      assert ChildOk(a, sec, keys[0], c) by { assert ChildrenOk(a, sec); }
      ChildTextFrame(a, b, sec, c, indent, ctx);
      RenderKeysFrame(a, b, sec, keys[1..], indent, ctx);
    }
  }

  lemma {:induction false} ChildTextFrame(a: Arena, b: Arena, sec: Id, c: Id, indent: nat, ctx: SerializeContext)
    requires WellFormed(a) && WellFormed(b) && IsSection(a, sec) && IsSection(b, sec) && AgreeFrom(a, b, sec + 1)
    requires c in a.nodes && sec < c
    ensures ChildText(b, sec, c, indent, ctx) == ChildText(a, sec, c, indent, ctx)
    decreases a.next - sec, 0, 0
  {
    assert ParentOk(a, c);
    if a.nodes[c].SectionNode? {
      RenderFrame(a, b, c, indent + ctx.indentSize, ctx);
    }
  }

  lemma {:induction false} RenderKeysSnoc(a: Arena, sec: Id, keys: seq<string>, k: string, indent: nat, ctx: SerializeContext)
    requires WellFormed(a) && IsSection(a, sec)
    requires forall i | 0 <= i < |keys| :: keys[i] in a.nodes[sec].children
    requires k in a.nodes[sec].children
    ensures var c := a.nodes[sec].children[k];
      c in a.nodes && sec < c &&
      RenderKeys(a, sec, keys + [k], indent, ctx) == RenderKeys(a, sec, keys, indent, ctx) + ChildText(a, sec, c, indent, ctx)
    decreases |keys|
  {
    assert ChildOk(a, sec, k, a.nodes[sec].children[k]) by { assert ChildrenOk(a, sec); }
    if |keys| > 0 {
      assert (keys + [k])[1..] == keys[1..] + [k];
      RenderKeysSnoc(a, sec, keys[1..], k, indent, ctx);
    } else {
      assert [k][1..] == [];
    }
  }

  /** A value child under a new key renders after everything the section rendered before: insertion order. */
  lemma RenderAppendsNewChild(a: Arena, sec: Id, key: string, d: Option<string>, t: JavaType, v: Value, indent: nat, ctx: SerializeContext)
    requires WellFormed(a) && IsSection(a, sec) && key !in a.nodes[sec].children
    ensures Render(AddValue(a, sec, key, d, t, v), sec, indent, ctx) ==
      Render(a, sec, indent, ctx) + ValueText(NewValueNode(key, sec, d, t, v), indent, ctx)
  {
    var b := AddValue(a, sec, key, d, t, v);
    assert ChildrenOk(a, sec);
    var order := a.nodes[sec].order;
    assert b.nodes[sec].order == order + [key];
    RenderKeysSnoc(b, sec, order, key, indent, ctx);
    RenderKeysFrame(a, b, sec, order, indent, ctx);
  }

  /** A cleared section renders as nothing. */
  lemma ClearedRendersEmpty(a: Arena, sec: Id, indent: nat, ctx: SerializeContext)
    requires WellFormed(a) && IsSection(a, sec)
    ensures Render(Clear(a, sec), sec, indent, ctx) == ""
  {
  }

  /** A child section renders its `key:` line before its own children, which go one indentation step deeper. */
  lemma SectionChildLayout(a: Arena, sec: Id, c: Id, indent: nat, ctx: SerializeContext)
    requires WellFormed(a) && IsSection(a, sec) && IsSection(a, c) && sec < c && a.nodes[c].description.None?
    ensures ChildText(a, sec, c, indent, ctx) ==
      Text.Spaces(indent) + a.nodes[c].key + ":\n" + Render(a, c, indent + ctx.indentSize, ctx)
  {
  }
}
