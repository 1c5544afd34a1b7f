/**
 * The object-to-tree binder of lectern-core's BaseConfig, on values: the
 * three walks over the ordered list of a configuration class's fields that
 * build the node schema, push the object's field values into the value
 * nodes before a save, and pull the node values back into the fields after
 * a reload. The reflective FieldCollector and ConfigField are replaced by
 * the `Field` descriptors, and the bound object by `Obj`.
 */
module Binder {
  import opened Wrappers
  import opened Values
  import opened Errors
  import opened Validators
  import opened Nodes
  import opened ValueNodes
  import opened SectionNodes
  import SectionNodeProperties

  /**
   * One field of a configuration class, as FieldCollector describes it: a
   * value field with its key, description, declared type, validators and the
   * value a new instance of the class holds in it; or a nested section field
   * with the fields of its class and whether a new instance of the enclosing
   * class holds an instance in it (rather than null).
   */
  datatype Field =
    | ValueField(key: string, description: Option<string>, fieldType: JavaType,
                 validators: seq<Validator>, initial: Value)
    | SectionField(key: string, description: Option<string>, fields: seq<Field>, initiallySet: bool)

  /** `ConfigField.get`: the value the field at path `q` holds. */
  function Read(obj: Obj, q: seq<string>): Value {
    if q in obj.values then obj.values[q] else Null
  }

  /**
   * The object after `section.set(instance, getOrCreateInstance())`: the
   * field at `q` holds a new instance of the section class, whose fields hold
   * what a new instance holds.
   */
  function Fresh(obj: Obj, q: seq<string>, fields: seq<Field>): (r: Obj)
    decreases fields, 1
  {
    FreshFields(obj.(unset := obj.unset - {q}), q, fields, 0)
  }

  function FreshFields(obj: Obj, q: seq<string>, fields: seq<Field>, i: nat): (r: Obj)
    decreases fields, 0, |fields| - i
  {
    if i >= |fields| then obj
    else
      var f := fields[i];
      var p := q + [f.key];
      var obj' :=
        if f.ValueField? then obj.(values := obj.values[p := f.initial])
        else if f.initiallySet then Fresh(obj, p, f.fields)
        else obj.(unset := obj.unset + {p});
      FreshFields(obj', q, fields, i + 1)
  }

  /**
   * What `setupNodeSchema` installs on the value node `set` returned: the
   * callback, then the description, then the validators.
   */
  function Install(a: Arena, id: Id, cb: Callback, d: Option<string>, vs: seq<Validator>): (r: Arena)
    requires WellFormed(a) && IsValueNode(a, id)
    ensures WellFormed(r) && Grows(a, r) && r.next == a.next && r.nodes.Keys == a.nodes.Keys
    ensures r.nodes[id] == a.nodes[id].(callback := cb, description := d, validators := vs)
    ensures forall x | x in a.nodes && x != id :: r.nodes[x] == a.nodes[x]
  {
    var n := WithValidators(WithDescription(a.nodes[id].(callback := cb), d), vs);
    ReplacePreserves(a, id, n);
    Arena(a.nodes[id := n], a.next)
  }

  /**
   * `createDefaultSectionNodeSchema(instance, section)`: the section is
   * cleared, then each field in order becomes a node. The instance is the
   * bound object at the top (`owner` Bound), and for a nested section a new
   * instance no field refers to (`owner` Detached), whose fields hold their
   * initial values.
   */
  function Schema(a: Arena, obj: Obj, sec: Id, owner: Owner, prefix: seq<string>, fields: seq<Field>): (o: Outcome<()>)
    requires WellFormed(a) && IsSection(a, sec)
    ensures WellFormed(o.arena) && Grows(a, o.arena)
    decreases fields, 1
  {
    SchemaFields(Clear(a, sec), obj, sec, owner, prefix, fields, 0)
  }

  /**
   * The fields from the `i`-th on: a section field becomes `addSection(key,
   * description)` and the schema of a new instance of its class inside it; a
   * value field becomes `set(key, type, value)` with the node's callback,
   * description and validators installed afterwards.
   */
  function SchemaFields(a: Arena, obj: Obj, sec: Id, owner: Owner, prefix: seq<string>, fields: seq<Field>, i: nat): (o: Outcome<()>)
    requires WellFormed(a) && IsSection(a, sec)
    ensures WellFormed(o.arena) && Grows(a, o.arena)
    decreases fields, 0, |fields| - i
  {
    if i >= |fields| then Outcome(Ok(()), a, obj)
    else
      var f := fields[i];
      var q := prefix + [f.key];
      match f
      case SectionField(key, d, sub, _) =>
        var a1 := AddSection(a, sec, key, d);
        assert IsSection(a1, a.next);
        var o := Schema(a1, obj, a.next, Detached, q, sub);
        GrowsTransitive(a, a1, o.arena);
        GrowsKeepsSection(a, o.arena, sec);
        if o.result.Err? then o
        else
          var r := SchemaFields(o.arena, o.obj, sec, owner, prefix, fields, i + 1);
          GrowsTransitive(a, o.arena, r.arena);
          r
      case ValueField(key, d, t, vs, initial) =>
        var v := if owner.Bound? then Read(obj, q) else initial;
        var o := Set(a, obj, sec, SplitPath(key), t, v);
        if o.result.Err? then Outcome(Err(o.result.error), o.arena, o.obj)
        else
          var a2 := Install(o.arena, o.result.value, SetField(owner, q, t), d, vs);
          GrowsTransitive(a, o.arena, a2);
          GrowsKeepsSection(a, a2, sec);
          var r := SchemaFields(a2, o.obj, sec, owner, prefix, fields, i + 1);
          GrowsTransitive(a, a2, r.arena);
          r
  }

  /**
   * `loadConfigTree(instance, section)`, the push before a save: each field
   * in order is looked up by its key; a section field descends with the
   * instance its field holds, and a value field's value goes through
   * `setValue`, so the validators apply.
   */
  function Push(a: Arena, obj: Obj, sec: Id, prefix: seq<string>, fields: seq<Field>): (o: Outcome<()>)
    requires WellFormed(a) && IsSection(a, sec)
    ensures WellFormed(o.arena) && SameShape(a, o.arena)
    decreases fields, 1
  {
    PushFields(a, obj, sec, prefix, fields, 0)
  }

  function PushFields(a: Arena, obj: Obj, sec: Id, prefix: seq<string>, fields: seq<Field>, i: nat): (o: Outcome<()>)
    requires WellFormed(a) && IsSection(a, sec)
    ensures WellFormed(o.arena) && SameShape(a, o.arena)
    decreases fields, 0, |fields| - i
  {
    if i >= |fields| then Outcome(Ok(()), a, obj)
    else
      var f := fields[i];
      var q := prefix + [f.key];
      match GetNode(a, sec, SplitPath(f.key))
      case Err(e) => Outcome(Err(e), a, obj)
      case Ok(None) => Outcome(Err(MissingNode(f.key)), a, obj)
      case Ok(Some(n)) =>
        if f.SectionField? then
          if !a.nodes[n].SectionNode? then Outcome(Err(NotASection(f.key)), a, obj)
          else if q in obj.unset then Outcome(Err(NullPointer), a, obj)
          else
            var o := Push(a, obj, n, q, f.fields);
            if o.result.Err? then o
            else
              var rest := PushFields(o.arena, o.obj, sec, prefix, fields, i + 1);
              SameShapeTransitive(a, o.arena, rest.arena);
              rest
        else if a.nodes[n].SectionNode? then Outcome(Err(NotAValue(f.key)), a, obj)
        else
          var w := WriteValue(a, obj, n, Read(obj, q));
          assert SameShape(a, w.arena) by {
            assert forall x | x in a.nodes :: ValueOnlyChange(a.nodes[x], w.arena.nodes[x]);
          }
          if w.result.Err? then w
          else
            var rest := PushFields(w.arena, w.obj, sec, prefix, fields, i + 1);
            SameShapeTransitive(a, w.arena, rest.arena);
            rest
  }

  /**
   * `setFieldValue`: a non-null Double node value goes into a `float` field
   * as a Float, an Integer into a `long` field as a Long, and any other value
   * through `Field.set` as it is. None is the IllegalStateException "Unable
   * to set value" (the retry with a cast fails the same way, or throws the
   * exception itself).
   */
  function SetFieldValue(t: JavaType, v: Value): Option<Value> {
    if v.DoubleV? && t == Primitive(PFloat) then Some(FloatV(v.d))
    else if v.IntV? && t == Primitive(PLong) then Some(LongV(v.i))
    else FieldAssign(t, v)
  }

  /**
   * `loadFields(instance, section)`, the pull after a reload: each field in
   * order is looked up by its key; a section field gets a new instance, into
   * which its section is pulled, and a value field the node's value. The
   * tree is not changed.
   */
  function Pull(a: Arena, obj: Obj, sec: Id, prefix: seq<string>, fields: seq<Field>): (o: Outcome<()>)
    requires WellFormed(a) && IsSection(a, sec)
    ensures o.arena == a
    decreases fields, 1
  {
    PullFields(a, obj, sec, prefix, fields, 0)
  }

  function PullFields(a: Arena, obj: Obj, sec: Id, prefix: seq<string>, fields: seq<Field>, i: nat): (o: Outcome<()>)
    requires WellFormed(a) && IsSection(a, sec)
    ensures o.arena == a
    decreases fields, 0, |fields| - i
  {
    if i >= |fields| then Outcome(Ok(()), a, obj)
    else
      var f := fields[i];
      var q := prefix + [f.key];
      match GetNode(a, sec, SplitPath(f.key))
      case Err(e) => Outcome(Err(e), a, obj)
      case Ok(None) => Outcome(Err(MissingNode(f.key)), a, obj)
      case Ok(Some(n)) =>
        if f.SectionField? then
          if !a.nodes[n].SectionNode? then Outcome(Err(NotASection(f.key)), a, obj)
          else
            var o := Pull(a, Fresh(obj, q, f.fields), n, q, f.fields);
            if o.result.Err? then o
            else PullFields(a, o.obj, sec, prefix, fields, i + 1)
        else if a.nodes[n].SectionNode? then Outcome(Err(NotAValue(f.key)), a, obj)
        else
          match SetFieldValue(f.fieldType, a.nodes[n].value)
          case None => Outcome(Err(UnableToSet(f.key)), a, obj)
          case Some(w) => PullFields(a, obj.(values := obj.values[q := w]), sec, prefix, fields, i + 1)
  }

  /** `BaseConfig.save()` once initialised: push, then the text the root node writes. */
  function SaveOutcome(a: Arena, obj: Obj, fields: seq<Field>, ctx: SerializeContext): (o: Outcome<string>)
    requires WellFormed(a) && IsSection(a, 0)
    ensures WellFormed(o.arena) && SameShape(a, o.arena) && IsSection(o.arena, 0)
  {
    var p := Push(a, obj, 0, [], fields);
    SameShapeKeepsSection(a, p.arena, 0);
    if p.result.Err? then Outcome(Err(p.result.error), p.arena, p.obj)
    else Outcome(Ok(Render(p.arena, 0, 0, ctx)), p.arena, p.obj)
  }

  /** `BaseConfig.reload()` once initialised: the root node loads `doc`, then the fields are pulled. */
  function ReloadOutcome(a: Arena, obj: Obj, fields: seq<Field>, ctx: LoadContext, doc: Value): (o: Outcome<()>)
    requires WellFormed(a) && IsSection(a, 0)
    ensures WellFormed(o.arena) && SameShape(a, o.arena) && IsSection(o.arena, 0)
  {
    var l := Load(a, obj, 0, doc, ctx);
    SameShapeKeepsSection(a, l.arena, 0);
    if l.result.Err? then l
    else Pull(l.arena, l.obj, 0, [], fields)
  }

  // ---------------------------------------------------------------- properties

  /** The keys of the fields, in order. */
  function Keys(fields: seq<Field>): (r: seq<string>)
    ensures |r| == |fields| && forall i | 0 <= i < |fields| :: r[i] == fields[i].key
  {
    if |fields| == 0 then [] else [fields[0].key] + Keys(fields[1..])
  }

  predicate DotFree(k: string) {
    forall j | 0 <= j < |k| :: k[j] != '.'
  }

  /** The value node the schema makes for value field `f` of the instance `owner` names. */
  function SchemaNode(f: Field, sec: Id, owner: Owner, prefix: seq<string>, obj: Obj): (n: Node)
    requires f.ValueField?
  {
    var q := prefix + [f.key];
    var v := if owner.Bound? then Read(obj, q) else f.initial;
    ValueNode(f.key, Some(sec), f.description, f.fieldType, f.validators, v, v, SetField(owner, q, f.fieldType))
  }

  /** Section `sec` holds, in order, the schema nodes of the first `i` fields and nothing else. */
  predicate HoldsSchema(a: Arena, sec: Id, owner: Owner, prefix: seq<string>, obj: Obj, fields: seq<Field>, i: nat)
    requires IsSection(a, sec) && i <= |fields| && forall j | 0 <= j < |fields| :: fields[j].ValueField?
  {
    a.nodes[sec].order == Keys(fields)[..i] && a.nodes[sec].children.Keys == (set j | 0 <= j < i :: fields[j].key) &&
    forall j | 0 <= j < i ::
      fields[j].key in a.nodes[sec].children && a.nodes[sec].children[fields[j].key] in a.nodes &&
      a.nodes[a.nodes[sec].children[fields[j].key]] == SchemaNode(fields[j], sec, owner, prefix, obj)
  }

  /**
   * The schema of value fields with distinct keys without dots: it never
   * fails, as no default is validated; it gives the section one value node
   * per field in declaration order, each holding the field's value as both
   * default and current value, with the callback into that field, the
   * description and the validators installed; and it runs no callback.
   */
  lemma {:induction false} SchemaOfValueFields(a: Arena, obj: Obj, sec: Id, owner: Owner, prefix: seq<string>, fields: seq<Field>)
    requires WellFormed(a) && IsSection(a, sec)
    requires forall j | 0 <= j < |fields| :: fields[j].ValueField? && DotFree(fields[j].key)
    requires forall j, k | 0 <= j < k < |fields| :: fields[j].key != fields[k].key
    ensures var o := Schema(a, obj, sec, owner, prefix, fields);
      o.result.Ok? && o.obj == obj && IsSection(o.arena, sec) &&
      HoldsSchema(o.arena, sec, owner, prefix, obj, fields, |fields|) &&
      o.arena.nodes[sec].description == a.nodes[sec].description &&
      forall x | x in a.nodes && x != sec :: x in o.arena.nodes && o.arena.nodes[x] == a.nodes[x]
  {
    var c := Clear(a, sec);
    assert Keys(fields)[..0] == [];
    SchemaFieldsOfValueFields(c, obj, sec, owner, prefix, fields, 0);
  }

  lemma {:induction false} SchemaFieldsOfValueFields(a: Arena, obj: Obj, sec: Id, owner: Owner, prefix: seq<string>, fields: seq<Field>, i: nat)
    requires WellFormed(a) && IsSection(a, sec) && i <= |fields|
    requires forall j | 0 <= j < |fields| :: fields[j].ValueField? && DotFree(fields[j].key)
    requires forall j, k | 0 <= j < k < |fields| :: fields[j].key != fields[k].key
    requires HoldsSchema(a, sec, owner, prefix, obj, fields, i)
    ensures var o := SchemaFields(a, obj, sec, owner, prefix, fields, i);
      o.result.Ok? && o.obj == obj && IsSection(o.arena, sec) &&
      HoldsSchema(o.arena, sec, owner, prefix, obj, fields, |fields|) &&
      o.arena.nodes[sec].description == a.nodes[sec].description &&
      forall x | x in a.nodes && x != sec :: x in o.arena.nodes && o.arena.nodes[x] == a.nodes[x]
    decreases |fields| - i
  {
    if i < |fields| {
      var a2 := SchemaValueStep(a, obj, sec, owner, prefix, fields, i);
      SchemaFieldsOfValueFields(a2, obj, sec, owner, prefix, fields, i + 1);
    }
  }

  /** One value field of the schema: `set` adds its node, which then gets its callback, description and validators. */
  lemma SchemaValueStep(a: Arena, obj: Obj, sec: Id, owner: Owner, prefix: seq<string>, fields: seq<Field>, i: nat)
      returns (a2: Arena)
    requires WellFormed(a) && IsSection(a, sec) && i < |fields|
    requires forall j | 0 <= j < |fields| :: fields[j].ValueField? && DotFree(fields[j].key)
    requires forall j, k | 0 <= j < k < |fields| :: fields[j].key != fields[k].key
    requires HoldsSchema(a, sec, owner, prefix, obj, fields, i)
    ensures WellFormed(a2) && IsSection(a2, sec) && HoldsSchema(a2, sec, owner, prefix, obj, fields, i + 1)
    ensures SchemaFields(a, obj, sec, owner, prefix, fields, i) == SchemaFields(a2, obj, sec, owner, prefix, fields, i + 1)
    ensures a2.nodes[sec].description == a.nodes[sec].description
    ensures forall x | x in a.nodes && x != sec :: x in a2.nodes && a2.nodes[x] == a.nodes[x]
  {
    var f := fields[i];
    var q := prefix + [f.key];
    var v := if owner.Bound? then Read(obj, q) else f.initial;
    assert SplitPath(f.key) == [f.key];
    assert f.key !in a.nodes[sec].children;
    var b := AddValue(a, sec, f.key, None, f.fieldType, v);
    assert Set(a, obj, sec, [f.key], f.fieldType, v) == Outcome(Ok(a.next), b, obj);
    a2 := Install(b, a.next, SetField(owner, q, f.fieldType), f.description, f.validators);
    HoldsSchemaStep(a, a2, obj, sec, owner, prefix, fields, i);
  }

  lemma HoldsSchemaStep(a: Arena, a2: Arena, obj: Obj, sec: Id, owner: Owner, prefix: seq<string>, fields: seq<Field>, i: nat)
    requires IsSection(a, sec) && i < |fields|
    requires forall j | 0 <= j < |fields| :: fields[j].ValueField?
    requires forall j | 0 <= j < i :: fields[j].key != fields[i].key
    requires HoldsSchema(a, sec, owner, prefix, obj, fields, i)
    requires a2.nodes.Keys == a.nodes.Keys + {a.next} && a2.nodes[a.next] == SchemaNode(fields[i], sec, owner, prefix, obj)
    requires a2.nodes[sec] == PutChild(a.nodes[sec], fields[i].key, a.next)
    requires forall x | x in a.nodes && x != sec :: a2.nodes[x] == a.nodes[x]
    ensures IsSection(a2, sec) && HoldsSchema(a2, sec, owner, prefix, obj, fields, i + 1)
  {
    var s := a.nodes[sec];
    KeyIsNew(s.children, fields, i);
    OrderStep(s.order, fields, i);
    ChildKeysStep(s.children, a2.nodes[sec].children, fields, i, a.next);
    HoldsNodesStep(a, a2, obj, sec, owner, prefix, fields, i);
  }

  lemma OrderStep(order: seq<string>, fields: seq<Field>, i: nat)
    requires i < |fields| && order == Keys(fields)[..i]
    ensures order + [fields[i].key] == Keys(fields)[..i + 1]
  {
    var ks := Keys(fields);
    TakeOneMore(ks, i);
  }

  lemma TakeOneMore(s: seq<string>, i: nat)
    requires i < |s|
    ensures s[..i + 1] == s[..i] + [s[i]]
  {
  }

  lemma ChildKeysStep(children: map<string, Id>, children2: map<string, Id>, fields: seq<Field>, i: nat, c: Id)
    requires i < |fields| && children.Keys == (set j | 0 <= j < i :: fields[j].key)
    requires children2 == children[fields[i].key := c]
    ensures children2.Keys == (set j | 0 <= j < i + 1 :: fields[j].key)
  {
    assert (set j | 0 <= j < i + 1 :: fields[j].key) == (set j | 0 <= j < i :: fields[j].key) + {fields[i].key};
  }

  lemma KeyIsNew(children: map<string, Id>, fields: seq<Field>, i: nat)
    requires i < |fields| && forall j | 0 <= j < i :: fields[j].key != fields[i].key
    requires children.Keys == (set j | 0 <= j < i :: fields[j].key)
    ensures fields[i].key !in children
  {
  }

  lemma HoldsNodesStep(a: Arena, a2: Arena, obj: Obj, sec: Id, owner: Owner, prefix: seq<string>, fields: seq<Field>, i: nat)
    requires IsSection(a, sec) && IsSection(a2, sec) && i < |fields|
    requires forall j | 0 <= j < |fields| :: fields[j].ValueField?
    requires fields[i].key !in a.nodes[sec].children
    requires forall j | 0 <= j < i ::
      fields[j].key in a.nodes[sec].children && a.nodes[sec].children[fields[j].key] in a.nodes &&
      a.nodes[a.nodes[sec].children[fields[j].key]] == SchemaNode(fields[j], sec, owner, prefix, obj)
    requires a2.nodes.Keys == a.nodes.Keys + {a.next} && a2.nodes[a.next] == SchemaNode(fields[i], sec, owner, prefix, obj)
    requires a2.nodes[sec].children == a.nodes[sec].children[fields[i].key := a.next]
    requires forall x | x in a.nodes && x != sec :: a2.nodes[x] == a.nodes[x]
    ensures forall j | 0 <= j < i + 1 ::
      fields[j].key in a2.nodes[sec].children && a2.nodes[sec].children[fields[j].key] in a2.nodes &&
      a2.nodes[a2.nodes[sec].children[fields[j].key]] == SchemaNode(fields[j], sec, owner, prefix, obj)
  {
    forall j | 0 <= j < i + 1
      ensures fields[j].key in a2.nodes[sec].children && a2.nodes[sec].children[fields[j].key] in a2.nodes &&
        a2.nodes[a2.nodes[sec].children[fields[j].key]] == SchemaNode(fields[j], sec, owner, prefix, obj)
    {
      if j < i {
        var x := a.nodes[sec].children[fields[j].key];
        assert a.nodes[x].ValueNode?;
      }
    }
  }

  /** Two fields of one instance are the same field only if their keys are equal. */
  lemma AppendKeyInjective(q: seq<string>, x: string, y: string)
    ensures q + [x] == q + [y] ==> x == y
  {
    if q + [x] == q + [y] {
      assert (q + [x])[|q|] == x && (q + [y])[|q|] == y;
    }
  }

  /** Filling value fields other than the one at `p` leaves `p` as it was. */
  lemma {:induction false} FreshValuesFrame(obj: Obj, q: seq<string>, fields: seq<Field>, k: nat, p: seq<string>)
    requires forall m | k <= m < |fields| :: fields[m].ValueField? && p != q + [fields[m].key]
    ensures SameAt(obj, FreshFields(obj, q, fields, k), p)
    decreases |fields| - k
  {
    if k < |fields| {
      var f := fields[k];
      FreshValuesFrame(obj.(values := obj.values[q + [f.key] := f.initial]), q, fields, k + 1, p);
    }
  }

  lemma {:induction false} FreshFieldsHoldInitial(obj: Obj, q: seq<string>, fields: seq<Field>, k: nat, j: nat)
    requires k <= j < |fields|
    requires forall m | 0 <= m < |fields| :: fields[m].ValueField?
    requires forall m, n | 0 <= m < n < |fields| :: fields[m].key != fields[n].key
    ensures Read(FreshFields(obj, q, fields, k), q + [fields[j].key]) == fields[j].initial
    decreases j - k
  {
    var f := fields[k];
    var obj' := obj.(values := obj.values[q + [f.key] := f.initial]);
    if k < j {
      FreshFieldsHoldInitial(obj', q, fields, k + 1, j);
    } else {
      forall m | k + 1 <= m < |fields|
        ensures q + [f.key] != q + [fields[m].key]
      {
        AppendKeyInjective(q, f.key, fields[m].key);
      }
      FreshValuesFrame(obj', q, fields, k + 1, q + [f.key]);
    }
  }

  /**
   * The instance `getOrCreateInstance` creates for a section class of value
   * fields with distinct keys holds each field's initial value.
   */
  lemma FreshHoldsInitial(obj: Obj, q: seq<string>, fields: seq<Field>, j: nat)
    requires j < |fields|
    requires forall m | 0 <= m < |fields| :: fields[m].ValueField?
    requires forall m, n | 0 <= m < n < |fields| :: fields[m].key != fields[n].key
    ensures Read(Fresh(obj, q, fields), q + [fields[j].key]) == fields[j].initial
  {
    FreshFieldsHoldInitial(obj.(unset := obj.unset - {q}), q, fields, 0, j);
  }

  /**
   * A section field whose class has value fields with distinct keys without
   * dots: `addSection(key, description)` attaches a new empty section under
   * the key, with the field's description; the schema built in it is that of
   * a new instance of the section class, whose fields hold their initial
   * values, with callbacks into that detached instance; the enclosing section
   * is left as `addSection` made it; and the schema goes on with the next
   * field from there.
   */
  lemma SchemaOfSectionField(a: Arena, obj: Obj, sec: Id, owner: Owner, prefix: seq<string>, fields: seq<Field>, i: nat)
    requires WellFormed(a) && IsSection(a, sec) && i < |fields| && fields[i].SectionField?
    requires forall j | 0 <= j < |fields[i].fields| :: fields[i].fields[j].ValueField? && DotFree(fields[i].fields[j].key)
    requires forall j, k | 0 <= j < k < |fields[i].fields| :: fields[i].fields[j].key != fields[i].fields[k].key
    ensures var f := fields[i];
      var a1 := AddSection(a, sec, f.key, f.description);
      var o := Schema(a1, obj, a.next, Detached, prefix + [f.key], f.fields);
      a1.nodes[sec].children[f.key] == a.next && IsSection(o.arena, a.next) &&
      o.arena.nodes[a.next].key == f.key && o.arena.nodes[a.next].parent == Some(sec) &&
      o.arena.nodes[a.next].description == f.description &&
      o.result.Ok? && o.obj == obj && o.arena.nodes[sec] == a1.nodes[sec] &&
      HoldsSchema(o.arena, a.next, Detached, prefix + [f.key], obj, f.fields, |f.fields|) &&
      (forall j | 0 <= j < |f.fields| ::
        f.fields[j].initial == Read(Fresh(obj, prefix + [f.key], f.fields), prefix + [f.key] + [f.fields[j].key])) &&
      SchemaFields(a, obj, sec, owner, prefix, fields, i) == SchemaFields(o.arena, obj, sec, owner, prefix, fields, i + 1)
  {
    var f := fields[i];
    var q := prefix + [f.key];
    var a1 := AddSection(a, sec, f.key, f.description);
    assert IsSection(a1, a.next);
    SchemaOfValueFields(a1, obj, a.next, Detached, q, f.fields);
    var o := Schema(a1, obj, a.next, Detached, q, f.fields);
    assert SameIdentity(a1.nodes[a.next], o.arena.nodes[a.next]);
    forall j | 0 <= j < |f.fields|
      ensures f.fields[j].initial == Read(Fresh(obj, q, f.fields), q + [f.fields[j].key])
    {
      FreshHoldsInitial(obj, q, f.fields, j);
    }
  }

  /** A callback that does not write the bound object's field at `q`. */
  predicate Avoids(cb: Callback, q: seq<string>) {
    cb.SetField? && cb.owner.Bound? ==> cb.field != q
  }

  /** One value field of the push: its node gets the field's value through `setValue`, then the push goes on. */
  lemma PushValueCase(a: Arena, obj: Obj, sec: Id, prefix: seq<string>, fields: seq<Field>, i: nat, n: Id)
    requires WellFormed(a) && IsSection(a, sec) && i < |fields| && fields[i].ValueField?
    requires GetNode(a, sec, SplitPath(fields[i].key)) == Ok(Some(n)) && IsValueNode(a, n)
    ensures var w := WriteValue(a, obj, n, Read(obj, prefix + [fields[i].key]));
      w.result.Ok? ==> PushFields(w.arena, w.obj, sec, prefix, fields, i + 1) == PushFields(a, obj, sec, prefix, fields, i)
    ensures var w := WriteValue(a, obj, n, Read(obj, prefix + [fields[i].key]));
      w.result.Err? ==> w == PushFields(a, obj, sec, prefix, fields, i)
  {
  }

  /** Pushing value fields whose nodes are not `x` leaves node `x` as it was. */
  lemma {:induction false} PushFieldsKeepsNode(a: Arena, obj: Obj, sec: Id, prefix: seq<string>, fields: seq<Field>, k: nat, x: Id)
    requires WellFormed(a) && IsSection(a, sec) && x in a.nodes && k <= |fields|
    requires forall j | k <= j < |fields| :: fields[j].ValueField? && DotFree(fields[j].key)
    requires forall j | k <= j < |fields| ::
      fields[j].key in a.nodes[sec].children && a.nodes[sec].children[fields[j].key] != x
    ensures PushFields(a, obj, sec, prefix, fields, k).arena.nodes[x] == a.nodes[x]
    decreases |fields| - k
  {
    if k < |fields| {
      var f := fields[k];
      assert SplitPath(f.key) == [f.key];
      var c := a.nodes[sec].children[f.key];
      assert ChildOk(a, sec, f.key, c) by { assert ChildrenOk(a, sec); }
      if a.nodes[c].ValueNode? {
        PushValueCase(a, obj, sec, prefix, fields, k, c);
        var w := WriteValue(a, obj, c, Read(obj, prefix + [f.key]));
        if w.result.Ok? {
          PushFieldsKeepsNode(w.arena, w.obj, sec, prefix, fields, k + 1, x);
        }
      }
    }
  }

  /** An accepted write changes only its node's value, and the object only where the node's callback writes. */
  lemma WriteValueFrame(a: Arena, obj: Obj, c: Id, v: Value, q: seq<string>)
    requires WellFormed(a) && IsValueNode(a, c) && WriteValue(a, obj, c, v).result.Ok?
    ensures var w := WriteValue(a, obj, c, v);
      WellFormed(w.arena) && w.arena.nodes.Keys == a.nodes.Keys && w.arena.nodes[c] == a.nodes[c].(value := v) &&
      (forall x | x in a.nodes && x != c :: w.arena.nodes[x] == a.nodes[x]) &&
      (Avoids(a.nodes[c].callback, q) ==> Read(w.obj, q) == Read(obj, q))
  {
  }

  lemma {:induction false} PushFieldsFillsValueNode(a: Arena, obj: Obj, sec: Id, prefix: seq<string>, fields: seq<Field>, k: nat, i: nat)
    requires WellFormed(a) && IsSection(a, sec) && k <= i < |fields|
    requires forall j | 0 <= j < |fields| :: fields[j].ValueField? && DotFree(fields[j].key)
    requires forall j, m | 0 <= j < m < |fields| :: fields[j].key != fields[m].key
    requires forall j | k <= j < |fields| ::
      fields[j].key in a.nodes[sec].children && IsValueNode(a, a.nodes[sec].children[fields[j].key]) &&
      (j < i ==> Avoids(a.nodes[a.nodes[sec].children[fields[j].key]].callback, prefix + [fields[i].key]))
    requires PushFields(a, obj, sec, prefix, fields, k).result.Ok?
    ensures var o := PushFields(a, obj, sec, prefix, fields, k);
      fields[i].key in a.nodes[sec].children && IsValueNode(o.arena, a.nodes[sec].children[fields[i].key]) &&
      o.arena.nodes[a.nodes[sec].children[fields[i].key]].value == Read(obj, prefix + [fields[i].key])
    decreases i - k
  {
    var f := fields[k];
    var q := prefix + [f.key];
    var qi := prefix + [fields[i].key];
    assert SplitPath(f.key) == [f.key];
    var ch := a.nodes[sec].children;
    var c := ch[f.key];
    assert ChildOk(a, sec, f.key, c) by { assert ChildrenOk(a, sec); }
    PushValueCase(a, obj, sec, prefix, fields, k, c);
    var w := WriteValue(a, obj, c, Read(obj, q));
    if k < i {
      WriteValueFrame(a, obj, c, Read(obj, q), qi);
      assert w.arena.nodes[sec] == a.nodes[sec];
      forall j | k + 1 <= j < |fields|
        ensures fields[j].key in w.arena.nodes[sec].children && IsValueNode(w.arena, ch[fields[j].key]) &&
          (j < i ==> Avoids(w.arena.nodes[ch[fields[j].key]].callback, qi))
      {
        var d := ch[fields[j].key];
        assert d == c || w.arena.nodes[d] == a.nodes[d];
      }
      PushFieldsFillsValueNode(w.arena, w.obj, sec, prefix, fields, k + 1, i);
    } else {
      WriteValueFrame(a, obj, c, Read(obj, q), qi);
      assert w.arena.nodes[sec] == a.nodes[sec];
      forall j | k + 1 <= j < |fields|
        ensures fields[j].key in w.arena.nodes[sec].children && ch[fields[j].key] != c
      {
        assert ChildOk(a, sec, fields[j].key, ch[fields[j].key]) by { assert ChildrenOk(a, sec); }
      }
      PushFieldsKeepsNode(w.arena, w.obj, sec, prefix, fields, k + 1, c);
    }
  }

  /**
   * The push the save starts with, on the schema of value fields with
   * distinct keys without dots: after a push that succeeds, the node under
   * each field's key holds the value the field holds in the object being
   * saved, whatever the object held when the schema was built.
   */
  lemma PushFillsValueNode(a: Arena, built: Obj, obj: Obj, sec: Id, owner: Owner, prefix: seq<string>, fields: seq<Field>, i: nat)
    requires WellFormed(a) && IsSection(a, sec) && i < |fields|
    requires forall j | 0 <= j < |fields| :: fields[j].ValueField? && DotFree(fields[j].key)
    requires forall j, k | 0 <= j < k < |fields| :: fields[j].key != fields[k].key
    requires HoldsSchema(a, sec, owner, prefix, built, fields, |fields|)
    requires Push(a, obj, sec, prefix, fields).result.Ok?
    ensures var o := Push(a, obj, sec, prefix, fields);
      IsSection(o.arena, sec) &&
      var g := GetNode(o.arena, sec, SplitPath(fields[i].key));
      g.Ok? && g.value.Some? && IsValueNode(o.arena, g.value.value) &&
      o.arena.nodes[g.value.value].value == Read(obj, prefix + [fields[i].key])
  {
    var o := Push(a, obj, sec, prefix, fields);
    SameShapeKeepsSection(a, o.arena, sec);
    var ch := a.nodes[sec].children;
    assert ValueOnlyChange(a.nodes[sec], o.arena.nodes[sec]);
    assert SplitPath(fields[i].key) == [fields[i].key];
    forall j | 0 <= j < |fields|
      ensures fields[j].key in ch && IsValueNode(a, ch[fields[j].key]) &&
        (j < i ==> Avoids(a.nodes[ch[fields[j].key]].callback, prefix + [fields[i].key]))
    {
      assert a.nodes[ch[fields[j].key]] == SchemaNode(fields[j], sec, owner, prefix, built);
      AppendKeyInjective(prefix, fields[j].key, fields[i].key);
    }
    PushFieldsFillsValueNode(a, obj, sec, prefix, fields, 0, i);
    assert ValueOnlyChange(a.nodes[ch[fields[i].key]], o.arena.nodes[ch[fields[i].key]]);
  }

  /**
   * Push, then pull from the same tree, as a save followed by a reload whose
   * document gives back exactly the values written: each value field ends up
   * holding what `setFieldValue` makes of the value it held before the push.
   */
  lemma PushThenPull(a: Arena, built: Obj, obj: Obj, sec: Id, owner: Owner, prefix: seq<string>, fields: seq<Field>, i: nat)
    requires WellFormed(a) && IsSection(a, sec) && i < |fields|
    requires forall j | 0 <= j < |fields| :: fields[j].ValueField? && DotFree(fields[j].key)
    requires forall j, k | 0 <= j < k < |fields| :: fields[j].key != fields[k].key
    requires HoldsSchema(a, sec, owner, prefix, built, fields, |fields|)
    requires Push(a, obj, sec, prefix, fields).result.Ok?
    ensures var o := Push(a, obj, sec, prefix, fields);
      IsSection(o.arena, sec) &&
      (Pull(o.arena, o.obj, sec, prefix, fields).result.Ok? ==>
        var w := SetFieldValue(fields[i].fieldType, Read(obj, prefix + [fields[i].key]));
        var p := Pull(o.arena, o.obj, sec, prefix, fields).obj;
        w.Some? && prefix + [fields[i].key] in p.values && p.values[prefix + [fields[i].key]] == w.value)
  {
    var o := Push(a, obj, sec, prefix, fields);
    PushFillsValueNode(a, built, obj, sec, owner, prefix, fields, i);
    if Pull(o.arena, o.obj, sec, prefix, fields).result.Ok? {
      PullFillsValueField(o.arena, o.obj, sec, prefix, fields, i);
    }
  }

  /**
   * `save()` on the top-level schema of value fields with distinct keys
   * without dots: when it succeeds, the text is the rendering of a tree in
   * which the node under each field's key holds the field's current value.
   */
  lemma SaveReflectsFields(a: Arena, built: Obj, obj: Obj, fields: seq<Field>, ctx: SerializeContext, i: nat)
    requires WellFormed(a) && IsSection(a, 0) && i < |fields|
    requires forall j | 0 <= j < |fields| :: fields[j].ValueField? && DotFree(fields[j].key)
    requires forall j, k | 0 <= j < k < |fields| :: fields[j].key != fields[k].key
    requires HoldsSchema(a, 0, Bound, [], built, fields, |fields|)
    requires SaveOutcome(a, obj, fields, ctx).result.Ok?
    ensures var o := SaveOutcome(a, obj, fields, ctx);
      o.result.value == Render(o.arena, 0, 0, ctx) &&
      var g := GetNode(o.arena, 0, [fields[i].key]);
      g.Ok? && g.value.Some? && IsValueNode(o.arena, g.value.value) &&
      o.arena.nodes[g.value.value].value == Read(obj, [fields[i].key])
  {
    PushFillsValueNode(a, built, obj, 0, Bound, [], fields, i);
    assert SplitPath(fields[i].key) == [fields[i].key];
    assert [] + [fields[i].key] == [fields[i].key];
  }

  /** The boundary conversions of the pull, and why they are needed. */
  lemma PullConversions(x: real, n: int)
    ensures SetFieldValue(Primitive(PFloat), DoubleV(x)) == Some(FloatV(x))
    ensures SetFieldValue(Primitive(PLong), IntV(n)) == Some(LongV(n))
    ensures FieldAssign(Primitive(PFloat), DoubleV(x)) == None
    ensures SetFieldValue(Boxed(PLong), IntV(n)) == None
    ensures SetFieldValue(Primitive(PDouble), DoubleV(x)) == Some(DoubleV(x))
    ensures SetFieldValue(Primitive(PFloat), Null) == None
  {
  }

  /** `q` is a proper prefix of `p`: the field at `p` belongs to the instance held at `q`. */
  predicate Below(q: seq<string>, p: seq<string>) {
    |q| < |p| && p[..|q|] == q
  }

  /** The field at `q + [k]`, and every field below it, is below `q`. */
  lemma BelowExtend(q: seq<string>, k: string, p: seq<string>)
    ensures p == q + [k] || Below(q + [k], p) ==> Below(q, p)
  {
    if Below(q + [k], p) {
      assert p[..|q|] == p[..|q + [k]|][..|q|];
    }
  }

  /** `o` holds at `p` what `obj` holds there. */
  predicate SameAt(obj: Obj, o: Obj, p: seq<string>) {
    (p in o.values <==> p in obj.values) && (p in obj.values ==> o.values[p] == obj.values[p])
  }

  lemma {:induction false} FreshFrame(obj: Obj, q: seq<string>, fields: seq<Field>, p: seq<string>)
    requires !Below(q, p)
    ensures SameAt(obj, Fresh(obj, q, fields), p)
    decreases fields, 1
  {
    FreshFieldsFrame(obj.(unset := obj.unset - {q}), q, fields, 0, p);
  }

  lemma {:induction false} FreshFieldsFrame(obj: Obj, q: seq<string>, fields: seq<Field>, i: nat, p: seq<string>)
    requires !Below(q, p)
    ensures SameAt(obj, FreshFields(obj, q, fields, i), p)
    decreases fields, 0, |fields| - i
  {
    if i < |fields| {
      var f := fields[i];
      var r := q + [f.key];
      BelowExtend(q, f.key, p);
      var obj' :=
        if f.ValueField? then obj.(values := obj.values[r := f.initial])
        else if f.initiallySet then Fresh(obj, r, f.fields)
        else obj.(unset := obj.unset + {r});
      if f.SectionField? && f.initiallySet {
        FreshFrame(obj, r, f.fields, p);
      }
      FreshFieldsFrame(obj', q, fields, i + 1, p);
    }
  }

  /** A pull writes only the fields it walks and the fields of the instances it creates. */
  lemma {:induction false} PullFrame(a: Arena, obj: Obj, sec: Id, prefix: seq<string>, fields: seq<Field>, p: seq<string>)
    requires WellFormed(a) && IsSection(a, sec) && !Below(prefix, p)
    ensures SameAt(obj, Pull(a, obj, sec, prefix, fields).obj, p)
    decreases fields, 1
  {
    PullFieldsFrame(a, obj, sec, prefix, fields, 0, p);
  }

  lemma {:induction false} PullFieldsFrame(a: Arena, obj: Obj, sec: Id, prefix: seq<string>, fields: seq<Field>, i: nat, p: seq<string>)
    requires WellFormed(a) && IsSection(a, sec)
    requires !Below(prefix, p) || forall j | i <= j < |fields| :: p != prefix + [fields[j].key] && !Below(prefix + [fields[j].key], p)
    ensures SameAt(obj, PullFields(a, obj, sec, prefix, fields, i).obj, p)
    decreases fields, 0, |fields| - i
  {
    if i < |fields| {
      var f := fields[i];
      var q := prefix + [f.key];
      BelowExtend(prefix, f.key, p);
      match GetNode(a, sec, SplitPath(f.key))
      case Err(_) =>
      case Ok(None) =>
      case Ok(Some(n)) =>
        if f.SectionField? && a.nodes[n].SectionNode? {
          var inst := Fresh(obj, q, f.fields);
          FreshFrame(obj, q, f.fields, p);
          PullFrame(a, inst, n, q, f.fields, p);
          var o := Pull(a, inst, n, q, f.fields);
          if o.result.Ok? {
            PullFieldsFrame(a, o.obj, sec, prefix, fields, i + 1, p);
          }
        } else if f.ValueField? && !a.nodes[n].SectionNode? {
          var w := SetFieldValue(f.fieldType, a.nodes[n].value);
          if w.Some? {
            PullFieldsFrame(a, obj.(values := obj.values[q := w.value]), sec, prefix, fields, i + 1, p);
          }
        }
    }
  }

  /**
   * A reload that succeeds refreshes the fields from the document: a value
   * field whose key the document mentions ends holding what `setFieldValue`
   * makes of the node value decoded from the last entry with that key.
   */
  lemma ReloadFillsMentionedField(a: Arena, obj: Obj, fields: seq<Field>, ctx: LoadContext, entries: seq<(string, Value)>, i: nat, j: nat)
    requires WellFormed(a) && IsSection(a, 0) && i < |fields| && fields[i].ValueField? && DotFree(fields[i].key)
    requires forall m | i < m < |fields| :: fields[m].key != fields[i].key
    requires j < |entries| && entries[j].0 == fields[i].key
    requires forall m | j < m < |entries| :: entries[m].0 != entries[j].0
    requires fields[i].key in a.nodes[0].children && IsValueNode(a, a.nodes[0].children[fields[i].key])
    requires ReloadOutcome(a, obj, fields, ctx, MapV(entries)).result.Ok?
    ensures var c := a.nodes[0].children[fields[i].key];
      var d := ctx.decode(a.nodes[c].valueType, entries[j].1);
      var o := ReloadOutcome(a, obj, fields, ctx, MapV(entries)).obj;
      d.Some? && SetFieldValue(fields[i].fieldType, d.value).Some? &&
      [fields[i].key] in o.values && o.values[[fields[i].key]] == SetFieldValue(fields[i].fieldType, d.value).value
  {
    var l := Load(a, obj, 0, MapV(entries), ctx);
    assert l.result.Ok?;
    SectionNodeProperties.LoadWritesMentionedValue(a, obj, 0, entries, ctx, j);
    SameShapeKeepsSection(a, l.arena, 0);
    PullFillsValueField(l.arena, l.obj, 0, [], fields, i);
    assert SplitPath(fields[i].key) == [fields[i].key];
    assert [] + [fields[i].key] == [fields[i].key];
  }

  /**
   * After a pull that succeeds, a value field that no later field shares a
   * key with holds what `setFieldValue` makes of its node's value.
   */
  lemma {:induction false} PullFillsValueField(a: Arena, obj: Obj, sec: Id, prefix: seq<string>, fields: seq<Field>, i: nat)
    requires WellFormed(a) && IsSection(a, sec) && i < |fields| && fields[i].ValueField?
    requires forall j | i < j < |fields| :: fields[j].key != fields[i].key
    requires Pull(a, obj, sec, prefix, fields).result.Ok?
    ensures var g := GetNode(a, sec, SplitPath(fields[i].key));
      g.Ok? && g.value.Some? && IsValueNode(a, g.value.value) &&
      var w := SetFieldValue(fields[i].fieldType, a.nodes[g.value.value].value);
      var o := Pull(a, obj, sec, prefix, fields).obj;
      w.Some? && prefix + [fields[i].key] in o.values && o.values[prefix + [fields[i].key]] == w.value
  {
    PullFieldsFillsValueField(a, obj, sec, prefix, fields, 0, i);
  }

  lemma {:induction false} PullFieldsFillsValueField(a: Arena, obj: Obj, sec: Id, prefix: seq<string>, fields: seq<Field>, k: nat, i: nat)
    requires WellFormed(a) && IsSection(a, sec) && k <= i < |fields| && fields[i].ValueField?
    requires forall j | i < j < |fields| :: fields[j].key != fields[i].key
    requires PullFields(a, obj, sec, prefix, fields, k).result.Ok?
    ensures var g := GetNode(a, sec, SplitPath(fields[i].key));
      g.Ok? && g.value.Some? && IsValueNode(a, g.value.value) &&
      var w := SetFieldValue(fields[i].fieldType, a.nodes[g.value.value].value);
      var o := PullFields(a, obj, sec, prefix, fields, k).obj;
      w.Some? && prefix + [fields[i].key] in o.values && o.values[prefix + [fields[i].key]] == w.value
    decreases i - k
  {
    var f := fields[k];
    var q := prefix + [f.key];
    var n := GetNode(a, sec, SplitPath(f.key)).value.value;
    if k < i {
      if f.SectionField? {
        var o := Pull(a, Fresh(obj, q, f.fields), n, q, f.fields);
        PullFieldsFillsValueField(a, o.obj, sec, prefix, fields, k + 1, i);
      } else {
        var w := SetFieldValue(f.fieldType, a.nodes[n].value).value;
        PullFieldsFillsValueField(a, obj.(values := obj.values[q := w]), sec, prefix, fields, k + 1, i);
      }
    } else {
      var w := SetFieldValue(f.fieldType, a.nodes[n].value).value;
      var obj' := obj.(values := obj.values[q := w]);
      forall j | k + 1 <= j < |fields|
        ensures q != prefix + [fields[j].key] && !Below(prefix + [fields[j].key], q)
      {
        assert (prefix + [fields[j].key])[|prefix|] == fields[j].key;
        assert q[|prefix|] == f.key;
      }
      PullFieldsFrame(a, obj', sec, prefix, fields, k + 1, q);
    }
  }

  /**
   * Both walks stop at a field whose key finds no node, or a node of the
   * other kind, with the IllegalStateException for it.
   */
  lemma LookupFailures(a: Arena, obj: Obj, sec: Id, prefix: seq<string>, fields: seq<Field>, i: nat)
    requires WellFormed(a) && IsSection(a, sec) && i < |fields|
    ensures var g := GetNode(a, sec, SplitPath(fields[i].key));
      g == Ok(None) ==>
        PushFields(a, obj, sec, prefix, fields, i).result == Err(MissingNode(fields[i].key)) &&
        PullFields(a, obj, sec, prefix, fields, i).result == Err(MissingNode(fields[i].key))
    ensures var g := GetNode(a, sec, SplitPath(fields[i].key));
      g.Ok? && g.value.Some? && fields[i].SectionField? && IsValueNode(a, g.value.value) ==>
        PushFields(a, obj, sec, prefix, fields, i).result == Err(NotASection(fields[i].key)) &&
        PullFields(a, obj, sec, prefix, fields, i).result == Err(NotASection(fields[i].key))
    ensures var g := GetNode(a, sec, SplitPath(fields[i].key));
      g.Ok? && g.value.Some? && fields[i].ValueField? && IsSection(a, g.value.value) ==>
        PushFields(a, obj, sec, prefix, fields, i).result == Err(NotAValue(fields[i].key)) &&
        PullFields(a, obj, sec, prefix, fields, i).result == Err(NotAValue(fields[i].key))
  {
  }

  /**
   * The push rejects a field value its node's validators reject, with the
   * IllegalArgumentException of `setValue`, and leaves that node as it was.
   */
  lemma PushRejectsInvalidValue(a: Arena, obj: Obj, sec: Id, prefix: seq<string>, fields: seq<Field>, i: nat, n: Id)
    requires WellFormed(a) && IsSection(a, sec) && i < |fields| && fields[i].ValueField?
    requires GetNode(a, sec, SplitPath(fields[i].key)) == Ok(Some(n)) && IsValueNode(a, n)
    requires IsValid(a, n, Read(obj, prefix + [fields[i].key])) == Ok(false)
    ensures PushFields(a, obj, sec, prefix, fields, i) ==
      Outcome(Err(NotAValidValue(Read(obj, prefix + [fields[i].key]))), a, obj)
  {
  }

  /** A push into a section field that holds null dereferences it. */
  lemma PushThroughNullSection(a: Arena, obj: Obj, sec: Id, prefix: seq<string>, fields: seq<Field>, i: nat, n: Id)
    requires WellFormed(a) && IsSection(a, sec) && i < |fields| && fields[i].SectionField?
    requires GetNode(a, sec, SplitPath(fields[i].key)) == Ok(Some(n)) && IsSection(a, n)
    requires prefix + [fields[i].key] in obj.unset
    ensures PushFields(a, obj, sec, prefix, fields, i) == Outcome(Err(NullPointer), a, obj)
  {
  }
}
