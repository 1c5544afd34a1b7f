/**
 * lectern-core's BaseConfig: a configuration object bound to the tree of
 * its file. Its fields are described by a list of `Field` descriptors and
 * their values by the bound object `instance`; the three walks of the
 * binder run here as the loops over the fields that the Java methods are,
 * updating the tree in place, and each is proved to leave what the walk's
 * specification function gives.
 */
module BaseConfigs {
  import opened Wrappers
  import opened Values
  import opened Errors
  import opened Validators
  import opened Nodes
  import opened ValueNodes
  import opened InvalidKeyHandler
  import opened SectionNodes
  import opened ConfigTree
  import opened Binder
  import Reloadable

  /**
   * `createDefaultSectionNodeSchema(instance, section)`: clears the section
   * and adds the node of each field in order.
   */
  method SchemaWalk(t: Tree, obj: Obj, sec: Id, owner: Owner, prefix: seq<string>, fields: seq<Field>)
      returns (r: Result<()>, obj': Obj)
    requires t.Valid() && IsSection(t.State(), sec)
    modifies t
    ensures t.Valid() && Outcome(r, t.State(), obj') == Schema(old(t.State()), obj, sec, owner, prefix, fields)
    decreases fields, 1
  {
    ghost var a := t.State();
    t.Clear(sec);
    obj' := obj;
    var i := 0;
    while i < |fields|
      invariant 0 <= i <= |fields|
      invariant t.Valid() && IsSection(t.State(), sec)
      invariant SchemaFields(t.State(), obj', sec, owner, prefix, fields, i) == Schema(a, obj, sec, owner, prefix, fields)
      decreases |fields| - i
    {
      r, obj' := SchemaField(t, obj', sec, owner, prefix, fields, i);
      if r.Err? {
        return;
      }
      i := i + 1;
    }
    r := Ok(());
  }

  /**
   * The loop body for field `i`: `addSection` and the schema of a new
   * instance for a section field, `setupNodeSchema` for a value field.
   */
  method SchemaField(t: Tree, obj: Obj, sec: Id, owner: Owner, prefix: seq<string>, fields: seq<Field>, i: nat)
      returns (r: Result<()>, obj': Obj)
    requires t.Valid() && IsSection(t.State(), sec) && i < |fields|
    modifies t
    ensures t.Valid() && IsSection(t.State(), sec)
    ensures r.Err? ==> Outcome(r, t.State(), obj') == SchemaFields(old(t.State()), obj, sec, owner, prefix, fields, i)
    ensures r.Ok? ==>
      SchemaFields(t.State(), obj', sec, owner, prefix, fields, i + 1) == SchemaFields(old(t.State()), obj, sec, owner, prefix, fields, i)
    decreases fields, 0
  {
    if fields[i].SectionField? {
      r, obj' := SchemaSectionField(t, obj, sec, owner, prefix, fields, i);
    } else {
      r, obj' := SchemaValueField(t, obj, sec, owner, prefix, fields, i);
    }
  }

  /** A section field: `addSection(key, description)` and the schema of a new instance inside it. */
  method SchemaSectionField(t: Tree, obj: Obj, sec: Id, owner: Owner, prefix: seq<string>, fields: seq<Field>, i: nat)
      returns (r: Result<()>, obj': Obj)
    requires t.Valid() && IsSection(t.State(), sec) && i < |fields| && fields[i].SectionField?
    modifies t
    ensures t.Valid() && IsSection(t.State(), sec)
    ensures r.Err? ==> Outcome(r, t.State(), obj') == SchemaFields(old(t.State()), obj, sec, owner, prefix, fields, i)
    ensures r.Ok? ==>
      SchemaFields(t.State(), obj', sec, owner, prefix, fields, i + 1) == SchemaFields(old(t.State()), obj, sec, owner, prefix, fields, i)
    decreases fields, 0, 0
  {
    ghost var a := t.State();
    var f := fields[i];
    SchemaSectionCase(a, obj, sec, owner, prefix, fields, i);
    var id := t.AddSection(sec, f.key, f.description);
    ghost var a1 := t.State();
    r, obj' := SchemaWalk(t, obj, id, Detached, prefix + [f.key], f.fields);
    GrowsKeepsSection(a, a1, sec);
    GrowsKeepsSection(a1, t.State(), sec);
  }

  /**
   * `setupNodeSchema` for a value field: `set(key, type, value)`, then the
   * callback into the field, the description and the validators.
   */
  method SchemaValueField(t: Tree, obj: Obj, sec: Id, owner: Owner, prefix: seq<string>, fields: seq<Field>, i: nat)
      returns (r: Result<()>, obj': Obj)
    requires t.Valid() && IsSection(t.State(), sec) && i < |fields| && fields[i].ValueField?
    modifies t
    ensures t.Valid() && IsSection(t.State(), sec)
    ensures r.Err? ==> Outcome(r, t.State(), obj') == SchemaFields(old(t.State()), obj, sec, owner, prefix, fields, i)
    ensures r.Ok? ==>
      SchemaFields(t.State(), obj', sec, owner, prefix, fields, i + 1) == SchemaFields(old(t.State()), obj, sec, owner, prefix, fields, i)
  {
    ghost var a := t.State();
    var f := fields[i];
    var q := prefix + [f.key];
    SchemaValueCase(a, obj, sec, owner, prefix, fields, i);
    var v := if owner.Bound? then Read(obj, q) else f.initial;
    var s;
    s, obj' := t.Set(obj, sec, SplitPath(f.key), f.fieldType, v);
    GrowsKeepsSection(a, t.State(), sec);
    if s.Err? {
      return Err(s.error), obj';
    }
    ghost var b := t.State();
    InstallOn(t, s.value, SetField(owner, q, f.fieldType), f.description, f.validators);
    GrowsKeepsSection(b, t.State(), sec);
    r := Ok(());
  }

  /** The three assignments of `setupNodeSchema` after the `set`: callback, description, validators. */
  method InstallOn(t: Tree, id: Id, cb: Callback, d: Option<string>, vs: seq<Validator>)
    requires t.Valid() && IsValueNode(t.State(), id)
    modifies t
    ensures t.Valid() && t.State() == Install(old(t.State()), id, cb, d, vs)
  {
    t.SetCallback(id, cb);
    t.SetDescription(id, d);
    t.SetValidators(id, vs);
  }

  lemma SchemaSectionCase(a: Arena, obj: Obj, sec: Id, owner: Owner, prefix: seq<string>, fields: seq<Field>, i: nat)
    requires WellFormed(a) && IsSection(a, sec) && i < |fields| && fields[i].SectionField?
    ensures var f := fields[i];
      var a1 := AddSection(a, sec, f.key, f.description);
      IsSection(a1, a.next) &&
      var o := Schema(a1, obj, a.next, Detached, prefix + [f.key], f.fields);
      SchemaFields(a, obj, sec, owner, prefix, fields, i) ==
        if o.result.Err? then o else SchemaFields(o.arena, o.obj, sec, owner, prefix, fields, i + 1)
  {
  }

  lemma SchemaValueCase(a: Arena, obj: Obj, sec: Id, owner: Owner, prefix: seq<string>, fields: seq<Field>, i: nat)
    requires WellFormed(a) && IsSection(a, sec) && i < |fields| && fields[i].ValueField?
    ensures var f := fields[i];
      var q := prefix + [f.key];
      var o := Set(a, obj, sec, SplitPath(f.key), f.fieldType, if owner.Bound? then Read(obj, q) else f.initial);
      SchemaFields(a, obj, sec, owner, prefix, fields, i) ==
        if o.result.Err? then Outcome(Err(o.result.error), o.arena, o.obj)
        else SchemaFields(Install(o.arena, o.result.value, SetField(owner, q, f.fieldType), f.description, f.validators),
                          o.obj, sec, owner, prefix, fields, i + 1)
  {
  }

  /**
   * `loadConfigTree(instance, section)`: each field's value goes into its
   * node, in field order.
   */
  method PushWalk(t: Tree, obj: Obj, sec: Id, prefix: seq<string>, fields: seq<Field>)
      returns (r: Result<()>, obj': Obj)
    requires t.Valid() && IsSection(t.State(), sec)
    modifies t
    ensures t.Valid() && Outcome(r, t.State(), obj') == Push(old(t.State()), obj, sec, prefix, fields)
    decreases fields, 1
  {
    ghost var a := t.State();
    obj' := obj;
    var i := 0;
    while i < |fields|
      invariant 0 <= i <= |fields|
      invariant t.Valid() && IsSection(t.State(), sec)
      invariant PushFields(t.State(), obj', sec, prefix, fields, i) == Push(a, obj, sec, prefix, fields)
      decreases |fields| - i
    {
      r, obj' := PushField(t, obj', sec, prefix, fields, i);
      if r.Err? {
        return;
      }
      i := i + 1;
    }
    r := Ok(());
  }

  /** The loop body of `loadConfigTree` for field `i`. */
  method PushField(t: Tree, obj: Obj, sec: Id, prefix: seq<string>, fields: seq<Field>, i: nat)
      returns (r: Result<()>, obj': Obj)
    requires t.Valid() && IsSection(t.State(), sec) && i < |fields|
    modifies t
    ensures t.Valid() && IsSection(t.State(), sec)
    ensures r.Err? ==> Outcome(r, t.State(), obj') == PushFields(old(t.State()), obj, sec, prefix, fields, i)
    ensures r.Ok? ==>
      PushFields(t.State(), obj', sec, prefix, fields, i + 1) == PushFields(old(t.State()), obj, sec, prefix, fields, i)
    decreases fields, 0
  {
    ghost var a := t.State();
    var f := fields[i];
    var q := prefix + [f.key];
    obj' := obj;
    var g := GetNode(t.State(), sec, SplitPath(f.key));
    if g.Err? {
      return Err(g.error), obj;
    }
    if g.value.None? {
      return Err(MissingNode(f.key)), obj;
    }
    var n := g.value.value;
    if f.SectionField? {
      if !t.nodes[n].SectionNode? {
        return Err(NotASection(f.key)), obj;
      }
      if q in obj.unset {
        return Err(NullPointer), obj;
      }
      PushSectionCase(a, obj, sec, prefix, fields, i, n);
      r, obj' := PushWalk(t, obj, n, q, f.fields);
      SameShapeKeepsSection(a, t.State(), sec);
    } else {
      if t.nodes[n].SectionNode? {
        return Err(NotAValue(f.key)), obj;
      }
      PushValueCase(a, obj, sec, prefix, fields, i, n);
      r, obj' := t.WriteValue(obj, n, Read(obj, q));
      SameShapeKeepsSection(a, t.State(), sec);
    }
  }

  lemma PushSectionCase(a: Arena, obj: Obj, sec: Id, prefix: seq<string>, fields: seq<Field>, i: nat, n: Id)
    requires WellFormed(a) && IsSection(a, sec) && i < |fields| && fields[i].SectionField?
    requires GetNode(a, sec, SplitPath(fields[i].key)) == Ok(Some(n)) && IsSection(a, n)
    requires prefix + [fields[i].key] !in obj.unset
    ensures var o := Push(a, obj, n, prefix + [fields[i].key], fields[i].fields);
      WellFormed(o.arena) && IsSection(o.arena, sec) &&
      PushFields(a, obj, sec, prefix, fields, i) ==
        if o.result.Err? then o else PushFields(o.arena, o.obj, sec, prefix, fields, i + 1)
  {
    SameShapeKeepsSection(a, Push(a, obj, n, prefix + [fields[i].key], fields[i].fields).arena, sec);
  }

  /**
   * `loadFields(instance, section)`: each field takes the value of its
   * node, and each section field a new instance filled from its section.
   * The tree is only read.
   */
  method PullWalk(t: Tree, obj: Obj, sec: Id, prefix: seq<string>, fields: seq<Field>)
      returns (r: Result<()>, obj': Obj)
    requires t.Valid() && IsSection(t.State(), sec)
    ensures Outcome(r, t.State(), obj') == Pull(t.State(), obj, sec, prefix, fields)
    decreases fields, 1
  {
    ghost var a := t.State();
    obj' := obj;
    var i := 0;
    while i < |fields|
      invariant 0 <= i <= |fields|
      invariant PullFields(a, obj', sec, prefix, fields, i) == Pull(a, obj, sec, prefix, fields)
      decreases |fields| - i
    {
      r, obj' := PullField(t, obj', sec, prefix, fields, i);
      if r.Err? {
        return;
      }
      i := i + 1;
    }
    r := Ok(());
  }

  /** The loop body of `loadFields` for field `i`. */
  method PullField(t: Tree, obj: Obj, sec: Id, prefix: seq<string>, fields: seq<Field>, i: nat)
      returns (r: Result<()>, obj': Obj)
    requires t.Valid() && IsSection(t.State(), sec) && i < |fields|
    ensures r.Err? ==> Outcome(r, t.State(), obj') == PullFields(t.State(), obj, sec, prefix, fields, i)
    ensures r.Ok? ==> PullFields(t.State(), obj', sec, prefix, fields, i + 1) == PullFields(t.State(), obj, sec, prefix, fields, i)
    decreases fields, 0
  {
    var f := fields[i];
    var q := prefix + [f.key];
    obj' := obj;
    var g := GetNode(t.State(), sec, SplitPath(f.key));
    if g.Err? {
      return Err(g.error), obj;
    }
    if g.value.None? {
      return Err(MissingNode(f.key)), obj;
    }
    var n := g.value.value;
    if f.SectionField? {
      if !t.nodes[n].SectionNode? {
        return Err(NotASection(f.key)), obj;
      }
      var instance := Fresh(obj, q, f.fields);
      r, obj' := PullWalk(t, instance, n, q, f.fields);
    } else {
      if t.nodes[n].SectionNode? {
        return Err(NotAValue(f.key)), obj;
      }
      var w := SetFieldValue(f.fieldType, t.nodes[n].value);
      if w.None? {
        return Err(UnableToSet(f.key)), obj;
      }
      r, obj' := Ok(()), obj.(values := obj.values[q := w.value]);
    }
  }

  /** What `init` leaves: the schema of a new tree, then a reload of `doc` when the file exists and a save when it does not. */
  function InitOutcome(file: string, lctx: LoadContext, sctx: SerializeContext, obj: Obj, fields: seq<Field>,
                       present: bool, doc: Value): (o: Outcome<Option<string>>)
    ensures WellFormed(o.arena) && IsSection(o.arena, 0)
    ensures o.result.Ok? ==> (o.result.value.Some? <==> !present)
  {
    var a := Initial(file);
    var s := Schema(a, obj, 0, Bound, [], fields);
    GrowsKeepsSection(a, s.arena, 0);
    if s.result.Err? then Outcome(Err(s.result.error), s.arena, s.obj)
    else if present then
      var l := ReloadOutcome(s.arena, s.obj, fields, lctx, doc);
      SameShapeKeepsSection(s.arena, l.arena, 0);
      Outcome(if l.result.Ok? then Ok(None) else Err(l.result.error), l.arena, l.obj)
    else
      var p := SaveOutcome(s.arena, s.obj, fields, sctx);
      SameShapeKeepsSection(s.arena, p.arena, 0);
      Outcome(if p.result.Ok? then Ok(Some(p.result.value)) else Err(p.result.error), p.arena, p.obj)
  }

  /**
   * A configuration object: the descriptors of its fields, the values its
   * fields hold, and the root node and file that `init` sets.
   */
  class Config {
    /** What the FieldCollector finds in the configuration class, in declaration order. */
    const fields: seq<Field>
    /** The values of this object's fields. */
    var instance: Obj
    /** The ConfigurationNode, null until `init`. */
    var rootNode: Tree?
    /** The file of the root node, null until `init`. */
    var file: Option<string>

    predicate Valid()
      reads this, rootNode
    {
      (rootNode == null <==> file.None?) &&
      (rootNode != null ==> rootNode.Valid() && file == Some(rootNode.file))
    }

    /** A new instance of the configuration class, before `init`. */
    constructor (fields: seq<Field>, instance: Obj)
      ensures Valid() && rootNode == null && file.None?
      ensures this.fields == fields && this.instance == instance
    {
      this.fields := fields;
      this.instance := instance;
      rootNode := null;
      file := None;
    }

    /** `rootNode()`: the root node, or ConfigNotInitializedException before `init`. */
    method RootNode() returns (r: Result<Tree>)
      requires Valid()
      ensures rootNode == null <==> r == Err(NotInitialized)
      ensures rootNode != null ==> r == Ok(rootNode)
    {
      if rootNode == null {
        return Err(NotInitialized);
      }
      return Ok(rootNode);
    }

    /**
     * `save()`: the push of the field values and then the root's save;
     * `text` is what is written to the file.
     */
    method Save() returns (text: Result<string>)
      requires Valid()
      modifies this, rootNode
      ensures Valid() && rootNode == old(rootNode) && file == old(file)
      ensures old(rootNode) == null ==> text == Err(NotInitialized) && instance == old(instance)
      ensures old(rootNode) != null ==>
        Outcome(text, rootNode.State(), instance) ==
          SaveOutcome(old(rootNode.State()), old(instance), fields, rootNode.serializeContext)
    {
      if rootNode == null {
        return Err(NotInitialized);
      }
      var r;
      r, instance := PushWalk(rootNode, instance, 0, [], fields);
      if r.Err? {
        return Err(r.error);
      }
      SameShapeKeepsSection(old(rootNode.State()), rootNode.State(), 0);
      var s := rootNode.Save();
      text := Ok(s);
    }

    /**
     * `reload()`: the root loads `doc`, the tree the codec read from the
     * file, and then the fields are pulled from the tree.
     */
    method Reload(doc: Value) returns (r: Result<()>)
      requires Valid()
      modifies this, rootNode
      ensures Valid() && rootNode == old(rootNode) && file == old(file)
      ensures old(rootNode) == null ==> r == Err(NotInitialized) && instance == old(instance)
      ensures old(rootNode) != null ==>
        Outcome(r, rootNode.State(), instance) ==
          ReloadOutcome(old(rootNode.State()), old(instance), fields, rootNode.loadContext, doc)
    {
      if rootNode == null {
        return Err(NotInitialized);
      }
      r, instance := rootNode.Reload(instance, doc);
      if r.Err? {
        return;
      }
      SameShapeKeepsSection(old(rootNode.State()), rootNode.State(), 0);
      r, instance := PullWalk(rootNode, instance, 0, [], fields);
    }

    /**
     * `init(parentDir)` once the supplier has built the root node of `file`
     * with the invalid-key policy, the codec and the layout: the schema of
     * this object's fields, then a reload when the file is `present` (its
     * content parsed as `doc`), and otherwise a push and the text written to
     * the new file.
     */
    method Init(path: string, policy: Preset, decode: (JavaType, Value) -> Option<Value>,
                commentChar: char, indentSize: nat, encode: (string, Value) -> string,
                present: bool, doc: Value) returns (r: Result<Option<string>>)
      requires Valid()
      modifies this
      ensures Valid() && rootNode != null && fresh(rootNode) && file == Some(path)
      ensures rootNode.loadContext == LoadContext(path, policy, decode)
      ensures rootNode.serializeContext == SerializeContext(commentChar, indentSize, encode)
      ensures Outcome(r, rootNode.State(), instance) ==
        InitOutcome(path, rootNode.loadContext, rootNode.serializeContext, old(instance), fields, present, doc)
    {
      var t := new Tree(path, policy, decode, commentChar, indentSize, encode);
      rootNode := t;
      file := Some(path);
      ghost var a := t.State();
      ghost var obj := instance;
      var s;
      s, instance := SchemaWalk(t, instance, 0, Bound, [], fields);
      if s.Err? {
        return Err(s.error);
      }
      ghost var b := t.State();
      GrowsKeepsSection(a, b, 0);
      if present {
        var l := Reload(doc);
        r := if l.Ok? then Ok(None) else Err(l.error);
      } else {
        var p := Save();
        r := if p.Ok? then Ok(Some(p.value)) else Err(p.error);
      }
    }

    /** `reloadOrSave()`: the reload when the file exists, the save otherwise. */
    method ReloadOrSave(present: bool, doc: Value) returns (r: Result<Option<string>>)
      requires Valid()
      modifies this, rootNode
      ensures Valid() && rootNode == old(rootNode) && file == old(file)
      ensures Reloadable.ReloadOrSavePlan(old(file), present).Err? ==>
        r == Err(NotInitialized) && instance == old(instance)
      ensures Reloadable.ReloadOrSavePlan(old(file), present) == Ok([Reloadable.Reload]) ==>
        var o := ReloadOutcome(old(rootNode.State()), old(instance), fields, rootNode.loadContext, doc);
        rootNode.State() == o.arena && instance == o.obj && r == (if o.result.Ok? then Ok(None) else Err(o.result.error))
      ensures Reloadable.ReloadOrSavePlan(old(file), present) == Ok([Reloadable.Save]) ==>
        var o := SaveOutcome(old(rootNode.State()), old(instance), fields, rootNode.serializeContext);
        rootNode.State() == o.arena && instance == o.obj && r == (if o.result.Ok? then Ok(Some(o.result.value)) else Err(o.result.error))
    {
      var f := Reloadable.CheckInit(file);
      if f.Err? {
        return Err(f.error);
      }
      if present {
        var l := Reload(doc);
        r := if l.Ok? then Ok(None) else Err(l.error);
      } else {
        var p := Save();
        r := if p.Ok? then Ok(Some(p.value)) else Err(p.error);
      }
    }

    /** `reloadAndSave()`: the reload when the file exists, and then the save. */
    method ReloadAndSave(present: bool, doc: Value) returns (r: Result<string>)
      requires Valid()
      modifies this, rootNode
      ensures Valid() && rootNode == old(rootNode) && file == old(file)
      ensures Reloadable.ReloadAndSavePlan(old(file), present).Err? ==>
        r == Err(NotInitialized) && instance == old(instance)
      ensures Reloadable.ReloadAndSavePlan(old(file), present) == Ok([Reloadable.Save]) ==>
        Outcome(r, rootNode.State(), instance) ==
          SaveOutcome(old(rootNode.State()), old(instance), fields, rootNode.serializeContext)
      ensures Reloadable.ReloadAndSavePlan(old(file), present) == Ok([Reloadable.Reload, Reloadable.Save]) ==>
        var l := ReloadOutcome(old(rootNode.State()), old(instance), fields, rootNode.loadContext, doc);
        if l.result.Err? then Outcome(r, rootNode.State(), instance) == Outcome(Err(l.result.error), l.arena, l.obj)
        else Outcome(r, rootNode.State(), instance) == SaveOutcome(l.arena, l.obj, fields, rootNode.serializeContext)
    {
      var f := Reloadable.CheckInit(file);
      if f.Err? {
        return Err(f.error);
      }
      if present {
        var l := Reload(doc);
        if l.Err? {
          return Err(l.error);
        }
      }
      r := Save();
    }
  }
}
