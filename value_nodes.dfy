/**
 * lectern-core's ValueNode: a typed value with an immutable default, a list
 * of validators a new value must pass, a callback run on every accepted
 * value, and its rendering as commented, indented document lines.
 */
module ValueNodes {
  import opened Wrappers
  import opened Values
  import opened Errors
  import opened Validators
  import opened Nodes
  import opened Text

  /** What a serialiser is given: the comment character, the indentation step and the codec's encoder. */
  datatype SerializeContext = SerializeContext(commentChar: char, indentSize: nat, encode: (string, Value) -> string)

  /**
   * A new value node, as the constructor builds it: no validators, no
   * callback, and a current value equal to the default.
   */
  function NewValueNode(key: string, parent: Id, description: Option<string>, t: JavaType, defaultValue: Value): (r: Node)
    ensures r.ValueNode? && r.key == key && r.parent == Some(parent) && r.description == description
    ensures r.valueType == t && r.value == r.defaultValue == defaultValue
    ensures r.validators == [] && r.callback == NoCallback
  {
    ValueNode(key, Some(parent), description, t, [], defaultValue, defaultValue, NoCallback)
  }

  /**
   * The verdict that decides `allMatch` over the validators: that of the
   * first validator that does not pass, or Pass when all pass.
   */
  function Screen(vs: seq<Validator>, v: Value): (r: Verdict)
    ensures r.Pass? <==> forall i | 0 <= i < |vs| :: Check(vs[i], v).Pass?
    ensures !r.Pass? ==>
      exists i | 0 <= i < |vs| :: Check(vs[i], v) == r && forall j | 0 <= j < i :: Check(vs[j], v).Pass?
  {
    if |vs| == 0 then Pass
    else
      var first := Check(vs[0], v);
      if !first.Pass? then first
      else
        var r := Screen(vs[1..], v);
        assert forall i | 1 <= i < |vs| :: vs[i] == vs[1..][i - 1];
        if !r.Pass? then
          var i :| 0 <= i < |vs[1..]| && Check(vs[1..][i], v) == r && forall j | 0 <= j < i :: Check(vs[1..][j], v).Pass?;
          assert Check(vs[i + 1], v) == r;
          r
        else r
  }

  /**
   * `ValueNode.isValid`: true when every validator passes; false when the
   * first one that does not pass returns false or fails its cast; an
   * IllegalArgumentException naming the path, the value, the root's file and
   * the message when it raises a ValidationException (or the exception of
   * `root()` itself, which is evaluated for that message); and a
   * NullPointerException when it dereferences null.
   */
  function IsValid(a: Arena, id: Id, v: Value): (r: Result<bool>)
    requires WellFormed(a) && IsValueNode(a, id)
    ensures r == Ok(true) <==> forall i | 0 <= i < |a.nodes[id].validators| :: Check(a.nodes[id].validators[i], v).Pass?
    ensures r == Ok(false) <==> Screen(a.nodes[id].validators, v) in {Fail, CastFailure}
    ensures r == Err(NullPointer) <== Screen(a.nodes[id].validators, v).NullDeref?
    ensures Screen(a.nodes[id].validators, v).Raise? ==>
      r == (match RootOf(a, id)
            case Ok(root) => Err(ValidationFailed(PathOf(a, id), v, a.nodes[root].file.value, Screen(a.nodes[id].validators, v).message))
            case Err(e) => Err(e))
  {
    match Screen(a.nodes[id].validators, v)
    case Pass => Ok(true)
    case Fail => Ok(false)
    case CastFailure => Ok(false)
    case NullDeref => Err(NullPointer)
    case Raise(m) =>
      match RootOf(a, id)
      case Ok(root) => Err(ValidationFailed(PathOf(a, id), v, a.nodes[root].file.value, m))
      case Err(e) => Err(e)
  }

  /** An empty validator list accepts every value. */
  lemma NoValidatorsAcceptAll(a: Arena, id: Id, v: Value)
    requires WellFormed(a) && IsValueNode(a, id) && a.nodes[id].validators == []
    ensures IsValid(a, id, v) == Ok(true)
  {
  }

  /**
   * Running the callback with `v`: the bound object's field takes the value
   * reflective `Field.set` gives it, a detached instance's field is not seen
   * by anyone, and an assignment `Field.set` refuses throws.
   */
  function Fire(obj: Obj, cb: Callback, v: Value): (r: Result<Obj>)
    ensures cb.NoCallback? ==> r == Ok(obj)
    ensures cb.SetField? ==> (r.Ok? <==> FieldAssign(cb.fieldType, v).Some?)
    ensures cb.SetField? && r.Err? ==> r == Err(FieldRejects(v))
    ensures cb.SetField? && cb.owner.Detached? && r.Ok? ==> r.value == obj
    ensures cb.SetField? && cb.owner.Bound? && r.Ok? ==>
      r.value.unset == obj.unset && r.value.values == obj.values[cb.field := FieldAssign(cb.fieldType, v).value]
  {
    match cb
    case NoCallback => Ok(obj)
    case SetField(owner, field, t) =>
      match FieldAssign(t, v)
      case None => Err(FieldRejects(v))
      case Some(w) => if owner.Bound? then Ok(obj.(values := obj.values[field := w])) else Ok(obj)
  }

  /** The arena with the current value of value node `id` replaced by `v`. */
  function StoreValue(a: Arena, id: Id, v: Value): (r: Arena)
    requires WellFormed(a) && IsValueNode(a, id)
    ensures WellFormed(r) && r.next == a.next && r.nodes.Keys == a.nodes.Keys
    ensures r.nodes[id] == a.nodes[id].(value := v)
    ensures forall x | x in a.nodes && x != id :: r.nodes[x] == a.nodes[x]
  {
    ReplacePreserves(a, id, a.nodes[id].(value := v));
    Arena(a.nodes[id := a.nodes[id].(value := v)], a.next)
  }

  /**
   * `ValueNode.value(T)` and `ValueNode.setValue(Object)` (whose bodies are
   * the same once generics are erased): an accepted value is passed to the
   * callback and then stored; a rejected one throws IllegalArgumentException.
   */
  function WriteValue(a: Arena, obj: Obj, id: Id, v: Value): (o: Outcome<()>)
    requires WellFormed(a) && IsValueNode(a, id)
    ensures o.result.Ok? <==> IsValid(a, id, v) == Ok(true) && Fire(obj, a.nodes[id].callback, v).Ok?
    ensures IsValid(a, id, v) == Ok(false) ==> o.result == Err(NotAValidValue(v))
    ensures IsValid(a, id, v).Err? ==> o.result == Err(IsValid(a, id, v).error)
    ensures o.result.Err? ==> o.arena == a && o.obj == obj
    ensures o.result.Ok? ==> o.arena == StoreValue(a, id, v) && o.obj == Fire(obj, a.nodes[id].callback, v).value
  {
    match IsValid(a, id, v)
    case Err(e) => Outcome(Err(e), a, obj)
    case Ok(false) => Outcome(Err(NotAValidValue(v)), a, obj)
    case Ok(true) =>
      match Fire(obj, a.nodes[id].callback, v)
      case Err(e) => Outcome(Err(e), a, obj)
      case Ok(obj') => Outcome(Ok(()), StoreValue(a, id, v), obj')
  }

  /** A write never touches the node's default, type, validators or callback. */
  lemma WriteKeepsDefault(a: Arena, obj: Obj, id: Id, v: Value)
    requires WellFormed(a) && IsValueNode(a, id)
    ensures var n := WriteValue(a, obj, id, v).arena.nodes[id];
      n.defaultValue == a.nodes[id].defaultValue && n.valueType == a.nodes[id].valueType &&
      n.validators == a.nodes[id].validators && n.callback == a.nodes[id].callback &&
      n.key == a.nodes[id].key && n.parent == a.nodes[id].parent
  {
  }

  /** After an accepted write the node holds the written value. */
  lemma WriteThenRead(a: Arena, obj: Obj, id: Id, v: Value)
    requires WellFormed(a) && IsValueNode(a, id)
    requires WriteValue(a, obj, id, v).result.Ok?
    ensures WriteValue(a, obj, id, v).arena.nodes[id].value == v
  {
  }

  /** `validators(List)`: the list is replaced wholesale. */
  function WithValidators(n: Node, vs: seq<Validator>): (r: Node)
    requires n.ValueNode?
    ensures r.ValueNode? && r.validators == vs
    ensures r == n.(validators := vs)
  {
    n.(validators := vs)
  }

  /** The text `writeValueAsString` gives, with the description comment line in front when there is one. */
  function Commented(description: Option<string>, output: string, ctx: SerializeContext): string {
    if description.Some? then [ctx.commentChar] + " " + description.value + "\n" + output else output
  }

  /**
   * `ValueNode.asString`: "" for a null value; otherwise the encoded
   * single-entry map `{key: value}`, after the description comment, with
   * every line indented and a final "\n".
   */
  function ValueText(n: Node, indent: nat, ctx: SerializeContext): string
    requires n.ValueNode?
  {
    if n.value.Null? then ""
    else JoinLines(IndentLines(Lines(Commented(n.description, ctx.encode(n.key, n.value), ctx)), indent)) + "\n"
  }

  /** A null value renders as nothing. */
  lemma NullValueRendersEmpty(n: Node, indent: nat, ctx: SerializeContext)
    requires n.ValueNode? && n.value.Null?
    ensures ValueText(n, indent, ctx) == ""
  {
  }

  /**
   * A non-null value renders as text ending in "\n" whose lines are the
   * lines of the commented encoding, each with `indent` spaces in front.
   */
  lemma ValueTextLines(n: Node, indent: nat, ctx: SerializeContext)
    requires n.ValueNode? && !n.value.Null?
    requires Commented(n.description, ctx.encode(n.key, n.value), ctx) != ""
    ensures var t := ValueText(n, indent, ctx);
      |t| > 0 && t[|t| - 1] == '\n' &&
      Lines(t) == IndentLines(Lines(Commented(n.description, ctx.encode(n.key, n.value), ctx)), indent)
  {
    var ls := IndentLines(Lines(Commented(n.description, ctx.encode(n.key, n.value), ctx)), indent);
    forall i | 0 <= i < |ls|
      ensures NoBreaks(ls[i])
    {
      SpacesNoBreaks(indent);
      ConcatNoBreaks(Spaces(indent), Lines(Commented(n.description, ctx.encode(n.key, n.value), ctx))[i]);
    }
    LinesOfJoin(ls);
  }

  /**
   * With a description on one line, the first rendered line is the indented
   * comment: the comment character, a space and the description.
   */
  lemma DescriptionIsFirstLine(n: Node, indent: nat, ctx: SerializeContext)
    requires n.ValueNode? && !n.value.Null? && n.description.Some?
    requires NoBreaks(n.description.value) && !IsBreak(ctx.commentChar)
    ensures var ls := Lines(ValueText(n, indent, ctx));
      |ls| > 0 && ls[0] == Spaces(indent) + [ctx.commentChar] + " " + n.description.value
  {
    var line := [ctx.commentChar] + " " + n.description.value;
    assert NoBreaks(" ");
    ConcatNoBreaks([ctx.commentChar], " ");
    ConcatNoBreaks([ctx.commentChar] + " ", n.description.value);
    var output := ctx.encode(n.key, n.value);
    assert Commented(n.description, output, ctx) == line + "\n" + output;
    LinesOfLine(line, output);
    ValueTextLines(n, indent, ctx);
  }
}
