/**
 * The value validators a value node runs before it accepts a write: the two
 * of lectern-core (`@Size` and `@Max`) and an abstract one standing for any
 * other user validator. A validator either accepts, rejects (returns false),
 * raises a ValidationException with a message, or fails on the value's
 * runtime class.
 */
module Validators {
  import opened Values
  import opened Errors

  /** What one call of `validate` does. */
  datatype Verdict =
    | Pass             // returns true
    | Fail             // returns false
    | Raise(message: Message)   // throws a ValidationException
    | CastFailure      // the unchecked cast to the validator's type fails (ClassCastException)
    | NullDeref        // dereferences a null value (NullPointerException)

  /**
   * `Size(min, max)` and `Max(bound)` are the annotations' validators;
   * `Custom` is any other validator, given by the verdict it gives on each
   * value it knows and a verdict for all others.
   */
  datatype Validator =
    | Size(min: int, max: int)
    | Max(bound: int)
    | Custom(verdicts: map<Value, Verdict>, otherwise: Verdict)

  /** The defaults of `@Size`: `min() default 0`, `max() default Long.MAX_VALUE`. */
  const DefaultSize: Validator := Size(0, LONG_MAX)

  /**
   * `CharSequence.length()`: the number of UTF-16 code units, one for a
   * character of the Basic Multilingual Plane and two (a surrogate pair) for
   * any other.
   */
  function Utf16Length(s: string): (r: nat)
    ensures |s| <= r <= 2 * |s|
    ensures (forall i | 0 <= i < |s| :: s[i] as int < 0x1_0000) ==> r == |s|
    ensures (exists i | 0 <= i < |s| :: s[i] as int >= 0x1_0000) ==> r > |s|
  {
    if |s| == 0 then 0
    else
      var rest := Utf16Length(s[1..]);
      assert forall i | 1 <= i < |s| :: s[i] == s[1..][i - 1];
      (if s[0] as int < 0x1_0000 then 1 else 2) + rest
  }

  /** `Size.Validator.validate`: strict bounds on a string's length or a collection's size. */
  function SizeValidate(min: int, max: int, v: Value): (r: Verdict)
    ensures r.Pass? || r == Raise(SizeConstraint(min, max))
    ensures r.Pass? <==> ((v.StrV? && min < Utf16Length(v.s) < max) || (v.ListV? && min < |v.items| < max))
  {
    if v.StrV? && min < Utf16Length(v.s) && Utf16Length(v.s) < max then Pass
    else if v.ListV? && min < |v.items| && |v.items| < max then Pass
    else Raise(SizeConstraint(min, max))
  }

  /**
   * `Max.Validator.validate`: compares the value's `longValue()` with the bound.
   * The validator is typed `Number`, so another class fails the cast, and null
   * is dereferenced.
   */
  function MaxValidate(bound: int, v: Value): (r: Verdict)
    ensures !r.Fail?
    ensures v.Null? <==> r.NullDeref?
    ensures !v.Null? && !IsNumber(v) <==> r.CastFailure?
    ensures IsNumber(v) ==> (r.Pass? <==> LongValue(v) <= bound)
    ensures IsNumber(v) && LongValue(v) > bound ==> r == Raise(AboveMaximum(v, bound))
  {
    if v.Null? then NullDeref
    else if !IsNumber(v) then CastFailure
    else if LongValue(v) > bound then Raise(AboveMaximum(v, bound))
    else Pass
  }

  /** The verdict of validator `d` on `v`. */
  function Check(d: Validator, v: Value): (r: Verdict)
    ensures d.Size? ==> r == SizeValidate(d.min, d.max, v)
    ensures d.Max? ==> r == MaxValidate(d.bound, v)
    ensures d.Custom? && v in d.verdicts ==> r == d.verdicts[v]
    ensures d.Custom? && v !in d.verdicts ==> r == d.otherwise
  {
    match d
    case Size(min, max) => SizeValidate(min, max, v)
    case Max(bound) => MaxValidate(bound, v)
    case Custom(verdicts, otherwise) => if v in verdicts then verdicts[v] else otherwise
  }

  /** Neither annotation validator ever returns false: it accepts or throws. */
  lemma AnnotationValidatorsNeverFail(d: Validator, v: Value)
    requires d.Size? || d.Max?
    ensures !Check(d, v).Fail?
  {
  }

  /** Under the default bounds an empty string and an empty collection are rejected. */
  lemma DefaultSizeRejectsEmpty()
    ensures Check(DefaultSize, StrV("")) == Raise(SizeConstraint(0, LONG_MAX))
    ensures Check(DefaultSize, ListV([])) == Raise(SizeConstraint(0, LONG_MAX))
  {
  }

  /** A value that is neither a string nor a collection always raises, whatever the bounds. */
  lemma SizeRejectsOtherClasses(min: int, max: int, v: Value)
    requires !v.StrV? && !v.ListV?
    ensures SizeValidate(min, max, v) == Raise(SizeConstraint(min, max))
  {
  }

  /** With `max = 3` a four-element list is rejected, and a two-element list accepted. */
  lemma SizeMaxThree()
    ensures SizeValidate(0, 3, ListV([StrV("a"), StrV("b"), StrV("c"), StrV("d")])).Raise?
    ensures SizeValidate(0, 3, ListV([StrV("a"), StrV("b")])).Pass?
  {
  }

  /**
   * A character outside the Basic Multilingual Plane counts twice: an emoji
   * alone is within `@Size(min = 1, max = 3)`, and two of them are not.
   */
  lemma SizeCountsCodeUnits()
    ensures Utf16Length("\U{1F600}") == 2
    ensures SizeValidate(1, 3, StrV("\U{1F600}")).Pass?
    ensures SizeValidate(1, 3, StrV("\U{1F600}\U{1F600}")).Raise?
    ensures SizeValidate(1, 3, StrV("ab")).Pass?
  {
    assert "\U{1F600}"[1..] == "";
    assert "\U{1F600}\U{1F600}"[1..] == "\U{1F600}";
    assert "ab"[1..] == "b" && "b"[1..] == "";
  }

  /** An integer at the bound passes `@Max`, one above it raises. */
  lemma MaxAtAndAboveBound(bound: int)
    ensures MaxValidate(bound, IntV(bound)).Pass?
    ensures MaxValidate(bound, LongV(bound + 1)) == Raise(AboveMaximum(LongV(bound + 1), bound))
  {
  }
}
