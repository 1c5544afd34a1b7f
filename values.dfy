/**
 * The values a configuration holds and the declared Java types they are
 * checked against. One value universe serves three roles: the values stored
 * in value nodes, the fields of a bound object, and the external key/value
 * tree that a codec reads from a document (a `MapV` plays the part of a
 * Jackson `ObjectNode` or of the SnakeYAML `Map` the legacy tree loads).
 */
module Values {
  import opened Wrappers

  /** The primitive types the binder distinguishes. */
  datatype Prim = PBoolean | PInt | PLong | PFloat | PDouble

  /** A declared (Jackson `JavaType`) or field type. */
  datatype JavaType =
    | Primitive(prim: Prim)
    | Boxed(prim: Prim)
    | StringType
    | ListType(element: JavaType)
    | MapType
    | ClassType(name: string)

  /**
   * A runtime value. Integer and Long carry their mathematical value,
   * Float and Double a real number: floating-point rounding is not modelled.
   * `ObjV` stands for any other object (an enum constant, a custom class).
   */
  datatype Value =
    | Null
    | BoolV(b: bool)
    | IntV(i: int)
    | LongV(l: int)
    | FloatV(f: real)
    | DoubleV(d: real)
    | StrV(s: string)
    | ListV(items: seq<Value>)
    | MapV(entries: seq<(string, Value)>)
    | ObjV(cls: string, id: nat)

  const LONG_MIN: int := -0x8000_0000_0000_0000
  const LONG_MAX: int := 0x7fff_ffff_ffff_ffff

  /** True for the values that are instances of `java.lang.Number`. */
  predicate IsNumber(v: Value) {
    v.IntV? || v.LongV? || v.FloatV? || v.DoubleV?
  }

  /** Rounding of a real toward zero, as Java's double-to-long cast does. */
  function TruncateTowardZero(x: real): (r: int)
    ensures x >= 0.0 ==> r as real <= x < r as real + 1.0
    ensures x < 0.0 ==> r as real - 1.0 < x <= r as real
  {
    if x >= 0.0 then x.Floor else -((-x).Floor)
  }

  /** `Number.longValue()`: the number itself for integers, truncated and saturated for floating types. */
  function LongValue(v: Value): (r: int)
    requires IsNumber(v)
    ensures LONG_MIN <= r <= LONG_MAX || v.IntV? || v.LongV?
    ensures v.IntV? ==> r == v.i
    ensures v.LongV? ==> r == v.l
  {
    match v
    case IntV(i) => i
    case LongV(l) => l
    case FloatV(x) => Saturate(TruncateTowardZero(x))
    case DoubleV(x) => Saturate(TruncateTowardZero(x))
  }

  function Saturate(n: int): (r: int)
    ensures LONG_MIN <= r <= LONG_MAX
    ensures LONG_MIN <= n <= LONG_MAX ==> r == n
  {
    if n < LONG_MIN then LONG_MIN else if n > LONG_MAX then LONG_MAX else n
  }

  /** The primitive a boxed value unwraps to, if it is a box. */
  function Unboxed(v: Value): Option<Prim> {
    match v
    case BoolV(_) => Some(PBoolean)
    case IntV(_) => Some(PInt)
    case LongV(_) => Some(PLong)
    case FloatV(_) => Some(PFloat)
    case DoubleV(_) => Some(PDouble)
    case _ => None
  }

  /** Java's widening primitive conversions among the modelled primitives (reflexive). */
  predicate Widens(from: Prim, to: Prim) {
    from == to ||
    (from == PInt && to in {PLong, PFloat, PDouble}) ||
    (from == PLong && to in {PFloat, PDouble}) ||
    (from == PFloat && to == PDouble)
  }

  /** The numeric content of a boxed number, as a real. */
  function AsReal(v: Value): real
    requires IsNumber(v)
  {
    match v
    case IntV(i) => i as real
    case LongV(l) => l as real
    case FloatV(x) => x
    case DoubleV(x) => x
  }

  /** The boxed value of primitive type `p` obtained by widening the number or boolean `v`. */
  function Widen(v: Value, p: Prim): (r: Value)
    requires Unboxed(v).Some? && Widens(Unboxed(v).value, p)
    ensures Unboxed(r) == Some(p)
    ensures v.BoolV? ==> r == v
    ensures IsNumber(v) ==> IsNumber(r) && AsReal(r) == AsReal(v)
  {
    match p
    case PBoolean => v
    case PInt => v
    case PLong => LongV(if v.IntV? then v.i else v.l)
    case PFloat => FloatV(AsReal(v))
    case PDouble => DoubleV(AsReal(v))
  }

  /** True if `v` is an instance of the (erased) class of the reference type `t`. */
  predicate InstanceOf(v: Value, t: JavaType)
    requires !t.Primitive?
  {
    match t
    case Boxed(p) => Unboxed(v) == Some(p)
    case StringType => v.StrV?
    case ListType(_) => v.ListV?
    case MapType => v.MapV?
    case ClassType(name) => v.ObjV? && v.cls == name
  }

  /**
   * Reflective `Field.set` on a field declared with type `t`: the value the
   * field then holds, or None where Java throws IllegalArgumentException.
   * A primitive field unboxes and widens, and refuses null; a reference field
   * accepts null and instances of its class.
   */
  function FieldAssign(t: JavaType, v: Value): (r: Option<Value>)
    ensures v.Null? ==> (r.Some? <==> !t.Primitive?)
    ensures r.Some? && !t.Primitive? ==> r.value == v
    ensures t.Primitive? ==> (r.Some? <==> Unboxed(v).Some? && Widens(Unboxed(v).value, t.prim))
    ensures !t.Primitive? ==> (r.Some? <==> v.Null? || InstanceOf(v, t))
    ensures r.Some? && t.Primitive? ==> Unboxed(r.value) == Some(t.prim)
    ensures r.Some? && t.Primitive? && v.BoolV? ==> r.value == v
    ensures r.Some? && t.Primitive? && IsNumber(v) ==> IsNumber(r.value) && AsReal(r.value) == AsReal(v)
  {
    if t.Primitive? then
      if Unboxed(v).Some? && Widens(Unboxed(v).value, t.prim) then Some(Widen(v, t.prim)) else None
    else if v.Null? || InstanceOf(v, t) then Some(v)
    else None
  }
}
