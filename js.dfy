/**
 * The JavaScript values the binding hands to and receives from script code.
 * A Number is an exact real or one of the non-finite doubles; rounding is not
 * modelled. An object keeps its own property names in creation order.
 */
module Js {
  datatype Number = Finite(value: real) | PositiveInfinity | NegativeInfinity | NaN

  datatype JsValue =
    | Undefined
    | Null
    | Bool(b: bool)
    | Num(n: Number)
    | Str(s: string)
    | Function(id: nat)
    | ErrorObject(message: string)
    | Obj(o: JsObject)

  /** An ordinary object: its property names in the order they were created, and their values. */
  datatype JsObject = JsObject(keys: seq<string>, values: map<string, JsValue>)

  const EMPTY_OBJECT: JsObject := JsObject([], map[])

  /** Each name appears once in the key order, and the named properties are exactly the valued ones. */
  ghost predicate WellFormed(o: JsObject) {
    && (forall i, j | 0 <= i < j < |o.keys| :: o.keys[i] != o.keys[j])
    && (forall k :: k in o.values <==> k in o.keys)
  }

  /**
   * `o[k] = v` (napi `Set`): a new name goes to the end of the key order, an
   * existing one keeps its place and takes the new value.
   */
  function Set(o: JsObject, k: string, v: JsValue): (r: JsObject)
    ensures r.values == o.values[k := v]
  {
    if k in o.values then JsObject(o.keys, o.values[k := v]) else JsObject(o.keys + [k], o.values[k := v])
  }

  /** Setting a property keeps an object well formed, and never reorders the names it had. */
  lemma SetWellFormed(o: JsObject, k: string, v: JsValue)
    requires WellFormed(o)
    ensures WellFormed(Set(o, k, v))
    ensures o.keys <= Set(o, k, v).keys
    ensures |Set(o, k, v).keys| == |o.keys| + (if k in o.values then 0 else 1)
  {
  }

  /** JavaScript truthiness, as `if (error)` applies it. */
  predicate Truthy(v: JsValue) {
    match v
    case Undefined => false
    case Null => false
    case Bool(b) => b
    case Num(n) => !(n == Finite(0.0) || n.NaN?)
    case Str(s) => s != ""
    case Function(_) => true
    case ErrorObject(_) => true
    case Obj(_) => true
  }

  /** IEEE division of two finite values: a zero divisor gives an infinity, or NaN for 0 / 0. */
  function Divide(a: real, b: real): (q: Number)
    ensures q.Finite? <==> b != 0.0
    ensures q.Finite? ==> q.value * b == a
    ensures q.NaN? <==> a == 0.0 && b == 0.0
  {
    if b != 0.0 then Finite(a / b)
    else if a > 0.0 then PositiveInfinity
    else if a < 0.0 then NegativeInfinity
    else NaN
  }

  /** Multiplication by a positive finite constant. */
  function Scale(n: Number, k: real): (r: Number)
    requires k > 0.0
    ensures r.Finite? <==> n.Finite?
    ensures n.Finite? ==> r.value == n.value * k
  {
    match n
    case Finite(x) => Finite(x * k)
    case _ => n
  }

  /** `k - n` for a finite constant `k`: infinities change sign, NaN stays NaN. */
  function SubtractFrom(k: real, n: Number): (r: Number)
    ensures r.Finite? <==> n.Finite?
    ensures n.Finite? ==> r.value + n.value == k
    ensures r.NaN? <==> n.NaN?
  {
    match n
    case Finite(x) => Finite(k - x)
    case PositiveInfinity => NegativeInfinity
    case NegativeInfinity => PositiveInfinity
    case NaN => NaN
  }
}
