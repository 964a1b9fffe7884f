/** The JavaScript number values the player reads from the audio element and from
    `data-timestamp` attributes: NaN, the two infinities and finite reals (IEEE
    rounding is not modelled), with the few operations the viewer applies to them. */
module JsNumber {
  import opened JsText

  datatype Number = NaN | Infinity(negative: bool) | Finite(value: real)

  /** `!x` is false: the number is neither NaN nor zero. */
  predicate Truthy(x: Number)
  {
    match x
    case NaN => false
    case Infinity(_) => true
    case Finite(v) => v != 0.0
  }

  /** `a <= b` with JavaScript's NaN rule: every comparison with NaN is false. */
  predicate AtMost(a: Number, b: Number)
  {
    match (a, b)
    case (NaN, _) => false
    case (_, NaN) => false
    case (Infinity(na), Infinity(nb)) => na || !nb
    case (Infinity(na), Finite(_)) => na
    case (Finite(_), Infinity(nb)) => !nb
    case (Finite(x), Finite(y)) => x <= y
  }

  /** `Math.min(a, b)`. */
  function Min(a: Number, b: Number): (r: Number)
    ensures a.NaN? || b.NaN? ==> r.NaN?
    ensures !a.NaN? && !b.NaN? ==> (r == a || r == b) && AtMost(r, a) && AtMost(r, b)
  {
    if a.NaN? || b.NaN? then NaN else if AtMost(a, b) then a else b
  }

  /** `Math.floor(x)`. */
  function Floor(x: Number): (r: Number)
    ensures x.Finite? ==> r.Finite? && r.value == x.value.Floor as real
    ensures !x.Finite? ==> r == x
  {
    match x
    case Finite(v) => Finite(v.Floor as real)
    case _ => x
  }

  /** The truncated remainder `a % b` of two finite reals (the sign follows `a`). */
  function Rem(a: real, b: real): (r: real)
    requires b > 0.0
    ensures a >= 0.0 ==> r == a - b * (a / b).Floor as real
  {
    var q := a / b;
    var t := if q >= 0.0 then q.Floor else -((-q).Floor);
    a - b * t as real
  }

  /** For a non-negative dividend the remainder lies in [0, b), and the whole
      quotient times b plus the remainder is the dividend. */
  lemma RemBounds(a: real, b: real)
    requires a >= 0.0 && (b == 60.0 || b == 1.0)
    ensures 0.0 <= Rem(a, b) < b
    ensures b * (a / b).Floor as real + Rem(a, b) == a
  {
  }

  /** `x / k` for a positive finite k. */
  function DivBy(x: Number, k: real): Number
    requires k > 0.0
  {
    match x
    case Finite(v) => Finite(v / k)
    case _ => x
  }

  /** `x * k` for a positive finite k. */
  function TimesBy(x: Number, k: real): Number
    requires k > 0.0
  {
    match x
    case Finite(v) => Finite(v * k)
    case _ => x
  }

  /** `x % b` for a positive finite divisor: NaN stays NaN and an infinity gives NaN. */
  function RemBy(x: Number, b: real): Number
    requires b > 0.0
  {
    match x
    case Finite(v) => Finite(Rem(v, b))
    case _ => NaN
  }

  /** `n.toString()` for an integer. */
  function IntToString(i: int): (s: string)
    ensures i >= 0 ==> s == NatToString(i)
  {
    if i < 0 then "-" + NatToString(-i) else NatToString(i)
  }

  /** `toString()` of a value that went through `Math.floor`. */
  function FloorToString(x: Number): string
  {
    match x
    case NaN => "NaN"
    case Infinity(negative) => if negative then "-Infinity" else "Infinity"
    case Finite(v) => IntToString(v.Floor)
  }
}
