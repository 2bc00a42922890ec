/** Single-precision values as the hardware model sees them.
    Rounding is not modelled: a finite value is an exact real. What is kept is the
    part of IEEE 754 the design leans on: infinities, and NaN, with which every
    ordered comparison is false. */
module Float32 {

  datatype Fl = Finite(r: real) | Inf(negative: bool) | NaN

  /** FLT_MAX = (2 - 2^-23) * 2^127 */
  const FltMaxReal: real := 340282346638528859811704183484516925440.0
  const FltMax: Fl := Finite(FltMaxReal)
  /** FLT_EPSILON = 2^-23 */
  const FltEpsilon: real := 1.0 / 8388608.0

  /** a < b */
  predicate Lt(a: Fl, b: Fl)
  {
    match (a, b)
    case (NaN, _) => false
    case (_, NaN) => false
    case (Finite(x), Finite(y)) => x < y
    case (Inf(na), Inf(nb)) => na && !nb
    case (Inf(na), Finite(_)) => na
    case (Finite(_), Inf(nb)) => !nb
  }

  /** a == b as the float comparison (false when either side is NaN) */
  predicate Eq(a: Fl, b: Fl)
  {
    !a.NaN? && !b.NaN? && a == b
  }

  /** a <= b */
  predicate Le(a: Fl, b: Fl)
  {
    Lt(a, b) || Eq(a, b)
  }

  /** a + b; finite sums are exact */
  function Add(a: Fl, b: Fl): Fl
  {
    match (a, b)
    case (NaN, _) => NaN
    case (_, NaN) => NaN
    case (Finite(x), Finite(y)) => Finite(x + y)
    case (Inf(na), Inf(nb)) => if na == nb then a else NaN
    case (Inf(_), Finite(_)) => a
    case (Finite(_), Inf(_)) => b
  }

  /** -a */
  function Neg(a: Fl): Fl
  {
    match a
    case Finite(x) => Finite(-x)
    case Inf(n) => Inf(!n)
    case NaN => NaN
  }

  /** a * b; finite products are exact, and infinity times zero is NaN */
  function Mul(a: Fl, b: Fl): Fl
  {
    match (a, b)
    case (NaN, _) => NaN
    case (_, NaN) => NaN
    case (Finite(x), Finite(y)) => Finite(x * y)
    case (Inf(na), Inf(nb)) => Inf(na != nb)
    case (Inf(na), Finite(y)) => if y == 0.0 then NaN else Inf(na != (y < 0.0))
    case (Finite(x), Inf(nb)) => if x == 0.0 then NaN else Inf((x < 0.0) != nb)
  }

  /** 1.f / a; a zero divisor gives an infinity (signed zero is not modelled: 0 counts as +0) */
  function Recip(a: Fl): Fl
  {
    match a
    case NaN => NaN
    case Inf(_) => Finite(0.0)
    case Finite(x) => if x == 0.0 then Inf(false) else Finite(1.0 / x)
  }

  /** fabsf(a) */
  function Abs(a: Fl): Fl
  {
    match a
    case Finite(x) => Finite(if x < 0.0 then -x else x)
    case Inf(_) => Inf(false)
    case NaN => NaN
  }

  /** copysignf(m, s) for a non-negative finite magnitude m: m carrying the sign of s
      (a NaN or zero s counts as positive) */
  function CopySign(m: real, s: Fl): Fl
  {
    if Lt(s, Finite(0.0)) then Finite(-m) else Finite(m)
  }

  /** Every ordered comparison with NaN is false. */
  lemma NaNComparesFalse(x: Fl)
    ensures !Lt(NaN, x) && !Lt(x, NaN) && !Le(NaN, x) && !Le(x, NaN) && !Eq(x, NaN)
  {
  }

  /** Le is the total preorder of the extended reals on non-NaN values. */
  lemma LeTotalOnNumbers(a: Fl, b: Fl)
    requires !a.NaN? && !b.NaN?
    ensures Le(a, b) || Le(b, a)
    ensures Le(a, b) && Le(b, a) ==> a == b
  {
  }

  lemma LeTransitive(a: Fl, b: Fl, c: Fl)
    requires Le(a, b) && Le(b, c)
    ensures Le(a, c)
  {
  }
}
