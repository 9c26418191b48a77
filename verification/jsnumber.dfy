/**
  JavaScript numbers where the code tests them for finiteness, and the
  `Math.min`/`Math.max`/`Math.round` behaviour the rest of the model relies on.
  Finite numbers are exact reals: rounding error of binary floating point is
  not modelled.
 */
module JsNumber {

  /** A JavaScript number: finite, not-a-number, or one of the infinities. */
  datatype Num = Finite(v: real) | NaN | PosInf | NegInf

  /** `Number.isFinite`. */
  predicate IsFinite(n: Num) {
    n.Finite?
  }

  /** The order of non-NaN numbers, with the infinities at the ends. */
  predicate Le(a: Num, b: Num)
    requires !a.NaN? && !b.NaN?
  {
    match (a, b)
    case (NegInf, _) => true
    case (_, PosInf) => true
    case (Finite(x), Finite(y)) => x <= y
    case _ => false
  }

  /** `Math.min(a, b)`: NaN if either argument is NaN, else the smaller one. */
  function MathMin(a: Num, b: Num): (r: Num)
    ensures r.NaN? <==> a.NaN? || b.NaN?
    ensures !r.NaN? ==> (r == a || r == b) && Le(r, a) && Le(r, b)
  {
    if a.NaN? || b.NaN? then NaN
    else if a.NegInf? || b.NegInf? then NegInf
    else if a.PosInf? then b
    else if b.PosInf? then a
    else Finite(Min(a.v, b.v))
  }

  /** `Math.max(a, b)`: NaN if either argument is NaN, else the larger one. */
  function MathMax(a: Num, b: Num): (r: Num)
    ensures r.NaN? <==> a.NaN? || b.NaN?
    ensures !r.NaN? ==> (r == a || r == b) && Le(a, r) && Le(b, r)
  {
    if a.NaN? || b.NaN? then NaN
    else if a.PosInf? || b.PosInf? then PosInf
    else if a.NegInf? then b
    else if b.NegInf? then a
    else Finite(Max(a.v, b.v))
  }

  /** `a - b` for a finite `b`: infinities and NaN absorb the subtraction. */
  function Minus(a: Num, b: real): (r: Num)
    ensures r.Finite? <==> a.Finite?
    ensures a.Finite? ==> r.v + b == a.v
  {
    match a
    case Finite(x) => Finite(x - b)
    case _ => a
  }

  /** `Math.min` on finite numbers. */
  function Min(a: real, b: real): (r: real)
    ensures r <= a && r <= b && (r == a || r == b)
  {
    if a <= b then a else b
  }

  /** `Math.max` on finite numbers. */
  function Max(a: real, b: real): (r: real)
    ensures r >= a && r >= b && (r == a || r == b)
  {
    if a >= b then a else b
  }

  /** `Math.round` on a finite number: the nearest integer, halves rounded up. */
  function Round(x: real): (r: int)
    ensures x - 0.5 < r as real <= x + 0.5
  {
    (x + 0.5).Floor
  }
}
