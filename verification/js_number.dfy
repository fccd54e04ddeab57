/** JavaScript numbers where the modelled code can meet the special values:
    NaN, the two infinities, or a finite value (taken as an exact real). */
module JsNumber {

  datatype Number = NaN | PosInfinity | NegInfinity | Finite(value: real)

  function Max(a: int, b: int): int {
    if a >= b then a else b
  }

  function Min(a: int, b: int): int {
    if a <= b then a else b
  }

  /** `Math.trunc`: rounds toward zero. */
  function Trunc(x: real): (t: int)
    ensures x >= 0.0 ==> t == x.Floor
    ensures x < 0.0 ==> t == -((-x).Floor)
  {
    if x >= 0.0 then x.Floor else -((-x).Floor)
  }

  /** The `%` operator on finite numbers: the remainder takes the sign of
      the dividend, `x - m * trunc(x / m)`. */
  function Rem(x: real, m: real): real
    requires m != 0.0
  {
    x - m * Trunc(x / m) as real
  }
}
