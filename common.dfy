/** Value types shared by every part of the model. */
module Common {

  /** Go's nil-or-value results, and a Go slice that may be nil (None) or not. */
  datatype Option<+T> = None | Some(value: T)

  /**
   * A float64 as the model sees it: a finite value or one of IEEE 754's
   * specials. Rounding is not modelled; parsing and formatting floats is
   * handed in as a function wherever the source does it.
   */
  datatype Float = Finite(x: real) | PosInf | NegInf | NaN

  /** The zero value of float64, which fills a freshly made slice. */
  const ZERO: Float := Finite(0.0)

  const TWO_TO_THE_64: int := 0x1_0000_0000_0000_0000

  /** Go's uint64. */
  type U64 = x: int | 0 <= x < TWO_TO_THE_64

  function Min(a: int, b: int): int { if a <= b then a else b }

  /** Go's `/` on int: the quotient truncated toward zero. */
  function GoDiv(a: int, b: int): int
    requires b != 0
  {
    if b > 0 then
      if a >= 0 then a / b else -((-a) / b)
    else
      if a >= 0 then -(a / (-b)) else (-a) / (-b)
  }

  /** Go's `%` on int: the remainder takes the sign of the dividend. */
  function GoRem(a: int, b: int): int
    requires b > 0
  {
    if a >= 0 then a % b else -((-a) % b)
  }

  /** A dividend that is a multiple of the divisor leaves no remainder under Go's `%` either. */
  lemma GoRemOfMultiple(a: int, b: int)
    requires b > 0 && a % b == 0
    ensures GoRem(a, b) == 0
  {
    if a < 0 {
      var q := a / b;
      assert a == q * b;
      assert -a == (-q) * b + 0;
      DivModUnique(-a, b, -q, 0);
    }
  }

  /** Adding one turn of the divisor to a value already in range changes nothing under Go's `%`. */
  lemma GoRemOneTurn(t: int, b: int)
    requires 0 <= t < b
    ensures GoRem(t + b, b) == t
  {
    DivModUnique(t + b, b, 1, t);
  }

  /** Euclidean division has only one quotient and remainder. */
  lemma DivModUnique(x: int, b: int, q: int, r: int)
    requires b > 0 && 0 <= r < b && x == q * b + r
    ensures x % b == r
  {
    var q', r' := x / b, x % b;
    assert x == q' * b + r';
    var d := q - q';
    assert d * b == r' - r by { assert d * b == q * b - q' * b; }
    if d >= 1 {
      MulAtLeast(d, b);
    } else if d <= -1 {
      MulAtLeast(-d, b);
    }
  }

  lemma {:induction false} MulAtLeast(k: int, b: int)
    requires k >= 1 && b > 0
    ensures k * b >= b
  {
    if k > 1 {
      MulAtLeast(k - 1, b);
      assert k * b == (k - 1) * b + b;
    }
  }
}
