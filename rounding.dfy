/**
 * Python's rounding operations on floats, written over Dafny's exact reals:
 * math.floor, math.ceil, int() (truncation toward zero) and the built-in
 * round() (to the nearest integer, ties to the even neighbour).
 */
module Rounding {
  import opened Arithmetic

  /** math.floor: the largest integer not above x. */
  function Floor(x: real): (r: int)
    ensures r as real <= x < r as real + 1.0
  {
    x.Floor
  }

  /** math.ceil: the smallest integer not below x. */
  function Ceil(x: real): (r: int)
    ensures r as real - 1.0 < x <= r as real
  {
    -((-x).Floor)
  }

  /** True when x has no fractional part. */
  predicate IsIntegral(x: real) {
    x.Floor as real == x
  }

  /** True when x is a whole number of units. */
  predicate IsWholeMultiple(x: real, unit: real)
    requires unit != 0.0
  {
    IsIntegral(x / unit)
  }

  /** int() on a float: drops the fractional part, rounding toward zero. */
  function Trunc(x: real): (r: int)
    ensures 0.0 <= x ==> 0 <= r && r as real <= x < r as real + 1.0
    ensures x < 0.0 ==> r <= 0 && r as real - 1.0 < x <= r as real
  {
    if x >= 0.0 then Floor(x) else Ceil(x)
  }

  /** Python 3 round(): the nearest integer, and the even one on a tie. */
  function RoundHalfEven(x: real): (r: int)
    ensures r as real - 0.5 <= x <= r as real + 0.5
    ensures (x == r as real - 0.5 || x == r as real + 0.5) ==> r % 2 == 0
  {
    var f := Floor(x);
    var d := x - f as real;
    if d < 0.5 then f
    else if d > 0.5 then f + 1
    else if f % 2 == 0 then f
    else f + 1
  }

  /** The two properties of RoundHalfEven's contract single out its result. */
  lemma RoundHalfEvenUnique(x: real, k: int)
    requires k as real - 0.5 <= x <= k as real + 0.5
    requires (x == k as real - 0.5 || x == k as real + 0.5) ==> k % 2 == 0
    ensures RoundHalfEven(x) == k
  {
  }

  /** round() gives zero exactly on the closed interval [-1/2, 1/2]. */
  lemma RoundHalfEvenZeroIff(x: real)
    ensures RoundHalfEven(x) == 0 <==> -0.5 <= x <= 0.5
  {
    if -0.5 <= x <= 0.5 {
      RoundHalfEvenUnique(x, 0);
    }
  }

  /** Rounding an integral value leaves it unchanged. */
  lemma RoundHalfEvenIntegral(k: int)
    ensures RoundHalfEven(k as real) == k
  {
    RoundHalfEvenUnique(k as real, k);
  }

  /** Truncating a non-negative count of units: the whole units fit, one more does not. */
  lemma TruncFits(a: real, u: real)
    requires u > 0.0 && a >= 0.0
    ensures var n := Trunc(a / u);
      0 <= n && 0.0 <= n as real * u <= a < (n + 1) as real * u
  {
    var n := Trunc(a / u);
    assert a / u >= 0.0;
    WholeUnitsFit(a, u, n);
  }

  /** int(size / unit) for a non-negative ratio counts the whole units that fit in size, in absolute value. */
  lemma WholeUnitsIn(size: real, unit: real)
    requires unit != 0.0
    ensures size / unit >= 0.0 ==> var n := Trunc(size / unit);
      0 <= n && n as real * Abs(unit) <= Abs(size) < (n + 1) as real * Abs(unit)
  {
    var q := size / unit;
    if q >= 0.0 {
      assert q * unit == size;
      if unit > 0.0 {
        MulMono(0.0, q, unit);
      } else {
        MulMono(0.0, q, -unit);
        assert -size == q * (-unit);
        QuotientOf(-size, -unit, q);
      }
      TruncFits(Abs(size), Abs(unit));
    }
  }
}
