/**
 * Facts about real and integer arithmetic that the rounding, alignment,
 * statistics and grouping modules share.
 */
module Arithmetic {

  /** math.fabs */
  function Abs(x: real): (r: real)
    ensures 0.0 <= r && (r == x || r == -x)
  {
    if x < 0.0 then -x else x
  }

  /** (size / unit) unit = size */
  lemma DivMul(size: real, unit: real)
    requires unit != 0.0
    ensures (size / unit) * unit == size
  {
  }

  /** a = q u with u non-zero makes q the quotient a / u. */
  lemma QuotientOf(a: real, u: real, q: real)
    requires u != 0.0 && a == q * u
    ensures a / u == q
  {
  }

  /** n lo <= a <= n hi with n positive bounds the quotient a / n. */
  lemma QuotientBounds(a: real, n: real, lo: real, hi: real)
    requires n > 0.0 && n * lo <= a <= n * hi
    ensures lo <= a / n <= hi
  {
    var q := a / n;
    assert q * n == a;
  }

  lemma MulMono(x: real, y: real, u: real)
    requires u > 0.0 && x <= y
    ensures x * u <= y * u
  {
  }

  lemma MulMonoStrict(x: real, y: real, u: real)
    requires u > 0.0 && x < y
    ensures x * u < y * u
  {
  }

  lemma MulLeMonoInt(a: int, b: int, m: nat)
    requires a <= b
    ensures a * m <= b * m
  {
  }

  /** From n <= a / u < n + 1 with u > 0: n * u <= a < (n + 1) * u. */
  lemma WholeUnitsFit(a: real, u: real, n: int)
    requires u > 0.0
    requires n as real <= a / u < n as real + 1.0
    ensures n as real * u <= a < (n + 1) as real * u
  {
    var q := a / u;
    var m := n as real;
    assert q * u == a;
    MulMono(m, q, u);
    MulMonoStrict(q, m + 1.0, u);
    calc {
      a;
    ==
      q * u;
    <
      (m + 1.0) * u;
    ==
      (n + 1) as real * u;
    }
  }
}
