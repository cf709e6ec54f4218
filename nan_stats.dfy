/**
 * numpy's nanmean and nanstd over one pixel group: the mean and the
 * population variance (the square of nanstd) of the valid samples, NaN when
 * there is none.
 */
module NanStats {
  import opened Wrappers
  import opened Arithmetic
  import opened Samples

  function Sum(v: seq<real>): real {
    if v == [] then 0.0 else v[0] + Sum(v[1..])
  }

  /**
   * A product kept behind a function name, so that the solver keeps a square
   * d * d as a term of its own instead of rewriting facts about it away.
   */
  function Times(a: real, b: real): real { a * b }

  /** The sum of squared deviations from m. */
  function SumSquares(v: seq<real>, m: real): real {
    if v == [] then 0.0 else Times(v[0] - m, v[0] - m) + SumSquares(v[1..], m)
  }

  /** np.nanmean: the mean of the valid samples; NaN when every sample is missing. */
  function NanMean(s: seq<Sample>): Sample {
    var v := ValidValues(s);
    if |v| == 0 then Missing else Valid(Sum(v) / |v| as real)
  }

  /** The mean, and with it the variance, is missing exactly when every sample of the group is. */
  lemma NanMeanMissingIff(s: seq<Sample>)
    ensures NanMean(s).Missing? <==> forall i :: 0 <= i < |s| ==> s[i].Missing?
    ensures NanVariance(s).Missing? <==> NanMean(s).Missing?
  {
    var v := ValidValues(s);
    ValidValuesMembers(s);
    if |v| > 0 {
      assert v[0] in v;
    }
  }

  /**
   * np.nanstd squared: the population variance (dividing by the number of
   * valid samples) about their mean; NaN when every sample is missing.
   */
  function NanVariance(s: seq<Sample>): Sample {
    var v := ValidValues(s);
    if |v| == 0 then Missing
    else Valid(SumSquares(v, Sum(v) / |v| as real) / |v| as real)
  }

  /** Every value of v lies in [lo, hi], so the sum lies in [n lo, n hi]. */
  lemma {:induction false} SumBounds(v: seq<real>, lo: real, hi: real)
    requires forall i :: 0 <= i < |v| ==> lo <= v[i] <= hi
    ensures |v| as real * lo <= Sum(v) <= |v| as real * hi
  {
    if v != [] {
      SumBounds(v[1..], lo, hi);
      assert |v| as real * lo == lo + (|v| - 1) as real * lo;
      assert |v| as real * hi == hi + (|v| - 1) as real * hi;
    }
  }

  /**
   * The mean lies between any bounds of the valid samples; in particular it
   * lies between their minimum and maximum.
   */
  lemma MeanBounds(s: seq<Sample>, lo: real, hi: real)
    requires forall i :: 0 <= i < |s| && s[i].Valid? ==> lo <= s[i].value <= hi
    ensures NanMean(s).Valid? ==> lo <= NanMean(s).value <= hi
  {
    var v := ValidValues(s);
    ValidValuesMembers(s);
    if |v| > 0 {
      forall i | 0 <= i < |v| ensures lo <= v[i] <= hi {
        assert v[i] in v;
        assert Valid(v[i]) in s;
      }
      SumBounds(v, lo, hi);
      QuotientBounds(Sum(v), |v| as real, lo, hi);
    }
  }

  /** A sum of squares is never negative, and it is zero exactly when every value equals m. */
  lemma {:induction false} SumSquaresZeroIff(v: seq<real>, m: real)
    ensures SumSquares(v, m) >= 0.0
    ensures SumSquares(v, m) == 0.0 <==> forall i :: 0 <= i < |v| ==> v[i] == m
  {
    if v != [] {
      SumSquaresZeroIff(v[1..], m);
      SquareSign(v[0] - m);
      if forall i :: 0 <= i < |v| ==> v[i] == m {
        assert forall i :: 0 <= i < |v[1..]| ==> v[1..][i] == m by {
          forall i | 0 <= i < |v[1..]| ensures v[1..][i] == m {
            assert v[1..][i] == v[i + 1];
          }
        }
      }
      if SumSquares(v, m) == 0.0 {
        assert v[0] == m;
        assert SumSquares(v[1..], m) == 0.0;
        forall i | 0 <= i < |v| ensures v[i] == m {
          if i > 0 {
            assert v[i] == v[1..][i - 1];
          }
        }
      }
    }
  }

  lemma TimesPositive(a: real, b: real)
    requires (a > 0.0 && b > 0.0) || (a < 0.0 && b < 0.0)
    ensures Times(a, b) > 0.0
  {
  }

  /** A square is never negative, and positive unless its root is zero. */
  lemma SquareSign(d: real)
    ensures Times(d, d) >= 0.0
    ensures d != 0.0 ==> Times(d, d) > 0.0
  {
    if d != 0.0 {
      TimesPositive(d, d);
    }
  }

  /** The variance is never negative (its square root, the std, is real). */
  lemma VarianceNonNegative(s: seq<Sample>)
    ensures NanVariance(s).Valid? ==> NanVariance(s).value >= 0.0
  {
    var v := ValidValues(s);
    if |v| > 0 {
      SumSquaresZeroIff(v, Sum(v) / |v| as real);
      QuotientBounds(SumSquares(v, Sum(v) / |v| as real), |v| as real, 0.0, SumSquares(v, Sum(v) / |v| as real));
    }
  }

  /**
   * A group whose valid samples all equal c has mean c and variance zero;
   * samples that are missing do not count.
   */
  lemma ConstantGroup(s: seq<Sample>, c: real)
    requires forall i :: 0 <= i < |s| && s[i].Valid? ==> s[i].value == c
    requires exists i :: 0 <= i < |s| && s[i].Valid?
    ensures NanMean(s) == Valid(c) && NanVariance(s) == Valid(0.0)
  {
    MeanBounds(s, c, c);
    var v := ValidValues(s);
    ValidValuesMembers(s);
    forall i | 0 <= i < |v| ensures v[i] == c {
      assert v[i] in v;
      assert Valid(v[i]) in s;
    }
    assert Sum(v) / |v| as real == c;
    SumSquaresZeroIff(v, c);
  }

  /**
   * A group of values of which exactly one, at position i, is the band's
   * no-data value: masking drops that one sample and keeps every other, so
   * the mean is that of the remaining values (missing when none remains).
   */
  lemma MaskOneNoData(v: seq<real>, noData: real, i: nat)
    requires i < |v| && v[i] == noData
    requires forall k :: 0 <= k < |v| && k != i ==> v[k] != noData
    ensures ValidValues(MaskAll(v, Some(noData))) == v[..i] + v[i + 1..]
    ensures NanMean(MaskAll(v, Some(noData))) ==
      if |v| == 1 then Missing else Valid(Sum(v[..i] + v[i + 1..]) / (|v| - 1) as real)
  {
    MaskOneValues(v, noData, i);
  }

  /** The masked samples of such a group split around the one masked sample. */
  lemma MaskOneValues(v: seq<real>, noData: real, i: nat)
    requires i < |v| && v[i] == noData
    requires forall k :: 0 <= k < |v| && k != i ==> v[k] != noData
    ensures ValidValues(MaskAll(v, Some(noData))) == v[..i] + v[i + 1..]
  {
    var nd := Some(noData);
    var before, after := v[..i], v[i + 1..];
    var head, rest := MaskAll(before, nd), MaskAll(after, nd);
    MaskOneSplit(v, nd, i);
    ValidValuesConcat([Missing], rest);
    ValidValuesSingle(Missing);
    ValidValuesConcat(head, [Missing] + rest);
    ValidValuesUnmasked(before, nd);
    ValidValuesUnmasked(after, nd);
  }

  /** Masking a group whose sample i is the no-data value: the masked values before i, a missing sample, the masked values after. */
  lemma MaskOneSplit(v: seq<real>, nd: Option<real>, i: nat)
    requires i < |v| && nd == Some(v[i])
    ensures MaskAll(v, nd) == MaskAll(v[..i], nd) + ([Missing] + MaskAll(v[i + 1..], nd))
  {
    assert v == v[..i] + ([v[i]] + v[i + 1..]);
    MaskAllConcat([v[i]], v[i + 1..], nd);
    MaskAllConcat(v[..i], [v[i]] + v[i + 1..], nd);
  }
}
