/**
 * binomialSmoother: scipy's generic_filter runs filterFunction over the
 * 3 x 3 window around every cell. The filter takes the binomial weighted
 * mean of the valid samples of the window, leaves a missing centre as it
 * is, and lets no missing neighbour into either sum.
 */
module SpatialSmoother {
  import opened Arithmetic
  import opened Samples
  import opened NanStats

  /** The weights of the window in row-major order; index 4 is the centre. */
  const Weights: seq<real> := [1.0, 2.0, 1.0, 2.0, 4.0, 2.0, 1.0, 2.0, 1.0]

  /** The sum of weight times value over the valid samples among the first n of the footprint. */
  function WeightedSum(fp: seq<Sample>, w: seq<real>, n: nat): real
    requires n <= |fp| && n <= |w|
  {
    if n == 0 then 0.0
    else WeightedSum(fp, w, n - 1) + (if fp[n - 1].Valid? then w[n - 1] * fp[n - 1].value else 0.0)
  }

  /** The sum of the weights of the valid samples among the first n of the footprint. */
  function WeightSum(fp: seq<Sample>, w: seq<real>, n: nat): real
    requires n <= |fp| && n <= |w|
  {
    if n == 0 then 0.0
    else WeightSum(fp, w, n - 1) + (if fp[n - 1].Valid? then w[n - 1] else 0.0)
  }

  /** The sum of the first n weights. */
  function WeightPrefix(w: seq<real>, n: nat): real
    requires n <= |w|
  {
    if n == 0 then 0.0 else WeightPrefix(w, n - 1) + w[n - 1]
  }

  /** No weight is negative. */
  predicate NonNegative(w: seq<real>) {
    forall k :: 0 <= k < |w| ==> w[k] >= 0.0
  }

  /**
   * What filterFunction returns for a footprint: a missing centre as it is;
   * otherwise the weighted mean of the valid samples, or the centre should
   * the weight sum be zero (the ZeroDivisionError branch).
   */
  function FilterValue(fp: seq<Sample>): Sample
    requires |fp| == |Weights|
  {
    if fp[4].Missing? then fp[4]
    else if WeightSum(fp, Weights, 9) == 0.0 then fp[4]
    else Valid(WeightedSum(fp, Weights, 9) / WeightSum(fp, Weights, 9))
  }

  /** filterFunction: the accumulation loop over the nine weights. */
  method FilterFunction(footprint: seq<Sample>) returns (ans: Sample)
    requires |footprint| == |Weights|
    ensures ans == FilterValue(footprint)
  {
    if footprint[4].Missing? {
      return footprint[4];
    }
    var footprintSum, weightSum := 0.0, 0.0;
    for i := 0 to |Weights|
      invariant footprintSum == WeightedSum(footprint, Weights, i)
      invariant weightSum == WeightSum(footprint, Weights, i)
    {
      if footprint[i].Valid? {
        footprintSum := footprintSum + Weights[i] * footprint[i].value;
        weightSum := weightSum + Weights[i];
      }
    }
    if weightSum == 0.0 {
      ans := footprint[4];
    } else {
      ans := Valid(footprintSum / weightSum);
    }
  }

  /**
   * With weights that are not negative, the weight sum is never negative,
   * never more than the weights of the same cells, equal to them when every
   * sample is valid, and at least the weight of any valid sample counted.
   */
  lemma {:induction false} WeightSumBounds(fp: seq<Sample>, w: seq<real>, n: nat, c: nat)
    requires n <= |fp| && n <= |w| && NonNegative(w)
    ensures 0.0 <= WeightSum(fp, w, n) <= WeightPrefix(w, n)
    ensures (forall k :: 0 <= k < n ==> fp[k].Valid?) ==> WeightSum(fp, w, n) == WeightPrefix(w, n)
    ensures c < n && fp[c].Valid? ==> WeightSum(fp, w, n) >= w[c]
  {
    if n > 0 {
      WeightSumBounds(fp, w, n - 1, c);
      assert w[n - 1] >= 0.0;
    }
  }

  /** Every weight is positive. */
  lemma WeightsPositive()
    ensures forall k :: 0 <= k < |Weights| ==> Weights[k] > 0.0
  {
    forall k | 0 <= k < |Weights| ensures Weights[k] > 0.0 {
      assert Weights[k] in Weights;
    }
  }

  /**
   * A valid centre gives a weight sum of at least 4, so the
   * ZeroDivisionError fallback is never taken; a window without missing
   * samples has the full weight 16.
   */
  lemma CentreWeight(fp: seq<Sample>)
    requires |fp| == |Weights|
    ensures fp[4].Valid? ==> WeightSum(fp, Weights, 9) >= 4.0
    ensures (forall k :: 0 <= k < |fp| ==> fp[k].Valid?) ==> WeightSum(fp, Weights, 9) == 16.0
  {
    WeightsPositive();
    WeightSumBounds(fp, Weights, 9, 4);
    assert WeightPrefix(Weights, 9) == 16.0;
  }

  /** Adding a weight w >= 0 with a value v >= lo keeps the weighted sum at least lo times the weight sum. */
  lemma StepAbove(a: real, s: real, w: real, v: real, lo: real)
    requires lo * a <= s && w >= 0.0 && lo <= v
    ensures lo * (a + w) <= s + w * v
  {
    assert lo * w <= w * v;
    assert lo * (a + w) == lo * a + lo * w;
  }

  /** Adding a weight w >= 0 with a value v <= hi keeps the weighted sum at most hi times the weight sum. */
  lemma StepBelow(a: real, s: real, w: real, v: real, hi: real)
    requires s <= hi * a && w >= 0.0 && v <= hi
    ensures s + w * v <= hi * (a + w)
  {
    assert w * v <= hi * w;
    assert hi * (a + w) == hi * a + hi * w;
  }

  /** When every valid sample is at least lo, the weighted sum is at least lo times the weight sum. */
  lemma {:induction false} WeightedSumAbove(fp: seq<Sample>, w: seq<real>, n: nat, lo: real)
    requires n <= |fp| && n <= |w| && NonNegative(w)
    requires forall k :: 0 <= k < |fp| && fp[k].Valid? ==> lo <= fp[k].value
    ensures lo * WeightSum(fp, w, n) <= WeightedSum(fp, w, n)
  {
    if n > 0 {
      WeightedSumAbove(fp, w, n - 1, lo);
      if fp[n - 1].Valid? {
        StepAbove(WeightSum(fp, w, n - 1), WeightedSum(fp, w, n - 1), w[n - 1], fp[n - 1].value, lo);
      }
    }
  }

  /** When every valid sample is at most hi, the weighted sum is at most hi times the weight sum. */
  lemma {:induction false} WeightedSumBelow(fp: seq<Sample>, w: seq<real>, n: nat, hi: real)
    requires n <= |fp| && n <= |w| && NonNegative(w)
    requires forall k :: 0 <= k < |fp| && fp[k].Valid? ==> fp[k].value <= hi
    ensures WeightedSum(fp, w, n) <= hi * WeightSum(fp, w, n)
  {
    if n > 0 {
      WeightedSumBelow(fp, w, n - 1, hi);
      if fp[n - 1].Valid? {
        StepBelow(WeightSum(fp, w, n - 1), WeightedSum(fp, w, n - 1), w[n - 1], fp[n - 1].value, hi);
      }
    }
  }

  /**
   * The smoothed value of a valid centre lies between any bounds of the
   * valid samples of its window (so between their minimum and maximum).
   */
  lemma FilterValueBetween(fp: seq<Sample>, lo: real, hi: real)
    requires |fp| == |Weights|
    requires forall k :: 0 <= k < |fp| && fp[k].Valid? ==> lo <= fp[k].value <= hi
    ensures fp[4].Valid? ==> FilterValue(fp).Valid? && lo <= FilterValue(fp).value <= hi
  {
    if fp[4].Valid? {
      CentreWeight(fp);
      WeightsPositive();
      WeightedSumAbove(fp, Weights, 9, lo);
      WeightedSumBelow(fp, Weights, 9, hi);
      QuotientBounds(WeightedSum(fp, Weights, 9), WeightSum(fp, Weights, 9), lo, hi);
    }
  }

  /** A window whose valid samples all equal c smooths a valid centre to c. */
  lemma ConstantWindow(fp: seq<Sample>, c: real)
    requires |fp| == |Weights| && fp[4].Valid?
    requires forall k :: 0 <= k < |fp| && fp[k].Valid? ==> fp[k].value == c
    ensures FilterValue(fp) == Valid(c)
  {
    FilterValueBetween(fp, c, c);
  }

  /**
   * scipy.ndimage's default mode 'reflect' for an index at most one step
   * outside 0 .. n - 1: the sample at the edge is repeated.
   */
  function Reflect(x: int, n: nat): (r: nat)
    requires n > 0 && -1 <= x <= n
    ensures r < n
    ensures 0 <= x < n ==> r == x
    ensures x < 0 ==> r == 0
    ensures x == n ==> r == n - 1
  {
    if x < 0 then -x - 1 else if x >= n then 2 * n - x - 1 else x
  }

  /** The footprint generic_filter passes at cell (i, j): the 3 x 3 window in row-major order. */
  function Window(data: array2<Sample>, i: nat, j: nat): (fp: seq<Sample>)
    requires i < data.Length0 && j < data.Length1
    reads data
    ensures |fp| == |Weights| && fp[4] == data[i, j]
  {
    seq(9, k requires 0 <= k < 9 reads data =>
      data[Reflect(i - 1 + k / 3, data.Length0), Reflect(j - 1 + k % 3, data.Length1)])
  }

  /**
   * binomialSmoother: a fresh array of the shape of data holding the
   * filtered window of every cell; missing cells stay missing and valid ones
   * stay valid.
   */
  method BinomialSmoother(data: array2<Sample>) returns (smoothed: array2<Sample>)
    ensures fresh(smoothed)
    ensures smoothed.Length0 == data.Length0 && smoothed.Length1 == data.Length1
    ensures forall i, j :: 0 <= i < data.Length0 && 0 <= j < data.Length1 ==>
      smoothed[i, j] == FilterValue(Window(data, i, j))
    ensures forall i, j :: 0 <= i < data.Length0 && 0 <= j < data.Length1 ==>
      (data[i, j].Missing? ==> smoothed[i, j] == data[i, j]) &&
      (data[i, j].Valid? ==> smoothed[i, j].Valid?)
  {
    smoothed := new Sample[data.Length0, data.Length1];
    for i := 0 to data.Length0
      invariant forall i', j :: 0 <= i' < i && 0 <= j < data.Length1 ==>
        smoothed[i', j] == FilterValue(Window(data, i', j))
    {
      for j := 0 to data.Length1
        invariant forall i', j' :: 0 <= i' < data.Length0 && 0 <= j' < data.Length1 && (i' < i || (i' == i && j' < j)) ==>
          smoothed[i', j'] == FilterValue(Window(data, i', j'))
      {
        var footprint := Window(data, i, j);
        smoothed[i, j] := FilterFunction(footprint);
      }
    }
    forall i, j | 0 <= i < data.Length0 && 0 <= j < data.Length1
      ensures data[i, j].Valid? ==> smoothed[i, j].Valid?
    {
      CentreWeight(Window(data, i, j));
    }
  }

  /** A field of one valid value c everywhere is left unchanged by the smoother. */
  lemma ConstantFieldFixed(data: array2<Sample>, c: real, i: nat, j: nat)
    requires i < data.Length0 && j < data.Length1
    requires forall i', j' :: 0 <= i' < data.Length0 && 0 <= j' < data.Length1 ==> data[i', j'] == Valid(c)
    ensures FilterValue(Window(data, i, j)) == Valid(c)
  {
    ConstantWindow(Window(data, i, j), c);
  }
}
