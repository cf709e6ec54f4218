/**
 * resampleHighResToLowRes: every low resolution pixel covers a block of
 * g0 x g1 high resolution pixels (g0 rows, g1 columns); the high resolution
 * band is cut into those blocks and the mean and the spread of the valid
 * samples of each block are stored, band by band, in two preallocated
 * (rows, columns, bands) arrays.
 */
module PixelGroupAggregator {
  import opened Wrappers
  import opened Rounding
  import opened CoordinateMapper
  import opened Samples
  import opened NanStats
  import opened Arithmetic

  /** One high resolution band as read from the raster, with its no-data value (None when unset). */
  datatype Band = Band(data: seq<seq<Sample>>, noData: Option<real>)

  /**
   * How many high resolution rows one low resolution pixel covers:
   * int(gt_LR[5] / gt_HR[5]). When both pixel heights point the same way,
   * that many whole rows fit in the low resolution pixel and one more does not.
   */
  function GroupHeight(gtHR: GeoTransform, gtLR: GeoTransform): (g: int)
    requires Invertible(gtHR)
    ensures gtLR.pixelHeight / gtHR.pixelHeight >= 0.0 ==>
      0 <= g && g as real * Abs(gtHR.pixelHeight) <= Abs(gtLR.pixelHeight) &&
      Abs(gtLR.pixelHeight) < (g + 1) as real * Abs(gtHR.pixelHeight)
  {
    WholeUnitsIn(gtLR.pixelHeight, gtHR.pixelHeight);
    Trunc(gtLR.pixelHeight / gtHR.pixelHeight)
  }

  /**
   * How many high resolution columns one low resolution pixel covers:
   * int(gt_LR[1] / gt_HR[1]), the number of whole columns that fit in it
   * when both pixel widths point the same way.
   */
  function GroupWidth(gtHR: GeoTransform, gtLR: GeoTransform): (g: int)
    requires Invertible(gtHR)
    ensures gtLR.pixelWidth / gtHR.pixelWidth >= 0.0 ==>
      0 <= g && g as real * Abs(gtHR.pixelWidth) <= Abs(gtLR.pixelWidth) &&
      Abs(gtLR.pixelWidth) < (g + 1) as real * Abs(gtHR.pixelWidth)
  {
    WholeUnitsIn(gtLR.pixelWidth, gtHR.pixelWidth);
    Trunc(gtLR.pixelWidth / gtHR.pixelWidth)
  }

  /** The row, in the high resolution band, of entry k of a group of low resolution row r. */
  function GroupRow(g0: nat, g1: nat, r: nat, k: nat): (i: nat)
    requires g1 > 0 && k < g0 * g1
    ensures r * g0 <= i < r * g0 + g0
  {
    DivBelow(k, g0, g1);
    r * g0 + k / g1
  }

  /** The column, in the high resolution band, of entry k of a group of low resolution column c. */
  function GroupCol(g1: nat, c: nat, k: nat): (j: nat)
    requires g1 > 0
    ensures c * g1 <= j < c * g1 + g1
  {
    c * g1 + k % g1
  }

  /** k < g0 g1 puts k / g1 below g0. */
  lemma DivBelow(k: nat, g0: nat, g1: nat)
    requires g1 > 0 && k < g0 * g1
    ensures k / g1 < g0
  {
    if k / g1 >= g0 {
      MulLeMonoInt(g0, k / g1, g1);
    }
  }

  /** n = q d + rem with 0 <= rem < d determines the quotient and the remainder. */
  lemma DivModUnique(n: int, d: int, q: int, rem: int)
    requires d > 0 && 0 <= rem < d && n == q * d + rem
    ensures n / d == q && n % d == rem
  {
    var q', rem' := n / d, n % d;
    assert n == q' * d + rem';
    if q' < q {
      MulLeMonoInt(q' + 1, q, d);
    } else if q < q' {
      MulLeMonoInt(q + 1, q', d);
    }
  }

  /** Block r of height g of a grid of n blocks ends inside the g n rows. */
  lemma BlockInside(g: nat, n: nat, r: nat)
    requires r < n
    ensures r * g + g <= g * n
  {
    MulLeMonoInt(r + 1, n, g);
  }

  /**
   * The high resolution band covers the read window: at least rows rows,
   * each at least cols samples long.
   */
  predicate CoversWindow(data: seq<seq<Sample>>, rows: nat, cols: nat) {
    rows <= |data| && forall i :: 0 <= i < rows ==> cols <= |data[i]|
  }

  /**
   * The group of low resolution pixel (r, c) of a band cut into blocks of
   * g0 x g1 over a low resolution grid of ySize x xSize pixels, in the
   * row-major order of the reshape and transpose, with the band's no-data
   * samples made missing.
   */
  function BandGroup(band: Band, g0: nat, g1: nat, ySize: nat, xSize: nat, r: nat, c: nat): (s: seq<Sample>)
    requires g0 > 0 && g1 > 0 && r < ySize && c < xSize
    requires CoversWindow(band.data, g0 * ySize, g1 * xSize)
    ensures |s| == g0 * g1
    ensures forall k :: 0 <= k < |s| && s[k].Valid? ==> band.noData != Some(s[k].value)
  {
    BlockInside(g0, ySize, r);
    BlockInside(g1, xSize, c);
    seq(g0 * g1, k requires 0 <= k < g0 * g1 =>
      MaskNoData(band.data[GroupRow(g0, g1, r, k)][GroupCol(g1, c, k)], band.noData))
  }

  /** The same group read from a high resolution array (the masked window). */
  function ArrayGroup(a: array2<Sample>, g0: nat, g1: nat, ySize: nat, xSize: nat, r: nat, c: nat): (s: seq<Sample>)
    requires g0 > 0 && g1 > 0 && r < ySize && c < xSize
    requires g0 * ySize <= a.Length0 && g1 * xSize <= a.Length1
    reads a
    ensures |s| == g0 * g1
  {
    BlockInside(g0, ySize, r);
    BlockInside(g1, xSize, c);
    seq(g0 * g1, k requires 0 <= k < g0 * g1 reads a => a[GroupRow(g0, g1, r, k), GroupCol(g1, c, k)])
  }

  /**
   * The block partition: entry k of the group of low resolution pixel (r, c)
   * is high resolution cell (i, j) exactly when (r, c) is the low resolution
   * pixel covering (i, j) and k is the position of (i, j) inside its block.
   */
  lemma GroupCellIff(g0: nat, g1: nat, r: nat, c: nat, k: nat, i: nat, j: nat)
    requires g0 > 0 && g1 > 0 && k < g0 * g1
    ensures GroupRow(g0, g1, r, k) == i && GroupCol(g1, c, k) == j
        <==> r == i / g0 && c == j / g1 && k == (i % g0) * g1 + j % g1
  {
    DivBelow(k, g0, g1);
    if GroupRow(g0, g1, r, k) == i && GroupCol(g1, c, k) == j {
      DivModUnique(i, g0, r, k / g1);
      DivModUnique(j, g1, c, k % g1);
    }
    if r == i / g0 && c == j / g1 && k == (i % g0) * g1 + j % g1 {
      DivModUnique(k, g1, i % g0, j % g1);
    }
  }

  /** Every high resolution cell is an entry of some group: that of (i / g0, j / g1). */
  lemma CellInGroup(g0: nat, g1: nat, i: nat, j: nat)
    requires g0 > 0 && g1 > 0
    ensures var k := (i % g0) * g1 + j % g1;
      k < g0 * g1 && GroupRow(g0, g1, i / g0, k) == i && GroupCol(g1, j / g1, k) == j
  {
    var k := (i % g0) * g1 + j % g1;
    EntryBelow(i % g0, j % g1, g0, g1);
    GroupCellIff(g0, g1, i / g0, j / g1, k, i, j);
  }

  /** Position a g1 + b of a g0 x g1 block, for a < g0 and b < g1, lies inside the block. */
  lemma EntryBelow(a: nat, b: nat, g0: nat, g1: nat)
    requires a < g0 && b < g1
    ensures a * g1 + b < g0 * g1
  {
    MulLeMonoInt(a, g0 - 1, g1);
    assert (g0 - 1) * g1 == g0 * g1 - g1;
  }

  /**
   * Every sample of the read window reaches the statistics: cell (i, j) is
   * entry (i % g0) g1 + j % g1 of the group of low resolution pixel
   * (i / g0, j / g1), masked against the no-data value.
   */
  lemma CellGroupEntry(band: Band, g0: nat, g1: nat, ySize: nat, xSize: nat, i: nat, j: nat)
    requires g0 > 0 && g1 > 0 && i < g0 * ySize && j < g1 * xSize
    requires CoversWindow(band.data, g0 * ySize, g1 * xSize)
    ensures var r, c, k := i / g0, j / g1, (i % g0) * g1 + j % g1;
      r < ySize && c < xSize && k < g0 * g1 &&
      BandGroup(band, g0, g1, ySize, xSize, r, c)[k] == MaskNoData(band.data[i][j], band.noData)
  {
    DivBelow(i, ySize, g0);
    DivBelow(j, xSize, g1);
    CellInGroup(g0, g1, i, j);
  }

  /**
   * A window holding the band's masked samples has, pixel by pixel, the
   * band's groups.
   */
  lemma MaskedWindowGroups(a: array2<Sample>, band: Band, g0: nat, g1: nat, ySize: nat, xSize: nat, r: nat, c: nat)
    requires g0 > 0 && g1 > 0 && r < ySize && c < xSize
    requires a.Length0 == g0 * ySize && a.Length1 == g1 * xSize
    requires CoversWindow(band.data, g0 * ySize, g1 * xSize)
    requires forall i, j :: 0 <= i < a.Length0 && 0 <= j < a.Length1 ==>
      a[i, j] == MaskNoData(band.data[i][j], band.noData)
    ensures ArrayGroup(a, g0, g1, ySize, xSize, r, c) == BandGroup(band, g0, g1, ySize, xSize, r, c)
  {
    BlockInside(g0, ySize, r);
    BlockInside(g1, xSize, c);
  }

  /** ReadAsArray(0, 0, cols, rows): a fresh copy of the top-left rows x cols window of the band. */
  method ReadWindow(band: Band, rows: nat, cols: nat) returns (a: array2<Sample>)
    requires CoversWindow(band.data, rows, cols)
    ensures fresh(a) && a.Length0 == rows && a.Length1 == cols
    ensures forall i, j :: 0 <= i < rows && 0 <= j < cols ==> a[i, j] == band.data[i][j]
  {
    a := new Sample[rows, cols]((i: nat, j: nat) requires i < rows && j < cols => band.data[i][j]);
  }

  /** data_HR[data_HR == no_data] = nan: the no-data samples of the window become missing, in place. */
  method MaskNoDataInPlace(a: array2<Sample>, noData: Option<real>)
    modifies a
    ensures forall i, j :: 0 <= i < a.Length0 && 0 <= j < a.Length1 ==>
      a[i, j] == MaskNoData(old(a[i, j]), noData)
  {
    for i := 0 to a.Length0
      invariant forall i', j :: 0 <= i' < a.Length0 && 0 <= j < a.Length1 ==>
        a[i', j] == if i' < i then MaskNoData(old(a[i', j]), noData) else old(a[i', j])
    {
      for j := 0 to a.Length1
        invariant forall i', j' :: 0 <= i' < a.Length0 && 0 <= j' < a.Length1 ==>
          a[i', j'] == if i' < i || (i' == i && j' < j) then MaskNoData(old(a[i', j']), noData) else old(a[i', j'])
      {
        a[i, j] := MaskNoData(a[i, j], noData);
      }
    }
  }

  /**
   * aggregatedMean[:, :, b] = nanmean(t, axis=-1) and the same for the
   * spread: fills slice b of both outputs from the groups of the masked
   * window of band (ghost: the window's contents, which the array holds) and
   * leaves every other slice as it was.
   */
  method AggregateBand(data: array2<Sample>, ghost band: Band, g0: nat, g1: nat,
                       mean: array3<Sample>, std: array3<Sample>, b: nat)
    requires g0 > 0 && g1 > 0 && mean != std
    requires std.Length0 == mean.Length0 && std.Length1 == mean.Length1 && std.Length2 == mean.Length2
    requires data.Length0 == g0 * mean.Length0 && data.Length1 == g1 * mean.Length1
    requires CoversWindow(band.data, g0 * mean.Length0, g1 * mean.Length1)
    requires forall i, j :: 0 <= i < data.Length0 && 0 <= j < data.Length1 ==>
      data[i, j] == MaskNoData(band.data[i][j], band.noData)
    requires b < mean.Length2
    modifies mean, std
    ensures forall r, c :: 0 <= r < mean.Length0 && 0 <= c < mean.Length1 ==>
      mean[r, c, b] == NanMean(BandGroup(band, g0, g1, mean.Length0, mean.Length1, r, c)) &&
      std[r, c, b] == NanVariance(BandGroup(band, g0, g1, mean.Length0, mean.Length1, r, c))
    ensures forall r, c, b' :: 0 <= r < mean.Length0 && 0 <= c < mean.Length1 && 0 <= b' < mean.Length2 && b' != b ==>
      mean[r, c, b'] == old(mean[r, c, b']) && std[r, c, b'] == old(std[r, c, b'])
  {
    for r := 0 to mean.Length0
      invariant forall r', c :: 0 <= r' < r && 0 <= c < mean.Length1 ==>
        mean[r', c, b] == NanMean(BandGroup(band, g0, g1, mean.Length0, mean.Length1, r', c)) &&
        std[r', c, b] == NanVariance(BandGroup(band, g0, g1, mean.Length0, mean.Length1, r', c))
      invariant forall r', c, b' :: 0 <= r' < mean.Length0 && 0 <= c < mean.Length1 && 0 <= b' < mean.Length2 && b' != b ==>
        mean[r', c, b'] == old(mean[r', c, b']) && std[r', c, b'] == old(std[r', c, b'])
    {
      AggregateRow(data, band, g0, g1, mean, std, b, r);
    }
  }

  /** One row r of slice b: every low resolution pixel of the row gets its group's statistics. */
  method AggregateRow(data: array2<Sample>, ghost band: Band, g0: nat, g1: nat,
                      mean: array3<Sample>, std: array3<Sample>, b: nat, r: nat)
    requires g0 > 0 && g1 > 0 && mean != std
    requires std.Length0 == mean.Length0 && std.Length1 == mean.Length1 && std.Length2 == mean.Length2
    requires data.Length0 == g0 * mean.Length0 && data.Length1 == g1 * mean.Length1
    requires CoversWindow(band.data, g0 * mean.Length0, g1 * mean.Length1)
    requires forall i, j :: 0 <= i < data.Length0 && 0 <= j < data.Length1 ==>
      data[i, j] == MaskNoData(band.data[i][j], band.noData)
    requires b < mean.Length2 && r < mean.Length0
    modifies mean, std
    ensures forall c :: 0 <= c < mean.Length1 ==>
      mean[r, c, b] == NanMean(BandGroup(band, g0, g1, mean.Length0, mean.Length1, r, c)) &&
      std[r, c, b] == NanVariance(BandGroup(band, g0, g1, mean.Length0, mean.Length1, r, c))
    ensures forall r', c, b' :: 0 <= r' < mean.Length0 && 0 <= c < mean.Length1 && 0 <= b' < mean.Length2 && (r' != r || b' != b) ==>
      mean[r', c, b'] == old(mean[r', c, b']) && std[r', c, b'] == old(std[r', c, b'])
  {
    for c := 0 to mean.Length1
      invariant forall c' :: 0 <= c' < c ==>
        mean[r, c', b] == NanMean(BandGroup(band, g0, g1, mean.Length0, mean.Length1, r, c')) &&
        std[r, c', b] == NanVariance(BandGroup(band, g0, g1, mean.Length0, mean.Length1, r, c'))
      invariant forall r', c', b' :: 0 <= r' < mean.Length0 && 0 <= c' < mean.Length1 && 0 <= b' < mean.Length2 && (r' != r || b' != b || c' >= c) ==>
        mean[r', c', b'] == old(mean[r', c', b']) && std[r', c', b'] == old(std[r', c', b'])
    {
      var group := ArrayGroup(data, g0, g1, mean.Length0, mean.Length1, r, c);
      MaskedWindowGroups(data, band, g0, g1, mean.Length0, mean.Length1, r, c);
      mean[r, c, b] := NanMean(group);
      std[r, c, b] := NanVariance(group);
    }
  }

  /**
   * resampleHighResToLowRes: two fresh (ySizeLR, xSizeLR, bands) arrays
   * holding, for every low resolution pixel and band, the mean and the
   * variance of the valid samples of its group, missing when the group has
   * none.
   */
  method ResampleHighResToLowRes(gtHR: GeoTransform, gtLR: GeoTransform, xSizeLR: nat, ySizeLR: nat, bands: seq<Band>)
    returns (aggregatedMean: array3<Sample>, aggregatedStd: array3<Sample>)
    requires Invertible(gtHR)
    requires GroupHeight(gtHR, gtLR) > 0 && GroupWidth(gtHR, gtLR) > 0
    requires forall b :: 0 <= b < |bands| ==>
      CoversWindow(bands[b].data, GroupHeight(gtHR, gtLR) * ySizeLR, GroupWidth(gtHR, gtLR) * xSizeLR)
    ensures fresh(aggregatedMean) && fresh(aggregatedStd)
    ensures aggregatedMean.Length0 == ySizeLR && aggregatedMean.Length1 == xSizeLR && aggregatedMean.Length2 == |bands|
    ensures aggregatedStd.Length0 == ySizeLR && aggregatedStd.Length1 == xSizeLR && aggregatedStd.Length2 == |bands|
    ensures forall r, c, b :: 0 <= r < ySizeLR && 0 <= c < xSizeLR && 0 <= b < |bands| ==>
      aggregatedMean[r, c, b] == NanMean(BandGroup(bands[b], GroupHeight(gtHR, gtLR), GroupWidth(gtHR, gtLR), ySizeLR, xSizeLR, r, c)) &&
      aggregatedStd[r, c, b] == NanVariance(BandGroup(bands[b], GroupHeight(gtHR, gtLR), GroupWidth(gtHR, gtLR), ySizeLR, xSizeLR, r, c))
  {
    aggregatedMean := new Sample[ySizeLR, xSizeLR, |bands|]((r, c, b) => Valid(0.0));
    aggregatedStd := new Sample[ySizeLR, xSizeLR, |bands|]((r, c, b) => Valid(0.0));
    var g0, g1 := GroupHeight(gtHR, gtLR), GroupWidth(gtHR, gtLR);
    for b := 0 to |bands|
      invariant forall r, c, b' :: 0 <= r < ySizeLR && 0 <= c < xSizeLR && 0 <= b' < b ==>
        aggregatedMean[r, c, b'] == NanMean(BandGroup(bands[b'], g0, g1, ySizeLR, xSizeLR, r, c)) &&
        aggregatedStd[r, c, b'] == NanVariance(BandGroup(bands[b'], g0, g1, ySizeLR, xSizeLR, r, c))
    {
      var band := bands[b];
      var dataHR := ReadWindow(band, g0 * ySizeLR, g1 * xSizeLR);
      MaskNoDataInPlace(dataHR, band.noData);
      AggregateBand(dataHR, band, g0, g1, aggregatedMean, aggregatedStd, b);
    }
  }
}
