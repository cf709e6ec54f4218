/**
 * How the aligner feeds the aggregator: the low resolution scene that
 * reprojectSubsetLowResScene produces is read back by
 * resampleHighResToLowRes, which cuts the high resolution bands into blocks
 * of int(gt_LR[5] / gt_HR[5]) x int(gt_LR[1] / gt_HR[1]) pixels.
 */
module ScenePipeline {
  import opened Arithmetic
  import opened Rounding
  import opened CoordinateMapper
  import opened GridAligner
  import opened PixelGroupAggregator

  /**
   * The geotransform of the warped low resolution scene: its north-west
   * corner, pixels xRes wide and yRes high, north up.
   */
  function WarpedGeoTransform(g: LowResGrid): GeoTransform {
    GeoTransform(g.outputBounds.west, g.xRes, 0.0, g.outputBounds.north, 0.0, -g.yRes)
  }

  /**
   * One axis: a low resolution pixel res that is a whole number, at least
   * one, of high resolution pixels unit, and a low resolution count that
   * fits, give a group of exactly res / unit pixels whose window fits.
   */
  lemma AxisGroup(res: real, unit: real, sizeLR: int, sizeHR: nat)
    requires unit > 0.0 && IsWholeMultiple(res, unit) && res / unit >= 1.0
    requires 0 <= sizeLR && sizeLR as real * res <= sizeHR as real * unit
    ensures Trunc(res / unit) >= 1 && Trunc(res / unit) as real * unit == res
    ensures Trunc(res / unit) * sizeLR <= sizeHR
  {
    var q := res / unit;
    assert q * unit == res;
    var k := Trunc(q);
    assert sizeLR as real * res == (k * sizeLR) as real * unit;
    MulCancel(k * sizeLR, sizeHR, unit);
  }

  /** n u <= m u with u positive gives n <= m. */
  lemma MulCancel(n: int, m: int, u: real)
    requires u > 0.0 && n as real * u <= m as real * u
    ensures n <= m
  {
    if n > m {
      MulMonoStrict(m as real, n as real, u);
    }
  }

  /** The corrected aligner's pixel sizes are whole numbers, at least one, of the high resolution ones. */
  lemma CorrectedPixelSizes(gtHR: GeoTransform, xSizeHR: nat, ySizeHR: nat, gtLR: GeoTransform)
    requires gtHR.pixelWidth > 0.0 && gtHR.pixelHeight < 0.0 && gtLR.pixelWidth >= 0.0
    requires ReprojectSubsetLowResSceneCorrected(gtHR, xSizeHR, ySizeHR, gtLR).Ok?
    ensures var g := ReprojectSubsetLowResSceneCorrected(gtHR, xSizeHR, ySizeHR, gtLR).value;
      var yUnit := Abs(gtHR.pixelHeight);
      IsWholeMultiple(g.xRes, gtHR.pixelWidth) && g.xRes / gtHR.pixelWidth >= 1.0 &&
      IsWholeMultiple(g.yRes, yUnit) && g.yRes / yUnit >= 1.0
  {
    var yUnit := Abs(gtHR.pixelHeight);
    assert ReprojectSubsetLowResSceneCorrected(gtHR, xSizeHR, ySizeHR, gtLR) == AlignTo(gtHR, xSizeHR, ySizeHR, gtLR, yUnit);
    AlignedPixelSizes(gtHR, xSizeHR, ySizeHR, gtLR, yUnit);
  }

  /**
   * The corrected aligner's grid is contained in the high resolution
   * footprint: its pixel counts fit, one more would not, and its bounds lie
   * within the footprint.
   */
  lemma CorrectedCountsFit(gtHR: GeoTransform, xSizeHR: nat, ySizeHR: nat, gtLR: GeoTransform)
    requires gtHR.pixelWidth > 0.0 && gtHR.pixelHeight < 0.0 && gtLR.pixelWidth >= 0.0
    requires ReprojectSubsetLowResSceneCorrected(gtHR, xSizeHR, ySizeHR, gtLR).Ok?
    ensures ContainedIn(ReprojectSubsetLowResSceneCorrected(gtHR, xSizeHR, ySizeHR, gtLR).value, gtHR, xSizeHR, ySizeHR)
  {
    var yUnit := Abs(gtHR.pixelHeight);
    assert ReprojectSubsetLowResSceneCorrected(gtHR, xSizeHR, ySizeHR, gtLR) == AlignTo(gtHR, xSizeHR, ySizeHR, gtLR, yUnit);
    AlignedGridContained(gtHR, xSizeHR, ySizeHR, gtLR, yUnit);
  }

  /**
   * The aggregator's groups over the warped grid g are exact: g1 high
   * resolution columns make the low resolution width and g0 rows its height,
   * both at least one, and the read window of g0 ySize_LR rows by g1 xSize_LR
   * columns lies inside the high resolution raster.
   */
  predicate ExactGroups(gtHR: GeoTransform, xSizeHR: nat, ySizeHR: nat, g: LowResGrid)
    requires Invertible(gtHR)
  {
    var gtOut := WarpedGeoTransform(g);
    var g0, g1 := GroupHeight(gtHR, gtOut), GroupWidth(gtHR, gtOut);
    g0 >= 1 && g1 >= 1 &&
    g1 as real * gtHR.pixelWidth == g.xRes && g0 as real * -gtHR.pixelHeight == g.yRes &&
    g0 * g.ySize <= ySizeHR && g1 * g.xSize <= xSizeHR
  }

  /**
   * A low resolution grid whose pixel sizes are whole numbers, at least one,
   * of the north-up high resolution pixel sizes and whose pixel counts fit
   * in the high resolution footprint (what CorrectedPixelSizes and
   * CorrectedCountsFit establish for the corrected aligner) has exact pixel
   * groups.
   */
  lemma GridGroups(gtHR: GeoTransform, xSizeHR: nat, ySizeHR: nat, g: LowResGrid)
    requires gtHR.pixelWidth > 0.0 && gtHR.pixelHeight < 0.0
    requires IsWholeMultiple(g.xRes, gtHR.pixelWidth) && g.xRes / gtHR.pixelWidth >= 1.0
    requires IsWholeMultiple(g.yRes, Abs(gtHR.pixelHeight)) && g.yRes / Abs(gtHR.pixelHeight) >= 1.0
    requires 0 <= g.xSize && g.xSize as real * g.xRes <= xSizeHR as real * gtHR.pixelWidth
    requires 0 <= g.ySize && g.ySize as real * g.yRes <= ySizeHR as real * Abs(gtHR.pixelHeight)
    ensures ExactGroups(gtHR, xSizeHR, ySizeHR, g)
  {
    var yUnit := Abs(gtHR.pixelHeight);
    assert yUnit == -gtHR.pixelHeight;
    AxisGroup(g.xRes, gtHR.pixelWidth, g.xSize, xSizeHR);
    AxisGroup(g.yRes, yUnit, g.ySize, ySizeHR);
    assert -g.yRes / gtHR.pixelHeight == g.yRes / yUnit;
  }

  /**
   * The aligner feeds the aggregator exact groups: for a north-up high
   * resolution scene, a successful corrected alignment yields a low
   * resolution scene with exact groups.
   */
  lemma CorrectedAlignerGroups(gtHR: GeoTransform, xSizeHR: nat, ySizeHR: nat, gtLR: GeoTransform)
    requires gtHR.pixelWidth > 0.0 && gtHR.pixelHeight < 0.0 && gtLR.pixelWidth >= 0.0
    requires ReprojectSubsetLowResSceneCorrected(gtHR, xSizeHR, ySizeHR, gtLR).Ok?
    ensures ExactGroups(gtHR, xSizeHR, ySizeHR, ReprojectSubsetLowResSceneCorrected(gtHR, xSizeHR, ySizeHR, gtLR).value)
  {
    var g := ReprojectSubsetLowResSceneCorrected(gtHR, xSizeHR, ySizeHR, gtLR).value;
    CorrectedPixelSizes(gtHR, xSizeHR, ySizeHR, gtLR);
    CorrectedCountsFit(gtHR, xSizeHR, ySizeHR, gtLR);
    ContainedGridGroups(gtHR, xSizeHR, ySizeHR, g);
  }

  /** GridGroups for a grid contained in the high resolution footprint. */
  lemma ContainedGridGroups(gtHR: GeoTransform, xSizeHR: nat, ySizeHR: nat, g: LowResGrid)
    requires gtHR.pixelWidth > 0.0 && gtHR.pixelHeight < 0.0
    requires IsWholeMultiple(g.xRes, gtHR.pixelWidth) && g.xRes / gtHR.pixelWidth >= 1.0
    requires IsWholeMultiple(g.yRes, Abs(gtHR.pixelHeight)) && g.yRes / Abs(gtHR.pixelHeight) >= 1.0
    requires ContainedIn(g, gtHR, xSizeHR, ySizeHR)
    ensures ExactGroups(gtHR, xSizeHR, ySizeHR, g)
  {
    GridGroups(gtHR, xSizeHR, ySizeHR, g);
  }

  /**
   * The code as written with 10 by 20 high resolution pixels (its aligner
   * picks a 50 high pixel, NonSquarePixelsCounterexample): the aggregator
   * then groups int(2.5) = 2 rows, 40 of the 50 units the low resolution
   * pixel spans.
   */
  lemma NonSquareGroupRows(g: LowResGrid)
    requires g.yRes == 50.0
    ensures var gtHR := GeoTransform(0.0, 10.0, 0.0, 0.0, 0.0, -20.0);
      GroupHeight(gtHR, WarpedGeoTransform(g)) == 2 && 2.0 * 20.0 < g.yRes
  {
    assert -50.0 / -20.0 == 2.5;
    assert (2.5).Floor == 2;
  }

  /**
   * The code as written can leave the aggregator nothing to group: with 10
   * by 20 high resolution pixels and a discovered 30 by 12 low resolution
   * pixel, it rounds the y size against the width 10 to 10, and
   * int(-10 / -20) = 0 rows make a group. The corrected aligner picks 20,
   * one row.
   */
  lemma NonSquareEmptyGroups()
    ensures var gtHR := GeoTransform(0.0, 10.0, 0.0, 0.0, 0.0, -20.0);
      var gtLR := GeoTransform(0.0, 30.0, 0.0, 0.0, 0.0, -12.0);
      var asWritten := ReprojectSubsetLowResScene(gtHR, 6, 6, gtLR);
      var corrected := ReprojectSubsetLowResSceneCorrected(gtHR, 6, 6, gtLR);
      asWritten.Ok? && asWritten.value.yRes == 10.0 &&
      GroupHeight(gtHR, WarpedGeoTransform(asWritten.value)) == 0 &&
      corrected.Ok? && corrected.value.yRes == 20.0 &&
      GroupHeight(gtHR, WarpedGeoTransform(corrected.value)) == 1
  {
    UnitsNearestUnique(30.0, 10.0, 3);
    UnitsNearestUnique(12.0, 10.0, 1);
    UnitsNearestUnique(12.0, 20.0, 1);
    assert AlignedResolution(30.0, 10.0) == 30.0;
    assert AlignedResolution(12.0, 10.0) == 10.0;
    assert AlignedResolution(12.0, 20.0) == 20.0;
    assert -10.0 / -20.0 == 0.5;
    assert (0.5).Floor == 0;
    assert -20.0 / -20.0 == 1.0;
    assert (1.0).Floor == 1;
  }
}
