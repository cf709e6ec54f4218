/**
 * The Grid Aligner arithmetic of reprojectSubsetLowResScene: from the
 * high-resolution geotransform and size, and the geotransform the first
 * (nearest-neighbour) warp discovered for the low-resolution scene, choose
 * low-resolution pixel sizes that are whole multiples of the high-resolution
 * pixel, a pixel count that fits inside the high-resolution footprint, and
 * the output bounds of the second warp. Both warps are external.
 */
module GridAligner {
  import opened Wrappers
  import opened Arithmetic
  import opened Rounding
  import opened CoordinateMapper
  import opened RasterInfo

  /** Python raises ZeroDivisionError when a pixel size it divides by is zero. */
  datatype AlignError = ZeroDivisionError

  /** The grid the second warp is asked to produce. */
  datatype LowResGrid = LowResGrid(
    xRes: real,           // pixSize_LR[0]
    yRes: real,           // pixSize_LR[1]
    xSize: int,           // xsize_LR
    ySize: int,           // ysize_LR
    outputBounds: Extent  // [UL[0], BR[1], BR[0], UL[1]]
  )

  /**
   * The number of whole units nearest to size: round(size / unit), the even
   * one when size / unit lies half way between two integers.
   */
  function UnitsNearest(size: real, unit: real): (k: int)
    requires unit != 0.0
    ensures k as real - 0.5 <= size / unit <= k as real + 0.5
    ensures (size / unit == k as real - 0.5 || size / unit == k as real + 0.5) ==> k % 2 == 0
  {
    RoundHalfEven(size / unit)
  }

  /** UnitsNearest's two properties single out its result. */
  lemma UnitsNearestUnique(size: real, unit: real, k: int)
    requires unit != 0.0
    requires k as real - 0.5 <= size / unit <= k as real + 0.5
    requires (size / unit == k as real - 0.5 || size / unit == k as real + 0.5) ==> k % 2 == 0
    ensures UnitsNearest(size, unit) == k
  {
    RoundHalfEvenUnique(size / unit, k);
  }

  /**
   * round(size / unit) * unit: the whole multiple of the unit nearest to size
   * (lines 185-186), the even multiple when size lies half way between two.
   * It is zero exactly when size is at most half a unit.
   */
  function AlignedResolution(size: real, unit: real): (res: real)
    requires unit != 0.0
    ensures IsWholeMultiple(res, unit)
    ensures Abs(res - size) <= Abs(unit) / 2.0
    ensures Abs(res - size) == Abs(unit) / 2.0 ==> (res / unit).Floor % 2 == 0
    ensures res == 0.0 <==> Abs(size) <= Abs(unit) / 2.0
    ensures unit > 0.0 && size >= 0.0 && res != 0.0 ==> res / unit >= 1.0 && res > 0.0
  {
    var k := UnitsNearest(size, unit);
    var q := size / unit;
    DivMul(size, unit);
    MultipleRatio(k, unit, k as real * unit);
    NearWithinHalf(size, unit, q, k);
    NearZeroIff(size, unit, q, k);
    NearPositive(size, unit, q, k);
    k as real * unit
  }

  /**
   * int(extent / res): the number of whole pixels of size res that fit in a
   * non-negative extent (lines 192-193); one more would not fit.
   */
  function FittingCount(extent: real, res: real): (n: int)
    requires res != 0.0
    ensures res > 0.0 && extent >= 0.0 ==>
      0 <= n && 0.0 <= n as real * res <= extent < (n + 1) as real * res
  {
    var n := Trunc(extent / res);
    if res > 0.0 && extent >= 0.0 then
      TruncFits(extent, res);
      n
    else
      n
  }

  /**
   * The grid of whole low-resolution pixels of size resX by resY anchored at
   * the high-resolution upper-left corner (lines 191-194).
   */
  function GridFrom(gtHR: GeoTransform, xSizeHR: int, ySizeHR: int, resX: real, resY: real): LowResGrid
    requires resX != 0.0 && resY != 0.0
  {
    var xSize := FittingCount(xSizeHR as real * gtHR.pixelWidth, resX);
    var ySize := FittingCount(ySizeHR as real * Abs(gtHR.pixelHeight), resY);
    LowResGrid(resX, resY, xSize, ySize,
               Extent(gtHR.originX, gtHR.originY - ySize as real * resY,
                      gtHR.originX + xSize as real * resX, gtHR.originY))
  }

  /**
   * The aligner, with the high-resolution unit that the y pixel size is
   * rounded against given as yUnit.
   */
  function AlignTo(gtHR: GeoTransform, xSizeHR: int, ySizeHR: int, gtLR: GeoTransform, yUnit: real)
    : Result<LowResGrid, AlignError>
  {
    var pixX := gtHR.pixelWidth;
    if pixX == 0.0 || yUnit == 0.0 then Err(ZeroDivisionError)
    else
      var resX := AlignedResolution(gtLR.pixelWidth, pixX);
      var resY := AlignedResolution(Abs(gtLR.pixelHeight), yUnit);
      if resX == 0.0 || resY == 0.0 then Err(ZeroDivisionError)
      else Ok(GridFrom(gtHR, xSizeHR, ySizeHR, resX, resY))
  }

  /** round(size / unit) is zero exactly when size is at most half a unit. */
  lemma UnitsNearestZeroIff(size: real, unit: real)
    requires unit != 0.0
    ensures UnitsNearest(size, unit) == 0 <==> Abs(size) <= Abs(unit) / 2.0
  {
    var q := size / unit;
    DivMul(size, unit);
    NearestZeroIff(q, UnitsNearest(size, unit));
    HalfUnitScaled(q, unit, size);
  }

  /** A ratio q rounded to k with ties to even: k is zero exactly when q lies in [-1/2, 1/2]. */
  lemma NearestZeroIff(q: real, k: int)
    requires k as real - 0.5 <= q <= k as real + 0.5
    requires (q == k as real - 0.5 || q == k as real + 0.5) ==> k % 2 == 0
    ensures k == 0 <==> -0.5 <= q <= 0.5
  {
  }

  /**
   * For p = q u with u non-zero: |p| is at most half of |u| exactly when
   * |q| is at most one half, and exactly half of it when |q| is one half.
   */
  lemma HalfUnitScaled(q: real, u: real, p: real)
    requires u != 0.0 && p == q * u
    ensures -0.5 <= q <= 0.5 <==> Abs(p) <= Abs(u) / 2.0
    ensures q == -0.5 || q == 0.5 <==> Abs(p) == Abs(u) / 2.0
  {
    AbsMul(q, u, p);
    ScaledHalf(Abs(p), Abs(q), Abs(u));
  }

  /** |p| = |x| |y| for p = x y. */
  lemma AbsMul(x: real, y: real, p: real)
    requires p == x * y
    ensures Abs(p) == Abs(x) * Abs(y)
  {
    if x < 0.0 && y < 0.0 {
      assert p == (-x) * (-y);
    } else if x < 0.0 {
      assert -p == (-x) * y;
    } else if y < 0.0 {
      assert -p == x * (-y);
    }
  }

  /** For p = a u with u positive, p compares with u / 2 as a compares with 1/2. */
  lemma ScaledHalf(p: real, a: real, u: real)
    requires u > 0.0 && p == a * u
    ensures a <= 0.5 <==> p <= u / 2.0
    ensures a == 0.5 <==> p == u / 2.0
  {
    assert u / 2.0 == 0.5 * u;
    if a < 0.5 {
      MulMonoStrict(a, 0.5, u);
    } else if a > 0.5 {
      MulMonoStrict(0.5, a, u);
    }
  }

  /**
   * k units, for k the rounded ratio q = size / unit, lie within half a unit
   * of size, and exactly half a unit away only on a tie, where k is even.
   */
  lemma NearWithinHalf(size: real, unit: real, q: real, k: int)
    requires unit != 0.0 && q * unit == size
    requires k as real - 0.5 <= q <= k as real + 0.5
    requires (q == k as real - 0.5 || q == k as real + 0.5) ==> k % 2 == 0
    ensures Abs(k as real * unit - size) <= Abs(unit) / 2.0
    ensures Abs(k as real * unit - size) == Abs(unit) / 2.0 ==> k % 2 == 0
  {
    var d := k as real - q;
    assert k as real * unit - size == d * unit;
    HalfUnitScaled(d, unit, k as real * unit - size);
  }

  /** k units, for k the rounded ratio q = size / unit, are zero exactly when size is at most half a unit. */
  lemma NearZeroIff(size: real, unit: real, q: real, k: int)
    requires unit != 0.0 && q * unit == size
    requires k as real - 0.5 <= q <= k as real + 0.5
    requires (q == k as real - 0.5 || q == k as real + 0.5) ==> k % 2 == 0
    ensures k as real * unit == 0.0 <==> Abs(size) <= Abs(unit) / 2.0
  {
    NearestZeroIff(q, k);
    HalfUnitScaled(q, unit, size);
    if k != 0 {
      MultipleRatio(k, unit, k as real * unit);
    }
  }

  /** A non-negative size rounded to a non-zero number k of positive units: k is at least one. */
  lemma NearPositive(size: real, unit: real, q: real, k: int)
    requires q * unit == size && q <= k as real + 0.5
    ensures unit > 0.0 && size >= 0.0 && k != 0 ==> k >= 1 && k as real * unit > 0.0
  {
    if unit > 0.0 && size >= 0.0 && k != 0 {
      if q < 0.0 {
        MulMonoStrict(q, 0.0, unit);
      }
      MulMonoStrict(0.0, k as real, unit);
    }
  }

  /**
   * AlignTo fails exactly when a high-resolution unit is zero or a discovered
   * low-resolution pixel is at most half a high-resolution unit, so that its
   * rounded size is zero.
   */
  lemma AlignFailsIff(gtHR: GeoTransform, xSizeHR: int, ySizeHR: int, gtLR: GeoTransform, yUnit: real)
    ensures AlignTo(gtHR, xSizeHR, ySizeHR, gtLR, yUnit).Err? <==>
      gtHR.pixelWidth == 0.0 || yUnit == 0.0 ||
      Abs(gtLR.pixelWidth) <= Abs(gtHR.pixelWidth) / 2.0 ||
      Abs(gtLR.pixelHeight) <= Abs(yUnit) / 2.0
  {
  }

  lemma IntegralInt(k: int)
    ensures IsIntegral(k as real)
  {
  }

  /** k units make a whole multiple of the unit. */
  lemma MultipleRatio(k: int, unit: real, res: real)
    requires unit != 0.0 && res == k as real * unit
    ensures res / unit == k as real
    ensures IsWholeMultiple(res, unit)
  {
    assert res / unit == k as real;
    IntegralInt(k);
  }

  /**
   * Each chosen pixel size is a whole, non-zero number of units (pixelWidth of the
   * high-resolution grid for x, yUnit for y), the nearest such multiple to the
   * discovered size, and at least one unit when sizes and units are positive.
   */
  lemma AlignedPixelSizes(gtHR: GeoTransform, xSizeHR: int, ySizeHR: int, gtLR: GeoTransform, yUnit: real)
    requires AlignTo(gtHR, xSizeHR, ySizeHR, gtLR, yUnit).Ok?
    ensures var g := AlignTo(gtHR, xSizeHR, ySizeHR, gtLR, yUnit).value;
      gtHR.pixelWidth != 0.0 && yUnit != 0.0 &&
      IsWholeMultiple(g.xRes, gtHR.pixelWidth) && g.xRes != 0.0 &&
      IsWholeMultiple(g.yRes, yUnit) && g.yRes != 0.0 &&
      Abs(g.xRes - gtLR.pixelWidth) <= Abs(gtHR.pixelWidth) / 2.0 &&
      Abs(g.yRes - Abs(gtLR.pixelHeight)) <= Abs(yUnit) / 2.0 &&
      (gtHR.pixelWidth > 0.0 && gtLR.pixelWidth >= 0.0 ==> g.xRes / gtHR.pixelWidth >= 1.0 && g.xRes > 0.0) &&
      (yUnit > 0.0 ==> g.yRes / yUnit >= 1.0 && g.yRes > 0.0)
  {
  }

  /**
   * The grid holds as many whole pixels of its size as fit in the footprint
   * of the north-up high-resolution raster and no more, and its bounds share
   * the footprint's north-west corner and lie within it.
   */
  predicate ContainedIn(g: LowResGrid, gtHR: GeoTransform, xSizeHR: nat, ySizeHR: nat) {
    var hr := GetExtent(gtHR, xSizeHR, ySizeHR);
    0 <= g.xSize && 0 <= g.ySize &&
    g.xSize as real * g.xRes <= xSizeHR as real * gtHR.pixelWidth < (g.xSize + 1) as real * g.xRes &&
    g.ySize as real * g.yRes <= ySizeHR as real * Abs(gtHR.pixelHeight) < (g.ySize + 1) as real * g.yRes &&
    g.outputBounds.west == hr.west && g.outputBounds.north == hr.north &&
    hr.west <= g.outputBounds.east <= hr.east &&
    hr.south <= g.outputBounds.south <= hr.north
  }

  /** For a north-up high-resolution grid and positive low-resolution pixel sizes, GridFrom is contained in the footprint. */
  lemma GridFromContained(gtHR: GeoTransform, xSizeHR: nat, ySizeHR: nat, resX: real, resY: real)
    requires gtHR.pixelWidth > 0.0 && gtHR.pixelHeight < 0.0
    requires resX > 0.0 && resY > 0.0
    ensures ContainedIn(GridFrom(gtHR, xSizeHR, ySizeHR, resX, resY), gtHR, xSizeHR, ySizeHR)
  {
    AxisContained(xSizeHR, gtHR.pixelWidth, resX);
    AxisContained(ySizeHR, Abs(gtHR.pixelHeight), resY);
    FootprintNorthUp(gtHR, xSizeHR, ySizeHR);
  }

  /** The footprint's corners, with the cell counts written first as in GridFrom. */
  lemma FootprintNorthUp(gt: GeoTransform, sizeX: nat, sizeY: nat)
    requires gt.pixelHeight < 0.0
    ensures GetExtent(gt, sizeX, sizeY) ==
      Extent(gt.originX, gt.originY - sizeY as real * Abs(gt.pixelHeight),
             gt.originX + sizeX as real * gt.pixelWidth, gt.originY)
  {
  }

  /** Whole pixels of size res fitting in cells pixels of size pix > 0: they cover a non-negative length within the axis. */
  lemma AxisContained(cells: nat, pix: real, res: real)
    requires pix > 0.0 && res > 0.0
    ensures var n := FittingCount(cells as real * pix, res);
      0 <= n && 0.0 <= n as real * res <= cells as real * pix < (n + 1) as real * res
  {
    MulMono(0.0, cells as real, pix);
  }

  /**
   * For a north-up high-resolution grid and a discovered low-resolution pixel
   * width that is not negative, a successful alignment has positive pixel
   * sizes and is contained in the high-resolution footprint.
   */
  lemma AlignedGridContained(gtHR: GeoTransform, xSizeHR: nat, ySizeHR: nat, gtLR: GeoTransform, yUnit: real)
    requires gtHR.pixelWidth > 0.0 && gtHR.pixelHeight < 0.0 && yUnit > 0.0
    requires gtLR.pixelWidth >= 0.0
    requires AlignTo(gtHR, xSizeHR, ySizeHR, gtLR, yUnit).Ok?
    ensures var g := AlignTo(gtHR, xSizeHR, ySizeHR, gtLR, yUnit).value;
      g.xRes > 0.0 && g.yRes > 0.0 && ContainedIn(g, gtHR, xSizeHR, ySizeHR)
  {
    var resX, resY := AlignToGrid(gtHR, xSizeHR, ySizeHR, gtLR, yUnit);
    GridFromContained(gtHR, xSizeHR, ySizeHR, resX, resY);
  }

  /** A successful north-up alignment is the grid of two positive pixel sizes. */
  lemma AlignToGrid(gtHR: GeoTransform, xSizeHR: nat, ySizeHR: nat, gtLR: GeoTransform, yUnit: real)
    returns (resX: real, resY: real)
    requires gtHR.pixelWidth > 0.0 && yUnit > 0.0 && gtLR.pixelWidth >= 0.0
    requires AlignTo(gtHR, xSizeHR, ySizeHR, gtLR, yUnit).Ok?
    ensures resX > 0.0 && resY > 0.0
    ensures AlignTo(gtHR, xSizeHR, ySizeHR, gtLR, yUnit) == Ok(GridFrom(gtHR, xSizeHR, ySizeHR, resX, resY))
  {
    resX := AlignedResolution(gtLR.pixelWidth, gtHR.pixelWidth);
    resY := AlignedResolution(Abs(gtLR.pixelHeight), yUnit);
  }

  /**
   * reprojectSubsetLowResScene as written (lines 183-194): both low-resolution
   * pixel sizes are rounded to multiples of the high-resolution pixel width,
   * pixSize_HR[0], the y size included. It raises ZeroDivisionError when that
   * width is zero or when a discovered pixel is at most half of it.
   */
  function ReprojectSubsetLowResScene(gtHR: GeoTransform, xSizeHR: int, ySizeHR: int, gtLR: GeoTransform)
    : (r: Result<LowResGrid, AlignError>)
    ensures r.Err? <==>
      gtHR.pixelWidth == 0.0 ||
      Abs(gtLR.pixelWidth) <= Abs(gtHR.pixelWidth) / 2.0 ||
      Abs(gtLR.pixelHeight) <= Abs(gtHR.pixelWidth) / 2.0
    ensures r.Ok? ==>
      IsWholeMultiple(r.value.xRes, gtHR.pixelWidth) &&
      IsWholeMultiple(r.value.yRes, gtHR.pixelWidth) &&
      Abs(r.value.xRes - gtLR.pixelWidth) <= Abs(gtHR.pixelWidth) / 2.0 &&
      Abs(r.value.yRes - Abs(gtLR.pixelHeight)) <= Abs(gtHR.pixelWidth) / 2.0
  {
    var r := AlignTo(gtHR, xSizeHR, ySizeHR, gtLR, gtHR.pixelWidth);
    AlignFailsIff(gtHR, xSizeHR, ySizeHR, gtLR, gtHR.pixelWidth);
    if r.Ok? then
      AlignedPixelSizes(gtHR, xSizeHR, ySizeHR, gtLR, gtHR.pixelWidth);
      r
    else
      r
  }

  /**
   * The code as written also stays inside the high resolution footprint: for a
   * north-up scene, a successful alignment has positive pixel sizes, its
   * pixel counts fit and one more would not, and its bounds lie within the
   * footprint.
   */
  lemma ReprojectSubsetContained(gtHR: GeoTransform, xSizeHR: nat, ySizeHR: nat, gtLR: GeoTransform)
    requires gtHR.pixelWidth > 0.0 && gtHR.pixelHeight < 0.0 && gtLR.pixelWidth >= 0.0
    requires ReprojectSubsetLowResScene(gtHR, xSizeHR, ySizeHR, gtLR).Ok?
    ensures var g := ReprojectSubsetLowResScene(gtHR, xSizeHR, ySizeHR, gtLR).value;
      g.xRes > 0.0 && g.yRes > 0.0 && ContainedIn(g, gtHR, xSizeHR, ySizeHR)
  {
    assert ReprojectSubsetLowResScene(gtHR, xSizeHR, ySizeHR, gtLR) == AlignTo(gtHR, xSizeHR, ySizeHR, gtLR, gtHR.pixelWidth);
    AlignedGridContained(gtHR, xSizeHR, ySizeHR, gtLR, gtHR.pixelWidth);
  }

  /**
   * The evidently intended aligner: each axis is rounded against its own
   * high-resolution pixel size, so the y size is a whole multiple of
   * |gt_HR[5]|.
   */
  function ReprojectSubsetLowResSceneCorrected(gtHR: GeoTransform, xSizeHR: int, ySizeHR: int, gtLR: GeoTransform)
    : (r: Result<LowResGrid, AlignError>)
    ensures r.Err? <==>
      gtHR.pixelWidth == 0.0 || gtHR.pixelHeight == 0.0 ||
      Abs(gtLR.pixelWidth) <= Abs(gtHR.pixelWidth) / 2.0 ||
      Abs(gtLR.pixelHeight) <= Abs(gtHR.pixelHeight) / 2.0
    ensures r.Ok? ==>
      IsWholeMultiple(r.value.xRes, gtHR.pixelWidth) &&
      IsWholeMultiple(r.value.yRes, Abs(gtHR.pixelHeight)) &&
      Abs(r.value.xRes - gtLR.pixelWidth) <= Abs(gtHR.pixelWidth) / 2.0 &&
      Abs(r.value.yRes - Abs(gtLR.pixelHeight)) <= Abs(gtHR.pixelHeight) / 2.0
  {
    var yUnit := Abs(gtHR.pixelHeight);
    var r := AlignTo(gtHR, xSizeHR, ySizeHR, gtLR, yUnit);
    AlignFailsIff(gtHR, xSizeHR, ySizeHR, gtLR, yUnit);
    if r.Ok? then
      AlignedPixelSizes(gtHR, xSizeHR, ySizeHR, gtLR, yUnit);
      r
    else
      r
  }

  /** For square high-resolution pixels the code as written and the corrected aligner agree. */
  lemma SquarePixelsAgree(gtHR: GeoTransform, xSizeHR: int, ySizeHR: int, gtLR: GeoTransform)
    requires gtHR.pixelWidth == Abs(gtHR.pixelHeight)
    ensures ReprojectSubsetLowResScene(gtHR, xSizeHR, ySizeHR, gtLR) ==
            ReprojectSubsetLowResSceneCorrected(gtHR, xSizeHR, ySizeHR, gtLR)
  {
  }

  /**
   * With 10 by 20 high-resolution pixels and a discovered 30 by 50
   * low-resolution pixel, the code as written picks a y pixel size of 50,
   * two and a half high-resolution rows; the corrected aligner picks 40
   * (round(2.5) is 2), exactly two rows.
   */
  lemma NonSquarePixelsCounterexample()
    ensures var gtHR := GeoTransform(0.0, 10.0, 0.0, 0.0, 0.0, -20.0);
      var gtLR := GeoTransform(0.0, 30.0, 0.0, 0.0, 0.0, -50.0);
      var asWritten := ReprojectSubsetLowResScene(gtHR, 6, 6, gtLR);
      var corrected := ReprojectSubsetLowResSceneCorrected(gtHR, 6, 6, gtLR);
      asWritten.Ok? && asWritten.value.yRes == 50.0 && !IsWholeMultiple(asWritten.value.yRes, 20.0) &&
      corrected.Ok? && corrected.value.yRes == 40.0 && IsWholeMultiple(corrected.value.yRes, 20.0)
  {
    UnitsNearestUnique(30.0, 10.0, 3);
    UnitsNearestUnique(50.0, 10.0, 5);
    UnitsNearestUnique(50.0, 20.0, 2);
    assert (2.5).Floor == 2;
    assert (2.0).Floor == 2;
  }
}
