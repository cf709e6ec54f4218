# pyDMS grid utilities in Dafny

This project models the pixel-grid logic of `pyDMS/pyDMS/pyDMSUtils.py`.
That logic sits between the GDAL calls of pyDMS's data-mining sharpener. The model covers:

- **Coordinate mapper** (`point2pix`, `pix2point`). The axis-aligned affine map between projected coordinates and pixel indices. The lower bound floors and the upper bound ceils (module `CoordinateMapper`, with Python's `floor`, `ceil`, `int()` and `round()` in `Rounding`).
- **Extent** (the formula in `getRasterInfo`). The `[west, south, east, north]` box of a raster (module `RasterInfo`).
- **Grid aligner** (the arithmetic of `reprojectSubsetLowResScene`). It chooses low resolution pixel sizes that are whole multiples of the high resolution pixel. It chooses pixel counts that fit the high resolution footprint, and the output bounds of the second warp (module `GridAligner`). The geotransform that the first warp discovers is an input.
- **Pixel-group aggregator** (`resampleHighResToLowRes`). It reads a window of each high resolution band and masks its no-data samples in place. It cuts the window into blocks of `g0 x g1` pixels and writes the mean and the spread of each block's valid samples, band by band, into two preallocated `(rows, columns, bands)` arrays. These are modules `Samples`, `NanStats` and `PixelGroupAggregator`. Module `ScenePipeline` relates the aligner's output grid to the groups the aggregator forms.
- **Binomial smoother** (`binomialSmoother` and its `filterFunction`). A 3 x 3 weighted mean over the valid samples of each window. A missing centre passes through unchanged (module `SpatialSmoother`).
- **`appendNpArray`**. Concatenation onto an accumulator that may not exist yet (module `ArrayAppend`).

Samples are `Valid(value)` or `Missing` (NaN). Numbers are exact `real`s. Module `Arithmetic` holds `math.fabs` and the facts about products and quotients that these modules share.

The aggregation loops and the smoother's loops are methods with loop invariants. The aggregation loops and the smoother's outer loops work on arrays. `FilterFunction`'s accumulation loop works on the footprint, a sequence of nine samples. Each method is proved against a specification function:

- `NanMean` and `NanVariance` of a `BandGroup`
- `FilterValue` of a `Window`

The properties of these functions are proved as lemmas beside them.

## Model

| member | source | states |
|---|---|---|
| Rounding.Floor | pyDMS/pyDMS/pyDMSUtils.py:62-63 | math.floor returns the integer r with r <= x < r + 1 |
| Rounding.Ceil | pyDMS/pyDMS/pyDMSUtils.py:65-66 | math.ceil returns the integer r with r - 1 < x <= r |
| Rounding.Trunc | pyDMS/pyDMS/pyDMSUtils.py:192-193 | int() rounds toward zero: the floor for x >= 0 and the ceiling for x < 0 |
| Rounding.RoundHalfEven | pyDMS/pyDMS/pyDMSUtils.py:185-186 | round() returns an integer within one half of x, and the even one on a tie |
| Rounding.RoundHalfEvenUnique | pyDMS/pyDMS/pyDMSUtils.py:185-186 | any integer with those two properties is round(x), so the contract determines the result |
| Rounding.RoundHalfEvenZeroIff | pyDMS/pyDMS/pyDMSUtils.py:185-186 | round(x) is 0 exactly when -1/2 <= x <= 1/2 (the ties round to the even 0) |
| Rounding.RoundHalfEvenIntegral | pyDMS/pyDMS/pyDMSUtils.py:185-186 | rounding an integral value returns it |
| CoordinateMapper.Point2Pix | pyDMS/pyDMS/pyDMSUtils.py:58-67 | the lower bound floors both offsets (col <= (x - gt0)/gt1 < col + 1, same for rows); the upper bound ceils them |
| CoordinateMapper.Pix2Point | pyDMS/pyDMS/pyDMSUtils.py:70-75 | the returned point's offsets from the origin, in pixel sizes, are exactly the pixel's indices |
| CoordinateMapper.RoundTrip | pyDMS/pyDMS/pyDMSUtils.py:58-75 | point2pix(pix2point(p)) == p for both upperBound values, when gt1 and gt5 are non-zero |
| CoordinateMapper.BoundsOrdered | pyDMS/pyDMS/pyDMSUtils.py:61-66 | per axis, lower <= upper <= lower + 1, and lower == upper exactly when the offset is a whole number |
| RasterInfo.GetExtent | pyDMS/pyDMS/pyDMSUtils.py:33 | the north-west corner of the extent is pix2point of pixel (0, 0), and the south-east corner is pix2point of pixel (sizeX, sizeY) |
| RasterInfo.ExtentOrdered | pyDMS/pyDMS/pyDMSUtils.py:33 | a north-up raster (gt1 > 0, gt5 < 0) of positive size has west < east and south < north |
| RasterInfo.ExtentCorners | pyDMS/pyDMS/pyDMSUtils.py:33 | point2pix maps the extent's corners back to pixels (0, 0) and (sizeX, sizeY) |
| Arithmetic.Abs | pyDMS/pyDMS/pyDMSUtils.py:184 | math.fabs is non-negative and equals x or -x |
| GridAligner.UnitsNearest | pyDMS/pyDMS/pyDMSUtils.py:185-186 | k = round(size / unit) lies within one half of size / unit, and k is even when size / unit is half way between two integers |
| GridAligner.UnitsNearestUnique | pyDMS/pyDMS/pyDMSUtils.py:185-186 | any integer with those two properties is round(size / unit), so the contract determines the result |
| GridAligner.UnitsNearestZeroIff | pyDMS/pyDMS/pyDMSUtils.py:185-186 | round(size / unit) is 0 exactly when abs(size) <= abs(unit) / 2 |
| GridAligner.AlignedResolution | pyDMS/pyDMS/pyDMSUtils.py:185-186 | round(size/unit)*unit is a whole multiple of unit within half a unit of size; exactly half a unit away, it is an even multiple; it is zero exactly when abs(size) <= abs(unit)/2, and otherwise it is at least one unit |
| GridAligner.FittingCount | pyDMS/pyDMS/pyDMSUtils.py:192-193 | int(extent / res) counts the pixels that fit: n res <= extent < (n + 1) res |
| GridAligner.GridFrom | pyDMS/pyDMS/pyDMSUtils.py:191-194 | (definition) the grid of resX x resY pixels with counts int(xsize_HR gt_HR[1] / resX) and int(ysize_HR abs(gt_HR[5]) / resY), and bounds [UL x, UL y - ySize resY, UL x + xSize resX, UL y]; GridFromContained states its containment |
| GridAligner.AlignTo | pyDMS/pyDMS/pyDMSUtils.py:184-193 | (definition) the aligner with the unit of the y size as a parameter: ZeroDivisionError on a zero unit or a rounded size of zero, otherwise GridFrom of the two aligned sizes; AlignFailsIff, AlignedPixelSizes and AlignedGridContained state its properties |
| GridAligner.AlignFailsIff | pyDMS/pyDMS/pyDMSUtils.py:185-193 | the aligner raises ZeroDivisionError exactly when a unit is zero or a discovered pixel size is at most half a unit |
| GridAligner.AlignedPixelSizes | pyDMS/pyDMS/pyDMSUtils.py:184-186 | both chosen pixel sizes are non-zero whole multiples of their unit, are the nearest such multiples, and are at least one unit |
| GridAligner.GridFromContained | pyDMS/pyDMS/pyDMSUtils.py:190-194 | the chosen counts fit the high resolution footprint and one more pixel would not; the bounds share its north-west corner and lie within it |
| GridAligner.AlignedGridContained | pyDMS/pyDMS/pyDMSUtils.py:184-194 | a successful alignment of a north-up raster has positive pixel sizes, and its grid fits the high resolution footprint as above |
| GridAligner.ReprojectSubsetLowResScene | pyDMS/pyDMS/pyDMSUtils.py:183-194 | as written: it fails exactly on a zero gt_HR[1] or a discovered size of at most half of it; on success both sizes are multiples of gt_HR[1], each nearest its discovered size |
| GridAligner.ReprojectSubsetContained | pyDMS/pyDMS/pyDMSUtils.py:183-194 | as written, a successful alignment of a north-up raster still has positive pixel sizes, counts that fit the high resolution footprint with one more pixel not fitting, and bounds within the footprint |
| GridAligner.ReprojectSubsetLowResSceneCorrected | pyDMS/pyDMS/pyDMSUtils.py:183-194 | with the y size rounded against abs(gt_HR[5]): it fails exactly on a zero unit or a discovered size of at most half its unit; on success each size is a multiple of its own axis's unit |
| GridAligner.SquarePixelsAgree | pyDMS/pyDMS/pyDMSUtils.py:184-186 | for square high resolution pixels the code as written and the corrected aligner give the same result |
| GridAligner.NonSquarePixelsCounterexample | pyDMS/pyDMS/pyDMSUtils.py:186 | 10 x 20 high resolution pixels and a discovered 30 x 50 pixel give yRes 50 as written (not a multiple of 20) and 40 corrected |
| Samples.MaskNoData | pyDMS/pyDMS/pyDMSUtils.py:229-230 | a sample becomes missing exactly when it is missing or equals the no-data value; otherwise it is unchanged |
| Samples.ValidValues | pyDMS/pyDMS/pyDMSUtils.py:233-234 | the NaN filter inside nanmean and nanstd: the values of the valid samples, in order, no more of them than samples; ValidValuesConcat and ValidValuesSingle characterise it |
| Samples.MaskAll | pyDMS/pyDMS/pyDMSUtils.py:229-230 | (definition) line 230 applied to a run of values: each value masked against the no-data value |
| Samples.ValidValuesMembers | pyDMS/pyDMS/pyDMSUtils.py:233-234 | the values nanmean and nanstd see are exactly those of the valid samples |
| Samples.ValidValuesConcat | pyDMS/pyDMS/pyDMSUtils.py:233-234 | the valid values of a concatenation are those of each part in order; with ValidValuesSingle this fixes each value's multiplicity and position |
| Samples.ValidValuesSingle | pyDMS/pyDMS/pyDMSUtils.py:233-234 | a valid sample contributes its value once, and a missing one contributes nothing |
| Samples.MaskAllConcat | pyDMS/pyDMS/pyDMSUtils.py:229-230 | masking a run of values masks each part of it separately |
| Samples.ValidValuesUnmasked | pyDMS/pyDMS/pyDMSUtils.py:229-234 | values none of which is the no-data value all stay valid, in order |
| NanStats.NanMeanMissingIff | pyDMS/pyDMS/pyDMSUtils.py:233-234 | the mean, and the spread with it, is NaN exactly when every sample of the group is missing |
| NanStats.NanMean | pyDMS/pyDMS/pyDMSUtils.py:233 | (definition) np.nanmean: the sum of the valid values over their count, NaN when there is none; MeanBounds, NanMeanMissingIff and MaskOneNoData state its properties |
| NanStats.NanVariance | pyDMS/pyDMS/pyDMSUtils.py:234 | (definition) np.nanstd squared: the mean squared deviation of the valid values from their mean, NaN when there is none; VarianceNonNegative and ConstantGroup state its properties |
| NanStats.MeanBounds | pyDMS/pyDMS/pyDMSUtils.py:233 | the mean lies between any bounds of the valid samples |
| NanStats.SumSquaresZeroIff | pyDMS/pyDMS/pyDMSUtils.py:234 | the sum of squared deviations from m is >= 0, and it is 0 exactly when every value equals m |
| NanStats.VarianceNonNegative | pyDMS/pyDMS/pyDMSUtils.py:234 | the population variance (nanstd squared) is never negative |
| NanStats.MaskOneNoData | pyDMS/pyDMS/pyDMSUtils.py:229-233 | when exactly one value of a group is the no-data value, masking drops that value only, and the mean is that of the remaining values (NaN when none remains) |
| NanStats.ConstantGroup | pyDMS/pyDMS/pyDMSUtils.py:233-234 | a group whose valid samples all equal c has mean c and variance 0, whatever it has missing |
| PixelGroupAggregator.GroupRow | pyDMS/pyDMS/pyDMSUtils.py:231-232 | entry k of a group of low resolution row r lies in rows r*g0 .. r*g0 + g0 - 1 |
| PixelGroupAggregator.GroupCol | pyDMS/pyDMS/pyDMSUtils.py:231-232 | entry k of a group of low resolution column c lies in columns c*g1 .. c*g1 + g1 - 1 |
| PixelGroupAggregator.GroupHeight | pyDMS/pyDMS/pyDMSUtils.py:222 | g0 = int(gt_LR[5]/gt_HR[5]); when the two pixel heights have the same sign, g0 >= 0 whole high resolution rows fit in one low resolution pixel and g0 + 1 do not |
| PixelGroupAggregator.GroupWidth | pyDMS/pyDMS/pyDMSUtils.py:222 | g1 = int(gt_LR[1]/gt_HR[1]); when the two pixel widths have the same sign, g1 >= 0 whole high resolution columns fit in one low resolution pixel and g1 + 1 do not |
| PixelGroupAggregator.BandGroup | pyDMS/pyDMS/pyDMSUtils.py:229-232 | the group of pixel (r, c) has g0*g1 samples, and no valid sample equals the no-data value |
| PixelGroupAggregator.ArrayGroup | pyDMS/pyDMS/pyDMSUtils.py:231-232 | the group read from the window array has g0*g1 samples |
| PixelGroupAggregator.GroupCellIff | pyDMS/pyDMS/pyDMSUtils.py:231-232 | entry k of group (r, c) is cell (i, j) exactly when r = i / g0, c = j / g1 and k = (i % g0) g1 + j % g1, so each cell is in exactly one group |
| PixelGroupAggregator.CellInGroup | pyDMS/pyDMS/pyDMSUtils.py:231-232 | every cell (i, j) is entry (i % g0) g1 + j % g1 of group (i / g0, j / g1) |
| PixelGroupAggregator.CellGroupEntry | pyDMS/pyDMS/pyDMSUtils.py:226-232 | every sample of the read window reaches its group, masked, at that position |
| PixelGroupAggregator.MaskedWindowGroups | pyDMS/pyDMS/pyDMSUtils.py:229-232 | the groups of the masked window array are the band's groups |
| PixelGroupAggregator.ReadWindow | pyDMS/pyDMS/pyDMSUtils.py:226-227 | ReadAsArray returns a fresh rows x cols copy of the band's top-left window |
| PixelGroupAggregator.MaskNoDataInPlace | pyDMS/pyDMS/pyDMSUtils.py:229-230 | every cell of the window is replaced by its masked value, in place |
| PixelGroupAggregator.AggregateRow | pyDMS/pyDMS/pyDMSUtils.py:233-234 | one row of slice b gets each group's nanmean and variance; every other cell keeps its value |
| PixelGroupAggregator.AggregateBand | pyDMS/pyDMS/pyDMSUtils.py:233-234 | slice [:, :, b] of both outputs gets each group's nanmean and variance; every other slice keeps its value |
| PixelGroupAggregator.ResampleHighResToLowRes | pyDMS/pyDMS/pyDMSUtils.py:211-236 | fresh outputs of shape (ySize_LR, xSize_LR, bands) hold, for every pixel and band, the nanmean and variance of its group of int(gt_LR5/gt_HR5) x int(gt_LR1/gt_HR1) samples |
| ScenePipeline.CorrectedPixelSizes | pyDMS/pyDMS/pyDMSUtils.py:184-186 | the corrected aligner's pixel sizes are whole multiples, at least one, of gt_HR[1] and abs(gt_HR[5]) |
| ScenePipeline.WarpedGeoTransform | pyDMS/pyDMS/pyDMSUtils.py:197-204 | (definition) the geotransform the second warp is taken to produce from xRes, yRes and outputBounds: (west, xRes, 0, north, 0, -yRes) |
| ScenePipeline.CorrectedCountsFit | pyDMS/pyDMS/pyDMSUtils.py:190-194 | the corrected aligner's pixel counts fit the high resolution footprint and one more pixel would not; its bounds share the footprint's north-west corner and lie within it |
| ScenePipeline.GridGroups | pyDMS/pyDMS/pyDMSUtils.py:222 | on a grid of whole multiples, at least one, of the north-up high resolution pixel sizes whose counts fit the footprint, the aggregator's groups are exact (`ExactGroups`: g0, g1 >= 1, g1 gt_HR1 = xRes, g0 abs(gt_HR5) = yRes, and the read window of g0 ySize_LR rows by g1 xSize_LR columns lies inside the high resolution raster) |
| ScenePipeline.CorrectedAlignerGroups | pyDMS/pyDMS/pyDMSUtils.py:183-228 | whenever the corrected aligner succeeds on a north-up scene (gt_LR[1] >= 0), the scene it produces gives the aggregator exact groups (`ExactGroups` as above): each low resolution pixel is g0 x g1 whole high resolution pixels, both at least one, and the read window fits the raster |
| ScenePipeline.NonSquareGroupRows | pyDMS/pyDMS/pyDMSUtils.py:222 | with the as-written yRes of 50 over 20 high pixels, the aggregator groups int(2.5) = 2 rows, covering 40 of the 50 units |
| ScenePipeline.NonSquareEmptyGroups | pyDMS/pyDMS/pyDMSUtils.py:222 | 10 x 20 high resolution pixels and a discovered 30 x 12 pixel give yRes 10 as written, so the aggregator groups int(-10 / -20) = 0 rows; the corrected aligner gives yRes 20 and groups of 1 row |
| SpatialSmoother.FilterFunction | pyDMS/pyDMS/pyDMSUtils.py:134-150 | the accumulation loop returns FilterValue: a missing centre unchanged, otherwise the weighted mean of the valid samples (or the centre on a zero weight sum) |
| SpatialSmoother.FilterValue | pyDMS/pyDMS/pyDMSUtils.py:137-151 | (definition) what filterFunction returns: a missing centre as it is, otherwise the weighted mean of the valid samples, or the centre when the weight sum is zero; FilterValueBetween, ConstantWindow and CentreWeight state its properties |
| SpatialSmoother.WeightsPositive | pyDMS/pyDMS/pyDMSUtils.py:135 | every one of the nine weights [1, 2, 1, 2, 4, 2, 1, 2, 1] of line 135 (the constant `SpatialSmoother.Weights`) is positive |
| SpatialSmoother.WeightSumBounds | pyDMS/pyDMS/pyDMSUtils.py:140-146 | with weights that are not negative, the weight sum is at least 0 and at most the weights of the same cells; it equals them when all are valid, and it is at least the weight of any valid sample counted |
| SpatialSmoother.CentreWeight | pyDMS/pyDMS/pyDMSUtils.py:147-150 | a valid centre gives a weight sum of at least 4, so the ZeroDivisionError branch is unreachable; a full window weighs 16 |
| SpatialSmoother.WeightedSumAbove | pyDMS/pyDMS/pyDMSUtils.py:142-146 | valid samples >= lo give a weighted sum >= lo times the weight sum |
| SpatialSmoother.WeightedSumBelow | pyDMS/pyDMS/pyDMSUtils.py:142-146 | valid samples <= hi give a weighted sum <= hi times the weight sum |
| SpatialSmoother.FilterValueBetween | pyDMS/pyDMS/pyDMSUtils.py:140-150 | a valid centre smooths to a valid value between any bounds of the window's valid samples |
| SpatialSmoother.ConstantWindow | pyDMS/pyDMS/pyDMSUtils.py:140-150 | a window whose valid samples all equal c smooths a valid centre to c |
| SpatialSmoother.Reflect | pyDMS/pyDMS/pyDMSUtils.py:153 | generic_filter's default reflect mode for a 3 x 3 window keeps inside indices and repeats the edge sample for one step outside |
| SpatialSmoother.Window | pyDMS/pyDMS/pyDMSUtils.py:153 | the footprint has 9 samples, and its entry 4 is the cell itself |
| SpatialSmoother.BinomialSmoother | pyDMS/pyDMS/pyDMSUtils.py:133-155 | a fresh array of the input's shape holds FilterValue of every cell's window; missing cells stay missing and valid cells stay valid |
| SpatialSmoother.ConstantFieldFixed | pyDMS/pyDMS/pyDMSUtils.py:133-155 | a field of one valid value is left unchanged by the smoother |
| ArrayAppend.AppendNpArray | pyDMS/pyDMS/pyDMSUtils.py:158-163 | the result is the accumulator (empty when None) followed by data, of the summed length |
| ArrayAppend.AccumulateConcat | pyDMS/pyDMS/pyDMSUtils.py:158-163 | appending chunk by chunk gives the initial accumulator followed by every chunk in order |
| ArrayAppend.AccumulateFromNone | pyDMS/pyDMS/pyDMSUtils.py:158-163 | starting from None, appending every chunk gives their concatenation |
| ArrayAppend.AppendIdentity | pyDMS/pyDMS/pyDMSUtils.py:158-163 | appending an empty array returns the accumulator, and appending to None or to an empty array returns data |

## Left out

- I/O is not modelled:
  - `openRaster` and the GDAL handle plumbing of `getRasterInfo`
  - `saveImg`
  - `resampleWithGdalWarp` and both `gdal.Warp` calls
  - `ReadAsArray`, `GetNoDataValue` and `RasterCount`

  The discovered low resolution geotransform, the band samples and their no-data values are parameters instead. `ReadWindow` stands for `ReadAsArray`.
- IEEE-754 is not modelled. Floating-point rounding in division, `floor`, `ceil`, `int()` and `round()` is replaced by exact `real` arithmetic. NaN is the `Missing` constructor, so NaN's comparison semantics and numpy's all-NaN warnings are not modelled.
- The internals of scipy's `generic_filter` are not modelled. They are replaced by the 3 x 3 window under its default reflect mode. For a radius of one, that mode repeats the edge sample. The filter's casting of results back to an integer input dtype is not modelled, because samples are reals.
- `PixelGroupAggregator.AggregateBand`, `PixelGroupAggregator.AggregateRow` and `PixelGroupAggregator.ResampleHighResToLowRes`:
  - they store the population variance where the source stores `np.nanstd`, its square root, because a square root has no exact `real` counterpart;
  - the square root is monotone, so the variance's properties carry over to the std.
- `PixelGroupAggregator.ResampleHighResToLowRes` requires a high resolution geotransform with non-zero `gt_HR[1]` and `gt_HR[5]`, both group sizes to be at least one, and every band to cover the read window.
  - Line 222 divides by `gt_HR[5]` and `gt_HR[1]`; when either is zero the source raises ZeroDivisionError. This error path is not modelled.
  - A group size of zero is not modelled. The code as written can reach it: `ScenePipeline.NonSquareEmptyGroups` gives an aligned scene whose row group `int(gt_LR[5]/gt_HR[5])` is 0.
  - With a window larger than the raster, `ReadAsArray` fails. This error path is not modelled.
- `CoordinateMapper.Point2Pix` requires non-zero `gt[1]` and `gt[5]`. Lines 62-66 divide by them, so the source raises ZeroDivisionError when either is zero. This error path is not modelled.
- `ArrayAppend.AppendNpArray`:
  - it models flat arrays only;
  - with `axis=None`, np.append flattens a multi-dimensional accumulator, but a None or empty accumulator is replaced by `data` with its shape kept, and the model does not track shapes.
- `ScenePipeline.WarpedGeoTransform` is an assumption about GDAL: the second `gdal.Warp` (lines 197-204) is taken to return a north-up scene whose geotransform is (west, xRes, 0, north, 0, -yRes) for the requested `xRes`, `yRes` and `outputBounds`. `GridGroups`, `CorrectedAlignerGroups`, `NonSquareGroupRows` and `NonSquareEmptyGroups` rely on it. GDAL itself is not modelled.
- The rotation terms `gt[2]` and `gt[4]` are carried in `GeoTransform`. The source never uses them, and neither does the model.

## Findings

Line 186 rounds the low resolution y pixel size against `pixSize_HR[0]`, the high resolution pixel width. The comment at lines 181-182 asks for low resolution pixels that overlap the high resolution pixels nicely. Line 222 groups `int(gt_LR[5]/gt_HR[5])` high resolution rows into one low resolution row. Both need the y size to be a whole multiple of the pixel height `pixSize_HR[1]`, which line 193 already uses. `GridAligner.ReprojectSubsetLowResScene` models the code as written. `GridAligner.ReprojectSubsetLowResSceneCorrected` rounds each axis against its own unit. For square pixels the two agree (`GridAligner.SquarePixelsAgree`).

| source | as written | input that shows it | evidently intended | confidence | as-written member | corrected member |
|---|---|---|---|---|---|---|
| pyDMS/pyDMS/pyDMSUtils.py:186 | the low resolution y pixel size is rounded to a multiple of the high resolution x pixel size `pixSize_HR[0]` | high resolution pixels 10 wide and 20 high, discovered low resolution pixel 30 x 50: yRes = round(50/10)*10 = 50, which is 2.5 high resolution rows, so the aggregator's int(50/20) = 2 row groups cover 40 of the 50 units | round against `pixSize_HR[1]`, giving yRes = round(50/20)*20 = 40, exactly 2 rows | not executed | GridAligner.NonSquarePixelsCounterexample | GridAligner.ReprojectSubsetLowResSceneCorrected |
| pyDMS/pyDMS/pyDMSUtils.py:186 | the same rounding against `pixSize_HR[0]` can make the low resolution y pixel smaller than one high resolution row | high resolution pixels 10 wide and 20 high, discovered low resolution pixel 30 x 12: yRes = round(12/10)*10 = 10, so the aggregator's row group int(-10/-20) is 0 and no high resolution row reaches any low resolution pixel | round against `pixSize_HR[1]`, giving yRes = round(12/20)*20 = 20, groups of exactly 1 row | not executed | ScenePipeline.NonSquareEmptyGroups | GridAligner.ReprojectSubsetLowResSceneCorrected |
