/**
 * The Coordinate Mapper: the axis-aligned affine map between projected
 * coordinates and pixel indices of a north-up raster (point2pix and
 * pix2point). The rotation terms of the geotransform are carried but,
 * as in the source, never used.
 */
module CoordinateMapper {
  import opened Rounding

  /** GDAL's six geotransform terms, gt[0] .. gt[5]. */
  datatype GeoTransform = GeoTransform(
    originX: real,        // gt[0]
    pixelWidth: real,     // gt[1]
    rowRotation: real,    // gt[2]
    originY: real,        // gt[3]
    columnRotation: real, // gt[4]
    pixelHeight: real     // gt[5], negative for north-up rasters
  )

  /** A pixel index: column (x) first, then row (y). */
  datatype Pixel = Pixel(col: int, row: int)

  /** A point in the raster's projection units. */
  datatype Point = Point(x: real, y: real)

  /** Both pixel-size terms are non-zero, so the inverse map does not divide by zero. */
  predicate Invertible(gt: GeoTransform) {
    gt.pixelWidth != 0.0 && gt.pixelHeight != 0.0
  }

  /** How many pixel widths the point lies east of the origin (may be fractional). */
  function ColumnOffset(pt: Point, gt: GeoTransform): real
    requires Invertible(gt)
  {
    (pt.x - gt.originX) / gt.pixelWidth
  }

  /** How many pixel heights the point lies from the origin row (may be fractional). */
  function RowOffset(pt: Point, gt: GeoTransform): real
    requires Invertible(gt)
  {
    (pt.y - gt.originY) / gt.pixelHeight
  }

  /**
   * point2pix: the pixel holding a point. The lower bound (upperBound false)
   * rounds the fractional offsets down, the upper bound rounds them up.
   */
  function Point2Pix(pt: Point, gt: GeoTransform, upperBound: bool): (p: Pixel)
    requires Invertible(gt)
    ensures !upperBound ==>
      p.col as real <= ColumnOffset(pt, gt) < p.col as real + 1.0 &&
      p.row as real <= RowOffset(pt, gt) < p.row as real + 1.0
    ensures upperBound ==>
      p.col as real - 1.0 < ColumnOffset(pt, gt) <= p.col as real &&
      p.row as real - 1.0 < RowOffset(pt, gt) <= p.row as real
  {
    if !upperBound then
      Pixel(Floor(ColumnOffset(pt, gt)), Floor(RowOffset(pt, gt)))
    else
      Pixel(Ceil(ColumnOffset(pt, gt)), Ceil(RowOffset(pt, gt)))
  }

  /** pix2point: the corner point of a pixel; its offsets are exactly the pixel's indices. */
  function Pix2Point(pix: Pixel, gt: GeoTransform): (pt: Point)
    ensures Invertible(gt) ==>
      ColumnOffset(pt, gt) == pix.col as real && RowOffset(pt, gt) == pix.row as real
  {
    Point(pix.col as real * gt.pixelWidth + gt.originX,
          pix.row as real * gt.pixelHeight + gt.originY)
  }

  /** Mapping a pixel's corner back gives the same pixel, whichever bound is asked for. */
  lemma RoundTrip(pix: Pixel, gt: GeoTransform, upperBound: bool)
    requires Invertible(gt)
    ensures Point2Pix(Pix2Point(pix, gt), gt, upperBound) == pix
  {
  }

  /**
   * The lower-bound pixel never exceeds the upper-bound one, they differ by at
   * most one, and they agree on an axis exactly when the offset is a whole number.
   */
  lemma BoundsOrdered(pt: Point, gt: GeoTransform)
    requires Invertible(gt)
    ensures var lo, hi := Point2Pix(pt, gt, false), Point2Pix(pt, gt, true);
      lo.col <= hi.col <= lo.col + 1 && lo.row <= hi.row <= lo.row + 1 &&
      (lo.col == hi.col <==> IsIntegral(ColumnOffset(pt, gt))) &&
      (lo.row == hi.row <==> IsIntegral(RowOffset(pt, gt)))
  {
  }
}
