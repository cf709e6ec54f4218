/** The Grid Descriptor's derived extent, as getRasterInfo computes it. */
module RasterInfo {
  import opened CoordinateMapper

  /** A bounding box in [west, south, east, north] order, GDAL's outputBounds order. */
  datatype Extent = Extent(west: real, south: real, east: real, north: real)

  /**
   * The extent of a raster of sizeX columns and sizeY rows: its north-west
   * corner is the corner of pixel (0, 0) and its south-east corner that of
   * pixel (sizeX, sizeY).
   */
  function GetExtent(gt: GeoTransform, sizeX: int, sizeY: int): (e: Extent)
    ensures Point(e.west, e.north) == Pix2Point(Pixel(0, 0), gt)
    ensures Point(e.east, e.south) == Pix2Point(Pixel(sizeX, sizeY), gt)
  {
    Extent(gt.originX, gt.originY + gt.pixelHeight * sizeY as real,
           gt.originX + gt.pixelWidth * sizeX as real, gt.originY)
  }

  /** For a north-up raster with at least one pixel, west < east and south < north. */
  lemma ExtentOrdered(gt: GeoTransform, sizeX: int, sizeY: int)
    requires gt.pixelWidth > 0.0 && gt.pixelHeight < 0.0
    requires sizeX > 0 && sizeY > 0
    ensures var e := GetExtent(gt, sizeX, sizeY); e.west < e.east && e.south < e.north
  {
    assert gt.pixelWidth * sizeX as real > 0.0;
    assert gt.pixelHeight * sizeY as real < 0.0;
  }

  /** The extent's corners map back to pixel (0, 0) and pixel (sizeX, sizeY). */
  lemma ExtentCorners(gt: GeoTransform, sizeX: int, sizeY: int, upperBound: bool)
    requires Invertible(gt)
    ensures var e := GetExtent(gt, sizeX, sizeY);
      Point2Pix(Point(e.west, e.north), gt, upperBound) == Pixel(0, 0) &&
      Point2Pix(Point(e.east, e.south), gt, upperBound) == Pixel(sizeX, sizeY)
  {
    RoundTrip(Pixel(0, 0), gt, upperBound);
    RoundTrip(Pixel(sizeX, sizeY), gt, upperBound);
  }
}
