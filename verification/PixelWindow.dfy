/**
 From a box in map coordinates to a window of pixels
 (crates/orbit-geo/src/async_download.rs, `native_crs_pixel_window`).
 */
module PixelWindow {
  import opened Wrappers
  import opened Arithmetic

  datatype CropWindow = CropWindow(minX: real, minY: real, maxX: real, maxY: real)

  /** Upper-left origin and signed pixel size of an axis-aligned raster. */
  datatype GeoFrame = GeoFrame(originX: real, pixW: real, originY: real, pixH: real)

  /** A window of pixels; it may start before and end after the source. */
  datatype PixelWindow = PixelWindow(colOff: int, rowOff: int, cols: nat, rows: nat)

  datatype WindowError = DegenerateGeoTransform | DegenerateProjwin

  /** GDAL's projwin tolerance, in pixels. */
  const TOLERANCE: real := 0.001

  /** First pixel and pixel count along one axis, for a box from `start` to `end`. */
  function SnapAxis(start: real, end: real, origin: real, size: real): (int, int)
    requires size != 0.0
  {
    var off := ((start - origin) / size + TOLERANCE).Floor;
    var snapped := off as real * size + origin;
    (off, Ceil((end - snapped) / size - TOLERANCE))
  }

  function NativePixelWindow(crop: CropWindow, gt: GeoFrame): Result<PixelWindow, WindowError> {
    if gt.pixW == 0.0 || gt.pixH == 0.0 then Failure(DegenerateGeoTransform)
    else
      var (colOff, cols) := SnapAxis(crop.minX, crop.maxX, gt.originX, gt.pixW);
      var (rowOff, rows) := SnapAxis(crop.maxY, crop.minY, gt.originY, gt.pixH);
      if cols < 1 || rows < 1 then Failure(DegenerateProjwin)
      else Success(PixelWindow(colOff, rowOff, cols, rows))
  }

  /** The geo-transform written to the cropped output. */
  function OutputFrame(gt: GeoFrame, w: PixelWindow): GeoFrame {
    GeoFrame(gt.originX + w.colOff as real * gt.pixW, gt.pixW, gt.originY + w.rowOff as real * gt.pixH, gt.pixH)
  }

  // ---------------------------------------------------------------- reference

  /** A position along one axis, in pixels from the origin. */
  function PixelPosition(x: real, origin: real, size: real): real
    requires size != 0.0
  {
    (x - origin) / size
  }

  /** Pixels `off .. off + n` cover the positions `lo .. hi` up to a thousandth of a pixel at each end. */
  predicate Covers(off: int, n: int, lo: real, hi: real) {
    off as real <= lo + 0.001 && (off + n) as real >= hi - 0.001
  }

  /** Nonempty, covering, and no longer so without its first or its last pixel. */
  predicate TightCover(off: int, n: int, lo: real, hi: real) {
    && n >= 1
    && Covers(off, n, lo, hi)
    && !Covers(off + 1, n - 1, lo, hi)
    && !Covers(off, n - 1, lo, hi)
  }

  /** The window is a tight cover of the box along both axes. */
  predicate TightWindow(crop: CropWindow, gt: GeoFrame, w: PixelWindow)
    requires gt.pixW != 0.0 && gt.pixH != 0.0
  {
    && TightCover(w.colOff, w.cols, PixelPosition(crop.minX, gt.originX, gt.pixW), PixelPosition(crop.maxX, gt.originX, gt.pixW))
    && TightCover(w.rowOff, w.rows, PixelPosition(crop.maxY, gt.originY, gt.pixH), PixelPosition(crop.minY, gt.originY, gt.pixH))
  }

  lemma PositionFromSnapped(x: real, origin: real, size: real, k: int)
    requires size != 0.0
    ensures (x - (k as real * size + origin)) / size == PixelPosition(x, origin, size) - k as real
  {
    var p := PixelPosition(x, origin, size);
    assert p * size == x - origin;
    var d := (x - (k as real * size + origin)) / size;
    assert d * size == x - (k as real * size + origin);
    assert (d - (p - k as real)) * size == 0.0;
  }

  /** Snapping yields the tight cover of the axis, if there is one. */
  lemma SnapAxisIsTight(start: real, end: real, origin: real, size: real, off: int, n: int)
    requires size != 0.0
    ensures SnapAxis(start, end, origin, size) == (off, n) && n >= 1
       <==> TightCover(off, n, PixelPosition(start, origin, size), PixelPosition(end, origin, size))
  {
    var lo, hi := PixelPosition(start, origin, size), PixelPosition(end, origin, size);
    var k := (lo + TOLERANCE).Floor;
    PositionFromSnapped(end, origin, size, k);
    assert SnapAxis(start, end, origin, size) == (k, Ceil(hi - k as real - TOLERANCE));
  }

  /**
   The computed window is the one tight cover of the box, and the computation fails
   exactly when the pixel size is zero or the box has no tight cover.
   */
  lemma WindowIsTheTightCover(crop: CropWindow, gt: GeoFrame, w: PixelWindow)
    requires gt.pixW != 0.0 && gt.pixH != 0.0
    ensures NativePixelWindow(crop, gt) == Success(w) <==> TightWindow(crop, gt, w)
  {
    SnapAxisIsTight(crop.minX, crop.maxX, gt.originX, gt.pixW, w.colOff, w.cols);
    SnapAxisIsTight(crop.maxY, crop.minY, gt.originY, gt.pixH, w.rowOff, w.rows);
  }

  /** Moving the origin by whole pixels moves a tight cover by as many pixels. */
  lemma TightCoverShifts(start: real, end: real, origin: real, size: real, off: int, n: int)
    requires size != 0.0
    requires TightCover(off, n, PixelPosition(start, origin, size), PixelPosition(end, origin, size))
    ensures var moved := origin + off as real * size;
            TightCover(0, n, PixelPosition(start, moved, size), PixelPosition(end, moved, size))
  {
    PositionFromSnapped(start, origin, size, off);
    PositionFromSnapped(end, origin, size, off);
  }

  lemma TightWindowShifts(crop: CropWindow, gt: GeoFrame, w: PixelWindow, originX: real, originY: real)
    requires gt.pixW != 0.0 && gt.pixH != 0.0 && TightWindow(crop, gt, w)
    requires originX == gt.originX + w.colOff as real * gt.pixW && originY == gt.originY + w.rowOff as real * gt.pixH
    ensures TightWindow(crop, GeoFrame(originX, gt.pixW, originY, gt.pixH), PixelWindow(0, 0, w.cols, w.rows))
  {
    hide TightCover, PixelPosition;
    TightCoverShifts(crop.minX, crop.maxX, gt.originX, gt.pixW, w.colOff, w.cols);
    TightCoverShifts(crop.maxY, crop.minY, gt.originY, gt.pixH, w.rowOff, w.rows);
  }

  /** Cropping the cropped output with the same box asks for all of it. */
  lemma RecropIsWhole(crop: CropWindow, gt: GeoFrame, w: PixelWindow)
    ensures NativePixelWindow(crop, gt) == Success(w) ==>
              NativePixelWindow(crop, OutputFrame(gt, w)) == Success(PixelWindow(0, 0, w.cols, w.rows))
  {
    if NativePixelWindow(crop, gt) == Success(w) {
      assert gt.pixW != 0.0 && gt.pixH != 0.0;
      hide NativePixelWindow, TightWindow;
      var out := OutputFrame(gt, w);
      WindowIsTheTightCover(crop, gt, w);
      TightWindowShifts(crop, gt, w, out.originX, out.originY);
      WindowIsTheTightCover(crop, out, PixelWindow(0, 0, w.cols, w.rows));
    }
  }
}
