/**
 Assembling a pixel window from the tiles of a tiled raster
 (crates/orbit-geo/src/async_download.rs, `tile_range`, the tile-index part of
 `fetch_and_stitch_then_write`, `stitch_and_write` and `place_tile`).

 Whatever the order in which tiles arrive, the stitched buffer is the source cropped to
 the window and padded with the default value.
 */
module Stitch {
  import opened Wrappers
  import opened Arithmetic
  import opened PixelWindow

  /** A raster in row-major order. */
  datatype Raster<+T> = Raster(rows: nat, cols: nat, data: seq<T>) {
    predicate Valid() {
      |data| == rows * cols
    }

    predicate Has(r: int, c: int) {
      0 <= r < rows && 0 <= c < cols
    }

    function Pixel(r: nat, c: nat): T
      requires Valid() && Has(r, c)
    {
      FlatInBounds(r, c, rows, cols);
      data[r * cols + c]
    }
  }

  datatype Tile<+T> = Tile(x: nat, y: nat, data: seq<T>)

  datatype StitchError = DisjointWindow

  /** A tile holds the source pixels under it; where it overhangs the source it holds anything. */
  ghost predicate IsTileOf<T(!new)>(src: Raster<T>, tile: Tile<T>, tileW: nat, tileH: nat) {
    && src.Valid()
    && |tile.data| == tileH * tileW
    && (forall k :: 0 <= k < tileH * tileW ==> TilePixelMatches(src, tile, tileW, tileH, k))
  }

  ghost predicate TilePixelMatches<T(!new)>(src: Raster<T>, tile: Tile<T>, tileW: nat, tileH: nat, k: nat)
    requires src.Valid() && |tile.data| == tileH * tileW && k < tileH * tileW
  {
    CellInBounds(k, tileH, tileW);
    var r, c := tile.y * tileH + k / tileW, tile.x * tileW + k % tileW;
    src.Has(r, c) ==> tile.data[k] == src.Pixel(r, c)
  }

  // ---------------------------------------------------------------- reference

  /** Source row and column under cell `k` of the window. */
  function SrcRow(w: PixelWindow, k: nat): int
    requires k < w.rows * w.cols
  {
    CellInBounds(k, w.rows, w.cols);
    w.rowOff + k / w.cols
  }

  function SrcCol(w: PixelWindow, k: nat): int
    requires k < w.rows * w.cols
  {
    CellInBounds(k, w.rows, w.cols);
    w.colOff + k % w.cols
  }

  lemma CellWithinWindow(w: PixelWindow, k: nat)
    requires k < w.rows * w.cols
    ensures w.rowOff <= SrcRow(w, k) < w.rowOff + w.rows && w.colOff <= SrcCol(w, k) < w.colOff + w.cols
    ensures (SrcRow(w, k) - w.rowOff) * w.cols + (SrcCol(w, k) - w.colOff) == k
  {
    CellInBounds(k, w.rows, w.cols);
  }

  lemma CellAt(w: PixelWindow, i: nat, j: nat)
    requires i < w.rows && j < w.cols
    ensures i * w.cols + j < w.rows * w.cols
    ensures SrcRow(w, i * w.cols + j) == w.rowOff + i && SrcCol(w, i * w.cols + j) == w.colOff + j
  {
    FlatInBounds(i, j, w.rows, w.cols);
  }

  /** Cell `k` of the window: the source pixel there, or the default outside the source. */
  ghost function Wanted<T(!new)>(src: Raster<T>, w: PixelWindow, default: T, k: nat): T
    requires src.Valid() && k < w.rows * w.cols
  {
    if src.Has(SrcRow(w, k), SrcCol(w, k)) then src.Pixel(SrcRow(w, k), SrcCol(w, k)) else default
  }

  /** `out` is the source cropped to the window and padded with the default. */
  ghost predicate IsCropOf<T(!new)>(out: seq<T>, src: Raster<T>, w: PixelWindow, default: T) {
    && src.Valid()
    && |out| == w.rows * w.cols
    && forall k :: 0 <= k < |out| ==> out[k] == Wanted(src, w, default, k)
  }

  /** The window and the source share a pixel. */
  predicate Meets(rows: nat, cols: nat, w: PixelWindow) {
    && 0 < w.rows && w.rowOff < rows && 0 < w.rowOff + w.rows && 0 < rows
    && 0 < w.cols && w.colOff < cols && 0 < w.colOff + w.cols && 0 < cols
  }

  // ------------------------------------------------------------ which tiles

  /** The half-open range of tile indices covering pixels `start .. end`. */
  function TileRange(start: nat, end: nat, tileSize: nat): (nat, nat) {
    if end <= start || tileSize == 0 then (0, 0)
    else (start / tileSize, (end - 1) / tileSize + 1)
  }

  lemma PixelTileIsInRange(start: nat, end: nat, tileSize: nat, p: nat)
    requires tileSize > 0 && start <= p < end
    ensures TileRange(start, end, tileSize).0 <= p / tileSize < TileRange(start, end, tileSize).1
  {
    QuotientMonotone(start, p, tileSize);
    QuotientMonotone(p, end - 1, tileSize);
  }

  lemma TileInRangeHasPixel(start: nat, end: nat, tileSize: nat, t: nat) returns (p: nat)
    requires tileSize > 0 && TileRange(start, end, tileSize).0 <= t < TileRange(start, end, tileSize).1
    ensures start <= p < end && p / tileSize == t
  {
    var first, last := start / tileSize, (end - 1) / tileSize;
    QuotientBounds(start, tileSize);
    QuotientBounds(end - 1, tileSize);
    ProductMonotone(t, last, tileSize);
    if t == first {
      p := start;
    } else {
      ProductMonotone(first + 1, t, tileSize);
      assert (first + 1) * tileSize == first * tileSize + tileSize;
      p := t * tileSize;
      QuotientIs(p, tileSize, t);
    }
  }

  datatype ReadBounds = ReadBounds(colStart: nat, rowStart: nat, colEnd: nat, rowEnd: nat)

  /** The part of the window inside the source, in source pixels. */
  function ReadableBounds(rows: nat, cols: nat, w: PixelWindow): ReadBounds {
    ReadBounds(Max(w.colOff, 0), Max(w.rowOff, 0),
               Min(Max(w.colOff + w.cols, 0), cols), Min(Max(w.rowOff + w.rows, 0), rows))
  }

  predicate InBounds(b: ReadBounds, r: int, c: int) {
    b.rowStart <= r < b.rowEnd && b.colStart <= c < b.colEnd
  }

  /** A tile holds a pixel of the readable part. */
  ghost predicate TileNeeded(b: ReadBounds, tileW: nat, tileH: nat, x: nat, y: nat)
    requires tileW > 0 && tileH > 0
  {
    exists r: nat, c: nat :: InBounds(b, r, c) && c / tileW == x && r / tileH == y
  }

  /** The tile ranges of the two axes span exactly the needed tiles. */
  lemma RangesAreNeededTiles(b: ReadBounds, tileW: nat, tileH: nat, x: nat, y: nat)
    requires tileW > 0 && tileH > 0
    ensures var (colFirst, colEnd) := TileRange(b.colStart, b.colEnd, tileW);
            var (rowFirst, rowEnd) := TileRange(b.rowStart, b.rowEnd, tileH);
            colFirst <= x < colEnd && rowFirst <= y < rowEnd <==> TileNeeded(b, tileW, tileH, x, y)
  {
    var (colFirst, colEnd) := TileRange(b.colStart, b.colEnd, tileW);
    var (rowFirst, rowEnd) := TileRange(b.rowStart, b.rowEnd, tileH);
    if colFirst <= x < colEnd && rowFirst <= y < rowEnd {
      var c := TileInRangeHasPixel(b.colStart, b.colEnd, tileW, x);
      var r := TileInRangeHasPixel(b.rowStart, b.rowEnd, tileH, y);
      assert InBounds(b, r, c);
    }
    if TileNeeded(b, tileW, tileH, x, y) {
      var r: nat, c: nat :| InBounds(b, r, c) && c / tileW == x && r / tileH == y;
      PixelTileIsInRange(b.colStart, b.colEnd, tileW, c);
      PixelTileIsInRange(b.rowStart, b.rowEnd, tileH, r);
    }
  }

  /** The index pairs `(x, y)` of a rectangle, row by row. */
  method RectangleIndices(colFirst: nat, colEnd: nat, rowFirst: nat, rowEnd: nat) returns (indices: seq<(nat, nat)>)
    ensures forall x: nat, y: nat :: (x, y) in indices <==> colFirst <= x < colEnd && rowFirst <= y < rowEnd
    ensures forall i, j :: 0 <= i < j < |indices| ==> indices[i] != indices[j]
  {
    indices := [];
    var ty := rowFirst;
    while ty < rowEnd
      invariant rowFirst <= ty
      invariant forall x: nat, y: nat :: (x, y) in indices <==> colFirst <= x < colEnd && rowFirst <= y < ty && y < rowEnd
      invariant forall i, j :: 0 <= i < j < |indices| ==> indices[i] != indices[j]
    {
      var tx := colFirst;
      while tx < colEnd
        invariant colFirst <= tx
        invariant forall x: nat, y: nat :: (x, y) in indices <==>
                    (colFirst <= x < colEnd && rowFirst <= y < ty) || (y == ty && colFirst <= x < tx && x < colEnd)
        invariant forall i, j :: 0 <= i < j < |indices| ==> indices[i] != indices[j]
      {
        assert (tx, ty) !in indices;
        indices := indices + [(tx, ty)];
        tx := tx + 1;
      }
      ty := ty + 1;
    }
  }

  /** Exactly the needed tiles, each once. */
  method TileIndices(b: ReadBounds, tileW: nat, tileH: nat) returns (indices: seq<(nat, nat)>)
    ensures tileW == 0 || tileH == 0 ==> indices == []
    ensures tileW > 0 && tileH > 0 ==> forall x: nat, y: nat :: (x, y) in indices <==> TileNeeded(b, tileW, tileH, x, y)
    ensures forall i, j :: 0 <= i < j < |indices| ==> indices[i] != indices[j]
  {
    var (colFirst, colEnd) := TileRange(b.colStart, b.colEnd, tileW);
    var (rowFirst, rowEnd) := TileRange(b.rowStart, b.rowEnd, tileH);
    indices := RectangleIndices(colFirst, colEnd, rowFirst, rowEnd);
    assert |indices| > 0 ==> (indices[0].0, indices[0].1) in indices;
    if tileW > 0 && tileH > 0 {
      forall x: nat, y: nat
        ensures (x, y) in indices <==> TileNeeded(b, tileW, tileH, x, y)
      {
        RangesAreNeededTiles(b, tileW, tileH, x, y);
      }
    }
  }

  lemma NoTilesIffDisjoint(rows: nat, cols: nat, w: PixelWindow, tileW: nat, tileH: nat, indices: seq<(nat, nat)>)
    requires tileW > 0 && tileH > 0
    requires var b := ReadableBounds(rows, cols, w);
             forall x: nat, y: nat :: (x, y) in indices <==> TileNeeded(b, tileW, tileH, x, y)
    ensures indices == [] <==> !Meets(rows, cols, w)
  {
    var b := ReadableBounds(rows, cols, w);
    if Meets(rows, cols, w) {
      var r, c := b.rowStart, b.colStart;
      assert InBounds(b, r, c);
      assert TileNeeded(b, tileW, tileH, c / tileW, r / tileH);
      assert (c / tileW, r / tileH) in indices;
    }
    if indices != [] {
      var (x, y) := indices[0];
      assert (x, y) in indices;
      var r: nat, c: nat :| InBounds(b, r, c) && c / tileW == x && r / tileH == y;
    }
  }

  // --------------------------------------------------------------- one tile

  /** `dst[dstIdx .. dstIdx + n]` becomes `src[srcIdx .. srcIdx + n]`. */
  method CopySlice<T>(dst: array<T>, dstIdx: nat, src: seq<T>, srcIdx: nat, n: nat)
    requires dstIdx + n <= dst.Length && srcIdx + n <= |src|
    modifies dst
    ensures forall k :: 0 <= k < dst.Length ==>
              dst[k] == if dstIdx <= k < dstIdx + n then src[srcIdx + k - dstIdx] else old(dst[k])
  {
    for i := 0 to n
      invariant forall k :: 0 <= k < dst.Length ==>
                  dst[k] == if dstIdx <= k < dstIdx + i then src[srcIdx + k - dstIdx] else old(dst[k])
    {
      dst[dstIdx + i] := src[srcIdx + i];
    }
  }

  /** Cell `k` of the window lies on a pixel of the source that tile `(x, y)` holds. */
  predicate CellInTile(w: PixelWindow, rows: nat, cols: nat, tileW: nat, tileH: nat, x: nat, y: nat, k: nat)
    requires k < w.rows * w.cols && tileW > 0 && tileH > 0
  {
    var r, c := SrcRow(w, k), SrcCol(w, k);
    0 <= r < rows && 0 <= c < cols && c / tileW == x && r / tileH == y
  }

  /** The tile's rectangle and the division by the tile size say the same. */
  lemma PixelInTile(p: int, t: nat, size: nat)
    requires size > 0
    ensures p / size == t <==> t * size <= p < t * size + size
  {
    QuotientBounds(p, size);
    if t * size <= p < t * size + size {
      QuotientIs(p, size, t);
    }
  }

  /**
   Copies the rows of one tile, clipped to the readable part, to their place in the output:
   afterwards exactly the cells on this tile have changed, to their source pixels.
   */
  method PlaceTile<T(!new)>(out: array<T>, w: PixelWindow, tile: Tile<T>, tileW: nat, tileH: nat, b: ReadBounds, ghost src: Raster<T>)
    requires tileW > 0 && tileH > 0
    requires out.Length == w.rows * w.cols
    requires IsTileOf(src, tile, tileW, tileH)
    requires b == ReadableBounds(src.rows, src.cols, w)
    modifies out
    ensures TilePlaced(src, w, tileW, tileH, tile.x, tile.y, old(out[..]), out[..])
  {
    var tilePxX, tilePxY := tile.x * tileW, tile.y * tileH;
    var copyColStart, copyRowStart := Max(tilePxX, b.colStart), Max(tilePxY, b.rowStart);
    var copyColEnd, copyRowEnd := Min(tilePxX + tileW, b.colEnd), Min(tilePxY + tileH, b.rowEnd);
    ghost var first := out[..];
    TileSize(src, tile, tileW, tileH);
    hide Wanted, CellInRectangle, CellInTile, SrcRow, SrcCol, RectangleDone, TilePlaced, IsTileOf;
    NothingDone(src, w, out[..], copyRowStart, copyRowEnd, copyColStart, copyColEnd);
    if copyColStart >= copyColEnd || copyRowStart >= copyRowEnd {
      RectangleIsTile(src, w, tileW, tileH, tile.x, tile.y, out[..], out[..]);
      return;
    }
    NothingDone(src, w, out[..], copyRowStart, copyRowStart, copyColStart, copyColEnd);
    var n := copyColEnd - copyColStart;
    var srcRow := copyRowStart;
    while srcRow < copyRowEnd
      invariant copyRowStart <= srcRow <= copyRowEnd
      invariant RectangleDone(src, w, first, out[..], copyRowStart, srcRow, copyColStart, copyColEnd)
    {
      PlaceRow(out, w, tile, tileW, tileH, tilePxX, tilePxY, srcRow, copyColStart, n, src, first, copyRowStart);
      srcRow := srcRow + 1;
    }
    RectangleIsTile(src, w, tileW, tileH, tile.x, tile.y, first, out[..]);
  }

  /** Copies the part of source row `srcRow` on the tile to its place in the output. */
  method PlaceRow<T(!new)>(out: array<T>, w: PixelWindow, tile: Tile<T>, tileW: nat, tileH: nat, tilePxX: nat, tilePxY: nat,
                           srcRow: nat, colStart: nat, n: nat, ghost src: Raster<T>, ghost first: seq<T>, ghost rowStart: int)
    requires tileW > 0 && tileH > 0 && out.Length == w.rows * w.cols
    requires IsTileOf(src, tile, tileW, tileH) && tilePxX == tile.x * tileW && tilePxY == tile.y * tileH
    requires rowStart <= srcRow && tilePxY <= srcRow < tilePxY + tileH && srcRow < src.rows
    requires tilePxX <= colStart && colStart + n <= tilePxX + tileW && colStart + n <= src.cols
    requires 0 <= srcRow - w.rowOff < w.rows && 0 <= colStart - w.colOff && colStart - w.colOff + n <= w.cols
    requires RectangleDone(src, w, first, out[..], rowStart, srcRow, colStart, colStart + n)
    modifies out
    ensures RectangleDone(src, w, first, out[..], rowStart, srcRow + 1, colStart, colStart + n)
  {
    hide IsTileOf, RectangleDone;
    var srcIdx := (srcRow - tilePxY) * tileW + (colStart - tilePxX);
    var dstRow, dstCol := srcRow - w.rowOff, colStart - w.colOff;
    var dstIdx := dstRow * w.cols + dstCol;
    SliceFits(srcRow - tilePxY, colStart - tilePxX, n, tileH, tileW);
    SliceFits(dstRow, dstCol, n, w.rows, w.cols);
    TileSize(src, tile, tileW, tileH);
    ghost var before := out[..];
    CopySlice(out, dstIdx, tile.data, srcIdx, n);
    RowCopied(src, tile, tileW, tileH, w, first, before, out[..], rowStart, srcRow, colStart, n, srcIdx, dstIdx);
  }

  lemma TileSize<T(!new)>(src: Raster<T>, tile: Tile<T>, tileW: nat, tileH: nat)
    requires IsTileOf(src, tile, tileW, tileH)
    ensures |tile.data| == tileH * tileW && src.Valid()
  {
  }

  /** The cells on one tile hold their source pixels and the others are as before. */
  ghost predicate TilePlaced<T(!new)>(src: Raster<T>, w: PixelWindow, tileW: nat, tileH: nat, x: nat, y: nat, before: seq<T>, after: seq<T>)
    requires tileW > 0 && tileH > 0
  {
    && src.Valid()
    && |before| == |after| == w.rows * w.cols
    && forall k :: 0 <= k < |after| ==>
         after[k] == if CellInTile(w, src.rows, src.cols, tileW, tileH, x, y, k) then Wanted(src, w, before[k], k) else before[k]
  }

  lemma RectangleIsTile<T(!new)>(src: Raster<T>, w: PixelWindow, tileW: nat, tileH: nat, x: nat, y: nat, before: seq<T>, after: seq<T>)
    requires tileW > 0 && tileH > 0
    requires var b := ReadableBounds(src.rows, src.cols, w);
             RectangleDone(src, w, before, after, Max(y * tileH, b.rowStart), Min(y * tileH + tileH, b.rowEnd),
                           Max(x * tileW, b.colStart), Min(x * tileW + tileW, b.colEnd))
    ensures TilePlaced(src, w, tileW, tileH, x, y, before, after)
  {
    hide Wanted, CellInRectangle, CellInTile;
    forall k | 0 <= k < |after|
      ensures after[k] == if CellInTile(w, src.rows, src.cols, tileW, tileH, x, y, k) then Wanted(src, w, before[k], k) else before[k]
    {
      TileIsRectangle(src.rows, src.cols, w, tileW, tileH, x, y, k);
    }
  }

  /** Cell `k` lies on a source pixel of the rectangle. */
  predicate CellInRectangle(w: PixelWindow, rowStart: int, rowEnd: int, colStart: int, colEnd: int, k: nat)
    requires k < w.rows * w.cols
  {
    rowStart <= SrcRow(w, k) < rowEnd && colStart <= SrcCol(w, k) < colEnd
  }

  /** The cells on the rectangle hold their source pixels and the others are as before. */
  ghost predicate RectangleDone<T(!new)>(src: Raster<T>, w: PixelWindow, before: seq<T>, after: seq<T>,
                                         rowStart: int, rowEnd: int, colStart: int, colEnd: int) {
    && src.Valid()
    && |before| == |after| == w.rows * w.cols
    && forall k :: 0 <= k < |after| ==>
         after[k] == if CellInRectangle(w, rowStart, rowEnd, colStart, colEnd, k) then Wanted(src, w, before[k], k) else before[k]
  }

  lemma NothingDone<T(!new)>(src: Raster<T>, w: PixelWindow, data: seq<T>, rowStart: int, rowEnd: int, colStart: int, colEnd: int)
    requires src.Valid() && |data| == w.rows * w.cols
    ensures rowStart >= rowEnd || colStart >= colEnd ==> RectangleDone(src, w, data, data, rowStart, rowEnd, colStart, colEnd)
  {
    hide SrcRow, SrcCol, Wanted;
  }

  /** Copying one more row of the tile extends the finished rectangle by that row. */
  lemma RowCopied<T(!new)>(src: Raster<T>, tile: Tile<T>, tileW: nat, tileH: nat, w: PixelWindow, first: seq<T>, before: seq<T>, after: seq<T>,
                           rowStart: int, srcRow: nat, colStart: nat, n: nat, srcIdx: nat, dstIdx: nat)
    requires tileW > 0 && tileH > 0 && IsTileOf(src, tile, tileW, tileH) && rowStart <= srcRow
    requires RectangleDone(src, w, first, before, rowStart, srcRow, colStart, colStart + n) && |after| == |before|
    requires tile.y * tileH <= srcRow < tile.y * tileH + tileH && srcRow < src.rows
    requires tile.x * tileW <= colStart && colStart + n <= tile.x * tileW + tileW && colStart + n <= src.cols
    requires 0 <= srcRow - w.rowOff < w.rows && 0 <= colStart - w.colOff && colStart - w.colOff + n <= w.cols
    requires srcIdx == (srcRow - tile.y * tileH) * tileW + (colStart - tile.x * tileW) && srcIdx + n <= |tile.data|
    requires dstIdx == (srcRow - w.rowOff) * w.cols + (colStart - w.colOff)
    requires forall k :: 0 <= k < |after| ==>
               after[k] == if dstIdx <= k < dstIdx + n then tile.data[srcIdx + k - dstIdx] else before[k]
    ensures RectangleDone(src, w, first, after, rowStart, srcRow + 1, colStart, colStart + n)
  {
    hide Wanted, SrcRow, SrcCol, IsTileOf;
    forall k | 0 <= k < |after|
      ensures after[k] == if CellInRectangle(w, rowStart, srcRow + 1, colStart, colStart + n, k)
                          then Wanted(src, w, first[k], k) else first[k]
    {
      RowSliceCells(w, srcRow, colStart, n, k);
      if dstIdx <= k < dstIdx + n {
        CellWithinWindow(w, k);
        SlicePixel(src, tile, tileW, tileH, w, srcRow, colStart + (k - dstIdx), k);
      }
    }
  }

  lemma TileIsRectangle(rows: nat, cols: nat, w: PixelWindow, tileW: nat, tileH: nat, x: nat, y: nat, k: nat)
    requires tileW > 0 && tileH > 0 && k < w.rows * w.cols
    ensures var b := ReadableBounds(rows, cols, w);
            CellInTile(w, rows, cols, tileW, tileH, x, y, k) <==>
            CellInRectangle(w, Max(y * tileH, b.rowStart), Min(y * tileH + tileH, b.rowEnd),
                            Max(x * tileW, b.colStart), Min(x * tileW + tileW, b.colEnd), k)
  {
    CellWithinWindow(w, k);
    hide SrcRow, SrcCol;
    PixelInTile(SrcRow(w, k), y, tileH);
    PixelInTile(SrcCol(w, k), x, tileW);
  }

  /** A slice of one row stays within the buffer. */
  lemma SliceFits(row: nat, col: nat, n: nat, rows: nat, cols: nat)
    requires row < rows && col + n <= cols
    ensures row * cols + col + n <= rows * cols
  {
    ProductMonotone(row + 1, rows, cols);
  }

  /** The flat slice written for a source row is that row of the rectangle. */
  lemma RowSliceCells(w: PixelWindow, srcRow: int, colStart: int, n: nat, k: nat)
    requires k < w.rows * w.cols
    requires 0 <= srcRow - w.rowOff < w.rows && 0 <= colStart - w.colOff && colStart - w.colOff + n <= w.cols
    ensures var dstIdx := (srcRow - w.rowOff) * w.cols + (colStart - w.colOff);
            dstIdx <= k < dstIdx + n <==> CellInRectangle(w, srcRow, srcRow + 1, colStart, colStart + n, k)
  {
    var row, col := srcRow - w.rowOff, colStart - w.colOff;
    CellWithinWindow(w, k);
    if row * w.cols + col <= k < row * w.cols + col + n {
      CellAt(w, row, k - row * w.cols);
    }
  }

  /** The tile element at row `row` and column `col` of a tile is the source pixel under it. */
  lemma TileElement<T(!new)>(src: Raster<T>, tile: Tile<T>, tileW: nat, tileH: nat, row: nat, col: nat)
    requires IsTileOf(src, tile, tileW, tileH) && row < tileH && col < tileW
    requires tile.y * tileH + row < src.rows && tile.x * tileW + col < src.cols
    ensures row * tileW + col < |tile.data|
    ensures tile.data[row * tileW + col] == src.Pixel(tile.y * tileH + row, tile.x * tileW + col)
  {
    FlatInBounds(row, col, tileH, tileW);
    assert TilePixelMatches(src, tile, tileW, tileH, row * tileW + col);
  }

  /** The tile element copied to cell `k` is the source pixel that belongs there. */
  lemma SlicePixel<T(!new)>(src: Raster<T>, tile: Tile<T>, tileW: nat, tileH: nat, w: PixelWindow, srcRow: nat, srcCol: nat, k: nat)
    requires tileW > 0 && tileH > 0 && IsTileOf(src, tile, tileW, tileH) && k < w.rows * w.cols
    requires tile.y * tileH <= srcRow < tile.y * tileH + tileH && srcRow < src.rows
    requires tile.x * tileW <= srcCol < tile.x * tileW + tileW && srcCol < src.cols
    requires SrcRow(w, k) == srcRow && SrcCol(w, k) == srcCol
    ensures var i := (srcRow - tile.y * tileH) * tileW + (srcCol - tile.x * tileW);
            i < |tile.data| && forall default :: Wanted(src, w, default, k) == tile.data[i]
  {
    hide SrcRow, SrcCol, IsTileOf;
    TileElement(src, tile, tileW, tileH, srcRow - tile.y * tileH, srcCol - tile.x * tileW);
  }

  // -------------------------------------------------------------- all tiles

  /** The source pixel under cell `k`, if any, is on one of the tiles. */
  predicate CellCovered<T>(w: PixelWindow, rows: nat, cols: nat, tileW: nat, tileH: nat, tiles: seq<Tile<T>>, k: nat)
    requires k < w.rows * w.cols && tileW > 0 && tileH > 0
  {
    exists t :: 0 <= t < |tiles| && CellInTile(w, rows, cols, tileW, tileH, tiles[t].x, tiles[t].y, k)
  }

  /** Places every tile, in the order in which they arrived, into a buffer of default values. */
  method StitchTiles<T(!new)>(w: PixelWindow, tiles: seq<Tile<T>>, tileW: nat, tileH: nat, b: ReadBounds, default: T, ghost src: Raster<T>)
    returns (data: seq<T>)
    requires tileW > 0 && tileH > 0 && src.Valid()
    requires b == ReadableBounds(src.rows, src.cols, w)
    requires forall t :: 0 <= t < |tiles| ==> IsTileOf(src, tiles[t], tileW, tileH)
    ensures |data| == w.rows * w.cols
    ensures forall k :: 0 <= k < |data| ==>
              data[k] == if CellCovered(w, src.rows, src.cols, tileW, tileH, tiles, k) then Wanted(src, w, default, k) else default
  {
    var out := new T[w.rows * w.cols](_ => default);
    for t := 0 to |tiles|
      invariant forall k :: 0 <= k < out.Length ==>
                  out[k] == if CellCovered(w, src.rows, src.cols, tileW, tileH, tiles[..t], k) then Wanted(src, w, default, k) else default
    {
      ghost var before := out[..];
      PlaceTile(out, w, tiles[t], tileW, tileH, b, src);
      hide Wanted, CellInTile, CellCovered;
      forall k | 0 <= k < out.Length
        ensures out[k] == if CellCovered(w, src.rows, src.cols, tileW, tileH, tiles[..t + 1], k) then Wanted(src, w, default, k) else default
      {
        CoveredByOneMore(w, src.rows, src.cols, tileW, tileH, tiles, t, k);
        assert out[k] == if CellInTile(w, src.rows, src.cols, tileW, tileH, tiles[t].x, tiles[t].y, k)
                         then Wanted(src, w, before[k], k) else before[k];
      }
    }
    assert tiles[..|tiles|] == tiles;
    return out[..];
  }

  lemma CoveredByOneMore<T>(w: PixelWindow, rows: nat, cols: nat, tileW: nat, tileH: nat, tiles: seq<Tile<T>>, t: nat, k: nat)
    requires k < w.rows * w.cols && tileW > 0 && tileH > 0 && t < |tiles|
    ensures CellCovered(w, rows, cols, tileW, tileH, tiles[..t + 1], k) <==>
            CellCovered(w, rows, cols, tileW, tileH, tiles[..t], k) || CellInTile(w, rows, cols, tileW, tileH, tiles[t].x, tiles[t].y, k)
  {
    var longer, shorter := tiles[..t + 1], tiles[..t];
    assert longer[t] == tiles[t];
    assert forall i :: 0 <= i < t ==> longer[i] == shorter[i];
  }

  /** The tiles fetched for a list of indices: each a tile of the source, and each index served. */
  ghost predicate Serves<T(!new)>(src: Raster<T>, tileW: nat, tileH: nat, indices: seq<(nat, nat)>, tiles: seq<Tile<T>>) {
    && (forall t :: 0 <= t < |tiles| ==> IsTileOf(src, tiles[t], tileW, tileH))
    && (forall i :: 0 <= i < |indices| ==> exists t :: 0 <= t < |tiles| && (tiles[t].x, tiles[t].y) == indices[i])
  }

  /**
   The whole read: choose tiles, fetch them in any order, stitch. It answers with the
   padded crop when the window meets the source, and with an error when it does not.
   */
  method ReadWindow<T(!new)>(w: PixelWindow, rows: nat, cols: nat, tileW: nat, tileH: nat, fetch: seq<(nat, nat)> -> seq<Tile<T>>,
                             default: T, ghost src: Raster<T>)
    returns (r: Result<Raster<T>, StitchError>)
    requires src.Valid() && src.rows == rows && src.cols == cols
    requires forall indices :: Serves(src, tileW, tileH, indices, fetch(indices))
    ensures r.Success? <==> tileW > 0 && tileH > 0 && Meets(rows, cols, w)
    ensures r.Success? ==> r.value.rows == w.rows && r.value.cols == w.cols && r.value.Valid()
                           && IsCropOf(r.value.data, src, w, default)
  {
    var b := ReadableBounds(rows, cols, w);
    var indices := TileIndices(b, tileW, tileH);
    if tileW > 0 && tileH > 0 {
      NoTilesIffDisjoint(rows, cols, w, tileW, tileH, indices);
    }
    if indices == [] {
      return Failure(DisjointWindow);
    }
    var tiles := fetch(indices);
    assert Serves(src, tileW, tileH, indices, tiles);
    var data := StitchTiles(w, tiles, tileW, tileH, b, default, src);
    forall k | 0 <= k < |data|
      ensures data[k] == Wanted(src, w, default, k)
    {
      ExistingCellIsCovered(src, w, tileW, tileH, indices, tiles, k);
    }
    return Success(Raster(w.rows, w.cols, data));
  }

  lemma ExistingCellIsCovered<T(!new)>(src: Raster<T>, w: PixelWindow, tileW: nat, tileH: nat, indices: seq<(nat, nat)>, tiles: seq<Tile<T>>, k: nat)
    requires src.Valid() && tileW > 0 && tileH > 0 && k < w.rows * w.cols
    requires Serves(src, tileW, tileH, indices, tiles)
    requires var b := ReadableBounds(src.rows, src.cols, w);
             forall x: nat, y: nat :: TileNeeded(b, tileW, tileH, x, y) ==> (x, y) in indices
    ensures forall default :: !CellCovered(w, src.rows, src.cols, tileW, tileH, tiles, k) ==> Wanted(src, w, default, k) == default
  {
    CellWithinWindow(w, k);
    hide SrcRow, SrcCol;
    var r, c := SrcRow(w, k), SrcCol(w, k);
    if src.Has(r, c) {
      var b := ReadableBounds(src.rows, src.cols, w);
      assert InBounds(b, r, c);
      assert TileNeeded(b, tileW, tileH, c / tileW, r / tileH);
      var i :| 0 <= i < |indices| && indices[i] == (c / tileW, r / tileH);
      var t :| 0 <= t < |tiles| && (tiles[t].x, tiles[t].y) == indices[i];
      assert CellInTile(w, src.rows, src.cols, tileW, tileH, tiles[t].x, tiles[t].y, k);
    }
  }

  // ----------------------------------------------------------- idempotence

  /** Cropping a raster to all of itself gives it back. */
  lemma WholeCropIsIdentity<T(!new)>(src: Raster<T>, out: seq<T>, default: T)
    requires src.Valid()
    ensures IsCropOf(out, src, PixelWindow(0, 0, src.cols, src.rows), default) <==> out == src.data
  {
    var w := PixelWindow(0, 0, src.cols, src.rows);
    forall k | 0 <= k < src.rows * src.cols
      ensures Wanted(src, w, default, k) == src.data[k]
    {
      WholeCropCell(src, w, default, k);
    }
    hide Wanted;
  }

  lemma WholeCropCell<T(!new)>(src: Raster<T>, w: PixelWindow, default: T, k: nat)
    requires src.Valid() && w == PixelWindow(0, 0, src.cols, src.rows) && k < src.rows * src.cols
    ensures Wanted(src, w, default, k) == src.data[k]
  {
    CellInBounds(k, src.rows, src.cols);
  }

  /**
   Cropping is idempotent: reading the same box again from the cropped raster, under the
   geo-transform written for it, yields the same raster.
   */
  lemma CroppingIsIdempotent<T(!new)>(crop: CropWindow, gt: GeoFrame, w: PixelWindow, src: Raster<T>, once: Raster<T>, again: seq<T>, default: T)
    requires once.rows == w.rows && once.cols == w.cols && IsCropOf(once.data, src, w, default)
    ensures NativePixelWindow(crop, gt) == Success(w) ==>
              var w' := NativePixelWindow(crop, OutputFrame(gt, w));
              && w' == Success(PixelWindow(0, 0, w.cols, w.rows))
              && (IsCropOf(again, once, w'.value, default) <==> again == once.data)
  {
    hide NativePixelWindow;
    RecropIsWhole(crop, gt, w);
    WholeCropIsIdentity(once, again, default);
  }
}
