/**
 Splitting a raster into blocks: the row-major grid of the kernel
 (crates/eo-kernel/src/executor.rs), the dataset partition (crates/orbit-geo/src/builder.rs),
 write windows (crates/orbit-geo/src/block.rs) and the transform of each block.
 */
module Tiling {
  import opened Wrappers
  import opened Arithmetic
  import opened Stitch

  /** Extents of a raster or of a block. */
  datatype Shape = Shape(rows: nat, cols: nat)

  datatype BlockId = BlockId(row: nat, col: nat)

  datatype Window = Window(rowOff: int, colOff: int, rows: int, cols: int) {
    predicate Holds(r: int, c: int) {
      rowOff <= r < rowOff + rows && colOff <= c < colOff + cols
    }
  }

  type Entry = (BlockId, Window)

  predicate Positive(block: Shape) {
    block.rows > 0 && block.cols > 0
  }

  // ------------------------------------------------------------ specification

  function DivCeil(n: nat, d: nat): nat
    requires d > 0
  {
    if n == 0 then 0 else (n - 1) / d + 1
  }

  function GridRows(shape: Shape, block: Shape): nat
    requires Positive(block)
  {
    DivCeil(shape.rows, block.rows)
  }

  function GridCols(shape: Shape, block: Shape): nat
    requires Positive(block)
  {
    DivCeil(shape.cols, block.cols)
  }

  /** The block of the grid at (br, bc), clipped to the raster. */
  function EntryAt(shape: Shape, block: Shape, br: nat, bc: nat): Entry {
    (BlockId(br, bc),
     Window(br * block.rows, bc * block.cols,
            Min(block.rows, shape.rows - br * block.rows), Min(block.cols, shape.cols - bc * block.cols)))
  }

  /** The first `n` blocks of the grid in row-major order. */
  function FirstBlocks(shape: Shape, block: Shape, n: nat): (entries: seq<Entry>)
    requires Positive(block) && n <= GridRows(shape, block) * GridCols(shape, block)
    ensures |entries| == n
  {
    seq(n, k requires 0 <= k < n =>
      CellInBounds(k, GridRows(shape, block), GridCols(shape, block));
      EntryAt(shape, block, k / GridCols(shape, block), k % GridCols(shape, block)))
  }

  function Blocks(shape: Shape, block: Shape): seq<Entry>
    requires Positive(block)
  {
    FirstBlocks(shape, block, GridRows(shape, block) * GridCols(shape, block))
  }

  lemma NextBlock(shape: Shape, block: Shape, br: nat, bc: nat)
    requires Positive(block) && br < GridRows(shape, block) && bc < GridCols(shape, block)
    ensures var n := br * GridCols(shape, block) + bc;
            && n < GridRows(shape, block) * GridCols(shape, block)
            && FirstBlocks(shape, block, n + 1) == FirstBlocks(shape, block, n) + [EntryAt(shape, block, br, bc)]
            && Blocks(shape, block)[n] == EntryAt(shape, block, br, bc)
  {
    FlatInBounds(br, bc, GridRows(shape, block), GridCols(shape, block));
  }

  /** There are `d`-sized steps left exactly while the next one starts inside. */
  lemma StepStartsInside(n: nat, d: nat, k: nat)
    requires d > 0
    ensures k < DivCeil(n, d) <==> k * d < n
  {
    if n > 0 {
      QuotientBounds(n - 1, d);
      var q := (n - 1) / d;
      assert k <= q ==> k * d <= q * d;
      assert k > q ==> k * d >= (q + 1) * d == q * d + d;
    }
  }

  // -------------------------------------------------------------- both tilers

  /** The kernel's grid: nested loops over block rows and columns. */
  method EnumerateBlocks(shape: Shape, block: Shape) returns (out: seq<Entry>)
    requires Positive(block)
    ensures out == Blocks(shape, block)
  {
    var nRows, nCols := GridRows(shape, block), GridCols(shape, block);
    out := [];
    for br := 0 to nRows
      invariant br * nCols <= nRows * nCols
      invariant out == FirstBlocks(shape, block, br * nCols)
    {
      ProductMonotone(br + 1, nRows, nCols);
      assert (br + 1) * nCols == br * nCols + nCols;
      for bc := 0 to nCols
        invariant out == FirstBlocks(shape, block, br * nCols + bc)
      {
        NextBlock(shape, block, br, bc);
        var rowOff, colOff := br * block.rows, bc * block.cols;
        var rows := Min(block.rows, shape.rows - rowOff);
        var cols := Min(block.cols, shape.cols - colOff);
        out := out + [(BlockId(br, bc), Window(rowOff, colOff, rows, cols))];
      }
    }
  }

  /** A GDAL affine transform. */
  datatype GeoTransform = GeoTransform(originX: real, pixelWidth: real, rowSkew: real,
                                       originY: real, colSkew: real, pixelHeight: real) {
    /** The map coordinates of a position in the raster. */
    function PixelToCrs(col: real, row: real): (real, real) {
      (originX + col * pixelWidth + row * rowSkew, originY + col * colSkew + row * pixelHeight)
    }

    /** The transform given to a block: the origin moves by whole pixels, without skew. */
    function Shifted(r: int, c: int): GeoTransform {
      this.(originX := originX + c as real * pixelWidth, originY := originY + r as real * pixelHeight)
    }
  }

  /** A size that may be negative. */
  datatype Size = Size(rows: int, cols: int)

  datatype Overlap = Overlap(top: nat, bottom: nat, left: nat, right: nat)

  datatype Region = Region(index: nat, window: Window, overlap: Overlap, transform: GeoTransform, epsg: nat) {
    function InnerSize(): Size {
      Size(window.rows - (overlap.top + overlap.bottom), window.cols - (overlap.left + overlap.right))
    }

    /** Where the block's inner data is written; empty or negative when overlaps eat the block. */
    function WriteWindow(): Window {
      Window(window.rowOff + overlap.top, window.colOff + overlap.left, InnerSize().rows, InnerSize().cols)
    }
  }

  /** `regions` are the blocks of the grid, numbered in order, with the parent's settings. */
  predicate RegionsOf(regions: seq<Region>, entries: seq<Entry>, overlap: Overlap, gt: GeoTransform, epsg: nat) {
    && |regions| == |entries|
    && forall k :: 0 <= k < |regions| ==>
         && regions[k].index == k
         && regions[k].window == entries[k].1
         && regions[k].overlap == overlap
         && regions[k].transform == gt.Shifted(entries[k].1.rowOff, entries[k].1.colOff)
         && regions[k].epsg == epsg
  }

  /** The dataset's partition: loops over pixel offsets. Windows and order are the kernel's. */
  method PartitionBlocks(shape: Shape, block: Shape, overlap: Overlap, gt: GeoTransform, epsg: nat) returns (blocks: seq<Region>)
    requires Positive(block)
    ensures RegionsOf(blocks, Blocks(shape, block), overlap, gt, epsg)
  {
    ghost var nRows, nCols := GridRows(shape, block), GridCols(shape, block);
    blocks := [];
    var index := 0;
    var r := 0;
    ghost var br := 0;
    StepStartsInside(shape.rows, block.rows, 0);
    while r < shape.rows
      invariant r == br * block.rows && br <= nRows && (r < shape.rows <==> br < nRows)
      invariant br * nCols <= nRows * nCols && index == br * nCols
      invariant RegionsOf(blocks, FirstBlocks(shape, block, br * nCols), overlap, gt, epsg)
      decreases nRows - br
    {
      ProductMonotone(br + 1, nRows, nCols);
      assert (br + 1) * nCols == br * nCols + nCols;
      var blockRows := Min(block.rows, shape.rows - r);
      var c := 0;
      ghost var bc := 0;
      StepStartsInside(shape.cols, block.cols, 0);
      while c < shape.cols
        invariant c == bc * block.cols && bc <= nCols && (c < shape.cols <==> bc < nCols)
        invariant index == br * nCols + bc
        invariant RegionsOf(blocks, FirstBlocks(shape, block, br * nCols + bc), overlap, gt, epsg)
        decreases nCols - bc
      {
        NextBlock(shape, block, br, bc);
        StepStartsInside(shape.cols, block.cols, bc + 1);
        assert (bc + 1) * block.cols == bc * block.cols + block.cols;
        var blockCols := Min(block.cols, shape.cols - c);
        blocks := blocks + [Region(index, Window(r, c, blockRows, blockCols), overlap, gt.Shifted(r, c), epsg)];
        index := index + 1;
        c := c + block.cols;
        bc := bc + 1;
      }
      StepStartsInside(shape.rows, block.rows, br + 1);
      assert (br + 1) * block.rows == br * block.rows + block.rows;
      r := r + block.rows;
      br := br + 1;
    }
  }

  // --------------------------------------------------------------- exact cover

  /** The place in the grid of the block under a pixel. */
  function BlockUnder(shape: Shape, block: Shape, r: nat, c: nat): nat
    requires Positive(block)
  {
    r / block.rows * GridCols(shape, block) + c / block.cols
  }

  /** Blocks are nonempty and inside the raster. */
  lemma BlocksAreInside(shape: Shape, block: Shape, k: nat)
    requires Positive(block) && k < |Blocks(shape, block)|
    ensures var w := Blocks(shape, block)[k].1;
            && 0 <= w.rowOff && 0 < w.rows <= block.rows && w.rowOff + w.rows <= shape.rows
            && 0 <= w.colOff && 0 < w.cols <= block.cols && w.colOff + w.cols <= shape.cols
  {
    var nCols := GridCols(shape, block);
    CellInBounds(k, GridRows(shape, block), nCols);
    StepStartsInside(shape.rows, block.rows, k / nCols);
    StepStartsInside(shape.cols, block.cols, k % nCols);
  }

  /** Along one axis, step `k` holds a position exactly when it is the position's quotient. */
  lemma StepHolds(n: nat, d: nat, k: nat, p: nat)
    requires d > 0 && p < n
    ensures k * d <= p < k * d + Min(d, n - k * d) <==> k == p / d
  {
    QuotientBounds(p, d);
    if k * d <= p < k * d + d {
      QuotientIs(p, d, k);
    }
  }

  /** Each pixel lies in exactly one block. */
  lemma OneBlockPerPixel(shape: Shape, block: Shape, r: nat, c: nat)
    requires Positive(block) && r < shape.rows && c < shape.cols
    ensures BlockUnder(shape, block, r, c) < |Blocks(shape, block)|
    ensures forall k :: 0 <= k < |Blocks(shape, block)| ==>
              (Blocks(shape, block)[k].1.Holds(r, c) <==> k == BlockUnder(shape, block, r, c))
  {
    UnderIsABlock(shape, block, r, c);
    forall k | 0 <= k < |Blocks(shape, block)|
      ensures Blocks(shape, block)[k].1.Holds(r, c) <==> k == BlockUnder(shape, block, r, c)
    {
      BlockHoldsPixel(shape, block, r, c, k);
    }
    hide Blocks, BlockUnder;
  }

  lemma UnderIsABlock(shape: Shape, block: Shape, r: nat, c: nat)
    requires Positive(block) && r < shape.rows && c < shape.cols
    ensures BlockUnder(shape, block, r, c) < |Blocks(shape, block)|
  {
    QuotientBounds(r, block.rows);
    QuotientBounds(c, block.cols);
    StepStartsInside(shape.rows, block.rows, r / block.rows);
    StepStartsInside(shape.cols, block.cols, c / block.cols);
    FlatInBounds(r / block.rows, c / block.cols, GridRows(shape, block), GridCols(shape, block));
  }

  lemma BlockHoldsPixel(shape: Shape, block: Shape, r: nat, c: nat, k: nat)
    requires Positive(block) && r < shape.rows && c < shape.cols && k < |Blocks(shape, block)|
    ensures Blocks(shape, block)[k].1.Holds(r, c) <==> k == BlockUnder(shape, block, r, c)
  {
    var br, bc := BlockPlace(shape, block, k);
    EntryHoldsPixel(shape, block, br, bc, r, c);
    PlaceUnder(shape, block, r, c, br, bc);
    hide Blocks, EntryAt, BlockUnder, GridCols;
  }

  /** The row and column of a block in the grid. */
  lemma BlockPlace(shape: Shape, block: Shape, k: nat) returns (br: nat, bc: nat)
    requires Positive(block) && k < |Blocks(shape, block)|
    ensures bc < GridCols(shape, block) && k == br * GridCols(shape, block) + bc
    ensures Blocks(shape, block)[k] == EntryAt(shape, block, br, bc)
  {
    var nRows, nCols := GridRows(shape, block), GridCols(shape, block);
    CellInBounds(k, nRows, nCols);
    br, bc := k / nCols, k % nCols;
  }

  lemma EntryHoldsPixel(shape: Shape, block: Shape, br: nat, bc: nat, r: nat, c: nat)
    requires Positive(block) && r < shape.rows && c < shape.cols
    ensures EntryAt(shape, block, br, bc).1.Holds(r, c) <==> br == r / block.rows && bc == c / block.cols
  {
    StepHolds(shape.rows, block.rows, br, r);
    StepHolds(shape.cols, block.cols, bc, c);
  }

  /** Only the block at (r / rows, c / cols) has the place of the block under the pixel. */
  lemma PlaceUnder(shape: Shape, block: Shape, r: nat, c: nat, br: nat, bc: nat)
    requires Positive(block) && r < shape.rows && c < shape.cols && bc < GridCols(shape, block)
    ensures br * GridCols(shape, block) + bc == BlockUnder(shape, block, r, c) <==> br == r / block.rows && bc == c / block.cols
  {
    QuotientBounds(c, block.cols);
    StepStartsInside(shape.cols, block.cols, c / block.cols);
    SplitIsUnique(br, bc, r / block.rows, c / block.cols, GridCols(shape, block));
  }

  lemma SplitIsUnique(q: nat, rest: nat, q': nat, rest': nat, d: nat)
    requires rest < d && rest' < d
    ensures q * d + rest == q' * d + rest' <==> q == q' && rest == rest'
  {
    if q < q' {
      ProductMonotone(q + 1, q', d);
    } else if q' < q {
      ProductMonotone(q' + 1, q, d);
    }
  }

  // ------------------------------------------------------------- applying work

  datatype Loaded<+P> = Loaded(id: BlockId, window: Window, size: Shape, pixels: P)

  datatype WorkerError<+E> = WorkerError(id: BlockId, source: E)

  /** Reading and processing one block. */
  function Outcome<P, O, E>(entry: Entry, size: Shape, read: (BlockId, Window) -> Result<P, E>,
                            worker: Loaded<P> -> Result<O, E>): Result<O, WorkerError<E>> {
    match read(entry.0, entry.1)
    case Failure(e) => Failure(WorkerError(entry.0, e))
    case Success(pixels) =>
      match worker(Loaded(entry.0, entry.1, size, pixels))
      case Failure(e) => Failure(WorkerError(entry.0, e))
      case Success(o) => Success(o)
  }

  /** The block can be read, and the worker makes `o` of it. */
  predicate Yields<P, O(==), E>(entry: Entry, size: Shape, read: (BlockId, Window) -> Result<P, E>,
                                worker: Loaded<P> -> Result<O, E>, o: O) {
    var r := read(entry.0, entry.1);
    r.Success? && worker(Loaded(entry.0, entry.1, size, r.value)) == Success(o)
  }

  predicate Succeeds<P, O, E>(entry: Entry, size: Shape, read: (BlockId, Window) -> Result<P, E>, worker: Loaded<P> -> Result<O, E>) {
    var r := read(entry.0, entry.1);
    r.Success? && worker(Loaded(entry.0, entry.1, size, r.value)).Success?
  }

  /** The block cannot be read, or the worker fails on it, with the error `e`. */
  predicate Breaks<P, O(==), E(==)>(entry: Entry, size: Shape, read: (BlockId, Window) -> Result<P, E>,
                                    worker: Loaded<P> -> Result<O, E>, e: E) {
    match read(entry.0, entry.1)
    case Failure(reason) => e == reason
    case Success(pixels) => worker(Loaded(entry.0, entry.1, size, pixels)) == Failure(e)
  }

  /** All outputs in row-major order, or the error of the first bad block in that order. */
  method ApplyBlocks<P, O, E>(shape: Shape, block: Shape, read: (BlockId, Window) -> Result<P, E>,
                              worker: Loaded<P> -> Result<O, E>) returns (r: Result<seq<O>, WorkerError<E>>)
    requires Positive(block)
    ensures r.Success? ==>
              && |r.value| == |Blocks(shape, block)|
              && forall k :: 0 <= k < |r.value| ==> Yields(Blocks(shape, block)[k], block, read, worker, r.value[k])
    ensures r.Failure? ==>
              exists k :: 0 <= k < |Blocks(shape, block)|
                          && Breaks(Blocks(shape, block)[k], block, read, worker, r.error.source)
                          && r.error.id == Blocks(shape, block)[k].0
                          && forall j :: 0 <= j < k ==> Succeeds(Blocks(shape, block)[j], block, read, worker)
  {
    var grid := EnumerateBlocks(shape, block);
    hide Blocks;
    var results := seq(|grid|, k requires 0 <= k < |grid| => Outcome(grid[k], block, read, worker));
    var out: seq<O> := [];
    for k := 0 to |results|
      invariant |out| == k
      invariant forall j :: 0 <= j < k ==> Yields(grid[j], block, read, worker, out[j]) && Succeeds(grid[j], block, read, worker)
    {
      if results[k].Failure? {
        return Failure(results[k].error);
      }
      out := out + [results[k].value];
    }
    return Success(out);
  }

  // ------------------------------------------------------- work per pixel

  predicate Inside(w: Window, shape: Shape) {
    && 0 <= w.rowOff && 0 <= w.rows && w.rowOff + w.rows <= shape.rows
    && 0 <= w.colOff && 0 <= w.cols && w.colOff + w.cols <= shape.cols
  }

  /** A raster given cell by cell. */
  function Tabulate<T>(rows: nat, cols: nat, f: (nat, nat) --> T): (t: Raster<T>)
    requires forall r: nat, c: nat :: r < rows && c < cols ==> f.requires(r, c)
    ensures t.Valid() && t.rows == rows && t.cols == cols
    ensures forall r: nat, c: nat :: r < rows && c < cols ==> t.Pixel(r, c) == f(r, c)
  {
    var data := seq(rows * cols, k requires 0 <= k < rows * cols => CellInBounds(k, rows, cols); f(k / cols, k % cols));
    var t := Raster(rows, cols, data);
    assert forall r: nat, c: nat :: r < rows && c < cols ==> t.Pixel(r, c) == f(r, c) by {
      forall r: nat, c: nat | r < rows && c < cols ensures t.Pixel(r, c) == f(r, c) {
        FlatInBounds(r, c, rows, cols);
      }
    }
    t
  }

  /** The part of a raster under a window. */
  function Crop<T>(src: Raster<T>, w: Window): Raster<T>
    requires src.Valid() && Inside(w, Shape(src.rows, src.cols))
  {
    Tabulate(w.rows, w.cols, (r: nat, c: nat) requires r < w.rows && c < w.cols => src.Pixel(w.rowOff + r, w.colOff + c))
  }

  function MapRaster<T, U>(f: T -> U, src: Raster<T>): Raster<U>
    requires src.Valid()
  {
    Tabulate(src.rows, src.cols, (r: nat, c: nat) requires r < src.rows && c < src.cols => f(src.Pixel(r, c)))
  }

  /** Writing a block's output over the canvas at its window. */
  function Place<U>(canvas: Raster<U>, w: Window, data: Raster<U>): Raster<U>
    requires canvas.Valid() && data.Valid() && data.rows == w.rows && data.cols == w.cols
  {
    Tabulate(canvas.rows, canvas.cols,
             (r: nat, c: nat) requires r < canvas.rows && c < canvas.cols =>
               if w.Holds(r, c) then data.Pixel(r - w.rowOff, c - w.colOff) else canvas.Pixel(r, c))
  }

  /** A reader that serves a raster, and a worker that maps every pixel. */
  function ReaderOf<T, E>(src: Raster<T>, outside: E): (BlockId, Window) -> Result<Raster<T>, E>
    requires src.Valid()
  {
    (id: BlockId, w: Window) => if Inside(w, Shape(src.rows, src.cols)) then Success(Crop(src, w)) else Failure(outside)
  }

  function PixelWorker<T, U, E>(f: T -> U, invalid: E): Loaded<Raster<T>> -> Result<Raster<U>, E> {
    (b: Loaded<Raster<T>>) => if b.pixels.Valid() then Success(MapRaster(f, b.pixels)) else Failure(invalid)
  }

  /** What `ApplyBlocks` returns for a reader of `src` and a per-pixel worker. */
  ghost predicate AppliedTo<T, U, E>(src: Raster<T>, block: Shape, f: T -> U, e: E, outs: seq<Raster<U>>)
    requires src.Valid() && Positive(block)
  {
    var entries := Blocks(Shape(src.rows, src.cols), block);
    && |outs| == |entries|
    && forall k :: 0 <= k < |outs| ==> Yields(entries[k], block, ReaderOf(src, e), PixelWorker(f, e), outs[k])
  }

  lemma OutputIsMappedCrop<T, U, E>(src: Raster<T>, block: Shape, f: T -> U, e: E, k: nat)
    requires src.Valid() && Positive(block) && k < |Blocks(Shape(src.rows, src.cols), block)|
    ensures var entry := Blocks(Shape(src.rows, src.cols), block)[k];
            && Inside(entry.1, Shape(src.rows, src.cols))
            && Yields(entry, block, ReaderOf(src, e), PixelWorker(f, e), MapRaster(f, Crop(src, entry.1)))
  {
    BlocksAreInside(Shape(src.rows, src.cols), block, k);
  }

  function PlaceAll<U>(canvas: Raster<U>, entries: seq<Entry>, outs: seq<Raster<U>>, order: seq<nat>): (r: Raster<U>)
    requires canvas.Valid() && |outs| == |entries|
    requires forall k :: 0 <= k < |outs| ==> outs[k].Valid() && outs[k].rows == entries[k].1.rows && outs[k].cols == entries[k].1.cols
    requires forall i :: 0 <= i < |order| ==> order[i] < |outs|
    ensures r.Valid() && r.rows == canvas.rows && r.cols == canvas.cols
  {
    if order == [] then canvas
    else
      var before := PlaceAll(canvas, entries, outs, order[..|order| - 1]);
      Place(before, entries[order[|order| - 1]].1, outs[order[|order| - 1]])
  }

  /** One write: the mapped source under the window, the canvas elsewhere. */
  lemma PlacedPixel<T, U>(src: Raster<T>, f: T -> U, w: Window, before: Raster<U>, r: nat, c: nat)
    requires src.Valid() && Inside(w, Shape(src.rows, src.cols))
    requires before.Valid() && before.rows == src.rows && before.cols == src.cols && src.Has(r, c)
    ensures Place(before, w, MapRaster(f, Crop(src, w))).Pixel(r, c)
            == if w.Holds(r, c) then f(src.Pixel(r, c)) else before.Pixel(r, c)
  {
    hide Tabulate;
  }

  /** After placing blocks in some order, a pixel is final once its block has been placed. */
  lemma {:induction false} PixelAfterPlacing<T, U, E>(src: Raster<T>, block: Shape, f: T -> U, e: E, outs: seq<Raster<U>>,
                                                      canvas: Raster<U>, order: seq<nat>, r: nat, c: nat)
    requires src.Valid() && Positive(block) && AppliedTo(src, block, f, e, outs)
    requires canvas.Valid() && canvas.rows == src.rows && canvas.cols == src.cols && src.Has(r, c)
    requires forall i :: 0 <= i < |order| ==> order[i] < |outs|
    requires forall k :: 0 <= k < |outs| ==> var w := Blocks(Shape(src.rows, src.cols), block)[k].1;
               outs[k].Valid() && outs[k].rows == w.rows && outs[k].cols == w.cols
    ensures PlaceAll(canvas, Blocks(Shape(src.rows, src.cols), block), outs, order).Pixel(r, c)
            == if BlockUnder(Shape(src.rows, src.cols), block, r, c) in order then f(src.Pixel(r, c)) else canvas.Pixel(r, c)
    decreases |order|
  {
    if order != [] {
      var shape := Shape(src.rows, src.cols);
      var front, k := order[..|order| - 1], order[|order| - 1];
      assert order == front + [k];
      PixelAfterPlacing(src, block, f, e, outs, canvas, front, r, c);
      OneBlockPerPixel(shape, block, r, c);
      OutputIsMappedCrop(src, block, f, e, k);
      var entries := Blocks(shape, block);
      assert outs[k] == MapRaster(f, Crop(src, entries[k].1));
      var before := PlaceAll(canvas, entries, outs, front);
      assert PlaceAll(canvas, entries, outs, order) == Place(before, entries[k].1, outs[k]);
      hide Blocks, BlockUnder, Outcome, ReaderOf, PixelWorker, AppliedTo, PlaceAll, Tabulate;
      PlacedPixel(src, f, entries[k].1, before, r, c);
    }
  }

  /**
   Placing the outputs of a per-pixel worker back by window, in any order that leaves no
   block out, gives the mapped raster, whatever was on the canvas.
   */
  lemma PlacedBlocksMakeTheImage<T, U, E>(src: Raster<T>, block: Shape, f: T -> U, e: E, outs: seq<Raster<U>>,
                                          canvas: Raster<U>, order: seq<nat>)
    requires src.Valid() && Positive(block) && AppliedTo(src, block, f, e, outs)
    requires canvas.Valid() && canvas.rows == src.rows && canvas.cols == src.cols
    requires forall i :: 0 <= i < |order| ==> order[i] < |outs|
    requires forall k :: 0 <= k < |outs| ==> k in order
    ensures forall k :: 0 <= k < |outs| ==> var w := Blocks(Shape(src.rows, src.cols), block)[k].1;
              outs[k].Valid() && outs[k].rows == w.rows && outs[k].cols == w.cols
    ensures PlaceAll(canvas, Blocks(Shape(src.rows, src.cols), block), outs, order) == MapRaster(f, src)
  {
    var shape := Shape(src.rows, src.cols);
    forall k: nat | k < |outs|
      ensures var w := Blocks(shape, block)[k].1; outs[k].Valid() && outs[k].rows == w.rows && outs[k].cols == w.cols
    {
      OutputIsMappedCrop(src, block, f, e, k);
      assert outs[k] == MapRaster(f, Crop(src, Blocks(shape, block)[k].1));
    }
    var placed := PlaceAll(canvas, Blocks(shape, block), outs, order);
    forall r: nat, c: nat | r < src.rows && c < src.cols
      ensures placed.Pixel(r, c) == MapRaster(f, src).Pixel(r, c)
    {
      OneBlockPerPixel(shape, block, r, c);
      PixelAfterPlacing(src, block, f, e, outs, canvas, order, r, c);
    }
    hide PlaceAll, MapRaster;
    SamePixelsSameRaster(placed, MapRaster(f, src));
  }

  lemma SamePixelsSameRaster<U>(a: Raster<U>, b: Raster<U>)
    requires a.Valid() && b.Valid() && a.rows == b.rows && a.cols == b.cols
    requires forall r: nat, c: nat :: r < a.rows && c < a.cols ==> a.Pixel(r, c) == b.Pixel(r, c)
    ensures a == b
  {
    forall k | 0 <= k < |a.data|
      ensures a.data[k] == b.data[k]
    {
      CellInBounds(k, a.rows, a.cols);
      assert a.Pixel(k / a.cols, k % a.cols) == b.Pixel(k / a.cols, k % a.cols);
    }
  }

  // --------------------------------------------------- transforms and overlaps

  /** Every local position has the same map coordinates through the block and through the parent. */
  ghost predicate TransformAgrees(gt: GeoTransform, r: int, c: int) {
    forall col: real, row: real :: Here(gt, r, c, col, row) == There(gt, r, c, col, row)
  }

  /** What the skews make of a block's offset. */
  function SkewX(gt: GeoTransform, r: int): real {
    r as real * gt.rowSkew
  }

  function SkewY(gt: GeoTransform, c: int): real {
    c as real * gt.colSkew
  }

  lemma SkewsAreZeroIff(gt: GeoTransform, r: int, c: int)
    ensures SkewX(gt, r) == 0.0 <==> r == 0 || gt.rowSkew == 0.0
    ensures SkewY(gt, c) == 0.0 <==> c == 0 || gt.colSkew == 0.0
  {
    ZeroProduct(r as real, gt.rowSkew);
    ZeroProduct(c as real, gt.colSkew);
  }

  /** Map coordinates through the block, and of the same place through the parent. */
  function Here(gt: GeoTransform, r: int, c: int, col: real, row: real): (real, real) {
    gt.Shifted(r, c).PixelToCrs(col, row)
  }

  function There(gt: GeoTransform, r: int, c: int, col: real, row: real): (real, real) {
    gt.PixelToCrs(c as real + col, r as real + row)
  }

  lemma AgreesIffNoSkewAtOrigin(gt: GeoTransform, r: int, c: int)
    ensures TransformAgrees(gt, r, c) <==> (r == 0 || gt.rowSkew == 0.0) && (c == 0 || gt.colSkew == 0.0)
  {
    hide SkewX, SkewY, Here, There;
    SkewsAreZeroIff(gt, r, c);
    ParentIsShiftedBySkew(gt, r, c, 0.0, 0.0);
    forall col: real, row: real
      ensures There(gt, r, c, col, row) == (Here(gt, r, c, col, row).0 + SkewX(gt, r), Here(gt, r, c, col, row).1 + SkewY(gt, c))
    {
      ParentIsShiftedBySkew(gt, r, c, col, row);
    }
  }

  /** The parent's coordinates differ from the block's by the skew over the block's offset. */
  lemma ParentIsShiftedBySkew(gt: GeoTransform, r: int, c: int, col: real, row: real)
    ensures There(gt, r, c, col, row) == (Here(gt, r, c, col, row).0 + SkewX(gt, r), Here(gt, r, c, col, row).1 + SkewY(gt, c))
  {
    var here, there := Here(gt, r, c, col, row), There(gt, r, c, col, row);
    assert there.0 == gt.originX + (c as real + col) * gt.pixelWidth + (r as real + row) * gt.rowSkew;
    assert there.1 == gt.originY + (c as real + col) * gt.colSkew + (r as real + row) * gt.pixelHeight;
    assert here.0 == (gt.originX + c as real * gt.pixelWidth) + col * gt.pixelWidth + row * gt.rowSkew;
    assert here.1 == (gt.originY + r as real * gt.pixelHeight) + col * gt.colSkew + row * gt.pixelHeight;
    Regroup(gt.originX, c as real, col, gt.pixelWidth, r as real, row, gt.rowSkew);
    Regroup(gt.originY, r as real, row, gt.pixelHeight, c as real, col, gt.colSkew);
    assert there.0 == here.0 + SkewX(gt, r);
    assert there.1 == here.1 + SkewY(gt, c);
  }

  lemma Regroup(origin: real, a: real, b: real, d: real, a': real, b': real, d': real)
    ensures origin + (a + b) * d + (a' + b') * d' == (origin + a * d) + b * d + b' * d' + a' * d'
  {
    Distribute(a, b, d);
    Distribute(a', b', d');
  }

  lemma Distribute(a: real, b: real, d: real)
    ensures (a + b) * d == a * d + b * d
  {
  }

  lemma ZeroProduct(a: real, b: real)
    ensures a * b == 0.0 <==> a == 0.0 || b == 0.0
  {
  }

  /** Every block's transform agrees with the parent's exactly when no skew acts across blocks. */
  lemma AllAgreeIffNoSkewAcrossBlocks(shape: Shape, block: Shape, gt: GeoTransform)
    requires Positive(block) && shape.rows > 0 && shape.cols > 0
    ensures (forall k :: 0 <= k < |Blocks(shape, block)| ==>
               TransformAgrees(gt, Blocks(shape, block)[k].1.rowOff, Blocks(shape, block)[k].1.colOff))
            <==> (gt.rowSkew == 0.0 || shape.rows <= block.rows) && (gt.colSkew == 0.0 || shape.cols <= block.cols)
  {
    forall k | 0 <= k < |Blocks(shape, block)|
      ensures var w := Blocks(shape, block)[k].1;
              TransformAgrees(gt, w.rowOff, w.colOff) <==> (w.rowOff == 0 || gt.rowSkew == 0.0) && (w.colOff == 0 || gt.colSkew == 0.0)
    {
      AgreesIffNoSkewAtOrigin(gt, Blocks(shape, block)[k].1.rowOff, Blocks(shape, block)[k].1.colOff);
    }
    BlockOfPixel(shape, block, shape.rows - 1, 0);
    BlockOfPixel(shape, block, 0, shape.cols - 1);
    forall k | 0 <= k < |Blocks(shape, block)|
      ensures var w := Blocks(shape, block)[k].1;
              && (shape.rows <= block.rows ==> w.rowOff == 0) && (shape.cols <= block.cols ==> w.colOff == 0)
    {
      OffsetsAreSteps(shape, block, k);
    }
    hide Blocks, TransformAgrees;
  }

  lemma BlockOfPixel(shape: Shape, block: Shape, r: nat, c: nat)
    requires Positive(block) && r < shape.rows && c < shape.cols
    ensures exists k :: 0 <= k < |Blocks(shape, block)| && Blocks(shape, block)[k].1.Holds(r, c)
                        && Blocks(shape, block)[k].1.rows <= block.rows && Blocks(shape, block)[k].1.cols <= block.cols
  {
    OneBlockPerPixel(shape, block, r, c);
    BlocksAreInside(shape, block, BlockUnder(shape, block, r, c));
  }

  lemma OffsetsAreSteps(shape: Shape, block: Shape, k: nat)
    requires Positive(block) && k < |Blocks(shape, block)|
    ensures var w := Blocks(shape, block)[k].1;
            && (w.rowOff == 0 || block.rows <= w.rowOff < shape.rows)
            && (w.colOff == 0 || block.cols <= w.colOff < shape.cols)
  {
    BlocksAreInside(shape, block, k);
    var nCols := GridCols(shape, block);
    CellInBounds(k, GridRows(shape, block), nCols);
    MultipleIsZeroOrAtLeast(k / nCols, block.rows);
    MultipleIsZeroOrAtLeast(k % nCols, block.cols);
  }

  lemma MultipleIsZeroOrAtLeast(k: nat, d: nat)
    ensures k * d == 0 || k * d >= d
  {
    if k > 0 { ProductMonotone(1, k, d); }
  }

  /** How far a pixel is from the first row (column) of its block, and from the end of it. */
  predicate ClearsOverlap(n: nat, d: nat, before: nat, after: nat, p: nat)
    requires d > 0
  {
    p % d >= before && p % d + after < Min(d, n - p / d * d)
  }

  lemma HoldsInsideOverlap(n: nat, d: nat, before: nat, after: nat, k: nat, p: nat)
    requires d > 0 && p < n
    ensures k * d + before <= p < k * d + before + (Min(d, n - k * d) - (before + after))
            <==> k == p / d && ClearsOverlap(n, d, before, after, p)
  {
    StepHolds(n, d, k, p);
    QuotientBounds(p, d);
  }

  /** A pixel is written by the block it lies in, if there it clears the overlap, and by no other. */
  lemma WrittenWhere(shape: Shape, block: Shape, regions: seq<Region>, overlap: Overlap, gt: GeoTransform, epsg: nat,
                     r: nat, c: nat, k: nat)
    requires Positive(block) && RegionsOf(regions, Blocks(shape, block), overlap, gt, epsg)
    requires r < shape.rows && c < shape.cols && k < |regions|
    ensures regions[k].WriteWindow().Holds(r, c) <==>
              && k == BlockUnder(shape, block, r, c)
              && ClearsOverlap(shape.rows, block.rows, overlap.top, overlap.bottom, r)
              && ClearsOverlap(shape.cols, block.cols, overlap.left, overlap.right, c)
  {
    var br, bc := BlockPlace(shape, block, k);
    PlaceUnder(shape, block, r, c, br, bc);
    HoldsInsideOverlap(shape.rows, block.rows, overlap.top, overlap.bottom, br, r);
    HoldsInsideOverlap(shape.cols, block.cols, overlap.left, overlap.right, bc, c);
    hide Blocks, BlockUnder, GridCols, ClearsOverlap;
  }

  lemma ClearOfNoOverlap(n: nat, d: nat, p: nat)
    requires d > 0 && p < n
    ensures ClearsOverlap(n, d, 0, 0, p)
  {
    QuotientBounds(p, d);
  }

  /** The first position is not clear of an overlap before, nor the last of one after. */
  lemma EndsAreNotClear(n: nat, d: nat, before: nat, after: nat)
    requires d > 0 && n > 0 && (before > 0 || after > 0)
    ensures !ClearsOverlap(n, d, before, after, if after > 0 then n - 1 else 0)
  {
    QuotientBounds(n - 1, d);
    QuotientIs(0, d, 0);
  }

  predicate Writes(regions: seq<Region>, k: int, r: int, c: int) {
    0 <= k < |regions| && regions[k].WriteWindow().Holds(r, c)
  }

  /** Exactly one block writes the pixel. */
  ghost predicate WrittenOnce(regions: seq<Region>, r: int, c: int) {
    exists k :: Writes(regions, k, r, c) && forall j :: Writes(regions, j, r, c) ==> j == k
  }

  /** For one pixel: written once if it clears the overlap in its block, else not at all. */
  lemma WrittenOnceIffClear(shape: Shape, block: Shape, regions: seq<Region>, overlap: Overlap, gt: GeoTransform, epsg: nat,
                            r: nat, c: nat)
    requires Positive(block) && RegionsOf(regions, Blocks(shape, block), overlap, gt, epsg)
    requires r < shape.rows && c < shape.cols
    ensures WrittenOnce(regions, r, c) <==>
              && ClearsOverlap(shape.rows, block.rows, overlap.top, overlap.bottom, r)
              && ClearsOverlap(shape.cols, block.cols, overlap.left, overlap.right, c)
    ensures forall i, j :: Writes(regions, i, r, c) && Writes(regions, j, r, c) ==> i == j
  {
    hide Blocks, BlockUnder, ClearsOverlap;
    OneBlockPerPixel(shape, block, r, c);
    var home := BlockUnder(shape, block, r, c);
    var clear := ClearsOverlap(shape.rows, block.rows, overlap.top, overlap.bottom, r)
                 && ClearsOverlap(shape.cols, block.cols, overlap.left, overlap.right, c);
    forall k
      ensures Writes(regions, k, r, c) <==> k == home && clear
    {
      if 0 <= k < |regions| {
        WrittenWhere(shape, block, regions, overlap, gt, epsg, r, c, k);
      }
    }
    assert Writes(regions, home, r, c) <==> clear;
    hide Writes;
  }

  /**
   Write windows tile the raster exactly when there is no overlap: read windows are not
   widened by the overlap that write windows shed.
   */
  lemma WritesTileIffNoOverlap(shape: Shape, block: Shape, regions: seq<Region>, overlap: Overlap, gt: GeoTransform, epsg: nat)
    requires Positive(block) && RegionsOf(regions, Blocks(shape, block), overlap, gt, epsg)
    requires shape.rows > 0 && shape.cols > 0
    ensures (forall r, c :: 0 <= r < shape.rows && 0 <= c < shape.cols ==> WrittenOnce(regions, r, c))
            <==> overlap == Overlap(0, 0, 0, 0)
  {
    hide Blocks, ClearsOverlap, WrittenOnce, RegionsOf;
    if overlap == Overlap(0, 0, 0, 0) {
      forall r, c | 0 <= r < shape.rows && 0 <= c < shape.cols
        ensures WrittenOnce(regions, r, c)
      {
        WrittenOnceIffClear(shape, block, regions, overlap, gt, epsg, r, c);
        ClearOfNoOverlap(shape.rows, block.rows, r);
        ClearOfNoOverlap(shape.cols, block.cols, c);
      }
    } else {
      var r := if overlap.bottom > 0 then shape.rows - 1 else 0;
      var c := if overlap.right > 0 then shape.cols - 1 else 0;
      if overlap.top > 0 || overlap.bottom > 0 {
        EndsAreNotClear(shape.rows, block.rows, overlap.top, overlap.bottom);
      } else {
        EndsAreNotClear(shape.cols, block.cols, overlap.left, overlap.right);
      }
      WrittenOnceIffClear(shape, block, regions, overlap, gt, epsg, r, c);
    }
  }
}
