/**
 Scanline rasterisation of a polygon ring (crates/eo-vector/src/lib.rs).

 Coordinates are reals. The mask is characterised exactly, for every ring; then, for
 rings without nearly horizontal edges, compared with the even-odd rule.
 */
module Rasterizer {
  import opened Wrappers
  import opened Arithmetic

  type Point = (real, real)

  datatype Ring = Ring(vertices: seq<Point>)

  datatype VectorError = InvalidRing(count: nat)

  /** The smallest step above 1 of a double, 2^-52: edges flatter than this are skipped. */
  const EPSILON: real := 1.0 / 4503599627370496.0

  datatype Box = Box(minX: real, minY: real, maxX: real, maxY: real)

  predicate InBox(b: Box, p: Point) {
    b.minX <= p.0 <= b.maxX && b.minY <= p.1 <= b.maxY
  }

  predicate TouchesAllSides(b: Box, vs: seq<Point>) {
    && (exists i :: 0 <= i < |vs| && vs[i].0 == b.minX)
    && (exists i :: 0 <= i < |vs| && vs[i].1 == b.minY)
    && (exists i :: 0 <= i < |vs| && vs[i].0 == b.maxX)
    && (exists i :: 0 <= i < |vs| && vs[i].1 == b.maxY)
  }

  /** The smallest box around the vertices. */
  method BBox(ring: Ring) returns (r: Option<Box>)
    ensures r.Some? <==> ring.vertices != []
    ensures r.Some? ==> TouchesAllSides(r.value, ring.vertices)
    ensures r.Some? ==> forall i :: 0 <= i < |ring.vertices| ==> InBox(r.value, ring.vertices[i])
  {
    var vs := ring.vertices;
    if vs == [] {
      return None;
    }
    var (minX, minY) := vs[0];
    var (maxX, maxY) := vs[0];
    for k := 1 to |vs|
      invariant forall i :: 0 <= i < k ==> InBox(Box(minX, minY, maxX, maxY), vs[i])
      invariant TouchesAllSides(Box(minX, minY, maxX, maxY), vs)
    {
      var (x, y) := vs[k];
      if x < minX { minX := x; }
      if x > maxX { maxX := x; }
      if y < minY { minY := y; }
      if y > maxY { maxY := y; }
    }
    return Some(Box(minX, minY, maxX, maxY));
  }

  // -------------------------------------------------- crossings of a scanline

  function From(ring: Ring, i: nat): Point
    requires i < |ring.vertices|
  {
    ring.vertices[i]
  }

  function To(ring: Ring, i: nat): Point
    requires i < |ring.vertices|
  {
    ring.vertices[(i + 1) % |ring.vertices|]
  }

  /** Edge `i` meets the line `y == yc`, its lower end included and its upper end not. */
  predicate Crosses(ring: Ring, yc: real, i: nat)
    requires i < |ring.vertices|
  {
    var y0, y1 := From(ring, i).1, To(ring, i).1;
    var (ya, yb) := if y0 < y1 then (y0, y1) else (y1, y0);
    ya <= yc < yb
  }

  /** Nearly, but not exactly, horizontal. */
  predicate IsSliver(ring: Ring, i: nat)
    requires i < |ring.vertices|
  {
    var dy := To(ring, i).1 - From(ring, i).1;
    dy != 0.0 && -EPSILON < dy < EPSILON
  }

  /** Which share of the way from `y0` to `y1` lies before `y`. */
  function Share(y0: real, y1: real, y: real): real
    requires y0 != y1
  {
    (y - y0) / (y1 - y0)
  }

  function Along(a: real, b: real, s: real): real {
    a + s * (b - a)
  }

  function CrossingX(ring: Ring, yc: real, i: nat): real
    requires i < |ring.vertices| && Crosses(ring, yc, i)
  {
    Along(From(ring, i).0, To(ring, i).0, Share(From(ring, i).1, To(ring, i).1, yc))
  }

  /** The point of edge `i` at the share `s` of the way. */
  function PointAt(ring: Ring, i: nat, s: real): Point
    requires i < |ring.vertices|
  {
    (Along(From(ring, i).0, To(ring, i).0, s), Along(From(ring, i).1, To(ring, i).1, s))
  }

  /** The point `p` lies on edge `i`, and is not its upper end. */
  ghost predicate OnEdge(ring: Ring, i: nat, p: Point)
    requires i < |ring.vertices|
  {
    && (exists s: real :: 0.0 <= s <= 1.0 && PointAt(ring, i, s) == p)
    && (p.1 < From(ring, i).1 || p.1 < To(ring, i).1)
  }

  lemma ShareOfTheWay(y0: real, y1: real, y: real, s: real)
    requires y0 != y1 && Along(y0, y1, s) == y
    ensures s == Share(y0, y1, y)
  {
    assert (y - y0) == s * (y1 - y0);
  }

  lemma SignOfProduct(a: real, d: real)
    requires d > 0.0
    ensures a * d >= 0.0 <==> a >= 0.0
    ensures a * d > 0.0 <==> a > 0.0
  {
    if a > 0.0 {
      assert a * d > 0.0;
    } else if a < 0.0 {
      assert (-a) * d > 0.0;
      assert a * d == -((-a) * d);
    }
  }

  lemma ShareIsWithin(y0: real, y1: real, y: real)
    requires y0 <= y < y1 || y1 <= y < y0
    ensures 0.0 <= Share(y0, y1, y) <= 1.0 && Along(y0, y1, Share(y0, y1, y)) == y
  {
    var d, s := y1 - y0, Share(y0, y1, y);
    assert s * d == y - y0;
    assert (1.0 - s) * d == y1 - y;
    SignsOfShare(s, d);
  }

  /** A share and its complement have the signs of what they are shares of. */
  lemma SignsOfShare(s: real, d: real)
    requires d != 0.0
    ensures d > 0.0 ==> (s * d >= 0.0 <==> s >= 0.0) && ((1.0 - s) * d >= 0.0 <==> s <= 1.0)
    ensures d < 0.0 ==> (s * d <= 0.0 <==> s >= 0.0) && ((1.0 - s) * d <= 0.0 <==> s <= 1.0)
  {
    if d > 0.0 {
      SignOfProduct(s, d);
      SignOfProduct(1.0 - s, d);
    } else {
      assert s * (-d) == -(s * d) && (1.0 - s) * (-d) == -((1.0 - s) * d);
      SignOfProduct(s, -d);
      SignOfProduct(1.0 - s, -d);
    }
  }

  /** The half-open test and the formula give the one point at which the edge meets the line. */
  lemma CrossingIsOnEdge(ring: Ring, yc: real, i: nat, x: real)
    requires i < |ring.vertices|
    ensures OnEdge(ring, i, (x, yc)) <==> Crosses(ring, yc, i) && x == CrossingX(ring, yc, i)
  {
    if Crosses(ring, yc, i) {
      CrossingLiesOnEdge(ring, yc, i);
    }
    if s: real :| OnEdge(ring, i, (x, yc)) && 0.0 <= s <= 1.0 && PointAt(ring, i, s) == (x, yc) {
      PointIsCrossing(ring, yc, i, x, s);
    }
  }

  lemma CrossingLiesOnEdge(ring: Ring, yc: real, i: nat)
    requires i < |ring.vertices| && Crosses(ring, yc, i)
    ensures OnEdge(ring, i, (CrossingX(ring, yc, i), yc))
  {
    hide Share, Along, From, To;
    var y0, y1 := From(ring, i).1, To(ring, i).1;
    ShareIsWithin(y0, y1, yc);
    assert PointAt(ring, i, Share(y0, y1, yc)) == (CrossingX(ring, yc, i), yc);
  }

  lemma PointIsCrossing(ring: Ring, yc: real, i: nat, x: real, s: real)
    requires i < |ring.vertices| && 0.0 <= s <= 1.0 && PointAt(ring, i, s) == (x, yc)
    requires yc < From(ring, i).1 || yc < To(ring, i).1
    ensures Crosses(ring, yc, i) && x == CrossingX(ring, yc, i)
  {
    hide Share, Along, From, To;
    var y0, y1 := From(ring, i).1, To(ring, i).1;
    BetweenEnds(y0, y1, s, yc);
    ShareOfTheWay(y0, y1, yc, s);
  }

  lemma BetweenEnds(y0: real, y1: real, s: real, y: real)
    requires 0.0 <= s <= 1.0 && y == Along(y0, y1, s) && (y < y0 || y < y1)
    ensures y0 <= y < y1 || y1 <= y < y0
  {
    var d := y1 - y0;
    assert s * d == y - y0;
    assert (1.0 - s) * d == y1 - y;
    if d != 0.0 {
      SignsOfShare(s, d);
    }
  }

  /** The abscissas collected from the first `k` edges, in edge order. */
  function Hits(ring: Ring, yc: real, k: nat): seq<real>
    requires k <= |ring.vertices|
  {
    if k == 0 then []
    else Hits(ring, yc, k - 1) +
         if Crosses(ring, yc, k - 1) && !IsSliver(ring, k - 1) then [CrossingX(ring, yc, k - 1)] else []
  }

  function AllHits(ring: Ring, yc: real): seq<real> {
    Hits(ring, yc, |ring.vertices|)
  }

  // ------------------------------------------- a closed ring crosses evenly

  function CrossingCount(ring: Ring, yc: real, k: nat): nat
    requires k <= |ring.vertices|
  {
    if k == 0 then 0 else CrossingCount(ring, yc, k - 1) + if Crosses(ring, yc, k - 1) then 1 else 0
  }

  function SliverCrossings(ring: Ring, yc: real, k: nat): nat
    requires k <= |ring.vertices|
  {
    if k == 0 then 0
    else SliverCrossings(ring, yc, k - 1) + if Crosses(ring, yc, k - 1) && IsSliver(ring, k - 1) then 1 else 0
  }

  lemma EdgeEnds(ring: Ring, i: nat)
    requires i < |ring.vertices|
    ensures To(ring, i) == ring.vertices[if i + 1 < |ring.vertices| then i + 1 else 0]
  {
  }

  lemma CrossesMeansSideChanges(ring: Ring, yc: real, i: nat)
    requires i < |ring.vertices|
    ensures Crosses(ring, yc, i) <==> (From(ring, i).1 <= yc) != (To(ring, i).1 <= yc)
  {
  }

  /** Along an open chain of edges, crossings are odd exactly when the ends lie on different sides. */
  lemma {:induction false} ChainParity(ring: Ring, yc: real, k: nat)
    requires k < |ring.vertices|
    ensures CrossingCount(ring, yc, k) % 2 == 1 <==> (ring.vertices[0].1 <= yc) != (ring.vertices[k].1 <= yc)
  {
    hide Crosses, To;
    if k > 0 {
      ChainParity(ring, yc, k - 1);
      EdgeEnds(ring, k - 1);
      CrossesMeansSideChanges(ring, yc, k - 1);
    }
  }

  lemma ClosedRingCrossesEvenly(ring: Ring, yc: real)
    ensures CrossingCount(ring, yc, |ring.vertices|) % 2 == 0
  {
    hide Crosses, To;
    var n := |ring.vertices|;
    if n > 0 {
      ChainParity(ring, yc, n - 1);
      EdgeEnds(ring, n - 1);
      CrossesMeansSideChanges(ring, yc, n - 1);
    }
  }

  lemma {:induction false} HitsAndSlivers(ring: Ring, yc: real, k: nat)
    requires k <= |ring.vertices|
    ensures |Hits(ring, yc, k)| + SliverCrossings(ring, yc, k) == CrossingCount(ring, yc, k)
  {
    if k > 0 {
      HitsAndSlivers(ring, yc, k - 1);
    }
  }

  /** The collected crossings are even in number exactly when the skipped ones are. */
  lemma HitsAreEvenIff(ring: Ring, yc: real)
    ensures |AllHits(ring, yc)| % 2 == 0 <==> SliverCrossings(ring, yc, |ring.vertices|) % 2 == 0
  {
    hide Hits, SliverCrossings, CrossingCount;
    ClosedRingCrossesEvenly(ring, yc);
    HitsAndSlivers(ring, yc, |ring.vertices|);
  }

  // ------------------------------------------------------------- sorted pairs

  predicate IsSorted(xs: seq<real>) {
    forall i, j :: 0 <= i < j < |xs| ==> xs[i] <= xs[j]
  }

  function Insert(x: real, xs: seq<real>): seq<real> {
    if xs == [] || x <= xs[0] then [x] + xs else [xs[0]] + Insert(x, xs[1..])
  }

  function SortReals(xs: seq<real>): seq<real> {
    if xs == [] then [] else Insert(xs[0], SortReals(xs[1..]))
  }

  function CountUpTo(xs: seq<real>, t: real): nat {
    if xs == [] then 0 else (if xs[0] <= t then 1 else 0) + CountUpTo(xs[1..], t)
  }

  lemma {:induction false} InsertKeeps(x: real, xs: seq<real>)
    ensures |Insert(x, xs)| == |xs| + 1
    ensures forall y :: y in Insert(x, xs) <==> y == x || y in xs
    ensures IsSorted(xs) ==> IsSorted(Insert(x, xs))
  {
    if xs != [] && x > xs[0] {
      InsertKeeps(x, xs[1..]);
      var rest := Insert(x, xs[1..]);
      assert xs == [xs[0]] + xs[1..];
      assert forall i :: 0 <= i < |rest| ==> rest[i] in rest;
      assert IsSorted(xs) ==> forall i :: 0 < i < |xs| ==> xs[0] <= xs[i];
    }
  }

  lemma {:induction false} InsertCounts(x: real, xs: seq<real>, t: real)
    ensures CountUpTo(Insert(x, xs), t) == CountUpTo(xs, t) + if x <= t then 1 else 0
  {
    if xs == [] || x <= xs[0] {
      assert ([x] + xs)[1..] == xs;
    } else {
      InsertCounts(x, xs[1..], t);
      assert ([xs[0]] + Insert(x, xs[1..]))[1..] == Insert(x, xs[1..]);
    }
  }

  /** Sorting keeps the elements, how many there are, and how many are up to any bound. */
  lemma {:induction false} SortRealsSorts(xs: seq<real>, t: real)
    ensures IsSorted(SortReals(xs)) && |SortReals(xs)| == |xs|
    ensures forall x :: x in SortReals(xs) <==> x in xs
    ensures CountUpTo(SortReals(xs), t) == CountUpTo(xs, t)
  {
    if xs != [] {
      SortRealsSorts(xs[1..], t);
      InsertKeeps(xs[0], SortReals(xs[1..]));
      InsertCounts(xs[0], SortReals(xs[1..]), t);
      assert xs == [xs[0]] + xs[1..];
    }
  }

  /** In a sorted sequence the count splits it. */
  lemma {:induction false} CountSplits(xs: seq<real>, t: real)
    requires IsSorted(xs)
    ensures CountUpTo(xs, t) <= |xs|
    ensures forall i :: 0 <= i < |xs| ==> (xs[i] <= t <==> i < CountUpTo(xs, t))
  {
    if xs != [] {
      CountSplits(xs[1..], t);
      assert forall i :: 0 < i < |xs| ==> xs[i] == xs[1..][i - 1];
      assert |xs| > 1 ==> xs[0] <= xs[1] && xs[1..][0] == xs[1];
    }
  }

  /** The centre abscissa of column `x`. */
  function Centre(x: nat): real {
    x as real + 0.5
  }

  /** The columns filled between two crossings: the code starts at the ceiling of the first. */
  predicate InSpan(lo: real, hi: real, x: nat) {
    lo <= x as real && Centre(x) < hi
  }

  /** Column `x` lies in one of the first `m / 2` spans of the sorted crossings. */
  ghost predicate InSomeSpan(xs: seq<real>, m: nat, x: nat)
    requires m <= |xs|
  {
    exists p: nat :: SpanAt(xs, m, p, x)
  }

  predicate SpanAt(xs: seq<real>, m: nat, p: nat, x: nat)
    requires m <= |xs|
  {
    2 * p + 1 < m && InSpan(xs[2 * p], xs[2 * p + 1], x)
  }

  predicate CrossingInHalfPixel(xs: seq<real>, x: nat) {
    exists t :: t in xs && x as real < t <= Centre(x)
  }

  /**
   What the code marks, on any list of crossings: an odd number of them up to the pixel's
   centre, at least one beyond it, and none in the left half of the pixel.
   */
  predicate Marked(xs: seq<real>, x: nat) {
    && CountUpTo(xs, Centre(x)) % 2 == 1
    && CountUpTo(xs, Centre(x)) < |xs|
    && !CrossingInHalfPixel(xs, x)
  }

  lemma SpansAreMarks(xs: seq<real>, x: nat)
    requires IsSorted(xs)
    ensures InSomeSpan(xs, |xs|, x) <==> Marked(xs, x)
  {
    var c := CountUpTo(xs, Centre(x));
    CountSplits(xs, Centre(x));
    if InSomeSpan(xs, |xs|, x) {
      var p: nat :| SpanAt(xs, |xs|, p, x);
      assert 2 * p < c <= 2 * p + 1;
      assert forall i :: 0 <= i < |xs| ==> xs[i] <= x as real || xs[i] > Centre(x);
    }
    if Marked(xs, x) {
      assert xs[c - 1] in xs;
      assert xs[c - 1] <= x as real;
      assert SpanAt(xs, |xs|, c / 2, x);
    }
  }

  lemma MarksIgnoreOrder(xs: seq<real>, x: nat)
    ensures Marked(SortReals(xs), x) <==> Marked(xs, x)
  {
    SortRealsSorts(xs, Centre(x));
  }

  // ------------------------------------------------------------- the rasteriser

  /** A cast to an unsigned integer: negative values saturate at zero. */
  function AsUsize(i: int): nat {
    Max(i, 0)
  }

  /** The clamped column range of a span contains all its columns within the raster. */
  lemma SpanIsInRange(lo: real, hi: real, cols: nat, x: nat)
    requires x < cols && InSpan(lo, hi, x)
    ensures Min(AsUsize(Ceil(lo)), cols) <= x < Min(AsUsize(hi.Floor) + 1, cols)
  {
  }

  lemma FillTestIsSpan(lo: real, hi: real, x: nat)
    requires x >= AsUsize(Ceil(lo))
    ensures x as real + 0.5 >= lo && x as real + 0.5 < hi <==> InSpan(lo, hi, x)
  {
  }

  /** Marks the pixels of one span in the row that starts at `base`. */
  method FillSpan(out: array<nat>, base: nat, cols: nat, lo: real, hi: real)
    requires base + cols <= out.Length
    modifies out
    ensures forall k :: 0 <= k < out.Length ==>
              out[k] == if base <= k < base + cols && InSpan(lo, hi, k - base) then 1 else old(out[k])
  {
    var xStart := Min(AsUsize(Ceil(lo)), cols);
    var xEnd := Min(AsUsize(hi.Floor) + 1, cols);
    var x := xStart;
    forall c: nat | c < cols && InSpan(lo, hi, c)
      ensures xStart <= c < xEnd
    {
      SpanIsInRange(lo, hi, cols, c);
    }
    while x < xEnd
      invariant xStart <= x
      invariant forall k :: 0 <= k < out.Length ==>
                  out[k] == if base <= k < base + cols && k < base + x && InSpan(lo, hi, k - base) then 1 else old(out[k])
    {
      var xc := x as real + 0.5;
      FillTestIsSpan(lo, hi, x);
      if xc >= lo && xc < hi {
        out[base + x] := 1;
      }
      x := x + 1;
    }
  }

  lemma NoHits(ring: Ring, yc: real)
    ensures Hits(ring, yc, 0) == []
  {
  }

  lemma NextHit(ring: Ring, yc: real, i: nat)
    requires i < |ring.vertices|
    ensures var (x0, y0) := From(ring, i);
            var (x1, y1) := To(ring, i);
            var (ya, yb) := if y0 < y1 then (y0, y1) else (y1, y0);
            if ya <= yc < yb && !(-EPSILON < y1 - y0 < EPSILON)
            then y1 != y0 && Hits(ring, yc, i + 1) == Hits(ring, yc, i) + [Along(x0, x1, Share(y0, y1, yc))]
            else Hits(ring, yc, i + 1) == Hits(ring, yc, i)
  {
    hide Along, Share;
    assert Hits(ring, yc, i) + [] == Hits(ring, yc, i);
  }

  /** The intersections of the line through the centres of row `y` with the edges. */
  method Intersections(ring: Ring, yc: real) returns (xs: seq<real>)
    ensures xs == AllHits(ring, yc)
    ensures forall x :: x in xs <==> exists i :: 0 <= i < |ring.vertices| && !IsSliver(ring, i) && OnEdge(ring, i, (x, yc))
  {
    hide Hits, OnEdge, IsSliver;
    var n := |ring.vertices|;
    xs := [];
    NoHits(ring, yc);
    for i := 0 to n
      invariant xs == Hits(ring, yc, i)
    {
      NextHit(ring, yc, i);
      var (x0, y0) := From(ring, i);
      var (x1, y1) := To(ring, i);
      var (ya, yb) := if y0 < y1 then (y0, y1) else (y1, y0);
      if yc < ya || yc >= yb {
        continue;
      }
      if -EPSILON < y1 - y0 < EPSILON {
        continue;
      }
      var t := (yc - y0) / (y1 - y0);
      assert t == Share(y0, y1, yc);
      var x := x0 + t * (x1 - x0);
      assert x == Along(x0, x1, t);
      xs := xs + [x];
    }
    forall x
      ensures x in xs <==> exists i :: 0 <= i < |ring.vertices| && !IsSliver(ring, i) && OnEdge(ring, i, (x, yc))
    {
      HitsAreOnEdges(ring, yc, n, x);
    }
  }

  lemma {:induction false} HitsAreOnEdges(ring: Ring, yc: real, k: nat, x: real)
    requires k <= |ring.vertices|
    ensures x in Hits(ring, yc, k) <==> exists i :: 0 <= i < k && !IsSliver(ring, i) && OnEdge(ring, i, (x, yc))
  {
    hide OnEdge, CrossingX, Crosses, IsSliver;
    if k > 0 {
      HitsAreOnEdges(ring, yc, k - 1, x);
      CrossingIsOnEdge(ring, yc, k - 1, x);
    }
  }

  lemma OneMoreSpan(xs: seq<real>, i: nat, m: nat)
    requires m == i + 2 && i + 1 < |xs| && i % 2 == 0
    ensures forall x: nat :: InSomeSpan(xs, m, x) <==> InSomeSpan(xs, i, x) || InSpan(xs[i], xs[i + 1], x)
  {
    forall x: nat
      ensures InSomeSpan(xs, m, x) <==> InSomeSpan(xs, i, x) || InSpan(xs[i], xs[i + 1], x)
    {
      if p: nat :| SpanAt(xs, m, p, x) {
        assert 2 * p == i || SpanAt(xs, i, p, x);
      }
      if p: nat :| SpanAt(xs, i, p, x) {
        assert SpanAt(xs, m, p, x);
      }
      if InSpan(xs[i], xs[i + 1], x) {
        assert SpanAt(xs, m, i / 2, x);
      }
    }
  }

  /** A last unpaired crossing starts no span. */
  lemma UnpairedCrossingIsIgnored(xs: seq<real>, m: nat, x: nat)
    requires m <= |xs| <= m + 1 && m % 2 == 0
    ensures InSomeSpan(xs, m, x) <==> InSomeSpan(xs, |xs|, x)
  {
    if p: nat :| SpanAt(xs, m, p, x) { assert SpanAt(xs, |xs|, p, x); }
    if p: nat :| SpanAt(xs, |xs|, p, x) { assert SpanAt(xs, m, p, x); }
  }

  lemma AllSpansAreMarks(hits: seq<real>, m: nat)
    requires m <= |SortReals(hits)| <= m + 1 && m % 2 == 0
    ensures forall x: nat :: InSomeSpan(SortReals(hits), m, x) <==> Marked(hits, x)
  {
    forall x: nat
      ensures InSomeSpan(SortReals(hits), m, x) <==> Marked(hits, x)
    {
      SortRealsSorts(hits, Centre(x));
      UnpairedCrossingIsIgnored(SortReals(hits), m, x);
      SpansAreMarks(SortReals(hits), x);
      MarksIgnoreOrder(hits, x);
    }
  }

  /** Marks the pixels of row `y`, which starts at `base`. */
  method FillRow(ring: Ring, y: nat, base: nat, cols: nat, out: array<nat>)
    requires base + cols <= out.Length
    modifies out
    ensures forall k :: 0 <= k < out.Length ==>
              out[k] == if base <= k < base + cols && Marked(AllHits(ring, Centre(y)), k - base) then 1 else old(out[k])
  {
    var hits := Intersections(ring, y as real + 0.5);
    var xs := SortReals(hits);
    var i := 0;
    while i + 1 < |xs|
      invariant 0 <= i <= |xs| && i % 2 == 0
      invariant forall k :: 0 <= k < out.Length ==>
                  out[k] == if base <= k < base + cols && InSomeSpan(xs, i, k - base) then 1 else old(out[k])
    {
      FillSpan(out, base, cols, xs[i], xs[i + 1]);
      OneMoreSpan(xs, i, i + 2);
      i := i + 2;
    }
    AllSpansAreMarks(hits, i);
  }

  /** Rows outside the clamped bounding box have no crossings. */
  lemma {:induction false} NoHitsOutsideBox(ring: Ring, yc: real, k: nat, minY: real, maxY: real)
    requires k <= |ring.vertices| && (yc < minY || yc >= maxY)
    requires forall i :: 0 <= i < |ring.vertices| ==> minY <= ring.vertices[i].1 <= maxY
    ensures Hits(ring, yc, k) == []
  {
    if k > 0 {
      NoHitsOutsideBox(ring, yc, k - 1, minY, maxY);
    }
  }

  function MaskValue(ring: Ring, cols: nat, k: nat): nat
    requires cols > 0
  {
    if Marked(AllHits(ring, Centre(k / cols)), k % cols) then 1 else 0
  }

  /** Rows `from .. to` of the mask are done and the others are blank. */
  predicate RowsDone(ring: Ring, mask: seq<nat>, cols: nat, from: int, to: int)
    requires cols > 0
  {
    forall k :: 0 <= k < |mask| ==> mask[k] == if from <= k / cols < to then MaskValue(ring, cols, k) else 0
  }

  lemma RowAdded(ring: Ring, before: seq<nat>, after: seq<nat>, cols: nat, from: int, y: nat)
    requires cols > 0 && from <= y && |before| == |after| && RowsDone(ring, before, cols, from, y)
    requires forall k :: 0 <= k < |after| ==>
               after[k] == if y * cols <= k < y * cols + cols && Marked(AllHits(ring, Centre(y)), k - y * cols) then 1 else before[k]
    ensures RowsDone(ring, after, cols, from, y + 1)
  {
    forall k | 0 <= k < |after|
      ensures after[k] == if from <= k / cols < y + 1 then MaskValue(ring, cols, k) else 0
    {
      RowOfCell(k, y, cols);
    }
  }

  /** The rows skipped by the clamped bounding box would have stayed blank. */
  lemma SkippedRowsAreBlank(ring: Ring, mask: seq<nat>, rows: nat, cols: nat, box: Box, from: int, to: int)
    requires rows > 0 && cols > 0 && |mask| == rows * cols && RowsDone(ring, mask, cols, from, to)
    requires forall i :: 0 <= i < |ring.vertices| ==> InBox(box, ring.vertices[i])
    requires from == Min(AsUsize(box.minY.Floor), rows - 1) && to >= Min(AsUsize(Ceil(box.maxY)), rows)
    ensures forall k :: 0 <= k < |mask| ==> mask[k] == MaskValue(ring, cols, k)
  {
    forall k | 0 <= k < |mask|
      ensures mask[k] == MaskValue(ring, cols, k)
    {
      CellInBounds(k, rows, cols);
      var y := k / cols;
      if !(from <= y < to) {
        NoHitsOutsideBox(ring, Centre(y), |ring.vertices|, box.minY, box.maxY);
      }
    }
  }

  method Rasterise(ring: Ring, rows: nat, cols: nat) returns (r: Result<seq<nat>, VectorError>)
    ensures |ring.vertices| < 3 ==> r == Failure(InvalidRing(|ring.vertices|))
    ensures |ring.vertices| >= 3 ==>
              && r.Success?
              && |r.value| == rows * cols
              && (cols > 0 ==> forall k :: 0 <= k < |r.value| ==> r.value[k] == MaskValue(ring, cols, k))
    ensures |ring.vertices| >= 3 && NoSlivers(ring) && cols > 0 ==>
              forall k :: 0 <= k < |r.value| ==> r.value[k] == if IsSet(ring, k % cols, k / cols) then 1 else 0
  {
    if |ring.vertices| < 3 {
      return Failure(InvalidRing(|ring.vertices|));
    }
    var out := new nat[rows * cols](_ => 0);
    if rows == 0 || cols == 0 {
      return Success(out[..]);
    }
    var bbox := BBox(ring);
    var box := bbox.value;
    var yStart := Min(AsUsize(box.minY.Floor), rows - 1);
    var yEnd := Min(AsUsize(Ceil(box.maxY)), rows);
    FillRows(ring, rows, cols, yStart, yEnd, out);
    SkippedRowsAreBlank(ring, out[..], rows, cols, box, yStart, Max(yStart, yEnd));
    if NoSlivers(ring) {
      forall k | 0 <= k < rows * cols
        ensures MaskValue(ring, cols, k) == if IsSet(ring, k % cols, k / cols) then 1 else 0
      {
        CellInBounds(k, rows, cols);
        SetMeansInsideAndUncut(ring, k % cols, k / cols);
      }
    }
    return Success(out[..]);
  }

  method FillRows(ring: Ring, rows: nat, cols: nat, yStart: nat, yEnd: nat, out: array<nat>)
    requires cols > 0 && yEnd <= rows && out.Length == rows * cols
    requires forall k :: 0 <= k < out.Length ==> out[k] == 0
    modifies out
    ensures RowsDone(ring, out[..], cols, yStart, Max(yStart, yEnd))
  {
    var y := yStart;
    while y < yEnd
      invariant yStart <= y <= Max(yStart, yEnd)
      invariant RowsDone(ring, out[..], cols, yStart, y)
    {
      ghost var before := out[..];
      RowFits(y, rows, cols);
      FillRow(ring, y, y * cols, cols, out);
      RowAdded(ring, before, out[..], cols, yStart, y);
      y := y + 1;
    }
  }

  lemma RowFits(y: nat, rows: nat, cols: nat)
    requires y < rows
    ensures y * cols + cols <= rows * cols
  {
    ProductMonotone(y + 1, rows, cols);
  }

  lemma RowOfCell(k: nat, y: nat, cols: nat)
    requires cols > 0
    ensures y * cols <= k < y * cols + cols <==> k / cols == y
    ensures k / cols == y ==> k - y * cols == k % cols
  {
    QuotientBounds(k, cols);
    if y * cols <= k < y * cols + cols {
      QuotientIs(k, cols, y);
    }
  }

  // --------------------------------------------------------- the even-odd rule

  /** The ray from `(px, py)` to the right meets edge `i`, its upper end apart. */
  ghost predicate RayMeets(ring: Ring, px: real, py: real, i: nat)
    requires i < |ring.vertices|
  {
    exists x: real :: x > px && OnEdge(ring, i, (x, py))
  }

  /** Edges that the ray meets, among the first `k`. */
  ghost function RayCrossings(ring: Ring, px: real, py: real, k: nat): nat
    requires k <= |ring.vertices|
  {
    if k == 0 then 0 else RayCrossings(ring, px, py, k - 1) + if RayMeets(ring, px, py, k - 1) then 1 else 0
  }

  lemma RayMeetsIff(ring: Ring, px: real, py: real, i: nat)
    requires i < |ring.vertices|
    ensures RayMeets(ring, px, py, i) <==> Crosses(ring, py, i) && CrossingX(ring, py, i) > px
  {
    hide OnEdge;
    if Crosses(ring, py, i) {
      CrossingIsOnEdge(ring, py, i, CrossingX(ring, py, i));
    }
    if x: real :| x > px && OnEdge(ring, i, (x, py)) {
      CrossingIsOnEdge(ring, py, i, x);
    }
    hide Crosses, CrossingX;
  }

  /** The even-odd rule: an odd number of edges cross the ray to the right. */
  ghost predicate Inside(ring: Ring, px: real, py: real) {
    RayCrossings(ring, px, py, |ring.vertices|) % 2 == 1
  }

  /** The pixel's centre is inside, and the left half of its centre line is not cut. */
  ghost predicate IsSet(ring: Ring, x: nat, y: nat) {
    Inside(ring, Centre(x), Centre(y)) && !LeftHalfIsCut(ring, x, y)
  }

  predicate NoSlivers(ring: Ring) {
    forall i :: 0 <= i < |ring.vertices| ==> !IsSliver(ring, i)
  }

  /** Some edge cuts the row's centre line in the left half of the pixel. */
  ghost predicate LeftHalfIsCut(ring: Ring, x: nat, y: nat) {
    exists i: nat, t: real :: i < |ring.vertices| && OnEdge(ring, i, (t, Centre(y))) && x as real < t <= Centre(x)
  }

  lemma {:induction false} CountAppend(xs: seq<real>, x: real, t: real)
    ensures CountUpTo(xs + [x], t) == CountUpTo(xs, t) + if x <= t then 1 else 0
  {
    if xs != [] {
      assert (xs + [x])[1..] == xs[1..] + [x];
      CountAppend(xs[1..], x, t);
    } else {
      assert [] + [x] == [x];
    }
  }

  lemma {:induction false} RayCountsHits(ring: Ring, yc: real, t: real, k: nat)
    requires k <= |ring.vertices| && NoSlivers(ring)
    ensures RayCrossings(ring, t, yc, k) + CountUpTo(Hits(ring, yc, k), t) == |Hits(ring, yc, k)|
  {
    hide RayMeets, Crosses, CrossingX, CountUpTo;
    if k == 0 {
      NothingUpTo(t);
    } else {
      RayCountsHits(ring, yc, t, k - 1);
      RayMeetsIff(ring, t, yc, k - 1);
      var h := Hits(ring, yc, k - 1);
      if Crosses(ring, yc, k - 1) {
        CountAppend(h, CrossingX(ring, yc, k - 1), t);
      } else {
        assert h + [] == h;
      }
    }
  }

  lemma NothingUpTo(t: real)
    ensures CountUpTo([], t) == 0
  {
  }

  lemma {:induction false} NoSliverCrossings(ring: Ring, yc: real, k: nat)
    requires k <= |ring.vertices| && NoSlivers(ring)
    ensures SliverCrossings(ring, yc, k) == 0
  {
    if k > 0 {
      NoSliverCrossings(ring, yc, k - 1);
    }
  }

  /**
   A pixel is set exactly when its centre is inside by the even-odd rule and no edge cuts
   the left half of its centre line. So every set pixel is inside, but the documented
   converse holds only for pixels whose left half is not cut.
   */
  lemma SetMeansInsideAndUncut(ring: Ring, x: nat, y: nat)
    requires NoSlivers(ring)
    ensures Marked(AllHits(ring, Centre(y)), x) <==> IsSet(ring, x, y)
    ensures |AllHits(ring, Centre(y))| % 2 == 0
  {
    var n := |ring.vertices|;
    NoSliverCrossings(ring, Centre(y), n);
    HitsAreEvenIff(ring, Centre(y));
    ParityUpToCentre(ring, Centre(y), Centre(x));
    HalfPixelHits(ring, x, y);
  }

  lemma ParityUpToCentre(ring: Ring, yc: real, t: real)
    requires NoSlivers(ring) && |AllHits(ring, yc)| % 2 == 0
    ensures Inside(ring, t, yc) <==> CountUpTo(AllHits(ring, yc), t) % 2 == 1
    ensures Inside(ring, t, yc) ==> CountUpTo(AllHits(ring, yc), t) < |AllHits(ring, yc)|
  {
    RayCountsHits(ring, yc, t, |ring.vertices|);
    hide *;
    EvenSum(RayCrossings(ring, t, yc, |ring.vertices|), CountUpTo(AllHits(ring, yc), t));
  }

  lemma EvenSum(a: nat, b: nat)
    requires (a + b) % 2 == 0
    ensures a % 2 == 1 <==> b % 2 == 1
  {
  }

  lemma HalfPixelHits(ring: Ring, x: nat, y: nat)
    requires NoSlivers(ring)
    ensures CrossingInHalfPixel(AllHits(ring, Centre(y)), x) <==> LeftHalfIsCut(ring, x, y)
  {
    hide OnEdge, Hits, IsSliver;
    var hits := AllHits(ring, Centre(y));
    if CrossingInHalfPixel(hits, x) {
      var t :| t in hits && x as real < t <= Centre(x);
      HitsAreOnEdges(ring, Centre(y), |ring.vertices|, t);
    }
    if LeftHalfIsCut(ring, x, y) {
      var i: nat, t: real :| i < |ring.vertices| && OnEdge(ring, i, (t, Centre(y))) && x as real < t <= Centre(x);
      HitsAreOnEdges(ring, Centre(y), |ring.vertices|, t);
    }
  }

  /** A pixel whose centre is inside the ring but which is not set. */
  lemma InsideButNotSet() returns (ring: Ring)
    ensures NoSlivers(ring) && |ring.vertices| == 4
    ensures Inside(ring, Centre(0), Centre(0)) && !Marked(AllHits(ring, Centre(0)), 0)
  {
    ring := Ring([(0.25, 0.0), (2.0, 0.0), (2.0, 1.0), (0.25, 1.0)]);
    var yc := Centre(0);
    assert !Crosses(ring, yc, 0) && Crosses(ring, yc, 1) && !Crosses(ring, yc, 2) && Crosses(ring, yc, 3);
    assert CrossingX(ring, yc, 1) == 2.0;
    assert CrossingX(ring, yc, 3) == 0.25;
    RayMeetsIff(ring, Centre(0), yc, 0);
    RayMeetsIff(ring, Centre(0), yc, 1);
    RayMeetsIff(ring, Centre(0), yc, 2);
    RayMeetsIff(ring, Centre(0), yc, 3);
    CrossingIsOnEdge(ring, yc, 3, 0.25);
    hide RayMeets, OnEdge, CrossingX;
    assert RayCrossings(ring, Centre(0), yc, 2) == 1;
    assert RayCrossings(ring, Centre(0), yc, 4) == 1;
    assert LeftHalfIsCut(ring, 0, 0);
    SetMeansInsideAndUncut(ring, 0, 0);
  }
}
