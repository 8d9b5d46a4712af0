/** Zonal means over rasterised rings (crates/eo-vector/src/lib.rs, `SimpleZonalStats::mean`). */
module ZonalStats {
  import opened Wrappers
  import opened Arithmetic
  import opened Rasterizer

  datatype ZonalError = SizeMismatch(expected: nat, actual: nat) | BadRing(error: VectorError)

  /** Pixels among the first `n` that the ring's mask sets. */
  function Selected(ring: Ring, cols: nat, n: nat): seq<nat>
    requires cols > 0
  {
    if n == 0 then []
    else Selected(ring, cols, n - 1) + (if MaskValue(ring, cols, n - 1) == 1 then [n - 1] else [])
  }

  function SumAt(raster: seq<real>, pixels: seq<nat>): real
    requires forall i :: 0 <= i < |pixels| ==> pixels[i] < |raster|
  {
    if pixels == [] then 0.0
    else SumAt(raster, pixels[..|pixels| - 1]) + raster[pixels[|pixels| - 1]]
  }

  function Times(x: real, n: nat): real {
    x * n as real
  }

  function Average(sum: real, count: nat): (mean: real)
    requires count > 0
    ensures Times(mean, count) == sum
  {
    sum / count as real
  }

  lemma {:induction false} SelectedAreSet(ring: Ring, cols: nat, n: nat)
    requires cols > 0
    ensures forall i :: 0 <= i < |Selected(ring, cols, n)| ==> Selected(ring, cols, n)[i] < n
    ensures forall k: nat :: k in Selected(ring, cols, n) <==> k < n && MaskValue(ring, cols, k) == 1
  {
    hide MaskValue;
    if n > 0 {
      SelectedAreSet(ring, cols, n - 1);
    }
  }

  /** Each pixel is selected once. */
  lemma {:induction false} SelectedAscend(ring: Ring, cols: nat, n: nat)
    requires cols > 0
    ensures forall i, j :: 0 <= i < j < |Selected(ring, cols, n)| ==> Selected(ring, cols, n)[i] < Selected(ring, cols, n)[j]
  {
    hide MaskValue;
    if n > 0 {
      SelectedAscend(ring, cols, n - 1);
      SelectedAreSet(ring, cols, n - 1);
    }
  }

  /** The mean of the raster over the ring's pixels; nothing stands for NaN. */
  ghost predicate IsMean(mean: Option<real>, ring: Ring, raster: seq<real>, cols: nat)
    requires cols > 0
  {
    SelectedAreSet(ring, cols, |raster|);
    var pixels := Selected(ring, cols, |raster|);
    if pixels == [] then mean == None
    else mean.Some? && Times(mean.value, |pixels|) == SumAt(raster, pixels)
  }

  /** A mean per ring; the first invalid ring is the error, and only a raster of the wrong size comes before. */
  method Mean(rings: seq<Ring>, raster: seq<real>, rows: nat, cols: nat) returns (r: Result<seq<Option<real>>, ZonalError>)
    ensures |raster| != rows * cols ==> r == Failure(SizeMismatch(rows * cols, |raster|))
    ensures |raster| == rows * cols ==>
              match r
              case Success(means) =>
                && |means| == |rings|
                && (forall k :: 0 <= k < |rings| ==> |rings[k].vertices| >= 3)
                && (cols > 0 ==> forall k :: 0 <= k < |rings| ==> IsMean(means[k], rings[k], raster, cols))
                && (cols == 0 ==> forall k :: 0 <= k < |rings| ==> means[k] == None)
              case Failure(e) =>
                exists k :: 0 <= k < |rings| && e == BadRing(InvalidRing(|rings[k].vertices|)) && |rings[k].vertices| < 3
                            && forall j :: 0 <= j < k ==> |rings[j].vertices| >= 3
  {
    if |raster| != rows * cols {
      return Failure(SizeMismatch(rows * cols, |raster|));
    }
    hide MaskValue, IsMean;
    var out: seq<Option<real>> := [];
    for k := 0 to |rings|
      invariant |out| == k
      invariant forall j :: 0 <= j < k ==> |rings[j].vertices| >= 3
      invariant cols > 0 ==> forall j :: 0 <= j < k ==> IsMean(out[j], rings[j], raster, cols)
      invariant cols == 0 ==> forall j :: 0 <= j < k ==> out[j] == None
    {
      var mask := Rasterise(rings[k], rows, cols);
      if mask.Failure? {
        return Failure(BadRing(mask.error));
      }
      var mean := MaskedMean(rings[k], mask.value, raster, cols);
      out := out + [mean];
    }
    return Success(out);
  }

  method MaskedMean(ring: Ring, mask: seq<nat>, raster: seq<real>, cols: nat) returns (mean: Option<real>)
    requires |mask| == |raster|
    requires cols > 0 ==> forall k :: 0 <= k < |mask| ==> mask[k] == MaskValue(ring, cols, k)
    requires cols == 0 ==> mask == []
    ensures if cols > 0 then IsMean(mean, ring, raster, cols) else mean == None
  {
    hide MaskValue, Times, Average;
    var sum, count: nat := 0.0, 0;
    for k := 0 to |mask|
      invariant cols > 0 ==> count == |Selected(ring, cols, k)|
      invariant cols > 0 ==> forall i :: 0 <= i < |Selected(ring, cols, k)| ==> Selected(ring, cols, k)[i] < |raster|
      invariant cols > 0 ==> sum == SumAt(raster, Selected(ring, cols, k))
      invariant cols == 0 ==> count == 0
    {
      if mask[k] == 1 {
        sum := sum + raster[k];
        count := count + 1;
      }
      if cols > 0 {
        AddPixel(ring, raster, cols, k);
      }
    }
    return if count > 0 then Some(Average(sum, count)) else None;
  }

  lemma AddPixel(ring: Ring, raster: seq<real>, cols: nat, k: nat)
    requires cols > 0 && k < |raster| && forall i :: 0 <= i < |Selected(ring, cols, k)| ==> Selected(ring, cols, k)[i] < |raster|
    ensures var before, after := Selected(ring, cols, k), Selected(ring, cols, k + 1);
            && (forall i :: 0 <= i < |after| ==> after[i] < |raster|)
            && |after| == |before| + (if MaskValue(ring, cols, k) == 1 then 1 else 0)
            && SumAt(raster, after) == SumAt(raster, before) + (if MaskValue(ring, cols, k) == 1 then raster[k] else 0.0)
  {
    hide MaskValue;
    var before, after := Selected(ring, cols, k), Selected(ring, cols, k + 1);
    if MaskValue(ring, cols, k) == 1 {
      assert after[..|after| - 1] == before;
    } else {
      assert after == before;
    }
  }

  lemma {:induction false} SumIsBetween(raster: seq<real>, pixels: seq<nat>, lo: real, hi: real)
    requires forall i :: 0 <= i < |pixels| ==> pixels[i] < |raster| && lo <= raster[pixels[i]] <= hi
    ensures Times(lo, |pixels|) <= SumAt(raster, pixels) <= Times(hi, |pixels|)
    decreases |pixels|
  {
    if pixels != [] {
      SumIsBetween(raster, pixels[..|pixels| - 1], lo, hi);
      TimesNext(lo, |pixels| - 1);
      TimesNext(hi, |pixels| - 1);
      hide Times;
    }
  }

  lemma TimesNext(x: real, n: nat)
    ensures Times(x, n + 1) == Times(x, n) + x
  {
    assert (n + 1) as real == n as real + 1.0;
  }

  /** A mean lies between any bounds on the values of the ring's pixels. */
  lemma MeanIsBetween(mean: Option<real>, ring: Ring, raster: seq<real>, cols: nat, lo: real, hi: real)
    requires cols > 0 && IsMean(mean, ring, raster, cols) && mean.Some?
    requires forall k :: 0 <= k < |raster| && MaskValue(ring, cols, k) == 1 ==> lo <= raster[k] <= hi
    ensures lo <= mean.value <= hi
  {
    var pixels := Selected(ring, cols, |raster|);
    SelectedAreSet(ring, cols, |raster|);
    assert pixels != [] && Times(mean.value, |pixels|) == SumAt(raster, pixels);
    assert forall i :: 0 <= i < |pixels| ==> pixels[i] in pixels;
    hide MaskValue, Selected, SumAt, IsMean, Times;
    SumIsBetween(raster, pixels, lo, hi);
    CancelFactor(lo, mean.value, hi, |pixels|);
  }

  lemma CancelFactor(lo: real, x: real, hi: real, n: nat)
    requires n > 0 && Times(lo, n) <= Times(x, n) <= Times(hi, n)
    ensures lo <= x <= hi
  {
    var r := n as real;
    assert lo > x ==> (lo - x) * r > 0.0;
    assert x > hi ==> (x - hi) * r > 0.0;
  }
}
