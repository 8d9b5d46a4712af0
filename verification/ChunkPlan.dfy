/** Choosing a block size under a memory budget (apps/orbit-openeo/src/chunk_plan.rs). */
module ChunkPlan {
  import opened Wrappers
  import opened Arithmetic

  datatype OpKind = Pixelwise | Reduction | Window

  datatype PlanInput = PlanInput(cogTileSize: nat, rows: nat, cols: nat, bands: nat, times: nat, bytesPerPixel: nat)

  datatype Plan = Plan(blockRows: nat, blockCols: nat, nThreads: nat, estPeakBytes: nat)

  datatype PlanError = BudgetTooSmall(budget: nat, nThreads: nat, minBlockBytes: nat)

  const MIN_BLOCK: nat := 64
  const MAX_BLOCK: nat := 4096

  function BytesPerPixelOverhead(op: OpKind): nat {
    match op
    case Pixelwise => 8
    case Reduction => 16
    case Window => 32
  }

  /** The integer square root. */
  function Isqrt(n: nat): (r: nat)
    ensures r * r <= n < (r + 1) * (r + 1)
  {
    if n == 0 then 0
    else
      var r := Isqrt(n - 1);
      if (r + 1) * (r + 1) <= n then r + 1 else r
  }

  function PerPixel(input: PlanInput, op: OpKind): (r: nat)
    ensures r > 0
  {
    var samples := Max(input.bands, 1) * Max(input.times, 1);
    assert samples >= 1;
    input.bytesPerPixel + BytesPerPixelOverhead(op) * samples
  }

  /**
   What a pixel costs: its own bytes, and for every band at every time 8, 16 or 32 bytes by the
   kind of operation. No bands or no times cost as much as one.
   */
  lemma CostGrows(input: PlanInput, op: OpKind)
    ensures var each := if op == Pixelwise then 8 else if op == Reduction then 16 else 32;
            var cost := PerPixel(input, op);
            && (input.bands <= 1 && input.times <= 1 ==> cost == input.bytesPerPixel + each)
            && (input.bands >= 1 ==> PerPixel(input.(bands := input.bands + 1), op) == cost + each * Max(input.times, 1))
            && (input.times >= 1 ==> PerPixel(input.(times := input.times + 1), op) == cost + each * Max(input.bands, 1))
            && PerPixel(input.(bytesPerPixel := input.bytesPerPixel + 1), op) == cost + 1
  {
    var b, t := Max(input.bands, 1), Max(input.times, 1);
    var each := BytesPerPixelOverhead(op);
    assert (b + 1) * t == b * t + t && b * (t + 1) == b * t + b;
    assert each * (b * t + t) == each * (b * t) + each * t;
    assert each * (b * t + b) == each * (b * t) + each * b;
  }

  /** The block side before snapping to the tile size. */
  function TargetSide(perPixel: nat, budgetPerThread: nat): nat
    requires perPixel > 0
  {
    var side := Isqrt(Min(Max(budgetPerThread / perPixel, 1), MAX_BLOCK * MAX_BLOCK));
    Min(Max(side, MIN_BLOCK), MAX_BLOCK)
  }

  predicate Snaps(cog: nat, target: nat) {
    MIN_BLOCK <= cog <= target
  }

  function SnappedSide(cog: nat, target: nat): nat {
    if Snaps(cog, target) then target / cog * cog else target
  }

  /** Memory held when every thread works on one square block of the given side. */
  function PeakBytes(side: nat, perPixel: nat, threads: nat): nat {
    ProductMonotone(0, side * side, perPixel);
    ProductMonotone(0, side * side * perPixel, threads);
    side * side * perPixel * threads
  }

  function MakePlan(input: PlanInput, op: OpKind, nThreads: nat, budget: nat): Result<Plan, PlanError> {
    hide PerPixel, TargetSide, SnappedSide, PeakBytes;
    var threads: nat := Max(nThreads, 1);
    var perPixel := PerPixel(input, op);
    var minBlockBytes := MIN_BLOCK * MIN_BLOCK * perPixel;
    var budgetPerThread := budget / threads;
    if budgetPerThread < minBlockBytes then Failure(BudgetTooSmall(budget, threads, minBlockBytes))
    else
      var snapped := SnappedSide(input.cogTileSize, TargetSide(perPixel, budgetPerThread));
      var block := Min(Min(Min(Max(snapped, MIN_BLOCK), MAX_BLOCK), Max(input.rows, MIN_BLOCK)), Max(input.cols, MIN_BLOCK));
      Success(Plan(block, block, threads, PeakBytes(block, perPixel, threads)))
  }

  // ---------------------------------------------------------------- reference

  predicate Fits(side: nat, perPixel: nat, threads: nat, budget: nat) {
    PeakBytes(side, perPixel, threads) <= budget
  }

  /** A bound per thread on the floor of the quotient is a bound on the whole. */
  lemma PerThreadBound(bytes: nat, threads: nat, budget: nat)
    requires threads > 0
    ensures bytes <= budget / threads <==> bytes * threads <= budget
  {
    var q := budget / threads;
    QuotientBounds(budget, threads);
    if bytes <= q {
      ProductMonotone(bytes, q, threads);
    } else {
      ProductMonotone(q + 1, bytes, threads);
      assert (q + 1) * threads == q * threads + threads;
    }
  }

  lemma SquareMonotone(a: nat, b: nat)
    requires a <= b
    ensures a * a <= b * b
  {
    ProductMonotone(a, b, a);
    ProductMonotone(a, b, b);
    assert b * a == a * b;
  }

  lemma BelowIsqrt(s: nat, n: nat)
    ensures s <= Isqrt(n) <==> s * s <= n
  {
    var r := Isqrt(n);
    if s <= r {
      SquareMonotone(s, r);
    } else {
      SquareMonotone(r + 1, s);
    }
  }

  /** A side fits exactly when its square fits the pixels each thread may hold. */
  lemma FitsMeansSquareBelow(side: nat, perPixel: nat, threads: nat, budget: nat)
    requires perPixel > 0 && threads > 0
    ensures Fits(side, perPixel, threads, budget) <==> side * side <= budget / threads / perPixel
  {
    PerThreadBound(side * side * perPixel, threads, budget);
    PerThreadBound(side * side, perPixel, budget / threads);
  }

  /** The pre-snap side is the largest that fits the budget, up to the maximal block. */
  lemma TargetIsLargest(perPixel: nat, threads: nat, budget: nat)
    requires perPixel > 0 && threads > 0 && Fits(64, perPixel, threads, budget)
    ensures var target := TargetSide(perPixel, budget / threads);
            && 64 <= target <= 4096
            && Fits(target, perPixel, threads, budget)
            && forall s: nat :: s <= 4096 && Fits(s, perPixel, threads, budget) ==> s <= target
  {
    var pixels: nat := budget / threads / perPixel;
    FitsMeansSquareBelow(MIN_BLOCK, perPixel, threads, budget);
    TargetAsRoot(perPixel, budget / threads, pixels);
    var target := TargetSide(perPixel, budget / threads);
    hide TargetSide, Fits;
    RootIsLargest(target, pixels);
    FitsMeansSquareBelow(target, perPixel, threads, budget);
    forall s: nat | s <= MAX_BLOCK && Fits(s, perPixel, threads, budget)
      ensures s <= target
    {
      FitsMeansSquareBelow(s, perPixel, threads, budget);
    }
  }

  /** No clamp acts once a minimal block fits. */
  lemma TargetAsRoot(perPixel: nat, perThread: nat, pixels: nat)
    requires perPixel > 0 && pixels == perThread / perPixel && MIN_BLOCK * MIN_BLOCK <= pixels
    ensures TargetSide(perPixel, perThread) == Isqrt(Min(pixels, MAX_BLOCK * MAX_BLOCK))
    ensures MIN_BLOCK <= TargetSide(perPixel, perThread) <= MAX_BLOCK
  {
    hide Isqrt;
    var capped: nat := Min(pixels, MAX_BLOCK * MAX_BLOCK);
    BelowIsqrt(MIN_BLOCK, capped);
    BelowIsqrt(MAX_BLOCK + 1, capped);
  }

  lemma RootIsLargest(target: nat, pixels: nat)
    requires target == Isqrt(Min(pixels, MAX_BLOCK * MAX_BLOCK))
    ensures target * target <= pixels
    ensures forall s: nat :: s <= MAX_BLOCK && s * s <= pixels ==> s <= target
  {
    hide Isqrt;
    var capped: nat := Min(pixels, MAX_BLOCK * MAX_BLOCK);
    BelowIsqrt(target, capped);
    forall s: nat | s <= MAX_BLOCK && s * s <= pixels
      ensures s <= target
    {
      SquareMonotone(s, MAX_BLOCK);
      BelowIsqrt(s, capped);
    }
  }

  lemma SmallerFits(a: nat, b: nat, perPixel: nat, threads: nat, budget: nat)
    requires a <= b && Fits(b, perPixel, threads, budget) && perPixel > 0 && threads > 0
    ensures Fits(a, perPixel, threads, budget)
  {
    FitsMeansSquareBelow(a, perPixel, threads, budget);
    FitsMeansSquareBelow(b, perPixel, threads, budget);
    SquareMonotone(a, b);
  }

  lemma SnappedBelowTarget(cog: nat, target: nat)
    requires target >= MIN_BLOCK
    ensures MIN_BLOCK <= SnappedSide(cog, target) <= target
    ensures Snaps(cog, target) ==> SnappedSide(cog, target) % cog == 0 && target < SnappedSide(cog, target) + cog
  {
    if Snaps(cog, target) {
      QuotientBounds(target, cog);
      PerThreadBound(1, cog, target);
      var q := target / cog;
      ProductMonotone(1, q, cog);
      QuotientIs(q * cog, cog, q);
    }
  }

  /**
   Planning fails exactly when minimal blocks on all threads exceed the budget. Otherwise
   the plan fits the budget; its block is within bounds and, unless the image clips it,
   the largest tile multiple (or, without snapping, the largest side) that fits.
   */
  lemma PlanMeetsBudget(input: PlanInput, op: OpKind, nThreads: nat, budget: nat)
    ensures var threads := Max(nThreads, 1);
            var perPixel := PerPixel(input, op);
            var r := MakePlan(input, op, nThreads, budget);
            && (r.Failure? <==> 64 * 64 * perPixel * threads > budget)
            && (r.Failure? ==> r.error == BudgetTooSmall(budget, threads, 64 * 64 * perPixel))
            && (r.Success? ==>
                  && r.value.nThreads == threads
                  && r.value.blockRows == r.value.blockCols
                  && 64 <= r.value.blockRows <= 4096
                  && r.value.estPeakBytes == PeakBytes(r.value.blockRows, perPixel, threads) <= budget)
  {
    var threads, perPixel := Max(nThreads, 1), PerPixel(input, op);
    PerThreadBound(MIN_BLOCK * MIN_BLOCK * perPixel, threads, budget);
    if Fits(MIN_BLOCK, perPixel, threads, budget) {
      TargetIsLargest(perPixel, threads, budget);
      var target := TargetSide(perPixel, budget / threads);
      SnappedBelowTarget(input.cogTileSize, target);
      hide TargetSide, SnappedSide, PerPixel;
      var block := MakePlan(input, op, nThreads, budget).value.blockRows;
      SmallerFits(block, target, perPixel, threads, budget);
    }
  }

  /** Where the image does not clip it, the block is the snapped side, aligned and maximal. */
  lemma UnclippedBlockIsAlignedAndMaximal(input: PlanInput, op: OpKind, nThreads: nat, budget: nat)
    ensures var threads := Max(nThreads, 1);
            var perPixel := PerPixel(input, op);
            var plan := MakePlan(input, op, nThreads, budget);
            plan.Success? ==>
              var block := plan.value.blockRows;
              var target := TargetSide(perPixel, budget / threads);
              var snapped := SnappedSide(input.cogTileSize, target);
              && block == Min(snapped, Min(Max(input.rows, 64), Max(input.cols, 64)))
              && (block == snapped && 64 <= input.cogTileSize <= target ==>
                    block % input.cogTileSize == 0
                    && forall s: nat :: s <= 4096 && Fits(s, perPixel, threads, budget) ==> s < block + input.cogTileSize)
              && (block == snapped && !(64 <= input.cogTileSize <= target) ==>
                    forall s: nat :: s <= 4096 && Fits(s, perPixel, threads, budget) ==> s <= block)
  {
    var threads, perPixel := Max(nThreads, 1), PerPixel(input, op);
    PlanMeetsBudget(input, op, nThreads, budget);
    if Fits(MIN_BLOCK, perPixel, threads, budget) {
      TargetIsLargest(perPixel, threads, budget);
      var target := TargetSide(perPixel, budget / threads);
      SnappedBelowTarget(input.cogTileSize, target);
      hide TargetSide, PerPixel, Fits;
    }
  }
}
