/** The work-division partitioning of `alpaka/core/WorkDivision.hpp`: the
    hardware limits aggregated over the enabled accelerators, the divisor
    search, and `getValidWorkExtent`, which splits a grid extent measured in
    kernels into a block extent and a grid-of-blocks extent that tile it
    exactly. */
module WorkDivision {
  import opened Vec

  /** `std::numeric_limits<std::size_t>::max()` on a 64-bit platform. */
  const SizeMax: nat := 0xFFFF_FFFF_FFFF_FFFF

  /** The all-maximum extent the aggregation starts from. */
  const MaxExtent: Vec3 := Vec3(SizeMax, SizeMax, SizeMax)

  /** The two properties of a device the work division reads:
      `m_v3uiBlockKernelsExtentMax` and `m_uiBlockKernelsCountMax`. */
  datatype DeviceProps = DeviceProps(blockKernelsExtentMax: Vec3, blockKernelsCountMax: nat)

  /** Limits a partition can be computed against: no bound is zero. */
  predicate PositiveLimits(p: DeviceProps) {
    Positive(p.blockKernelsExtentMax) && p.blockKernelsCountMax >= 1
  }

  /** `alpaka::WorkExtent`: the grid extent in blocks and the block extent in kernels. */
  datatype WorkExtent = WorkExtent(gridBlocksExtent: Vec3, blockKernelsExtent: Vec3)

  /** The failed `assert` on the requested grid extent. */
  datatype Error = InvalidExtent

  datatype Result<T> = Ok(value: T) | Err(error: Error)

  /** The blocks of `w` cover `grid` exactly: in every dimension the number of
      blocks times the block extent is the grid extent. */
  predicate Tiles(w: WorkExtent, grid: Vec3) {
    forall d: Dim :: w.gridBlocksExtent.At(d) * w.blockKernelsExtent.At(d) == grid.At(d)
  }

  // ---------------------------------------------------------------------------
  // Limit aggregation
  // ---------------------------------------------------------------------------

  /** One visit of `CorrectMaxBlockKernelExtent`: the accumulated extent
      restricted to what accelerator `acc` supports. */
  function CorrectMaxBlockKernelExtent(acc: DeviceProps, v: Vec3): (r: Vec3)
    ensures Within(r, v) && Within(r, acc.blockKernelsExtentMax)
    ensures forall d: Dim :: r.At(d) == v.At(d) || r.At(d) == acc.blockKernelsExtentMax.At(d)
  {
    Min(v, acc.blockKernelsExtentMax)
  }

  /** One visit of `CorrectMaxBlockKernelCount`: the accumulated count
      restricted to what accelerator `acc` supports. */
  function CorrectMaxBlockKernelCount(acc: DeviceProps, n: nat): (r: nat)
    ensures r <= n && r <= acc.blockKernelsCountMax
    ensures r == n || r == acc.blockKernelsCountMax
  {
    MinNat(n, acc.blockKernelsCountMax)
  }

  /** The extent the aggregation computes over `accs`: the visits folded in
      order from the all-maximum extent. In every dimension it is the minimum
      of `SizeMax` and every accelerator's limit. */
  function MaxBlockKernelExtentOver(accs: seq<DeviceProps>): (r: Vec3)
    ensures Within(r, MaxExtent)
    ensures forall i :: 0 <= i < |accs| ==> Within(r, accs[i].blockKernelsExtentMax)
    ensures forall d: Dim :: r.At(d) == SizeMax ||
              exists i :: 0 <= i < |accs| && r.At(d) == accs[i].blockKernelsExtentMax.At(d)
    decreases |accs|
  {
    if accs == [] then MaxExtent
    else
      var last := |accs| - 1;
      var prev := MaxBlockKernelExtentOver(accs[..last]);
      assert forall i :: 0 <= i < last ==> accs[..last][i] == accs[i];
      CorrectMaxBlockKernelExtent(accs[last], prev)
  }

  /** The count the aggregation computes over `accs`: the minimum of `SizeMax`
      and every accelerator's limit. */
  function MaxBlockKernelCountOver(accs: seq<DeviceProps>): (r: nat)
    ensures r <= SizeMax
    ensures forall i :: 0 <= i < |accs| ==> r <= accs[i].blockKernelsCountMax
    ensures r == SizeMax || exists i :: 0 <= i < |accs| && r == accs[i].blockKernelsCountMax
    decreases |accs|
  {
    if accs == [] then SizeMax
    else
      var last := |accs| - 1;
      var prev := MaxBlockKernelCountOver(accs[..last]);
      assert forall i :: 0 <= i < last ==> accs[..last][i] == accs[i];
      CorrectMaxBlockKernelCount(accs[last], prev)
  }

  /** `getMaxBlockKernelExtentEnabledAccelerators`, with the enabled
      accelerators' current-device properties given as `enabled`. */
  method GetMaxBlockKernelExtentEnabledAccelerators(enabled: seq<DeviceProps>) returns (r: Vec3)
    ensures r == MaxBlockKernelExtentOver(enabled)
  {
    r := MaxExtent;
    for i := 0 to |enabled|
      invariant r == MaxBlockKernelExtentOver(enabled[..i])
    {
      assert enabled[..i + 1][..i] == enabled[..i];
      r := CorrectMaxBlockKernelExtent(enabled[i], r);
    }
    assert enabled[..|enabled|] == enabled;
  }

  /** `getMaxBlockKernelCountEnabledAccelerators`, with the enabled
      accelerators' current-device properties given as `enabled`. */
  method GetMaxBlockKernelCountEnabledAccelerators(enabled: seq<DeviceProps>) returns (r: nat)
    ensures r == MaxBlockKernelCountOver(enabled)
  {
    r := SizeMax;
    for i := 0 to |enabled|
      invariant r == MaxBlockKernelCountOver(enabled[..i])
    {
      assert enabled[..i + 1][..i] == enabled[..i];
      r := CorrectMaxBlockKernelCount(enabled[i], r);
    }
    assert enabled[..|enabled|] == enabled;
  }

  /** The limits of conservative mode: the aggregate extent and count over the
      enabled accelerators. They bound every enabled accelerator's limits, and
      they are positive when all of those are. */
  function AggregateLimits(enabled: seq<DeviceProps>): (r: DeviceProps)
    ensures forall i :: 0 <= i < |enabled| ==>
              Within(r.blockKernelsExtentMax, enabled[i].blockKernelsExtentMax) &&
              r.blockKernelsCountMax <= enabled[i].blockKernelsCountMax
    ensures (forall i :: 0 <= i < |enabled| ==> PositiveLimits(enabled[i])) ==> PositiveLimits(r)
  {
    var r := DeviceProps(MaxBlockKernelExtentOver(enabled), MaxBlockKernelCountOver(enabled));
    assert (forall i :: 0 <= i < |enabled| ==> PositiveLimits(enabled[i])) ==> PositiveLimits(r) by {
      if forall i :: 0 <= i < |enabled| ==> PositiveLimits(enabled[i]) {
        AggregatePositive(enabled);
      }
    }
    r
  }

  /** The limits `getValidWorkExtent` works with: the current device's in
      adaptive mode, the aggregate over the enabled accelerators otherwise.
      Under the positivity the partition needs they are positive, and in
      conservative mode they bound every enabled accelerator's limits. */
  function SelectedLimits(adaptive: bool, current: DeviceProps, enabled: seq<DeviceProps>): (r: DeviceProps)
    ensures (adaptive ==> PositiveLimits(current)) &&
            (!adaptive ==> forall i :: 0 <= i < |enabled| ==> PositiveLimits(enabled[i]))
            ==> PositiveLimits(r)
    ensures !adaptive ==> forall i :: 0 <= i < |enabled| ==>
              Within(r.blockKernelsExtentMax, enabled[i].blockKernelsExtentMax) &&
              r.blockKernelsCountMax <= enabled[i].blockKernelsCountMax
  {
    if adaptive then current else AggregateLimits(enabled)
  }

  /** The aggregate of accelerators with positive limits is positive. */
  lemma AggregatePositive(enabled: seq<DeviceProps>)
    requires forall i :: 0 <= i < |enabled| ==> PositiveLimits(enabled[i])
    ensures PositiveLimits(DeviceProps(MaxBlockKernelExtentOver(enabled), MaxBlockKernelCountOver(enabled)))
  {
    var v := MaxBlockKernelExtentOver(enabled);
    forall d: Dim ensures v.At(d) >= 1 {
      if v.At(d) != SizeMax {
        var i :| 0 <= i < |enabled| && v.At(d) == enabled[i].blockKernelsExtentMax.At(d);
        assert Positive(enabled[i].blockKernelsExtentMax);
      }
    }
  }

  // ---------------------------------------------------------------------------
  // Divisor search
  // ---------------------------------------------------------------------------

  /** The divisor `nextLowerOrEqualFactor` finds: the largest divisor of
      `dividend` that is at most `maxDivisor`. */
  function LargestFactorAtMost(maxDivisor: nat, dividend: nat): (r: nat)
    requires maxDivisor >= 1
    ensures 1 <= r <= maxDivisor && dividend % r == 0
    ensures forall k :: r < k <= maxDivisor ==> dividend % k != 0
    decreases maxDivisor
  {
    if dividend % maxDivisor == 0 then maxDivisor
    else LargestFactorAtMost(maxDivisor - 1, dividend)
  }

  /** No integer in `(lo, hi]` divides `n`. */
  predicate NoDivisorBetween(n: nat, lo: nat, hi: nat) {
    forall k :: lo < k <= hi ==> n % k != 0
  }

  /** `detail::nextLowerOrEqualFactor`: counts down from `maxDivisor` until it
      reaches a divisor of `dividend`. */
  method NextLowerOrEqualFactor(maxDivisor: nat, dividend: nat) returns (r: nat)
    requires maxDivisor >= 1
    ensures 1 <= r <= maxDivisor && dividend % r == 0
    ensures forall k :: r < k <= maxDivisor ==> dividend % k != 0
    ensures r == LargestFactorAtMost(maxDivisor, dividend)
  {
    r := maxDivisor;
    while dividend % r != 0
      invariant 1 <= r <= maxDivisor
      invariant forall k :: r < k <= maxDivisor ==> dividend % k != 0
      invariant LargestFactorAtMost(r, dividend) == LargestFactorAtMost(maxDivisor, dividend)
      decreases r
    {
      r := r - 1;
    }
  }

  // ---------------------------------------------------------------------------
  // getValidWorkExtent
  // ---------------------------------------------------------------------------

  /** The result of the halving loop started from `v`: halved until its
      kernel count fits `maxCount`. */
  function FitToCount(v: Vec3, maxCount: nat): (r: Vec3)
    requires Positive(v) && maxCount >= 1
    ensures Positive(r) && r.Prod() <= maxCount
    ensures Within(r, v)
    decreases v.Sum()
  {
    if v.Prod() <= maxCount then v
    else
      HalveShrinks(v);
      FitToCount(Halve(v), maxCount)
  }

  /** The maximum block extent the divisor search starts from: the device
      maximum clipped to the grid, then halved until its count fits. */
  function MaxBlockExtentFor(grid: Vec3, limits: DeviceProps): (r: Vec3)
    requires Positive(grid) && PositiveLimits(limits)
    ensures Positive(r) && r.Prod() <= limits.blockKernelsCountMax
    ensures Within(r, limits.blockKernelsExtentMax) && Within(r, grid)
  {
    FitToCount(Min(limits.blockKernelsExtentMax, grid), limits.blockKernelsCountMax)
  }

  /** The block extent of the divisor search: per dimension, the largest
      divisor of the grid extent that is at most the clipped maximum `m`. */
  function BlockExtentFor(grid: Vec3, m: Vec3): (r: Vec3)
    requires Positive(m)
    ensures Positive(r) && Within(r, m)
    ensures forall d: Dim :: grid.At(d) % r.At(d) == 0
    ensures forall d: Dim :: NoDivisorBetween(grid.At(d), r.At(d), m.At(d))
  {
    Vec3(LargestFactorAtMost(m.At(0), grid.At(0)),
         LargestFactorAtMost(m.At(1), grid.At(1)),
         LargestFactorAtMost(m.At(2), grid.At(2)))
  }

  /** The grid extent in blocks: the grid extent divided by the block extent
      in every dimension. When the block extent divides the grid extent and
      fits inside it, the blocks tile the grid. */
  function GridBlocksFor(grid: Vec3, block: Vec3): (r: Vec3)
    requires Positive(block) && Within(block, grid)
    requires forall d: Dim :: grid.At(d) % block.At(d) == 0
    ensures Positive(r) && Tiles(WorkExtent(r, block), grid)
  {
    ExactQuotient(grid.At(0), block.At(0));
    ExactQuotient(grid.At(1), block.At(1));
    ExactQuotient(grid.At(2), block.At(2));
    Vec3(grid.At(0) / block.At(0), grid.At(1) / block.At(1), grid.At(2) / block.At(2))
  }

  /** What `getValidWorkExtent` returns for `grid` under `limits`. */
  function WorkExtentFor(grid: Vec3, limits: DeviceProps): (r: Result<WorkExtent>)
    requires PositiveLimits(limits)
    ensures r.Err? <==> !Positive(grid)
    ensures r.Ok? ==> Tiles(r.value, grid)
    ensures r.Ok? ==> Positive(r.value.blockKernelsExtent) && Positive(r.value.gridBlocksExtent)
    ensures r.Ok? ==> Within(r.value.blockKernelsExtent, limits.blockKernelsExtentMax)
    ensures r.Ok? ==> Within(r.value.blockKernelsExtent, grid)
    ensures r.Ok? ==> r.value.blockKernelsExtent.Prod() <= limits.blockKernelsCountMax
  {
    if !Positive(grid) then Err(InvalidExtent)
    else
      var m := MaxBlockExtentFor(grid, limits);
      var block := BlockExtentFor(grid, m);
      ProdMonotone(block, m);
      Ok(WorkExtent(GridBlocksFor(grid, block), block))
  }

  /** Dividing by an exact divisor no larger than the dividend leaves a
      positive quotient that multiplies back to the dividend. */
  lemma ExactQuotient(n: nat, k: nat)
    requires 1 <= k <= n && n % k == 0
    ensures n / k >= 1 && (n / k) * k == n
  {
  }

  /** `getValidWorkExtent`. The current device's properties (adaptive mode)
      and the enabled accelerators' properties (otherwise) are parameters. */
  method GetValidWorkExtent(gridKernelsExtent: Vec3, adaptive: bool, current: DeviceProps,
                            enabled: seq<DeviceProps>)
    returns (r: Result<WorkExtent>)
    requires adaptive ==> PositiveLimits(current)
    requires !adaptive ==> forall i :: 0 <= i < |enabled| ==> PositiveLimits(enabled[i])
    ensures r.Err? <==> !Positive(gridKernelsExtent)
    ensures r.Ok? ==> Tiles(r.value, gridKernelsExtent)
    ensures PositiveLimits(SelectedLimits(adaptive, current, enabled)) &&
            r == WorkExtentFor(gridKernelsExtent, SelectedLimits(adaptive, current, enabled))
  {
    ghost var limits := SelectedLimits(adaptive, current, enabled);
    assert PositiveLimits(limits);
    if !(gridKernelsExtent.At(0) > 0 && gridKernelsExtent.At(1) > 0 && gridKernelsExtent.At(2) > 0) {
      return Err(InvalidExtent);
    }
    assert Positive(gridKernelsExtent);

    var maxBlock: Vec3;
    var maxCount: nat;
    if adaptive {
      maxBlock := current.blockKernelsExtentMax;
      maxCount := current.blockKernelsCountMax;
    } else {
      maxBlock := GetMaxBlockKernelExtentEnabledAccelerators(enabled);
      maxCount := GetMaxBlockKernelCountEnabledAccelerators(enabled);
      assert limits == DeviceProps(MaxBlockKernelExtentOver(enabled), MaxBlockKernelCountOver(enabled));
    }
    assert maxBlock == limits.blockKernelsExtentMax && maxCount == limits.blockKernelsCountMax;

    // Bound each dimension by the grid extent first, so that the count
    // comparison below only sees dimensions the grid uses.
    maxBlock := Min(maxBlock, gridKernelsExtent);

    var blockKernelsCount := maxBlock.Prod();
    if blockKernelsCount > maxCount {
      while maxBlock.Prod() > maxCount
        invariant Positive(maxBlock)
        invariant FitToCount(maxBlock, maxCount) == MaxBlockExtentFor(gridKernelsExtent, limits)
        decreases maxBlock.Sum()
      {
        assert maxBlock != Ones by { assert Ones.Prod() == 1 && maxCount >= 1; }
        HalveShrinks(maxBlock);
        maxBlock := Halve(maxBlock);
      }
    }
    assert maxBlock == MaxBlockExtentFor(gridKernelsExtent, limits);

    // Per dimension, the largest divisor of the grid extent within the bound.
    var blockX := NextLowerOrEqualFactor(maxBlock.At(0), gridKernelsExtent.At(0));
    var blockY := NextLowerOrEqualFactor(maxBlock.At(1), gridKernelsExtent.At(1));
    var blockZ := NextLowerOrEqualFactor(maxBlock.At(2), gridKernelsExtent.At(2));
    var blockKernels := Vec3(blockX, blockY, blockZ);
    assert blockKernels == BlockExtentFor(gridKernelsExtent, maxBlock);

    // The number of blocks per dimension: an exact quotient.
    ExactQuotient(gridKernelsExtent.At(0), blockX);
    ExactQuotient(gridKernelsExtent.At(1), blockY);
    ExactQuotient(gridKernelsExtent.At(2), blockZ);
    var gridBlocks := Vec3(gridKernelsExtent.At(0) / blockX,
                           gridKernelsExtent.At(1) / blockY,
                           gridKernelsExtent.At(2) / blockZ);
    assert gridBlocks == GridBlocksFor(gridKernelsExtent, blockKernels);
    r := Ok(WorkExtent(gridBlocks, blockKernels));
  }
}
