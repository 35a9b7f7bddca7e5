/** Properties of the work division that relate several calls or fix
    concrete inputs: the worked example, boundary grids, portability of a
    conservative partition, and the behaviour of the halving loop. */
module WorkDivisionProperties {
  import opened Vec
  import opened WorkDivision

  /** A grid of 100 x 64 x 1 kernels on a device allowing 32 x 32 x 32 and
      1024 kernels per block: the clip gives 32 x 32 x 1 (exactly 1024, so no
      halving), 32 does not divide 100 but 25 does, so the blocks are
      25 x 32 x 1 and the grid has 4 x 2 x 1 of them. */
  lemma WorkedExample()
    ensures WorkExtentFor(Vec3(100, 64, 1), DeviceProps(Vec3(32, 32, 32), 1024))
            == Ok(WorkExtent(Vec3(4, 2, 1), Vec3(25, 32, 1)))
  {
    var grid, limits := Vec3(100, 64, 1), DeviceProps(Vec3(32, 32, 32), 1024);
    var m := MaxBlockExtentFor(grid, limits);
    assert Min(limits.blockKernelsExtentMax, grid) == Vec3(32, 32, 1);
    assert m == Vec3(32, 32, 1);
    assert LargestFactorAtMost(32, 100) == 25 by {
      assert 100 % 32 != 0 && 100 % 31 != 0 && 100 % 30 != 0 && 100 % 29 != 0;
      assert 100 % 28 != 0 && 100 % 27 != 0 && 100 % 26 != 0 && 100 % 25 == 0;
    }
    assert BlockExtentFor(grid, m) == Vec3(25, 32, 1);
  }

  /** A grid of a single kernel gets a single block of a single kernel under
      any positive limits. */
  lemma SingleKernelGrid(limits: DeviceProps)
    requires PositiveLimits(limits)
    ensures WorkExtentFor(Ones, limits) == Ok(WorkExtent(Ones, Ones))
  {
    var w := WorkExtentFor(Ones, limits).value;
    forall d: Dim ensures w.blockKernelsExtent.At(d) == 1 && w.gridBlocksExtent.At(d) == 1 {
      assert w.gridBlocksExtent.At(d) * w.blockKernelsExtent.At(d) == 1;
    }
    assert w.blockKernelsExtent.At(0) == 1 && w.blockKernelsExtent.At(1) == 1 && w.blockKernelsExtent.At(2) == 1;
    assert w.gridBlocksExtent.At(0) == 1 && w.gridBlocksExtent.At(1) == 1 && w.gridBlocksExtent.At(2) == 1;
  }

  /** `p` is a prime number. */
  predicate IsPrime(p: nat) {
    p >= 2 && forall k :: 1 < k < p ==> p % k != 0
  }

  /** Along a dimension whose grid extent is a prime larger than the device
      limit, the block extent degenerates to one kernel and the grid has one
      block per kernel: a valid but poor tiling. */
  lemma PrimeExtentDegenerates(grid: Vec3, limits: DeviceProps, d: Dim)
    requires PositiveLimits(limits) && Positive(grid)
    requires IsPrime(grid.At(d)) && limits.blockKernelsExtentMax.At(d) < grid.At(d)
    ensures WorkExtentFor(grid, limits).Ok?
    ensures WorkExtentFor(grid, limits).value.blockKernelsExtent.At(d) == 1
    ensures WorkExtentFor(grid, limits).value.gridBlocksExtent.At(d) == grid.At(d)
  {
    var w := WorkExtentFor(grid, limits).value;
    var b := w.blockKernelsExtent.At(d);
    assert 1 <= b < grid.At(d);
    assert grid.At(d) % b == 0 by {
      var m := MaxBlockExtentFor(grid, limits);
      assert w.blockKernelsExtent == BlockExtentFor(grid, m);
    }
    assert b == 1;
  }

  /** In every dimension the block extent is the largest divisor of the grid
      extent that fits the maximum block extent left by the clip and the
      halving. */
  lemma BlockExtentIsLargestDivisor(grid: Vec3, limits: DeviceProps, d: Dim)
    requires PositiveLimits(limits) && Positive(grid)
    ensures var m := MaxBlockExtentFor(grid, limits);
            var b := WorkExtentFor(grid, limits).value.blockKernelsExtent;
            b.At(d) <= m.At(d) && grid.At(d) % b.At(d) == 0 &&
            forall k :: b.At(d) < k <= m.At(d) ==> grid.At(d) % k != 0
  {
    var m := MaxBlockExtentFor(grid, limits);
    var b := WorkExtentFor(grid, limits).value.blockKernelsExtent;
    assert b == BlockExtentFor(grid, m);
    assert NoDivisorBetween(grid.At(d), b.At(d), m.At(d));
  }

  /** A partition computed against the aggregate of the enabled accelerators
      respects the limits of each one of them. */
  lemma ConservativePartitionIsPortable(grid: Vec3, enabled: seq<DeviceProps>, i: nat)
    requires forall j :: 0 <= j < |enabled| ==> PositiveLimits(enabled[j])
    requires Positive(grid) && i < |enabled|
    ensures PositiveLimits(AggregateLimits(enabled))
    ensures var b := WorkExtentFor(grid, AggregateLimits(enabled)).value.blockKernelsExtent;
            Within(b, enabled[i].blockKernelsExtentMax) && b.Prod() <= enabled[i].blockKernelsCountMax
  {
    var limits := AggregateLimits(enabled);
    var b := WorkExtentFor(grid, limits).value.blockKernelsExtent;
    assert Within(limits.blockKernelsExtentMax, enabled[i].blockKernelsExtentMax);
    forall d: Dim ensures b.At(d) <= enabled[i].blockKernelsExtentMax.At(d) {
      assert b.At(d) <= limits.blockKernelsExtentMax.At(d);
    }
  }

  /** With a count limit of zero the halving loop never exits: however many
      rounds run, the extent still spans at least one kernel. */
  lemma {:induction false} HalvingNeverFitsZeroCount(v: Vec3, k: nat)
    requires Positive(v)
    ensures HalveTimes(v, k).Prod() > 0
    decreases k
  {
    if k == 0 {
      ProdPositive(v);
    } else {
      HalvingNeverFitsZeroCount(Halve(v), k - 1);
    }
  }

  /** `2^k`, the bound on components that `k` halving rounds reduce to one. */
  function Pow2(k: nat): (r: nat)
    ensures r >= 1
  {
    if k == 0 then 1 else 2 * Pow2(k - 1)
  }

  /** The halving rounds before round `j` all leave more than `maxCount`
      kernels: the loop has not yet been able to stop. */
  predicate NoFitBefore(v: Vec3, maxCount: nat, j: nat) {
    forall i :: 0 <= i < j ==> HalveTimes(v, i).Prod() > maxCount
  }

  /** The halving stops at the first round whose extent fits: the result of
      the loop is `j` rounds of halving, and no earlier round fits. */
  lemma {:induction false} FitToCountIsFirstFit(v: Vec3, maxCount: nat)
    requires Positive(v) && maxCount >= 1
    ensures exists j: nat :: FitToCount(v, maxCount) == HalveTimes(v, j) && NoFitBefore(v, maxCount, j)
    decreases v.Sum()
  {
    if v.Prod() <= maxCount {
      assert FitToCount(v, maxCount) == HalveTimes(v, 0) && NoFitBefore(v, maxCount, 0);
    } else {
      HalveShrinks(v);
      var h := Halve(v);
      FitToCountIsFirstFit(h, maxCount);
      var j: nat :| FitToCount(h, maxCount) == HalveTimes(h, j) && NoFitBefore(h, maxCount, j);
      assert FitToCount(v, maxCount) == HalveTimes(v, j + 1);
      forall i | 0 <= i < j + 1 ensures HalveTimes(v, i).Prod() > maxCount {
        if i > 0 {
          assert HalveTimes(v, i) == HalveTimes(h, i - 1);
        }
      }
      assert NoFitBefore(v, maxCount, j + 1);
    }
  }

  /** An extent whose components are at most `2^k` halves to (1, 1, 1) in
      `k` rounds. */
  lemma {:induction false} HalvingReachesOnes(v: Vec3, k: nat)
    requires Positive(v) && Within(v, Vec3(Pow2(k), Pow2(k), Pow2(k)))
    ensures HalveTimes(v, k) == Ones
    decreases k
  {
    var cap := Vec3(Pow2(k), Pow2(k), Pow2(k));
    assert v.At(0) <= cap.At(0) && v.At(1) <= cap.At(1) && v.At(2) <= cap.At(2);
    assert v.At(0) >= 1 && v.At(1) >= 1 && v.At(2) >= 1;
    if k > 0 {
      var h := Halve(v);
      var half := Vec3(Pow2(k - 1), Pow2(k - 1), Pow2(k - 1));
      forall d: Dim ensures h.At(d) <= half.At(d) {
        assert v.At(d) <= cap.At(d);
      }
      HalvingReachesOnes(h, k - 1);
    }
  }

  /** For a positive count limit the halving loop stops after at most `k`
      rounds when every component is at most `2^k`: it runs at most
      ceil(log2) of the largest component many times. */
  lemma {:induction false} HalvingRoundsBound(v: Vec3, maxCount: nat, k: nat)
    requires Positive(v) && maxCount >= 1 && Within(v, Vec3(Pow2(k), Pow2(k), Pow2(k)))
    ensures exists j :: 0 <= j <= k && FitToCount(v, maxCount) == HalveTimes(v, j)
    decreases k
  {
    if v.Prod() <= maxCount {
      assert FitToCount(v, maxCount) == HalveTimes(v, 0);
    } else if k == 0 {
      HalvingReachesOnes(v, 0);
      assert false;
    } else {
      var cap := Vec3(Pow2(k), Pow2(k), Pow2(k));
      var h := Halve(v);
      var half := Vec3(Pow2(k - 1), Pow2(k - 1), Pow2(k - 1));
      forall d: Dim ensures h.At(d) <= half.At(d) {
        assert v.At(d) <= cap.At(d);
      }
      HalvingRoundsBound(h, maxCount, k - 1);
      var j :| 0 <= j <= k - 1 && FitToCount(h, maxCount) == HalveTimes(h, j);
      assert FitToCount(v, maxCount) == HalveTimes(v, j + 1);
    }
  }
}
