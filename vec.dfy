/** Three-component extents (`alpaka::Vec<3u>`) and the component-wise
    arithmetic the work division performs on them: minimum, product and the
    halving step of the block-size clipping. */
module Vec {

  /** A component index: 0, 1 or 2. */
  newtype Dim = d: int | 0 <= d < 3

  /** An extent in three dimensions. Depending on context a component counts
      kernels (work items) or blocks. */
  datatype Vec3 = Vec3(x: nat, y: nat, z: nat) {

    /** Component `d`, written `v[d]` in the source. */
    function At(d: Dim): nat {
      if d == 0 then x else if d == 1 then y else z
    }

    /** The number of elements the extent spans (`Vec::prod`). */
    function Prod(): nat {
      x * y * z
    }

    /** The sum of the components; it measures progress of the halving. */
    function Sum(): nat {
      x + y + z
    }
  }

  /** The extent (1, 1, 1). */
  const Ones: Vec3 := Vec3(1, 1, 1)

  /** Every component is at least one: a legal block or grid extent. */
  predicate Positive(v: Vec3) {
    forall d: Dim :: v.At(d) >= 1
  }

  /** `a` fits inside `b` in every dimension. */
  predicate Within(a: Vec3, b: Vec3) {
    forall d: Dim :: a.At(d) <= b.At(d)
  }

  /** The component-wise `std::min` of two extents: the largest extent that
      fits inside both. */
  function Min(a: Vec3, b: Vec3): (r: Vec3)
    ensures Within(r, a) && Within(r, b)
    ensures forall d: Dim :: r.At(d) == a.At(d) || r.At(d) == b.At(d)
  {
    Vec3(MinNat(a.x, b.x), MinNat(a.y, b.y), MinNat(a.z, b.z))
  }

  /** `std::min(a, b)`: returns `a` unless `b < a`. */
  function MinNat(a: nat, b: nat): nat {
    if b < a then b else a
  }

  /** `std::max(1, n / 2)`: one component of a halving step. */
  function HalfAtLeastOne(n: nat): nat {
    if n / 2 < 1 then 1 else n / 2
  }

  /** One round of the halving clip: every component floor-halved but never
      below one. */
  function Halve(v: Vec3): (r: Vec3)
    ensures Positive(r)
    ensures forall d: Dim :: r.At(d) == 1 || 2 * r.At(d) <= v.At(d)
    ensures forall d: Dim :: v.At(d) <= 2 * r.At(d) + 1
    ensures Positive(v) ==> Within(r, v)
  {
    Vec3(HalfAtLeastOne(v.x), HalfAtLeastOne(v.y), HalfAtLeastOne(v.z))
  }

  /** `k` successive rounds of halving. */
  function HalveTimes(v: Vec3, k: nat): Vec3
    decreases k
  {
    if k == 0 then v else HalveTimes(Halve(v), k - 1)
  }

  /** Halving a legal extent other than (1, 1, 1) makes progress. */
  lemma HalveShrinks(v: Vec3)
    requires Positive(v) && v != Ones
    ensures Halve(v).Sum() < v.Sum()
  {
    assert v.At(0) >= 1 && v.At(1) >= 1 && v.At(2) >= 1;
  }

  /** A legal extent spans at least one element. */
  lemma ProdPositive(v: Vec3)
    requires Positive(v)
    ensures v.Prod() >= 1
  {
    assert v.At(0) >= 1 && v.At(1) >= 1 && v.At(2) >= 1;
    assert v.x * v.y >= 1 by { MulMonotone(1, v.x, 1, v.y); }
    MulMonotone(1, v.x * v.y, 1, v.z);
  }

  /** An extent that fits inside another spans no more elements. */
  lemma ProdMonotone(a: Vec3, b: Vec3)
    requires Within(a, b)
    ensures a.Prod() <= b.Prod()
  {
    assert a.At(0) <= b.At(0) && a.At(1) <= b.At(1) && a.At(2) <= b.At(2);
    MulMonotone(a.x, b.x, a.y, b.y);
    MulMonotone(a.x * a.y, b.x * b.y, a.z, b.z);
  }

  lemma MulMonotone(a: nat, b: nat, c: nat, d: nat)
    requires a <= b && c <= d
    ensures a * c <= b * d
  {
    assert a * c <= b * c;
    assert b * c <= b * d;
  }
}
