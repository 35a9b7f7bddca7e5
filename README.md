# alpaka work division, modelled in Dafny

This project models the work-division partitioning of the alpaka accelerator
library (`include/alpaka/core/WorkDivision.hpp`). Given a requested grid
extent measured in kernels (work items), `getValidWorkExtent` chooses

- a block extent (kernels per block in each of three dimensions) that stays
  within the hardware's maximum block extent and maximum kernel count per
  block, and
- a grid-of-blocks extent such that, in every dimension, blocks times block
  extent is exactly the requested grid extent.

The hardware limits come either from the current device (adaptive mode) or
from the component-wise minimum over all enabled accelerators (conservative
mode). The latter is computed by `getMaxBlockKernelExtentEnabledAccelerators`
and `getMaxBlockKernelCountEnabledAccelerators`, which fold the
`CorrectMaxBlockKernel*` functors over the enabled accelerators starting from
the `size_t` maximum.

Files:

- `vec.dfy`, module `Vec`: the three-component extent `Vec3` with indexing,
  product, component-wise minimum and the halving step. `alpaka/core/Vec.hpp`
  is not part of this model; its `prod()` and the `std::min`/`std::max`
  expressions are modelled from their uses in `WorkDivision.hpp`.
- `work_division.dfy`, module `WorkDivision`: device limits, the aggregation
  (functions for the fold, methods with the source's loops), the divisor
  search (`NextLowerOrEqualFactor`, a method with the count-down loop,
  specified by the function `LargestFactorAtMost`), and `GetValidWorkExtent`,
  a method that clips, halves in a loop, searches divisors and divides. The
  method is proved equal to the function `WorkExtentFor`, whose contract
  states exact tiling and the limit bounds.
- `work_division_properties.dfy`, module `WorkDivisionProperties`: the worked
  example, boundary grids, portability of a conservative partition and the
  halving loop's termination behaviour.

How the model reads the source:

- The `assert`s on the grid extent (lines 144-146) become an
  `Err(InvalidExtent)` result: a grid extent with a zero component aborts the
  call and no partition is returned.
- The limits must be positive (`PositiveLimits`). With a zero extent limit the
  source reaches `uiDividend % 0` in `nextLowerOrEqualFactor`. With a zero
  count limit its halving loop never exits, which
  `HalvingNeverFitsZeroCount` states.
- The doc comment of `nextLowerOrEqualFactor` (line 114) says
  `uiDividend/ret==0`; the loop tests `uiDividend % ret`. The model follows
  the loop: the result divides the dividend.
- `std::size_t` maximum is `SizeMax` = 2^64 - 1, a 64-bit platform.
- `SelectedLimits` is the choice at lines 152-163 between the current device's
  properties and the aggregate (`AggregateLimits`).
- Results are values of functions of the inputs, so equal inputs give equal
  partitions; there is no hidden state.

## Model

| member | source | states |
|---|---|---|
| `Vec.Min` | include/alpaka/core/WorkDivision.hpp:168-171 | the clipped extent fits inside both arguments and each component equals one of the two inputs' components (the largest common fit); each component is `MinNat`, the source's `std::min` |
| `Vec.Halve` | include/alpaka/core/WorkDivision.hpp:181-184 | one halving round gives, per component, `std::max(1, v[d] / 2)` (`HalfAtLeastOne`): at least one, either one or at most half the old value, and at least half the old value rounded down (`v[d] <= 2 * r[d] + 1`); a positive extent does not grow |
| `Vec.HalveShrinks` | include/alpaka/core/WorkDivision.hpp:179-185 | halving a positive extent other than (1,1,1) strictly decreases the component sum, so the halving loop makes progress |
| `WorkDivision.CorrectMaxBlockKernelExtent` | include/alpaka/core/WorkDivision.hpp:41-55 | a visit leaves the accumulated extent within both the old accumulator and the accelerator's limit, each component equal to one of them |
| `WorkDivision.CorrectMaxBlockKernelCount` | include/alpaka/core/WorkDivision.hpp:63-72 | a visit leaves the accumulated count at most the old count and the accelerator's limit, equal to one of them |
| `WorkDivision.MaxBlockKernelExtentOver` | include/alpaka/core/WorkDivision.hpp:79-91 | the aggregate extent is, per component, at most `SizeMax` and every accelerator's limit and equal to `SizeMax` or one of those limits: the minimum; all-`SizeMax` for no accelerators |
| `WorkDivision.MaxBlockKernelCountOver` | include/alpaka/core/WorkDivision.hpp:96-106 | the aggregate count is at most `SizeMax` and every accelerator's count limit and equal to one of them: the minimum |
| `WorkDivision.GetMaxBlockKernelExtentEnabledAccelerators` | include/alpaka/core/WorkDivision.hpp:79-91 | the loop over the enabled accelerators, starting from the all-maximum extent, returns the minimum extent above |
| `WorkDivision.GetMaxBlockKernelCountEnabledAccelerators` | include/alpaka/core/WorkDivision.hpp:96-106 | the loop over the enabled accelerators, starting from the `size_t` maximum, returns the minimum count above |
| `WorkDivision.AggregateLimits` | include/alpaka/core/WorkDivision.hpp:159-163 | the conservative limits bound every enabled accelerator's extent and count limits, and are positive when all of those are |
| `WorkDivision.SelectedLimits` | include/alpaka/core/WorkDivision.hpp:152-163 | the limits chosen (current device in adaptive mode, aggregate otherwise) are positive when the chosen source is, and in conservative mode bound every enabled accelerator |
| `WorkDivision.AggregatePositive` | include/alpaka/core/WorkDivision.hpp:159-163 | when every enabled accelerator has positive limits, so does the conservative aggregate |
| `WorkDivision.LargestFactorAtMost` | include/alpaka/core/WorkDivision.hpp:110-126 | for a maximum of at least one the result lies in [1, maximum], divides the dividend, and no larger integer up to the maximum divides it |
| `WorkDivision.NextLowerOrEqualFactor` | include/alpaka/core/WorkDivision.hpp:117-126 | the count-down loop terminates for a maximum of at least one and returns the largest divisor of the dividend not above the maximum |
| `WorkDivision.FitToCount` | include/alpaka/core/WorkDivision.hpp:173-186 | halving until the count fits yields a positive extent within the start extent whose product (`Vec3.Prod`, the source's `prod()`) is at most the count limit |
| `WorkDivision.MaxBlockExtentFor` | include/alpaka/core/WorkDivision.hpp:165-186 | after clip and halving the maximum block extent is positive, within the device limit and the grid per component, and its product fits the count limit |
| `WorkDivision.BlockExtentFor` | include/alpaka/core/WorkDivision.hpp:188-192 | each block component is positive, at most the clipped maximum, divides the grid component, and no larger value up to the maximum does |
| `WorkDivision.GridBlocksFor` | include/alpaka/core/WorkDivision.hpp:194-198 | dividing the grid by a dividing block extent gives a positive block count that multiplies back to the grid in every dimension |
| `WorkDivision.WorkExtentFor` | include/alpaka/core/WorkDivision.hpp:140-201 | rejects exactly the grids with a zero component; otherwise blocks tile the grid exactly, the block extent is positive, within the limit and the grid per dimension, and its product fits the count limit |
| `WorkDivision.GetValidWorkExtent` | include/alpaka/core/WorkDivision.hpp:138-201 | the clip, halving loop, divisor search and division return `WorkExtentFor` of the selected limits (adaptive: current device; otherwise the aggregate): error iff a grid component is zero, exact tiling otherwise |
| `WorkDivisionProperties.WorkedExample` | include/alpaka/core/WorkDivision.hpp:165-200 | grid (100,64,1) under limits (32,32,32) and 1024 gives block extent (25,32,1) and grid blocks (4,2,1) |
| `WorkDivisionProperties.SingleKernelGrid` | include/alpaka/core/WorkDivision.hpp:165-200 | grid (1,1,1) gives block (1,1,1) and grid blocks (1,1,1) under any positive limits |
| `WorkDivisionProperties.PrimeExtentDegenerates` | include/alpaka/core/WorkDivision.hpp:188-192 | along a dimension whose grid extent is a prime above the limit the block extent is 1 and the grid has that many blocks |
| `WorkDivisionProperties.BlockExtentIsLargestDivisor` | include/alpaka/core/WorkDivision.hpp:188-192 | each block component is the largest divisor of the grid component that fits the clipped and halved maximum |
| `WorkDivisionProperties.ConservativePartitionIsPortable` | include/alpaka/core/WorkDivision.hpp:159-163 | a partition computed against the aggregate fits every enabled accelerator's extent and count limit |
| `WorkDivisionProperties.HalvingNeverFitsZeroCount` | include/alpaka/core/WorkDivision.hpp:179-185 | after any number of halving rounds a positive extent still has product at least one, so with a count limit of 0 the loop never exits |
| `WorkDivisionProperties.FitToCountIsFirstFit` | include/alpaka/core/WorkDivision.hpp:177-185 | the halving result is some number j of halving rounds of the clipped extent, and every earlier round still exceeds the count limit: the loop stops at the first round that fits |
| `WorkDivisionProperties.HalvingReachesOnes` | include/alpaka/core/WorkDivision.hpp:179-185 | an extent with components at most 2^k becomes (1,1,1) after k halving rounds |
| `WorkDivisionProperties.HalvingRoundsBound` | include/alpaka/core/WorkDivision.hpp:175-186 | for a positive count limit the halving ends after at most k rounds when components are at most 2^k |

## Left out

- Device-property queries (`DeviceManager<TAcc>::getCurrentDevice().getProperties()`, lines 45-48, 67-69, 154-157) are foreign runtime calls; the current device's properties and the enabled accelerators' properties are parameters (`current`, `enabled`).
- `boost::mpl::for_each` over the compile-time accelerator list (lines 86-88, 101-103) is a loop over a sequence of device properties in the model.
- The functors update an accumulator passed by reference; the model's `CorrectMaxBlockKernel*` functions return the updated accumulator instead.
- `size_t` wrap-around: products and limits are unbounded naturals, so an overflowing `prod()` is not modelled; the source does not check it.
- Limits of zero: `GetValidWorkExtent` requires positive limits because the source then divides by zero or loops forever; the loop is characterised by `HalvingNeverFitsZeroCount`.
- The grid-extent `assert`s are modelled as an error result; a release build, where `assert` is compiled out, is not modelled.
- The work-division and index query interfaces (`include/alpaka/interfaces/IAcc.hpp`, `include/alpaka/cuda/WorkDiv.hpp`) repackage back-end or hardware state and have no logic of their own; the offset traits (`include/alpaka/traits/Offsets.hpp`) and dimension tags (`include/alpaka/core/BasicDims.hpp`) are compile-time type machinery. None of them is modelled.
- `alpaka/core/EnabledAccelerators.hpp` and `alpaka/core/Vec.hpp` are not part of this model.
