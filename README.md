# Keyframe manager

A model of the keyframe manager of a small animation-sampling program. The
manager keeps timed 3D samples ("keyframes") in a resizable array in the order
they were appended. It supports:

- appending one keyframe, growing the array by doubling when it is full;
- appending a batch after a single pre-sizing reallocation;
- removing a keyframe by position, shifting the rest down and halving the
  array when it falls under a quarter full;
- finding the last keyframe not after a given time by binary search;
- blending two keyframes linearly.

The project has three modules:

- `Keyframes` (`keyframes.dfy`): the `Keyframe` value, the `Option` result that
  stands for the source's null, and `Interpolate`.
- `Timeline` (`timeline.dfy`): the live keyframes as a sequence. It defines
  sortedness by time, deletion at a position, and `NearestPreceding`, the
  predicate for an acceptable search answer. Lemmas about each are proved here.
- `KeyframeStore` (`keyframe_store.dfy`): the `KeyframeManager` class.
  - It holds a backing array `keyframes` of `Option<Keyframe>` slots and the
    count `count`.
  - A ghost sequence `Live` holds the live keyframes.
  - `Valid()` says that the first `count` slots hold `Live` and the other slots
    are cleared (`None`). It also says the capacity is at least 2.
  - The state-changing methods keep `Valid()` and say exactly what `Live` and
    the capacity become.

Keeping append order is left to the caller, as in the source. `Sorted(Live)` is
not part of `Valid()`. Instead:

- `AddKeyframe` promises that an in-order append keeps `Live` sorted.
- `RemoveKeyframe` promises that removal keeps it sorted.
- `FindNearestKeyframe` states its full result property under the hypothesis
  `Sorted(Live)`. Its edge cases hold without that hypothesis: None only on an
  empty store, the first keyframe for an early query, and always a live
  keyframe.

Times and coordinates are `real`, not `float`. The shrink size
`(int)(Length / 2f)` is modelled as the integer `Length / 2`. The two agree for
array lengths up to 2^24, where every length is exactly representable as a
single-precision float.

## Model

| member | source | states |
|---|---|---|
| `Keyframes.Interpolate` | Program.cs:175-189 | a missing keyframe on either side gives a missing result and only then; with both present, factor 0 gives the first keyframe and factor 1 the second |
| `Keyframes.LerpBetween` | Program.cs:183-186 | a per-field blend with a factor in [0, 1] lies between the two end values |
| `Keyframes.InterpolateWithinSegment` | Program.cs:183-186 | with a factor in [0, 1] every field of the blend, time included, lies between the two keyframes' values |
| `Keyframes.InterpolateSymmetric` | Program.cs:183-186 | blending a to b by t equals blending b to a by 1 - t |
| `Keyframes.InterpolateHalfwayExample` | Program.cs:175-188 | with the default factor, x = 0 at time 0 and x = 10 at time 10 blend to x = 5 at time 5 |
| `Timeline.RemoveAt` | Program.cs:111-116 | deleting position i leaves one element fewer; those before i stay in place, those after move down one; exactly one copy of the deleted element leaves the multiset |
| `Timeline.AppendKeepsSorted` | Program.cs:68-77 | appending a keyframe no earlier than the last live one keeps the times non-decreasing |
| `Timeline.RemoveKeepsSorted` | Program.cs:104-117 | deleting any position keeps the survivors' times non-decreasing |
| `Timeline.NearestPrecedingIsLatest` | Program.cs:150-172 | on sorted keyframes an acceptable search answer has the largest time not exceeding the query |
| `Timeline.ExactQueryHitsExactTime` | Program.cs:154-160 | on sorted keyframes, querying a time some keyframe has yields a keyframe with exactly that time |
| `Timeline.NearestPrecedingUnique` | Program.cs:162-172 | on sorted keyframes without an exact hit there is only one acceptable answer, the last keyframe before the query |
| `KeyframeStore.BulkCapacity` | Program.cs:89-95 | the pre-sized capacity for a batch keeps the old capacity exactly when the free slots suffice, never shrinks, and always holds the old count plus the batch |
| `KeyframeStore.ShiftLeft` | Program.cs:111-114 | the elements after `index` move down one position, overwriting the one at `index`; the prefix before `index` and everything from the last live slot on are untouched |
| `KeyframeStore.CopyTo` | Program.cs:82 | every element of the source array lands at the same index of the destination; the destination's later slots are untouched |
| `KeyframeStore.KeyframeManager.constructor` | Program.cs:62-66 | a new manager is valid, empty, and has 4 slots |
| `KeyframeStore.KeyframeManager.CanReduceKeyframesArraySize` | Program.cs:60 | when a shrink is allowed the capacity is at least 4 and the count fits in half of it, so the halved array keeps at least 2 slots and every live keyframe |
| `KeyframeStore.KeyframeManager.AddKeyframe` | Program.cs:68-77 | the new keyframe is appended after the old live keyframes, which keep their order and indices; a full array is first replaced by one of twice the capacity, otherwise the array stays the same; an in-order append keeps the times sorted |
| `KeyframeStore.KeyframeManager.DoubleArraySize` | Program.cs:79-84 | the array is replaced by a fresh one of twice the capacity holding the same live keyframes at the same indices |
| `KeyframeStore.KeyframeManager.AddKeyframesInBulk` | Program.cs:86-101 | the batch is appended in order after the old live keyframes; the final capacity is exactly the pre-sized one, so none of the appends doubles the array; the same array is kept when the free slots suffice, and a fresh one is used otherwise |
| `KeyframeStore.KeyframeManager.RemoveKeyframe` | Program.cs:104-120 | an index outside [0, count) changes nothing; otherwise the live sequence loses exactly that element with the rest in order, the freed slot is cleared, and the capacity halves exactly when the new count is below a quarter of it; sortedness is kept |
| `KeyframeStore.KeyframeManager.ReduceKeyframesArraySize` | Program.cs:122-135 | when under a quarter full the array is replaced by one of half the capacity with the live keyframes at the same indices; otherwise nothing changes |
| `KeyframeStore.KeyframeManager.FindNearestKeyframe` | Program.cs:137-173 | None exactly when the store is empty; a query at or before the first time returns the first keyframe; the result is always a live keyframe; on sorted times it is the last keyframe not after the query, or any keyframe whose time equals the query |

## Left out

- Floating point: the model uses exact `real` arithmetic for the source's `float` fields, so the rounding in the blend is not modelled. Equality of times in the search is exact equality of reals.
- `Keyframes.Interpolate`: its `t == 1.0` clause, that the blend equals the second keyframe, holds over reals only. In single precision it can fail. For example, x = 1e8 and x = 1 blended with t = 1 give x = 0, because `b.x - a.x` rounds to -1e8 at Program.cs:183.
- `Keyframes.InterpolateWithinSegment`: staying between the two ends holds over reals only. In the same single-precision example the result 0 lies outside [1, 1e8].
- NaN queries: in the source a NaN query fails every comparison, so the binary search ends with `high < 0` and takes the first-keyframe fallback of Program.cs:172. Reals have no NaN. The first-keyframe check already ensures the first time is below the query, so the search never moves `high` below 0 and that fallback branch of `FindNearestKeyframe` is unreachable in the model.
- `KeyframeManager.ReduceKeyframesArraySize`: the source computes the halved size through a single-precision float, `(int)(Length / 2f)`. Above 2^24 the float rounds the length to 24 significant bits. For lengths in [2^k, 2^(k+1)) the new size can then differ from `Length / 2` by up to 2^(k-25) slots. For example, 33554434 gives 16777216, one short of 16777217. 67108868 gives 33554432, two short. 1073741888 gives a size 32 off the exact half. Such lengths are reachable through a large bulk load followed by removals. The model always uses the exact `Length / 2`.
- 32-bit integers: the model does not model `int` overflow. This covers the shortfall `bulkNumber - (Length - count)` at Program.cs:89, the capacity computations `Length * 2` and `(Length + extra) * 2`, and the midpoint `(low + high) / 2`.
- `KeyframeManager.AddKeyframesInBulk`: the source draws each keyframe from `System.Random`. The model takes the batch as a sequence from the caller, so a negative `bulkNumber` cannot be expressed. In the source a moderately negative count grows nothing and appends nothing. Near `int.MinValue` the shortfall subtraction wraps to a large positive value. The array is then reallocated to a wrapped size, or the copy throws when that size is too small.
- `KeyframeManager.AddKeyframe`: the source never checks append order. Neither does the model. It states what an in-order append guarantees and does not require one.
- `Keyframe` is a class in the source. Here it is an immutable value, because nothing in the source relies on two references to the same keyframe.
- `Keyframe.ToString`, `Main` and `CodeTest` are left out. They are string formatting, console output, stopwatch timing and a random test driver.
