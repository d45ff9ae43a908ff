# interval_set in Dafny

A model of `csplib::interval_set<T>`. The container stores a set of
integers as an ordered collection of half-open intervals `[lower, upper)`,
and the model proves what its operations do to that set.

- **The store.** The `std::set<interval>` field `m_intervals` becomes the
  `seq<Interval>` field `intervals` of the class
  `IntervalSets.IntervalSet`. A `std::set` iterator becomes an index into
  that sequence. `erase(it)` removes one element of the sequence.
  `emplace_hint(it, lo, hi)` inserts at the position where `lower_bound`
  places `[lo, hi)`.
- **The element type.** `T` is fixed to the 32-bit `int` that the tests
  instantiate. `Intervals.Value` is the range `MIN..MAX`, and
  `numeric_limits<int>::max()` is `MAX`.
- **The invariant.** `Valid` holds when every stored interval is non-empty
  and each one ends strictly before the next one begins.
  `Intervals.WellFormed` states this neighbour by neighbour, and
  `Intervals.Separated` states it for every pair. `Elems` is the set of
  integers the store covers, `Intervals.Covered`.
- **The central fact.** `Intervals.CanonicalUnique` proves that a store
  satisfying the invariant is determined by the set it covers. This is
  how the exact shape of the store after a hole cut is established, and
  how each step of the two test scenarios is established.
- **The methods.** `add_range` and `remove_range` are methods with the
  source's while loops (lines 52-55 and 94-97) and their cursor
  arithmetic. The steps after each loop are small helper methods of the
  class, each proved through a lemma of module `Sweeps`:
  - lines 57-68 of `add_range` become `MergePrevious`;
  - lines 99-109 of `remove_range` become `CutPrevious`;
  - line 116 becomes `PutBackLeft`;
  - line 117 becomes `PutBackRight`.
- **The test scenarios.** Module `Scenarios` follows both test cases of
  `test/csplib/interval_set_test.cpp` through the contracts. Each `CHECK`
  becomes an assertion that the verifier proves.
- **The laws.** Module `Laws` relates several calls: `add_range` and
  `remove_range` are idempotent, adding a new range and removing it again
  (or the reverse) restores the store, `add_value` and `remove_value`
  act exactly as the one-element ranges, and adding every value of
  `[lo, hi)` one at a time, in any order, leaves the store `add_range(lo, hi)`
  leaves.

The header defines no iterator (the class ends at
`include/csplib/interval_set.hpp:143`), so there is nothing to model.

## Model

| member | source | states |
|---|---|---|
| Intervals.LessIsStrictTotalOrder | include/csplib/interval_set.hpp:25-29 | `operator<` (lower bound first, then upper bound) is irreflexive, asymmetric, transitive and total on distinct intervals, as `std::set` requires of its comparator |
| Intervals.WellFormedIffSeparated | include/csplib/interval_set.hpp:142 | the invariant stated for neighbours ("non-empty, ends strictly before the next begins") holds exactly when it holds for every pair of stored intervals |
| Intervals.SeparatedIsSorted | include/csplib/interval_set.hpp:142 | a store that keeps the invariant is strictly increasing under `operator<`, so it is a valid `std::set` order |
| Intervals.CanonicalUnique | include/csplib/interval_set.hpp:142 | two stores that keep the invariant and cover the same integers are identical: the representation is canonical |
| Intervals.Max | include/csplib/interval_set.hpp:53 | `std::max` returns one of its arguments, and it is at least both |
| Intervals.LowerBoundSplits | include/csplib/interval_set.hpp:50 | on a sorted store, `lower_bound(key)` gives the position with every earlier interval below `key` and no later one below it |
| Intervals.UpperBoundSplits | include/csplib/interval_set.hpp:127 | on a sorted store, `upper_bound(key)` gives the position with no earlier interval above `key` and every later one above it |
| Intervals.StoredAtLowerBound | include/csplib/interval_set.hpp:70 | on a sorted store, an interval is stored exactly when `lower_bound` lands on it (the case where `emplace_hint` inserts nothing) |
| Intervals.HintIsLowerBound | include/csplib/interval_set.hpp:70 | an exact hint (the interval before it is smaller than the new one, the one at it is larger) is the `lower_bound` position, and the new interval is not yet stored |
| Intervals.CoveredErase | include/csplib/interval_set.hpp:54 | what a store covers is what it covers with the interval at one position erased, together with that interval's span |
| Sweeps.LowerBoundAtPoint | include/csplib/interval_set.hpp:50 | on a well-formed store, the cursor after `lower_bound(interval(lo, lo))` is the one position where every interval before it starts below `lo` and every interval from it on starts at or after `lo` |
| IntervalSets.IntervalSet.constructor | include/csplib/interval_set.hpp:142 | a new set has no intervals, keeps the invariant and covers nothing |
| IntervalSets.IntervalSet.Empty | include/csplib/interval_set.hpp:136-138 | `empty()` is true iff no interval is stored, and on a valid store iff the set covered is empty |
| IntervalSets.IntervalSet.Contains | include/csplib/interval_set.hpp:121-134 | `contains(v)` is true iff some stored interval has `lower <= v < upper`, iff `v` is in the covered set (false on an empty store and before the first interval) |
| IntervalSets.IntervalSet.EmplaceHint | include/csplib/interval_set.hpp:46 | `emplace_hint` inserts the interval at its `lower_bound` position unless it is already stored. On a well-formed store with an exact hint, it lands at the hint |
| IntervalSets.IntervalSet.AddRange | include/csplib/interval_set.hpp:41-72 | keeps the invariant. The covered set becomes old ∪ `[lo, hi)`. For `lo >= hi` the store is unchanged. For `lo < hi` the set is then not empty |
| Sweeps.AbsorbNext | include/csplib/interval_set.hpp:52-55 | one turn of the forward sweep erases an interval starting at or before `val_hi` and widens `val_hi` to `max(val_hi, upper)`. The store stays well formed, the cursor still stands at `lo`, and store ∪ `[lo, val_hi)` is still the target set |
| IntervalSets.IntervalSet.MergePrevious | include/csplib/interval_set.hpp:57-68 | the predecessor is erased and merged (`val_lo := lower`, `val_hi := max`) exactly when it exists and its `upper >= val_lo`; otherwise the store and the cursor are unchanged. The resulting interval then fits exactly at the cursor, and inserting it gives a well-formed store that covers the target set |
| Sweeps.AddRangeMerged | include/csplib/interval_set.hpp:57-70 | when the predecessor overlaps or touches `[lo, val_hi)`, after erasing it the merged interval fits exactly at its old place and the result covers the target set |
| Sweeps.AddRangeApart | include/csplib/interval_set.hpp:57-70 | when no predecessor reaches `lo`, `[lo, val_hi)` fits exactly at the cursor and the result covers the target set |
| IntervalSets.IntervalSet.AddValue | include/csplib/interval_set.hpp:37-39 | `add_value(v)` keeps the invariant and adds exactly `v` to the covered set |
| IntervalSets.IntervalSet.RemoveRange | include/csplib/interval_set.hpp:78-119 | keeps the invariant. The covered set becomes old \ `[lo, hi)`. For `lo >= hi` or an empty store the store is unchanged. A cut strictly inside one interval `[l, u)` replaces it by exactly `[l, lo)` and `[hi, u)`, and nothing else changes |
| Sweeps.SliceNext | include/csplib/interval_set.hpp:94-97 | one turn of the removal sweep erases an interval starting below `hi` and sets `slice_hi` to its upper bound. The store stays well formed, and (store \ `[lo, hi)`) ∪ `[hi, slice_hi)` is still the target set |
| Sweeps.LastUpperIsGreatest | include/csplib/interval_set.hpp:95 | in a well-formed store, the last interval of a run has the greatest upper bound of the run: the fact behind assigning rather than taking a max at line 95. The loop of `RemoveRange` carries it turn by turn, as its invariant that `slice_hi`, when above `hi`, ends before the interval under the cursor (kept by `Sweeps.SliceNext`) |
| IntervalSets.IntervalSet.CutPrevious | include/csplib/interval_set.hpp:99-109 | the predecessor is erased exactly when it exists and its `upper > lo`. Then `slice_lo := lower` and `slice_hi := max(upper, slice_hi)`; otherwise the store and the cursor are unchanged. Afterwards the pieces `[slice_lo, lo)` and `[hi, slice_hi)` fit at the cursor, and together with the store they cover the target set |
| Sweeps.RemoveRangeStraddling | include/csplib/interval_set.hpp:99-109 | when the predecessor straddles `lo`, after erasing it the remaining parts `[lower, lo)` and `[hi, max(upper, slice_hi))` fit at its place and complete the target set |
| Sweeps.RemoveRangeApart | include/csplib/interval_set.hpp:99-109 | when no predecessor passes `lo`, only `[hi, slice_hi)` is left to put back, and it fits at the cursor |
| IntervalSets.IntervalSet.PutBackLeft | include/csplib/interval_set.hpp:116 | inserts `[slice_lo, lo)` at the cursor exactly when `slice_lo < lo`, leaving the cursor on the same interval. There is then room for the right piece alone, and the target set is unchanged |
| Sweeps.PutLeft | include/csplib/interval_set.hpp:116 | the hint for `[slice_lo, lo)` is exact, and after the insertion the right piece still fits one place further on |
| IntervalSets.IntervalSet.PutBackRight | include/csplib/interval_set.hpp:117 | inserts `[hi, slice_hi)` at the cursor exactly when `slice_hi > hi`. The final store is well formed and covers the target set |
| Sweeps.PutRight | include/csplib/interval_set.hpp:117 | the hint for `[hi, slice_hi)` is exact, and inserting it gives a well-formed store that covers the target set |
| Sweeps.NoRight | include/csplib/interval_set.hpp:117 | with an empty right piece, the store already covers the target set |
| Sweeps.HoleCut | include/csplib/interval_set.hpp:111-117 | replacing an interval that strictly contains `[lo, hi)` by its two outer pieces gives a well-formed store that covers old \ `[lo, hi)` |
| Sweeps.HoleCuts | include/csplib/interval_set.hpp:111-117 | any well-formed store covering old \ `[lo, hi)`, for a hole strictly inside one interval, is exactly that store with the interval replaced by its two pieces |
| IntervalSets.IntervalSet.RemoveValue | include/csplib/interval_set.hpp:74-76 | `remove_value(v)` keeps the invariant and removes exactly `v` from the covered set |
| Sweeps.EraseAt | include/csplib/interval_set.hpp:54 | erasing one interval keeps the store well formed. The neighbours become adjacent in the sequence, and the covered set loses that interval's span |
| Sweeps.Place | include/csplib/interval_set.hpp:70 | an interval that fits between its neighbours at a position has an exact hint there, and inserting it keeps the invariant and adds its span |
| Scenarios.AddingValues | test/csplib/interval_set_test.cpp:13-48 | every CHECK of the test case "adding values" holds of the store the contracts pin down after each step, and the final store is exactly `[-40, -30)`, `[-10, 11)` |
| Scenarios.RemovingValues | test/csplib/interval_set_test.cpp:50-95 | every CHECK of the test case "removing values" holds of the store the contracts pin down after each step, and the final store is exactly `[10, 100)`, `[200, 980)` |
| Scenarios.SameStore1 | test/csplib/interval_set_test.cpp:21-31 | a well-formed store that covers exactly one interval's span is that single interval. This pins the store after `add_range(-10, 10)` and `add_value(10)` |
| Scenarios.SameStore2 | test/csplib/interval_set_test.cpp:34-46 | a well-formed store that covers the spans of two intervals with a gap between them is exactly those two, in order (the stores in both test cases) |
| Laws.SameElems | include/csplib/interval_set.hpp:142 | two well-formed stores that represent the same integers are the same store |
| Laws.AddRangeTwice | include/csplib/interval_set.hpp:41-72 | `add_range` is idempotent: a second `add_range(lo, hi)` leaves exactly the store the first one left, the well-formed store of old ∪ `[lo, hi)` |
| Laws.RemoveRangeTwice | include/csplib/interval_set.hpp:78-119 | `remove_range` is idempotent: a second `remove_range(lo, hi)` leaves exactly the store the first one left, the well-formed store of old \ `[lo, hi)` |
| Laws.AddThenRemove | include/csplib/interval_set.hpp:41-119 | `add_range(lo, hi)` then `remove_range(lo, hi)` on a set that does not meet `[lo, hi)` gives back the identical store |
| Laws.RemoveThenAdd | include/csplib/interval_set.hpp:41-119 | `remove_range(lo, hi)` then `add_range(lo, hi)` on a set that holds all of `[lo, hi)` gives back the identical store |
| Laws.EmptyAgain | include/csplib/interval_set.hpp:41-138 | a new set after `add_range(lo, hi)` and `remove_range(lo, hi)` is `empty()` again |
| Laws.AddValueIsAddRange | include/csplib/interval_set.hpp:37-39 | `add_value(v)` leaves the same store as `add_range(v, v + 1)` |
| Laws.AddValuesIsAddRange | include/csplib/interval_set.hpp:37-72 | calling `add_value` on each of a list of values that make up exactly `[lo, hi)`, in any order and with repeats, leaves the same store as one `add_range(lo, hi)` from the same start |
| Laws.RemoveValueIsRemoveRange | include/csplib/interval_set.hpp:74-76 | `remove_value(v)` leaves the same store as `remove_range(v, v + 1)` |

## Left out

- Element iteration. The header defines no iterator (the class ends at `include/csplib/interval_set.hpp:143`), so there is nothing to model.
- The red-black tree inside `std::set`, and the cost of `lower_bound` and `emplace_hint`. The store is a sorted sequence, and the searches are binary searches over it with the same results.
- Any element type other than 32-bit `int`. Other integral `T` behave alike with other bounds, except at `v == MAX`. For unsigned `T` and for `T` narrower than `int`, `v + 1` at lines 38 and 75 wraps or is narrowed back, giving a value at most `MAX`. So `add_value(MAX)` and `remove_value(MAX)` reach the `lo >= hi` early return (lines 43 and 79) and do nothing, instead of being undefined. The model, fixed to `int`, excludes `v == MAX`.
- IntervalSets.IntervalSet.AddValue: requires `v < MAX`, because for `int` (and wider signed `T`) `v + 1` at `MAX` is undefined behaviour in C++ (line 38).
- IntervalSets.IntervalSet.RemoveValue: requires `v < MAX`, for the same reason (line 75).
- IntervalSets.IntervalSet.EmplaceHint: the fact that the hint is where the interval lands is stated only for a well-formed store and an exact hint. Those are the only calls the container makes. The hint's effect on cost is not modelled.
- The steps after each sweep loop are separate helper methods (`MergePrevious`, `CutPrevious`, `PutBackLeft`, `PutBackRight`). The statements, their order and the cursor arithmetic are the source's; only a method boundary has been added.
- The doctest framework itself (doctest's `main`, `TEST_CASE` registration and reporting) and the `static_assert` on `value_type`, which has no run-time behaviour.
- The `reference` and `const_reference` typedefs and the unused `<iostream>` and `<cassert>` includes, which have no behaviour.
