# sortedmap: verified model of the unsynchronised flat-slice containers

This project models the four unsynchronised ordered containers of the Go
package `sortedmap` and the two shift helpers they share:

- `NoLockSortedSet` is a set of keys kept in one strictly ascending slice.
- `NoLockOrderedSet` is the same set, with its shifts written inline.
- `NoLockSortedMap` holds two index-aligned slices, `keys` and `values`. The keys drive the search and the order.
- `NoLockSortedMapCalc` is the same map, except that each key is computed from its value by a function given at construction. It adds inserts and deletes that search only after a hint index, and ordered batches that feed each returned index back in as the next hint.

Every operation starts with a binary search that returns the lower-bound
position of the key and whether the key is there. Insertion and deletion
then shift the slice in place. The range queries return the prefix or
suffix cut at the lower or upper bound.

Layout:

- `ordered.dfy` (module `Ordered`) is the specification on plain sequences:
  - lower and upper bound;
  - positional and set insertion and deletion;
  - batch set insertion;
  - the range query, both as written and corrected;
  - the hint lemmas.
- `entries.dfy` (module `Entries`) is the specification of the parallel key/value table. It covers map insertion and deletion, their batch forms, and the reading of a table as a dictionary.
- `search.dfy` (module `Search`) is the binary-search loop that stands in for `slices.BinarySearch`.
- `slices.dfy` (module `Slices`) models Go slices:
  - a slice is a backing `array`, whose length is the capacity, plus a length kept by the container;
  - the builtins `append` and `copy`;
  - the reallocation `append(make([]T, 0, n), s...)`;
  - the helpers `insertAt` and `deleteAt` from utils.go.
- `sortedset.dfy`, `orderedset.dfy`, `sortedmap.dfy` and `sortedmapcalc.dfy` hold one class per container. Each class method is proved against the specification functions: the new contents equal a function of the old contents, and an invariant `Valid()` is kept.

The two set classes have identical contracts written with the same
functions (`InsertSorted`, `DeleteSorted`, `LowerBound`, `UpperBound`,
`InclusiveRange`). So the inlined shifts of `NoLockOrderedSet` are proved
to behave exactly like the helper-based shifts of `NoLockSortedSet`.

Several contracts compose into properties of the sources:
- `GetLess(v) + GetGreaterOrEqual(v)` and `GetLessOrEqual(v) + GetGreater(v)` are the whole contents, because each query states the exact length of its prefix or suffix.
- The contracts of `NoLockSortedMapCalc.InsertAll` and `InsertAllOrdered` state the same final table, so both batches give the same result. The same holds for `DeleteAll` and `DeleteAllOrdered`.

A few behaviours of the code that the model keeps:
- A range query with crossed bounds panics whenever an element lies strictly between the bounds (see Findings).
- `ExtendCapacityTo(n)` grows to exactly `n` when the capacity is smaller.
- The ordered batches panic on a present key (insert) or an absent key (delete) before the last value, because the -1 they get back becomes the next hint.
- The test at nolocksortedmapcalc_test.go:67 calls `Delete` with a key. The model follows the signature of nolocksortedmapcalc.go:73, which takes a value.

## Model

| member | source | states |
|---|---|---|
| Slices.Reallocate | nolocksortedset.go:26-30 | A fresh backing array of exactly the requested capacity holds the same first `len` elements |
| Slices.Append | utils.go:4 | `append` writes `v` at index `len`, in place when a slot is free and otherwise into a strictly larger fresh array, and keeps the first `len` elements |
| Slices.Moved | utils.go:5 | The contents after an overlapping `copy`: the destination window holds the old source window and every other slot is unchanged |
| Slices.Copy | utils.go:5 | An in-place `copy` within one array gives `Moved` of the old contents, whichever way the windows overlap |
| Slices.MovedInsert | utils.go:4-6 | After `append`, moving `[pos:len]` one slot later and storing `v` at `pos` gives positional insertion at `pos` |
| Slices.MovedDelete | utils.go:10-12 | Moving `[pos+1:len]` one slot earlier gives positional deletion at `pos` |
| Slices.InsertAt | utils.go:3-8 | `insertAt` leaves `InsertAt(old slice, pos, v)` in the first `len+1` slots, in the same array when there was room and otherwise in a fresh larger one |
| Slices.DeleteAt | utils.go:10-12 | `deleteAt` leaves `DeleteAt(old slice, pos)` in the first `len-1` slots of the same array |
| Ordered.InsertAt | utils.go:3-8 | Positional insertion of `v` at `pos`. `InsertAtElements` proves it one element longer with `v` at `pos`, the prefix unchanged and the tail shifted; `DeleteAtInsertAt` proves `DeleteAt` undoes it |
| Ordered.DeleteAt | utils.go:10-12 | Positional deletion at `pos`. `DeleteAtMembers` proves it removes exactly the element at `pos` from a strictly ascending sequence, and `DeleteAtAscending` that order is kept |
| Ordered.InsertAtElements | utils.go:3-8 | Insertion keeps the prefix `r[..pos] == s[..pos]`, places `v` at `pos` and shifts the rest: `r[pos+1..] == s[pos..]` |
| Ordered.InsertAtMembers | utils.go:3-8 | The elements after positional insertion are the old ones plus `v` |
| Ordered.DeleteAtInsertAt | utils.go:3-12 | Round trip: deleting at `pos` what was inserted at `pos` restores the sequence |
| Ordered.DeleteAtMembers | utils.go:10-12 | Deleting index `pos` of a strictly ascending sequence removes exactly the element there |
| Ordered.DeleteAtAscending | utils.go:10-12 | Positional deletion keeps a sequence strictly ascending |
| Ordered.InsertAtLowerBoundAscending | nolocksortedset.go:37-42 | Inserting an absent `v` at its lower bound keeps a strictly ascending sequence strictly ascending |
| Ordered.LowerBound | nolocksortedset.go:37 | The search position: every element before it is below `x` and the element at it, if any, is not |
| Ordered.UpperBound | nolocksortedset.go:93-99 | The index of the first element above `x`: every element before it is `<= x` and the one at it, if any, is above. `UpperBoundFromLowerBound` ties it to the search result |
| Ordered.LowerBoundUnique | nolocksortedset.go:37 | Any split point with all elements before it below `x` and the one at it not below is the lower bound |
| Ordered.UpperBoundUnique | nolocksortedset.go:93-99 | Any split point with all elements before it `<= x` and the one at it above `x` is the upper bound |
| Ordered.LowerBoundCounts | nolocksortedset.go:100-103 | For a sorted sequence, an index is below the lower bound exactly when its element is below `x` |
| Ordered.UpperBoundCounts | nolocksortedset.go:93-99 | For a sorted sequence, an index is below the upper bound exactly when its element is `<= x` |
| Ordered.UpperBoundFromLowerBound | nolocksortedset.go:93-99 | The upper bound is the lower bound plus one exactly when `x` is present |
| Ordered.FoundIffPresent | nolocksortedset.go:88-91 | The search finds `x` at its position exactly when `x` is in the sequence |
| Ordered.InsertSorted | nolocksortedset.go:36-44 | Set insertion at the search position, the identity when the search finds `x`. Its properties are proved in `InsertSortedCorrect` |
| Ordered.DeleteSorted | nolocksortedset.go:56-64 | Set deletion at the search position, the identity when the search does not find `x`. Its properties are proved in `DeleteSortedCorrect` |
| Ordered.InsertAllSorted | nolocksortedset.go:76-82 | Set insertion of each element of the batch, first to last. `InsertAllSortedCorrect` shows it is the strictly ascending union |
| Ordered.InsertSortedCorrect | nolocksortedset.go:36-44 | Set insertion keeps strict order, adds exactly `x`, grows the length by one exactly when `x` was absent, and puts `x` at its old lower bound |
| Ordered.DeleteSortedCorrect | nolocksortedset.go:56-64 | Set deletion keeps strict order, removes exactly `x`, and shrinks the length by one exactly when `x` was present |
| Ordered.AscendingUnique | nolocksortedset.go:8-10 | Two strictly ascending sequences with the same elements are equal |
| Ordered.InsertDeleteInverse | nolocksortedset.go:36-64 | Deleting a value that was just inserted restores the set, and inserting back a value that was just deleted restores it too |
| Ordered.InsertAllSortedCorrect | nolocksortedset.go:76-82 | Batch insertion keeps strict order and gives the union of the old elements and the batch |
| Ordered.InclusiveRangeAsWritten | nolocksortedset.go:122-126 | The range query as the code computes it: the slice between the lower bound of `start` and the upper bound of `end`, or a panic when the first is greater. `InclusiveRangeAsWrittenPanicsIff` says exactly when it panics |
| Ordered.InclusiveRange | nolocksortedset.go:122-126 | The corrected range query, empty for crossed positions. `InclusiveRangeExact` shows it holds exactly the elements in `[start, end]` in ascending order |
| Ordered.InclusiveRangeExact | nolocksortedset.go:122-126 | The corrected range query is strictly ascending, contains exactly the elements in `[start, end]`, and is empty when `start > end` |
| Ordered.InclusiveRangeAsWrittenPanicsIff | nolocksortedset.go:122-126 | The range query as written panics exactly when some element lies strictly between `end` and `start`; otherwise it returns the corrected result |
| Ordered.InclusiveRangeAsWrittenPanicExample | nolocksortedset.go:122-126 | On the set {3}, the query as written panics for `(4, 2)` while the corrected query returns the empty range |
| Ordered.LowerBoundAfterHint | nolocksortedmapcalc.go:59-67 | A search of the suffix from a hint not past the lower bound finds the same absolute position and the same presence |
| Ordered.HintBeforeLowerBound | nolocksortedmapcalc.go:59-67 | For a sorted sequence, a hint is not past the lower bound exactly when the key just before the hint is below the searched key |
| Ordered.SuffixMembers | nolocksortedset.go:105-112 | The members of a suffix are the elements at the indices it covers |
| Ordered.PrefixMembers | nolocksortedset.go:113-120 | The members of a prefix are the elements at the indices it covers |
| Search.BinarySearch | nolocksortedset.go:37 | `slices.BinarySearch` on a window: the position is the lower bound of the window, and found holds exactly when the element there is `x`, which is exactly when `x` is in the window |
| Entries.Insert | nolocksortedmap.go:40-49 | Map insertion moves the keys as set insertion does and keeps the two lengths aligned |
| Entries.Delete | nolocksortedmap.go:61-70 | Map deletion moves the keys as set deletion does and keeps the two lengths aligned |
| Entries.InsertAllStep | nolocksortedmap.go:82-88 | One more iteration of the batch loop is one more map insertion of `(ks[i], vs[i])` |
| Entries.DeleteAllStep | nolocksortedmapcalc.go:122-128 | One more iteration of the batch loop is one more map deletion of `ks[i]` |
| Entries.InsertAll | nolocksortedmap.go:82-88 | Map insertion of each pair `(ks[i], vs[i])`, first to last, keeping the two lengths aligned. `InsertAllCorrect` gives its dictionary |
| Entries.DeleteAll | nolocksortedmapcalc.go:122-128 | Map deletion of each key, first to last, keeping the two lengths aligned. `DeleteAllCorrect` gives its dictionary |
| Entries.KeysOf | nolocksortedmapcalc.go:104-110 | The keys `calcKey` gives a batch of values: the same length, with the key of `vs[i]` at index `i` |
| Entries.AsMap | nolocksortedmap.go:8-11 | The dictionary two aligned slices represent. `AsMapLookup` gives its keys and values, and `AsMapDeterminesTable` shows it fixes the slices |
| Entries.AsMapLookup | nolocksortedmap.go:8-11 | The dictionary read of a table has exactly its keys, each with the value at the same index |
| Entries.AsMapDeterminesTable | nolocksortedmap.go:8-11 | Two well-formed tables with the same dictionary are equal: the parallel slices are determined by the map they represent |
| Entries.InsertPlaces | nolocksortedmap.go:40-49 | Map insertion keeps the invariant; a present key leaves the table unchanged; an absent key lands with its value at the key's search position |
| Entries.InsertCorrect | nolocksortedmap.go:40-49 | As a dictionary, insertion adds `k := v` when `k` is absent and never overwrites a present key |
| Entries.DeleteCorrect | nolocksortedmap.go:61-70 | Map deletion keeps the invariant and, as a dictionary, removes exactly `k` |
| Entries.DeletePresent | nolocksortedmap.go:67-68 | The two aligned `deleteAt` calls at the key's position remove exactly that key and its value |
| Entries.InsertDeleteInverse | nolocksortedmap.go:40-70 | Deleting a key that was just inserted into the map restores the table |
| Entries.InsertAllCorrect | nolocksortedmap.go:82-88 | Batch insertion keeps the invariant and leaves old keys with their values. Each new key gets the value paired with its first occurrence in the batch |
| Entries.DeleteAllCorrect | nolocksortedmapcalc.go:122-128 | Batch deletion keeps the invariant, removes exactly the batch's keys and leaves every other value in place |
| Entries.InsertKeyedBy | nolocksortedmapcalc.go:42-52 | Inserting `(calcKey(v), v)` keeps every key equal to the key computed from its value |
| Entries.DeleteKeyedBy | nolocksortedmapcalc.go:73-83 | Deletion keeps every key equal to the key computed from its value |
| SortedSet.NoLockSortedSet.constructor | nolocksortedset.go:12-16 | A new set is empty with exactly the requested capacity |
| SortedSet.NoLockSortedSet.Size | nolocksortedset.go:18-20 | The size is the number of elements |
| SortedSet.NoLockSortedSet.Capacity | nolocksortedset.go:22-24 | The capacity is never below the size |
| SortedSet.NoLockSortedSet.ExtendCapacityTo | nolocksortedset.go:26-30 | Capacity becomes exactly `newCap` in a fresh array when it was smaller; otherwise the backing array is kept. The elements never change |
| SortedSet.NoLockSortedSet.Clear | nolocksortedset.go:32-34 | The set becomes empty and keeps its backing array, hence its capacity |
| SortedSet.NoLockSortedSet.Insert | nolocksortedset.go:36-44 | New elements are set insertion of the old. The result is -1 for a present value and otherwise the lower bound, where the value now sits. Size grows by one exactly on success |
| SortedSet.NoLockSortedSet.Delete | nolocksortedset.go:56-64 | New elements are set deletion of the old. The result is the old index for a present value and -1 otherwise. The value is absent afterwards |
| SortedSet.NoLockSortedSet.InsertAll | nolocksortedset.go:76-82 | Capacity becomes old size plus the batch length when it was smaller; the elements become batch set insertion of the input |
| SortedSet.NoLockSortedSet.Contains | nolocksortedset.go:88-91 | True exactly when the value is an element |
| SortedSet.NoLockSortedSet.GetIndexOfGreater | nolocksortedset.go:93-99 | The upper bound: exactly the indices of elements `<= value` lie below it |
| SortedSet.NoLockSortedSet.GetIndexOfGreaterOrEqual | nolocksortedset.go:100-103 | The lower bound: exactly the indices of elements `< value` lie below it |
| SortedSet.NoLockSortedSet.GetGreater | nolocksortedset.go:105-108 | The suffix from the upper bound, holding exactly the elements above `value` |
| SortedSet.NoLockSortedSet.GetGreaterOrEqual | nolocksortedset.go:109-112 | The suffix from the lower bound, holding exactly the elements `>= value` |
| SortedSet.NoLockSortedSet.GetLess | nolocksortedset.go:113-116 | The prefix up to the lower bound, holding exactly the elements below `value` |
| SortedSet.NoLockSortedSet.GetLessOrEqual | nolocksortedset.go:117-120 | The prefix up to the upper bound, holding exactly the elements `<= value` |
| SortedSet.NoLockSortedSet.GetByInclusiveRange | nolocksortedset.go:122-126 | The corrected range query: ascending, exactly the elements in `[start, end]` |
| OrderedSet.NoLockOrderedSet.constructor | nolockorderedset.go:12-16 | A new set is empty with exactly the requested capacity |
| OrderedSet.NoLockOrderedSet.Size | nolockorderedset.go:18-20 | The size is the number of elements |
| OrderedSet.NoLockOrderedSet.Capacity | nolockorderedset.go:22-24 | The capacity is never below the size |
| OrderedSet.NoLockOrderedSet.ExtendCapacityTo | nolockorderedset.go:26-30 | Capacity becomes exactly `newCap` in a fresh array when it was smaller; otherwise the backing array is kept. The elements never change |
| OrderedSet.NoLockOrderedSet.Clear | nolockorderedset.go:32-34 | The set becomes empty and keeps its backing array |
| OrderedSet.NoLockOrderedSet.Insert | nolockorderedset.go:36-46 | Same contract as `NoLockSortedSet.Insert`: set insertion, -1 or the lower bound, size grows by one exactly on success |
| OrderedSet.NoLockOrderedSet.ShiftIn | nolockorderedset.go:42-44 | The inline append, overlapping copy and store put an absent value at its lower bound and keep strict order |
| OrderedSet.NoLockOrderedSet.Delete | nolockorderedset.go:58-66 | Same contract as `NoLockSortedSet.Delete`. The inline `append` of the tail performs set deletion in the same array |
| OrderedSet.NoLockOrderedSet.InsertAll | nolockorderedset.go:78-84 | Capacity becomes old size plus the batch length when it was smaller; the elements become batch set insertion of the input |
| OrderedSet.NoLockOrderedSet.Contains | nolockorderedset.go:90-93 | True exactly when the value is an element |
| OrderedSet.NoLockOrderedSet.GetIndexOfGreater | nolockorderedset.go:95-101 | The upper bound: exactly the indices of elements `<= value` lie below it |
| OrderedSet.NoLockOrderedSet.GetIndexOfGreaterOrEqual | nolockorderedset.go:102-105 | The lower bound: exactly the indices of elements `< value` lie below it |
| OrderedSet.NoLockOrderedSet.GetGreater | nolockorderedset.go:107-110 | The suffix from the upper bound, holding exactly the elements above `value` |
| OrderedSet.NoLockOrderedSet.GetGreaterOrEqual | nolockorderedset.go:111-114 | The suffix from the lower bound, holding exactly the elements `>= value` |
| OrderedSet.NoLockOrderedSet.GetLess | nolockorderedset.go:115-118 | The prefix up to the lower bound, holding exactly the elements below `value` |
| OrderedSet.NoLockOrderedSet.GetLessOrEqual | nolockorderedset.go:119-122 | The prefix up to the upper bound, holding exactly the elements `<= value` |
| OrderedSet.NoLockOrderedSet.GetByInclusiveRange | nolockorderedset.go:124-128 | The corrected range query: ascending, exactly the elements in `[start, end]` |
| SortedMap.NoLockSortedMap.constructor | nolocksortedmap.go:13-18 | A new map is empty with exactly the requested capacity |
| SortedMap.NoLockSortedMap.Size | nolocksortedmap.go:20-22 | The size is the length of the value slice, equal to that of the key slice |
| SortedMap.NoLockSortedMap.Capacity | nolocksortedmap.go:24-26 | The capacity of the value slice is never below the size |
| SortedMap.NoLockSortedMap.ExtendCapacityTo | nolocksortedmap.go:28-33 | Both slices are reallocated to exactly `newCap` when the capacity was smaller; contents never change |
| SortedMap.NoLockSortedMap.Clear | nolocksortedmap.go:35-38 | Both slices become empty and keep their backing arrays |
| SortedMap.NoLockSortedMap.Insert | nolocksortedmap.go:40-49 | New table is map insertion of the old. The result is -1 for a present key, whose value is not overwritten, and otherwise the key's lower bound. Size grows by one exactly on success |
| SortedMap.NoLockSortedMap.InsertPair | nolocksortedmap.go:46-47 | The two `insertAt` calls put the key and the value at the same search position |
| SortedMap.NoLockSortedMap.Delete | nolocksortedmap.go:61-70 | New table is map deletion of the old; the result is the key's old index when present and -1 otherwise |
| SortedMap.NoLockSortedMap.InsertAll | nolocksortedmap.go:82-88 | Capacity becomes old size plus `len(values)` when it was smaller; the table becomes batch map insertion of the pairs `(ks[i], vs[i])` |
| SortedMap.NoLockSortedMap.InsertAllByMap | nolocksortedmap.go:90-96 | The dictionary becomes `m` with the old entries taking precedence, whatever the iteration order. Capacity becomes old size plus `len(m)` when it was smaller |
| SortedMap.NoLockSortedMap.InsertEachOf | nolocksortedmap.go:93-95 | The loop over `m`, in any order, leaves the old dictionary extended by the new keys of `m` |
| SortedMap.InsertStep | nolocksortedmap.go:93-95 | Inserting the pair of `m` at one more visited key, which adds it only when new, extends the visited part of `m` while the original entries keep precedence |
| SortedMap.NoLockSortedMap.InsertVisited | nolocksortedmap.go:94 | One more visited key of `m` extends the dictionary by that key unless it was already present |
| SortedMap.NoLockSortedMap.Contains | nolocksortedmap.go:102-105 | True exactly when the key is present |
| SortedMap.NoLockSortedMap.GetIndexOfGreater | nolocksortedmap.go:107-113 | The upper bound of the keys: exactly the indices of keys `<= key` lie below it |
| SortedMap.NoLockSortedMap.GetIndexOfGreaterOrEqual | nolocksortedmap.go:114-117 | The lower bound of the keys: exactly the indices of keys `< key` lie below it |
| SortedMap.NoLockSortedMap.GetGreater | nolocksortedmap.go:119-122 | The suffix of the values from the upper bound of the keys: exactly the values whose keys are above `key` |
| SortedMap.NoLockSortedMap.GetGreaterOrEqual | nolocksortedmap.go:123-126 | The suffix of the values from the lower bound of the keys: exactly the values whose keys are `>= key` |
| SortedMap.NoLockSortedMap.GetLess | nolocksortedmap.go:127-130 | The prefix of the values up to the lower bound of the keys: exactly the values whose keys are below `key` |
| SortedMap.NoLockSortedMap.GetLessOrEqual | nolocksortedmap.go:131-134 | The prefix of the values up to the upper bound of the keys: exactly the values whose keys are `<= key` |
| SortedMap.NoLockSortedMap.GetByInclusiveRange | nolocksortedmap.go:136-140 | The contiguous run of values, from the lower bound on, whose keys lie in `[start, end]`, in key order |
| SortedMapCalc.NoLockSortedMapCalc.constructor | nolocksortedmapcalc.go:14-20 | A new map is empty with exactly the requested capacity and remembers `calcKey` |
| SortedMapCalc.NoLockSortedMapCalc.Size | nolocksortedmapcalc.go:22-24 | The size is the length of the value slice, equal to that of the key slice |
| SortedMapCalc.NoLockSortedMapCalc.Capacity | nolocksortedmapcalc.go:26-28 | The capacity of the value slice is never below the size |
| SortedMapCalc.NoLockSortedMapCalc.ExtendCapacityTo | nolocksortedmapcalc.go:30-35 | Both slices are reallocated to exactly `newCap` when the capacity was smaller; contents never change |
| SortedMapCalc.NoLockSortedMapCalc.Clear | nolocksortedmapcalc.go:37-40 | Both slices become empty and keep their backing arrays |
| SortedMapCalc.NoLockSortedMapCalc.InsertPair | nolocksortedmapcalc.go:49-50 | The two `insertAt` calls put the computed key and the value at the same search position and keep every key computed from its value |
| SortedMapCalc.NoLockSortedMapCalc.DeletePair | nolocksortedmapcalc.go:80-81 | The two `deleteAt` calls remove the key and its value at the same index and keep the invariant |
| SortedMapCalc.NoLockSortedMapCalc.Insert | nolocksortedmapcalc.go:42-52 | New table is map insertion of `(calcKey(value), value)`. The result is -1 when that key is present and otherwise its lower bound. Size grows by one exactly on success |
| SortedMapCalc.NoLockSortedMapCalc.InsertWithAfterHint | nolocksortedmapcalc.go:59-71 | With a hint not past the key's lower bound, it behaves exactly like `Insert`. Its result is the absolute index `afterIndex + pos`, at or after the hint |
| SortedMapCalc.NoLockSortedMapCalc.Delete | nolocksortedmapcalc.go:73-83 | New table is map deletion of `calcKey(value)`; the result is the key's old index when present and -1 otherwise |
| SortedMapCalc.NoLockSortedMapCalc.DeleteWithAfterHint | nolocksortedmapcalc.go:90-102 | For any in-range hint, the new table and the result are those of `DeleteAfter`: the key is removed only if found at or after the hint, and the absolute index is returned |
| SortedMapCalc.NoLockSortedMapCalc.InsertAll | nolocksortedmapcalc.go:104-110 | Capacity becomes old size plus the batch length when it was smaller; the table becomes batch map insertion of the computed keys with their values |
| SortedMapCalc.NoLockSortedMapCalc.InsertAllOrdered | nolocksortedmapcalc.go:112-119 | For a batch with strictly ascending keys that are new except possibly the last, the final table equals that of `InsertAll` |
| SortedMapCalc.NoLockSortedMapCalc.InsertOrderedStep | nolocksortedmapcalc.go:117 | One iteration inserts the value as `Insert` does. The returned index is a valid hint for the next, larger key |
| SortedMapCalc.NoLockSortedMapCalc.DeleteAll | nolocksortedmapcalc.go:122-128 | Capacity becomes old size plus the batch length when it was smaller, although nothing is added. The table becomes batch map deletion of the computed keys |
| SortedMapCalc.NoLockSortedMapCalc.DeleteAllOrdered | nolocksortedmapcalc.go:130-137 | For a batch with strictly ascending keys that are present except possibly the last, the final table equals that of `DeleteAll` |
| SortedMapCalc.NoLockSortedMapCalc.DeleteOrderedStep | nolocksortedmapcalc.go:135 | One iteration deletes the value's key as `Delete` does. The returned index is a valid hint for the next, larger key |
| SortedMapCalc.NoLockSortedMapCalc.Contains | nolocksortedmapcalc.go:139-142 | True exactly when the key is present |
| SortedMapCalc.NoLockSortedMapCalc.GetIndexOfGreater | nolocksortedmapcalc.go:144-150 | The upper bound of the keys: exactly the indices of keys `<= key` lie below it |
| SortedMapCalc.NoLockSortedMapCalc.GetIndexOfGreaterOrEqual | nolocksortedmapcalc.go:151-154 | The lower bound of the keys: exactly the indices of keys `< key` lie below it |
| SortedMapCalc.NoLockSortedMapCalc.GetGreater | nolocksortedmapcalc.go:156-159 | The suffix of the values from the upper bound of the keys: exactly the values whose keys are above `key` |
| SortedMapCalc.NoLockSortedMapCalc.GetGreaterOrEqual | nolocksortedmapcalc.go:160-163 | The suffix of the values from the lower bound of the keys: exactly the values whose keys are `>= key` |
| SortedMapCalc.NoLockSortedMapCalc.GetLess | nolocksortedmapcalc.go:164-167 | The prefix of the values up to the lower bound of the keys: exactly the values whose keys are below `key` |
| SortedMapCalc.NoLockSortedMapCalc.GetLessOrEqual | nolocksortedmapcalc.go:168-171 | The prefix of the values up to the upper bound of the keys: exactly the values whose keys are `<= key` |
| SortedMapCalc.NoLockSortedMapCalc.GetByInclusiveRange | nolocksortedmapcalc.go:173-177 | The contiguous run of values, from the lower bound on, whose keys lie in `[start, end]`, in key order |
| SortedMapCalc.SearchAfterHint | nolocksortedmapcalc.go:59-67 | A search after a hint not past the lower bound finds the key's lower bound in the whole key slice and finds exactly the present keys |
| SortedMapCalc.DeleteAfter | nolocksortedmapcalc.go:90-102 | The hint delete on a table: search `keys[h:]`, remove the pair at the absolute index when found, else keep the table and return -1. `DeleteAfterCorrect` and `DeleteAfterWithHint` relate it to map deletion |
| SortedMapCalc.DeleteAfterAt | nolocksortedmapcalc.go:90-102 | `DeleteAfter` read off a search of the keys from the hint: removal at `afterIndex + pos` when found, no change otherwise |
| SortedMapCalc.DeleteAfterCorrect | nolocksortedmapcalc.go:90-102 | Deleting after a hint returns -1 exactly when the key is absent from the keys after the hint, and then changes nothing. Otherwise it is map deletion and returns the key's lower bound |
| SortedMapCalc.DeleteAfterWithHint | nolocksortedmapcalc.go:90-102 | With a hint not past the key's lower bound, deleting after the hint is exactly map deletion, and it returns -1 exactly when the key is absent |
| SortedMapCalc.DeleteAfterChains | nolocksortedmapcalc.go:130-137 | After deleting a present key, the returned index is a valid hint for any larger key |
| SortedMapCalc.OrderedAbsentStep | nolocksortedmapcalc.go:112-119 | In a strictly ascending batch, a key that was new before the batch is still absent when its turn comes |
| SortedMapCalc.OrderedPresentStep | nolocksortedmapcalc.go:130-137 | In a strictly ascending batch, a key present before the batch is still present when its turn comes |

## Left out

- The `sync.RWMutex` wrappers in sortedset.go, orderedset.go, sortedmap.go and sortedmapcalc.go only lock, delegate and unlock. Concurrency is not modelled. Those wrappers also call hint and ordered-batch methods that the set and the plain map never define, so no such operations are invented for them.
- The benchmark files only time the containers against third-party trees. The test files are used only as evidence for the properties.
- Keys are `int` with `<`. The generic `constraints.Ordered`, such as string order, is not modelled. Go's 64-bit `int` sizes and indices are unbounded integers here, since no index arithmetic can overflow below the memory limit.
- Values are a generic `V` with a default value, standing for Go's zero value. `calcKey` is an arbitrary total function `V -> int`.
- `slices.BinarySearch` from `golang.org/x/exp/slices` is a library call. `Search.BinarySearch` re-implements it as a loop with the same lower-bound contract.
- Go's `append` growth policy is not modelled. When `append` outgrows a full array, the model picks capacity `2 * cap + 1`, but no contract depends on that number. Contracts state only that the new array is fresh and larger than the old length.
- The model does not tie the two backing arrays of a map to the same length. `Capacity` is measured on `values`, as in the source.
- Slice aliasing is not modelled. The range queries return views into the backing array in Go, and later in-place shifts change those views. Here they return immutable sequences captured at the call.
- Negative constructor capacities, for which `make` panics, are excluded by a `nat` parameter.
- SortedMap.NoLockSortedMap.InsertAll requires `|ks| <= |vs|`, because the source reads `values[i]` for every index of `keys` and panics otherwise.
- SortedMapCalc.NoLockSortedMapCalc.InsertWithAfterHint requires `0 <= afterIndex <= Size()`, because the slice expression panics otherwise. It also requires the key just before the hint to be below the new key. With a hint past the lower bound, the source inserts out of order and breaks its own invariant, which the model does not follow.
- SortedMapCalc.NoLockSortedMapCalc.DeleteWithAfterHint requires only `0 <= afterIndex <= Size()`, the range where the slice expression does not panic. Its result for every such hint is given by `DeleteAfter`.
- SortedMapCalc.NoLockSortedMapCalc.InsertAllOrdered requires the batch keys to be strictly ascending and all but the last to be absent. A present key returns -1, and the next `keys[-1:]` panics. A batch that is only ascending, with repeats, is not covered.
- SortedMapCalc.NoLockSortedMapCalc.DeleteAllOrdered requires the batch keys to be strictly ascending and all but the last to be present, for the same -1 hint reason.
- SortedMap.NoLockSortedMap.InsertAllByMap: Go's map iteration order is unspecified. The model picks any remaining key at each step, and the contract holds for every order.
- The set and map `GetByInclusiveRange` methods have the corrected behaviour: crossed bounds give an empty result. The panic of the code as written is kept in `Ordered.InclusiveRangeAsWritten` (see Findings).

## Findings

| source | as written | input that shows it | evidently intended | confidence | as-written member | corrected member |
|---|---|---|---|---|---|---|
| nolocksortedset.go:122-126 | `values[startPos:endPos]` with `startPos = GetIndexOfGreaterOrEqual(start)` and `endPos = GetIndexOfGreater(end)` panics whenever `startPos > endPos`. That happens when some element lies strictly between `end` and `start`. The same line is in nolockorderedset.go:124-128, nolocksortedmap.go:136-140 and nolocksortedmapcalc.go:173-177 | the set {3} queried with `GetByInclusiveRange(4, 2)`: `startPos = 1`, `endPos = 0` | an empty result for crossed bounds, as the tests expect for `(3, 2)` and `(5, 4)` on {3} | not executed; medium | Ordered.InclusiveRangeAsWritten, Ordered.InclusiveRangeAsWrittenPanicsIff; example: Ordered.InclusiveRangeAsWrittenPanicExample | Ordered.InclusiveRange, Ordered.InclusiveRangeExact |
