# SplFixedArraySort in Dafny

A model of `SplCollectionsSort\SplFixedArraySort`, the PHP class that sorts an
`SplFixedArray` in place. It has three hand-written sorts and a default comparator:

- `insertionSort` sorts a closed index range `[lo, hi]`, which defaults to the whole array;
- `quickSort` is an iterative quicksort over an explicit stack of ranges, with a Hoare
  partition (`quickSortPartition`) and an insertion-sort fallback for ranges with
  `hi - lo < THRESHOLD_INSERTIONSORT` (6);
- `mergeSort` is a bottom-up merge sort. It doubles the run length each pass and
  merges through one scratch buffer (`mergeSortMerge`);
- `comparison` is the default three-way comparator.

The buffer is a Dafny `array<T>` and the sorts are methods with loops, as in the
source. The comparator is a parameter `cmp: (T, T) -> int`. Only the sign of its
result matters. The sorts that need a consistent comparator require
`Ordering.IsTotalPreorder(cmp)`: the sign flips when the arguments are swapped, and
"does not sort after" is transitive.

Modules, one per concern:

- `Ordering` (ordering.dfy): the comparator contract, `Sorted`, `IsSortingOf`, the
  default and descending comparators, and the tie-class filter `Ties` used to state
  stability. It also proves that a sorted rearrangement is unique under a total order.
- `Ranges` (ranges.dfy): `PermutesRange`, meaning a range was rearranged and nothing
  outside it changed, and `swap`.
- `Insertion` (insertion.dfy): `insertionSort`, proved to compute exactly the value
  `InsertionSorted` of the range. Sortedness, permutation and stability are proved
  about that function.
- `Quick` (quick.dfy): `quickSortPartition` and `quickSort`. The stack is a
  `seq<(int, int)>` with the top last. The loop invariant says every out-of-order
  pair lies inside a pending range.
- `Merging` (merge.dfy): `mergeSortMerge`, proved to write exactly the value `Merge`
  of its two runs, and `mergeSort`, whose pass invariant says the array is sorted
  runs of the current length.
- `Examples` (examples.dfy): the test suite's concrete cases, each proved from the
  sorts' contracts.

Each loop of the source is a loop here. A loop body or inner loop that needs its own
invariant is its own method:
- the outer loop of `insertionSort` is `InsertionPasses`, and its shifting loop is
  `InsertLast`;
- the two cursor scans of the partition are `ScanUp` and `ScanDown`;
- one round of the partition loop (both scans, the test, the swap) is `PartitionRound`,
  and its swap step is `Exchange`;
- the two branches of the quicksort stack loop's body are `SortShortRange` and
  `PartitionRange`;
- the copy loop of `mergeSortMerge` is `CopyToTemp`;
- the merge loop of `mergeSortMerge` is `MergeBack`, and its body is `MergeStep`.

Three behaviours of the code that the model keeps as written:

- **Merge ties.** `mergeSort` is not stable: on a tie, `mergeSortMerge` takes the head
  of the right run (SplFixedArraySort.php lines 156-160). So no stability is claimed
  for it: `Examples.MergeOfTwoTies` shows the one merge of a two-element array
  swapping two tied elements.
- **No small-input shortcut.** `mergeSort` returns early only for `count <= 1`
  (lines 119-122). It has no insertion-sort shortcut and otherwise always runs the
  merge passes.
- **Early return in `quickSort`.** The code returns from the whole sort on a popped
  range with `hi <= lo` (lines 71-73). The model keeps this `return`. Its loop
  invariant shows that such a range is only ever the first one, for arrays of
  length 0 or 1.

## Model

| member | source | states |
|---|---|---|
| Ordering.Comparison | src/SplCollectionsSort/SplFixedArraySort.php:203-213 | the default comparator is negative exactly when a < b, positive exactly when a > b, zero exactly when they are equal, and always -1, 0 or 1 |
| Ordering.ComparisonIsTotalOrder | src/SplCollectionsSort/SplFixedArraySort.php:203-213 | the default comparator meets the sorts' precondition, and only equal values tie |
| Ordering.SortedByComparison | src/SplCollectionsSort/SplFixedArraySort.php:203-213 | sorted under the default comparator means ascending in the usual integer order |
| Ordering.Descending | tests/SplCollectionsSort/SplFixedArraySortTest.php:85-93 | the test suite's comparator is negative exactly when a > b and positive exactly when a < b |
| Ordering.DescendingIsTotalOrder | tests/SplCollectionsSort/SplFixedArraySortTest.php:85-93 | the test suite's descending comparator is a total order |
| Ordering.SortedPermutationUnique | tests/SplCollectionsSort/SplFixedArraySortTest.php:43-56 | two sorted rearrangements of the same values are identical under a total order, so each sort gives the same array as the host's built-in sort that the tests compare against |
| Ordering.TiesAppend | src/SplCollectionsSort/SplFixedArraySort.php:194-197 | the tie-class of a concatenation is the concatenation of the tie-classes. Through Insertion.TiesSnoc, this is the step by which the stability of the shifting loop is proved one element at a time |
| Ranges.Swap | src/SplCollectionsSort/SplFixedArraySort.php:43-48 | the two positions exchange their values and every other position keeps its value |
| Ranges.SwapPermutesRange | src/SplCollectionsSort/SplFixedArraySort.php:43-48 | a swap of two positions inside [lo, hi] rearranges [lo, hi] and leaves everything outside it unchanged |
| Insertion.Insert | src/SplCollectionsSort/SplFixedArraySort.php:194-199 | the shifting loop's result as a value: x is placed after the last element that does not compare greater than it, and the result is one longer. Its properties are the lemmas below |
| Insertion.InsertionSorted | src/SplCollectionsSort/SplFixedArraySort.php:190-200 | insertionSort's result as a value: the elements inserted one by one, left to right, with the length kept. InsertionSortedSorts proves it a stable sorted permutation |
| Insertion.InsertPermutes | src/SplCollectionsSort/SplFixedArraySort.php:194-199 | inserting x adds exactly x to the values |
| Insertion.InsertKeepsSorted | src/SplCollectionsSort/SplFixedArraySort.php:194-199 | inserting into a sorted prefix keeps it sorted |
| Insertion.InsertTies | src/SplCollectionsSort/SplFixedArraySort.php:194-197 | the inserted element joins its tie-class after every tied element already present, because it moves only past strictly greater ones |
| Insertion.InsertionSortedPermutes | src/SplCollectionsSort/SplFixedArraySort.php:190-200 | the range's final contents are a rearrangement of its old contents |
| Insertion.InsertionSortedIsSorted | src/SplCollectionsSort/SplFixedArraySort.php:190-200 | the range's final contents are sorted under a consistent comparator |
| Insertion.InsertionSortedIsStable | src/SplCollectionsSort/SplFixedArraySort.php:194-197 | insertion sort is stable: every tie-class keeps its input order |
| Insertion.InsertionSortedOfSorted | src/SplCollectionsSort/SplFixedArraySort.php:190-200 | an already sorted range is left exactly as it was |
| Insertion.InsertAt | src/SplCollectionsSort/SplFixedArraySort.php:194-199 | x goes after the last element that does not sort after it, with everything from there on one place right |
| Insertion.ShiftedIsInsert | src/SplCollectionsSort/SplFixedArraySort.php:194-199 | the state the shifting loop leaves behind is the prefix with the element inserted, and the rest of the buffer is unchanged |
| Insertion.InsertLast | src/SplCollectionsSort/SplFixedArraySort.php:191-199 | one pass of the outer loop replaces a[lo..i] by a[lo..i-1] with the old a[i] inserted after the last element that does not sort after it, and changes nothing outside [lo, i] |
| Insertion.InsertionStep | src/SplCollectionsSort/SplFixedArraySort.php:190-200 | each pass of the outer loop extends the insertion-sorted prefix of the range by one element |
| Insertion.InsertionSortedSorts | src/SplCollectionsSort/SplFixedArraySort.php:190-200 | under a consistent comparator the result is a stable sorted rearrangement of the range |
| Insertion.SpliceSorts | src/SplCollectionsSort/SplFixedArraySort.php:190-200 | writing the sorted range back permutes [lo, hi] only, and sorts it stably |
| Insertion.InsertionPasses | src/SplCollectionsSort/SplFixedArraySort.php:190-200 | after the outer loop, a[lo..hi] holds exactly the reference insertion-sorted range and nothing outside it has changed, for any comparator |
| Insertion.InsertionSort | src/SplCollectionsSort/SplFixedArraySort.php:175-201 | hi defaults to the last index. The call leaves the buffer alone when hi - lo < 1. Otherwise it rewrites exactly [lo, hi] with the insertion-sorted range, which is sorted, a permutation and stable under a consistent comparator |
| Quick.ScanUp | src/SplCollectionsSort/SplFixedArraySort.php:101 | the left cursor stops at the first element not below the pivot, and never passes the sentinel that guarantees one exists |
| Quick.ScanDown | src/SplCollectionsSort/SplFixedArraySort.php:102 | the right cursor stops at the first element not above the pivot, and never passes its sentinel |
| Quick.Exchange | src/SplCollectionsSort/SplFixedArraySort.php:103-104 | swapping the two stopped elements keeps the range a permutation and extends both partitioned sides through the cursors |
| Quick.CursorsMet | src/SplCollectionsSort/SplFixedArraySort.php:101-107 | when the scans meet or cross, the right cursor lies in [lo, hi) and splits the range into a low side and a high side |
| Quick.CursorsApart | src/SplCollectionsSort/SplFixedArraySort.php:101-104 | when the scans stop short of each other, everything before the left cursor is low and everything after the right cursor is high |
| Quick.Exchanged | src/SplCollectionsSort/SplFixedArraySort.php:103-104 | after the swap, the loop's state holds again with the two swapped elements as the next scans' stops |
| Quick.PartitionRound | src/SplCollectionsSort/SplFixedArraySort.php:100-105 | one round either returns a split point with both sides partitioned, or keeps the loop state with the cursors strictly closer |
| Quick.QuickSortPartition | src/SplCollectionsSort/SplFixedArraySort.php:94-108 | for lo < hi it returns p with lo <= p < hi. It permutes [lo, hi] only. Everything in [lo, p] compares at most the old middle element, and everything in [p+1, hi] at least it |
| Quick.PartitionOrdersHalves | src/SplCollectionsSort/SplFixedArraySort.php:94-108 | after partitioning, every element of [lo, p] compares at most every element of [p+1, hi] |
| Quick.Split | src/SplCollectionsSort/SplFixedArraySort.php:83-90 | pushing the two parts keeps everything below on the stack, and adds at most two ranges |
| Quick.StackedTop | src/SplCollectionsSort/SplFixedArraySort.php:68-73 | a popped range lies in the array, holds at least two elements, and lies left of every range still pending |
| Quick.SplitStacked | src/SplCollectionsSort/SplFixedArraySort.php:83-90 | every range on the stack after the pushes has lo < hi inside the array and lies left of every range below it |
| Quick.SplitWeight | src/SplCollectionsSort/SplFixedArraySort.php:83-90 | the pushed parts are strictly narrower in total than the popped range, so the stack loop terminates |
| Quick.CrossPairs | src/SplCollectionsSort/SplFixedArraySort.php:75-81 | rearranging the popped range cannot put out of order a pair that does not lie inside it |
| Quick.SettledAfterSort | src/SplCollectionsSort/SplFixedArraySort.php:75-78 | after insertion-sorting a popped short range, every out-of-order pair still lies inside a pending range |
| Quick.SettledAfterPartition | src/SplCollectionsSort/SplFixedArraySort.php:81-90 | after partitioning and pushing the two parts, every out-of-order pair still lies inside a pending range |
| Quick.SortShortRange | src/SplCollectionsSort/SplFixedArraySort.php:75-78 | insertion-sorting a popped short range keeps the array a permutation and the remaining stack covering every pair out of order, with less weight |
| Quick.PartitionRange | src/SplCollectionsSort/SplFixedArraySort.php:81-90 | partitioning a popped range and pushing its parts keeps the array a permutation and the new stack well laid out, covering every pair out of order, with less weight |
| Quick.QuickSort | src/SplCollectionsSort/SplFixedArraySort.php:59-92 | under a consistent comparator the array ends sorted and a permutation of its old contents |
| Merging.Merge | src/SplCollectionsSort/SplFixedArraySort.php:146-161 | the merge loop's result as a value: the left head goes first only when the right head compares strictly greater, and the length is the sum of the runs. Its properties are the lemmas below |
| Merging.MergePermutes | src/SplCollectionsSort/SplFixedArraySort.php:146-161 | the merge holds exactly the values of both runs |
| Merging.MergeSorted | src/SplCollectionsSort/SplFixedArraySort.php:146-161 | merging two sorted runs gives a sorted run |
| Merging.MergeHead | src/SplCollectionsSort/SplFixedArraySort.php:148-160 | the merge starts with the element the loop writes first in each of its four branches |
| Merging.MergeTieTakesRight | src/SplCollectionsSort/SplFixedArraySort.php:156-160 | when the two heads tie, the merge takes the head of the right run first |
| Merging.MergeSortMerge | src/SplCollectionsSort/SplFixedArraySort.php:138-162 | a[lo..hi] becomes the merge of its two runs and nothing else in a changes. This permutes [lo, hi], and sorts it when both runs were sorted. temp changes only on [lo, hi], where it holds the old a[lo..hi] |
| Merging.MergeSplice | src/SplCollectionsSort/SplFixedArraySort.php:138-162 | replacing [lo, hi] by the merge of its two runs permutes that range only, and sorts it when both runs are sorted |
| Merging.RunsOfCopy | src/SplCollectionsSort/SplFixedArraySort.php:141-143 | after the copy, temp holds both runs at the positions a held them |
| Merging.CopyToTemp | src/SplCollectionsSort/SplFixedArraySort.php:141-143 | temp[lo..hi] becomes a copy of a[lo..hi] and the rest of temp is unchanged |
| Merging.MergeBack | src/SplCollectionsSort/SplFixedArraySort.php:146-161 | a[lo..hi] becomes the merge of temp[lo..mid] with temp[mid+1..hi] and the rest of a is unchanged |
| Merging.MergeStep | src/SplCollectionsSort/SplFixedArraySort.php:147-160 | each iteration writes the next element of the merge at k, and what is left of the two runs merges to the rest |
| Merging.StepLeft | src/SplCollectionsSort/SplFixedArraySort.php:152-158 | taking from the left run, when the right is used up or its head compares strictly greater, writes the merge's next element |
| Merging.StepRight | src/SplCollectionsSort/SplFixedArraySort.php:148-160 | taking from the right run, when the left is used up or on a tie or less, writes the merge's next element |
| Merging.RunsOfOne | src/SplCollectionsSort/SplFixedArraySort.php:129 | before the first pass every run of length 1 is sorted |
| Merging.MergedRunSorted | src/SplCollectionsSort/SplFixedArraySort.php:131-133 | the two runs one call merges are sorted, so the merged run is sorted |
| Merging.MergePass | src/SplCollectionsSort/SplFixedArraySort.php:130-134 | each call in a pass keeps the values and adds one more sorted run of length 2len in front of the still unmerged runs of length len |
| Merging.PassDone | src/SplCollectionsSort/SplFixedArraySort.php:129-135 | after the pass with run length len the array is sorted runs of 2len |
| Merging.RunsSortedBlock | src/SplCollectionsSort/SplFixedArraySort.php:129-135 | when the array is sorted runs of w, every aligned block [k·w, min(k·w + w, count) - 1] is sorted |
| Merging.MergeSort | src/SplCollectionsSort/SplFixedArraySort.php:117-136 | under a consistent comparator the array ends sorted and a permutation of its old contents. With count <= 1 it is unchanged |
| Examples.SortsTo | tests/SplCollectionsSort/SplFixedArraySortTest.php:43-56 | under a total order, a sort's result is fixed by its input values: it equals any sorted sequence of those values |
| Examples.PartialInsertionSort | tests/SplCollectionsSort/SplFixedArraySortTest.php:31-41 | insertion sort on [2, 6] of [18,-64,94,72,-77,11,62,38,-46,-8] gives [18,-64,-77,11,62,72,94,38,-46,-8] |
| Examples.DescendingQuickSort | tests/SplCollectionsSort/SplFixedArraySortTest.php:82-108 | quick sort with the descending comparator turns [2,4,6,3,8,1] into [8,6,4,3,2,1] |
| Examples.DescendingMergeSort | tests/SplCollectionsSort/SplFixedArraySortTest.php:82-108 | merge sort with the descending comparator turns [2,4,6,3,8,1] into [8,6,4,3,2,1] |
| Examples.DescendingInsertionSort | tests/SplCollectionsSort/SplFixedArraySortTest.php:82-108 | insertion sort over the whole array with the descending comparator turns [2,4,6,3,8,1] into [8,6,4,3,2,1] |
| Examples.AscendingQuickSort | tests/SplCollectionsSort/SplFixedArraySortTest.php:58-65 | quick sort with the default comparator turns [5,3,8,6,1,0,4] into [0,1,3,4,5,6,8]. Seven elements take the partition path |
| Examples.ByTensIsTotalPreorder | src/SplCollectionsSort/SplFixedArraySort.php:156-160 | a comparator under which distinct values tie is still a consistent comparator |
| Examples.MergeOfTwoTies | src/SplCollectionsSort/SplFixedArraySort.php:156-160 | merging [10] with [11] when the two tie gives [11, 10], so the tie-class order is not kept: mergeSort is not stable |
| Examples.InsertionOfTwoTies | src/SplCollectionsSort/SplFixedArraySort.php:194-197 | insertion sort of [10, 11] with the two tied leaves [10, 11] in place |

## Left out

- `arraySort` hands the array to PHP's built-in `sort`/`usort`, a foreign call. It is not modelled. `Ordering.SortedPermutationUnique` shows that under a total order any correct sort gives the same array it does.
- Out-of-range `lo` or `hi` for `insertionSort`: the source throws from `SplFixedArray`, and for `hi >= count` it does so only after `[lo, count - 1]` has been partly sorted in place. Insertion.InsertionSort requires in-range indices whenever `hi - lo >= 1`, so neither the exception nor the partly sorted array is modelled.
- PHP's loose `<` and `>` between values of mixed types: the default comparator is modelled over `int`.
- Inconsistent comparators: `quickSort`, `quickSortPartition` and `mergeSort` require `IsTotalPreorder(cmp)`. Their behaviour under a comparator that violates it, including reads past the range in the partition scans, is not modelled. `insertionSort` and `mergeSortMerge` need no such requirement: their exact results hold for any comparator.
- The `null` default for the comparator: callers pass `Ordering.Comparison` themselves. The `null` default for `hi` is the default parameter `a.Length - 1`.
- The internals of `SplFixedArray` and `SplStack`: they become a Dafny `array<T>` and a `seq<(int, int)>` of (lo, hi) pairs. The source pushes the two numbers of a pair separately. `callable` dispatch and `static::class` binding are left out.
- The scratch buffer of `mergeSort` starts full of `null` in the source. Here it starts full of copies of `a[0]`, because a Dafny array needs initial values of its element type. No cell of it is read before it is written.
- PHP's 64-bit integer indices: indices are unbounded integers. `($hi - $lo) >> 1` is `(hi - lo) / 2`, which agrees for the non-negative widths involved.
- The PHPUnit harness: its cases appear only as the proved examples in `Examples`.
- Merging.MergeSort: its contract states sorted and permuted, not the exact output array for tied elements. The tie order of a single merge is stated exactly by Merging.MergeSortMerge.
