# Sorting catalog: a verified model of `SortingExecutor`

`SortingExecutor.java` holds one static array `values` of `arrLen` integers and
six in-place sorting algorithms that work on it: insertion sort, an improved
insertion sort, selection sort, Shell sort, top-down merge sort and bottom-up
merge sort. Every algorithm compares with `less`. Insertion, selection and
Shell sort, and the first phase of the improved insertion sort, move elements
with `exchangeElements`; the second phase of the improved insertion sort
shifts elements instead. The two merge sorts share `merge(lo, mid, hi)`, which
copies the range into the scratch array `temp` and merges the two runs back.
`isSorted` checks a result; no algorithm calls it.

In this model each algorithm is a Dafny `method` that sorts an `array<int>` in
place. The loops are the Java loops, with their invariants. `a.Length` plays
the part of `arrLen`. Elements are `int`, and `less` is `<`.

Each sort is proved against one specification. Its result is sorted, it is a
permutation of its input (`multiset` equality), and it equals
`Ordering.SortedOf` of the input. `SortedOf` is a functional insertion sort,
used as the reference. `Ordering.SortedPermutationIsUnique` shows that any
sorted permutation is that reference, so all six algorithms produce the same
array. Every sort also states that an already sorted input is left as it was;
this follows from `Ordering.SortedOfSortedIsIdentity`.

`merge` is specified by `Merging.Merged`, a recursive function over the array
as it was before the call. Next to it, `Merging.MergeOrder` lists the source
index that each output slot takes. Lemmas about these two functions state
three properties:

- the merge is a permutation of the range;
- the merge is sorted when both runs are sorted;
- the merge is stable: on a tie the left run goes first, so equal elements keep
  their original order.

Modules, one per file:

- `Ordering` (`ordering.dfy`): `less`, `exchangeElements`, `isSorted`, the
  sortedness predicates and the reference sort.
- `Insertion` (`insertion.dfy`): `InsertionSorting` and
  `ImprovedInsertionSorting`.
- `Selection` (`selection.dfy`): `SelectionSorting`.
- `Shell` (`shell.dfy`): `ShellSorting`.
- `Merging` (`merging.dfy`): `MergeSorting.merge`.
- `MergeSorts` (`merge_sorts.dfy`): `DescendingMergeSorting` (top-down) and
  `AscendingMergeSorting` (bottom-up).

Some inner loops of the Java code are separate methods here, so that each
proof stays small:

- `Insertion.MoveMinimumToFront` and `Insertion.ShiftLarger`;
- `Selection.MinIndex`;
- `Shell.StartGap` and `Shell.HSortPass`;
- `Merging.CopyToScratch` and `Merging.MergeBack`;
- `MergeSorts.MergePass` and `MergeSorts.MergeBlockPair`.

Each of these runs the same statements as the loop it comes from.

## Model

| member | source | states |
|---|---|---|
| Ordering.LessIsStrictTotalOrder | SortingExecutor.java:69-71 | `less` (modelled by `Ordering.Less`) is irreflexive, asymmetric and transitive. Two elements neither of which is less than the other are equal, so `!less(y, x)` means x is at most y. |
| Ordering.IsSorted | SortingExecutor.java:103-108 | the answer is true exactly when every pair of positions is in order. Empty and one-element arrays are sorted. |
| Ordering.AdjacentSortedIffSorted | SortingExecutor.java:104-106 | adjacent pairs in order (the pairs `isSorted` tests) holds if and only if every pair is in order |
| Ordering.Exchange | SortingExecutor.java:80-84 | the two elements trade places and nothing else moves. With `i == j` the array is unchanged. The multiset of elements is kept. |
| Insertion.InsertionSort | SortingExecutor.java:120-124 | the array ends sorted, as a permutation of its old contents, equal to the reference sort. A sorted input is left unchanged. |
| Insertion.MoveMinimumToFront | SortingExecutor.java:137-143 | phase 1 keeps the elements and leaves a minimum at index 0. It makes no exchange if and only if the input was sorted, and then the array is unchanged. |
| Insertion.ShiftLarger | SortingExecutor.java:148-152 | the unguarded inner loop stops with `1 <= j <= i`, so it never reads index -1 when `a[0] <= v`. It shifts exactly the elements greater than `v` one slot right and stops at the first one that is not greater. Every slot up to and including the gap `j`, and every slot after `i`, keeps its old value. |
| Insertion.InsertByShifting | SortingExecutor.java:147-153 | inserting `a[i]` into a sorted prefix gives a sorted prefix one longer. The elements are kept, `a[0]` is kept, and the suffix is untouched. |
| Insertion.ShiftInsertionPass | SortingExecutor.java:146-154 | with a minimum at index 0, phase 2 from `i = 2` leaves the array sorted as a permutation of its input |
| Insertion.ImprovedInsertionSort | SortingExecutor.java:136-155 | sorted permutation equal to the reference sort. An already sorted input is returned unchanged (the early return). |
| Insertion.ShiftedInsertPermutes | SortingExecutor.java:147-153 | a shift-and-write of the held value is a permutation of the prefix |
| Insertion.ShiftedInsertSorts | SortingExecutor.java:149-153 | the held value lands between a not-greater left neighbour and greater right ones, so the prefix stays sorted |
| Selection.MinIndex | SortingExecutor.java:170-173 | returns the index of the first smallest element of `a[from..]`: no element there is smaller, and every earlier one is strictly larger |
| Selection.SelectionSort | SortingExecutor.java:168-176 | after step `i` the prefix is sorted and holds the `i` smallest elements. The result is a sorted permutation equal to the reference sort. A sorted input is left unchanged. |
| Shell.StartGap | SortingExecutor.java:190-192 | the first increment is of the 3h+1 form, at least `arrLen/3`, and the smallest such increment |
| Shell.GapShrinks | SortingExecutor.java:199 | `h/3` of an increment is smaller. It is again an increment unless `h == 1`, and it is 0 only after `h == 1`, so the last pass has `h == 1`. |
| Shell.ChainElemsSwap | SortingExecutor.java:196-197 | exchanging the elements at `j-h` and `j` keeps the elements of every chain `r, r+h, r+2h, ...` with `r < h`: the exchange stays inside one chain |
| Shell.HSortPass | SortingExecutor.java:195-198 | after the pass for `h`, no element is less than the one `h` before it. Each of the `h` interleaved chains holds exactly the elements it held before, so the whole array is a permutation too. |
| Shell.ShellSort | SortingExecutor.java:189-201 | sorted permutation equal to the reference sort. A sorted input is left unchanged. |
| Merging.MergeRunFollowsOrder | SortingExecutor.java:280-288 | output slot `k` of the merge holds the element at the source index `MergeOrder` lists for it |
| Merging.MergeRunPermutes | SortingExecutor.java:280-288 | the merge of two runs holds exactly the elements of the two runs |
| Merging.MergeRunSorts | SortingExecutor.java:280-288 | the merge of two sorted runs is sorted |
| Merging.MergeOrderIsStable | SortingExecutor.java:285-288 | equal elements leave the merge in their original index order. Ties go to the left run. |
| Merging.MergedPermutes | SortingExecutor.java:275-289 | the merged range is a permutation of the range before the merge |
| Merging.MergedSorts | SortingExecutor.java:275-289 | if both halves `lo..mid` and `mid+1..hi` are sorted, the merged range is sorted |
| Merging.CopyToScratch | SortingExecutor.java:278-279 | `temp[lo..hi]` receives `a[lo..hi]`. `a` and the rest of `temp` are unchanged. |
| Merging.MergeBack | SortingExecutor.java:280-288 | the four-way write-back loop writes exactly the specified merge into `a[lo..hi]` and leaves the rest of `a` alone |
| Merging.Merge | SortingExecutor.java:275-289 | `a[lo..hi]` becomes the merge of the old runs: a permutation, and sorted when both halves were. Outside the range `a` is unchanged. `temp` holds the old range. |
| MergeSorts.Midpoint | SortingExecutor.java:235 | `lo <= mid < hi`, so both recursive ranges are non-empty and strictly shorter |
| MergeSorts.SortRange | SortingExecutor.java:233-239 | `sort(lo, hi)` sorts the range as a permutation of it and touches nothing outside it |
| MergeSorts.TopDownMergeSort | SortingExecutor.java:220-223 | sorted permutation equal to the reference sort. A sorted input is left unchanged. |
| MergeSorts.PairEnd | SortingExecutor.java:259-261 | while `lo < arrLen - sz`, the right run `lo+sz..hi` is non-empty and the pair is at most `2*sz` long |
| MergeSorts.PassStep | SortingExecutor.java:260-261 | merging the pair at block `m` makes the first `m+1` blocks of width `2*sz` sorted and keeps the later blocks of width `sz` sorted |
| MergeSorts.PassEnd | SortingExecutor.java:259 | when the inner loop exits, every aligned block of width `2*sz` is sorted |
| MergeSorts.MergeBlockPair | SortingExecutor.java:260-261 | one merge call of the pass, with `hi = min(lo+2*sz-1, n-1)`: the pair `lo..hi` becomes the merge of its old blocks. It is a permutation of its old range, and sorted when both blocks were. Nothing outside the pair changes. |
| MergeSorts.PairsStep | SortingExecutor.java:259-261 | after the merge at `lo`, every pair merged so far holds its own old elements, and every position from `lo + 2*sz` on still has its value from before the pass |
| MergeSorts.PassAdvance | SortingExecutor.java:259-261 | one iteration of the pass re-establishes its loop invariants for the next block index: sorted `2*sz` blocks before it, sorted `sz` blocks after it, each merged pair a permutation of its old range, untouched positions from the next pair on |
| MergeSorts.MergePass | SortingExecutor.java:259-261 | a pass turns sorted aligned blocks of width `sz` into sorted aligned blocks of width `2*sz`. Each merged pair is a permutation of its own old range. The returned block count `m` is where the loop stops: `m*2*sz >= n - sz`, and either `m == 0` or `(m-1)*2*sz < n - sz`. The trailing positions from `m*2*sz` on are untouched. |
| MergeSorts.BottomUpMergeSort | SortingExecutor.java:256-262 | sorted permutation equal to the reference sort. A sorted input is left unchanged. |

## Left out

- `main`, `generateIntegersArray` and `show`: random input generation and console output are I/O. The array to sort is a parameter instead.
- `less` dispatches through `Comparable.compareTo`. The program only sorts `Integer`s, so elements are `int` and `less` is `<`.
- The `SortingAlgorithm` interface and the `MergeSorting` superclass are not modelled. Each `sort()` is a method. The `temp` field is an array allocated by the driver and passed to `merge`, or allocated locally.
- The static fields `values` and `arrLen` are replaced by the array parameter and its `Length`. The program always builds `values` with `arrLen` elements.
- Running time is not modelled, and neither is the number of comparisons or exchanges beyond the one count the improved insertion sort tests.
- Java's 32-bit `int` arithmetic is modelled with unbounded integers. Indices stay below `arrLen` (60000), and `lo + 2*sz - 1` stays below `4 * arrLen`, so no index computation can overflow.
- Shell.StartGap: the loop `while (h < arrLen/3) h = 3*h + 1` stops at the smallest 3h+1 increment that is at least `arrLen/3`, not the largest one below it. The model follows the code.
