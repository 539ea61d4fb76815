# Merge sort versus hybrid merge sort: a verified model of the sort engine

The benchmark compares top-down merge sort with a hybrid merge sort. The
hybrid hands every range of at most `threshold` elements to insertion sort.
It runs both on random, reverse-sorted and almost-sorted integer arrays.
This project models the benchmark's sort engine and the deterministic part of
its input generator in Dafny, and proves them correct:

- `sort_spec.dfy` (module `SortSpec`) holds value-level reference definitions
  of the three procedures (`InsertionSortSeq`, `MergeSortSeq`, `HybridSortSeq`),
  of the two-finger merge (`Merge`) and of the midpoint split.
  It proves that each sort yields the unique non-decreasing permutation of its
  input, so the hybrid sort gives merge sort's result for every threshold.
- `sort_tester.dfy` (module `SortTester`) models the class `SortTester`. Its
  sorts are methods that work in place on an `array<int>` over an inclusive
  range `[l, r]`, with the same loops, branches and index arithmetic as the
  benchmark. Each method's postcondition says what the array holds afterwards:
  the old array with `[l, r]` replaced by the reference function of the old
  range. Nothing outside `[l, r]` changes.
- `array_generator.dfy` (module `ArrayGenerator`) models the reverse-sorted and
  almost-sorted generators. Each fills a fresh array in a loop. The random
  index pairs of the almost-sorted generator are a parameter.

The class `SortTester` has no fields, so its operations are module-level
methods. A contiguous range is written `a[l..r]` in prose, inclusive as in
the benchmark, and `a[l..r + 1]` in Dafny.

## Model

| member | source | states |
|---|---|---|
| SortSpec.Midpoint | src/release.cpp:124 | for l < r the split point m = l + (r - l) / 2 satisfies l <= m < r, and the halves [l, m] and [m + 1, r] differ in length by at most one, the left one being the longer |
| SortSpec.TakeLeft | src/release.cpp:100-103 | when the right buffer is exhausted or the left front element is no larger (a tie included), the merge continues with the left element |
| SortSpec.TakeRight | src/release.cpp:104-106 | when the left buffer is exhausted or the right front element is strictly smaller, the merge continues with the right element |
| SortSpec.MergeFromPermutation | src/release.cpp:99-119 | what remains to be merged from positions (i, j) holds exactly the elements of x[i..] and y[j..] |
| SortSpec.MergeFromSorted | src/release.cpp:99-119 | the rest of a merge of two non-decreasing sequences, from any state (i, j), is non-decreasing |
| SortSpec.MergePermutation | src/release.cpp:87-120 | the merge of x and y is a permutation of x + y |
| SortSpec.MergeSorted | src/release.cpp:87-120 | merging two non-decreasing sequences gives a non-decreasing sequence |
| SortSpec.MergeSortSortedPermutation | src/release.cpp:122-129 | merge sort yields a non-decreasing permutation of its input |
| SortSpec.InsertPermutation | src/release.cpp:77-83 | one insertion step adds exactly one copy of the key to the sorted prefix |
| SortSpec.InsertSorted | src/release.cpp:77-83 | inserting into a non-decreasing prefix keeps it non-decreasing |
| SortSpec.InsertSplit | src/release.cpp:79-83 | the key lands right after the last element not greater than it, so elements equal to the key stay before it |
| SortSpec.InsertionSortSortedPermutation | src/release.cpp:75-85 | insertion sort yields a non-decreasing permutation of its input |
| SortSpec.InsertionSortExtend | src/release.cpp:76 | sorting one more element inserts it into the sorted prefix |
| SortSpec.SortedPermutationUnique | src/release.cpp:122-142 | two non-decreasing permutations of one another are equal, so every correct sort of the engine has the same result |
| SortSpec.SortedPermutationIsMergeSort | src/release.cpp:122-129 | any non-decreasing permutation of s is the merge sort of s |
| SortSpec.InsertionSortIsMergeSort | src/release.cpp:75-85 | insertion sort and merge sort agree on every input |
| SortSpec.HybridIsMergeSort | src/release.cpp:131-142 | for every threshold the hybrid sort gives exactly the merge sort of its input |
| SortSpec.HybridThresholdBoundaries | src/release.cpp:132-135 | a threshold at or above the length makes the hybrid one insertion sort; a threshold below 1 makes it plain merge sort |
| SortSpec.MergeSortIdempotent | src/release.cpp:122-129 | sorting an already non-decreasing sequence leaves it unchanged |
| SortSpec.SortExample | src/release.cpp:122-142 | [3, 1, 2] sorts to [1, 2, 3] under merge sort and under hybrid sort with threshold 10 |
| SortTester.InsertAt | src/release.cpp:77-83 | one pass of the outer loop at index i replaces a[l..i] by the insertion of the old a[i] into the old a[l..i - 1]; nothing else changes |
| SortTester.Placed | src/release.cpp:79-83 | once the inner loop stops, writing the key at j + 1 puts it exactly where the insertion puts it |
| SortTester.OuterStep | src/release.cpp:76-84 | each outer-loop pass extends the sorted prefix: a[l..i] then holds the insertion sort of the first i - l + 1 elements of the old range |
| SortTester.OuterDone | src/release.cpp:76 | when i passes r, the whole range holds the insertion sort of the old range |
| SortTester.InsertionSort | src/release.cpp:75-85 | the array becomes the old array with [l, r] replaced by the insertion sort of the old range (sorted and a permutation by SortSpec.InsertionSortSortedPermutation) |
| SortTester.WriteStep | src/release.cpp:100-108 | writing the smaller front element at k = l + i + j (the left one on a tie) keeps the invariant: a[l..k - 1] holds the first i + j merged elements and the rest of the array is unchanged |
| SortTester.MergeFront | src/release.cpp:99-109 | the two-finger loop ends with one buffer exhausted and a[l..l + i + j - 1] holding the first i + j elements of the merge, the rest of the array unchanged |
| SortTester.CopyTail | src/release.cpp:110-119 | copying the rest of a buffer writes src[s..] at a[k..] and advances k by its length; nothing else changes |
| SortTester.Drained | src/release.cpp:110-119 | after both tail loops the written range holds the whole merge and k has advanced by the lengths of both buffers |
| SortTester.Finished | src/release.cpp:99-119 | the write index k ends at r + 1, with a[l..r] holding the merge of the old halves and the rest of the array unchanged |
| SortTester.Merge | src/release.cpp:87-120 | the array becomes the old array with [l, r] replaced by the merge of the old a[l..m] and a[m + 1..r]; the body establishes that the buffers hold n1 = m - l + 1 and n2 = r - m elements and that no access is out of bounds |
| SortTester.MergeSortSteps | src/release.cpp:123-128 | sorting [l, m], then [m + 1, r], then merging leaves the merge sort of the old range in [l, r] |
| SortTester.MergeSortShort | src/release.cpp:123 | a range with l >= r is left unchanged, and that is its merge sort |
| SortTester.MergeSort | src/release.cpp:122-129 | the array becomes the old array with [l, r] replaced by the merge sort of the old range (sorted and a permutation by SortSpec.MergeSortSortedPermutation) |
| SortTester.HybridSmall | src/release.cpp:132-135 | a range of length at most threshold is insertion-sorted, which is its hybrid sort |
| SortTester.HybridShort | src/release.cpp:136 | a range longer than threshold with l >= r is left alone, which is its hybrid sort |
| SortTester.HybridSteps | src/release.cpp:136-141 | the recursive case leaves the hybrid sort of the old range in [l, r] |
| SortTester.HybridMergeSort | src/release.cpp:131-142 | the array becomes the old array with [l, r] replaced by the hybrid sort of the old range (equal to its merge sort by SortSpec.HybridIsMergeSort) |
| SortTester.WholeRange | src/release.cpp:59 | sorting the range [0, size - 1] replaces the whole array, the empty array (r = -1) included |
| SortTester.MeasureMergeSort | src/release.cpp:56-62 | sorts a copy: the copy becomes the merge sort of arr (sorted, a permutation of arr) and arr is not modified |
| SortTester.MeasureHybridMergeSort | src/release.cpp:64-70 | sorts a copy: the copy becomes the hybrid sort of arr, equal to its merge sort for every threshold (so sorted and a permutation of arr), and arr is not modified |
| ArrayGenerator.GenerateReverseSortedArray | src/release.cpp:26-32 | the result has length size and holds size - i at each index i |
| ArrayGenerator.DescendingCons | src/release.cpp:26-32 | the reverse-sorted sequence of size n + 1 is n + 1 followed by that of size n |
| ArrayGenerator.DescendingPermutation | src/release.cpp:26-32 | the reverse-sorted array of size n is a permutation of [1, ..., n] |
| ArrayGenerator.ReverseSortedSorts | src/release.cpp:26-32 | sorting the reverse-sorted array of size n gives [1, ..., n] |
| ArrayGenerator.SwapFacts | src/release.cpp:47 | a swap exchanges the two positions, leaves every other position alone and keeps the elements |
| ArrayGenerator.SwapAt | src/release.cpp:47 | the array becomes the old one with the two elements exchanged |
| ArrayGenerator.SwapsStep | src/release.cpp:44-48 | each pass of the swap loop applies the next drawn transposition |
| ArrayGenerator.ApplySwapsPermutation | src/release.cpp:44-48 | any sequence of in-range transpositions permutes the elements |
| ArrayGenerator.AlmostSortedSorts | src/release.cpp:34-50 | sorting an almost-sorted array of size n gives [1, ..., n] back, whatever the drawn pairs |
| ArrayGenerator.GenerateAlmostSortedArray | src/release.cpp:34-50 | the result is [1, ..., size] after the drawn transpositions in order, a permutation of [1, ..., size], and exactly [1, ..., size] when numSwaps <= 0 |

## Left out

- Timing: the measuring entry points return the sorted copy instead of the
  elapsed microseconds (src/release.cpp:58-61, 66-69). No clock is modelled.
- `generateRandomArray` (src/release.cpp:14-24) is not modelled. Its only
  content is the draws of `random_device`, `mt19937` and
  `uniform_int_distribution`, which are foreign library calls.
- In the almost-sorted generator the random index pairs are a parameter
  (`draws`). The parameter holds numSwaps pairs, or none when numSwaps <= 0.
  Each index lies in [0, size - 1], as `uniform_int_distribution(0, size - 1)`
  guarantees. The distribution is constructed even when no swap is made, so
  for size 0 its range is empty, which C++ leaves undefined whatever
  numSwaps is; the model then returns [] when numSwaps <= 0, and no in-range
  draw exists when numSwaps > 0.
- Sizes are required to be non-negative. A `vector` of negative size cannot
  be constructed.
- `main` (src/release.cpp:146-222) is not modelled: it is the size and
  threshold sweep, the averaging in `double` and the CSV and console output.
  So is `src/plots.py`, which is plotting. The final console summary is
  printed inside the size loop when size == MAX_SIZE
  (src/release.cpp:209-213).
- Integers are unbounded. `int` overflow cannot occur for the benchmark's
  sizes (at most 10000) and values (at most 10000: random values lie in
  [0, 6000], generated ones in [1, size]), and no 32-bit wrap-around is
  modelled.
- Ranges are required to satisfy 0 <= l <= r + 1 <= length. On an empty
  vector the benchmark passes r = `temp.size() - 1` converted to `int`,
  which is -1; the model passes `temp.Length - 1 == -1` for the same call.
- Merge's buffers `L` and `R` are modelled as value sequences filled by the
  same loops. They are private copies, so no aliasing with the array is
  lost.
- The merge's write-back is split into three methods for its three loops
  (`MergeFront`, then `CopyTail` twice), and the insertion sort's outer-loop
  body into `InsertAt`. They run the same statements in the same order.
- SortTester.InsertionSort: its postcondition states the new array through
  SortSpec.InsertionSortSeq; that the range is sorted and a permutation is
  the lemma SortSpec.InsertionSortSortedPermutation, not a clause of the
  method.
- SortTester.Merge: likewise through SortSpec.Merge, with SortSpec.MergeSorted
  and SortSpec.MergePermutation.
- SortTester.MergeSort: likewise through SortSpec.MergeSortSeq, with
  SortSpec.MergeSortSortedPermutation.
- SortTester.HybridMergeSort: likewise through SortSpec.HybridSortSeq, with
  SortSpec.HybridIsMergeSort; the two measuring methods state sortedness and
  permutation of the sorted copy outright.
