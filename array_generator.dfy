/** The deterministic part of the benchmark's input generator (class
    ArrayGenerator): the reverse-sorted array [size, size - 1, ..., 1] and the
    "almost sorted" array, [1, ..., size] after a number of transpositions.
    The transpositions are drawn at random in the benchmark; here the drawn
    index pairs are a parameter. Each generator fills a fresh array in a loop
    and hands back its contents, as the benchmark returns its vector by
    value. */
module ArrayGenerator {
  import SortSpec

  /** [1, 2, ..., n]: the sorted array of the benchmark's sizes. */
  function Ascending(n: nat): seq<int>
  {
    seq(n, i => i + 1)
  }

  /** [n, n - 1, ..., 1]. */
  function Descending(n: nat): seq<int>
  {
    seq(n, i => n - i)
  }

  /** Fills a fresh array of length `size` with size - i at each index i and
      returns its contents. */
  method GenerateReverseSortedArray(size: int) returns (arr: seq<int>)
    requires size >= 0
    ensures |arr| == size && forall i :: 0 <= i < size ==> arr[i] == size - i
    ensures arr == Descending(size)
  {
    var a := new int[size];
    for i := 0 to size
      invariant forall k :: 0 <= k < i ==> a[k] == size - k
    {
      a[i] := size - i;
    }
    arr := a[..];
  }

  /** Adding the next value at the front of the descending sequence, or at
      the back of the ascending one, adds the same element. */
  lemma DescendingCons(n: nat)
    ensures Descending(n + 1) == [n + 1] + Descending(n)
    ensures Ascending(n + 1) == Ascending(n) + [n + 1]
  {
  }

  /** The descending and the ascending sequence hold the same elements. */
  lemma {:induction false} DescendingPermutation(n: nat)
    ensures multiset(Descending(n)) == multiset(Ascending(n))
  {
    if n > 0 {
      DescendingPermutation(n - 1);
      DescendingCons(n - 1);
    }
  }

  /** [1, ..., n] is non-decreasing. */
  lemma AscendingSorted(n: nat)
    ensures SortSpec.Sorted(Ascending(n))
  {
  }

  /** Sorting the reverse-sorted array of size n gives [1, ..., n]. */
  lemma ReverseSortedSorts(n: nat)
    ensures SortSpec.MergeSortSeq(Descending(n)) == Ascending(n)
  {
    DescendingPermutation(n);
    AscendingSorted(n);
    SortSpec.SortedPermutationIsMergeSort(Descending(n), Ascending(n));
  }

  /** One drawn pair of indices, each in [0, size - 1]. */
  datatype SwapDraw = SwapDraw(idx1: int, idx2: int)

  /** Every drawn index lies in [0, size - 1]. */
  predicate InRange(draws: seq<SwapDraw>, size: int)
  {
    forall k :: 0 <= k < |draws| ==> 0 <= draws[k].idx1 < size && 0 <= draws[k].idx2 < size
  }

  /** `s` with the elements at i and j exchanged (nothing changes when
      i == j). */
  function Swap(s: seq<int>, i: int, j: int): seq<int>
    requires 0 <= i < |s| && 0 <= j < |s|
  {
    s[i := s[j]][j := s[i]]
  }

  /** Exchanging two elements keeps the length and the elements, swaps the
      two positions and leaves every other position alone. */
  lemma SwapFacts(s: seq<int>, i: int, j: int)
    requires 0 <= i < |s| && 0 <= j < |s|
    ensures |Swap(s, i, j)| == |s|
    ensures Swap(s, i, j)[i] == s[j] && Swap(s, i, j)[j] == s[i]
    ensures forall k :: 0 <= k < |s| && k != i && k != j ==> Swap(s, i, j)[k] == s[k]
    ensures multiset(Swap(s, i, j)) == multiset(s)
  {
  }

  /** The transpositions of `draws` applied to `s` in order. */
  function ApplySwaps(s: seq<int>, draws: seq<SwapDraw>): (r: seq<int>)
    requires InRange(draws, |s|)
    ensures |r| == |s|
  {
    if |draws| == 0 then s
    else
      var d := draws[|draws| - 1];
      Swap(ApplySwaps(s, draws[..|draws| - 1]), d.idx1, d.idx2)
  }

  /** Applying transpositions permutes the elements. */
  lemma {:induction false} ApplySwapsPermutation(s: seq<int>, draws: seq<SwapDraw>)
    requires InRange(draws, |s|)
    ensures multiset(ApplySwaps(s, draws)) == multiset(s)
  {
    if |draws| > 0 {
      var d := draws[|draws| - 1];
      ApplySwapsPermutation(s, draws[..|draws| - 1]);
      SwapFacts(ApplySwaps(s, draws[..|draws| - 1]), d.idx1, d.idx2);
    }
  }

  /** Sorting an almost sorted array of size n, whatever the drawn pairs,
      gives [1, ..., n] back. */
  lemma AlmostSortedSorts(n: nat, draws: seq<SwapDraw>)
    requires InRange(draws, n)
    ensures SortSpec.MergeSortSeq(ApplySwaps(Ascending(n), draws)) == Ascending(n)
  {
    ApplySwapsPermutation(Ascending(n), draws);
    AscendingSorted(n);
    SortSpec.SortedPermutationIsMergeSort(ApplySwaps(Ascending(n), draws), Ascending(n));
  }

  /** std::swap of two array elements. */
  method SwapAt(a: array<int>, i: int, j: int)
    requires 0 <= i < a.Length && 0 <= j < a.Length
    modifies a
    ensures a[..] == Swap(old(a[..]), i, j)
  {
    var tmp := a[i];
    a[i] := a[j];
    a[j] := tmp;
  }

  /** One more transposition applied. */
  lemma SwapsStep(s: seq<int>, draws: seq<SwapDraw>, i: int, cur: seq<int>, cur': seq<int>)
    requires InRange(draws, |s|) && 0 <= i < |draws|
    requires cur == ApplySwaps(s, draws[..i])
    requires cur' == Swap(cur, draws[i].idx1, draws[i].idx2)
    ensures cur' == ApplySwaps(s, draws[..i + 1])
  {
    assert draws[..i + 1][..i] == draws[..i];
  }

  /** Fills a fresh array of length `size` with 1, ..., size, then for each
      of the numSwaps drawn pairs (idx1, idx2) exchanges the elements at idx1
      and idx2, and returns the contents. A non-positive numSwaps draws
      nothing. The result is a permutation of [1, ..., size], and exactly
      [1, ..., size] when no swap is made. */
  method GenerateAlmostSortedArray(size: int, numSwaps: int, draws: seq<SwapDraw>)
    returns (arr: seq<int>)
    requires size >= 0
    requires |draws| == if numSwaps > 0 then numSwaps else 0
    requires InRange(draws, size)
    ensures arr == ApplySwaps(Ascending(size), draws)
    ensures multiset(arr) == multiset(Ascending(size))
    ensures numSwaps <= 0 ==> arr == Ascending(size)
  {
    var a := new int[size];
    for i := 0 to size
      invariant forall k :: 0 <= k < i ==> a[k] == k + 1
    {
      a[i] := i + 1;
    }
    ghost var start := a[..];
    assert start == Ascending(size);
    assert draws[..0] == [];
    var i := 0;
    while i < numSwaps
      invariant 0 <= i <= |draws|
      invariant a[..] == ApplySwaps(start, draws[..i])
    {
      ghost var cur := a[..];
      SwapAt(a, draws[i].idx1, draws[i].idx2);
      SwapsStep(start, draws, i, cur, a[..]);
      i := i + 1;
    }
    assert draws[..i] == draws;
    arr := a[..];
    ApplySwapsPermutation(start, draws);
  }
}
