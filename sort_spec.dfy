/** Reference (value-level) definitions of the three sorting procedures of the
    benchmark's sort engine, and the facts about them that the in-place
    methods in module SortTester rely on: each produces the unique
    non-decreasing permutation of its input. */
module SortSpec {

  /** Non-decreasing order. */
  predicate Sorted(s: seq<int>) {
    forall i, j :: 0 <= i < j < |s| ==> s[i] <= s[j]
  }

  /** Every element of `s` is at least `v`. */
  predicate LowerBound(v: int, s: seq<int>) {
    forall i :: 0 <= i < |s| ==> v <= s[i]
  }


  /** The split point of a non-empty range [l, r] with l < r: the lower-biased
      midpoint. Both halves [l, m] and [m + 1, r] are non-empty, so each is
      strictly shorter than [l, r]. (r - l is non-negative here, so C++'s
      truncating division agrees with Dafny's.) */
  function Midpoint(l: int, r: int): (m: int)
    requires l < r
    ensures l <= m < r
    ensures r - m <= m - l + 1 <= r - m + 1
  {
    l + (r - l) / 2
  }

  /** A sequence is non-decreasing when its head bounds its non-decreasing
      tail from below. */
  lemma SortedCons(v: int, t: seq<int>)
    requires LowerBound(v, t) && Sorted(t)
    ensures Sorted([v] + t)
  {
  }

  /** In a non-decreasing sequence, each element bounds everything after it. */
  lemma SortedSuffix(s: seq<int>, i: nat)
    requires Sorted(s) && i < |s|
    ensures LowerBound(s[i], s[i..]) && LowerBound(s[i], s[i + 1..])
  {
  }

  /** If `v` bounds two sequences from below, it bounds every sequence holding
      exactly their elements. */
  lemma {:induction false} LowerBoundOfUnion(v: int, s: seq<int>, t: seq<int>, u: seq<int>)
    requires multiset(s) == multiset(t) + multiset(u)
    requires LowerBound(v, t) && LowerBound(v, u)
    ensures LowerBound(v, s)
  {
    forall i | 0 <= i < |s| ensures v <= s[i] {
      assert s[i] in multiset(s);
      assert s[i] in t || s[i] in u;
    }
  }

  /** The two-finger merge that the in-place merge writes back, from the
      state where the first i elements of x and the first j elements of y are
      already written: the smaller front element goes next, on a tie the one
      from x; once one side is used up, the rest of the other follows. */
  function MergeFrom(x: seq<int>, y: seq<int>, i: nat, j: nat): (r: seq<int>)
    requires i <= |x| && j <= |y|
    ensures |r| == |x| - i + |y| - j
    decreases |x| - i + |y| - j
  {
    if i == |x| then y[j..]
    else if j == |y| then x[i..]
    else if x[i] <= y[j] then [x[i]] + MergeFrom(x, y, i + 1, j)
    else [y[j]] + MergeFrom(x, y, i, j + 1)
  }

  /** The whole merge of x and y. */
  function Merge(x: seq<int>, y: seq<int>): (r: seq<int>)
    ensures |r| == |x| + |y|
  {
    MergeFrom(x, y, 0, 0)
  }

  /** Splitting off the element at position i of a suffix. */
  lemma HeadSplit(s: seq<int>, i: nat)
    requires i < |s|
    ensures multiset(s[i..]) == multiset{s[i]} + multiset(s[i + 1..])
  {
    assert s[i..] == [s[i]] + s[i + 1..];
  }

  /** Merging loses and invents nothing: what is written from state (i, j) on
      holds exactly the elements of x and y not yet written. */
  lemma {:induction false} MergeFromPermutation(x: seq<int>, y: seq<int>, i: nat, j: nat)
    requires i <= |x| && j <= |y|
    ensures multiset(MergeFrom(x, y, i, j)) == multiset(x[i..]) + multiset(y[j..])
    decreases |x| - i + |y| - j
  {
    if i == |x| {
      assert x[i..] == [];
    } else if j == |y| {
      assert y[j..] == [];
    } else if x[i] <= y[j] {
      var rest := MergeFrom(x, y, i + 1, j);
      assert MergeFrom(x, y, i, j) == [x[i]] + rest;
      MergeFromPermutation(x, y, i + 1, j);
      HeadSplit(x, i);
    } else {
      var rest := MergeFrom(x, y, i, j + 1);
      assert MergeFrom(x, y, i, j) == [y[j]] + rest;
      MergeFromPermutation(x, y, i, j + 1);
      HeadSplit(y, j);
    }
  }

  /** The merge of x and y is a permutation of x + y. */
  lemma MergePermutation(x: seq<int>, y: seq<int>)
    ensures multiset(Merge(x, y)) == multiset(x) + multiset(y)
  {
    MergeFromPermutation(x, y, 0, 0);
    assert x[0..] == x && y[0..] == y;
  }

  /** Merging the rests of two non-decreasing sequences gives a non-decreasing
      sequence. */
  lemma {:induction false} MergeFromSorted(x: seq<int>, y: seq<int>, i: nat, j: nat)
    requires i <= |x| && j <= |y|
    requires Sorted(x) && Sorted(y)
    ensures Sorted(MergeFrom(x, y, i, j))
    decreases |x| - i + |y| - j
  {
    if i < |x| && j < |y| {
      SortedSuffix(x, i);
      SortedSuffix(y, j);
      if x[i] <= y[j] {
        var rest := MergeFrom(x, y, i + 1, j);
        assert MergeFrom(x, y, i, j) == [x[i]] + rest;
        MergeFromSorted(x, y, i + 1, j);
        MergeFromPermutation(x, y, i + 1, j);
        LowerBoundOfUnion(x[i], rest, x[i + 1..], y[j..]);
        SortedCons(x[i], rest);
      } else {
        var rest := MergeFrom(x, y, i, j + 1);
        assert MergeFrom(x, y, i, j) == [y[j]] + rest;
        MergeFromSorted(x, y, i, j + 1);
        MergeFromPermutation(x, y, i, j + 1);
        LowerBoundOfUnion(y[j], rest, x[i..], y[j + 1..]);
        SortedCons(y[j], rest);
      }
    }
  }

  /** Merging two non-decreasing sequences gives a non-decreasing sequence. */
  lemma MergeSorted(x: seq<int>, y: seq<int>)
    requires Sorted(x) && Sorted(y)
    ensures Sorted(Merge(x, y))
  {
    MergeFromSorted(x, y, 0, 0);
  }

  /** The next element merged is the left one when the right input is
      exhausted or the left front element is no larger; in particular on a
      tie the element of the left sequence x is written first. */
  lemma {:induction false} TakeLeft(x: seq<int>, y: seq<int>, i: nat, j: nat)
    requires i < |x| && j <= |y| && (j == |y| || x[i] <= y[j])
    ensures MergeFrom(x, y, i, j) == [x[i]] + MergeFrom(x, y, i + 1, j)
  {
    if j == |y| {
      assert x[i..] == [x[i]] + x[i + 1..];
    }
  }

  /** The next element merged is the right one when the left input is
      exhausted or its front element is strictly smaller. */
  lemma {:induction false} TakeRight(x: seq<int>, y: seq<int>, i: nat, j: nat)
    requires i <= |x| && j < |y| && (i == |x| || y[j] < x[i])
    ensures MergeFrom(x, y, i, j) == [y[j]] + MergeFrom(x, y, i, j + 1)
  {
    if i == |x| {
      assert y[j..] == [y[j]] + y[j + 1..];
    }
  }

  /** Top-down merge sort: split at the lower-biased midpoint, sort both
      halves, merge them. */
  function MergeSortSeq(s: seq<int>): (r: seq<int>)
    ensures |r| == |s|
    decreases |s|
  {
    if |s| <= 1 then s
    else
      var m := Midpoint(0, |s| - 1);
      Merge(MergeSortSeq(s[..m + 1]), MergeSortSeq(s[m + 1..]))
  }

  /** Merge sort yields a non-decreasing permutation of its input. */
  lemma {:induction false} MergeSortSortedPermutation(s: seq<int>)
    ensures Sorted(MergeSortSeq(s))
    ensures multiset(MergeSortSeq(s)) == multiset(s)
    decreases |s|
  {
    if |s| > 1 {
      var m := Midpoint(0, |s| - 1);
      var left, right := MergeSortSeq(s[..m + 1]), MergeSortSeq(s[m + 1..]);
      MergeSortSortedPermutation(s[..m + 1]);
      MergeSortSortedPermutation(s[m + 1..]);
      MergeSorted(left, right);
      MergePermutation(left, right);
      assert s == s[..m + 1] + s[m + 1..];
    }
  }

  /** Inserting `key` into a sorted sequence the way insertion sort's inner loop
      does: scanning from the right, every element strictly greater than `key`
      moves one place right, so `key` lands after all elements equal to it. */
  function Insert(t: seq<int>, key: int): (r: seq<int>)
    ensures |r| == |t| + 1
  {
    if |t| == 0 || t[|t| - 1] <= key then t + [key]
    else Insert(t[..|t| - 1], key) + [t[|t| - 1]]
  }

  /** Inserting adds exactly one copy of `key`. */
  lemma {:induction false} InsertPermutation(t: seq<int>, key: int)
    ensures multiset(Insert(t, key)) == multiset(t) + multiset{key}
  {
    if |t| > 0 && t[|t| - 1] > key {
      InsertPermutation(t[..|t| - 1], key);
      assert t == t[..|t| - 1] + [t[|t| - 1]];
    }
  }

  /** Every element of `s` is at most `v`. */
  predicate UpperBound(s: seq<int>, v: int) {
    forall i :: 0 <= i < |s| ==> s[i] <= v
  }

  /** Appending an upper bound to a non-decreasing sequence keeps it
      non-decreasing. */
  lemma SortedSnoc(s: seq<int>, v: int)
    requires Sorted(s) && UpperBound(s, v)
    ensures Sorted(s + [v])
  {
  }

  /** A non-decreasing sequence is its non-decreasing front followed by its
      largest element. */
  lemma SortedFront(s: seq<int>)
    requires Sorted(s) && |s| > 0
    ensures Sorted(s[..|s| - 1]) && UpperBound(s[..|s| - 1], s[|s| - 1])
  {
  }

  /** An upper bound of `t` that is at least `key` bounds every sequence
      holding exactly the elements of `t` and `key`. */
  lemma UpperBoundWith(r: seq<int>, t: seq<int>, key: int, v: int)
    requires multiset(r) == multiset(t) + multiset{key}
    requires UpperBound(t, v) && key <= v
    ensures UpperBound(r, v)
  {
    forall i | 0 <= i < |r| ensures r[i] <= v {
      assert r[i] in multiset(r);
      assert r[i] in t || r[i] == key;
    }
  }

  /** Inserting into a non-decreasing sequence keeps it non-decreasing. */
  lemma {:induction false} InsertSorted(t: seq<int>, key: int)
    requires Sorted(t)
    ensures Sorted(Insert(t, key))
  {
    if |t| == 0 {
    } else if t[|t| - 1] <= key {
      SortedFront(t);
      SortedSnoc(t, key);
    } else {
      var init, last := t[..|t| - 1], t[|t| - 1];
      SortedFront(t);
      InsertSorted(init, key);
      InsertPermutation(init, key);
      UpperBoundWith(Insert(init, key), init, key, last);
      SortedSnoc(Insert(init, key), last);
    }
  }

  /** Where Insert puts `key`: at the position p after which every element is
      greater than `key` and before which the last element is not. */
  lemma {:induction false} InsertSplit(t: seq<int>, key: int, p: int)
    requires 0 <= p <= |t|
    requires forall k :: p <= k < |t| ==> key < t[k]
    requires p == 0 || t[p - 1] <= key
    ensures Insert(t, key) == t[..p] + [key] + t[p..]
    decreases |t| - p
  {
    if p < |t| {
      InsertSplit(t[..|t| - 1], key, p);
      assert t[..|t| - 1][..p] == t[..p];
      assert t[p..] == t[..|t| - 1][p..] + [t[|t| - 1]];
    } else {
      assert t[..p] == t;
    }
  }

  /** Insertion sort: insert each element, left to right, into the sorted
      prefix before it. */
  function InsertionSortSeq(s: seq<int>): (r: seq<int>)
    ensures |r| == |s|
  {
    if |s| == 0 then []
    else Insert(InsertionSortSeq(s[..|s| - 1]), s[|s| - 1])
  }

  /** Insertion sort yields a non-decreasing permutation of its input. */
  lemma {:induction false} InsertionSortSortedPermutation(s: seq<int>)
    ensures Sorted(InsertionSortSeq(s))
    ensures multiset(InsertionSortSeq(s)) == multiset(s)
  {
    if |s| > 0 {
      var init := s[..|s| - 1];
      InsertionSortSortedPermutation(init);
      InsertSorted(InsertionSortSeq(init), s[|s| - 1]);
      InsertPermutation(InsertionSortSeq(init), s[|s| - 1]);
      assert s == init + [s[|s| - 1]];
    }
  }

  /** Sorting one more element of `s` inserts it into the sorted prefix. */
  lemma InsertionSortExtend(s: seq<int>, n: int)
    requires 0 <= n < |s|
    ensures InsertionSortSeq(s[..n + 1]) == Insert(InsertionSortSeq(s[..n]), s[n])
  {
    assert s[..n + 1][..n] == s[..n];
  }

  /** Hybrid merge sort: the merge-sort recursion, except that a range whose
      length is at most `threshold` is handed to insertion sort. */
  function HybridSortSeq(s: seq<int>, threshold: int): (r: seq<int>)
    ensures |r| == |s|
    decreases |s|
  {
    if |s| <= threshold then InsertionSortSeq(s)
    else if |s| <= 1 then s
    else
      var m := Midpoint(0, |s| - 1);
      Merge(HybridSortSeq(s[..m + 1], threshold), HybridSortSeq(s[m + 1..], threshold))
  }

  /** The first element of a non-decreasing sequence is its least element. */
  lemma SortedHeadIsLeast(a: seq<int>, v: int)
    requires Sorted(a) && v in multiset(a)
    ensures |a| > 0 && a[0] <= v
  {
    var i :| 0 <= i < |a| && a[i] == v;
  }

  /** Dropping the head removes exactly one copy of it from the multiset. */
  lemma TailMultiset(a: seq<int>)
    requires |a| > 0
    ensures multiset(a[1..]) == multiset(a) - multiset{a[0]}
  {
    assert a == [a[0]] + a[1..];
  }

  /** Two non-decreasing permutations of each other start with the same
      element, their least one. */
  lemma SameHead(a: seq<int>, b: seq<int>)
    requires Sorted(a) && Sorted(b) && multiset(a) == multiset(b) && |a| > 0
    ensures |b| > 0 && a[0] == b[0]
  {
    assert a[0] in multiset(b);
    SortedHeadIsLeast(b, a[0]);
    SortedHeadIsLeast(a, b[0]);
  }

  /** The tail of a non-decreasing sequence is non-decreasing. */
  lemma SortedTail(a: seq<int>)
    requires Sorted(a) && |a| > 0
    ensures Sorted(a[1..])
  {
  }

  /** Removing equal heads from two permutations of each other leaves
      permutations of each other. */
  lemma SameTails(a: seq<int>, b: seq<int>)
    requires multiset(a) == multiset(b) && |a| > 0 && |b| > 0 && a[0] == b[0]
    ensures multiset(a[1..]) == multiset(b[1..])
  {
    TailMultiset(a);
    TailMultiset(b);
  }

  /** Sequences with equal heads and equal tails are equal. */
  lemma ConsEqual(a: seq<int>, b: seq<int>)
    requires |a| > 0 && |b| > 0 && a[0] == b[0] && a[1..] == b[1..]
    ensures a == b
  {
    assert a == [a[0]] + a[1..] && b == [b[0]] + b[1..];
  }

  /** There is only one non-decreasing arrangement of a multiset of integers. */
  lemma {:induction false} SortedPermutationUnique(a: seq<int>, b: seq<int>)
    requires Sorted(a) && Sorted(b)
    requires multiset(a) == multiset(b)
    ensures a == b
    decreases |a|
  {
    if |a| == 0 {
      assert |b| == |multiset(b)| == 0;
    } else {
      SameHead(a, b);
      SortedTail(a);
      SortedTail(b);
      SameTails(a, b);
      SortedPermutationUnique(a[1..], b[1..]);
      ConsEqual(a, b);
    }
  }

  /** Any non-decreasing permutation of `s` is the merge sort of `s`. */
  lemma SortedPermutationIsMergeSort(s: seq<int>, t: seq<int>)
    requires Sorted(t) && multiset(t) == multiset(s)
    ensures t == MergeSortSeq(s)
  {
    MergeSortSortedPermutation(s);
    SortedPermutationUnique(t, MergeSortSeq(s));
  }

  /** Insertion sort and merge sort agree on every input. */
  lemma InsertionSortIsMergeSort(s: seq<int>)
    ensures InsertionSortSeq(s) == MergeSortSeq(s)
  {
    InsertionSortSortedPermutation(s);
    SortedPermutationIsMergeSort(s, InsertionSortSeq(s));
  }

  /** The hybrid sort gives exactly the merge sort of its input, whatever the
      threshold: the threshold changes the work done, never the result. */
  lemma {:induction false} HybridIsMergeSort(s: seq<int>, threshold: int)
    ensures HybridSortSeq(s, threshold) == MergeSortSeq(s)
    decreases |s|
  {
    if |s| <= threshold {
      InsertionSortIsMergeSort(s);
    } else if |s| > 1 {
      var m := Midpoint(0, |s| - 1);
      HybridIsMergeSort(s[..m + 1], threshold);
      HybridIsMergeSort(s[m + 1..], threshold);
    }
  }

  /** A threshold at or above the length makes the hybrid sort a plain
      insertion sort; a threshold below 1 never triggers insertion sort on a
      non-empty range, so the hybrid sort is plain merge sort. */
  lemma HybridThresholdBoundaries(s: seq<int>, threshold: int)
    ensures threshold >= |s| ==> HybridSortSeq(s, threshold) == InsertionSortSeq(s)
    ensures threshold < 1 ==> HybridSortSeq(s, threshold) == MergeSortSeq(s)
  {
    HybridIsMergeSort(s, threshold);
  }

  /** Sorting a sequence that is already non-decreasing leaves it unchanged. */
  lemma MergeSortIdempotent(s: seq<int>)
    requires Sorted(s)
    ensures MergeSortSeq(s) == s
  {
    SortedPermutationIsMergeSort(s, s);
  }

  /** A worked example: [3, 1, 2] sorts to [1, 2, 3] under merge sort, and
      under hybrid sort with threshold 10 (a single insertion sort). */
  lemma SortExample()
    ensures MergeSortSeq([3, 1, 2]) == [1, 2, 3]
    ensures HybridSortSeq([3, 1, 2], 10) == [1, 2, 3]
  {
    var s, t := [3, 1, 2], [1, 2, 3];
    assert multiset(s) == multiset(t);
    SortedPermutationIsMergeSort(s, t);
    HybridIsMergeSort(s, 10);
  }
}
