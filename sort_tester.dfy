/** The sort engine (class SortTester of the benchmark): insertion sort, merge,
    merge sort and hybrid merge sort working in place on an inclusive range
    [l, r] of an integer array, and the two measuring entry points that sort a
    copy of the caller's array. The class has no fields, so its operations are
    modelled as methods of this module. Every in-place method leaves the
    positions outside [l, r] alone and replaces a[l..r] by a reference function
    (module SortSpec) of what a[l..r] held on entry. */
module SortTester {
  import SortSpec

  /** `s` with its range [l, r] replaced by the insertion sort of that range:
      what insertion sort leaves in an array that held `s`. */
  ghost function InsertionSortedRange(s: seq<int>, l: int, r: int): seq<int>
    requires 0 <= l <= r + 1 <= |s|
  {
    s[..l] + SortSpec.InsertionSortSeq(s[l..r + 1]) + s[r + 1..]
  }

  /** `s` with its range [l, r] replaced by the merge sort of that range. */
  ghost function MergeSortedRange(s: seq<int>, l: int, r: int): seq<int>
    requires 0 <= l <= r + 1 <= |s|
  {
    s[..l] + SortSpec.MergeSortSeq(s[l..r + 1]) + s[r + 1..]
  }

  /** `s` with its range [l, r] replaced by the hybrid sort of that range. */
  ghost function HybridSortedRange(s: seq<int>, l: int, r: int, threshold: int): seq<int>
    requires 0 <= l <= r + 1 <= |s|
  {
    s[..l] + SortSpec.HybridSortSeq(s[l..r + 1], threshold) + s[r + 1..]
  }

  /** One step of the inner loop of insertion sort: `before` with its slice
      before[j + 1..i - 1] shifted one place right (the gap at j + 1 still
      holding before[j + 1]); copying a[j] into the gap moves the gap to j. */
  lemma ShiftStep(before: seq<int>, j: int, i: int)
    requires 0 <= j < i < |before|
    ensures (before[..j + 2] + before[j + 1..i] + before[i + 1..])[j + 1 := before[j]]
         == before[..j + 1] + before[j..i] + before[i + 1..]
  {
  }

  /** Dropping the key into the gap at j + 1. */
  lemma DropKey(before: seq<int>, j: int, i: int, key: int)
    requires -1 <= j < i < |before|
    ensures (before[..j + 2] + before[j + 1..i] + before[i + 1..])[j + 1 := key]
         == before[..j + 1] + [key] + before[j + 1..i] + before[i + 1..]
  {
  }

  /** The elements after the gap, seen within the range [l, i). */
  lemma GapSplit(before: seq<int>, l: int, i: int, j: int, key: int)
    requires 0 <= l <= j + 1 <= i < |before|
    requires forall k :: j + 1 <= k < i ==> key < before[k]
    requires j < l || before[j] <= key
    ensures forall k :: j + 1 - l <= k < i - l ==> key < before[l..i][k]
    ensures j + 1 - l == 0 || before[l..i][j - l] <= key
    ensures before[..j + 1] == before[..l] + before[l..i][..j + 1 - l]
    ensures before[j + 1..i] == before[l..i][j + 1 - l..]
  {
    var t := before[l..i];
    forall k | j + 1 - l <= k < i - l ensures key < t[k] {
      assert t[k] == before[k + l];
    }
  }

  /** Dropping the key into the gap at j + 1 puts it where Insert puts it:
      every element after the gap is greater than the key, and the one before
      the gap (if any) is not. */
  lemma Placed(before: seq<int>, l: int, i: int, j: int, key: int, cur: seq<int>)
    requires 0 <= l <= j + 1 <= i < |before| && key == before[i]
    requires forall k :: j + 1 <= k < i ==> key < before[k]
    requires j < l || before[j] <= key
    requires cur == (before[..j + 2] + before[j + 1..i] + before[i + 1..])[j + 1 := key]
    ensures cur == before[..l] + SortSpec.Insert(before[l..i], before[i]) + before[i + 1..]
  {
    var t, p := before[l..i], j + 1 - l;
    GapSplit(before, l, i, j, key);
    SortSpec.InsertSplit(t, key, p);
    DropKey(before, j, i, key);
    Regroup(cur, before[..j + 1], before[j + 1..i], before[i + 1..], before[..l], t[..p], t[p..],
            key, SortSpec.Insert(t, key));
  }

  /** Regrouping a concatenation around the inserted key. */
  lemma Regroup(cur: seq<int>, x: seq<int>, y: seq<int>, z: seq<int>, u: seq<int>,
                t1: seq<int>, t2: seq<int>, key: int, ins: seq<int>)
    requires cur == x + [key] + y + z && x == u + t1 && y == t2 && ins == t1 + [key] + t2
    ensures cur == u + ins + z
  {
  }

  /** The body of insertion sort's outer loop for index i: a[i] is taken out
      as `key`, the elements of a[l..i - 1] strictly greater than `key` shift
      one place right, scanning from the right, and `key` drops into the gap.
      Only positions l..i change. */
  method InsertAt(a: array<int>, l: int, i: int)
    requires 0 <= l < i < a.Length
    modifies a
    ensures var b := old(a[..]); a[..] == b[..l] + SortSpec.Insert(b[l..i], b[i]) + b[i + 1..]
  {
    ghost var before := a[..];
    var key := a[i];
    var j := i - 1;
    assert before == before[..j + 2] + before[j + 1..i] + before[i + 1..];
    while j >= l && a[j] > key
      invariant l - 1 <= j <= i - 1
      invariant a[..] == before[..j + 2] + before[j + 1..i] + before[i + 1..]
      invariant forall k :: j + 1 <= k < i ==> key < before[k]
      decreases j - l + 1
    {
      ShiftStep(before, j, i);
      a[j + 1] := a[j];
      j := j - 1;
    }
    assert j < l || before[j] <= key;
    a[j + 1] := key;
    Placed(before, l, i, j, key, a[..]);
  }

  /** The state of insertion sort's outer loop before index i: a[l..i - 1]
      holds the insertion sort of the first i - l elements of the old range,
      everything else is as on entry. */
  ghost predicate SortedUpTo(pre: seq<int>, l: int, r: int, i: int, cur: seq<int>)
  {
    0 <= l < i <= r + 1 <= |pre|
    && cur == pre[..l] + SortSpec.InsertionSortSeq(pre[l..r + 1][..i - l]) + pre[i..]
  }

  /** Inserting a[i] into the sorted prefix extends it by one element. */
  lemma OuterStep(pre: seq<int>, l: int, r: int, i: int, cur: seq<int>, cur': seq<int>)
    requires SortedUpTo(pre, l, r, i, cur) && i <= r
    requires cur' == cur[..l] + SortSpec.Insert(cur[l..i], cur[i]) + cur[i + 1..]
    ensures SortedUpTo(pre, l, r, i + 1, cur')
  {
    var s := pre[l..r + 1];
    SortSpec.InsertionSortExtend(s, i - l);
    assert cur[l..i] == SortSpec.InsertionSortSeq(s[..i - l]);
    assert cur[i] == s[i - l];
    assert cur[..l] == pre[..l];
    assert cur[i + 1..] == pre[i + 1..];
  }

  /** Before the first step a[l] alone is sorted. */
  lemma OuterStart(pre: seq<int>, l: int, r: int)
    requires 0 <= l <= r < |pre|
    ensures SortedUpTo(pre, l, r, l + 1, pre)
  {
    var s := pre[l..r + 1];
    assert s[..1][..0] == [];
    assert pre == pre[..l] + s[..1] + pre[l + 1..];
  }

  /** When the outer loop ends the whole range is sorted. */
  lemma OuterDone(pre: seq<int>, l: int, r: int, i: int, cur: seq<int>)
    requires SortedUpTo(pre, l, r, i, cur) && r < i
    ensures cur == InsertionSortedRange(pre, l, r)
  {
    assert pre[l..r + 1][..r + 1 - l] == pre[l..r + 1];
  }

  /** An empty range is its own insertion sort. */
  lemma InsertionEmpty(pre: seq<int>, l: int, r: int)
    requires 0 <= l == r + 1 <= |pre|
    ensures pre == InsertionSortedRange(pre, l, r)
  {
    assert pre == pre[..l] + [] + pre[r + 1..];
  }

  /** Insertion sort of a[l..r]: each a[i], from i = l + 1 up to r, is
      inserted into the sorted prefix a[l..i - 1]. Afterwards a[l..r] holds
      InsertionSortSeq of the old range (a non-decreasing permutation of it,
      by SortSpec.InsertionSortSortedPermutation) and nothing outside [l, r]
      has changed. */
  method InsertionSort(a: array<int>, l: int, r: int)
    requires 0 <= l <= r + 1 <= a.Length
    modifies a
    ensures a[..] == InsertionSortedRange(old(a[..]), l, r)
  {
    ghost var pre := a[..];
    if l <= r {
      OuterStart(pre, l, r);
      var i := l + 1;
      while i <= r
        invariant SortedUpTo(pre, l, r, i, a[..])
      {
        ghost var cur := a[..];
        InsertAt(a, l, i);
        OuterStep(pre, l, r, i, cur, a[..]);
        i := i + 1;
      }
      OuterDone(pre, l, r, i, a[..]);
    } else {
      InsertionEmpty(pre, l, r);
    }
  }

  /** The state of merge's write-back after i elements of x and j of y have
      been written at position l of `pre`: the array `cur` holds the first
      i + j merged elements there and is unchanged elsewhere, and what is still
      to be written is the merge of x[i..] and y[j..]. */
  ghost predicate Written(pre: seq<int>, l: int, x: seq<int>, y: seq<int>, i: int, j: int,
                          cur: seq<int>)
  {
    0 <= l && 0 <= i <= |x| && 0 <= j <= |y| && l + |x| + |y| <= |pre|
    && SortSpec.MergeFrom(x, y, i, j) == SortSpec.Merge(x, y)[i + j..]
    && cur == pre[..l] + SortSpec.Merge(x, y)[..i + j] + pre[l + i + j..]
  }

  /** Writing the smaller front element (the left one on a tie) at position
      l + i + j keeps the write-back state. */
  lemma {:induction false} WriteStep(pre: seq<int>, l: int, x: seq<int>, y: seq<int>, i: int, j: int,
                                     cur: seq<int>, v: int, i': int, j': int)
    requires Written(pre, l, x, y, i, j, cur)
    requires (i < |x| && (j == |y| || x[i] <= y[j]) && v == x[i] && i' == i + 1 && j' == j)
          || (j < |y| && (i == |x| || y[j] < x[i]) && v == y[j] && i' == i && j' == j + 1)
    ensures Written(pre, l, x, y, i', j', cur[l + i + j := v])
  {
    var w := SortSpec.Merge(x, y);
    if i' == i + 1 {
      SortSpec.TakeLeft(x, y, i, j);
    } else {
      SortSpec.TakeRight(x, y, i, j);
    }
    assert w[i + j..][0] == v;
    assert w[i + j + 1..] == w[i + j..][1..];
    assert w[..i + j + 1] == w[..i + j] + [v];
  }

  /** Storing src[t] at position k + t - s extends the copied part of src[s..]
      by one element. */
  lemma CopyStep(pre: seq<int>, src: seq<int>, s: int, t: int, k: int, cur: seq<int>)
    requires 0 <= s <= t < |src| && 0 <= k && k + |src| - s <= |pre|
    requires cur == pre[..k] + src[s..t] + pre[k + t - s..]
    ensures cur[k + t - s := src[t]] == pre[..k] + src[s..t + 1] + pre[k + t + 1 - s..]
  {
    assert src[s..t + 1] == src[s..t] + [src[t]];
  }

  /** Copies the rest src[s..] of a merge buffer to a[k..], as the two loops
      at the end of merge do for whichever buffer is not yet exhausted, and
      returns the advanced write index. */
  method CopyTail(a: array<int>, src: seq<int>, s: int, k: int) returns (k': int)
    requires 0 <= s <= |src| && 0 <= k && k + |src| - s <= a.Length
    modifies a
    ensures k' == k + |src| - s
    ensures var b := old(a[..]); a[..] == b[..k] + src[s..] + b[k'..]
  {
    ghost var pre := a[..];
    var t := s;
    k' := k;
    while t < |src|
      invariant s <= t <= |src| && k' == k + t - s
      invariant a[..] == pre[..k] + src[s..t] + pre[k'..]
    {
      CopyStep(pre, src, s, t, k, a[..]);
      a[k'] := src[t];
      t := t + 1;
      k' := k' + 1;
    }
  }

  /** Once one buffer is exhausted, copying the rest of both completes the
      merge: [l, l + |x| + |y|) holds the whole merge of x and y. */
  lemma {:induction false} Drained(pre: seq<int>, l: int, x: seq<int>, y: seq<int>, i: int, j: int,
                                   cur: seq<int>, cur1: seq<int>, cur2: seq<int>,
                                   k0: int, k1: int, k2: int)
    requires Written(pre, l, x, y, i, j, cur) && (i == |x| || j == |y|)
    requires k0 == l + i + j && k1 == k0 + |x| - i && k2 == k1 + |y| - j
    requires cur1 == cur[..k0] + x[i..] + cur[k1..]
    requires cur2 == cur1[..k1] + y[j..] + cur1[k2..]
    ensures cur2 == pre[..l] + SortSpec.Merge(x, y) + pre[k2..]
  {
    var w := SortSpec.Merge(x, y);
    assert cur[..k0] == pre[..l] + w[..i + j];
    assert cur[k2..] == pre[k2..];
    if i == |x| {
      assert cur1 == cur;
      assert w[i + j..] == y[j..];
    } else {
      assert w[i + j..] == x[i..];
      assert cur1[..k1] == pre[..l] + w[..i + j] + x[i..];
      assert cur1[k2..] == pre[k2..];
    }
    assert w == w[..i + j] + w[i + j..];
  }

  /** The same, stated for the buffers copied from [l, m] and [m + 1, r]:
      the write index ends at r + 1. */
  lemma Finished(pre: seq<int>, l: int, m: int, r: int, x: seq<int>, y: seq<int>,
                 i: int, j: int, cur: seq<int>, cur1: seq<int>, cur2: seq<int>,
                 k0: int, k1: int, k2: int)
    requires 0 <= l <= m + 1 <= r + 1 <= |pre| && x == pre[l..m + 1] && y == pre[m + 1..r + 1]
    requires Written(pre, l, x, y, i, j, cur) && (i == |x| || j == |y|)
    requires k0 == l + i + j && k1 == k0 + |x| - i && k2 == k1 + |y| - j
    requires cur1 == cur[..k0] + x[i..] + cur[k1..]
    requires cur2 == cur1[..k1] + y[j..] + cur1[k2..]
    ensures k2 == r + 1
    ensures cur2 == pre[..l] + SortSpec.Merge(pre[l..m + 1], pre[m + 1..r + 1]) + pre[r + 1..]
  {
    Drained(pre, l, x, y, i, j, cur, cur1, cur2, k0, k1, k2);
  }

  /** The first loop of merge: while neither buffer is exhausted, write the
      smaller front element, the left one on a tie, at a[l + i + j]. Returns
      how many elements of each buffer were written; at least one buffer is
      exhausted. */
  method MergeFront(a: array<int>, left: seq<int>, right: seq<int>, l: int, ghost pre: seq<int>)
    returns (i: int, j: int)
    requires a[..] == pre && 0 <= l && l + |left| + |right| <= a.Length
    modifies a
    ensures Written(pre, l, left, right, i, j, a[..]) && (i == |left| || j == |right|)
  {
    var k;
    i, j, k := 0, 0, l;
    assert Written(pre, l, left, right, 0, 0, a[..]);
    while i < |left| && j < |right|
      invariant k == l + i + j
      invariant Written(pre, l, left, right, i, j, a[..])
    {
      ghost var before, i0, j0 := a[..], i, j;
      var v;
      if left[i] <= right[j] {
        v := left[i];
        a[k] := v;
        i := i + 1;
      } else {
        v := right[j];
        a[k] := v;
        j := j + 1;
      }
      WriteStep(pre, l, left, right, i0, j0, before, v, i, j);
      k := k + 1;
    }
  }

  /** Merge of the adjacent ranges a[l..m] and a[m + 1..r]: both are copied
      into buffers `left` and `right` of exactly their lengths, then written
      back into a[l..r] by repeatedly taking the smaller front element, the
      left one on a tie, and finally the rest of whichever buffer is not
      exhausted. The write index k stays equal to l + i + j, so no buffer is
      read past its end, and it ends at r + 1. Afterwards a[l..r] holds the
      merge of the two old halves; it is non-decreasing when both halves were,
      and a permutation of the old range in any case. */
  method Merge(a: array<int>, l: int, m: int, r: int)
    requires 0 <= l <= m + 1 <= r + 1 <= a.Length
    modifies a
    ensures var s := old(a[..]); a[..] == s[..l] + SortSpec.Merge(s[l..m + 1], s[m + 1..r + 1]) + s[r + 1..]
  {
    ghost var pre := a[..];
    var n1 := m - l + 1;
    var n2 := r - m;
    var left: seq<int> := [];
    var right: seq<int> := [];
    for i := 0 to n1
      invariant left == pre[l..l + i]
    {
      left := left + [a[l + i]];
    }
    for j := 0 to n2
      invariant right == pre[m + 1..m + 1 + j]
    {
      right := right + [a[m + 1 + j]];
    }
    assert |left| == n1 && |right| == n2;
    assert left == pre[l..m + 1] && right == pre[m + 1..r + 1];

    var i, j := MergeFront(a, left, right, l, pre);
    var k := l + i + j;
    ghost var cur, k0 := a[..], k;
    k := CopyTail(a, left, i, k);
    ghost var cur1, k1 := a[..], k;
    k := CopyTail(a, right, j, k);
    Finished(pre, l, m, r, left, right, i, j, cur, cur1, a[..], k0, k1, k);
    assert k == r + 1;
  }

  /** Sorting [l, m] and then [m + 1, r] in place, each call leaving the rest
      of the array alone, puts the two sorted halves side by side over the
      untouched outside. */
  lemma SpliceHalves(pre: seq<int>, a1: seq<int>, a2: seq<int>, l: int, m: int, r: int,
                     x: seq<int>, y: seq<int>)
    requires 0 <= l <= m < r < |pre|
    requires |x| == m + 1 - l && |y| == r - m
    requires a1 == pre[..l] + x + pre[m + 1..]
    requires a2 == a1[..m + 1] + y + a1[r + 1..]
    ensures a1[m + 1..r + 1] == pre[m + 1..r + 1]
    ensures a2[..l] == pre[..l] && a2[r + 1..] == pre[r + 1..]
    ensures a2[l..m + 1] == x && a2[m + 1..r + 1] == y
  {
    assert a1[..m + 1] == pre[..l] + x;
  }

  /** The range [l, r] of `pre`, cut at m as merge sort cuts it. */
  lemma SplitRange(pre: seq<int>, l: int, m: int, r: int)
    requires 0 <= l <= m < r < |pre| && m == SortSpec.Midpoint(l, r)
    ensures SortSpec.Midpoint(0, |pre[l..r + 1]| - 1) == m - l
    ensures pre[l..r + 1][..m - l + 1] == pre[l..m + 1]
    ensures pre[l..r + 1][m - l + 1..] == pre[m + 1..r + 1]
  {
  }

  /** Merge sort's recursive case on arrays: sorting [l, m], then [m + 1, r],
      then merging them leaves MergeSortSeq of the old range in [l, r]. */
  lemma MergeSortSteps(pre: seq<int>, l: int, m: int, r: int,
                       a1: seq<int>, a2: seq<int>, a3: seq<int>)
    requires 0 <= l <= m < r < |pre| && m == SortSpec.Midpoint(l, r)
    requires a1 == MergeSortedRange(pre, l, m)
    requires |a1| == |pre| && a2 == MergeSortedRange(a1, m + 1, r)
    requires a3 == a2[..l] + SortSpec.Merge(a2[l..m + 1], a2[m + 1..r + 1]) + a2[r + 1..]
    ensures a3 == MergeSortedRange(pre, l, r)
  {
    SpliceHalves(pre, a1, a2, l, m, r, SortSpec.MergeSortSeq(pre[l..m + 1]),
                 SortSpec.MergeSortSeq(a1[m + 1..r + 1]));
    SplitRange(pre, l, m, r);
  }

  /** A range of at most one element is its own merge sort. */
  lemma MergeSortShort(pre: seq<int>, l: int, r: int)
    requires 0 <= l <= r + 1 <= |pre| && r <= l
    ensures pre == MergeSortedRange(pre, l, r)
  {
    assert pre == pre[..l] + pre[l..r + 1] + pre[r + 1..];
  }

  /** Top-down merge sort of a[l..r]: a range of at most one element is left
      as it is; otherwise both halves around the lower-biased midpoint are
      sorted recursively and merged. Afterwards a[l..r] holds MergeSortSeq of
      the old range, a non-decreasing permutation of it (by
      SortSpec.MergeSortSortedPermutation), and nothing outside [l, r] has
      changed. */
  method MergeSort(a: array<int>, l: int, r: int)
    requires 0 <= l <= r + 1 <= a.Length
    modifies a
    ensures a[..] == MergeSortedRange(old(a[..]), l, r)
    decreases r - l
  {
    ghost var pre := a[..];
    if l < r {
      var m := SortSpec.Midpoint(l, r);
      MergeSort(a, l, m);
      ghost var a1 := a[..];
      MergeSort(a, m + 1, r);
      ghost var a2 := a[..];
      Merge(a, l, m, r);
      MergeSortSteps(pre, l, m, r, a1, a2, a[..]);
    } else {
      MergeSortShort(pre, l, r);
    }
  }

  /** Hybrid merge sort's recursive case on arrays. */
  lemma HybridSteps(pre: seq<int>, l: int, m: int, r: int, threshold: int,
                    a1: seq<int>, a2: seq<int>, a3: seq<int>)
    requires 0 <= l <= m < r < |pre| && m == SortSpec.Midpoint(l, r) && r - l + 1 > threshold
    requires a1 == HybridSortedRange(pre, l, m, threshold)
    requires |a1| == |pre| && a2 == HybridSortedRange(a1, m + 1, r, threshold)
    requires a3 == a2[..l] + SortSpec.Merge(a2[l..m + 1], a2[m + 1..r + 1]) + a2[r + 1..]
    ensures a3 == HybridSortedRange(pre, l, r, threshold)
  {
    SpliceHalves(pre, a1, a2, l, m, r, SortSpec.HybridSortSeq(pre[l..m + 1], threshold),
                 SortSpec.HybridSortSeq(a1[m + 1..r + 1], threshold));
    SplitRange(pre, l, m, r);
  }

  /** A range within the threshold is insertion-sorted. */
  lemma HybridSmall(pre: seq<int>, l: int, r: int, threshold: int, a1: seq<int>)
    requires 0 <= l <= r + 1 <= |pre| && r - l + 1 <= threshold
    requires a1 == InsertionSortedRange(pre, l, r)
    ensures a1 == HybridSortedRange(pre, l, r, threshold)
  {
  }

  /** A range of at most one element above the threshold is left alone. */
  lemma HybridShort(pre: seq<int>, l: int, r: int, threshold: int)
    requires 0 <= l <= r + 1 <= |pre| && r <= l && r - l + 1 > threshold
    ensures pre == HybridSortedRange(pre, l, r, threshold)
  {
    assert pre == pre[..l] + pre[l..r + 1] + pre[r + 1..];
  }

  /** Hybrid merge sort of a[l..r]: a range whose length r - l + 1 is at most
      `threshold` is insertion-sorted; otherwise the merge-sort recursion.
      Afterwards a[l..r] holds HybridSortSeq of the old range, which for every
      threshold is the array merge sort produces, and nothing outside [l, r]
      has changed. */
  method HybridMergeSort(a: array<int>, l: int, r: int, threshold: int)
    requires 0 <= l <= r + 1 <= a.Length
    modifies a
    ensures a[..] == HybridSortedRange(old(a[..]), l, r, threshold)
    decreases r - l
  {
    ghost var pre := a[..];
    if r - l + 1 <= threshold {
      InsertionSort(a, l, r);
      HybridSmall(pre, l, r, threshold, a[..]);
    } else if l < r {
      var m := SortSpec.Midpoint(l, r);
      HybridMergeSort(a, l, m, threshold);
      ghost var a1 := a[..];
      HybridMergeSort(a, m + 1, r, threshold);
      ghost var a2 := a[..];
      Merge(a, l, m, r);
      HybridSteps(pre, l, m, r, threshold, a1, a2, a[..]);
    } else {
      HybridShort(pre, l, r, threshold);
    }
  }

  /** Sorting the whole of an array of length n, as the measuring entry
      points do with l = 0 and r = n - 1, replaces all of it. */
  lemma WholeRange(s: seq<int>, n: int, threshold: int)
    requires n == |s|
    ensures MergeSortedRange(s, 0, n - 1) == SortSpec.MergeSortSeq(s)
    ensures HybridSortedRange(s, 0, n - 1, threshold) == SortSpec.HybridSortSeq(s, threshold)
  {
    assert s[..0] == [] && s[0..n] == s && s[n..] == [];
  }

  /** Merge-sorts a copy of `arr` and hands the sorted copy back in place of
      the elapsed time; `arr` itself is not modified (this method may modify
      nothing that existed before the call), so repeated trials see the same
      input. */
  method MeasureMergeSort(arr: array<int>) returns (sortedCopy: seq<int>)
    ensures sortedCopy == SortSpec.MergeSortSeq(arr[..])
    ensures SortSpec.Sorted(sortedCopy) && multiset(sortedCopy) == multiset(arr[..])
  {
    var temp := new int[arr.Length](i reads arr requires 0 <= i < arr.Length => arr[i]);
    ghost var input := temp[..];
    assert input == arr[..];
    MergeSort(temp, 0, temp.Length - 1);
    WholeRange(input, temp.Length, 0);
    sortedCopy := temp[..];
    SortSpec.MergeSortSortedPermutation(input);
  }

  /** Hybrid-sorts a copy of `arr` with the given threshold and hands the
      sorted copy back in place of the elapsed time; `arr` itself is not
      modified. Whatever the threshold, the copy is the one merge sort
      produces. */
  method MeasureHybridMergeSort(arr: array<int>, threshold: int) returns (sortedCopy: seq<int>)
    ensures sortedCopy == SortSpec.HybridSortSeq(arr[..], threshold)
    ensures sortedCopy == SortSpec.MergeSortSeq(arr[..])
    ensures SortSpec.Sorted(sortedCopy) && multiset(sortedCopy) == multiset(arr[..])
  {
    var temp := new int[arr.Length](i reads arr requires 0 <= i < arr.Length => arr[i]);
    ghost var input := temp[..];
    assert input == arr[..];
    HybridMergeSort(temp, 0, temp.Length - 1, threshold);
    WholeRange(input, temp.Length, threshold);
    sortedCopy := temp[..];
    SortSpec.HybridIsMergeSort(input, threshold);
    SortSpec.MergeSortSortedPermutation(input);
  }
}
