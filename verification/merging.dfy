/** The value-level meaning of merge_sort: what its merge step writes, how many
    comparisons it makes, and what the whole recursion produces and counts. */
module Merging {
  import opened Orderings

  /** The sequence the merge step writes: repeatedly the smaller of the two lead
      elements; when they are equal the `<` test fails and the right half's element
      goes first. */
  function Merged(left: seq<int>, right: seq<int>): (m: seq<int>)
    ensures |m| == |left| + |right|
    decreases |left| + |right|
  {
    if left == [] then right
    else if right == [] then left
    else if left[0] < right[0] then [left[0]] + Merged(left[1..], right)
    else [right[0]] + Merged(left, right[1..])
  }

  /** The merge of two non-empty sequences starts with the smaller lead element, the
      right one on a tie, and that choice costs one comparison. */
  lemma MergedLead(l: seq<int>, r: seq<int>)
    requires l != [] && r != []
    ensures l[0] < r[0] ==> Merged(l, r) == [l[0]] + Merged(l[1..], r)
    ensures l[0] < r[0] ==> MergeComparisons(l, r) == 1 + MergeComparisons(l[1..], r)
    ensures l[0] >= r[0] ==> Merged(l, r) == [r[0]] + Merged(l, r[1..])
    ensures l[0] >= r[0] ==> MergeComparisons(l, r) == 1 + MergeComparisons(l, r[1..])
  {
  }

  /** Splitting off the first element splits the multiset. */
  lemma HeadMultiset(s: seq<int>)
    requires s != []
    ensures multiset(s) == multiset{s[0]} + multiset(s[1..])
  {
    assert s == [s[0]] + s[1..];
  }

  /** The merge is a rearrangement of the two halves together. */
  lemma {:induction false} MergedPermutation(left: seq<int>, right: seq<int>)
    ensures multiset(Merged(left, right)) == multiset(left) + multiset(right)
    decreases |left| + |right|
  {
    if left != [] && right != [] {
      MergedLead(left, right);
      if left[0] < right[0] {
        MergedPermutation(left[1..], right);
        HeadMultiset(left);
      } else {
        MergedPermutation(left, right[1..]);
        HeadMultiset(right);
      }
    }
  }

  /** The number of lead-element comparisons of the merge: one for each element
      written while both halves still hold elements. */
  function MergeComparisons(left: seq<int>, right: seq<int>): (c: nat)
    ensures c == 0 <==> left == [] || right == []
    decreases |left| + |right|
  {
    if left == [] || right == [] then 0
    else if left[0] < right[0] then 1 + MergeComparisons(left[1..], right)
    else 1 + MergeComparisons(left, right[1..])
  }

  lemma SortedCons(x: int, s: seq<int>)
    requires Sorted(s) && AllAtLeast(s, x)
    ensures Sorted([x] + s)
  {
    forall i, j | 0 <= i < j < |s| + 1 ensures ([x] + s)[i] <= ([x] + s)[j] {
      if i > 0 {
        assert ([x] + s)[i] == s[i - 1];
      }
      assert ([x] + s)[j] == s[j - 1];
    }
  }

  /** Merging two ascending halves gives an ascending sequence. */
  lemma {:induction false} MergedSorted(left: seq<int>, right: seq<int>)
    requires Sorted(left) && Sorted(right)
    ensures Sorted(Merged(left, right))
    decreases |left| + |right|
  {
    if left != [] && right != [] {
      if left[0] < right[0] {
        var tail := Merged(left[1..], right);
        MergedSorted(left[1..], right);
        MergedPermutation(left[1..], right);
        assert AllAtLeast(left[1..] + right, left[0]);
        PermutationBounds(left[1..] + right, tail, left[0]);
        SortedCons(left[0], tail);
      } else {
        var tail := Merged(left, right[1..]);
        MergedSorted(left, right[1..]);
        MergedPermutation(left, right[1..]);
        assert AllAtLeast(left + right[1..], right[0]);
        PermutationBounds(left + right[1..], tail, right[0]);
        SortedCons(right[0], tail);
      }
    }
  }

  /** A merge of two non-empty halves makes at least as many comparisons as the
      shorter half has elements and at most one fewer than it writes. */
  lemma {:induction false} MergeComparisonsBounds(left: seq<int>, right: seq<int>)
    requires left != [] && right != []
    ensures MergeComparisons(left, right) <= |left| + |right| - 1
    ensures MergeComparisons(left, right) >= (if |left| <= |right| then |left| else |right|)
    decreases |left| + |right|
  {
    if left[0] < right[0] {
      if |left| > 1 {
        MergeComparisonsBounds(left[1..], right);
      }
    } else {
      if |right| > 1 {
        MergeComparisonsBounds(left, right[1..]);
      }
    }
  }

  /** Ties go to the right half: when every element of both halves is the same value,
      all of the right half is written first, so the merge compares once per
      right-half element (a merge that preferred the left half would compare once per
      left-half element). */
  lemma {:induction false} MergeTiesGoRight(left: seq<int>, right: seq<int>, v: int)
    requires left != []
    requires forall k :: 0 <= k < |left| ==> left[k] == v
    requires forall k :: 0 <= k < |right| ==> right[k] == v
    ensures MergeComparisons(left, right) == |right|
    ensures Merged(left, right) == right + left
    decreases |right|
  {
    if right != [] {
      MergeTiesGoRight(left, right[1..], v);
      assert right == [right[0]] + right[1..];
    }
  }

  /** merge_sort as a function: split at len // 2, sort both halves, merge them. */
  function MergeSorted(s: seq<int>): (t: seq<int>)
    ensures |t| == |s|
    decreases |s|
  {
    if |s| <= 1 then s
    else
      var mid := |s| / 2;
      Merged(MergeSorted(s[..mid]), MergeSorted(s[mid..]))
  }

  /** merge_sort's result is ascending. */
  lemma {:induction false} MergeSortedAscending(s: seq<int>)
    ensures Sorted(MergeSorted(s))
    decreases |s|
  {
    if |s| > 1 {
      var mid := |s| / 2;
      MergeSortedAscending(s[..mid]);
      MergeSortedAscending(s[mid..]);
      MergedSorted(MergeSorted(s[..mid]), MergeSorted(s[mid..]));
    }
  }

  /** merge_sort's result is a rearrangement of its input. */
  lemma {:induction false} MergeSortedPermutation(s: seq<int>)
    ensures multiset(MergeSorted(s)) == multiset(s)
    decreases |s|
  {
    if |s| > 1 {
      var mid := |s| / 2;
      MergeSortedPermutation(s[..mid]);
      MergeSortedPermutation(s[mid..]);
      MergedPermutation(MergeSorted(s[..mid]), MergeSorted(s[mid..]));
      assert s == s[..mid] + s[mid..];
    }
  }

  /** The comparison count merge_sort returns: the merges' comparisons, summed over
      the recursion. */
  function MergeSortComparisons(s: seq<int>): (c: nat)
    decreases |s|
  {
    if |s| <= 1 then 0
    else
      var mid := |s| / 2;
      MergeSortComparisons(s[..mid]) + MergeSortComparisons(s[mid..])
        + MergeComparisons(MergeSorted(s[..mid]), MergeSorted(s[mid..]))
  }

  /** The movement count merge_sort returns for a list of length n: every merge
      writes each cell of its list once, whatever the values. */
  function MergeMoves(n: nat): (moves: nat)
    decreases n
  {
    if n <= 1 then 0 else n + MergeMoves(n / 2) + MergeMoves(n - n / 2)
  }

  /** The fewest comparisons merge_sort can make on n elements: each merge compares at
      least once per element of its shorter (left) half. */
  function MergeMinComparisons(n: nat): (c: nat)
    decreases n
  {
    if n <= 1 then 0 else n / 2 + MergeMinComparisons(n / 2) + MergeMinComparisons(n - n / 2)
  }

  /** The comparisons of merge_sort lie between the best case and the number of
      writes; with two or more elements there are strictly fewer comparisons than
      writes. */
  lemma {:induction false} MergeSortComparisonsBounds(s: seq<int>)
    ensures MergeMinComparisons(|s|) <= MergeSortComparisons(s) <= MergeMoves(|s|)
    ensures |s| >= 2 ==> MergeSortComparisons(s) < MergeMoves(|s|)
    decreases |s|
  {
    if |s| > 1 {
      var n, mid := |s|, |s| / 2;
      var left, right := s[..mid], s[mid..];
      MergeSortComparisonsBounds(left);
      MergeSortComparisonsBounds(right);
      var sl, sr := MergeSorted(left), MergeSorted(right);
      MergeComparisonsBounds(sl, sr);
      var c := MergeComparisons(sl, sr);
      assert mid <= c <= n - 1;
      assert MergeSortComparisons(s) == MergeSortComparisons(left) + MergeSortComparisons(right) + c;
      assert MergeMoves(n) == n + MergeMoves(mid) + MergeMoves(n - mid);
      assert MergeMinComparisons(n) == mid + MergeMinComparisons(mid) + MergeMinComparisons(n - mid);
    }
  }

  /** The number of levels of halving: ceil(log2 n). */
  function CeilLog2(n: nat): (k: nat)
    decreases n
  {
    if n <= 1 then 0 else 1 + CeilLog2(n - n / 2)
  }

  lemma {:induction false} CeilLog2Monotone(a: nat, b: nat)
    requires a <= b
    ensures CeilLog2(a) <= CeilLog2(b)
    decreases b
  {
    if a > 1 {
      CeilLog2Monotone(a - a / 2, b - b / 2);
    }
  }

  lemma Distribute(h: nat, c: nat, d: nat)
    ensures (h + c) * (1 + d) == (h + c) + h * d + c * d
  {
  }

  /** merge_sort moves at most n * ceil(log2 n) elements. */
  lemma {:induction false} MergeMovesBound(n: nat)
    ensures MergeMoves(n) <= n * CeilLog2(n)
    decreases n
  {
    if n > 1 {
      var h, c := n / 2, n - n / 2;
      assert h + c == n;
      MergeMovesBound(h);
      MergeMovesBound(c);
      CeilLog2Monotone(h, c);
      var d := CeilLog2(c);
      assert CeilLog2(n) == 1 + d;
      MultiplyMonotone(h, CeilLog2(h), d);
      var mh, mc := MergeMoves(h), MergeMoves(c);
      assert mh <= h * d && mc <= c * d;
      Distribute(h, c, d);
      assert MergeMoves(n) == n + mh + mc;
    }
  }
}
