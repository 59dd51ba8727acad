/** The four instrumented sorting routines of sorting_analyzer/algorithms.py, each
    sorting an array in place and returning its (comparisons, swaps or movements)
    pair, and the name registry that the experiment runner dispatches through. */
module Algorithms {
  import opened Orderings
  import opened Merging

  // ---------------------------------------------------------------- insertion sort

  /** The sequence `p` with `key` inserted after position `j`. */
  function InsertAfter(p: seq<int>, j: int, key: int): (q: seq<int>)
    requires -1 <= j < |p|
  {
    p[..j + 1] + [key] + p[j + 1..]
  }

  lemma InsertAfterAt(p: seq<int>, j: int, key: int, k: int)
    requires -1 <= j < |p| && 0 <= k <= |p|
    ensures |InsertAfter(p, j, key)| == |p| + 1
    ensures InsertAfter(p, j, key)[k] == if k <= j then p[k] else if k == j + 1 then key else p[k - 1]
  {
  }

  /** Inserting `key` between the part of a sorted `p` that is at most `key` and the
      part that exceeds it keeps the sequence sorted. */
  lemma InsertionKeepsSorted(p: seq<int>, j: int, key: int)
    requires Sorted(p) && -1 <= j < |p|
    requires j >= 0 ==> p[j] <= key
    requires forall k :: j < k < |p| ==> key < p[k]
    ensures Sorted(InsertAfter(p, j, key))
  {
    var q := InsertAfter(p, j, key);
    forall x, y | 0 <= x < y < |q| ensures q[x] <= q[y] {
      InsertAfterAt(p, j, key, x);
      InsertAfterAt(p, j, key, y);
      if x <= j && y > j + 1 {
        assert p[x] <= p[y - 1];
      }
    }
  }

  /** The elements a key is shifted past are exactly those of the sorted prefix that
      exceed it. */
  lemma InsertionShiftCount(p: seq<int>, j: int, key: int)
    requires Sorted(p) && -1 <= j < |p|
    requires j >= 0 ==> p[j] <= key
    requires forall k :: j < k < |p| ==> key < p[k]
    ensures CountGreater(p, key) == |p| - 1 - j
  {
    assert p == p[..j + 1] + p[j + 1..];
    CountGreaterConcat(p[..j + 1], p[j + 1..], key);
    CountGreaterZero(p[..j + 1], key);
    CountGreaterAll(p[j + 1..], key);
  }

  /** The state insertion_sort keeps before the key at position `i`: the first `i`
      cells are the first `i` input elements in ascending order, the rest is still
      the input, and `swaps` counts the inversions among the first `i` input elements. */
  predicate InsertionProgress(input: seq<int>, cur: seq<int>, i: int, swaps: int) {
    |cur| == |input| && 0 < i <= |input| &&
    Sorted(cur[..i]) && multiset(cur[..i]) == multiset(input[..i]) &&
    cur[i..] == input[i..] && swaps == Inversions(input[..i])
  }

  /** One round of the outer loop of insertion sort extends the sorted prefix by the
      next key and adds that key's inversions to the swap count. */
  lemma InsertionRound(input: seq<int>, cur: seq<int>, next: seq<int>, i: int, swaps: int, shifts: int)
    requires InsertionProgress(input, cur, i, swaps) && i < |input| && 0 <= shifts <= i
    requires i - 1 - shifts >= 0 ==> cur[i - 1 - shifts] <= cur[i]
    requires forall k :: i - 1 - shifts < k < i ==> cur[i] < cur[k]
    requires |next| == |cur| && next[..i + 1] == InsertAfter(cur[..i], i - 1 - shifts, cur[i])
    requires next[i + 1..] == cur[i + 1..]
    ensures InsertionProgress(input, next, i + 1, swaps + shifts)
  {
    var j := i - 1 - shifts;
    var prefix, key := cur[..i], cur[i];
    assert key == cur[i..][0] == input[i..][0] == input[i];
    InsertionKeepsSorted(prefix, j, key);
    InsertionShiftCount(prefix, j, key);
    CountGreaterPermutation(prefix, input[..i], key);
    InsertAfterMultiset(prefix, j, key);
    PrefixExtend(input, i);
    assert next[i + 1..] == cur[i..][1..] == input[i..][1..] == input[i + 1..];
  }

  lemma InsertAfterMultiset(p: seq<int>, j: int, key: int)
    requires -1 <= j < |p|
    ensures multiset(InsertAfter(p, j, key)) == multiset(p) + multiset{key}
  {
    assert p == p[..j + 1] + p[j + 1..];
  }

  /** One round of insertion_sort's outer loop: the key at position `i` is moved into
      the sorted prefix by shifting each larger element one slot right. One comparison
      is counted on entry to the shift loop and one more per shift; each shift is a
      swap, the final placement of the key is not. */
  method InsertKey(a: array<int>, i: int, ghost input: seq<int>, ghost before: int)
      returns (comparisons: nat, swaps: nat)
    requires InsertionProgress(input, a[..], i, before) && i < a.Length
    modifies a
    ensures InsertionProgress(input, a[..], i + 1, before + swaps)
    ensures swaps <= i && comparisons == 1 + swaps
  {
    ghost var cur := a[..];
    ghost var prefix := a[..i];
    var key := a[i];
    var j := i - 1;
    comparisons, swaps := 1, 0;
    while j >= 0 && key < a[j]
      invariant -1 <= j <= i - 1 && swaps == i - 1 - j && comparisons == 1 + swaps
      invariant forall k :: 0 <= k <= j ==> a[k] == prefix[k]
      invariant forall k :: j + 2 <= k <= i ==> a[k] == prefix[k - 1]
      invariant forall k :: j < k < i ==> key < prefix[k]
      invariant a[i + 1..] == old(a[i + 1..])
    {
      comparisons := comparisons + 1;
      a[j + 1] := a[j];
      swaps := swaps + 1;
      j := j - 1;
    }
    a[j + 1] := key;
    forall k | 0 <= k <= i ensures a[k] == InsertAfter(prefix, j, key)[k] {
      InsertAfterAt(prefix, j, key, k);
    }
    assert a[..i + 1] == InsertAfter(prefix, j, key);
    InsertionRound(input, cur, a[..], i, before, swaps);
  }

  /** insertion_sort: the prefix before position i is kept sorted, and each key in
      turn is inserted into it. The swaps counted are exactly the inversions of the
      input, and one more comparison than swaps is counted per key after the first. */
  method InsertionSort(a: array<int>) returns (comparisons: nat, swaps: nat)
    modifies a
    ensures Sorted(a[..])
    ensures multiset(a[..]) == multiset(old(a[..]))
    ensures swaps == Inversions(old(a[..]))
    ensures comparisons == (if a.Length == 0 then 0 else a.Length - 1) + swaps
  {
    comparisons, swaps := 0, 0;
    if a.Length == 0 {
      return;
    }
    ghost var input := a[..];
    assert InsertionProgress(input, a[..], 1, 0) by {
      assert input[..1] == [input[0]] && input[..1][..0] == [];
    }
    var i := 1;
    while i < a.Length
      invariant InsertionProgress(input, a[..], i, swaps) && comparisons == i - 1 + swaps
    {
      var c, s := InsertKey(a, i, input, swaps);
      comparisons, swaps := comparisons + c, swaps + s;
      i := i + 1;
    }
    assert a[..i] == a[..] && input[..i] == input;
  }

  // ------------------------------------------------------------------- bubble sort

  /** Exchanges two cells, as the tuple assignments of the source do. */
  method Exchange(a: array<int>, i: int, j: int)
    requires 0 <= i < a.Length && 0 <= j < a.Length
    modifies a
    ensures a[..] == old(a[..])[i := old(a[..])[j]][j := old(a[..])[i]]
  {
    a[i], a[j] := a[j], a[i];
  }

  /** The state of a pass of bubble_sort's inner loop before pair (j, j + 1), with
      `orig` the array when the pass began: a[j] is the largest of a[..j + 1], the
      cells after `last` are untouched, each swap so far removed one inversion, and a
      pass without an exchange has changed nothing and found every pair it compared
      in order. */
  predicate PassProgress(orig: seq<int>, cur: seq<int>, last: int, j: int, swaps: int, swapped: bool) {
    |cur| == |orig| && 0 <= j <= last < |cur| &&
    (forall k :: 0 <= k < j ==> cur[k] <= cur[j]) &&
    (forall k :: last < k < |cur| ==> cur[k] == orig[k]) &&
    multiset(cur) == multiset(orig) &&
    0 <= swaps <= j && swaps + Inversions(cur) == Inversions(orig) &&
    (swapped <==> swaps > 0) &&
    (!swapped ==> cur == orig && forall k :: 0 <= k < j ==> orig[k] <= orig[k + 1])
  }

  /** The rest of a pass of bubble_sort's inner loop from pair (j, j + 1) on, as a
      value: each inverted pair before `last` is exchanged. The result is the array
      when the pass ends and whether the pass exchanged anything, counting an
      exchange already made (`swapped`). */
  function PassFrom(s: seq<int>, j: int, last: int, swapped: bool): (r: (seq<int>, bool))
    requires 0 <= j <= last < |s|
    ensures |r.0| == |s| && (swapped ==> r.1)
    decreases last - j
  {
    if j == last then (s, swapped)
    else if s[j] > s[j + 1] then PassFrom(s[j := s[j + 1]][j + 1 := s[j]], j + 1, last, true)
    else PassFrom(s, j + 1, last, swapped)
  }

  /** One comparison of the pass: an inverted pair is exchanged and counted, an
      ordered pair is left alone, and what remains of the pass ends as before. */
  lemma PassStep(orig: seq<int>, cur: seq<int>, next: seq<int>, last: int, j: int,
                 swaps: int, swapped: bool, swaps': int, swapped': bool)
    requires PassProgress(orig, cur, last, j, swaps, swapped) && j < last
    requires if cur[j] > cur[j + 1]
             then next == cur[j := cur[j + 1]][j + 1 := cur[j]] && swaps' == swaps + 1 && swapped'
             else next == cur && swaps' == swaps && swapped' == swapped
    ensures PassProgress(orig, next, last, j + 1, swaps', swapped')
    ensures PassFrom(next, j + 1, last, swapped') == PassFrom(cur, j, last, swapped)
  {
    if cur[j] > cur[j + 1] {
      InversionsAdjacentSwap(cur, j);
      ExchangeMultiset(cur, j, j + 1);
    }
  }

  /** A pass over ascending input exchanges nothing. */
  lemma {:induction false} PassFromSorted(s: seq<int>, j: int, last: int)
    requires 0 <= j <= last < |s| && Sorted(s)
    ensures PassFrom(s, j, last, false) == (s, false)
    decreases last - j
  {
    if j < last {
      assert s[j] <= s[j + 1];
      PassFromSorted(s, j + 1, last);
    }
  }

  /** The body of bubble_sort's inner loop at pair (j, j + 1): an inverted pair is
      exchanged and counted as a swap. */
  method PassVisit(a: array<int>, last: int, j: int, ghost orig: seq<int>, swaps: nat, swapped: bool)
      returns (swaps': nat, swapped': bool)
    requires PassProgress(orig, a[..], last, j, swaps, swapped) && j < last
    modifies a
    ensures if old(a[j]) > old(a[j + 1])
            then a[..] == old(a[..])[j := old(a[j + 1])][j + 1 := old(a[j])] && swaps' == swaps + 1 && swapped'
            else a[..] == old(a[..]) && swaps' == swaps && swapped' == swapped
    ensures PassProgress(orig, a[..], last, j + 1, swaps', swapped')
    ensures PassFrom(a[..], j + 1, last, swapped') == PassFrom(old(a[..]), j, last, swapped)
  {
    ghost var cur := a[..];
    swaps', swapped' := swaps, swapped;
    if a[j] > a[j + 1] {
      Exchange(a, j, j + 1);
      swaps' := swaps + 1;
      swapped' := true;
    }
    PassStep(orig, cur, a[..], last, j, swaps, swapped, swaps', swapped');
  }

  /** One pass of bubble_sort's inner loop over the pairs (j, j + 1) with j < last:
      one comparison per pair, and an inverted pair is exchanged and counted as a swap.
      Afterwards the largest of a[..last + 1] sits at `last`; a pass without an
      exchange leaves the array as it was, with a[..last + 1] already ascending. */
  method BubblePass(a: array<int>, last: int) returns (comparisons: nat, swaps: nat, swapped: bool)
    requires 0 <= last < a.Length
    modifies a
    ensures (a[..], swapped) == PassFrom(old(a[..]), 0, last, false)
    ensures PassProgress(old(a[..]), a[..], last, last, swaps, swapped)
    ensures comparisons == last
  {
    ghost var orig := a[..];
    ghost var rest := PassFrom(orig, 0, last, false);
    comparisons, swaps, swapped := 0, 0, false;
    var j := 0;
    while j < last
      invariant PassProgress(orig, a[..], last, j, swaps, swapped)
      invariant PassFrom(a[..], j, last, swapped) == rest
      invariant comparisons == j
    {
      comparisons := comparisons + 1;
      swaps, swapped := PassVisit(a, last, j, orig, swaps, swapped);
      j := j + 1;
    }
  }

  /** Every cell from `bound` on is at least every cell before it: the tail from
      `bound` is in its final, ascending place. */
  predicate Settled(s: seq<int>, bound: int) {
    forall k, m :: 0 <= k < m < |s| && bound <= m ==> s[k] <= s[m]
  }

  /** Adjacent pairs in order up to `b` make the prefix up to `b` ascending. */
  lemma {:induction false} AdjacentAscending(s: seq<int>, b: int)
    requires 0 <= b < |s|
    requires forall k :: 0 <= k < b ==> s[k] <= s[k + 1]
    ensures forall k, m :: 0 <= k < m <= b ==> s[k] <= s[m]
  {
    if b > 0 {
      AdjacentAscending(s, b - 1);
      forall k | 0 <= k < b ensures s[k] <= s[b] {
        assert s[k] <= s[b - 1];
      }
    }
  }

  /** The state bubble_sort keeps before pass `i`: a permutation of the input whose
      last `i` cells are settled, whose swaps so far removed as many inversions, and
      whose passes so far compared n - 1, n - 2, ..., n - i pairs, that is all pairs
      of n elements but those of the first n - i. */
  predicate BubbleProgress(input: seq<int>, cur: seq<int>, i: int, comparisons: int, swaps: int) {
    |cur| == |input| && 0 <= i <= |cur| &&
    multiset(cur) == multiset(input) &&
    swaps + Inversions(cur) == Inversions(input) &&
    Settled(cur, |cur| - i) &&
    comparisons + Pairs(|cur| - i) == Pairs(|cur|) && 0 <= swaps <= comparisons
  }

  /** Equal multisets and equal tails give equal multisets of the prefixes. */
  lemma PrefixMultiset(cur: seq<int>, next: seq<int>, b: int)
    requires |cur| == |next| && 0 <= b <= |cur|
    requires multiset(cur) == multiset(next) && cur[b..] == next[b..]
    ensures multiset(cur[..b]) == multiset(next[..b])
  {
    assert cur == cur[..b] + cur[b..] && next == next[..b] + next[b..];
    assert multiset(cur[..b]) == multiset(cur) - multiset(cur[b..]);
    assert multiset(next[..b]) == multiset(next) - multiset(next[b..]);
  }

  /** The tail settled by a pass: a pass over a[..last + 1] permutes that prefix and
      leaves its largest value at `last`, so one more cell is settled. */
  lemma PassSettles(cur: seq<int>, next: seq<int>, last: int)
    requires |next| == |cur| && 0 <= last < |cur|
    requires forall k :: 0 <= k < last ==> next[k] <= next[last]
    requires forall k :: last < k < |cur| ==> next[k] == cur[k]
    requires multiset(next) == multiset(cur) && Settled(cur, last + 1)
    ensures Settled(next, last)
  {
    assert next[last + 1..] == cur[last + 1..];
    PrefixMultiset(cur, next, last + 1);
    forall k, m | 0 <= k < m < |next| && last <= m ensures next[k] <= next[m] {
      if last < m && k <= last {
        assert AllAtMost(cur[..last + 1], cur[m]);
        PermutationBounds(cur[..last + 1], next[..last + 1], cur[m]);
        assert next[..last + 1][k] == next[k];
      }
    }
  }

  /** What bubble_sort promises about its final array `cur` and counts, given the
      input: ascending, a permutation, one swap per inversion, at most n(n - 1)/2
      comparisons, and an ascending input left as it was after n - 1 comparisons. */
  predicate BubbleOutcome(input: seq<int>, cur: seq<int>, comparisons: int, swaps: int) {
    Sorted(cur) && multiset(cur) == multiset(input) &&
    swaps == Inversions(input) && swaps <= comparisons && comparisons <= Pairs(|cur|) &&
    (Sorted(input) ==> cur == input && swaps == 0 && comparisons == (if |cur| == 0 then 0 else |cur| - 1))
  }

  /** The comparisons bubble_sort makes on `s` from pass `i` on: n - i - 1 pairs in
      pass i, and the later passes only when this one exchanged something. */
  function BubbleComparisons(s: seq<int>, i: nat): (c: nat)
    ensures i < |s| ==> c >= |s| - i - 1
    decreases |s| - i
  {
    if i >= |s| then 0
    else
      var pass := PassFrom(s, 0, |s| - i - 1, false);
      (|s| - i - 1) + (if pass.1 then BubbleComparisons(pass.0, i + 1) else 0)
  }

  /** Passes i, i + 1, ..., n - 1 compare at most (n - i - 1) + ... + 1 + 0 pairs. */
  lemma {:induction false} BubbleComparisonsBound(s: seq<int>, i: nat)
    requires i <= |s|
    ensures BubbleComparisons(s, i) <= Pairs(|s| - i)
    decreases |s| - i
  {
    if i < |s| {
      var pass := PassFrom(s, 0, |s| - i - 1, false);
      BubbleComparisonsBound(pass.0, i + 1);
    }
  }

  /** On ascending input the first pass exchanges nothing, so bubble_sort stops
      after n - 1 comparisons. */
  lemma BubbleComparisonsSorted(s: seq<int>)
    requires Sorted(s)
    ensures BubbleComparisons(s, 0) == (if |s| == 0 then 0 else |s| - 1)
  {
    if |s| > 0 {
      PassFromSorted(s, 0, |s| - 1);
    }
  }

  /** The invariant of bubble_sort's outer loop: the progress so far, on an
      ascending input no pass has finished yet, and the comparisons so far and those
      of the passes still to come add up to those of the whole sort. */
  predicate BubbleLoop(input: seq<int>, cur: seq<int>, i: int, comparisons: int, swaps: int) {
    BubbleProgress(input, cur, i, comparisons, swaps) && (Sorted(input) ==> i == 0 && cur == input) &&
    comparisons + BubbleComparisons(cur, i) == BubbleComparisons(input, 0)
  }

  /** One round of bubble_sort's outer loop keeps its invariant; a pass without an
      exchange ends the sort with everything promised, and the first pass over an
      ascending input is such a pass. */
  lemma BubbleRound(input: seq<int>, cur: seq<int>, next: seq<int>, i: int, comparisons: int, swaps: int,
                    s: int, swapped: bool)
    requires BubbleLoop(input, cur, i, comparisons, swaps) && i < |cur|
    requires PassProgress(cur, next, |cur| - i - 1, |cur| - i - 1, s, swapped)
    requires (next, swapped) == PassFrom(cur, 0, |cur| - i - 1, false)
    ensures swapped ==> BubbleLoop(input, next, i + 1, comparisons + (|cur| - i - 1), swaps + s)
    ensures !swapped ==> BubbleOutcome(input, next, comparisons + (|cur| - i - 1), swaps + s) &&
                         comparisons + (|cur| - i - 1) == BubbleComparisons(input, 0)
  {
    var last := |cur| - i - 1;
    PassSettles(cur, next, last);
    assert Pairs(|cur| - i) == last + Pairs(last);
    SortedIffNoInversions(input);
    if !swapped {
      AdjacentAscending(next, last);
      SortedIffNoInversions(next);
    }
  }

  /** When every pass has run, the whole array is settled. */
  lemma BubbleDone(input: seq<int>, cur: seq<int>, comparisons: int, swaps: int)
    requires BubbleLoop(input, cur, |cur|, comparisons, swaps)
    ensures BubbleOutcome(input, cur, comparisons, swaps) && comparisons == BubbleComparisons(input, 0)
  {
    SortedIffNoInversions(cur);
    SortedIffNoInversions(input);
  }

  /** One pass of bubble_sort's outer loop, adding its counts to the running totals,
      with the bookkeeping that ties it to the passes before it. */
  method BubbleRoundStep(a: array<int>, i: int, ghost input: seq<int>, comparisonsBefore: nat, swapsBefore: nat)
      returns (comparisons: nat, swaps: nat, swapped: bool)
    requires BubbleLoop(input, a[..], i, comparisonsBefore, swapsBefore) && i < a.Length
    modifies a
    ensures (a[..], swapped) == PassFrom(old(a[..]), 0, a.Length - i - 1, false)
    ensures comparisons == comparisonsBefore + (a.Length - i - 1)
    ensures swapped ==> BubbleLoop(input, a[..], i + 1, comparisons, swaps)
    ensures !swapped ==> BubbleOutcome(input, a[..], comparisons, swaps) && comparisons == BubbleComparisons(input, 0)
  {
    ghost var cur := a[..];
    var c, s;
    c, s, swapped := BubblePass(a, a.Length - i - 1);
    BubbleRound(input, cur, a[..], i, comparisonsBefore, swapsBefore, s, swapped);
    comparisons, swaps := comparisonsBefore + c, swapsBefore + s;
  }

  /** bubble_sort: passes over a shrinking prefix, each carrying the largest value
      of the prefix to its end, until a pass makes no exchange. Every swap removes one
      inversion, so the swaps are the inversions of the input; an ascending input is
      left as it is after one pass of n - 1 comparisons. */
  method BubbleSort(a: array<int>) returns (comparisons: nat, swaps: nat)
    modifies a
    ensures BubbleOutcome(old(a[..]), a[..], comparisons, swaps)
    ensures comparisons == BubbleComparisons(old(a[..]), 0)
  {
    var n := a.Length;
    ghost var input := a[..];
    comparisons, swaps := 0, 0;
    var i := 0;
    while i < n
      invariant BubbleLoop(input, a[..], i, comparisons, swaps)
    {
      var swapped;
      comparisons, swaps, swapped := BubbleRoundStep(a, i, input, comparisons, swaps);
      if !swapped {
        break;
      }
      i := i + 1;
    }
    if i == n {
      BubbleDone(input, a[..], comparisons, swaps);
    }
  }

  // -------------------------------------------------------------------- merge sort

  /** A fresh copy of a[from..to], as the slices arr[:mid] and arr[mid:] make. */
  method CopyRange(a: array<int>, from: int, to: int) returns (b: array<int>)
    requires 0 <= from <= to <= a.Length
    ensures fresh(b) && b.Length == to - from && b[..] == a[from..to]
  {
    b := new int[to - from];
    var k := 0;
    while k < to - from
      invariant 0 <= k <= to - from
      invariant b[..k] == a[from..from + k]
    {
      b[k] := a[from + k];
      k := k + 1;
    }
  }

  /** The state of the merge loop after writing `done` with i elements taken from
      the left half and j from the right: what is written, followed by the merge of
      what is left, is the whole merge, and likewise for the comparisons. */
  predicate MergeProgress(left: seq<int>, right: seq<int>, done: seq<int>, i: int, j: int, comparisons: int) {
    0 <= i <= |left| && 0 <= j <= |right| && |done| == i + j &&
    done + Merged(left[i..], right[j..]) == Merged(left, right) &&
    comparisons + MergeComparisons(left[i..], right[j..]) == MergeComparisons(left, right)
  }

  /** One step of the merge loop writes the smaller lead element, the right one on
      a tie, and makes one comparison. */
  lemma MergeStep(left: seq<int>, right: seq<int>, done: seq<int>, next: seq<int>, i: int, j: int,
                  comparisons: int)
    requires MergeProgress(left, right, done, i, j, comparisons) && i < |left| && j < |right|
    requires next == done + [if left[i] < right[j] then left[i] else right[j]]
    ensures left[i] < right[j] ==> MergeProgress(left, right, next, i + 1, j, comparisons + 1)
    ensures left[i] >= right[j] ==> MergeProgress(left, right, next, i, j + 1, comparisons + 1)
  {
    var l, r := left[i..], right[j..];
    assert l[0] == left[i] && l[1..] == left[i + 1..];
    assert r[0] == right[j] && r[1..] == right[j + 1..];
    MergedLead(l, r);
    if left[i] < right[j] {
      ConcatAssociative(done, [left[i]], Merged(l[1..], r));
    } else {
      ConcatAssociative(done, [right[j]], Merged(l, r[1..]));
    }
  }

  lemma ConcatAssociative(x: seq<int>, y: seq<int>, z: seq<int>)
    ensures x + (y + z) == (x + y) + z
  {
  }

  /** Once one half is used up, the merge is what was written followed by the rest of
      both halves, one of them empty, and no comparisons are left. */
  lemma MergeFinish(left: seq<int>, right: seq<int>, done: seq<int>, i: int, j: int, comparisons: int)
    requires MergeProgress(left, right, done, i, j, comparisons) && (i == |left| || j == |right|)
    ensures done + left[i..] + right[j..] == Merged(left, right)
    ensures comparisons == MergeComparisons(left, right)
  {
    if i == |left| {
      assert left[i..] == [];
    } else {
      assert right[j..] == [];
    }
  }

  /** The copy loops at the end of the merge: the rest of `src` from `from` on is
      written to a[k..], one movement per element. */
  method CopyRest(a: array<int>, k: int, src: array<int>, from: int) returns (moved: nat)
    requires a != src && 0 <= from <= src.Length && 0 <= k && k + (src.Length - from) <= a.Length
    modifies a
    ensures moved == src.Length - from
    ensures a[..k + moved] == old(a[..k]) + src[from..]
    ensures a[k + moved..] == old(a[k + moved..])
  {
    var i, p := from, k;
    moved := 0;
    while i < src.Length
      invariant from <= i <= src.Length && p == k + (i - from) && moved == i - from
      invariant a[..p] == old(a[..k]) + src[from..i]
      invariant forall q :: p <= q < a.Length ==> a[q] == old(a[q])
    {
      a[p] := src[i];
      assert src[from..i + 1] == src[from..i] + [src[i]];
      i, p, moved := i + 1, p + 1, moved + 1;
    }
    assert src[from..i] == src[from..];
  }

  /** One pass of merge's main loop: writes the smaller lead element, the right one
      on a tie, at position i + j and moves past it. */
  method MergeVisit(a: array<int>, left: array<int>, right: array<int>, i: int, j: int, k: int, comparisons: nat,
                    ghost l: seq<int>, ghost r: seq<int>)
    returns (i': int, j': int)
    requires a != left && a != right && l == left[..] && r == right[..] && a.Length == left.Length + right.Length
    requires 0 <= i < left.Length && 0 <= j < right.Length && k == i + j
    requires MergeProgress(l, r, a[..k], i, j, comparisons)
    modifies a
    ensures if l[i] < r[j] then i' == i + 1 && j' == j && a[..] == old(a[..])[k := l[i]]
            else i' == i && j' == j + 1 && a[..] == old(a[..])[k := r[j]]
    ensures MergeProgress(l, r, a[..k + 1], i', j', comparisons + 1)
  {
    ghost var done := a[..k];
    if left[i] < right[j] {
      a[k] := left[i];
      i', j' := i + 1, j;
    } else {
      a[k] := right[j];
      i', j' := i, j + 1;
    }
    assert a[..k + 1] == done + [a[k]];
    MergeStep(l, r, done, a[..k + 1], i, j, comparisons);
  }

  /** The merge step of merge_sort: writes the merge of the sorted halves into `a`,
      one comparison per element written while both halves last, one movement per
      element. */
  method MergeInto(a: array<int>, left: array<int>, right: array<int>) returns (comparisons: nat, movements: nat)
    requires a != left && a != right && a.Length == left.Length + right.Length
    modifies a
    ensures a[..] == Merged(left[..], right[..])
    ensures comparisons == MergeComparisons(left[..], right[..])
    ensures movements == a.Length
  {
    ghost var l, r := left[..], right[..];
    var i, j, k := 0, 0, 0;
    comparisons, movements := 0, 0;
    assert l[0..] == l && r[0..] == r;
    while i < left.Length && j < right.Length
      invariant 0 <= i <= left.Length && 0 <= j <= right.Length && k == i + j && movements == k
      invariant l == left[..] && r == right[..]
      invariant MergeProgress(l, r, a[..k], i, j, comparisons)
    {
      i, j := MergeVisit(a, left, right, i, j, k, comparisons, l, r);
      comparisons, movements := comparisons + 1, movements + 1;
      k := k + 1;
    }
    MergeFinish(l, r, a[..k], i, j, comparisons);
    ghost var done := a[..k];
    var m := CopyRest(a, k, left, i);
    k := k + m;
    ghost var withLeft := a[..k];
    m := CopyRest(a, k, right, j);
    k := k + m;
    movements := k;
    assert a[..] == a[..k] == withLeft + r[j..] == done + l[i..] + r[j..];
  }

  /** The first half of merge_sort's recursive case: copies of the two halves
      split at len // 2, each sorted by a recursive call, with the counts of both
      calls added up. The input array is not changed. */
  method SortHalves(a: array<int>) returns (left: array<int>, right: array<int>, comparisons: nat, movements: nat)
    requires a.Length > 1
    ensures fresh(left) && fresh(right) && left != right
    ensures left[..] == MergeSorted(a[..a.Length / 2]) && right[..] == MergeSorted(a[a.Length / 2..])
    ensures comparisons == MergeSortComparisons(a[..a.Length / 2]) + MergeSortComparisons(a[a.Length / 2..])
    ensures movements == MergeMoves(a.Length / 2) + MergeMoves(a.Length - a.Length / 2)
    decreases a.Length, 0
  {
    var mid := a.Length / 2;
    left := CopyRange(a, 0, mid);
    right := CopyRange(a, mid, a.Length);
    assert right[..] == a[mid..];
    ghost var movesLeftSpec, movesRightSpec := MergeMoves(mid), MergeMoves(a.Length - mid);
    var comparisonsLeft, movesLeft := MergeSort(left);
    assert movesLeft == movesLeftSpec;
    ghost var sortedLeft := left[..];
    var comparisonsRight, movesRight := MergeSort(right);
    assert movesRight == movesRightSpec;
    assert left[..] == sortedLeft;
    comparisons := comparisonsLeft + comparisonsRight;
    movements := movesLeft + movesRight;
  }

  /** merge_sort: copies the two halves split at len // 2, sorts each copy, and
      merges them back. The result and the comparison count are those of the
      recursive definition; the movements are one per element per level. */
  method MergeSort(a: array<int>) returns (comparisons: nat, movements: nat)
    modifies a
    ensures a[..] == MergeSorted(old(a[..]))
    ensures comparisons == MergeSortComparisons(old(a[..]))
    ensures movements == MergeMoves(a.Length)
    ensures a.Length <= 1 ==> a[..] == old(a[..]) && comparisons == 0 && movements == 0
    decreases a.Length, 1
  {
    comparisons, movements := 0, 0;
    if a.Length > 1 {
      var left, right, comparisonsHalves, movesHalves := SortHalves(a);
      var c, m := MergeInto(a, left, right);
      comparisons, movements := comparisonsHalves + c, movesHalves + m;
    }
  }

  // --------------------------------------------------------------------- quicksort

  /** Cells outside low..high are as in `orig`. */
  predicate SameOutside(orig: seq<int>, cur: seq<int>, low: int, high: int) {
    |cur| == |orig| && forall k :: 0 <= k < |cur| && (k < low || high < k) ==> cur[k] == orig[k]
  }

  /** What _partition leaves behind, with `orig` the array before it: the old
      a[high] (the pivot) at `pivotIndex`, the values at most the pivot before it,
      the greater ones after it, nothing moved outside low..high, and `pivotIndex`
      offset from `low` by the number of values at most the pivot. When every value
      was at most the pivot, nothing moved at all. */
  predicate Partitioned(orig: seq<int>, cur: seq<int>, low: int, high: int, pivotIndex: int)
    requires 0 <= low <= pivotIndex <= high < |orig|
  {
    SameOutside(orig, cur, low, high) &&
    cur[pivotIndex] == orig[high] &&
    (forall k :: low <= k < pivotIndex ==> cur[k] <= orig[high]) &&
    (forall k :: pivotIndex < k <= high ==> cur[k] > orig[high]) &&
    multiset(cur) == multiset(orig) &&
    pivotIndex - low == CountAtMost(orig[low..high], orig[high]) &&
    (pivotIndex == high ==> cur == orig)
  }

  /** The state of _partition's loop before position j: a[low..i + 1] holds the
      values at most the pivot seen so far, a[i + 1..j] the greater ones, the rest is
      untouched, and one swap has been counted per value at most the pivot. While no
      greater value has been seen every swap exchanged a cell with itself. */
  predicate PartitionProgress(orig: seq<int>, cur: seq<int>, low: int, high: int, i: int, j: int, swaps: int)
    requires 0 <= low <= j <= high < |orig| && low - 1 <= i < j
  {
    |cur| == |orig| && (forall k :: 0 <= k < |cur| && (k < low || j <= k) ==> cur[k] == orig[k]) &&
    (forall k :: low <= k <= i ==> cur[k] <= orig[high]) &&
    (forall k :: i < k < j ==> cur[k] > orig[high]) &&
    multiset(cur) == multiset(orig) &&
    i + 1 - low == CountAtMost(orig[low..j], orig[high]) && swaps == i + 1 - low &&
    (i == j - 1 ==> cur == orig)
  }

  lemma CountAtMostExtend(s: seq<int>, low: int, j: int, x: int)
    requires 0 <= low <= j < |s|
    ensures CountAtMost(s[low..j + 1], x) == CountAtMost(s[low..j], x) + (if s[j] <= x then 1 else 0)
  {
    assert s[low..j + 1][..j - low] == s[low..j];
  }

  /** An iteration of _partition's loop that meets a value at most the pivot swaps
      it to the end of the low part. */
  lemma PartitionTake(orig: seq<int>, cur: seq<int>, low: int, high: int, i: int, j: int, swaps: int)
    requires 0 <= low <= j < high < |orig| && low - 1 <= i < j
    requires PartitionProgress(orig, cur, low, high, i, j, swaps) && cur[j] <= orig[high]
    ensures PartitionProgress(orig, cur[i + 1 := cur[j]][j := cur[i + 1]], low, high, i + 1, j + 1, swaps + 1)
  {
    var next := cur[i + 1 := cur[j]][j := cur[i + 1]];
    CountAtMostExtend(orig, low, j, orig[high]);
    ExchangeMultiset(cur, i + 1, j);
    if i + 1 == j {
      assert next == cur;
    }
  }

  /** An iteration of _partition's loop that meets a value above the pivot only
      extends the high part. */
  lemma PartitionSkip(orig: seq<int>, cur: seq<int>, low: int, high: int, i: int, j: int, swaps: int)
    requires 0 <= low <= j < high < |orig| && low - 1 <= i < j
    requires PartitionProgress(orig, cur, low, high, i, j, swaps) && cur[j] > orig[high]
    ensures PartitionProgress(orig, cur, low, high, i, j + 1, swaps)
  {
    CountAtMostExtend(orig, low, j, orig[high]);
  }

  /** An arrangement of the array with an index into it. */
  datatype Arrangement = Arrangement(arr: seq<int>, index: int)

  /** The rest of _partition's loop from position j on, as a value: with the values
      at most `pivot` met so far in a[..i + 1], each later a[j] at most the pivot is
      swapped to just after them. The result is the array when the loop ends, and
      the final i, which stays below `high`. */
  function Scan(s: seq<int>, pivot: int, high: int, i: int, j: int): (r: Arrangement)
    requires -1 <= i < j <= high < |s|
    ensures |r.arr| == |s| && i <= r.index < high
    decreases high - j
  {
    if j == high then Arrangement(s, i)
    else if s[j] <= pivot then Scan(s[i + 1 := s[j]][j := s[i + 1]], pivot, high, i + 1, j + 1)
    else Scan(s, pivot, high, i, j + 1)
  }

  /** _partition on a[low..high] as a value, with the last element as pivot: the
      array it leaves behind and the index where the pivot ends up. */
  function PartitionOf(s: seq<int>, low: int, high: int): (r: Arrangement)
    requires 0 <= low <= high < |s|
    ensures |r.arr| == |s| && low <= r.index <= high
  {
    var scanned := Scan(s, s[high], high, low - 1, low);
    var t, i := scanned.arr, scanned.index;
    Arrangement(t[i + 1 := t[high]][high := t[i + 1]], i + 1)
  }

  /** The scan keeps the invariant of _partition's loop up to its end, where it
      leaves `rest`. */
  lemma {:induction false} ScanProgress(orig: seq<int>, cur: seq<int>, low: int, high: int, i: int, j: int,
                                        swaps: int, rest: Arrangement)
    requires 0 <= low <= j <= high < |orig| && low - 1 <= i < j
    requires PartitionProgress(orig, cur, low, high, i, j, swaps) && Scan(cur, orig[high], high, i, j) == rest
    ensures PartitionProgress(orig, rest.arr, low, high, rest.index, high, swaps + (rest.index - i))
    decreases high - j
  {
    if j < high {
      if cur[j] <= orig[high] {
        PartitionTake(orig, cur, low, high, i, j, swaps);
        ScanProgress(orig, cur[i + 1 := cur[j]][j := cur[i + 1]], low, high, i + 1, j + 1, swaps + 1, rest);
      } else {
        PartitionSkip(orig, cur, low, high, i, j, swaps);
        ScanProgress(orig, cur, low, high, i, j + 1, swaps, rest);
      }
    }
  }

  /** The whole scan of _partition's loop ends in the loop's invariant at j == high. */
  lemma ScanComplete(s: seq<int>, low: int, high: int)
    requires 0 <= low <= high < |s|
    ensures var scanned := Scan(s, s[high], high, low - 1, low);
            PartitionProgress(s, scanned.arr, low, high, scanned.index, high, scanned.index + 1 - low)
  {
    assert s[low..low] == [];
    ScanProgress(s, s, low, high, low - 1, low, 0, Scan(s, s[high], high, low - 1, low));
  }

  /** What _partition computes is a partition around the old a[high]. */
  lemma PartitionOfPartitioned(s: seq<int>, low: int, high: int)
    requires 0 <= low <= high < |s|
    ensures var r := PartitionOf(s, low, high); Partitioned(s, r.arr, low, high, r.index)
  {
    var r := PartitionOf(s, low, high);
    var scanned := Scan(s, s[high], high, low - 1, low);
    var t, i := scanned.arr, scanned.index;
    assert r.arr == t[i + 1 := t[high]][high := t[i + 1]] && r.index == i + 1;
    ScanComplete(s, low, high);
    PartitionFinish(s, t, low, high, i, i + 1 - low);
  }

  /** PartitionOfPartitioned for a name given to the result of PartitionOf. */
  lemma PartitionedAt(s: seq<int>, low: int, high: int, r: Arrangement)
    requires 0 <= low <= high < |s| && r == PartitionOf(s, low, high)
    ensures Partitioned(s, r.arr, low, high, r.index)
  {
    PartitionOfPartitioned(s, low, high);
  }

  /** One iteration of _partition's loop: a[j] is compared with the pivot a[high]
      and, when at most the pivot, swapped to the end of the low part and counted. */
  method PartitionVisit(a: array<int>, low: int, high: int, pivot: int, i: int, j: int, swaps: nat,
                        ghost rest: Arrangement) returns (i': int, swaps': nat)
    requires 0 <= low <= j < high < a.Length && low - 1 <= i < j
    requires Scan(a[..], pivot, high, i, j) == rest
    modifies a
    ensures if old(a[j]) <= pivot
            then i' == i + 1 && a[..] == old(a[..])[i + 1 := old(a[j])][j := old(a[i + 1])]
            else i' == i && a[..] == old(a[..])
    ensures swaps' == swaps + (i' - i)
    ensures Scan(a[..], pivot, high, i', j + 1) == rest
  {
    i', swaps' := i, swaps;
    if a[j] <= pivot {
      i' := i + 1;
      Exchange(a, i', j);
      swaps' := swaps + 1;
    }
  }

  /** The final swap of _partition puts the pivot between the two parts. */
  lemma PartitionFinish(orig: seq<int>, cur: seq<int>, low: int, high: int, i: int, swaps: int)
    requires 0 <= low <= high < |orig| && low - 1 <= i < high
    requires PartitionProgress(orig, cur, low, high, i, high, swaps)
    ensures low <= i + 1 <= high && Partitioned(orig, cur[i + 1 := cur[high]][high := cur[i + 1]], low, high, i + 1)
  {
    ExchangeMultiset(cur, i + 1, high);
  }

  /** The loop of _partition: scans a[low..high] against the pivot a[high], one
      comparison per element and one swap per element at most the pivot. */
  method PartitionScan(a: array<int>, low: int, high: int) returns (i: int, comparisons: nat, swaps: nat)
    requires 0 <= low <= high < a.Length
    modifies a
    ensures Scan(old(a[..]), old(a[high]), high, low - 1, low) == Arrangement(a[..], i)
    ensures comparisons == high - low && swaps == i + 1 - low
  {
    ghost var rest := Scan(a[..], a[high], high, low - 1, low);
    var pivot := a[high];
    i := low - 1;
    comparisons, swaps := 0, 0;
    var j := low;
    while j < high
      invariant low <= j <= high && low - 1 <= i < j
      invariant Scan(a[..], pivot, high, i, j) == rest
      invariant comparisons == j - low && swaps == i + 1 - low
    {
      comparisons := comparisons + 1;
      i, swaps := PartitionVisit(a, low, high, pivot, i, j, swaps, rest);
      j := j + 1;
    }
  }

  /** _partition with the last element as pivot (Lomuto's scheme): it computes
      PartitionOf, which partitions the range around the pivot; one comparison per
      element of a[low..high], one swap per element at most the pivot, and one more
      for placing the pivot. */
  method Partition(a: array<int>, low: int, high: int) returns (pivotIndex: int, comparisons: nat, swaps: nat)
    requires 0 <= low <= high < a.Length
    modifies a
    ensures PartitionOf(old(a[..]), low, high) == Arrangement(a[..], pivotIndex)
    ensures low <= pivotIndex <= high && Partitioned(old(a[..]), a[..], low, high, pivotIndex)
    ensures comparisons == high - low && swaps == 1 + (pivotIndex - low)
  {
    ghost var orig := a[..];
    var i;
    i, comparisons, swaps := PartitionScan(a, low, high);
    Exchange(a, i + 1, high);
    swaps := swaps + 1;
    pivotIndex := i + 1;
    PartitionedAt(orig, low, high, Arrangement(a[..], pivotIndex));
  }

  /** What _quicksort_recursive leaves behind on a[low..high] (both ends included):
      that stretch sorted and a permutation of what it was, all else unchanged. */
  predicate RangeSorted(orig: seq<int>, cur: seq<int>, low: int, high: int)
    requires 0 <= low <= high + 1 <= |orig|
  {
    SameOutside(orig, cur, low, high) &&
    multiset(cur[low..high + 1]) == multiset(orig[low..high + 1]) && Sorted(cur[low..high + 1])
  }

  /** The counts of _quicksort_recursive on the m elements of `segment`: nothing at
      all for at most one element; at most m(m - 1)/2 comparisons and at most one swap
      more per element than comparisons; and on sorted input, where every pivot is
      the largest value, the worst case exactly: the array `untouched`, m(m - 1)/2
      comparisons and 2 + 3 + ... + m swaps. */
  predicate QuickCounts(segment: seq<int>, untouched: bool, comparisons: int, swaps: int) {
    var m := |segment|;
    (m <= 1 ==> comparisons == 0 && swaps == 0) &&
    comparisons <= Pairs(m) && swaps <= comparisons + m &&
    (Sorted(segment) ==> untouched && comparisons == Pairs(m) && (m >= 1 ==> swaps + 1 == Pairs(m + 1)))
  }

  /** Sorting both sides of a partition sorts the whole range. */
  lemma QuickCombineSorted(orig: seq<int>, p: seq<int>, l: seq<int>, r: seq<int>, low: int, high: int, pi: int)
    requires 0 <= low <= pi <= high < |orig| && Partitioned(orig, p, low, high, pi)
    requires |l| == |p| == |orig| && RangeSorted(p, l, low, pi - 1) && RangeSorted(l, r, pi + 1, high)
    ensures RangeSorted(orig, r, low, high)
  {
    QuickCombinePermutation(orig, p, l, r, low, high, pi);
    QuickCombineOrder(orig, p, l, r, low, high, pi);
  }

  /** The values of the range are kept: the partition and both recursive calls
      only rearrange them. */
  lemma QuickCombinePermutation(orig: seq<int>, p: seq<int>, l: seq<int>, r: seq<int>, low: int, high: int, pi: int)
    requires 0 <= low <= pi <= high < |orig| && Partitioned(orig, p, low, high, pi)
    requires |l| == |p| == |orig| && RangeSorted(p, l, low, pi - 1) && RangeSorted(l, r, pi + 1, high)
    ensures SameOutside(orig, r, low, high)
    ensures multiset(r[low..high + 1]) == multiset(orig[low..high + 1])
  {
    assert p[..low] == orig[..low] && p[high + 1..] == orig[high + 1..];
    SegmentMultiset(p, orig, low, high);
    assert p[low..high + 1] == p[low..pi] + [p[pi]] + p[pi + 1..high + 1];
    assert r[low..high + 1] == r[low..pi] + [r[pi]] + r[pi + 1..high + 1];
    assert r[low..pi] == l[low..pi] && r[pi] == l[pi] == p[pi];
    assert l[pi + 1..high + 1] == p[pi + 1..high + 1];
  }

  /** The range is sorted: both sides are sorted, the left one holds the values at
      most the pivot and the right one the greater values. */
  lemma QuickCombineOrder(orig: seq<int>, p: seq<int>, l: seq<int>, r: seq<int>, low: int, high: int, pi: int)
    requires 0 <= low <= pi <= high < |orig| && Partitioned(orig, p, low, high, pi)
    requires |l| == |p| == |orig| && RangeSorted(p, l, low, pi - 1) && RangeSorted(l, r, pi + 1, high)
    ensures Sorted(r[low..high + 1])
  {
    var pivot := p[pi];
    assert r[low..high + 1] == r[low..pi] + [r[pi]] + r[pi + 1..high + 1];
    assert r[low..pi] == l[low..pi] && r[pi] == pivot;
    assert l[pi + 1..high + 1] == p[pi + 1..high + 1];
    assert AllAtMost(p[low..pi], pivot);
    PermutationBounds(p[low..pi], r[low..pi], pivot);
    assert AllAbove(p[pi + 1..high + 1], pivot);
    PermutationBounds(p[pi + 1..high + 1], r[pi + 1..high + 1], pivot);
    SortedAround(r[low..pi], pivot, r[pi + 1..high + 1]);
  }

  /** The count bounds of QuickCounts carry over from the two sides of a partition
      of m elements, mL to the left of the pivot and mR to its right. */
  lemma QuickCountsBound(m: int, mL: int, mR: int, cL: int, sL: int, cR: int, sR: int)
    requires 0 <= mL && 0 <= mR && mL + mR == m - 1
    requires cL <= Pairs(mL) && sL <= cL + mL
    requires cR <= Pairs(mR) && sR <= cR + mR
    ensures (m - 1) + cL + cR <= Pairs(m)
    ensures (1 + mL + sL + sR) <= ((m - 1) + cL + cR) + m
  {
    PairsSplit(mL, mR);
    assert Pairs(m) == (m - 1) + Pairs(m - 1);
  }

  /** On a sorted range the pivot is the largest value: every other value is at
      most it, so it stays where it is and nothing moves. */
  lemma QuickSortedPivot(orig: seq<int>, p: seq<int>, low: int, high: int, pi: int)
    requires 0 <= low <= pi <= high < |orig| && Partitioned(orig, p, low, high, pi)
    requires Sorted(orig[low..high + 1]) && low < high
    ensures pi == high && p == orig && Sorted(orig[low..high])
  {
    assert AllAtMost(orig[low..high], orig[high]) by {
      forall k | 0 <= k < high - low ensures orig[low..high][k] <= orig[high] {
        assert orig[low..high][k] == orig[low..high + 1][k] && orig[high] == orig[low..high + 1][high - low];
      }
    }
    CountAtMostAll(orig[low..high], orig[high]);
    assert Sorted(orig[low..high]) by {
      forall i, j | 0 <= i < j < high - low ensures orig[low..high][i] <= orig[low..high][j] {
        assert orig[low..high][i] == orig[low..high + 1][i] && orig[low..high][j] == orig[low..high + 1][j];
      }
    }
  }

  /** One call of _quicksort_recursive with low < high: the partition `p` of
      `orig` around `pi`, then both sides with outcomes `left` and `right`. */
  lemma QuickStep(orig: seq<int>, p: seq<int>, low: int, high: int, pi: int, left: Sorting, right: Sorting)
    requires 0 <= low <= pi <= high < |orig| && low < high && |left.result| == |p| == |orig|
    requires Partitioned(orig, p, low, high, pi)
    requires QuickOutcome(p, low, pi - 1, left) && QuickOutcome(left.result, pi + 1, high, right)
    ensures QuickOutcome(orig, low, high, Sorting(right.result, (high - low) + left.comparisons + right.comparisons,
                                                  1 + (pi - low) + left.swaps + right.swaps))
  {
    assert p[low..pi - 1 + 1] == p[low..pi];
    QuickCombineSorted(orig, p, left.result, right.result, low, high, pi);
    QuickStepCounts(orig, p, left.result, right.result, low, high, pi,
                    left.comparisons, left.swaps, right.comparisons, right.swaps);
  }

  /** The counts of a call of _quicksort_recursive on more than one element keep
      within QuickCounts when those of both sides do. */
  lemma QuickStepCounts(orig: seq<int>, p: seq<int>, l: seq<int>, r: seq<int>, low: int, high: int, pi: int,
                        cL: int, sL: int, cR: int, sR: int)
    requires 0 <= low <= pi <= high < |orig| && low < high && |l| == |p| == |orig|
    requires Partitioned(orig, p, low, high, pi)
    requires QuickCounts(p[low..pi], l == p, cL, sL) && QuickCounts(l[pi + 1..high + 1], r == l, cR, sR)
    ensures QuickCounts(orig[low..high + 1], r == orig, (high - low) + cL + cR, 1 + (pi - low) + sL + sR)
  {
    var m := high - low + 1;
    QuickCountsBound(m, pi - low, high - pi, cL, sL, cR, sR);
    if Sorted(orig[low..high + 1]) {
      QuickStepSorted(orig, p, l, r, low, high, pi, high - low, 1 + (pi - low), cL, sL, cR, sR);
    }
  }

  /** On sorted input a call of _quicksort_recursive leaves the range as it was and
      meets its worst case: the pivot stays last, the left side is the whole rest,
      still sorted, and the right side is empty. */
  lemma QuickStepSorted(orig: seq<int>, p: seq<int>, l: seq<int>, r: seq<int>, low: int, high: int, pi: int,
                        c: int, s: int, cL: int, sL: int, cR: int, sR: int)
    requires 0 <= low <= pi <= high < |orig| && low < high && |l| == |p| == |orig|
    requires Partitioned(orig, p, low, high, pi) && Sorted(orig[low..high + 1])
    requires c == high - low && s == 1 + (pi - low)
    requires QuickCounts(p[low..pi], l == p, cL, sL) && QuickCounts(l[pi + 1..high + 1], r == l, cR, sR)
    ensures r == orig
    ensures var m := high - low + 1; c + cL + cR == Pairs(m) && s + sL + sR + 1 == Pairs(m + 1)
  {
    var m := high - low + 1;
    QuickSortedPivot(orig, p, low, high, pi);
    assert p[low..pi] == orig[low..high];
    assert l == p;
    assert l[pi + 1..high + 1] == [];
    assert r == l;
    assert Pairs(m + 1) == m + Pairs(m) && Pairs(m) == (m - 1) + Pairs(m - 1);
  }

  /** The array and the counts a sorting routine leaves behind. */
  datatype Sorting = Sorting(result: seq<int>, comparisons: nat, swaps: nat)

  /** _quicksort_recursive on a[low..high] (both ends included) as a value: at most
      one element is left alone; otherwise the range is partitioned, the side left
      of the pivot sorted, then the side right of it, and the counts of the
      partition and of both sides added up. */
  function QuickSorting(s: seq<int>, low: int, high: int): (r: Sorting)
    requires 0 <= low <= high + 1 <= |s|
    ensures |r.result| == |s|
    decreases high + 1 - low
  {
    if low >= high then Sorting(s, 0, 0)
    else
      var p := PartitionOf(s, low, high);
      var left := QuickSorting(p.arr, low, p.index - 1);
      var right := QuickSorting(left.result, p.index + 1, high);
      Sorting(right.result, (high - low) + left.comparisons + right.comparisons,
              1 + (p.index - low) + left.swaps + right.swaps)
  }

  /** What _quicksort_recursive promises about `r`, its outcome on a[low..high] of
      `s`: the range sorted and a permutation of what it was, nothing outside it
      touched, and the counts within QuickCounts. */
  predicate QuickOutcome(s: seq<int>, low: int, high: int, r: Sorting)
    requires 0 <= low <= high + 1 <= |s|
  {
    RangeSorted(s, r.result, low, high) && QuickCounts(s[low..high + 1], r.result == s, r.comparisons, r.swaps)
  }

  /** What _quicksort_recursive achieves: the range sorted and a permutation of
      what it was, nothing outside it touched, and the counts within QuickCounts
      (exactly the worst case on sorted input, which is left as it was). */
  lemma {:induction false} QuickSortingSorts(s: seq<int>, low: int, high: int)
    requires 0 <= low <= high + 1 <= |s|
    ensures QuickOutcome(s, low, high, QuickSorting(s, low, high))
    decreases high + 1 - low
  {
    if low < high {
      var p := PartitionOf(s, low, high);
      var left := QuickSorting(p.arr, low, p.index - 1);
      var right := QuickSorting(left.result, p.index + 1, high);
      QuickSortingSorts(p.arr, low, p.index - 1);
      QuickSortingSorts(left.result, p.index + 1, high);
      QuickSortingStep(s, low, high, left, right);
      QuickSortingSplit(s, low, high);
    } else {
      QuickSortingBase(s, low, high);
    }
  }

  /** The inductive step of QuickSortingSorts: sorting both sides of the partition sorts the range. */
  lemma QuickSortingStep(s: seq<int>, low: int, high: int, left: Sorting, right: Sorting)
    requires 0 <= low < high < |s| && |left.result| == |s|
    requires var p := PartitionOf(s, low, high);
             QuickOutcome(p.arr, low, p.index - 1, left) && QuickOutcome(left.result, p.index + 1, high, right)
    ensures var p := PartitionOf(s, low, high);
            QuickOutcome(s, low, high, Sorting(right.result, (high - low) + left.comparisons + right.comparisons,
                                               1 + (p.index - low) + left.swaps + right.swaps))
  {
    var p := PartitionOf(s, low, high);
    PartitionedAt(s, low, high, p);
    QuickStep(s, p.arr, low, high, p.index, left, right);
  }

  /** A call on more than one element is its partition and the calls on both sides. */
  lemma QuickSortingSplit(s: seq<int>, low: int, high: int)
    requires 0 <= low < high < |s|
    ensures var p := PartitionOf(s, low, high);
            var left := QuickSorting(p.arr, low, p.index - 1);
            var right := QuickSorting(left.result, p.index + 1, high);
            QuickSorting(s, low, high) == Sorting(right.result, (high - low) + left.comparisons + right.comparisons,
                                                  1 + (p.index - low) + left.swaps + right.swaps)
  {
  }

  /** At most one element: nothing moves and nothing is counted. */
  lemma QuickSortingBase(s: seq<int>, low: int, high: int)
    requires 0 <= low <= high + 1 <= |s| && high <= low
    ensures QuickOutcome(s, low, high, QuickSorting(s, low, high))
  {
    assert QuickSorting(s, low, high) == Sorting(s, 0, 0);
    var m := |s[low..high + 1]|;
    assert m == 0 || m == 1;
  }

  /** On sorted input every pivot is the largest value of its range: quicksort leaves
      the array as it was and makes its worst-case n(n - 1)/2 comparisons. */
  lemma QuickSortingSortedInput(s: seq<int>)
    requires Sorted(s)
    ensures var r := QuickSorting(s, 0, |s| - 1); r.result == s && 2 * r.comparisons == |s| * (|s| - 1)
  {
    QuickSortingSorts(s, 0, |s| - 1);
    assert s[0..|s|] == s;
    PairsClosed(|s|);
  }

  /** _quicksort_recursive on a[low..high], both ends included: it computes
      QuickSorting, array and counts. */
  method QuicksortRange(a: array<int>, low: int, high: int) returns (comparisons: nat, swaps: nat)
    requires 0 <= low <= high + 1 <= a.Length
    modifies a
    ensures var r := QuickSorting(old(a[..]), low, high);
            a[..] == r.result && comparisons == r.comparisons && swaps == r.swaps
    decreases high + 1 - low, 1
  {
    comparisons, swaps := 0, 0;
    if low < high {
      ghost var orig := a[..];
      var pivotIndex, c, s := Partition(a, low, high);
      comparisons, swaps := QuickSides(a, low, high, pivotIndex, c, s, orig);
    }
  }

  /** The rest of a call of _quicksort_recursive once a[low..high] holds the
      partition of `orig` around `pivotIndex`, with the partition's counts given:
      both sides are sorted recursively, and the counts of the partition and of the
      two recursive calls are added up, which is QuickSorting on `orig`. */
  method QuickSides(a: array<int>, low: int, high: int, pivotIndex: int, comparisons0: nat, swaps0: nat,
                    ghost orig: seq<int>) returns (comparisons: nat, swaps: nat)
    requires 0 <= low <= high < a.Length == |orig| && low < high
    requires PartitionOf(orig, low, high) == Arrangement(a[..], pivotIndex)
    requires comparisons0 == high - low && swaps0 == 1 + (pivotIndex - low)
    modifies a
    ensures var r := QuickSorting(orig, low, high);
            a[..] == r.result && comparisons == r.comparisons && swaps == r.swaps
    decreases high + 1 - low, 0
  {
    var cL, sL := QuicksortRange(a, low, pivotIndex - 1);
    var cR, sR := QuicksortRange(a, pivotIndex + 1, high);
    comparisons, swaps := comparisons0 + cL + cR, swaps0 + sL + sR;
  }

  /** quicksort: _quicksort_recursive over the whole array, so QuickSorting on it,
      which sorts it and makes the counts QuickCounts allows. */
  method Quicksort(a: array<int>) returns (comparisons: nat, swaps: nat)
    modifies a
    ensures var r := QuickSorting(old(a[..]), 0, a.Length - 1);
            a[..] == r.result && comparisons == r.comparisons && swaps == r.swaps
    ensures Sorted(a[..]) && multiset(a[..]) == multiset(old(a[..]))
    ensures QuickCounts(old(a[..]), a[..] == old(a[..]), comparisons, swaps)
  {
    ghost var input := a[..];
    comparisons, swaps := QuicksortRange(a, 0, a.Length - 1);
    QuickSortingSorts(input, 0, a.Length - 1);
    assert a[..] == a[0..a.Length] && input == input[0..a.Length];
  }

  // ------------------------------------------------------------------ the registry

  /** The routines ALGORITHM_MAP registers. */
  datatype Algorithm = Insertion | Bubble | Merge | Quick

  /** ALGORITHM_MAP: the name each routine is registered under. */
  const AlgorithmMap: map<string, Algorithm> :=
    map["Insertion Sort" := Insertion, "Bubble Sort" := Bubble, "Merge Sort" := Merge, "Quicksort" := Quick]

  /** The name under which `alg` is registered. */
  function NameOf(alg: Algorithm): (name: string)
    ensures name in AlgorithmMap && AlgorithmMap[name] == alg
  {
    match alg
    case Insertion => "Insertion Sort"
    case Bubble => "Bubble Sort"
    case Merge => "Merge Sort"
    case Quick => "Quicksort"
  }

  /** Each routine is registered under one name only. */
  lemma RegisteredOnce(name: string)
    requires name in AlgorithmMap
    ensures NameOf(AlgorithmMap[name]) == name
  {
    assert name in {"Insertion Sort", "Bubble Sort", "Merge Sort", "Quicksort"};
  }

  /** The (comparisons, swaps) pair each registered routine returns for `input`. */
  predicate CountsFollow(alg: Algorithm, input: seq<int>, comparisons: int, swaps: int) {
    var n := |input|;
    match alg
    case Insertion =>
      swaps == Inversions(input) && comparisons == (if n == 0 then 0 else n - 1) + swaps
    case Bubble =>
      swaps == Inversions(input) && comparisons == BubbleComparisons(input, 0)
    case Merge =>
      comparisons == MergeSortComparisons(input) && swaps == MergeMoves(n)
    case Quick =>
      var r := QuickSorting(input, 0, n - 1);
      comparisons == r.comparisons && swaps == r.swaps
  }

  /** Calling the routine registered for `alg` on `a`: whichever it is, `a` ends up
      sorted and a permutation of what it was, with the counts that routine makes. */
  method Run(alg: Algorithm, a: array<int>) returns (comparisons: nat, swaps: nat)
    modifies a
    ensures Sorted(a[..]) && multiset(a[..]) == multiset(old(a[..]))
    ensures CountsFollow(alg, old(a[..]), comparisons, swaps)
  {
    match alg
    case Insertion =>
      comparisons, swaps := InsertionSort(a);
    case Bubble =>
      comparisons, swaps := BubbleSort(a);
    case Merge =>
      ghost var input := a[..];
      comparisons, swaps := MergeSort(a);
      MergeSortedAscending(input);
      MergeSortedPermutation(input);
    case Quick =>
      comparisons, swaps := Quicksort(a);
  }
}
