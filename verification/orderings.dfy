/** Order-related facts about integer sequences that the sorting routines are
    specified with: sortedness, counts relative to a pivot value, and inversions. */
module Orderings {

  /** `s` is in ascending order; equal neighbours are allowed. */
  predicate Sorted(s: seq<int>) {
    forall i, j :: 0 <= i < j < |s| ==> s[i] <= s[j]
  }

  /** Every element of `s` is at most `x`. */
  predicate AllAtMost(s: seq<int>, x: int) {
    forall k :: 0 <= k < |s| ==> s[k] <= x
  }

  /** Every element of `s` is strictly greater than `x`. */
  predicate AllAbove(s: seq<int>, x: int) {
    forall k :: 0 <= k < |s| ==> s[k] > x
  }

  /** Every element of `s` is at least `x`. */
  predicate AllAtLeast(s: seq<int>, x: int) {
    forall k :: 0 <= k < |s| ==> x <= s[k]
  }

  /** How many elements of `s` are strictly greater than `x`. */
  function CountGreater(s: seq<int>, x: int): (c: nat)
    ensures c <= |s|
  {
    if s == [] then 0
    else CountGreater(s[..|s| - 1], x) + (if s[|s| - 1] > x then 1 else 0)
  }

  /** How many elements of `s` are at most `x`. */
  function CountAtMost(s: seq<int>, x: int): (c: nat) {
    if s == [] then 0
    else CountAtMost(s[..|s| - 1], x) + (if s[|s| - 1] <= x then 1 else 0)
  }

  /** The number of inversions of `s`: pairs of positions i < j with s[i] > s[j].
      Each pair is counted at its later position j, against the prefix s[..j]. */
  function Inversions(s: seq<int>): (n: nat) {
    if s == [] then 0
    else Inversions(s[..|s| - 1]) + CountGreater(s[..|s| - 1], s[|s| - 1])
  }

  lemma {:induction false} CountGreaterConcat(s: seq<int>, t: seq<int>, x: int)
    ensures CountGreater(s + t, x) == CountGreater(s, x) + CountGreater(t, x)
    decreases |t|
  {
    if t == [] {
      assert s + t == s;
    } else {
      var t' := t[..|t| - 1];
      assert (s + t)[..|s + t| - 1] == s + t';
      CountGreaterConcat(s, t', x);
    }
  }

  /** Removing position `k` takes that element out of the count and changes nothing else. */
  lemma CountGreaterRemove(t: seq<int>, k: int, x: int)
    requires 0 <= k < |t|
    ensures CountGreater(t, x) == CountGreater(t[..k] + t[k + 1..], x) + (if t[k] > x then 1 else 0)
  {
    assert t == t[..k] + ([t[k]] + t[k + 1..]);
    CountGreaterConcat(t[..k], [t[k]] + t[k + 1..], x);
    CountGreaterConcat([t[k]], t[k + 1..], x);
    CountGreaterConcat(t[..k], t[k + 1..], x);
    assert [t[k]][..0] == [];
  }

  lemma MultisetRemove(t: seq<int>, k: int)
    requires 0 <= k < |t|
    ensures multiset(t[..k] + t[k + 1..]) == multiset(t) - multiset{t[k]}
  {
    assert t == t[..k] + [t[k]] + t[k + 1..];
  }

  /** `CountGreater` depends only on the multiset of the elements. */
  lemma {:induction false} CountGreaterPermutation(s: seq<int>, t: seq<int>, x: int)
    requires multiset(s) == multiset(t)
    ensures CountGreater(s, x) == CountGreater(t, x)
    decreases |s|
  {
    if s == [] {
      assert |t| == |multiset(t)| == 0;
    } else {
      var n := |s|;
      var last := s[n - 1];
      assert last in multiset(s);
      assert last in t;
      var k :| 0 <= k < |t| && t[k] == last;
      MultisetRemove(s, n - 1);
      MultisetRemove(t, k);
      assert s[..n - 1] + s[n..] == s[..n - 1];
      CountGreaterPermutation(s[..n - 1], t[..k] + t[k + 1..], x);
      CountGreaterRemove(t, k, x);
    }
  }

  /** No element exceeds `x` exactly when `CountGreater` is zero. */
  lemma {:induction false} CountGreaterZero(s: seq<int>, x: int)
    ensures CountGreater(s, x) == 0 <==> AllAtMost(s, x)
    decreases |s|
  {
    if s != [] {
      CountGreaterZero(s[..|s| - 1], x);
    }
  }

  /** Every element exceeds `x` exactly when `CountGreater` counts all of them. */
  lemma {:induction false} CountGreaterAll(s: seq<int>, x: int)
    ensures CountGreater(s, x) == |s| <==> AllAbove(s, x)
    decreases |s|
  {
    if s != [] {
      CountGreaterAll(s[..|s| - 1], x);
    }
  }

  /** A sequence is sorted exactly when it has no inversion. */
  lemma {:induction false} SortedIffNoInversions(s: seq<int>)
    ensures Sorted(s) <==> Inversions(s) == 0
    decreases |s|
  {
    if s != [] {
      var s' := s[..|s| - 1];
      var last := s[|s| - 1];
      SortedIffNoInversions(s');
      CountGreaterZero(s', last);
      if Sorted(s) {
        assert Sorted(s');
        assert AllAtMost(s', last);
      }
      if Inversions(s) == 0 {
        assert Sorted(s') && AllAtMost(s', last);
        forall i, j | 0 <= i < j < |s| ensures s[i] <= s[j] {
          if j < |s| - 1 {
            assert s[i] == s'[i] && s[j] == s'[j];
          } else {
            assert s[i] == s'[i];
          }
        }
      }
    }
  }

  /** At most n(n-1)/2 pairs of n elements can be inverted. */
  lemma {:induction false} InversionsBound(s: seq<int>)
    ensures 2 * Inversions(s) <= |s| * (|s| - 1)
    decreases |s|
  {
    if s != [] {
      var n := |s|;
      InversionsBound(s[..n - 1]);
      assert (n - 1) * (n - 2) + 2 * (n - 1) == n * (n - 1);
    }
  }

  /** Exchanging two cells keeps the multiset of values. */
  lemma ExchangeMultiset(s: seq<int>, i: int, j: int)
    requires 0 <= i < |s| && 0 <= j < |s|
    ensures multiset(s[i := s[j]][j := s[i]]) == multiset(s)
  {
  }

  /** Exchanging the last two elements, when inverted, removes exactly one inversion. */
  lemma InversionsSwapLast(s: seq<int>, j: int)
    requires |s| == j + 2 && j >= 0 && s[j] > s[j + 1]
    ensures Inversions(s[j := s[j + 1]][j + 1 := s[j]]) + 1 == Inversions(s)
  {
    var t := s[j := s[j + 1]][j + 1 := s[j]];
    var prefix := s[..j];
    var x, y := s[j], s[j + 1];
    assert s[..j + 1] == prefix + [x] && t[..j + 1] == prefix + [y];
    assert (prefix + [x])[..j] == prefix && (prefix + [y])[..j] == prefix;
    assert CountGreater(prefix + [x], y) == CountGreater(prefix, y) + 1;
    assert CountGreater(prefix + [y], x) == CountGreater(prefix, x);
  }

  /** Exchanging an adjacent inverted pair removes exactly one inversion. */
  lemma {:induction false} InversionsAdjacentSwap(s: seq<int>, j: int)
    requires 0 <= j < |s| - 1 && s[j] > s[j + 1]
    ensures Inversions(s[j := s[j + 1]][j + 1 := s[j]]) + 1 == Inversions(s)
    decreases |s|
  {
    var n := |s|;
    if n == j + 2 {
      InversionsSwapLast(s, j);
    } else {
      var t := s[j := s[j + 1]][j + 1 := s[j]];
      var s' := s[..n - 1];
      assert t[..n - 1] == s'[j := s'[j + 1]][j + 1 := s'[j]];
      InversionsAdjacentSwap(s', j);
      ExchangeMultiset(s', j, j + 1);
      InversionsSameLast(s, t);
    }
  }

  /** Two sequences that end in the same element and whose other elements agree as a
      multiset differ in inversions only as their prefixes do. */
  lemma InversionsSameLast(s: seq<int>, t: seq<int>)
    requires |s| == |t| > 0 && s[|s| - 1] == t[|t| - 1]
    requires multiset(s[..|s| - 1]) == multiset(t[..|t| - 1])
    ensures Inversions(s) - Inversions(s[..|s| - 1]) == Inversions(t) - Inversions(t[..|t| - 1])
  {
    CountGreaterPermutation(s[..|s| - 1], t[..|t| - 1], s[|s| - 1]);
  }

  /** Extending a prefix by one element adds that element's inversions against the
      prefix. */
  lemma PrefixExtend(s: seq<int>, i: int)
    requires 0 <= i < |s|
    ensures multiset(s[..i + 1]) == multiset(s[..i]) + multiset{s[i]}
    ensures Inversions(s[..i + 1]) == Inversions(s[..i]) + CountGreater(s[..i], s[i])
  {
    var t := s[..i + 1];
    assert t == s[..i] + [s[i]];
    assert t[..i] == s[..i];
  }

  /** A bound on every element survives any rearrangement. */
  lemma PermutationBounds(s: seq<int>, t: seq<int>, x: int)
    requires multiset(s) == multiset(t)
    ensures AllAtMost(s, x) ==> AllAtMost(t, x)
    ensures AllAbove(s, x) ==> AllAbove(t, x)
    ensures AllAtLeast(s, x) ==> AllAtLeast(t, x)
  {
    forall k | 0 <= k < |t| ensures t[k] in s {
      assert t[k] in multiset(s);
    }
  }

  /** The elements at most `x` and those above it together make up `s`. */
  lemma {:induction false} CountAtMostComplement(s: seq<int>, x: int)
    ensures CountAtMost(s, x) + CountGreater(s, x) == |s|
    decreases |s|
  {
    if s != [] {
      CountAtMostComplement(s[..|s| - 1], x);
    }
  }

  /** A sorted run at most `x`, then `x`, then a sorted run above `x` is sorted. */
  lemma SortedAround(l: seq<int>, x: int, r: seq<int>)
    requires Sorted(l) && Sorted(r) && AllAtMost(l, x) && AllAbove(r, x)
    ensures Sorted(l + [x] + r)
  {
    var s := l + [x] + r;
    forall i, j | 0 <= i < j < |s| ensures s[i] <= s[j] {
      if j < |l| {
        assert s[i] == l[i] && s[j] == l[j];
      } else if i > |l| {
        assert s[i] == r[i - |l| - 1] && s[j] == r[j - |l| - 1];
      } else if i < |l| {
        assert s[i] == l[i] <= x;
        assert s[j] == x || s[j] == r[j - |l| - 1];
      } else {
        assert s[i] == x;
        assert s[j] == r[j - |l| - 1];
      }
    }
  }

  /** Cells outside s[low..high + 1] agree, and the whole sequences are permutations
      of each other: then so are the stretches s[low..high + 1]. */
  lemma SegmentMultiset(s: seq<int>, t: seq<int>, low: int, high: int)
    requires 0 <= low <= high + 1 <= |s| == |t| && multiset(s) == multiset(t)
    requires s[..low] == t[..low] && s[high + 1..] == t[high + 1..]
    ensures multiset(s[low..high + 1]) == multiset(t[low..high + 1])
  {
    assert s == s[..low] + s[low..high + 1] + s[high + 1..];
    assert t == t[..low] + t[low..high + 1] + t[high + 1..];
    var outside := multiset(s[..low]) + multiset(s[high + 1..]);
    assert multiset(s) == multiset(s[low..high + 1]) + outside;
    assert multiset(t) == multiset(t[low..high + 1]) + outside;
    assert multiset(s[low..high + 1]) == multiset(s) - outside;
    assert multiset(t[low..high + 1]) == multiset(t) - outside;
  }

  /** When every element is at most `x`, all of them are counted by CountAtMost. */
  lemma CountAtMostAll(s: seq<int>, x: int)
    requires AllAtMost(s, x)
    ensures CountAtMost(s, x) == |s|
  {
    CountGreaterZero(s, x);
    CountAtMostComplement(s, x);
  }

  /** The last element of a sorted sequence is its largest. */
  lemma SortedLastMax(s: seq<int>, v: int)
    requires Sorted(s) && v in multiset(s)
    ensures v <= s[|s| - 1]
  {
    var k :| 0 <= k < |s| && s[k] == v;
  }

  /** Dropping the last element of a sequence removes it from its multiset and
      keeps it sorted. */
  lemma DropLast(s: seq<int>)
    requires s != []
    ensures multiset(s[..|s| - 1]) == multiset(s) - multiset{s[|s| - 1]}
    ensures Sorted(s) ==> Sorted(s[..|s| - 1])
  {
    assert s == s[..|s| - 1] + [s[|s| - 1]];
  }

  /** A sorted sequence is determined by its multiset of values: any two sorting
      routines that return a sorted permutation of the same input agree. */
  lemma {:induction false} SortedUnique(s: seq<int>, t: seq<int>)
    requires Sorted(s) && Sorted(t) && multiset(s) == multiset(t)
    ensures s == t
    decreases |s|
  {
    assert |s| == |multiset(s)| == |multiset(t)| == |t|;
    if s != [] {
      var n := |s|;
      SortedLastMax(t, s[n - 1]);
      SortedLastMax(s, t[n - 1]);
      var x := s[n - 1];
      assert t[n - 1] == x;
      DropLast(s);
      DropLast(t);
      var s', t' := s[..n - 1], t[..n - 1];
      assert multiset(s') == multiset(t');
      SortedUnique(s', t');
      assert s == s' + [x];
      assert t == t' + [x];
    }
  }

  /** A strictly decreasing sequence has every pair inverted: n(n - 1)/2 inversions. */
  lemma {:induction false} DecreasingInversions(s: seq<int>)
    requires forall i, j :: 0 <= i < j < |s| ==> s[i] > s[j]
    ensures 2 * Inversions(s) == |s| * (|s| - 1)
    decreases |s|
  {
    if s != [] {
      var n := |s|;
      var p := s[..n - 1];
      DecreasingInversions(p);
      assert AllAbove(p, s[n - 1]);
      CountGreaterAll(p, s[n - 1]);
      assert 2 * Inversions(s) == (n - 1) * (n - 2) + 2 * (n - 1) == n * (n - 1);
    }
  }

  /** The number of pairs among m elements: m(m - 1)/2, as a sum. */
  function Pairs(m: int): (p: nat)
    decreases m
  {
    if m <= 1 then 0 else (m - 1) + Pairs(m - 1)
  }

  /** The closed form of Pairs. */
  lemma {:induction false} PairsClosed(m: nat)
    ensures 2 * Pairs(m) == m * (m - 1)
  {
    if m > 1 {
      PairsClosed(m - 1);
      assert m * (m - 1) == (m - 1) * (m - 2) + 2 * (m - 1);
    }
  }

  /** Pairs within two groups are among the pairs of their union. */
  lemma {:induction false} PairsSplit(a: nat, b: nat)
    ensures Pairs(a) + Pairs(b) <= Pairs(a + b)
    decreases b
  {
    if b >= 1 {
      PairsSplit(a, b - 1);
    }
  }

  lemma MultiplyMonotone(k: nat, x: nat, y: nat)
    requires x <= y
    ensures k * x <= k * y
  {
  }
}
