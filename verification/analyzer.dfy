/** The experiment runner of sorting_analyzer/analyzer.py: generate_array builds
    each trial's input, run_analysis runs every algorithm on every size and array
    type, in that nesting order, and collects one measurement record per trial. */
module Analyzer {
  import opened Wrappers
  import opened Orderings
  import opened Algorithms

  // ------------------------------------------------------------- generated arrays

  /** list(range(n)): 0, 1, ..., n - 1, and nothing when n <= 0. */
  function Ascending(n: int): (s: seq<int>)
    ensures |s| == (if n < 0 then 0 else n)
    ensures forall k :: 0 <= k < |s| ==> s[k] == k
    decreases n
  {
    if n <= 0 then [] else Ascending(n - 1) + [n - 1]
  }

  /** n - 1, ..., 1, 0: list(range(n)) after reverse(). */
  function Descending(n: int): (s: seq<int>)
    ensures |s| == (if n < 0 then 0 else n)
    ensures forall k :: 0 <= k < |s| ==> s[k] == |s| - 1 - k
    decreases n
  {
    if n <= 0 then [] else [n - 1] + Descending(n - 1)
  }

  /** list(range(n)) holds each of 0 .. n - 1 exactly once and nothing else. */
  lemma {:induction false} AscendingMultiset(n: int, v: int)
    ensures multiset(Ascending(n))[v] == (if 0 <= v < n then 1 else 0)
    decreases n
  {
    if n > 0 {
      var p := Ascending(n - 1);
      AscendingMultiset(n - 1, v);
      assert Ascending(n) == p + [n - 1];
      assert multiset(Ascending(n))[v] == multiset(p)[v] + (if v == n - 1 then 1 else 0);
    } else {
      assert Ascending(n) == [];
    }
  }

  /** Reversing list(range(n)) keeps its values. */
  lemma {:induction false} DescendingPermutation(n: int)
    ensures multiset(Descending(n)) == multiset(Ascending(n))
    decreases n
  {
    if n > 0 {
      DescendingPermutation(n - 1);
      FrontToBack(n - 1, Descending(n - 1), Ascending(n - 1));
    }
  }

  lemma FrontToBack(x: int, d: seq<int>, p: seq<int>)
    requires multiset(d) == multiset(p)
    ensures multiset([x] + d) == multiset(p + [x])
  {
    assert multiset([x] + d) == multiset{x} + multiset(d);
  }

  /** What generate_array returns for `size` and `arrayType`: always a permutation
      of 0 .. size - 1; exactly n - 1, ..., 0 for "Reversed"; and exactly
      0, ..., n - 1 for "Sorted" and for any type it does not know. */
  predicate Generated(size: int, arrayType: string, s: seq<int>) {
    multiset(s) == multiset(Ascending(size)) &&
    (arrayType == "Reversed" ==> s == Descending(size)) &&
    (arrayType != "Random" && arrayType != "Reversed" ==> s == Ascending(size))
  }

  /** list.reverse(): exchanges cells from both ends towards the middle. */
  method Reverse(a: array<int>)
    modifies a
    ensures forall k :: 0 <= k < a.Length ==> a[k] == old(a[a.Length - 1 - k])
  {
    var i, j := 0, a.Length - 1;
    while i < j
      invariant 0 <= i <= j + 1 && j == a.Length - 1 - i
      invariant forall k :: 0 <= k < a.Length && (k < i || j < k) ==> a[k] == old(a[a.Length - 1 - k])
      invariant forall k :: i <= k <= j ==> a[k] == old(a[k])
    {
      a[i], a[j] := a[j], a[i];
      i, j := i + 1, j - 1;
    }
  }

  /** random.shuffle (Fisher-Yates): for i from the last index down to 1, exchange
      a[i] with a[j] for j = randbelow(i + 1). `draw(i)` stands for what the random
      generator returns at step i; whatever it returns, j is reduced into 0 .. i. */
  method Shuffle(a: array<int>, draw: int -> int)
    modifies a
    ensures multiset(a[..]) == multiset(old(a[..]))
  {
    var i := a.Length - 1;
    while i > 0
      invariant i < a.Length
      invariant multiset(a[..]) == multiset(old(a[..]))
    {
      var j := draw(i) % (i + 1);
      ghost var before := a[..];
      Exchange(a, i, j);
      ExchangeMultiset(before, i, j);
      i := i - 1;
    }
  }

  /** generate_array: list(range(size)), shuffled for "Random", reversed for
      "Reversed", left ascending otherwise. `draw` is the random generator's
      output for the shuffle. */
  method GenerateArray(size: int, arrayType: string, draw: int -> int) returns (arr: array<int>)
    ensures fresh(arr)
    ensures Generated(size, arrayType, arr[..])
  {
    var n := if size < 0 then 0 else size;
    arr := new int[n](k => k);
    assert arr[..] == Ascending(size);
    if arrayType == "Random" {
      Shuffle(arr, draw);
    } else if arrayType == "Sorted" {
    } else if arrayType == "Reversed" {
      Reverse(arr);
      assert arr[..] == Descending(size);
      DescendingPermutation(size);
    }
  }

  /** On a "Sorted" array insertion sort and bubble sort meet their best case:
      n - 1 comparisons and no swaps; quicksort meets its worst, n(n - 1)/2
      comparisons. */
  lemma SortedInputCounts(alg: Algorithm, n: nat, comparisons: int, swaps: int)
    requires CountsFollow(alg, Ascending(n), comparisons, swaps)
    ensures alg == Insertion || alg == Bubble ==> swaps == 0 && comparisons == (if n == 0 then 0 else n - 1)
    ensures alg == Quick ==> 2 * comparisons == n * (n - 1)
  {
    assert Sorted(Ascending(n));
    SortedIffNoInversions(Ascending(n));
    if alg == Bubble {
      BubbleComparisonsSorted(Ascending(n));
    } else if alg == Quick {
      QuickSortingSortedInput(Ascending(n));
    }
  }

  /** On a "Reversed" array every pair is out of order: insertion sort and bubble
      sort both make n(n - 1)/2 swaps, and insertion sort n - 1 comparisons more. */
  lemma ReversedInputCounts(alg: Algorithm, n: nat, comparisons: int, swaps: int)
    requires CountsFollow(alg, Descending(n), comparisons, swaps)
    ensures alg == Insertion || alg == Bubble ==> 2 * swaps == n * (n - 1)
    ensures alg == Insertion && n > 0 ==> 2 * comparisons == (n - 1) * (n + 2)
  {
    DecreasingInversions(Descending(n));
    if alg == Insertion && n > 0 {
      assert 2 * comparisons == 2 * (n - 1) + n * (n - 1);
    }
  }

  // ---------------------------------------------------------------------- records

  /** The name run_analysis treats as the built-in sort, which it only times. */
  const Timsort: string := "Timsort (Python built-in)"

  /** One row of run_analysis's result; the elapsed time is not modelled. */
  datatype Record = Record(algorithm: string, size: int, arrayType: string,
                           comparisons: Option<nat>, swaps: Option<nat>)

  /** One trial: an algorithm name, an array size and an array type. */
  datatype Trial = Trial(algorithm: string, size: int, arrayType: string)

  /** A name run_analysis can run: the built-in sort or a registered routine. */
  predicate Known(name: string) {
    name == Timsort || name in AlgorithmMap
  }

  /** The record of `trial` run on the generated `input`: the trial's own name, size
      and type; no counts for the built-in sort; otherwise both counts, as the
      registered routine makes them on `input`. */
  predicate RecordFor(trial: Trial, input: seq<int>, rec: Record) {
    rec.algorithm == trial.algorithm && rec.size == trial.size && rec.arrayType == trial.arrayType &&
    Generated(trial.size, trial.arrayType, input) &&
    if trial.algorithm == Timsort then rec.comparisons.None? && rec.swaps.None?
    else
      trial.algorithm in AlgorithmMap && rec.comparisons.Some? && rec.swaps.Some? &&
      CountsFollow(AlgorithmMap[trial.algorithm], input, rec.comparisons.value, rec.swaps.value)
  }

  /** `records` are the records of `trials`, in order, on the generated `inputs`. */
  predicate Matches(trials: seq<Trial>, inputs: seq<seq<int>>, records: seq<Record>) {
    |records| == |trials| && |inputs| == |trials| &&
    forall k :: 0 <= k < |trials| ==> RecordFor(trials[k], inputs[k], records[k])
  }

  lemma MatchesAppend(t1: seq<Trial>, i1: seq<seq<int>>, r1: seq<Record>,
                      t2: seq<Trial>, i2: seq<seq<int>>, r2: seq<Record>)
    requires Matches(t1, i1, r1) && Matches(t2, i2, r2)
    ensures Matches(t1 + t2, i1 + i2, r1 + r2)
  {
    forall k | 0 <= k < |t1| + |t2|
      ensures RecordFor((t1 + t2)[k], (i1 + i2)[k], (r1 + r2)[k])
    {
      if k >= |t1| {
        assert (t1 + t2)[k] == t2[k - |t1|] && (i1 + i2)[k] == i2[k - |t1|] && (r1 + r2)[k] == r2[k - |t1|];
      }
    }
  }

  // ----------------------------------------------------------------------- trials

  /** The trials of one name and size, one per array type, in order. */
  function Cells(name: string, size: int, types: seq<string>): (c: seq<Trial>)
    ensures |c| == |types|
    decreases |types|
  {
    if types == [] then []
    else Cells(name, size, types[..|types| - 1]) + [Trial(name, size, types[|types| - 1])]
  }

  /** The trials of one name: for every size, every array type. */
  function Row(name: string, sizes: seq<int>, types: seq<string>): (row: seq<Trial>)
    decreases |sizes|
  {
    if sizes == [] then []
    else Row(name, sizes[..|sizes| - 1], types) + Cells(name, sizes[|sizes| - 1], types)
  }

  /** The trials of run_analysis: for every name, every size, every array type. */
  function Trials(names: seq<string>, sizes: seq<int>, types: seq<string>): (trials: seq<Trial>)
    decreases |names|
  {
    if names == [] then []
    else Trials(names[..|names| - 1], sizes, types) + Row(names[|names| - 1], sizes, types)
  }

  lemma {:induction false} CellsAt(name: string, size: int, types: seq<string>, t: int)
    requires 0 <= t < |types|
    ensures Cells(name, size, types)[t] == Trial(name, size, types[t])
    decreases |types|
  {
    var n := |types|;
    if t < n - 1 {
      CellsAt(name, size, types[..n - 1], t);
    }
  }

  /** Position a * w + j, with j < w, lies in block a of width w. */
  lemma BlockIndex(a: int, n: int, w: int, j: int)
    requires 0 <= a < n && 0 <= j < w
    ensures 0 <= a * w + j
    ensures a < n - 1 ==> a * w + j < (n - 1) * w
    ensures a == n - 1 ==> a * w + j - (n - 1) * w == j
  {
    MultiplyNonNegative(a, w);
    if a < n - 1 {
      MultiplyStep(a + 1, w);
      MultiplyMonotone(w, a + 1, n - 1);
    }
  }

  lemma MultiplyNonNegative(x: int, y: int)
    requires 0 <= x && 0 <= y
    ensures 0 <= x * y
  {
  }

  lemma MultiplyStep(n: int, w: int)
    ensures (n - 1) * w + w == n * w
  {
  }

  lemma Flatten(a: int, sizes: int, s: int, types: int, t: int)
    ensures (a * sizes + s) * types + t == a * (sizes * types) + (s * types + t)
  {
  }

  lemma {:induction false} RowLength(name: string, sizes: seq<int>, types: seq<string>)
    ensures |Row(name, sizes, types)| == |sizes| * |types|
    decreases |sizes|
  {
    var n := |sizes|;
    if n > 0 {
      RowLength(name, sizes[..n - 1], types);
      MultiplyStep(n, |types|);
    }
  }

  /** Run_analysis makes one trial per name, size and type. */
  lemma {:induction false} TrialsLength(names: seq<string>, sizes: seq<int>, types: seq<string>)
    ensures |Trials(names, sizes, types)| == |names| * (|sizes| * |types|)
    decreases |names|
  {
    var n, w := |names|, |sizes| * |types|;
    if n > 0 {
      TrialsLength(names[..n - 1], sizes, types);
      RowLength(names[n - 1], sizes, types);
      MultiplyStep(n, w);
    }
  }

  lemma {:induction false} RowAt(name: string, sizes: seq<int>, types: seq<string>, s: int, t: int)
    requires 0 <= s < |sizes| && 0 <= t < |types|
    ensures 0 <= s * |types| + t < |Row(name, sizes, types)|
    ensures Row(name, sizes, types)[s * |types| + t] == Trial(name, sizes[s], types[t])
    decreases |sizes|
  {
    var n, m := |sizes|, |types|;
    var before := sizes[..n - 1];
    RowLength(name, before, types);
    BlockIndex(s, n, m, t);
    if s < n - 1 {
      RowAt(name, before, types, s, t);
    } else {
      CellsAt(name, sizes[n - 1], types, t);
    }
  }

  /** Block a, of width w, of Trials is the row of names[a]. */
  lemma {:induction false} TrialsBlock(names: seq<string>, sizes: seq<int>, types: seq<string>, w: int, a: int, j: int)
    requires w == |sizes| * |types| && 0 <= a < |names| && 0 <= j < |Row(names[a], sizes, types)|
    ensures 0 <= a * w + j < |Trials(names, sizes, types)|
    ensures Trials(names, sizes, types)[a * w + j] == Row(names[a], sizes, types)[j]
    decreases |names|
  {
    var n := |names|;
    var before := names[..n - 1];
    var prefix, last := Trials(before, sizes, types), Row(names[n - 1], sizes, types);
    assert Trials(names, sizes, types) == prefix + last;
    TrialsLength(before, sizes, types);
    RowLength(names[n - 1], sizes, types);
    RowLength(names[a], sizes, types);
    assert |prefix| == (n - 1) * w && |last| == w;
    BlockIndex(a, n, w, j);
    if a < n - 1 {
      TrialsBlock(before, sizes, types, w, a, j);
    } else {
      assert a * w + j == |prefix| + j;
    }
  }

  /** The order of run_analysis's records: the record of name a, size s and type t
      comes at position (a * |sizes| + s) * |types| + t. */
  lemma TrialsAt(names: seq<string>, sizes: seq<int>, types: seq<string>, a: int, s: int, t: int)
    requires 0 <= a < |names| && 0 <= s < |sizes| && 0 <= t < |types|
    ensures (a * |sizes| + s) * |types| + t < |Trials(names, sizes, types)|
    ensures Trials(names, sizes, types)[(a * |sizes| + s) * |types| + t] == Trial(names[a], sizes[s], types[t])
  {
    var m := |types|;
    var w := |sizes| * m;
    var j := s * m + t;
    var k := (a * |sizes| + s) * m + t;
    Flatten(a, |sizes|, s, m, t);
    assert k == a * w + j;
    RowAt(names[a], sizes, types, s, t);
    TrialsBlock(names, sizes, types, w, a, j);
    var trials := Trials(names, sizes, types);
    assert 0 <= a * w + j < |trials| && trials[a * w + j] == Trial(names[a], sizes[s], types[t]);
  }

  // ----------------------------------------------------------------- run_analysis

  /** The first name run_analysis cannot run is at position `a`. */
  predicate FirstUnknown(names: seq<string>, a: int) {
    0 <= a < |names| && !Known(names[a]) && forall b :: 0 <= b < a ==> Known(names[b])
  }

  /** The body of run_analysis's innermost loop: generate the array, then either time
      the built-in sort (no counts) or look the name up in ALGORITHM_MAP, which fails
      with the name for an unregistered one, and run the routine. `input` is the
      generated array. */
  method RunTrial(name: string, size: int, arrayType: string, draw: int -> int)
    returns (r: Result<Record, string>, ghost input: seq<int>)
    ensures r.Success? <==> Known(name)
    ensures r.Failure? ==> r.error == name
    ensures r.Success? ==> RecordFor(Trial(name, size, arrayType), input, r.value)
  {
    var arr := GenerateArray(size, arrayType, draw);
    input := arr[..];
    if name == Timsort {
      return Success(Record(name, size, arrayType, None, None)), input;
    }
    if name !in AlgorithmMap {
      return Failure(name), input;
    }
    var comparisons, swaps := Run(AlgorithmMap[name], arr);
    r := Success(Record(name, size, arrayType, Some(comparisons), Some(swaps)));
  }

  /** run_analysis's loop over array types for one name and size; trial number
      start + t draws from random(start + t). */
  method RunTypes(name: string, size: int, types: seq<string>, random: int -> int -> int, start: int)
    returns (r: Result<seq<Record>, string>, ghost inputs: seq<seq<int>>)
    ensures r.Success? <==> Known(name) || |types| == 0
    ensures r.Failure? ==> r.error == name
    ensures r.Success? ==> Matches(Cells(name, size, types), inputs, r.value)
  {
    var records: seq<Record> := [];
    inputs := [];
    var t := 0;
    while t < |types|
      invariant 0 <= t <= |types| && (t > 0 ==> Known(name))
      invariant Matches(Cells(name, size, types[..t]), inputs, records)
    {
      var trial, input := RunTrial(name, size, types[t], random(start + t));
      if trial.Failure? {
        return Failure(name), inputs;
      }
      assert types[..t + 1][..t] == types[..t];
      MatchesAppend(Cells(name, size, types[..t]), inputs, records,
                    [Trial(name, size, types[t])], [input], [trial.value]);
      records, inputs := records + [trial.value], inputs + [input];
      t := t + 1;
    }
    assert types[..t] == types;
    r := Success(records);
  }

  /** run_analysis's loop over sizes for one name. */
  method RunSizes(name: string, sizes: seq<int>, types: seq<string>, random: int -> int -> int, start: int)
    returns (r: Result<seq<Record>, string>, ghost inputs: seq<seq<int>>)
    ensures r.Success? <==> Known(name) || |sizes| == 0 || |types| == 0
    ensures r.Failure? ==> r.error == name
    ensures r.Success? ==> Matches(Row(name, sizes, types), inputs, r.value)
  {
    var records: seq<Record> := [];
    inputs := [];
    var s := 0;
    while s < |sizes|
      invariant 0 <= s <= |sizes| && (s > 0 && |types| > 0 ==> Known(name))
      invariant Matches(Row(name, sizes[..s], types), inputs, records)
    {
      var row, rowInputs := RunTypes(name, sizes[s], types, random, start + |records|);
      if row.Failure? {
        return Failure(name), inputs;
      }
      assert sizes[..s + 1][..s] == sizes[..s];
      MatchesAppend(Row(name, sizes[..s], types), inputs, records, Cells(name, sizes[s], types), rowInputs, row.value);
      records, inputs := records + row.value, inputs + rowInputs;
      s := s + 1;
    }
    assert sizes[..s] == sizes;
    r := Success(records);
  }

  /** One pass of run_analysis's outer loop: all trials of names[a], appended to the
      records of the names before it. */
  method RunName(names: seq<string>, sizes: seq<int>, types: seq<string>, random: int -> int -> int,
                 a: int, records: seq<Record>, ghost inputs: seq<seq<int>>)
    returns (r: Result<seq<Record>, string>, ghost inputs': seq<seq<int>>)
    requires 0 <= a < |names|
    requires Matches(Trials(names[..a], sizes, types), inputs, records)
    ensures r.Success? <==> Known(names[a]) || |sizes| == 0 || |types| == 0
    ensures r.Failure? ==> r.error == names[a]
    ensures r.Success? ==> Matches(Trials(names[..a + 1], sizes, types), inputs', r.value)
  {
    var rows, rowsInputs := RunSizes(names[a], sizes, types, random, |records|);
    if rows.Failure? {
      return Failure(names[a]), inputs;
    }
    assert names[..a + 1][..a] == names[..a];
    MatchesAppend(Trials(names[..a], sizes, types), inputs, records, Row(names[a], sizes, types), rowsInputs, rows.value);
    r, inputs' := Success(records + rows.value), inputs + rowsInputs;
  }

  /** run_analysis: a record per trial, in the order of Trials (see TrialsAt). An
      unregistered name that is not the built-in sort stops the run at its first
      trial with that name, so it fails only when there are sizes and types to try,
      and then with the first such name. `random(k)` is the random generator's
      output for the shuffle of trial number k; `inputs` are the generated arrays. */
  method RunAnalysis(names: seq<string>, sizes: seq<int>, types: seq<string>, random: int -> int -> int)
    returns (r: Result<seq<Record>, string>, ghost inputs: seq<seq<int>>)
    ensures r.Success? <==> |sizes| == 0 || |types| == 0 || forall a :: 0 <= a < |names| ==> Known(names[a])
    ensures r.Failure? ==> exists a :: FirstUnknown(names, a) && r.error == names[a]
    ensures r.Success? ==> Matches(Trials(names, sizes, types), inputs, r.value)
  {
    var records: seq<Record> := [];
    inputs := [];
    var a := 0;
    while a < |names|
      invariant 0 <= a <= |names|
      invariant |sizes| > 0 && |types| > 0 ==> forall b :: 0 <= b < a ==> Known(names[b])
      invariant Matches(Trials(names[..a], sizes, types), inputs, records)
    {
      var next, nextInputs := RunName(names, sizes, types, random, a, records, inputs);
      if next.Failure? {
        assert FirstUnknown(names, a);
        return Failure(names[a]), inputs;
      }
      records, inputs := next.value, nextInputs;
      a := a + 1;
    }
    assert names[..a] == names;
    r := Success(records);
  }
}
