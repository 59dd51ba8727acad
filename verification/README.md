# Sorting analyzer, modelled in Dafny

This project models the core of a small sorting benchmark. It has two parts.

- **The instrumented routines** of `sorting_analyzer/algorithms.py`: insertion sort, bubble sort
  with an early exit, merge sort and quicksort with a Lomuto partition. Each one sorts a list of
  integers in place and returns a pair of counts: comparisons, and swaps or movements. The
  `ALGORITHM_MAP` registry maps the four display names to these routines.
- **The experiment harness** of `sorting_analyzer/analyzer.py`. `generate_array` builds each input
  list. `run_analysis` runs every algorithm name on every size and every array type, in that
  nesting order, and collects one record per trial.

Each routine is a method over an `array<int>` with a `modifies` clause, as in the source. Each
method is proved against specification functions on sequences.

- **Insertion and bubble sort.** The method proves that the array ends up ascending and a
  permutation of the input. Its swap count equals the number of inversions of the input. Insertion
  sort's comparisons are n - 1 plus the swaps. Bubble sort's comparisons are `BubbleComparisons`,
  a recursive definition over the passes. Each pass is `PassFrom`, and the passes stop after the
  first one that exchanges nothing.
- **Merge sort.** The method computes exactly `MergeSorted`, a recursive definition that splits at
  `len // 2`. Its comparisons are `MergeSortComparisons` and its movements are `MergeMoves`.
  Lemmas prove these definitions ascending, a permutation and bounded.
- **Quicksort.** `_partition` and `_quicksort_recursive` are methods over `(a, low, high)`.
  `_partition` computes exactly `PartitionOf`, which is Lomuto's scan `Scan` followed by placing
  the pivot. `Partitioned` states everything that partition promises. `_quicksort_recursive`
  computes exactly `QuickSorting`, the array and both counts, which recurses over `PartitionOf` the
  way the source does. Lemmas prove its result sorted and a permutation. `QuickCounts` bounds its
  counts and gives their exact worst case on an ascending range.

The harness works as follows.

- **`generate_array`** builds `0 .. size - 1`. It then shuffles that list (Fisher–Yates, as in
  `random.shuffle`), reverses it, or leaves it ascending.
- **`run_analysis`** returns a `Result`. On success it holds the records, one per trial in the
  order of `Trials`, tied to the generated inputs by `Matches`. On failure it holds the first
  name that is neither the built-in sort nor registered, which models the `KeyError` of the
  lookup.

Modules:

- `wrappers.dfy` holds `Option` and `Result`.
- `orderings.dfy` holds ascending order, counts of greater values and inversions.
- `merging.dfy` holds the merge and merge sort as functions.
- `algorithms.dfy` holds the four routines and the registry.
- `analyzer.dfy` holds array generation and the experiment runner.

Where the code and its documented intent disagree, the model follows the code.

- **Sizes.** `generate_array` does not reject a size below 1. Such a size gives the empty list.
- **Array types.** Any array type other than `"Random"` and `"Reversed"` gives the ascending list.
- **Unregistered names.** An unregistered algorithm name is not rejected before the run. It
  raises at the lookup inside the innermost loop, at that name's first trial. So it fails only
  when there are sizes and types to try, and after the trials of the names before it.

## Model

| member | source | states |
|---|---|---|
| Orderings.SortedIffNoInversions | sorting_analyzer/algorithms.py:20-26 | A list is ascending exactly when it has no inversions, so a routine whose swaps equal the input's inversions makes no swap exactly on ascending input |
| Orderings.InversionsBound | sorting_analyzer/algorithms.py:20-24 | A list of n values has at most n(n - 1)/2 inversions, which bounds insertion and bubble sort's swaps |
| Orderings.InversionsAdjacentSwap | sorting_analyzer/algorithms.py:38-40 | Exchanging an inverted adjacent pair removes exactly one inversion |
| Orderings.DecreasingInversions | sorting_analyzer/analyzer.py:22-23 | A strictly decreasing list of n values has exactly n(n - 1)/2 inversions: every pair is inverted |
| Orderings.SortedAround | sorting_analyzer/algorithms.py:124-131 | Ascending values at most x, then x, then ascending values above x, form an ascending list |
| Orderings.SortedUnique | sorting_analyzer/algorithms.py:141-146 | Two ascending permutations of the same values are equal, so all four registered routines leave the same list |
| Orderings.CountAtMostComplement | sorting_analyzer/algorithms.py:108-113 | The values at most the pivot and the values above it together make up the whole scanned range |
| Merging.Merged | sorting_analyzer/algorithms.py:67-91 | The merge of two halves has as many elements as both together |
| Merging.MergedPermutation | sorting_analyzer/algorithms.py:67-91 | The merge holds exactly the values of both halves |
| Merging.MergedSorted | sorting_analyzer/algorithms.py:67-91 | The merge of two ascending halves is ascending |
| Merging.MergeComparisons | sorting_analyzer/algorithms.py:70-71 | The merge makes no comparison exactly when one half is empty |
| Merging.MergeComparisonsBounds | sorting_analyzer/algorithms.py:70-79 | A merge of two non-empty halves makes at least as many comparisons as the shorter half has elements, and at most len(arr) - 1 |
| Merging.MergeTiesGoRight | sorting_analyzer/algorithms.py:72-77 | On equal values the right half's element is written first: with all values equal the merge is right followed by left, after one comparison per right element |
| Merging.MergeSorted | sorting_analyzer/algorithms.py:56-65 | Merge sort, as a definition split at len // 2, keeps the length |
| Merging.MergeSortedAscending | sorting_analyzer/algorithms.py:46-93 | Merge sort's result is ascending |
| Merging.MergeSortedPermutation | sorting_analyzer/algorithms.py:46-93 | Merge sort's result is a permutation of its input |
| Merging.MergeSortComparisons | sorting_analyzer/algorithms.py:62-79 | merge_sort's comparison count: the comparisons of both recursive calls plus one per iteration of the merge loop over their results |
| Merging.MergeMoves | sorting_analyzer/algorithms.py:62-91 | merge_sort's movement count on n elements: those of both halves plus one write per cell, whatever the values |
| Merging.MergeSortComparisonsBounds | sorting_analyzer/algorithms.py:62-79 | Merge sort's comparisons lie between the best case of each merge and the number of movements, strictly below it from two elements on |
| Merging.MergeMovesBound | sorting_analyzer/algorithms.py:78-91 | Merge sort's movements on n elements are at most n times the ceiling of log2 n |
| Algorithms.InsertionKeepsSorted | sorting_analyzer/algorithms.py:20-25 | Inserting the key right after the last prefix value at most it keeps the prefix ascending |
| Algorithms.InsertionShiftCount | sorting_analyzer/algorithms.py:20-24 | The number of shifts for a key equals the number of prefix values greater than it |
| Algorithms.InsertAfterMultiset | sorting_analyzer/algorithms.py:22-25 | Shifting and placing the key keeps the prefix's values plus the key |
| Algorithms.InsertionRound | sorting_analyzer/algorithms.py:14-25 | One round of the outer loop extends the ascending prefix by one and adds its shifts to the inversions counted so far |
| Algorithms.InsertKey | sorting_analyzer/algorithms.py:15-25 | One key's insertion keeps the outer invariant, with one entry comparison plus one per shift |
| Algorithms.InsertionSort | sorting_analyzer/algorithms.py:10-27 | insertion_sort leaves the array ascending and a permutation; swaps equal the input's inversions and comparisons are max(n - 1, 0) plus swaps |
| Algorithms.Exchange | sorting_analyzer/algorithms.py:39 | The tuple swap exchanges two cells and changes nothing else |
| Algorithms.PassFrom | sorting_analyzer/algorithms.py:36-41 | A pass from pair j on, as a value: the array it leaves, of the same length, and whether it exchanged anything, which an exchange already made keeps true |
| Algorithms.PassStep | sorting_analyzer/algorithms.py:37-41 | One comparison of a pass moves the larger of the pair right, counting a swap exactly for an inverted pair, and the rest of the pass ends where the pass as a whole ends |
| Algorithms.PassFromSorted | sorting_analyzer/algorithms.py:36-41 | A pass over an ascending list exchanges nothing and leaves it as it is |
| Algorithms.PassVisit | sorting_analyzer/algorithms.py:37-41 | One iteration of the inner loop: when a[j] > a[j + 1] the array becomes the old one with those two exchanged, one swap is counted and the swapped flag is set; otherwise array, count and flag are unchanged. The pass invariant holds one pair further on, and the rest of the pass ends where it did |
| Algorithms.BubblePass | sorting_analyzer/algorithms.py:35-41 | A pass over a[0..last] leaves exactly the array and the exchanged flag that PassFrom gives, makes last comparisons, brings the largest value to last, counts one swap per inversion removed, and when it swaps nothing leaves the array unchanged |
| Algorithms.PassSettles | sorting_analyzer/algorithms.py:36-41 | After pass i the last i + 1 cells hold the largest values in their final order |
| Algorithms.BubbleComparisons | sorting_analyzer/algorithms.py:34-43 | bubble_sort's comparison count from pass i on: n - i - 1 for pass i, then the later passes only when pass i exchanged something; so at least n - i - 1 |
| Algorithms.BubbleComparisonsBound | sorting_analyzer/algorithms.py:34-37 | The passes from pass i on compare at most (n - i - 1) + ... + 1 + 0 pairs, so the whole sort at most n(n - 1)/2 |
| Algorithms.BubbleComparisonsSorted | sorting_analyzer/algorithms.py:34-43 | On ascending input the first pass exchanges nothing, so the sort makes n - 1 comparisons, or none on the empty list |
| Algorithms.BubbleRound | sorting_analyzer/algorithms.py:34-43 | A pass keeps the outer invariant, including that the comparisons so far plus those still to come make BubbleComparisons of the input; a pass without a swap ends the sort with everything promised and exactly those comparisons |
| Algorithms.BubbleRoundStep | sorting_analyzer/algorithms.py:34-43 | One round of the outer loop on the array: the pass PassFrom gives, its comparisons added to the running total, and the same outcome |
| Algorithms.BubbleSort | sorting_analyzer/algorithms.py:29-44 | bubble_sort leaves the array ascending and a permutation; swaps equal the input's inversions, comparisons equal BubbleComparisons of the input, and swaps are at most comparisons, which are at most n(n - 1)/2; ascending input is left alone after n - 1 comparisons and no swap |
| Algorithms.CopyRange | sorting_analyzer/algorithms.py:58-59 | A slice copy is a fresh array with exactly the slice's values |
| Algorithms.MergeStep | sorting_analyzer/algorithms.py:70-79 | One iteration of the merge loop keeps the merge invariant |
| Algorithms.MergeFinish | sorting_analyzer/algorithms.py:81-91 | When one half runs out, the written part, the rest of the left and the rest of the right make the merge, and all comparisons are made |
| Algorithms.CopyRest | sorting_analyzer/algorithms.py:82-91 | Draining a half: a[..k] followed by the half's remaining values is the new prefix, every cell after it is unchanged, and one movement is counted per value |
| Algorithms.MergeVisit | sorting_analyzer/algorithms.py:70-79 | One iteration of the merge loop: when left[i] < right[j] the array is the old one with left[i] at k and i advances; otherwise (ties included) right[j] is at k and j advances; nothing else changes. The merge invariant holds one position further on, with one more comparison |
| Algorithms.MergeInto | sorting_analyzer/algorithms.py:67-91 | The merge writes exactly Merged(L, R) into arr, with its comparisons and one movement per cell |
| Algorithms.SortHalves | sorting_analyzer/algorithms.py:56-65 | The halves split at len // 2 are copied and sorted by the recursive calls, and their counts are added |
| Algorithms.MergeSort | sorting_analyzer/algorithms.py:46-93 | merge_sort computes MergeSorted of its input, with MergeSortComparisons comparisons and MergeMoves movements; on length at most 1 it returns (0, 0) and changes nothing |
| Algorithms.CountAtMostExtend | sorting_analyzer/algorithms.py:108-111 | Scanning one more element adds one to the count of values at most the pivot exactly when it is at most the pivot |
| Algorithms.PartitionTake | sorting_analyzer/algorithms.py:110-113 | A scanned value at most the pivot is exchanged to the boundary and counted as a swap, keeping the scan invariant |
| Algorithms.PartitionSkip | sorting_analyzer/algorithms.py:108-110 | A scanned value above the pivot stays put, keeping the scan invariant |
| Algorithms.Scan | sorting_analyzer/algorithms.py:108-113 | The rest of the partition loop from position j on, as a value: the array it leaves, of the same length, and the final boundary i, which never goes below its start and stays below high |
| Algorithms.PartitionOf | sorting_analyzer/algorithms.py:98-118 | _partition as a value: the scan, then the exchange of a[i + 1] with the pivot; the index lies in low..high |
| Algorithms.ScanProgress | sorting_analyzer/algorithms.py:108-113 | Whatever the scan leaves keeps the loop invariant to its end: the values at most the pivot before the boundary, the greater ones after it, one swap per value at most the pivot |
| Algorithms.PartitionOfPartitioned | sorting_analyzer/algorithms.py:98-118 | What PartitionOf computes is a partition of the range around the old a[high] |
| Algorithms.PartitionVisit | sorting_analyzer/algorithms.py:108-113 | One scan step: when a[j] <= pivot, i advances by one and the array is the old one with a[i + 1] and a[j] exchanged; otherwise i and the array are unchanged. A swap is counted exactly when i advances, and the rest of the scan ends where it did |
| Algorithms.PartitionFinish | sorting_analyzer/algorithms.py:115-118 | The final exchange puts the pivot at the boundary and completes the partition |
| Algorithms.PartitionScan | sorting_analyzer/algorithms.py:103-113 | The scan leaves exactly the array and boundary Scan gives, after high - low comparisons and one swap per value at most the pivot |
| Algorithms.Partition | sorting_analyzer/algorithms.py:98-118 | _partition computes PartitionOf: it moves the old arr[high] to pi, values at most it before and greater ones after, changes nothing outside low..high, keeps the values, and returns comps = high - low and swaps = 1 + the values at most the pivot |
| Algorithms.QuickCombineSorted | sorting_analyzer/algorithms.py:124-131 | A partition followed by sorting both sides sorts the range and keeps everything else |
| Algorithms.QuickCombinePermutation | sorting_analyzer/algorithms.py:124-131 | A partition and two recursive calls only rearrange the range's values |
| Algorithms.QuickCombineOrder | sorting_analyzer/algorithms.py:124-131 | A partition and two recursive calls leave the range ascending |
| Algorithms.QuickCounts | sorting_analyzer/algorithms.py:120-136 | The counts of a quicksort call on m elements: none for at most one element, at most m(m - 1)/2 comparisons and at most m swaps more than comparisons, and on ascending input the range untouched with m(m - 1)/2 comparisons and m(m + 1)/2 - 1 swaps |
| Algorithms.QuickCountsBound | sorting_analyzer/algorithms.py:125-134 | The comparison bound n(n - 1)/2 and the swap bound carry over from both sides to the whole range |
| Algorithms.QuickSortedPivot | sorting_analyzer/algorithms.py:103-118 | On an ascending range the pivot is the largest value, the partition changes nothing and the pivot stays last |
| Algorithms.QuickStep | sorting_analyzer/algorithms.py:124-136 | One level of the recursion, given the partition and both sides' outcomes, sorts the range and keeps the count rules for the summed counts |
| Algorithms.QuickStepCounts | sorting_analyzer/algorithms.py:124-136 | The summed counts of a partition and both recursive calls stay within QuickCounts when the calls' counts do |
| Algorithms.QuickStepSorted | sorting_analyzer/algorithms.py:124-136 | On an ascending range of m values quicksort changes nothing and makes m(m - 1)/2 comparisons and m(m + 1)/2 - 1 swaps |
| Algorithms.QuickSorting | sorting_analyzer/algorithms.py:120-136 | _quicksort_recursive as a value: the array it leaves, of the same length, with the partition's counts plus those of the calls on both sides, and nothing done for at most one element |
| Algorithms.QuickSortingSorts | sorting_analyzer/algorithms.py:120-136 | Whatever QuickSorting computes sorts a[low..high], keeps its values, changes nothing outside it, and makes counts within QuickCounts |
| Algorithms.QuickSortingStep | sorting_analyzer/algorithms.py:124-134 | When the calls on both sides of the partition sort them, the call on the whole range sorts it with the summed counts |
| Algorithms.QuickSortingBase | sorting_analyzer/algorithms.py:122-124 | On at most one element nothing moves and nothing is counted |
| Algorithms.QuickSortingSortedInput | sorting_analyzer/algorithms.py:95-138 | On ascending input quicksort leaves the list as it is and makes n(n - 1)/2 comparisons |
| Algorithms.QuicksortRange | sorting_analyzer/algorithms.py:120-136 | _quicksort_recursive computes QuickSorting on a[low..high], both the array and the two counts, and returns (0, 0) when low >= high |
| Algorithms.QuickSides | sorting_analyzer/algorithms.py:129-134 | After the partition, the two recursive calls and the summed counts complete QuickSorting: the array it gives, and the partition's counts plus both calls' counts |
| Algorithms.Quicksort | sorting_analyzer/algorithms.py:95-138 | quicksort computes QuickSorting of the whole array, counts included: the array ends up ascending and a permutation, with at most n(n - 1)/2 comparisons and the exact worst-case counts on ascending input |
| Algorithms.NameOf | sorting_analyzer/algorithms.py:141-146 | Every routine is registered under a name |
| Algorithms.RegisteredOnce | sorting_analyzer/algorithms.py:141-146 | Each registered name is the name of its routine, so no two names share one |
| Algorithms.CountsFollow | sorting_analyzer/algorithms.py:10-146 | The pair each registered routine returns: insertion sort n - 1 plus the inversions, and the inversions; bubble sort BubbleComparisons and the inversions; merge sort MergeSortComparisons and MergeMoves; quicksort the counts of QuickSorting |
| Algorithms.Run | sorting_analyzer/algorithms.py:141-146 | Whichever routine ALGORITHM_MAP holds, the array ends up ascending and a permutation, with exactly that routine's counts |
| Analyzer.Ascending | sorting_analyzer/analyzer.py:17 | list(range(n)) has max(n, 0) elements, and the element at k is k |
| Analyzer.Descending | sorting_analyzer/analyzer.py:22-23 | The reversed list has the element n - 1 - k at k |
| Analyzer.AscendingMultiset | sorting_analyzer/analyzer.py:17 | list(range(n)) holds each of 0 .. n - 1 exactly once and nothing else |
| Analyzer.DescendingPermutation | sorting_analyzer/analyzer.py:22-23 | The reversed list holds the same values as list(range(n)) |
| Analyzer.Reverse | sorting_analyzer/analyzer.py:23 | list.reverse puts the old element n - 1 - k at k |
| Analyzer.Shuffle | sorting_analyzer/analyzer.py:18-19 | The shuffle keeps the values, whatever the random draws |
| Analyzer.Generated | sorting_analyzer/analyzer.py:15-24 | What generate_array returns: a permutation of 0 .. size - 1, exactly the descending list for "Reversed" and the ascending one for "Sorted" and any type it does not know |
| Analyzer.GenerateArray | sorting_analyzer/analyzer.py:15-24 | generate_array returns a fresh permutation of 0 .. size - 1: descending for "Reversed", ascending for "Sorted" and any unknown type |
| Analyzer.SortedInputCounts | sorting_analyzer/analyzer.py:20-21 | On a "Sorted" array insertion and bubble sort make n - 1 comparisons and no swap, and quicksort makes n(n - 1)/2 comparisons |
| Analyzer.ReversedInputCounts | sorting_analyzer/analyzer.py:22-23 | On a "Reversed" array insertion and bubble sort make n(n - 1)/2 swaps, and insertion sort makes n - 1 comparisons more |
| Analyzer.MatchesAppend | sorting_analyzer/analyzer.py:74-81 | Appending matching records for further trials keeps the records matching the trials |
| Analyzer.RecordFor | sorting_analyzer/analyzer.py:45-81 | A trial's record: its own name, size and type; no counts for the built-in sort; otherwise both counts present, non-negative, and exactly those the registered routine makes on the generated array |
| Analyzer.Cells | sorting_analyzer/analyzer.py:43 | One trial per array type |
| Analyzer.CellsAt | sorting_analyzer/analyzer.py:43 | The trial at position t of a size's trials has array type types[t] |
| Analyzer.Row | sorting_analyzer/analyzer.py:42-43 | The trials of one name: for each size in order, one per array type in order |
| Analyzer.Trials | sorting_analyzer/analyzer.py:40-43 | The trials of run_analysis: for each name in order, the trials of that name |
| Analyzer.RowLength | sorting_analyzer/analyzer.py:42-43 | One name has |sizes| x |types| trials |
| Analyzer.TrialsLength | sorting_analyzer/analyzer.py:40-43 | run_analysis has |names| x |sizes| x |types| trials |
| Analyzer.RowAt | sorting_analyzer/analyzer.py:42-43 | One name's trial for size s and type t comes at position s x |types| + t |
| Analyzer.TrialsBlock | sorting_analyzer/analyzer.py:40-43 | The trials of name a form the a-th block of width |sizes| x |types| |
| Analyzer.TrialsAt | sorting_analyzer/analyzer.py:40-43 | The trial of name a, size s and type t comes at position (a x |sizes| + s) x |types| + t, with exactly those loop values |
| Analyzer.RunTrial | sorting_analyzer/analyzer.py:45-81 | One trial succeeds exactly for a known name; the built-in sort gets no counts, and a registered routine gets exactly its counts on the generated array, which are non-negative; an unknown name fails with that name |
| Analyzer.RunTypes | sorting_analyzer/analyzer.py:43-81 | The loop over types gives one matching record per type, or fails with the name |
| Analyzer.RunSizes | sorting_analyzer/analyzer.py:42-81 | The loop over sizes gives one matching record per size and type, or fails with the name |
| Analyzer.RunName | sorting_analyzer/analyzer.py:40-81 | One pass of the outer loop appends the name's matching records |
| Analyzer.RunAnalysis | sorting_analyzer/analyzer.py:26-84 | run_analysis succeeds exactly when there are no sizes, no types, or only known names; then its records match Trials one by one, each with the counts RecordFor gives. Otherwise it fails with the first unknown name |

## Left out

- Timing: `time.perf_counter` and the elapsed milliseconds are not modelled, and `Record` has no time field.
- The random generator is not modelled. `Shuffle` takes the draws as a parameter, and `"Random"` is only specified as some permutation of `0 .. size - 1`.
- The built-in sort: `sorted()` on a copy is not modelled beyond the record without counts. It does not touch the generated array, and the model never passes it one.
- Building the pandas DataFrame, the progress prints, `main.py` and `sorting_analyzer/plotter.py` are not part of this model. `run_analysis` returns the records as a sequence.
- Python's comparison of arbitrary objects is not modelled. Elements are integers.
- Python's recursion limit is not modelled. On ascending or descending input `_quicksort_recursive` recurses to a depth of about n, so past about a thousand elements Python would raise `RecursionError` where the model goes on. The model's recursion has no such bound.
- Closed forms of the counts: they are given exactly by `BubbleComparisons`, `MergeSortComparisons`, `MergeMoves` and `QuickSorting`, but in closed form only for ascending input and, for insertion and bubble sort's swaps and insertion sort's comparisons, descending input.
- A failing run's partial records are not returned: the `KeyError` discards them, and the model returns `Failure(name)` only.
- Loop bodies are separate methods: `InsertKey`, `PassVisit`, `BubblePass`, `BubbleRoundStep`, `MergeVisit`, `PartitionVisit`, `QuickSides`, `RunTypes`, `RunSizes` and `RunName`. The merge loop is `MergeInto` and the partition scan is `PartitionScan`. Each keeps the update in place of the loop it models.
