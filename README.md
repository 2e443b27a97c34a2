# parallelstablesort in Dafny

This is a model of the parallel stable sort in `src/parallelstablesort.cpp`. The program
benchmarks four parallel versions of one depth-bounded divide-and-conquer stable sort
(`stable_sort_thread`, `stable_sort_tbb`, `stable_sort_openmp` and `stable_sort_cilk`) on
vectors of `std::pair<std::int32_t, std::int32_t>`.

Each version works on a range [first, last) at recursion depth `reci`:

- A range of at most one element is left alone.
- Otherwise it increments `reci`.
- While `reci <= THRESHOLD` (THRESHOLD is 3), it splits the range at `first + len / 2`,
  sorts both halves concurrently, and merges them with `std::inplace_merge`.
- Past the threshold, it calls `std::stable_sort` on the whole range.

The public wrappers start at depth 0. In a DEBUG build, the benchmark then compares the
sorted vector with a `std::stable_sort`ed copy, using `vec_check`.

The model has five modules:

- `Records` (`records.dfy`): the record type. `int32` is a newtype, and `Pair` is a
  datatype. It also holds `std::pair`'s lexicographic `operator<` (`Less`) and the
  `Sorted` predicate.
- `Merging` (`merging.dfy`): `Merge`, the merge of two ascending runs, which takes the
  left record on a tie. It also holds the merge's proved properties: ascending,
  permutation, and stability by key.
- `SortSpec` (`sort_spec.dfy`): `StableSort`, a plain sequential insertion sort that every
  variant is compared with, and its properties. Because `operator<` is a total order
  whose ties are identical records, "ascending permutation of the input" determines the
  result uniquely.
- `ParallelSort` (`parallel_sort.dfy`): the recursion, written once.
  - It works in place on an `array<Pair>`.
  - Its parameters are the depth, the threshold, and a `Backend` value
    (`Thread | Tbb | OpenMp | Cilk`). The backend only says which concurrency primitive
    the version uses.
  - The two recursive calls run on disjoint halves, so they are modelled as the left call
    followed by the right call.
  - `std::inplace_merge` is replaced by `MergeRuns` (a buffer merge and a copy back).
    `std::stable_sort` is replaced by `LeafSort` (an insertion sort by adjacent swaps).
  - A ghost out-parameter counts the segments handed to the leaf sort.
- `DebugCheck` (`vec_check.dfy`): `vec_check`, the DEBUG check as written, and a
  corrected version of that check (see Findings).

## Model

| member | source | states |
|---|---|---|
| `Records.LessIsStrictTotalOrder` | src/parallelstablesort.cpp:37 | `operator<` on `mypair` is irreflexive, total, asymmetric and transitive, and two records with neither less than the other are equal |
| `Merging.Merge` | src/parallelstablesort.cpp:306 | the merge of the runs [first, middle) and [middle, last) has as many records as the two runs together |
| `Merging.MergeSorted` | src/parallelstablesort.cpp:306 | merging two ascending runs gives an ascending run |
| `Merging.MergePermutes` | src/parallelstablesort.cpp:306 | the merge holds exactly the records of the two runs (multiset equality) |
| `Merging.MergeStable` | src/parallelstablesort.cpp:306 | when every left-run record precedes every right-run record of the same key, the records of each key leave the merge as the left run's, in order, then the right run's, in order |
| `ParallelSort.MergeRuns` | src/parallelstablesort.cpp:306 | the in-place merge of [lo, mid) and [mid, hi) leaves `Merge` of the two old runs in [lo, hi) and writes nothing outside it |
| `ParallelSort.MergeIntoBuffer` | src/parallelstablesort.cpp:306 | the merging loop, which takes the right head only when it is strictly less than the left head, produces `Merge(left, right)` |
| `ParallelSort.LeafSort` | src/parallelstablesort.cpp:310 | the leaf `std::stable_sort(first, last)` leaves the plain stable sort of the old [lo, hi) there and writes nothing outside it |
| `ParallelSort.InsertLast` | src/parallelstablesort.cpp:310 | one insertion pass extends the ascending prefix [lo, i) to [lo, i], permutes the array, and touches only [lo, i] |
| `ParallelSort.SortedSegmentIsStableSort` | src/parallelstablesort.cpp:310 | a permutation that is ascending on [lo, hi) and unchanged elsewhere holds the plain stable sort of the old segment |
| `ParallelSort.Middle` | src/parallelstablesort.cpp:293 | `first + len / 2` for len >= 2 splits the range into two non-empty halves, with the right half equal to the left or one longer |
| `ParallelSort.SortRange` | src/parallelstablesort.cpp:278-312 | after the recursive sort, [lo, hi) holds the plain stable sort of its old contents, whatever the depth, threshold and backend. Nothing outside the range changes. A range of at most one element leaves the array unchanged with no leaf sort. The number of leaf-sorted segments is `Leaves(hi - lo, depth, threshold)` |
| `ParallelSort.SortHalves` | src/parallelstablesort.cpp:293-306 | sorting [lo, mid), then [mid, hi), then merging leaves the plain stable sort of the old [lo, hi) and writes nothing outside it; its leaf segments are those of the two halves |
| `ParallelSort.LeavesOfSplit` | src/parallelstablesort.cpp:289-293 | a range split at depth+1 <= threshold has, as leaf segments, those of its halves at depth+1 |
| `ParallelSort.LeavesBounded` | src/parallelstablesort.cpp:289-292 | a call at depth d hands at most 2^(threshold - d) segments to the leaf sort |
| `ParallelSort.LeavesExact` | src/parallelstablesort.cpp:289-292 | a range of at least 2^(threshold - d + 1) records reaches exactly 2^(threshold - d) leaf segments |
| `ParallelSort.ParallelStableSort` | src/parallelstablesort.cpp:321-325 | the depth-0 wrapper with THRESHOLD = 3 leaves the plain stable sort of the whole vector, in at most 8 leaf segments; when the input's key ties are in index order, every key's records keep their input order |
| `ParallelSort.SortCopy` | src/parallelstablesort.cpp:278-312 | sorting a copy of s with any backend and threshold yields `StableSort(s)` |
| `ParallelSort.SortTwoWays` | src/parallelstablesort.cpp:103-312 | any two thresholds give identical results, which are an ascending permutation of the input that keeps each key's records in input order when its key ties are in index order. The backend is never read by the recursion, so agreement between the Cilk, OpenMP, TBB and thread versions holds by construction |
| `SortSpec.InsertSorted` | src/parallelstablesort.cpp:310 | inserting a record into an ascending sequence keeps it ascending and adds exactly that record |
| `SortSpec.StableSortSortsAndPermutes` | src/parallelstablesort.cpp:310 | the plain stable sort returns an ascending permutation of its input |
| `SortSpec.SortedPermutationUnique` | src/parallelstablesort.cpp:37 | two ascending sequences with the same records are equal |
| `SortSpec.StableSortCharacterised` | src/parallelstablesort.cpp:310 | t is the plain stable sort of s if and only if t is ascending and a permutation of s |
| `SortSpec.StableSortOfHalves` | src/parallelstablesort.cpp:293-306 | merging the sorted halves of a sequence, left first, equals sorting the whole sequence |
| `SortSpec.StableSortIdempotent` | src/parallelstablesort.cpp:456-467 | sorting leaves a sequence unchanged if and only if it is ascending, and sorting twice equals sorting once |
| `SortSpec.StableSortOrdersKeyTies` | src/parallelstablesort.cpp:417-438 | for any input without repeated records (in every input mode the second components are distinct indices), records with equal keys leave the sort in increasing index order |
| `SortSpec.BenchmarkInputKeyTiesInOrder` | src/parallelstablesort.cpp:417-438 | an index-tagged vector whose first m records are stable-sorted (m = 0 for RANDOM, n / 4 for QUARTERSORT, n for SORT) has its key ties in index order |
| `SortSpec.StableSortKeepsKeyOrder` | src/parallelstablesort.cpp:278-312 | stability: when the input's key ties are in index order, the records of every key leave the sort in exactly their input order |
| `SortSpec.StableSortKeepsEveryKeyOrder` | src/parallelstablesort.cpp:278-312 | the same, for all keys at once |
| `SortSpec.SplitLeftWinsKeyTies` | src/parallelstablesort.cpp:293 | splitting an input whose key ties are in index order at any point gives halves in which every left record precedes every right record of the same key |
| `SortSpec.LeftWinsOnSortedHalves` | src/parallelstablesort.cpp:293-306 | when the left half wins every key tie against the right half, the sorted left half still does against the sorted right half |
| `SortSpec.HalvesMergeIsKeyStable` | src/parallelstablesort.cpp:306 | when the left half wins every key tie, each key's records leave the merge of the sorted halves as the left half's, then the right half's |
| `SortSpec.WithKeyPermutes` | src/parallelstablesort.cpp:306 | two sequences with the same records hold, for each key, the same records of that key |
| `SortSpec.WithKeyOfSorted` | src/parallelstablesort.cpp:310 | the records of one key of an ascending sequence are ascending |
| `SortSpec.TaggedExampleSorts` | src/parallelstablesort.cpp:418 | (5,0),(3,1),(5,2),(1,3) sorts to (1,3),(3,1),(5,0),(5,2): the two key-5 records keep their index order |
| `DebugCheck.VecCheck` | src/parallelstablesort.cpp:472-485 | on vectors of equal size, returns true exactly when they are equal element by element; on false, it reports the first position where they differ |
| `DebugCheck.SortedCopy` | src/parallelstablesort.cpp:457-462 | `vecback`: a copy of its input, stable-sorted, of the same length |
| `DebugCheck.DebugCheckAsWritten` | src/parallelstablesort.cpp:456-467 | the DEBUG check as written passes exactly when the sorted vector is ascending |
| `DebugCheck.AsWrittenAcceptsLostRecord` | src/parallelstablesort.cpp:456-467 | the output (0,1),(0,1) is ascending but is not the stable sort of the input (1,0),(0,1) |
| `DebugCheck.DebugCheckAgainstInput` | src/parallelstablesort.cpp:456-467 | the corrected check passes exactly when the output is the plain stable sort of the input |
| `DebugCheck.BenchmarkRound` | src/parallelstablesort.cpp:447-467 | after the sort runs on the vector, it holds the stable sort of its old contents, and neither check reports an error |

## Findings

| source | as written | input that shows it | evidently intended | confidence | as-written member | corrected member |
|---|---|---|---|---|---|---|
| src/parallelstablesort.cpp:457 | `vecback` is copied from `vec` after the sort ran, so it compares the output with a sorted copy of itself. The check passes exactly when the output is ascending. | a sort that turns input (1,0),(0,1) into (0,1),(0,1) loses a record, yet passes | `vec_check` is documented (lines 330-333) as telling whether two vectors hold the same elements, and the check sits after the timed runs of `func` to validate `func`; comparing the output with `std::stable_sort` of a copy of the input taken before `func` runs does that, passing exactly when the output equals the stable sort of the input | medium, not executed | `DebugCheck.DebugCheckAsWritten`, `DebugCheck.AsWrittenAcceptsLostRecord` | `DebugCheck.DebugCheckAgainstInput` |

All four sorts are proved to return exactly the stable sort of their input (`ParallelSort.SortRange`).
So with the program's own sorts, neither version of the check ever reports an error
(`DebugCheck.BenchmarkRound`). The as-written check only misses sorts that lose or
duplicate records.

## Left out

- Concurrency: `cilk_spawn`/`cilk_sync`, the OpenMP `task`/`taskwait`/`parallel`/`single` pragmas, `tbb::parallel_invoke`, and `std::thread` with `join` are not modelled. The two recursive calls touch disjoint halves and are joined before the merge, so they run left then right. Scheduling, thread creation and thread failure are not modelled.
- `std::inplace_merge` and `std::stable_sort` are library code and are replaced by `MergeRuns` and `LeafSort`. They have the same results but not the same algorithms, buffer strategy or complexity. The Parallelism TS overloads with `std::execution::par_unseq` (lines 427, 435, 460) are not modelled.
- The two library baselines the benchmark times beside the four versions are not modelled: plain `std::stable_sort` (line 380) and `std::stable_sort` with `std::execution::par` (line 393). They are library code; their contract is the plain stable sort itself.
- `reci` is an `std::int32_t` and is modelled as an unbounded `int`. From depth 0 it never exceeds THRESHOLD + 1, so no wrap-around arises.
- `BOOST_ASSERT(size == v2.size())` in `vec_check` becomes the precondition of `DebugCheck.VecCheck`.
- The error messages written to `std::cerr` are not modelled. `VecCheck` returns the position that would be printed.
- The timing loop (`high_resolution_clock`, the `double` average over CHECKLOOP runs), the random keys (`std::random_device`, `mt19937`, `uniform_int_distribution`), the RANDOM/SORT/QUARTERSORT input preparation, the output to the CSV file and console, and the size escalation in `check_performance` and `main` are not modelled. They are measurement, randomness and I/O. The keys enter the model as arbitrary inputs.
- Stability is stated by key (the first component). The program's input is tagged with its indices (line 418), which makes records distinct, and stability on the full pair order would hold trivially. The key-stability lemmas take as hypothesis what all three input modes guarantee: key ties in index order (`KeyTiesInOrder`, shown for the inputs by `SortSpec.BenchmarkInputKeyTiesInOrder`), or, for one merge, that the left half wins every key tie (`LeftWinsKeyTies`).
- The code re-sorts a copy of the output (line 457). The model follows the code in `DebugCheck.DebugCheckAsWritten` and records the difference under Findings.
