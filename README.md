# Signed LSD radix sort of `TestTaskSTL`

This project models the integer sort of the `gusev_n_sorting_int_simple_merging`
task in Dafny. The sort works in three stages:

- **Split by sign.** The input vector is split into the magnitudes `-x` of its
  negative values and its non-negative values. Each part keeps input order.
- **Radix sort each part.** Each part is sorted by a least-significant-digit
  radix sort. That is one stable counting-sort pass per decimal place while the
  largest value still has a digit there.
- **Recombine.** The result is the negatives, reversed and with the sign restored,
  followed by the sorted non-negatives.

The functional tests compare the output with `std::sort` of the input. This
model proves the same comparison for every input: `RadixSorter.RadixSort`
leaves exactly `Ordering.Sort(old contents)`. `Ordering.Sort` is an insertion
sort that stands for `std::sort`. `Ordering.SortedUnique` shows that any
sorted permutation of the input equals it.

The class header declares the four private routines `RadixSort`,
`SplitAndSort`, `RadixSortForNonNegative` and `CountingSort`, all on a
`std::vector<int>&`. The implementation file `ops_stl.cpp`, which holds their
bodies, is not part of this model. The model follows the algorithm the
routines are documented to carry out:

- The digit of `v` at place `exp` is `(v / exp) % 10`, so the base is **ten**.
  This is an assumption of the model (`CountingPass.Base`).
- The passes run while `maxVal / exp > 0`, with `exp = 1, 10, 100, …`.
- An empty or one-element vector is returned unchanged without any pass.
- Each counting-sort pass has three phases: a digit histogram, the prefix sums
  that give each digit's first write index, and a scatter in input order. A
  copy back follows.

Modules:

- `Ordering` (`ordering.dfy`): ascending order, the reference sort, uniqueness
  of the sorted order, reversal.
- `CountingPass` (`counting_sort.dfy`): the specification of one pass,
  `StablePass`, which is buckets 0..9 one after the other. It also holds the
  pass's properties (permutation, grouping by digit, stability, the LSD step)
  and the imperative pass `CountingSort` on an array, proved equal to
  `StablePass`.
- `RadixSorter` (`radix_sort.dfy`): the sign split, the non-negative radix
  sort, recombination and the signed sort.
- `Scenarios` (`scenarios.dfy`): the fixed inputs of the functional tests.

## Model

| member | source | states |
|---|---|---|
| CountingPass.Digit | tasks/stl/gusev_n_sorting_int_simple_merging/include/ops_stl.hpp:25 | the digit at place `exp` is one of the ten histogram buckets, 0..9 |
| CountingPass.DigitHistogram | tasks/stl/gusev_n_sorting_int_simple_merging/include/ops_stl.hpp:25 | the histogram phase: bucket `d` holds the number of elements whose digit at `exp` is `d` |
| CountingPass.StartOffsets | tasks/stl/gusev_n_sorting_int_simple_merging/include/ops_stl.hpp:25 | the prefix-sum phase: digit `d` starts at the number of elements with a smaller digit |
| CountingPass.ScatterOne | tasks/stl/gusev_n_sorting_int_simple_merging/include/ops_stl.hpp:25 | writing one element at its digit's running offset keeps every bucket in its own slot of the output, in input order |
| CountingPass.Scatter | tasks/stl/gusev_n_sorting_int_simple_merging/include/ops_stl.hpp:25 | the scatter phase fills a fresh buffer with exactly the stable pass of the input |
| CountingPass.CountingSort | tasks/stl/gusev_n_sorting_int_simple_merging/include/ops_stl.hpp:25 | one pass in place: the array afterwards is `StablePass` of its old contents |
| CountingPass.StablePassPermutation | tasks/stl/gusev_n_sorting_int_simple_merging/include/ops_stl.hpp:25 | the pass keeps every value with its multiplicity, and the length |
| CountingPass.StablePassGrouped | tasks/stl/gusev_n_sorting_int_simple_merging/include/ops_stl.hpp:25 | after the pass the digits at `exp` ascend |
| CountingPass.StablePassStable | tasks/stl/gusev_n_sorting_int_simple_merging/include/ops_stl.hpp:25 | stability: for each digit, the elements with that digit leave the pass in the order they entered |
| CountingPass.StablePassSortedMod | tasks/stl/gusev_n_sorting_int_simple_merging/include/ops_stl.hpp:24-25 | the LSD step: input ascending modulo `exp` comes out ascending modulo `10 exp` |
| CountingPass.PrefixSortedMod | tasks/stl/gusev_n_sorting_int_simple_merging/include/ops_stl.hpp:24-25 | the first `d` buckets are ascending modulo `10 exp`, and their values modulo `10 exp` lie below `d exp` |
| RadixSorter.RadixSortForNonNegative | tasks/stl/gusev_n_sorting_int_simple_merging/include/ops_stl.hpp:24 | non-negative values end up ascending and a permutation of the input; fewer than two elements are left untouched |
| RadixSorter.SplitAndSort | tasks/stl/gusev_n_sorting_int_simple_merging/include/ops_stl.hpp:23 | the two outputs are the positive magnitudes of the negatives and the non-negatives, in input order; together they hold exactly the input's values, and their lengths add up to the input's |
| RadixSorter.SplitLoop | tasks/stl/gusev_n_sorting_int_simple_merging/include/ops_stl.hpp:23 | one scan appends each element to the output for its sign |
| RadixSorter.SplitCounts | tasks/stl/gusev_n_sorting_int_simple_merging/include/ops_stl.hpp:23 | each value occurs in the input as often as among the non-negatives plus its magnitude among the magnitudes |
| RadixSorter.SplitSigns | tasks/stl/gusev_n_sorting_int_simple_merging/include/ops_stl.hpp:23 | every magnitude is positive and every other element is non-negative |
| RadixSorter.SplitLength | tasks/stl/gusev_n_sorting_int_simple_merging/include/ops_stl.hpp:23 | the two outputs are together as long as the input |
| RadixSorter.SplitPermutation | tasks/stl/gusev_n_sorting_int_simple_merging/include/ops_stl.hpp:23 | the non-negatives together with the restored negatives are the input's values |
| RadixSorter.RestoreCount | tasks/stl/gusev_n_sorting_int_simple_merging/include/ops_stl.hpp:22 | restoring the sign makes `v` occur as often as `-v` did among the magnitudes |
| RadixSorter.RestoreSorted | tasks/stl/gusev_n_sorting_int_simple_merging/include/ops_stl.hpp:22 | ascending positive magnitudes, reversed and negated, are ascending negative values |
| RadixSorter.RecombineSorted | tasks/stl/gusev_n_sorting_int_simple_merging/include/ops_stl.hpp:22 | the restored negatives followed by the sorted non-negatives are ascending |
| RadixSorter.RecombinePermutation | tasks/stl/gusev_n_sorting_int_simple_merging/include/ops_stl.hpp:22 | the restored negatives followed by the non-negatives are a permutation of the input |
| RadixSorter.WriteBack | tasks/stl/gusev_n_sorting_int_simple_merging/include/ops_stl.hpp:22 | the vector is overwritten with the restored negatives followed by the non-negatives |
| RadixSorter.RadixSort | tasks/stl/gusev_n_sorting_int_simple_merging/include/ops_stl.hpp:22 | the vector ends up equal to the reference sort of its old contents, so it is ascending and a permutation; fewer than two elements are left as they were |
| Ordering.Sort | tasks/tbb/gusev_n_sorting_int_simple_merging/func_tests/main.cpp:43-44 | the reference sort (std::sort) returns an ascending permutation of its input |
| Ordering.SortedUnique | tasks/tbb/gusev_n_sorting_int_simple_merging/func_tests/main.cpp:43-45 | two ascending sequences with the same values are equal, so comparing with std::sort checks sortedness and permutation together |
| Ordering.SortCharacterised | tasks/tbb/gusev_n_sorting_int_simple_merging/func_tests/main.cpp:43-45 | any ascending permutation of the input is exactly the std::sort result |
| Ordering.SortIdempotent | tasks/tbb/gusev_n_sorting_int_simple_merging/func_tests/main.cpp:58-66 | sorting an already ascending sequence changes nothing |
| Ordering.SortDescending | tasks/tbb/gusev_n_sorting_int_simple_merging/func_tests/main.cpp:110-120 | sorting a non-increasing sequence reverses it |
| Scenarios.SortCopy | tasks/tbb/gusev_n_sorting_int_simple_merging/func_tests/main.cpp:90-95 | running the task on a copy of the input gives the std::sort result of that input |
| Scenarios.BasicScenario | tasks/tbb/gusev_n_sorting_int_simple_merging/func_tests/main.cpp:36-46 | the basic input comes out as 2, 24, 45, 66, 75, 90, 170, 802 |
| Scenarios.BasicExpected | tasks/tbb/gusev_n_sorting_int_simple_merging/func_tests/main.cpp:43-44 | std::sort of the basic input is that list |
| Scenarios.EmptyScenario | tasks/tbb/gusev_n_sorting_int_simple_merging/func_tests/main.cpp:48-56 | the empty vector stays empty |
| Scenarios.SingleElementScenario | tasks/tbb/gusev_n_sorting_int_simple_merging/func_tests/main.cpp:58-66 | the one-element vector {42} comes out unchanged |
| Scenarios.NegativeNumbersScenario | tasks/tbb/gusev_n_sorting_int_simple_merging/func_tests/main.cpp:68-78 | the mixed-sign input comes out as -5, -3, -1, 0, 2, 3 |
| Scenarios.MixedExpected | tasks/tbb/gusev_n_sorting_int_simple_merging/func_tests/main.cpp:75-76 | std::sort of the mixed-sign input is that list |
| Scenarios.DuplicatesScenario | tasks/tbb/gusev_n_sorting_int_simple_merging/func_tests/main.cpp:98-108 | the input with repeated values comes out as -7, -2, -2, -2, 0, 0, 3, 3, 5, 5, 5, 7, 7 |
| Scenarios.DuplicatesExpected | tasks/tbb/gusev_n_sorting_int_simple_merging/func_tests/main.cpp:105-106 | std::sort of the input with duplicates is that list |
| Scenarios.ReverseOrderScenario | tasks/tbb/gusev_n_sorting_int_simple_merging/func_tests/main.cpp:110-120 | the strictly descending run 9, 8, …, -3 comes out as -3, -2, …, 9 |

## Left out

- The task lifecycle (`ValidationImpl`, `PreProcessingImpl`, `RunImpl`,
  `PostProcessingImpl`, ops_stl.hpp:14-17) and the `input_`/`output_` fields
  (ops_stl.hpp:20) are not modelled. They copy buffers between the framework
  and the vectors; the model starts from the vector the sort receives.
- Parallel workers, per-worker histograms and barriers are not modelled. Each
  pass is one sequential histogram, prefix-sum and scatter, which is the
  one-worker case.
- The randomly generated test (main.cpp:80-96) is covered by the general
  contract of `RadixSort` and `SortCopy`, not as a scenario. Random number
  generation is outside the model.
- Values are unbounded integers. The model does not capture 32-bit overflow of
  `exp * 10` past the largest `int`, nor negation of the most negative `int`
  in the sign split.
- Division and remainder in the digit are Dafny's Euclidean ones. They agree
  with C++'s truncating operators because only non-negative values reach a pass.
- RadixSorter.SplitAndSort: the name suggests it may also sort the two parts.
  The model reads it as the split alone and sorts the parts afterwards in
  `RadixSort`; the final result is the same either way.
- CountingPass.CountingSort: its three phases are separate methods
  (`DigitHistogram`, `StartOffsets`, `Scatter`), and the scatter writes into a
  fresh buffer that is then copied back. The original routine does this in one
  body.
- The vectors are modelled as arrays. `SplitAndSort`'s two output vectors,
  which are only appended to, are returned sequences.
