# Longest increasing subsequence (dynamic programming)

This project models `dynamic_programming::longest_increasing_subsequence::LIS`
in Dafny. It is the quadratic dynamic program for the length of the longest
strictly increasing subsequence of the first `n` elements of a vector. The file
is named `longest_common_subsequence.cpp`, but the code and its comments compute
the longest *increasing* subsequence, and that is what is modelled here.

The routine fills a table `lis` so that `lis[i]` is the length of the longest
strictly increasing subsequence ending at position `i`. Every entry starts at 1.
For each earlier `j` with `a[j] < a[i]`, `lis[i]` is raised to `lis[j] + 1` when
that is larger. The answer is the largest entry, or 0 when `n == 0`.

The project has three modules:

- `IncreasingSubsequence` (`increasing_subsequence.dfy`) is the specification.
  A strictly increasing subsequence of `a[0..n)` is a list of positions below
  `n`. The positions ascend strictly, and so do the values at them.
- `Recurrence` (`recurrence.dfy`) writes the table recurrence as pure functions.
  It proves that each entry is the longest such subsequence ending at its
  position, and that the maximum entry is the longest one overall. Each result
  has two halves: a witness of that length exists, and nothing is longer.
- `LongestIncreasingSubsequence` (`lis.dfy`) holds the imperative model of `LIS`.
  It has the same loops and the same comparison `a[i] > a[j] && lis[i] < lis[j] + 1`.
  It also holds the source's concrete test.

The `uint64_t` elements are modelled as `nat`, and so are the `uint32_t` count
`n` and the `int` table entries. The vector is passed by const reference, so it
is modelled as an immutable `seq<nat>`. Only `a[0..n)` is read, and
`Recurrence.PrefixOnly` states that nothing beyond it affects the answer. The
source indexes `a[i]` for every `i < n`, so callers must supply `n <= |a|`.

## Model

| member | source | states |
|---|---|---|
| LongestIncreasingSubsequence.LisTable | dynamic_programming/longest_common_subsequence.cpp:49-59 | after both table loops, `lis` has `n` entries; entry `i` lies between 1 and `i + 1`, equals the recurrence, and bounds every strictly increasing subsequence ending at `i` |
| LongestIncreasingSubsequence.Lis | dynamic_programming/longest_common_subsequence.cpp:48-65 | the result is 0 for `n == 0` and lies in `1..n` otherwise; some strictly increasing subsequence of `a[0..n)` has exactly that length, and none is longer |
| LongestIncreasingSubsequence.TestExample | dynamic_programming/longest_common_subsequence.cpp:94-98 | `LIS({15,21,2,3,4,5,8,4,1,1}, 10)` returns 5 |
| LongestIncreasingSubsequence.ExampleTable | dynamic_programming/longest_common_subsequence.cpp:95-98 | for a sequence with the test's values, the largest table entry over the 10 positions is 5 |
| LongestIncreasingSubsequence.ExampleWitness | dynamic_programming/longest_common_subsequence.cpp:98 | positions 2..6 of the test's sequence hold 2, 3, 4, 5, 8, which form a strictly increasing subsequence of length 5 |
| Recurrence.BestEndingAt | dynamic_programming/longest_common_subsequence.cpp:51-57 | a table entry is at least 1, because it starts at 1 and is only raised, and at most `i + 1` |
| Recurrence.BestBefore | dynamic_programming/longest_common_subsequence.cpp:54-57 | after the inner loop has seen `k` earlier positions, the best extension is at most `k` |
| Recurrence.LongestLength | dynamic_programming/longest_common_subsequence.cpp:60-64 | the maximum over an empty table is 0; over a non-empty one it is between 1 and `n` |
| Recurrence.BestBeforeMonotone | dynamic_programming/longest_common_subsequence.cpp:54-57 | the entry being filled never decreases as the inner loop advances |
| Recurrence.BestBeforeCovers | dynamic_programming/longest_common_subsequence.cpp:55 | every earlier position with a strictly smaller value is taken into account |
| Recurrence.BestBeforeAttained | dynamic_programming/longest_common_subsequence.cpp:55-56 | a positive best extension comes from a specific earlier position with a strictly smaller value |
| Recurrence.WitnessEndingAt | dynamic_programming/longest_common_subsequence.cpp:53-59 | for each entry there is a strictly increasing subsequence of `a[0..i]` that ends at `i` and has that length |
| Recurrence.BoundEndingAt | dynamic_programming/longest_common_subsequence.cpp:53-59 | no strictly increasing subsequence ending at `i` is longer than entry `i` |
| Recurrence.BestEndingAtIsMaximum | dynamic_programming/longest_common_subsequence.cpp:53-59 | entry `i` is exactly the length of the longest strictly increasing subsequence ending at `i` |
| Recurrence.LongestCovers | dynamic_programming/longest_common_subsequence.cpp:61-63 | the maximum is at least every entry of the prefix |
| Recurrence.WitnessLongest | dynamic_programming/longest_common_subsequence.cpp:60-64 | some strictly increasing subsequence of `a[0..n)` has the maximum's length |
| Recurrence.BoundLongest | dynamic_programming/longest_common_subsequence.cpp:60-64 | no strictly increasing subsequence of `a[0..n)` is longer than the maximum |
| Recurrence.LongestLengthIsMaximum | dynamic_programming/longest_common_subsequence.cpp:33-34 | the maximum is the length of a longest strictly increasing subsequence of `a[0..n)`, the documented return value |
| Recurrence.PrefixOnly | dynamic_programming/longest_common_subsequence.cpp:48-55 | two inputs that agree on `a[0..n)` get the same answer, so nothing past `n` is read |
| Recurrence.NoSmallerBefore | dynamic_programming/longest_common_subsequence.cpp:55 | the comparison is strict: a position with no strictly smaller earlier value, even if equal ones exist, is extended by nothing |
| Recurrence.ConstantHasLengthOne | dynamic_programming/longest_common_subsequence.cpp:55 | a non-empty prefix whose values are all equal has answer 1 |
| IncreasingSubsequence.DropLast | dynamic_programming/longest_common_subsequence.cpp:55-56 | removing the last position of a subsequence of length at least 2 leaves one that ends at an earlier position holding a smaller value |

## Left out

- `stresstest` (lines 75-88) reads its input and expected answer from a file through standard input. That is I/O, and the expected answer is not available.
- `test`'s console message and `main` (lines 94-111) are printing and driver code. Only the value that `test` asserts is kept, as `TestExample`.
- The `int` table entries and result, and the signed `int i` compared with the unsigned `uint32_t n`, are modelled as unbounded naturals. Every entry is at most `n`, so no overflow arises for any `n` that fits in an `int`.
- A call with `n` larger than the vector reads out of bounds in C++. The model requires `n <= |a|` instead.
- The generated documentation search index `search/all_16.js` is a literal data table with no logic, so it is not modelled.
