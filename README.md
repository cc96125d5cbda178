# Set comparisons of WiggleTools, modelled in Dafny

WiggleTools compares two sets of replicate signal tracks window by window. Two reducers
do this. The t-test reducer publishes Welch's t-test p-value. The Mann-Whitney reducer
publishes a U statistic with a tie correction, turned into a p-value by a normal
approximation. Each reducer is an output iterator. On each pull it asks the window
synchroniser (`Multiset`) for the next window where both sets have a replicate in play.
It then computes the statistic and publishes `(chrom, start, finish, value)`, or sets
`done` once the stream is exhausted.

This project models `src/setComparisons.c`:

- `windows.dfy` (module `Windows`): the synchroniser, as a class holding a fixed sequence
  of windows, a cursor and a ghost log of the windows popped. It also holds the
  skip-until-both-in-play loop that both reducers open with, and `FirstFrom`, the
  specification of "the next window meeting a condition".
- `ttest.dfy` (module `TTest`): in-play sums and sums of squares, mean and variance over
  the full replicate count, Welch's statistic up to the square root, and the
  `TTestReducer` class (`Pop2`, `Pop`, `Seek`) with its factory `TTestReduction`.
- `rank_table.dfy` (module `RankTable`): the `(value, set)` table entries, the comparator,
  `Fill`, and the in-place sort. It also holds the pair-counting functions and their
  permutation lemmas.
- `rank_scan.dfy` (module `RankSumScan`): the rank scan. `Visit` and `ScanFrom` give it as
  a step function, and `RankScan` is the imperative loop proved equal to it. Lemmas follow
  about what the scan computes.
- `mann_whitney.dfy` (module `MannWhitney`): the constants `mu_U` and `sigma_U`, the erf
  argument, and the `MWUReducer` class with its preallocated `rankingTable` array, plus
  the factory `MWUReduction`.

Doubles are modelled as exact reals. Every increment of `U1` is an integer or a half, so
the real `U1` is exact. The t-test values are an idealisation of the `double` code. Each
published value stops before its foreign call. The t-test publishes
`TStat(numerator, radicand)`, with `t = numerator / sqrt(radicand)`. The Mann-Whitney
reducer publishes `ErfArgument(numerator, radicand)`, with
`p = 2 * erf(numerator / sqrt(radicand))`.

## Behaviour of the code that a reader may not expect

The model follows the code and proves what the code does. Each point below cites the
lines of `src/setComparisons.c` it comes from.

- The rank statistic depends on how qsort orders equal values. The tie correction only
  looks forward (lines 255 and 264). Take two equal values. With the first set's entry
  first, `U1 = 0.5`; the other way round, `U1 = 1` (`TieFirstSetFirst`,
  `TieSecondSetFirst`). With four equal values in the order A, A, B, B, `U1 = 0`, not
  `n1*n2/2 = 2` (`AllEqualFirstSetFirst`).
- `ties` is not reset when a later first-set entry has a different value. The table
  A(1), B(1), A(2), B(3) gives `U1 = 2`, where counting the tied pair as a half gives 1.5
  (`TiesCarryOver`).
- `mu_U` and the radicand of `sigma_U` are computed in C `int` arithmetic, so both
  truncate. When `n1*n2` is odd, `mu_U` is half a unit low (`MuUTruncates`). For
  `n1 + n2 <= 3` the radicand is 0, so the erf argument divides by zero
  (`SigmaUVanishes`).
- The defensive check at lines 101-105 tests the replicate count, not the in-play count.
  A set flagged in play always has a replicate, so the check never fires. The model
  asserts this instead of modelling the branch, whose `return;` from a `bool` function
  would leave the result undefined.
- Mean and variance divide by the full replicate count. A replicate that is out of play
  counts as a zero (`OutOfPlayCountsAsZero`). The Mann-Whitney table also puts 0 in
  place of such a replicate (`RankTable.Fill`).
- The zero-variance skip at lines 115-118 does not always drop a window where both sets
  hold one and the same in-play value. The window is skipped when every replicate is in
  play (`IdenticalConstantSkipped`). With one replicate of the first set out of play, that
  replicate counts as 0 (lines 107-112), so var1 = 1. The window then publishes
  t = 1 / sqrt(1/2) (`OutOfPlayBreaksConstantSkip`).

## Model

| member | source | states |
|---|---|---|
| `Windows.FirstFrom` | src/setComparisons.c:64-71 | the window a search stops at is the first one from `from` meeting the condition, or the end of the stream when there is none |
| `Windows.FirstFromRefines` | src/setComparisons.c:140-144 | searching for a stricter condition may first jump to the next window meeting a looser one; this is how the retry loop composes with the skip loop |
| `Windows.Multiset.Pop` | src/setComparisons.c:66 | popMultiset consumes exactly the current window: the cursor advances by one and that window is logged once |
| `Windows.Multiset.Seek` | src/setComparisons.c:44 | seekMultiset repositions the stream at the first window on the chromosome that ends after `start` |
| `Windows.LastIn` | src/setComparisons.c:64-74 | the last window in a range meeting a condition, or -1: it meets the condition and no later window in the range does |
| `Windows.LastInSkip` | src/setComparisons.c:59-71 | windows that fail the condition do not move the last window that meets it |
| `Windows.SkipToBothInPlay` | src/setComparisons.c:59-71 | stops at the next window where both sets are in play, popping each skipped window exactly once; reports exhaustion when the stream is or becomes done |
| `TTest.Accumulate` | src/setComparisons.c:81-98 | sum and sum of squares are taken over the in-play replicates of the set |
| `TTest.SumsIgnoreOutOfPlay` | src/setComparisons.c:86-91 | a replicate not in play does not change sum or sum of squares, whatever its value |
| `TTest.SumCountsInPlay` | src/setComparisons.c:87-89 | an in-play replicate's value enters the sum: raising it by d raises the sum by d |
| `TTest.Moments` | src/setComparisons.c:107-112 | mean = sum/count and var = sumSq/count - mean² over the full replicate count, and var >= 0 |
| `TTest.OutOfPlayCountsAsZero` | src/setComparisons.c:107-112 | the divisor is the full replicate count: one replicate at 2 and one out of play give mean 1 and variance 1 |
| `TTest.SumSquaredBound` | src/setComparisons.c:86-98 | Cauchy-Schwarz over the replicates: sum² <= count * sumSq |
| `TTest.VarianceNonNegative` | src/setComparisons.c:111-112 | the variance computed from the two sums is never negative |
| `TTest.WelchDefined` | src/setComparisons.c:115-125 | a window that passes the zero-variance check has a positive radicand and a non-negative numerator, so t >= 0 is defined |
| `TTest.WelchSymmetric` | src/setComparisons.c:122-125 | the statistic is unchanged when the two sets are swapped |
| `TTest.QualifiesSymmetric` | src/setComparisons.c:65-118 | whether a window yields a t-test value does not depend on the order of the sets |
| `TTest.IdenticalConstantSkipped` | src/setComparisons.c:115-118 | two sets whose replicates are all in play and all hold one same value have var1 + var2 = 0, so the window publishes nothing |
| `TTest.OutOfPlayBreaksConstantSkip` | src/setComparisons.c:107-118 | the skip above needs every replicate in play: the same in-play value 2 in both sets, with one first-set replicate out of play, gives a window that publishes the statistic TStat(1, 1/2) |
| `TTest.NextTTestAfterSkip` | src/setComparisons.c:115-118 | the window a pull publishes is found by skipping to both sets in play and, past a zero-variance window, searching again from the next one |
| `TTest.LeftCoordsStep` | src/setComparisons.c:59-74 | one attempt from a position either publishes the coordinates of the next both-in-play window or, when there is none, leaves the coordinates as they were |
| `TTest.TTestReducer.Pop2` | src/setComparisons.c:52-138 | a done iterator is untouched; otherwise it stops at the next both-in-play window, publishes its coordinates, yields a value exactly when the variances are not both zero (the value is unchanged otherwise), and pops it once; on exhaustion it sets done and leaves coordinates and value as they were |
| `TTest.TTestReducer.Pop` | src/setComparisons.c:140-144 | a pull publishes the first window from the cursor that qualifies for a t-test value, with its statistic, leaving the cursor just past it; or it sets done, keeps the value, and leaves the coordinates of the last zero-variance window it visited (the old ones if none) |
| `TTest.TTestReducer.Seek` | src/setComparisons.c:42-46 | after a seek, the iterator shows the first qualifying window from the seek position; or it is done with the value kept and the coordinates of the last zero-variance window visited; a done iterator only has its stream moved; the pop log grows by exactly the windows from the seek position up to the new cursor (nothing when done) |
| `TTest.TTestReduction` | src/setComparisons.c:146-154 | no iterator unless there are exactly two sets whose replicate counts sum to at least 3 |
| `RankTable.CompareValueSetPairs` | src/setComparisons.c:183-191 | orders entries by value alone: negative, positive or zero as the first value is below, above or equal to the second |
| `RankTable.CompareConsistent` | src/setComparisons.c:183-191 | the comparator is antisymmetric and transitive, and it ignores the set tag |
| `RankTable.Fill` | src/setComparisons.c:218-237 | positions 0..n1-1 hold the first set's values tagged false, positions n1..N-1 the second set's tagged true, with 0 for a replicate not in play |
| `RankTable.SortByValue` | src/setComparisons.c:239 | the sorted table is a permutation of the filled one, in non-decreasing value order, and no pair of entries is out of order by `compareValueSetPairs` |
| `RankTable.SortedMeansComparatorOrder` | src/setComparisons.c:183-191 | a table is in value order exactly when the comparator ranks no later entry before an earlier one |
| `RankTable.EntriesCountA` | src/setComparisons.c:221-237 | the filled table has N entries, of which n1 belong to the first set |
| `RankTable.EntriesPairCount` | src/setComparisons.c:221-237 | the pairs counted on the filled table are exactly the pairs of the two sets' values |
| `RankTable.TablePairCountPermutation` | src/setComparisons.c:239 | the number of (first-set, second-set) pairs with the second below the first does not depend on the table's order |
| `RankTable.CrossBelowBound` | src/setComparisons.c:241-273 | the pair count is at most n1 * n2 |
| `RankSumScan.RankScan` | src/setComparisons.c:241-273 | the loop, with its two look-ahead loops, computes the U1 and prev of the step-by-step scan specification |
| `RankSumScan.ScanEndsAtN1` | src/setComparisons.c:249 | with n1 first-set entries in the table, the scan ends with prev == n1 |
| `RankSumScan.ScanDistinct` | src/setComparisons.c:249-273 | on a strictly increasing table, U1 is the number of (first-set, second-set) pairs with the second below the first |
| `RankSumScan.DistinctValuesCountPairs` | src/setComparisons.c:218-273 | for any value-sorted permutation of the filled table with distinct values: U1 = #{(a,b) : b < a}, 0 <= U1 <= n1*n2, and prev == n1 |
| `RankSumScan.SingleReplicates` | src/setComparisons.c:241-273 | with one replicate per set and distinct values, U1 is 1 when the first set's value is the larger and 0 otherwise |
| `RankSumScan.TieFirstSetFirst` | src/setComparisons.c:262-268 | two equal values with the first set's entry first give U1 = 0.5 |
| `RankSumScan.TieSecondSetFirst` | src/setComparisons.c:250-251 | the same two equal values in the other order give U1 = 1, so the result depends on qsort's tie order |
| `RankSumScan.AllEqualFirstSetFirst` | src/setComparisons.c:252-260 | four equal values ordered A, A, B, B give U1 = 0 |
| `RankSumScan.TiesCarryOver` | src/setComparisons.c:252-260 | ties is not reset for a later first-set entry of another value: A(1), B(1), A(2), B(3) gives U1 = 2 |
| `MannWhitney.MuU` | src/setComparisons.c:308 | mu_U is n1*n2/2 truncated to an integer |
| `MannWhitney.SigmaURadicand` | src/setComparisons.c:309 | the radicand of sigma_U is n1*n2*(n1+n2+1)/12 truncated to an integer |
| `MannWhitney.MuUTruncates` | src/setComparisons.c:308 | when n1*n2 is odd, mu_U is half a unit below n1*n2/2 |
| `MannWhitney.SigmaUVanishes` | src/setComparisons.c:309 | for n1 + n2 <= 3 the radicand of sigma_U is 0 |
| `MannWhitney.NormalApproximation` | src/setComparisons.c:275-280 | the erf argument is -\|U1 - mu_U\| / sigma_U, never positive, in both branches |
| `MannWhitney.MWUReducer.Publish` | src/setComparisons.c:213-280 | the window's coordinates are published and, after filling, sorting and scanning, the table is a value-sorted permutation of the window's entries and the value is the erf argument of the scan's U1 |
| `MannWhitney.MWUReducer.Pop2` | src/setComparisons.c:193-285 | a done iterator is untouched; otherwise it stops at the next both-in-play window, leaves the table a value-sorted permutation of that window's entries, publishes the erf argument of the scan's U1, and pops the window once; sets done on exhaustion, leaving coordinates, value and table as they were |
| `MannWhitney.MWUReducer.Pop` | src/setComparisons.c:288-292 | a pull publishes the next both-in-play window, or sets done and leaves coordinates, value and table as they were; a done iterator is untouched |
| `MannWhitney.MWUReducer.Seek` | src/setComparisons.c:177-181 | after a seek, the iterator shows the first both-in-play window from the seek position, or is done with coordinates, value and table as they were; a done iterator only has its stream moved; the pop log grows by exactly the windows from the seek position up to the new cursor (nothing when done) |
| `MannWhitney.MWUReduction` | src/setComparisons.c:294-311 | no iterator unless there are exactly two sets and neither is empty; mu_U is fixed at construction |
| `MannWhitney.DistinctWindowValue` | src/setComparisons.c:241-280 | on a window whose N table values are distinct, the published numerator is -\|U - mu_U\|, with U the count of pairs (a, b), b < a, and U <= n1*n2 |

## Left out

- `gsl_cdf_tdist_Q` (line 133), `erf` (lines 277, 279) and `sqrt` (lines 122, 309) are
  floating-point library calls. The model stops at their arguments, so properties of the
  p-value itself, such as p lying in [0, 2], are not modelled.
- The Satterthwaite degrees of freedom `nu` (line 129) is a pure floating-point
  expression. It divides by zero when a count is 1, and it is not modelled.
- IEEE `double` rounding is not modelled. The test `var1 + var2 == 0` is decided on exact
  reals, which idealises the `double` code. NaN handling in `compareValueSetPairs` is not
  modelled either.
- The branch at lines 101-105 is not modelled. It is unreachable while a set's in-play
  flag implies that the set has a replicate, and the synchroniser's well-formedness
  states that flag.
- The synchroniser internals (`popMultiset`, `seekMultiset`, merging tracks into windows)
  are given as a window sequence and a cursor. `multiSet.h` and `multiSet.c` are not part
  of this model. A seek lands on the first window of the chromosome that ends after
  `start`. `Windows.Multiset.Seek` ignores `finish`: the clipping of windows to
  `[start, finish)` is not modelled. So after a seek the model's stream runs on past
  `finish` and onto later chromosomes, a seek ends in `done` only at the end of the whole
  stream, and the first window published may start before `start`.
- The generic iterator library (`newWiggleIterator`, the `pop` and `seek` wrappers in
  `wiggleIterator.c`) is not part of this model. So any first pull at construction, and
  any reset of `done` by the generic seek, is absent.
- `calloc`, `puts` and `exit` at construction are modelled as a `None` result.
- The order qsort leaves equal values in is not modelled. `SortByValue` is an insertion
  sort. Everything downstream relies only on its contract: a value-sorted permutation.
- C `int` overflow of `n1 * n2 * (n1 + n2 + 1)` for very large replicate counts is not
  modelled.
- `python/wiggletools/multiJob.py` is batch-job plumbing for external schedulers and is
  not modelled.
