# python-randvar in Dafny

A model of the core of `python-randvar`, a library of finite discrete random
variables, with proofs about it. It covers three parts.

- `randvar/core.py`. A `RandomVariable` is stored as its distribution
  (value to probability), its viability and a cumulative search index. The
  viability is how far the total probability may stray from 1. Drawing a
  value is a binary search over the index. `sample` repeats the draw.
  `rand_apply` and `randomable` compute the exact distribution of a
  function of independent random arguments.
- `randvar/statistics.py`. This holds the mean at `p = ±inf`,
  `expected_value`, `percentile`, `median`, `mode` and `variance`.
- The earlier top-level `core.py`. Its `RandVar` samples by a linear scan.
  Its `randomable` enumerates argument combinations with the recursive
  `_it_prod`.

Distributions are association lists `seq<Entry<T>>` in insertion order
(`Distribution`). Probabilities are exact reals. Exceptions are `Err`
values of a `Result`. The uniform draw `random()` is a parameter. The
module-level default viability of `randvar/core.py` is the parameter
`defaultViability`; `set_default_viability` only accepts values of at least
0. The modules follow the source:

- `Distribution` holds the mapping operations shared by both cores. These are lookup, `dist[val] += prob`, sums and moments, and the probability check both constructors run.
- `Product` holds the Cartesian products: the nested loops, `itertools.product` and `_it_prod`.
- `SearchIndex` holds the `(value, lower, upper)` index and the binary search shared by `choice` and `percentile`.
- `RandVarCore` is `randvar/core.py`.
- `RandVarStatistics` is `randvar/statistics.py`. `Moments` holds the real-arithmetic facts the statistics need.
- `LegacyCore` is the top-level `core.py`.

The library's own tests and exports expect a weight-based variable that the
code of `randvar/core.py` does not provide. The model follows the code.

- test/test_core.py:22-37 expects `EmptyDistributionError` for an empty
  distribution, `ZeroDistributionError` for a zero total and
  `NegativeWeightError` for a negative weight. It also expects raw weights
  with `_weight_sum == 4` and a zero-weight key to be dropped.
  randvar/__init__.py:1-2 imports those three errors from `randvar/core.py`,
  which does not define them. The constructor in `randvar/core.py`
  (randvar/core.py:29-51) instead asserts that every probability lies in
  `[0, 1]` and rejects a total that is more than the viability away from 1.
  It keeps zero entries.
- `choice` draws `random()` in `[0, 1)`, so a total below 1 can leave a draw
  with no interval. The model reports that case as the `IndexError` the
  search raises.
- `statistics.py` reads `var._weight_sum`, which the `RandomVariable` of
  `randvar/core.py` never sets, and iterates `var`, for which it defines no
  `__iter__`. Python then iterates through `__getitem__` with the indices
  0, 1, 2, ... until an `IndexError`. `__getitem__` (randvar/core.py:53-62)
  returns 0 for a non-key and never raises, so that iteration never ends:
  `sorted(var)` (randvar/statistics.py:42) and `max`/`min` over `var`
  (randvar/statistics.py:12-15) do not terminate as written. The model
  replaces that iteration by the keys in insertion order, and the weight sum
  by the sum of the stored probabilities.

## Model

| member | source | states |
|---|---|---|
| `Distribution.CheckProbabilities` | randvar/core.py:38-42 | The check reports "out of range" exactly when some probability is outside `[0, 1]`. Otherwise it reports a deviation exactly when the total is more than the viability away from 1, and carries that distance. |
| `Distribution.Lookup` | randvar/core.py:59-62 | A value that is not a key has probability 0. With distinct keys, a key's result is the weight stored for it. |
| `Distribution.AddTo` | randvar/core.py:170-173 | `dist[val] = prob` / `dist[val] += prob` adds exactly `prob` to the total. A new key is appended at the end. An existing key keeps its place. Every other entry is unchanged. |
| `Distribution.AddToLookup` | randvar/core.py:170-173 | After adding `w` at `v`, the probability of `v` grows by `w` and every other probability is unchanged. |
| `Distribution.AddToKeys` | randvar/core.py:170-173 | The keys after the update are the old keys plus `v`. |
| `Distribution.Accumulate` | randvar/core.py:168-173 | The accumulated `dist` keeps keys distinct. Its total is the total of the outcomes with positive weight. |
| `Distribution.AccumulateLookup` | randvar/core.py:168-173 | The probability of `u` in the accumulated `dist` is the summed weight of the positive-weight outcomes equal to `u`. |
| `Distribution.AccumulateKeys` | randvar/core.py:168-173 | `u` becomes a key exactly when some outcome with positive weight equals `u`. |
| `Distribution.CoverIsUnique` | randvar/core.py:45-51 | The half-open intervals of the entries do not overlap, so a draw lies in at most one. |
| `Distribution.CoverExists` | randvar/core.py:45-51 | Every draw in `[0, total)` lies in the interval of some entry. |
| `Distribution.CoverHasPositiveWeight` | randvar/core.py:45-51 | An entry whose interval holds a draw has positive probability. |
| `SearchIndex.IndexFrom` | randvar/core.py:45-51 | Node `i` of the index holds the `i`-th key. Its interval runs from the total of the entries before it to that total plus its own probability. |
| `SearchIndex.BuildIndex` | randvar/core.py:45-51 | The index the constructor builds, starting from `cum = 0`. It has no contract of its own: `SearchIndex.IndexFrom` states what each node holds and `SearchIndex.BuildIndexShape` that the intervals run without gaps from 0 to the total. |
| `SearchIndex.BuildIndexShape` | randvar/core.py:45-51 | The index starts at 0 and has no gaps. Each interval is as wide as its entry's probability. The last interval ends at the total. |
| `SearchIndex.Search` | randvar/core.py:77-88 | The binary search of `choice` and `percentile` terminates. It fails (`IndexError`) exactly when the target is at or beyond the end of the last interval. Otherwise it returns the node whose interval holds the target. |
| `RandVarCore.New` | randvar/core.py:29-51 | The constructor fails with `AssertionError` exactly when a probability is outside `[0, 1]`. It fails with `InviableRandomVariableError(err)` exactly when the total is further than the viability from 1, where `None` means the default. Otherwise it keeps the distribution unchanged with its search index and viability. |
| `RandVarCore.Probability` | randvar/core.py:53-62 | `var[val]` is the stored probability of a key and 0 for anything else. It always lies in `[0, 1]`. |
| `RandVarCore.Choice` | randvar/core.py:72-89 | `choice` succeeds exactly when the draw is below the total. It then returns the value whose interval holds the draw, which always has positive probability. Otherwise it raises `IndexError`. |
| `RandVarCore.SelectionIsUnique` | randvar/core.py:72-89 | A draw selects at most one value. |
| `RandVarCore.SelectionExists` | randvar/core.py:72-89 | Every draw below the total selects some value. |
| `RandVarCore.Sample` | randvar/core.py:91-96 | `sample(size)` succeeds exactly when all `size` draws are below the total. It returns one value per draw (none for a negative size), each the value its draw selects. Otherwise it raises `IndexError`. |
| `RandVarCore.PointMass` | randvar/core.py:129-134 | `RandomVariable({arg: 1})` for a constant argument. It has no contract of its own: `RandVarCore.PointMassIsNew` states that the constructor returns exactly this value, without error. |
| `RandVarCore.Resolve` | randvar/core.py:129-141 | One argument as a random variable: a random variable is kept and a constant becomes its point mass. It has no contract of its own; `RandVarCore.Resolved` applies it to every argument in order. |
| `RandVarCore.Resolved` | randvar/core.py:129-141 | `rand_args` and `rand_kwargs`: one random variable per argument, in the arguments' order, each the conversion of its argument. `RandVarCore.PointMassIsNew` states that a constant's conversion is what the constructor returns for `{arg: 1}`. `RandVarCore.ResolvedNonNegative` states that, for valid arguments, the converted distributions have no negative probability. |
| `RandVarCore.PointMassIsNew` | randvar/core.py:129-134 | A constant argument is converted without error into the one-point distribution. |
| `RandVarCore.MinViability` | randvar/core.py:142-145 | The viability of the result is at most the `viability` argument and every argument's viability, and equals one of them. |
| `RandVarCore.RandApply` | randvar/core.py:117-174 | `rand_apply` returns a valid random variable with that least viability, or one of the constructor's two errors. |
| `RandVarCore.Combinations` | randvar/core.py:147-157 | The combinations the two nested `itertools.product` loops visit. It has no contract of its own: `RandVarCore.CombinationsAsOneProduct` states that they are the product over all arguments, positional first, and `RandVarCore.CombinationsTotal` that their total joint probability is the product of the arguments' totals. |
| `RandVarCore.Weight` | randvar/core.py:165-167 | `functools.reduce(operator.mul, ..., 1)` over one combination. It has no contract of its own: `RandVarCore.WeightAppend` states that it is multiplicative over positional and named parts and `RandVarCore.WeightNonNegative` that it is never negative for probabilities of at least 0. |
| `RandVarCore.Outcomes` | randvar/core.py:147-169 | For each combination, in enumeration order, the value `func` returns on the combination's values, paired with the combination's joint probability. `RandVarCore.SumOutcomes` states that the outcomes carry the combinations' total weight. `RandVarCore.PushForwardProbability` states that each accumulated probability is the positive outcome mass for its value. |
| `RandVarCore.PushForward` | randvar/core.py:168-173 | The accumulated `dist` has distinct keys. `RandVarCore.PushForwardProbability` states each key's probability and `RandVarCore.PushForwardMass` its total. |
| `RandVarCore.PushForwardProbability` | randvar/core.py:165-173 | The accumulated probability of `u` is the summed joint probability of the combinations of positive probability that `func` maps to `u`. |
| `RandVarCore.ApplyProbability` | randvar/core.py:147-174 | The result of `rand_apply` gives `u` the summed product probability of every combination of argument values of positive probability on which `func` returns `u`. |
| `RandVarCore.ApplySupport` | randvar/core.py:147-174 | The values of the result are exactly the images of the combinations of positive probability. |
| `RandVarCore.WeightAppend` | randvar/core.py:165-167 | The joint probability of positional and named values together is the product of the two joint probabilities. |
| `RandVarCore.TotalWeightNest` | randvar/core.py:147-157 | The nested loops multiply the total joint probabilities of the outer and inner products. |
| `RandVarCore.TotalWeightItProd` | randvar/core.py:147-148 | The total joint probability of all combinations of the arguments is the product of their totals. |
| `RandVarCore.CombinationsAsOneProduct` | randvar/core.py:147-157 | The inner product over named arguments nested in the outer product over positional ones enumerates the product of all arguments, positional first. |
| `RandVarCore.ApplyConservesMass` | randvar/core.py:147-174 | The total probability of the distribution `rand_apply` builds is the product of the totals of its arguments. Skipping zero-probability combinations loses nothing. |
| `RandVarCore.RandApplyOutcome` | randvar/core.py:142-174 | On valid arguments, `rand_apply` succeeds exactly when every accumulated probability lies in `[0, 1]` and the product of the arguments' totals is within the least viability of 1. When the probabilities pass, the only failure is `InviableRandomVariableError` carrying that product's distance from 1. So two valid arguments whose totals each stray from 1 within their own viabilities can still give that error. |
| `RandVarCore.RandApplySucceeds` | randvar/core.py:117-174 | With valid random arguments whose totals are exactly 1 and a `viability` argument of at least 0, `rand_apply` succeeds and its result's total is 1. |
| `RandVarCore.RandApplyOfConstants` | randvar/core.py:129-141 | With only constant arguments and a viability argument of at least 0, `rand_apply` returns the point mass at `func` of the constants. |
| `RandVarCore.RandApplyAsWritten` | randvar/core.py:155-157 | As written, `rand_apply` raises `AttributeError` exactly when a named argument is a constant and the outer product is not empty. Otherwise it agrees with the corrected `RandVarCore.RandApply`. |
| `RandVarCore.NamedConstantRaises` | randvar/core.py:155-157 | As written, the constant `v` passed by name raises `AttributeError`, while the same constant passed positionally succeeds. |
| `RandVarCore.NamedConstantIsPointMass` | randvar/core.py:137-141 | Corrected, a constant passed by name gives the point mass at `func(v)`. |
| `RandVarCore.Randomable` | randvar/core.py:177-191 | `randomable(func, viability)`: a function of the arguments. It has no contract of its own: `RandVarCore.RandomableIsRandApply` makes every call `rand_apply`, so `RandVarCore.ApplyProbability`, `RandVarCore.ApplySupport` and `RandVarCore.RandApply` state what the wrapper returns. |
| `RandVarCore.RandomableIsRandApply` | randvar/core.py:177-191 | `randomable(func, viability)` called on arguments is `rand_apply` on them with that viability. This links the wrapper to `RandVarCore.ApplyProbability`, which states the distribution it returns. |
| `Product.ItProdSound` | core.py:67-77 | Every tuple `_it_prod` yields takes its `i`-th component from the `i`-th input. |
| `Product.ItProdComplete` | core.py:67-77 | Every tuple that takes its `i`-th component from the `i`-th input is yielded. |
| `Product.ItProdLength` | core.py:67-77 | The product has as many tuples as the product of the input lengths. With no inputs it is the single empty tuple. |
| `Product.ItProdFirstSlowest` | core.py:67-77 | The enumeration is lexicographic. The tuples starting with the `a`-th element of the first input form the `a`-th consecutive block. |
| `Product.ItProd` | core.py:67-77 | `_it_prod`. It has no contract of its own: `Product.ItProdSound` and `Product.ItProdComplete` state that it yields exactly the tuples with one component from each input, `Product.ItProdLength` how many and `Product.ItProdFirstSlowest` in which order. |
| `Product.Cross` | core.py:67-74 | One level of `_it_prod_help`: `(m,) + t` for every `m` in `mine` and `t` in `theirs`, `mine` varying slowest. It has no contract of its own; `Product.ItProd` applies it once per input, and the `ItProd` lemmas state the result. |
| `Product.ItProdAppend` | randvar/core.py:147-157 | The product over two lists of inputs, one loop nested in the other, is the product over all inputs in order. |
| `Product.Nest` | randvar/core.py:147-157 | `for p in ps: for q in qs: yield p + q`. It has no contract of its own: `Product.NestMember` states its members and `Product.ItProdAppend` that nesting two products gives the product over both input lists. |
| `Product.NestMember` | randvar/core.py:147-157 | The nested loops yield exactly the concatenations of an outer tuple with an inner tuple. |
| `RandVarStatistics.MeanAtInfinity` | randvar/statistics.py:12-15 | `mean(var, inf)` is a value of `var` at least every value. `mean(var, -inf)` is a value of `var` at most every value. For no values, `max`/`min` raises `ValueError`. |
| `RandVarStatistics.ExpectedValue` | randvar/statistics.py:24-33 | The expected value times the weight sum is the probability-weighted sum of the values. A weight sum of 0 raises `ZeroDivisionError`. |
| `RandVarStatistics.ExpectedValueBetweenExtremes` | randvar/statistics.py:12-33 | The expected value lies between `mean(var, -inf)` and `mean(var, inf)`. |
| `RandVarStatistics.ExpectedValueOfPointMass` | randvar/statistics.py:24-33 | The expected value of a constant is the constant. |
| `RandVarStatistics.SortAscending` | randvar/statistics.py:42 | `sorted` returns a permutation of the values in non-descending order. |
| `RandVarStatistics.SortAscendingStrict` | randvar/statistics.py:42 | Sorting distinct keys orders them strictly. |
| `RandVarStatistics.PercentileNodes` | randvar/statistics.py:42-50 | The `nodes` of `percentile`. It has no contract of its own: `RandVarStatistics.PercentileNodesShape` and `RandVarStatistics.PercentileNodeAt` state the index. |
| `RandVarStatistics.PercentileNodesShape` | randvar/statistics.py:42-50 | The percentile index over the sorted keys starts at 0, has no gaps, has one node per key and ends at the weight sum. |
| `RandVarStatistics.PercentileNodeAt` | randvar/statistics.py:42-50 | Node `j` holds the `j`-th smallest key. Its interval starts at the mass of the keys below it and is as wide as the key's probability. |
| `RandVarStatistics.PercentileSearch` | randvar/statistics.py:52-66 | The search for a target succeeds exactly when the target is below the weight sum. It then returns a key of positive probability whose mass below is at most the target and whose mass up to and including it exceeds the target. |
| `RandVarStatistics.PercentileAsWritten` | randvar/statistics.py:36-66 | As written, `percentile(var, p)` succeeds exactly when `p * weight_sum` is below the weight sum. So `p = 1` raises `IndexError`. On success, the result's cumulative interval holds `p * weight_sum`. |
| `RandVarStatistics.PercentileTargetAtOne` | randvar/statistics.py:53-64 | At `p = 1` the search target is the whole weight sum, which is why `PercentileAsWritten` fails there. |
| `RandVarStatistics.Percentile` | randvar/statistics.py:36-66 | For every `0 <= p <= 1` the corrected percentile succeeds exactly when the weight sum is positive. It returns a key of positive probability whose mass below is at most `p * weight_sum` and whose mass through it is at least that. The second inequality is strict for `p < 1`. |
| `RandVarStatistics.LastPositive` | randvar/statistics.py:36-66 | For `p = 1`, the key returned is one of positive probability whose mass through it is the whole weight sum. |
| `RandVarStatistics.Median` | randvar/statistics.py:69-75 | `median` succeeds exactly when the weight sum is positive. It returns a key of positive probability with at most half the weight below it and more than half up to and including it. |
| `RandVarStatistics.Mode` | randvar/statistics.py:78-84 | `mode(var, k)` succeeds exactly when `k - 1` is a valid Python index into the keys, negative ones included, and raises `IndexError` otherwise. |
| `RandVarStatistics.ModeIsMostProbable` | randvar/statistics.py:78-84 | `mode(var)` is a key of the largest probability. |
| `RandVarStatistics.ModeDescending` | randvar/statistics.py:83-84 | Ranks run by non-increasing probability. Of two equally probable keys the one inserted first ranks first, because the reversed sort is stable. |
| `RandVarStatistics.ModeVisitsEach` | randvar/statistics.py:83-84 | Every key is the mode at some rank `1..len`. |
| `RandVarStatistics.ModeRanksDistinct` | randvar/statistics.py:83-84 | Different ranks give different keys. |
| `RandVarStatistics.ModeFromEnd` | randvar/statistics.py:83-84 | A non-positive `k` counts back from the end: `mode(var, k)` is `mode(var, k + len)`. This unfolds Python's negative indexing; the ranking itself is stated by `ModeDescending`. |
| `RandVarStatistics.ModeAtRank` | randvar/statistics.py:83-84 | `mode(var, k)` for `1 <= k <= len` is the key at rank `k` of the sort. This unfolds `pairs[k - 1]`; the order of the ranks is stated by `ModeDescending`, `ModeVisitsEach` and `ModeRanksDistinct`. |
| `RandVarStatistics.InsertByRanked` | randvar/statistics.py:83 | Inserting a position into a ranked list keeps it ranked by descending probability and insertion order. |
| `RandVarStatistics.SortByRanked` | randvar/statistics.py:83 | The stable descending sort ranks every position. |
| `RandVarStatistics.SortBy` | randvar/statistics.py:83 | The stable sort of positions by descending probability returns a permutation of its input, so it neither drops nor repeats a position. `RandVarStatistics.SortByRanked` states its order. |
| `RandVarStatistics.ModeOrder` | randvar/statistics.py:83 | The ranking of `sorted(..., key=var.__getitem__, reverse=True)` has one entry per key. `RandVarStatistics.ModeOrderFacts` states that it lists every position once, in rank order. |
| `RandVarStatistics.Pairs` | randvar/statistics.py:83 | `pairs` has one entry per key. `RandVarStatistics.ModeDescending`, `RandVarStatistics.ModeVisitsEach` and `RandVarStatistics.ModeRanksDistinct` state its order and contents through `mode`. |
| `RandVarStatistics.Variance` | randvar/statistics.py:87-94 | `variance` fails only with an error of `rand_apply` or a `ZeroDivisionError` of `expected_value`. |
| `RandVarStatistics.SecondMoment` | randvar/statistics.py:92-94 | `rand_apply(sqr, var)` keeps the weight sum and carries the second moment of `var`. |
| `RandVarStatistics.VarianceSplit` | randvar/statistics.py:92-94 | The variance is the mean square of the values less the square of the expected value. |
| `RandVarStatistics.VarianceIsCentralMoment` | randvar/statistics.py:87-94 | The variance times the weight sum is the probability-weighted sum of squared deviations from the expected value. |
| `RandVarStatistics.VarianceNonNegative` | randvar/statistics.py:87-94 | A variance is never negative. |
| `Moments.WeightedMeanBounds` | randvar/statistics.py:32-33 | A probability-weighted mean of values in `[lo, hi]` lies in `[lo, hi]`. |
| `Moments.CentralFromMoments` | randvar/statistics.py:94 | If `f = g - 2 mu h + mu^2` pointwise, the means of `g` and `h` determine the mean of `f`. |
| `LegacyCore.New` | core.py:26-39 | `RandVar(dist, viability)` fails with `AssertionError` exactly when a probability is outside `[0, 1]`. It fails with `FloatDegradationError(err)` exactly when the total is further than the viability from 1. Otherwise it stores both unchanged. |
| `LegacyCore.Probability` | core.py:41-50 | `var[val]` is the stored probability of a key and 0 otherwise. |
| `LegacyCore.ScanSample` | core.py:57-62 | The scan returns nothing (`None`) exactly when the draw is at or above the total. Otherwise it returns the value whose cumulative interval holds the draw. |
| `LegacyCore.PickIsUnique` | core.py:57-62 | A draw picks at most one value. |
| `LegacyCore.ScanAgreesWithChoice` | core.py:57-62 | On the same distribution and draw, the linear scan picks exactly the value the binary search of `randvar/core.py`'s `choice` selects. It picks nothing exactly when `choice` raises. |
| `LegacyCore.Sample` | core.py:52-64 | `sample(1)` is one scan. Every other size gives `max(size, 0)` scans, one per draw, each the value its draw picks. |
| `LegacyCore.Converted` | core.py:88-93 | `sargs`: one variable per argument, in order. A variable is kept and a constant becomes `Certainly` of it. `LegacyCore.CertainlyIsNew` states that this conversion is what the constructor returns for `{arg: 1.0}`. |
| `LegacyCore.Certainly` | core.py:92-93 | `RandVar({arg: 1.0})` for a constant. It has no contract of its own: `LegacyCore.CertainlyIsNew` states that the constructor returns exactly this value, without error. |
| `LegacyCore.CertainlyIsNew` | core.py:92-93 | A constant argument is converted without error into the one-point distribution. |
| `LegacyCore.MinViability` | core.py:100 | The viability of the result is at most every argument's and equals one of them. |
| `LegacyCore.Joint` | core.py:102-104 | The combinations the two nested `_it_prod` loops visit with no keyword arguments. It has no contract of its own: `LegacyCore.JointIsProduct` states that they are those of the positional `_it_prod`. |
| `LegacyCore.JointIsProduct` | core.py:102-104 | The inner loop over no keyword arguments runs once, so the combinations are those of `_it_prod`. |
| `LegacyCore.Pushed` | core.py:101-111 | The accumulated `dist` has distinct keys. `LegacyCore.AppliedToProbability` states each key's probability and `LegacyCore.AppliedToConservesMass` its total. |
| `LegacyCore.AppliedTo` | core.py:87-112 | Called with no arguments, `applied_to` raises `ValueError` from `min`. Otherwise it succeeds exactly when the accumulated distribution passes the constructor's check at the least viability. |
| `LegacyCore.Randomable` | core.py:79-113 | `randomable(func)`: a function of the arguments. It has no contract of its own: `LegacyCore.RandomableIsAppliedTo` makes every call `applied_to`, whose distribution `LegacyCore.AppliedToProbability` states. |
| `LegacyCore.RandomableIsAppliedTo` | core.py:79-113 | `randomable(func)` called on arguments is `applied_to` on them. |
| `LegacyCore.AppliedToProbability` | core.py:101-111 | The result gives `u` the summed product probability of the combinations of positive probability that `func` maps to `u`. |
| `LegacyCore.AppliedToConservesMass` | core.py:101-111 | The total probability of the accumulated distribution is the product of the totals of the arguments. |
| `LegacyCore.AppliedToConstants` | core.py:88-112 | With only constants, the result is the point mass at `func` of them, with the default viability. |
| `LegacyCore.AppliedToAgreesWithRandApply` | core.py:87-112 | The legacy decorator and the later `rand_apply`, given the same positional arguments, build the same distribution. Both products are modelled over the same product of entries. The legacy code enumerates keys and looks up each probability (core.py:102-105). `rand_apply` enumerates `(value, probability)` items. The agreement therefore holds by construction of the model, and states that the two enumerations visit the same combinations with the same weights. |

## Left out

- `RandomVariable.__str__` and `__repr__` (randvar/core.py:64-70) are string formatting only.
- `get_default_viability` and `set_default_viability` (randvar/core.py:99-114) read and write a module global. The model makes the value an explicit parameter. `RandVarCore.RandApply`, `RandVarCore.RandApplyAsWritten`, `RandVarCore.Randomable` and the lemmas about them require it to be at least 0, which is all the setter admits. `RandVarCore.New` does not require it, because the constructor only compares the deviation against it.
- `deepcopy` of distributions, arguments and drawn values is left out. Values are immutable in the model, so a copy equals the original.
- `random()` is replaced by draws passed in as parameters. Uniformity of the draws is not modelled.
- Floating-point rounding is left out. Probabilities are exact reals. The viability check is still modelled, but the rounding it guards against does not arise. `functools.reduce(operator.mul, ...)` folds from the left while `RandVarCore.Weight` folds from the right; over the reals they are equal.
- `mean` for finite `p` (randvar/statistics.py:16-21) needs `exp`, `log` and real powers, so only `p = ±inf` is modelled.
- `stddev` (randvar/statistics.py:97-102) needs a square root.
- The distribution families of `randvar/distributions.py` and `distributions.py` are consumers of the core.
- The top-level `statistics.py` is a one-line unnormalised duplicate of `expected_value`.
- Keyword arguments of the legacy `randomable` (core.py:94-104) are left out; only positional arguments are modelled. As written, the inner `_it_prod` is built once per tuple of the positional product, so nothing about keywords is evaluated when that product is empty. Otherwise a keyword constant raises `AttributeError` on its `._dist` while the inner product is built (core.py:103). If every keyword argument is a `RandVar`, the first tuple of a non-empty inner product raises `NameError` on the undefined `i` (core.py:104). Either product is empty when one of its variables has an empty distribution, which the constructor accepts at a viability of at least 1.
- Named arguments of `rand_apply` are modelled as further positions after the positional ones, in `ordered_names` order. `func` receives one sequence of values instead of `*args, **kwargs`.
- Values of every argument and of `func`'s result share one type `T`, where Python mixes types freely. `func` is a total Dafny function, so an exception raised inside it is not modelled.
- The statistics work on random variables over `real`. `sorted` compares reals, and `Before` orders the keys for `mode` by probability.
- RandVarStatistics.PercentileAsWritten: requires `p * weight_sum >= 0`. For a negative target the loop of randvar/statistics.py:58-64 never ends.
- RandVarStatistics.Percentile: requires `0 <= p <= 1`, the range its documentation gives.
- RandVarStatistics.Variance: its own contract states only the error cases. Its value is stated by `VarianceSplit`, `VarianceIsCentralMoment` and `VarianceNonNegative`.
- RandVarStatistics.SquareArg: squares the single value it is given and returns 0 for any other number of values, which `variance` never passes.
- RandVarCore.RandApply: its own contract states neither the distribution nor when the call succeeds. `ApplyProbability`, `ApplySupport` and `ApplyConservesMass` state the distribution. `RandApplyOutcome` states the exact success condition on valid arguments, and `RandApplySucceeds` states a sufficient one.
- RandVarCore.Choice: requires a draw of at least 0, as `random()` returns; a draw below 1 is not required. `RandVarCore.Sample`, `LegacyCore.ScanSample` and `LegacyCore.Sample` require the same of their draws.
- LegacyCore.Sample: returns, for a size other than 1, the list of `sample()` results, each the one-element list `[val]` or `None`. It is modelled as `Many` of optional values.

## Findings

| source | as written | input that shows it | evidently intended | confidence | as-written member | corrected member |
|---|---|---|---|---|---|---|
| randvar/statistics.py:53-64 | The search target is `p * weight_sum`, and the search fails when no interval holds the target. Intervals are half-open, so the target `weight_sum` reached at `p = 1` lies in none, and `nodes[ind]` raises `IndexError`. | `percentile(var, 1)` for any `var` with a positive weight sum | The documented range `0 <= p <= 1` includes 1, which should give the largest value of positive probability. | high, not executed | `RandVarStatistics.PercentileAsWritten` | `RandVarStatistics.Percentile` |
| randvar/core.py:155-157 | The inner product reads `kwargs[name]._dist`, the raw keyword argument, rather than `rand_kwargs[name]._dist`, its converted random variable. | `rand_apply(f, x=3)`, a constant passed by name, raises `AttributeError` | A named constant is a point mass, as the docstring says of all non-random arguments and as happens positionally. | high, not executed | `RandVarCore.NamedConstantRaises` | `RandVarCore.NamedConstantIsPointMass` |
