# Closing-price data pipeline, modelled in Dafny

This project models the data-preparation core of the `EstimatedClosingPrice`
class in `NumericRegression.py`: the pipeline that prepares real-estate sales
for a regression network that predicts a home's closing price. It covers:

- the per-field cleaning rules of `preprocess_raw_data`: status separation,
  primary style, home age, basement flag, currency strings and close season;
- moving `Targets` to the last column, and feature selection by category;
- min-max scaling of the numeric columns;
- the two-sided outlier trim on the change from list price;
- the distribution balancer `balance_clean_data`;
- the shuffle and split of `prepare_tensor_data`;
- the best-loss promotion of `build_model`.

Modules follow the pipeline:

| module | what it holds |
|---|---|
| `Common` | `Option`, `Result`, subsequences |
| `Rounding` | Python's round-half-to-even |
| `Cleaning` | the field cleaners |
| `Columns` | the schema operations |
| `Scaling` | min-max scaling |
| `Outliers` | the trim |
| `Balancer` | the balancer |
| `Partition` | the split |
| `Promotion` | the best-run rule |
| `ClosingPrice` | the class and its fields |

The parts that update state in place are methods:

- the list-building loops of the cleaners;
- the bucket-counting loops;
- the selection loop, which reassigns `self.balanced_data`;
- the promotion, which updates `self.lowest_loss`, `self.model` and the saved
  scaler.

Each method is proved against a specification function, and the properties
are lemmas about those functions. Values that are floats in the source are
exact reals here. Python's `round` and numpy's 'nearest' quantile are modelled
with an explicit round-half-to-even.

The balancer is modelled as the code is written. Line 298 assigns the field
from a local table that is never updated after the first key. So the balanced
table is the first bucket's rows plus the last bucket's rows, and with a
single bucket the field keeps its old value. `Balancer.BalancedIntended` models
the accumulation the loop evidently intends (see Findings). The class uses the
code as written.

Four behaviours of the code a reader may not expect, all modelled as written:

- An unrecognised basement value becomes a missing value and is not an error.
- A row whose delta equals a quantile is removed, because both comparisons are
  strict.
- The lower quantile is taken over the rows left after the upper cut.
- The first bucket's selection has no lower bound, although its count covers
  only (0, key].

## Model

| member | source | states |
|---|---|---|
| Cleaning.ClosedListings | NumericRegression.py:58-60 | every kept listing is "Closed", every "Closed" listing is kept, and the original order is kept |
| Cleaning.OpenListings | NumericRegression.py:61 | every kept listing is not "Closed", every other listing is kept, and the order is kept |
| Cleaning.SeparationIsPartition | NumericRegression.py:58-61 | the closed and the other listings together are the raw table as a multiset, and their sizes add up |
| Cleaning.BeforeFirst | NumericRegression.py:78 | `split(sep)[0]` is the prefix before the first `sep`, holds no `sep`, and is cut exactly at a `sep` or at the end |
| Cleaning.PrimaryStyleIsLongestPlainPrefix | NumericRegression.py:77-84 | the primary style is a prefix of the raw style with neither ',' nor '/', ending at one of them or at the end |
| Cleaning.PrimaryStyle | NumericRegression.py:77-84 | the primary style is a prefix of the raw style and holds neither ',' nor '/' |
| Cleaning.PrimaryStyleIdempotent | NumericRegression.py:77-84 | cleaning a primary style again changes nothing |
| Cleaning.PrimaryStyleExample | NumericRegression.py:77-84 | "Colonial/Split Level, Other" becomes "Colonial" |
| Cleaning.SimplifyStyles | NumericRegression.py:73-84 | the two appending loops give one primary style per input style, in order |
| Cleaning.HomeAge | NumericRegression.py:91-95 | an unknown year (0) gives age 0; a year from 1 to the current year gives an age from 0 to below the current year |
| Cleaning.HomeAges | NumericRegression.py:87-98 | one age per year, in order: 0 for an unknown year (0), otherwise the age plus the year is the current year (definitional: the loop's branch, element by element) |
| Cleaning.BasementFlag | NumericRegression.py:101 | "Yes" gives 1 and "No" gives 0; any other value is missing (definitional: the mapping itself) |
| Cleaning.StripLeft | NumericRegression.py:117-119 | the result is a suffix, only whitespace was removed, and it does not start with whitespace |
| Cleaning.StripRight | NumericRegression.py:117-119 | the result is a prefix, only whitespace was removed, and it does not end with whitespace |
| Cleaning.Strip | NumericRegression.py:117-119 | `str.strip()` keeps one contiguous part of the string: everything before and after it is whitespace, and it neither starts nor ends with whitespace |
| Cleaning.RemoveChar | NumericRegression.py:121-127 | `replace(c, "")` leaves no `c`, keeps the order, and keeps every other character with its multiplicity |
| Cleaning.RemoveSymbolsCounts | NumericRegression.py:121-127 | removing '$' then ',' deletes exactly those characters and keeps the rest in order |
| Cleaning.RemoveSymbolsEmpty | NumericRegression.py:121-131 | the removal leaves "" exactly when the stripped string held only '$' and ',' |
| Cleaning.CleanCurrency | NumericRegression.py:117-131 | a cleaned price is never empty and holds neither '$' nor ',' |
| Cleaning.CleanCurrencySpec | NumericRegression.py:117-131 | a cleaned price has no '$' or ',', is never empty, is "0" for a symbols-only string, and is otherwise the stripped input minus exactly those symbols, in order |
| Cleaning.SeasonOf | NumericRegression.py:182-194 | each season exactly for its month range (Winter 12, 1-2; Spring 3-5; Summer 6-8), and Fall for 9-11 and for every value outside 1-12 (definitional: the if-chain as ranges) |
| Cleaning.SeasonsSplitTheYear | NumericRegression.py:184-194 | Winter is {12, 1, 2}, Spring {3, 4, 5}, Summer {6, 7, 8} and Fall {9, 10, 11} of the calendar months |
| Cleaning.CloseSeasons | NumericRegression.py:178-196 | one season per month, in order; Winter, Spring and Summer exactly for their three months, every other month Fall |
| Columns.WithoutTargets | NumericRegression.py:223-228 | the columns other than `Targets`, with their order and their multiplicities |
| Columns.FeatureColumns | NumericRegression.py:222-230 | the loop's schema ends with `Targets`, the other columns come before it in their original order, and `Targets` occurs exactly once |
| Columns.FeatureColumnsArePermutation | NumericRegression.py:222-233 | when `Targets` is a column once, the reordered schema is a permutation of the original |
| Columns.DropMatching | NumericRegression.py:237-238 | drops exactly the columns whose name contains the pattern, keeping the order |
| Columns.DropIf | NumericRegression.py:236-246 | one selection step drops the matching columns when the category is switched off, and nothing otherwise |
| Columns.SelectFeatures | NumericRegression.py:235-246 | no kept column mentions a disabled category, every other column is kept, and the order is kept |
| Columns.TargetsMatchesNoCategory | NumericRegression.py:225-246 | `Targets` contains none of "Style", "Season" and "County" |
| Columns.SelectionKeepsTargetsLast | NumericRegression.py:230-246 | after feature selection `Targets` is still the last column |
| Scaling.ColumnMin | NumericRegression.py:213-215 | `data_min_` is a value of the column and no value is smaller |
| Scaling.ColumnMax | NumericRegression.py:213-215 | `data_max_` is a value of the column and no value is larger |
| Scaling.Fit | NumericRegression.py:213-215 | fitting fails only on an empty column; the state is the column's minimum and maximum, both values of it |
| Scaling.Range | NumericRegression.py:213-215 | the divisor is never 0 (a constant column divides by 1) |
| Scaling.Transform | NumericRegression.py:215 | a value scales to 0 exactly when it is the minimum; for a non-constant column a value scales into [0, 1] exactly when it lies in the fitted range |
| Scaling.InverseTransform | NumericRegression.py:215 | the inverse gives the minimum exactly for 0; for a non-constant column it lies in the fitted range exactly for a value in [0, 1] |
| Scaling.FitTransform | NumericRegression.py:213-215 | `fit_transform` fails exactly on an empty column; otherwise it gives one value per row, each the row's value transformed by the column's own fit |
| Scaling.FitTransformSpec | NumericRegression.py:212-215 | a scaled value lies in [0, 1], the minimum scales to 0, and the inverse transform gives back the original value |
| Scaling.RoundTrip | NumericRegression.py:212-215 | the transform and its inverse undo each other in both directions |
| Scaling.TransformBounds | NumericRegression.py:212-215 | a value in the fitted range scales into [0, 1]; the minimum gives 0 and the maximum gives 1 |
| Scaling.TransformMonotone | NumericRegression.py:212-215 | scaling keeps the order of values |
| Outliers.Deltas | NumericRegression.py:143-147 | one delta per sale: close price plus concessions minus list price |
| Outliers.Sort | NumericRegression.py:149-151 | an ascending permutation of the values |
| Outliers.NearestRank | NumericRegression.py:149-151 | numpy's 'nearest' position is a valid index |
| Outliers.Quantile | NumericRegression.py:149-151 | the quantile exists exactly when there are values, and it is one of them |
| Outliers.QuantileRank | NumericRegression.py:149-156 | at most the nearest-rank position of the values lie below the quantile, and at most the positions after it lie above it |
| Outliers.KeepBelow | NumericRegression.py:153 | `delta < top`: an order-preserving subsequence of exactly the rows below the cut, as many as the deltas below it |
| Outliers.KeepAbove | NumericRegression.py:158 | `delta > bot`: an order-preserving subsequence of exactly the rows above the cut, as many as the deltas above it |
| Outliers.TopCut | NumericRegression.py:149-151 | the upper cut is missing only for an empty table; otherwise it is one of the deltas |
| Outliers.BelowTop | NumericRegression.py:153 | the upper cut keeps an order-preserving subsequence: every kept row lies below the cut and every row below it is kept |
| Outliers.BottomCut | NumericRegression.py:154-156 | the lower cut is missing only when no row survived the upper cut; otherwise it is a surviving delta and lies strictly below the upper cut |
| Outliers.TrimOutliers | NumericRegression.py:149-158 | the trim fails exactly for a threshold outside [0, 1] |
| Outliers.TrimIsSubsequence | NumericRegression.py:153-158 | the trim keeps an order-preserving subsequence and never adds a row |
| Outliers.TrimKeepsOnlyBand | NumericRegression.py:149-158 | every kept row lies strictly between the lower and the upper cut |
| Outliers.TrimKeepsWholeBand | NumericRegression.py:149-158 | every row strictly between the two cuts is kept |
| Outliers.TrimRemovesTheCuts | NumericRegression.py:149-158 | each cut removes at least the row it was taken from; a trimmed table that is not empty lost at least two rows |
| Outliers.KeepBelowQuantile | NumericRegression.py:149-153 | the upper cut keeps at most the nearest-rank position of the `1 - t` quantile |
| Outliers.TopCutAtTenPercent | NumericRegression.py:149-153 | for 100 sales at 10% the upper cut sits at position 89, so at most 89 rows survive it |
| Outliers.HundredRowsAtTenPercent | NumericRegression.py:149-158 | 100 sales trimmed at 10% keep at most 88 rows |
| Balancer.TargetColumn | NumericRegression.py:259 | the `Targets` cell of every row, in table order |
| Balancer.SortedTargets | NumericRegression.py:259 | `all_targets` is sorted and holds exactly the targets of the table, each as often as there |
| Balancer.ArangeLength | NumericRegression.py:266 | `np.arange` yields the fewest steps that reach the stop value |
| Balancer.BucketKeys | NumericRegression.py:261-267 | one key per `np.arange` value from the lowest target plus a step to the highest plus a step, each rounded to one decimal |
| Balancer.BucketKeysAreSteps | NumericRegression.py:261-268 | the rounded keys are exactly 0.2 apart, so they are strictly ascending and no two share a dictionary entry |
| Balancer.NoBucketsIffConstant | NumericRegression.py:262-266 | there is no bucket exactly when the highest target equals the lowest |
| Balancer.OneBucketIffNarrow | NumericRegression.py:262-266 | there is one bucket exactly when the targets span more than 0 and at most one step |
| Balancer.UnitRangeKeys | NumericRegression.py:258-267 | targets spanning [0, 1] give the keys 0.2, 0.4, 0.6, 0.8 and 1.0 |
| Balancer.KeysFor | NumericRegression.py:259-268 | the keys of a table are strictly ascending and exactly one step (0.2) apart |
| Balancer.CountIn | NumericRegression.py:269-271 | the number of targets in (lo, hi] is at most the number of targets |
| Balancer.CountInNoneOrAll | NumericRegression.py:269-271 | the count is 0 exactly when no target lies in (lo, hi], and it is the number of targets exactly when all do |
| Balancer.BucketCounts | NumericRegression.py:265-272 | one count per key, each at most the number of targets |
| Balancer.CountBuckets | NumericRegression.py:265-272 | the nested loops count, for every key, the targets in (previous key, key], with 0 as the first previous key |
| Balancer.SortedCountsAgree | NumericRegression.py:259-271 | counting over the sorted targets gives the counts of the targets in table order |
| Balancer.CountsAtMostTargets | NumericRegression.py:265-272 | the counts add up to at most the number of targets |
| Balancer.MaxCount | NumericRegression.py:275-279 | the cap is one of the counts and no count exceeds it |
| Balancer.CapInTableOrder | NumericRegression.py:279 | the cap is the largest count of the targets in table order |
| Balancer.Cap | NumericRegression.py:275-279 | `limiting_factor` is at most the table size, no bucket's count exceeds it, and it is the count of some bucket |
| Balancer.RowsInRange | NumericRegression.py:290-296 | every row the boolean mask keeps has a `Targets` cell whose target is in range |
| Balancer.RowsInRangeSpec | NumericRegression.py:290-296 | the mask keeps table order and every row in range, and selects as many rows as the counting loop counts |
| Balancer.Take | NumericRegression.py:290-296 | `iloc[:n]` is the prefix of length `min(n, size)` |
| Balancer.Contribution | NumericRegression.py:290-296 | a bucket contributes a prefix of its rows, at most `limit` and at most the bucket's size |
| Balancer.ContributionInBucket | NumericRegression.py:290-296 | a contribution holds only rows of its bucket's interval, each no more often than the bucket does |
| Balancer.CapIsNoOpAboveFirstBucket | NumericRegression.py:279-296 | with the largest count as the cap, every bucket after the first contributes all of its rows |
| Balancer.BalancedAsWritten | NumericRegression.py:287-298 | with two or more keys the table as written has a `Targets` cell in every row and at most twice the cap in rows |
| Balancer.BalancedIntended | NumericRegression.py:287-298 | the intended table has a `Targets` cell in every row and at most the cap per key in rows |
| Balancer.AccumulatedSize | NumericRegression.py:287-298 | the first m buckets contribute at most m times the cap in rows |
| Balancer.AsWrittenOnlyOuterBuckets | NumericRegression.py:287-298 | with two or more buckets, every row of the table as written lies in the first or the last bucket |
| Balancer.AsWrittenDropsMiddleBuckets | NumericRegression.py:287-298 | no row of a middle bucket reaches the table as written |
| Balancer.AsWrittenWithinIntended | NumericRegression.py:287-298 | the table as written holds no row more often than the intended accumulation does |
| Balancer.IntendedWithinRows | NumericRegression.py:287-298 | the intended table holds no row more often than the cleaned table |
| Balancer.IntendedBelowLastKey | NumericRegression.py:287-298 | every row of the intended table has a target at most the last key |
| Balancer.IntendedKeepsUpperBuckets | NumericRegression.py:279-298 | with the largest count as the cap, the intended table keeps every row above the first key and at most the last |
| Balancer.BalanceErrors | NumericRegression.py:259-279 | the balancer fails exactly on an empty table (no first target) or on constant targets (no bucket, so no maximum) |
| Balancer.Balance | NumericRegression.py:255-298 | a successful balance is either the previous field (one bucket) or holds rows of the cleaned table, each no more often than there |
| Balancer.AsWrittenFromRows | NumericRegression.py:287-298 | the selection loop leaves the previous field or a sub-multiset of the cleaned rows |
| Balancer.OneBucketKeepsPrevious | NumericRegression.py:287-298 | with a single bucket the balanced table is what the field held before |
| Balancer.BalanceSpec | NumericRegression.py:255-298 | with two or more buckets the result holds rows of the cleaned table, each no more often than there, all in the first or the last bucket |
| Balancer.UnitSpanKeys | NumericRegression.py:259-267 | targets spanning [0, 1], as min-max scaling leaves them, always give the keys 0.2, 0.4, 0.6, 0.8 and 1.0 |
| Balancer.AsWrittenExample | NumericRegression.py:255-298 | for rows with targets 0.0, b, c and 1.0, where b is in (0.2, 0.4] and c in (0.4, 0.6] (such as 0.3 and 0.5), the derived keys are 0.2 to 1.0 and the cap is 1, and `Balance` keeps only the rows 0.0 and 1.0 |
| Balancer.IntendedExample | NumericRegression.py:287-298 | on the same rows the intended accumulation keeps all four rows |
| Partition.SliceIndex | NumericRegression.py:320-326 | Python's normalisation of a slice bound: negative bounds count from the end, and bounds are clamped to [0, n] |
| Partition.PySlice | NumericRegression.py:320-326 | `s[i:j]` is the normalised slice, or empty when the bounds cross |
| Partition.SlicesJoin | NumericRegression.py:320-326 | three slices at ordered bounds put back together give the table, with sizes a, b - a and n - b |
| Partition.Shuffle | NumericRegression.py:309 | `iloc[perm]`: row k of the result is row `perm[k]` |
| Partition.ShuffleIsPermutation | NumericRegression.py:309 | shuffling by a permutation neither loses nor duplicates a row |
| Partition.ColumnsSplitRow | NumericRegression.py:320-326 | `:-1` and `-1:` put together give the row back, and `-1:` is the `Targets` cell |
| Partition.Features | NumericRegression.py:320-326 | `row[:-1]` is the row without its last cell, and empty for an empty row |
| Partition.TargetCell | NumericRegression.py:320-326 | `row[-1:]` is the one-cell list of the last cell, and empty for an empty row |
| Partition.SplitColumns | NumericRegression.py:320-326 | inputs and targets have one entry per row, the features and the target cell of that row |
| Partition.SplitColumnsRejoin | NumericRegression.py:320-326 | input k joined with target k gives row k |
| Partition.TrainingRows | NumericRegression.py:316 | the training bound is not negative for a proportion that is not negative, and at most N for a proportion of at most 1 |
| Partition.ValidationRows | NumericRegression.py:317 | the validation end never comes before the training bound for a validation proportion that is not negative, and is at most N when the proportions add up to at most 1 |
| Partition.BoundsOrdered | NumericRegression.py:316-318 | proportions that are not negative and sum to at most 1 give 0 <= training rows <= validation end <= N |
| Partition.Chunks | NumericRegression.py:316-326 | three chunks, which put back together give the shuffled table whenever neither proportion is negative |
| Partition.PrepareTensorData | NumericRegression.py:309-326 | in every chunk inputs and targets have one entry each per row, and for proportions that are not negative the chunks' sizes add up to the table's |
| Partition.ChunksPartitionRows | NumericRegression.py:309-326 | the three chunks join to the shuffled table, have the rounded sizes, and together hold every balanced row exactly once |
| Partition.TensorDataAligned | NumericRegression.py:309-326 | in every chunk inputs and targets line up, each target is one cell, and each rejoined row is a balanced row |
| Partition.TwoHundredRows | NumericRegression.py:253-318 | 200 rows at 0.85 and 0.10 give boundaries 170 and 190, so 170, 20 and 10 rows |
| Partition.HalfWayRoundsToEven | NumericRegression.py:316 | 5 rows at 0.5 give 2 training rows |
| Partition.OversizedProportionClamped | NumericRegression.py:316-320 | a training proportion of 1 or more takes the whole table |
| Partition.TrainingRowsAtLeast | NumericRegression.py:316 | a training proportion of 1 or more gives a bound of at least N |
| Rounding.RoundHalfEven | NumericRegression.py:316-317 | `round` gives an integer within 0.5 of its argument, and the even one at a tie |
| Rounding.RoundHalfEvenUnique | NumericRegression.py:316-317 | no other integer has those two properties |
| Rounding.RoundMonotone | NumericRegression.py:316-317 | a larger argument never rounds to a smaller integer |
| Promotion.BestIndex | NumericRegression.py:399-403 | the kept run has the lowest loss, and it is the first run with that loss |
| Promotion.LowestLoss | NumericRegression.py:25-25 | +infinity exactly before the first run; after that the loss of some run and no larger than any |
| Promotion.PromotionStep | NumericRegression.py:399-403 | a run is promoted exactly when its loss is strictly below the lowest; otherwise the kept run and the lowest loss stay |
| Promotion.LowestLossNeverIncreases | NumericRegression.py:399-400 | the lowest loss never increases |
| Promotion.EqualLossKeepsIncumbent | NumericRegression.py:399-403 | a loss equal to the lowest leaves the kept run in place |
| ClosingPrice.EstimatedClosingPrice.constructor | NumericRegression.py:17-27 | empty tables, no scaler, no model and a lowest loss of +infinity |
| ClosingPrice.EstimatedClosingPrice.ScaleNumericColumns | NumericRegression.py:204-216 | every column is scaled by its own fit, and the scaler instance ends fitted to the last column; an empty column is an error, and `fit` has then already cleared the scaler, so the scaler instance is left unfitted; nothing else changes |
| ClosingPrice.EstimatedClosingPrice.StoreCleanData | NumericRegression.py:248 | the clean table is replaced and nothing else changes |
| ClosingPrice.EstimatedClosingPrice.BalanceCleanData | NumericRegression.py:255-304 | the balanced field becomes `Balance` of the clean table; on an error nothing changes |
| ClosingPrice.EstimatedClosingPrice.SelectBuckets | NumericRegression.py:285-298 | the selection loop leaves the field as the first plus the last contribution, or unchanged with one key |
| ClosingPrice.EstimatedClosingPrice.PrepareTensorData | NumericRegression.py:307-326 | the field becomes its shuffle, and the returned data are the three chunks split into inputs and targets |
| ClosingPrice.EstimatedClosingPrice.BuildModel | NumericRegression.py:399-403 | promotes exactly on a strictly lower loss: the loss, the model and the saved scaler change together or not at all, and the loss never increases |

## Left out

- `get_counties` is left out: it reads and writes CSV files and calls a geocoding service over the network. The county is an opaque field of a row.
- CSV, `np.savez`, `np.load`, `joblib` and `model.save`/`load_model` are left out. The promotion records what the scaler dump would write as a field.
- Plotting and printing are left out, because they have no effect on the data.
- TensorFlow model construction, training, early stopping and evaluation are left out. A trained network is an identifier, and its final validation loss is a parameter.
- `pd.get_dummies` is left out, because it is a library call. The schema operations work on the column names it produces.
- `fillna(0)` at line 65 is left out: it replaces every missing value of the table with 0. The model takes its effect as input: a missing year built is the year 0 that `HomeAge` treats as unknown, and a missing basement value is a value other than "Yes" and "No".
- The renames, column selections and column drops of `preprocess_raw_data` (lines 68-69, 97, 104-110, 172-175 and 197) are left out: each stage's model takes only the columns that stage reads.
- The final `astype(float)`, which parses the cleaned price strings, is left out. The trim works on prices that are already numbers.
- `datetime.today()` and `strptime` are left out. The current year and the close month are parameters.
- `np.random.permutation` is left out. The permutation is a parameter, required to be a permutation of the row positions.
- Floating point is left out: values are exact reals. `np.arange` stepping and `round(x, 1)` are computed on reals, so float drift in the keys is not modelled.
- The `dropna` at line 204 is left out: it removes every row whose basement flag is missing, that is every row for which `BasementFlag` gives `None`. The scaling and the stages after it take tables that hold no such row.
- The `dropna` at line 304 is left out: after the balancer no cell is missing, so it changes nothing there.
- The end-to-end call chain of `preprocess_raw_data` is left out. There is no single function from raw listings to the cleaned table; each stage is modelled and proved separately.
- Non-string styles are left out: a style that is not a string raises in the source.
- Losses that are NaN are left out: a loss is a real number.
- `DataFrame.append`'s removal in newer pandas is left out: the model takes it as concatenation.
- Outliers.TrimOutliers: a threshold outside [0, 1] is an explicit error, where pandas raises.
- Scaling.FitTransformSpec: exact reals make the round trip exact. The stated tolerance and float behaviour are not modelled.
- ClosingPrice.EstimatedClosingPrice.ScaleNumericColumns: the whole table is not rebuilt from the scaled columns.

## Findings

| source | as written | input that shows it | evidently intended | confidence | as-written member | corrected member |
|---|---|---|---|---|---|---|
| NumericRegression.py:287-298 | every later key assigns `self.balanced_data = balanced_data.append(truncated)`, but the local `balanced_data` holds only the first bucket, so the field ends as the first plus the last bucket; with one bucket it is never assigned | cleaned rows with scaled targets 0.0, 0.3, 0.5 and 1.0 (derived keys 0.2, 0.4, 0.6, 0.8 and 1.0; counts 0, 1, 1, 0, 1; cap 1): the result is the rows 0.0 and 1.0, and the rows 0.3 and 0.5 are lost | every bucket's first `limit` rows, appended in key order | not executed | Balancer.AsWrittenExample | Balancer.IntendedKeepsUpperBuckets |
