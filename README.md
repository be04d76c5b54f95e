# Clonotype overlap metrics — a verified model

This project models the metric engine of the repertoire-overlap tool in
`software/src/main.py`. The engine reads a table with one row per clonotype and sample.
It drops rows with unusable V/J gene calls, then downsamples each sample by one of four
strategies. It builds a clone key for every row, computes pairwise overlap metrics
between samples, and assembles one wide result row per ordered pair of samples. The tool
also writes a reduced table of the unordered pairs (`sample1 <= sample2`).

The Dafny modules follow the stages of that pipeline:

| module | file | models |
|---|---|---|
| `Common` | common.dfy | `Option`, `Result` and the error cases the engine raises |
| `Rows` | rows.dfy | rows, cells, read fractions (`Finite` or `NaN`), per-sample counts and sums, boolean-mask selection (`df[mask]`) |
| `Ordering` | ordering.dfy | Python's string order and `sorted` on the distinct sample ids |
| `VdjFilter` | vdj_filter.dfy | `filter_vdj_regions` |
| `Downsampling` | downsampling.dfy | `downsample_df`: `none`, `top`, `cumtop`, `hypergeometric` and the `fractionOfReads` column |
| `CloneKey` | clone_key.dfy | `make_clone_key` |
| `Metric` | metric.dfy | `compute_metric` |
| `Aggregation` | aggregation.dfy | the clone maps of step 1 of `compute_metrics_wide` |
| `Pairwise` | pairwise.dfy | config grouping and step 2 of `compute_metrics_wide` (`metric_values`) |
| `Wide` | wide.dfy | the group loop with its downsampling cache, step 3 (populating `results`), and the unique-pair filter |

The imperative parts of the source are methods with loops, each proved equal to a
specification function:
- the column loop of the filter;
- the step-by-step reassignment of `df` and the per-sample resampling loop;
- the config-grouping loop;
- the nested pair/metric loops of step 2;
- the population loop of step 3;
- the group loop with its cache.

The properties below are lemmas about those functions.

Modelling choices:
- A table is a `seq<Row>`. Each row holds `sampleId`, `numberOfreads`, a map from the identity columns to cells (`Null` or `Text`) and the row's cell of the input's own `fractionOfReads` column, which is read only when the table has that column. The set of columns the table has is a separate parameter, because the source tests `col in df.columns` and raises `KeyError` for a missing key column.
- A fraction is exact `real` division, or `NaN` for `0 / 0`.
- Metric values are exact where the source computes exact set and real arithmetic (`jaccard`, `D`, `sharedClonotypes`, the correlation guard). `F1`, `F2` and the Pearson coefficient are kept as symbolic values over the shared clone maps.
- The multivariate hypergeometric draw is a function parameter `draw(k, counts, size)`, where `k` counts the draws made so far. Lemmas that need it require only that every draw of `size` from `counts` takes at most each count and sums to `size` (`DrawSound`). `DrawSoundSatisfiable` shows that such a draw exists.
- The 20th percentile of the sample totals (`np.quantile`) is a parameter `q20`.
- A wide result is `Results(order, entries)`: the insertion order of the pair keys and, per pair, a map from column name to value. The `sample1`/`sample2` columns are the pair key itself.

## Model

| member | source | states |
|---|---|---|
| VdjFilter.ValidMask | software/src/main.py:15-33 | reference definition of the mask, given meaning by `FilterKeepsValid` and `FilterPreservesOrder`: one mask entry per row, true exactly when every gene column of its mode that the table has is non-null, non-empty and not `region_not_covered` (bulk: `VGene`, `JGene`; single-cell: the `_A`/`_B` variants) |
| VdjFilter.FilterVdjRegions | software/src/main.py:22-35 | the loop over the gene columns, and-ing one column mask per step, returns the rows selected by `ValidMask` |
| VdjFilter.FilterKeepsValid | software/src/main.py:28-35 | a row is in the filtered table iff it is in the input and valid |
| VdjFilter.FilterPreservesOrder | software/src/main.py:35 | the kept rows are exactly the input rows at the valid positions, in increasing position order, and a position is kept iff its row is valid |
| VdjFilter.FilterWithoutGeneColumns | software/src/main.py:25-26 | a table that has none of the gene columns for its mode is returned unchanged |
| Downsampling.SortByReadsDescCorrect | software/src/main.py:53-56 | sorting by reads gives a descending table that is a permutation of the input, with every sample's row count and read total unchanged |
| Downsampling.TopMask | software/src/main.py:53 | reference definition of `groupby.head(n)`, given meaning by `TopKeepsAtMostN` and `TopKeepsHighest`: a row is kept iff fewer than `n` earlier rows of its sample precede it |
| Downsampling.TopKeepsAtMostN | software/src/main.py:51-53 | `top` leaves min(n, rows of the sample) rows per sample |
| Downsampling.TopKeepsHighest | software/src/main.py:51-53 | `top` keeps input rows only (as a sub-multiset of the input), they are descending, and no dropped row of a sample has more reads than a kept row of that sample |
| Downsampling.CumTopMask | software/src/main.py:57-59 | reference definition of the cumulative test, given meaning by `CumTopWithinPercent` and `CumTopKeepsHighest`: a row is kept iff `100 * cumsum <= n * total` for its sample, with the running sum taken in descending read order |
| Downsampling.CumTopWithinPercent | software/src/main.py:54-59 | the reads `cumtop` keeps for a sample are at most n percent of its total; `CumTopKeepsLongestPrefix` is the matching lower bound |
| Downsampling.CumTopKeepsLongestPrefix | software/src/main.py:54-59 | `cumtop` keeps the longest descending prefix within the bound: when a sample loses rows, one of its dropped input rows would take the retained reads past n percent of its total; when it loses none, all its reads are kept |
| Downsampling.CumTopKeepsHighest | software/src/main.py:54-59 | `cumtop` keeps input rows only (as a sub-multiset of the input), they are descending, and no dropped row of a sample has more reads than a kept one |
| Downsampling.ChooseMinReadsMeaning | software/src/main.py:62-75 | `fixed` gives `n` (default 1000); `min`/`max` give the smallest/largest total; `auto` gives the smallest total above `0.5 * q20`, or 0 when there is none; any other chooser is an error |
| Downsampling.GreedyDrawIsDraw | software/src/main.py:82 | a draw meeting the draw contract exists for every `size <= sum(counts)` |
| Downsampling.DrawSoundSatisfiable | software/src/main.py:82 | the draw contract the hypergeometric lemmas assume can be met |
| Downsampling.HyperFromOfSample | software/src/main.py:79-87 | in the concatenation, sample `sid`'s rows are exactly its own resampled rows, and an id not looped over has none |
| Downsampling.ResampledMeaning | software/src/main.py:80-84 | a sample with total `<= size` is unchanged; otherwise it keeps its rows in order, with no count increased, and its counts sum to `size` |
| Downsampling.HypergeometricPerSample | software/src/main.py:77-87 | the same per-sample facts about the output of the whole resampling loop |
| Downsampling.DrawPerSample | software/src/main.py:78-87 | the loop that appends one table per sample and concatenates them equals the resampling function |
| Downsampling.FractionsSumToOne | software/src/main.py:91 | the fractions of a sample with a positive retained total sum to 1 |
| Downsampling.DownsampleFractions | software/src/main.py:45-91 | `none` returns the input unchanged, adding no fraction column; an unknown type is an error; every other branch gives one fraction per row, and each sample's fractions sum to 1 when it kept reads |
| Downsampling.DownsampleDf | software/src/main.py:45-92 | the method that reassigns the table step by step equals the `Downsample` dispatch |
| CloneKey.KeyFields | software/src/main.py:95-119 | the key columns exist iff the intersection type is one of the four supported ones, with chain A before chain B in single-cell mode; any other type is `UnsupportedIntersection` |
| CloneKey.FieldTexts | software/src/main.py:99-117 | the texts of the key columns, `nan` for a missing value; the first missing column is the error |
| CloneKey.SplitJoin | software/src/main.py:99-117 | splitting a key joined with the separator character recovers the parts when none contains that character |
| CloneKey.MakeCloneKeyMeaning | software/src/main.py:95-119 | the key is built iff the type is supported and the table has the key columns, and it splits back into the column texts |
| CloneKey.SameKeyIffSameFields | software/src/main.py:95-119 | two rows have the same key iff their key-column texts agree |
| Metric.SelfPair | software/src/main.py:123-130 | for a self-pair, the ratio metrics give 1.0 and `sharedClonotypes` gives the size of the sample's clone set, even when it is empty; an unknown metric is an error |
| Metric.NoSharedClones | software/src/main.py:132-134 | two different samples with no shared key give 0.0 for every metric name, unknown ones included |
| Metric.UnknownMetric | software/src/main.py:123-155 | an unknown metric is an error iff the pair is a self-pair or shares a key |
| Metric.KnownMetricOk | software/src/main.py:122-155 | the only error `compute_metric` raises is an unsupported metric name |
| Metric.MetricSymmetric | software/src/main.py:132-155 | swapping the two samples gives the swapped value for every metric |
| Metric.RatioBounds | software/src/main.py:143-153 | with a shared key, `jaccard` and `D` lie in (0, 1], `D <= jaccard`, and `sharedClonotypes` is positive and at most either clone set's size |
| Metric.CorrelationGuard | software/src/main.py:148-151 | with at most one shared key or a constant shared vector, the correlation is 1.0 if the vectors agree and 0.0 otherwise; otherwise it is the Pearson coefficient of the shared vectors |
| Metric.CorrelationWithNaN | software/src/main.py:148-151 | a NaN fraction on a shared key never gives correlation 1.0 |
| Metric.SingleSharedClone | software/src/main.py:149-150 | a single shared clone gives correlation 1.0 exactly when its two fractions are equal |
| Metric.SameCloneSet | software/src/main.py:143-153 | two samples with the same non-empty clone set have `jaccard` 1.0, `D` equal to one over the set's size, and `sharedClonotypes` equal to that size |
| Aggregation.RowKeys | software/src/main.py:192 | every row's clone key, or the error of the first row whose key fails |
| Aggregation.SampleCloneMapKeys | software/src/main.py:195-199 | a sample's clone set is the set of keys of its rows |
| Aggregation.SampleCloneMapLastWins | software/src/main.py:196 | for a duplicated key, the clone map holds the fraction of the sample's last row with that key |
| Aggregation.SampleCloneMapAbsent | software/src/main.py:201-204 | a sample without rows has an empty clone map |
| Aggregation.FractionColumn | software/src/main.py:193 | the `fractionOfReads` column read is the computed one when downsampling added it, else the input's own column when the table has one, else a missing-column error |
| Aggregation.CloneMapsMeaning | software/src/main.py:190-204 | a key error propagates; a table with neither a computed nor an input `fractionOfReads` column is a missing-column error; otherwise every listed sample has a clone map (empty when it has no rows) whose keys are those of its rows |
| Aggregation.CloneMapsFraction | software/src/main.py:193-196 | under the key of a sample's last row with that key, the clone map holds that row's computed fraction, or its own input `fractionOfReads` cell when `none` passed the table through |
| Pairwise.GroupConfigs | software/src/main.py:166-170 | the loop grouping the configurations equals `Groups` |
| Pairwise.GroupsDistinct | software/src/main.py:166-170 | no two groups share an (intersection, downsampling) key |
| Pairwise.GroupsCover | software/src/main.py:166-170 | there are groups iff there are configurations, and every configuration's key has a group |
| Pairwise.GroupsFromConfigs | software/src/main.py:166-170 | every group's key comes from some configuration |
| Pairwise.GroupsMetrics | software/src/main.py:166-170 | a group's metrics are the metric names of the configurations with its key, in configuration order |
| Pairwise.MetricsForMember | software/src/main.py:170 | a metric is in a group iff some configuration with that key names it |
| Pairwise.MetricValues | software/src/main.py:207-217 | the nested loops over the unordered pairs and the group's metrics equal `GroupTable` |
| Pairwise.ScorePair | software/src/main.py:209-217 | one unordered pair: every metric's value is stored for the pair and its mirror; an unknown metric fails at the first (self) pair |
| Pairwise.ExpectedShape | software/src/main.py:207-217 | `metric_values` has one entry per metric of the group, each over ordered pairs of sample ids |
| Pairwise.SoundComplete | software/src/main.py:209-217 | once every unordered pair is visited, the table built equals the expected value table |
| Wide.ProductShape | software/src/main.py:159-162 | the ordered pairs of n distinct ids are n*n distinct pairs, containing exactly the pairs of listed ids |
| Wide.ProductAt | software/src/main.py:162 | the pair at row-major position (a, b) is (ids[a], ids[b]) |
| Wide.SortedIdsCorrect | software/src/main.py:159 | the sorted sample ids are strictly increasing and are exactly the table's sample ids |
| Wide.PopulateResults | software/src/main.py:220-226 | the loop populating `results` equals `Populate` |
| Wide.WriteColumnsMeaning | software/src/main.py:224-226 | writing a group adds one column per metric, holding that metric's value for the pair (0.0 when absent), and keeps the other columns |
| Wide.PopulateEntries | software/src/main.py:220-226 | every listed pair's row is written; rows of unlisted pairs are unchanged |
| Wide.PopulateOrderFresh | software/src/main.py:222-223 | new pairs are appended in loop order |
| Wide.PopulateOrderKnown | software/src/main.py:222 | pairs already present keep their position |
| Wide.GroupValuesMirrored | software/src/main.py:216-217 | every group's value table gives (s2, s1) the value of (s1, s2) |
| Wide.RunGroupsFold | software/src/main.py:177-226 | the group loop succeeds iff every group's table does, and its result folds the tables into the results in group order |
| Wide.RunGroup | software/src/main.py:179-226 | one iteration: the cached table is reused for a seen downsampling key and computed and cached otherwise; the result is that group's update |
| Wide.RunAllGroups | software/src/main.py:173-226 | the loop with the cache equals `RunGroups`, and on success it downsampled once per distinct downsampling key |
| Wide.ComputeMetricsWide | software/src/main.py:158-228 | the method equals `MetricsWide`, and on success it downsampled once per distinct downsampling key of the configurations |
| Wide.GroupsDownsamplings | software/src/main.py:166-186 | the downsampling keys of the groups are those of the configurations |
| Wide.WideShape | software/src/main.py:158-228 | no configurations give no rows; otherwise the result has the N*N sorted ordered pairs in product order, each carrying every configuration's column |
| Wide.WideRows | software/src/main.py:220-223 | with configurations, the result has N*N rows, one per ordered pair of the table's sample ids |
| Wide.WideRowAt | software/src/main.py:159-162 | row a*N+b of the result is (ids[a], ids[b]) for the sorted ids |
| Wide.WideMirrored | software/src/main.py:209-226 | the row of (s2, s1) equals the row of (s1, s2) |
| Wide.WideValue | software/src/main.py:184-226 | the column of a metric and intersection holds `compute_metric` on the two samples' clone maps for that group's downsampling, unless a later group writes the same column |
| Wide.UniquePairsMeaning | software/src/main.py:358-360 | the unique-pair table keeps exactly the rows with `sample1 <= sample2`, in their original order, with their values |
| Wide.UniqueKeepsOnePerPair | software/src/main.py:358-360 | for mirrored results, every row's pair or its mirror is kept with the same values |
| Wide.WideUnique | software/src/main.py:358-360 | the pair (ids[a], ids[b]) of the wide result is kept iff a <= b, with its row unchanged |
| Ordering.SortStringsCorrect | software/src/main.py:159 | sorting distinct ids gives a strictly increasing permutation |
| Ordering.StrLtTotal | software/src/main.py:159 | Python string order is total, irreflexive, asymmetric and transitive (with `StrLtIrreflexive`, `StrLtAsymmetric`, `StrLtTransitive`) |

## Left out

- File I/O and the command line: argument parsing, reading and writing CSV/TSV, the separator choice, empty-input handling and printing (`software/src/main.py:232-280`, `:355`, `:361`, `:40`).
- The header normalisation and chain-mode detection in `main` (`:283-336`). `singleCell` and the set of table columns are parameters of the model.
- `pd.melt` into the long format (`:344-352`) is a reshape of the wide result and is not modelled.
- The random draw and its seed 12345 (`:77`, `:82`). Only the draw's contract is assumed (`DrawSound`). The resampled counts are therefore not computed, and the fact that every sample's draw uses one shared generator appears only as the counter `k` passed to `draw`.
- `np.quantile` (`:64`) is the parameter `q20`, so numpy's interpolation is not modelled.
- Downsampling.SortByReadsDesc: the model's sort is stable, but pandas' default sort is not. Rows with equal read counts may therefore be ordered differently, which can change which tied rows `top` and `cumtop` keep. The lemmas state only facts that hold for any order of ties.
- Downsampling.CumTopMask: the source tests `cumsum <= total * (n / 100)` in float64 (`:59`); the model tests `100 * cumsum <= n * total` over integers. The two differ when `n / 100` is not exact in binary and the boundary is hit: for one sample with reads [29, 29, 29, 13] and `n = 29`, the source keeps no row (100 * 0.29 rounds below 29) while the model keeps the first row. `n` is also an integer in the model, whereas the JSON may give a non-integer percentage.
- Downsampling.TopMask: `n` is a natural number in the model. The source also accepts a negative `n`, for which `groupby.head` drops the last |n| rows of each sample, and a non-integer `n` from the JSON; neither is modelled.
- Metric values: `F1`, `F2` (`np.sqrt`) and the Pearson coefficient (`linregress`) are symbolic values over the shared clone maps. Floating-point rounding in the ratio metrics and the fractions is not modelled; those are exact `real` quotients.
- Metric.CorrelationGuard: NaN fractions on shared keys are compared as floating point does (NaN equals nothing), but the Pearson value over NaN inputs is left symbolic.
- Aggregation.CloneMapsMeaning: with `none` downsampling the table is passed through (`:46-47`), so step 1 reads the input's own `fractionOfReads` column (`:193`), or fails with a missing-column error when the input has none. The model takes that column as numeric (a missing cell is NaN); a text-valued column is not modelled.
- Aggregation.SampleCloneMapLastWins: `to_dict` at `:196` keeps the last row's fraction for a key repeated within a sample and sums nothing; the model does the same.
- CloneKey.CellText: inside the f-strings of `:99-113` a missing value renders as `nan`. pandas' other renderings (numbers, `None`) are not modelled, because cells are text or missing here.
- CloneKey.MakeCloneKey: for bulk `CDR3nt` and `CDR3aa` the source returns the raw cell, not an f-string (`:114-117`). A missing CDR3 there gives a float NaN key, which matches other keys only by object identity in the dict at `:196` and the sets at `:199`. The model instead builds the text `nan` for it, as for every other intersection type, so two rows of one sample with a missing CDR3 share one clone key in the model.
- CloneKey.MakeCloneKeyMeaning: states the key of the model's `MakeCloneKey`, so the NaN-key difference of the bulk single-field types described above applies to it as well.
- Wide.MetricsWide: for an empty table, the result is what the loops compute. It is not modelled how pandas applies a function to an empty frame, or that the unique-pair filter (`:358-360`) cannot index the columns of an empty result frame.
- Wide.MetricsWide: the column order of the returned data frame and its construction (`:228`) are not modelled. Each row is a map from column name to value, with the pair as key.
- Pairwise.GroupConfigs: the canonical JSON key of a downsampling config (`json.dumps(..., sort_keys=True)`, `:169`) is modelled as equality of `DownsamplingConfig` values. A config given with and without its default parameter counts as two keys, as in the source. The model merges some keys the source keeps apart. A key the type ignores is not recorded: `{"type": "top", "n": 10, "valueChooser": "min"}` and `{"type": "top", "n": 10}` are two keys in the source and one value here. So are `10` and `10.0`, since a number is kept only as its integer value. A non-integer `n` for `fixed` hypergeometric (`:69`) is not modelled either: `Hypergeometric.n` is an integer.
- Pairwise.MetricValues: a metric named twice in one group writes the same entry twice and yields one column, as in the source.
- Wide.WideValue: when two groups fill the same column (the same metric and intersection with different downsampling configs), the later group's value overwrites the earlier one. The lemma therefore speaks only of a column no later group writes.
- The web model and UI files (`model/src/index.ts`, `ui/src/app.ts`, `model/src/convertes.ts`) are not part of this model.
