# Chat-length aggregator and sample planner, modelled in Dafny

This project models the two pieces of logic in the chat-log analysis
scripts. Everything else there is database, file or language-model I/O.

- **The length aggregator** (`analyze_chat_lengths.py`). Each conversation
  record gets one message count by a fixed rule: a present `msg_count`
  summary object wins, then the length of the message list, then 0. Over the
  resulting `message_count` column the model computes:
  - the simple statistics: totals, mean, median, range, truncated
    percentiles, six length buckets and their percentages;
  - the per-chat-type breakdown;
  - the full ascending frequency distribution with its cumulative column.
- **The sample planner** (`query.py`). From the catalog's row estimate, the
  requested `limit` and `include_empty_chats`, `get_chats` computes the
  over-sample target and the clamped Bernoulli percentage, and builds the
  text of the sampling query. `to_dataframe` derives its column list from
  the result's field descriptors.

Modules, leaf first:

- `Wrappers`: Option and Result.
- `Counting`: occurrences, masked counts, first-appearance `unique()`.
- `Order`: the ascending sort, the ascending distinct values, min and max.
- `Statistics`: sum and mean, numpy's linear-interpolation quantile, and
  Python's `int()`. All of it is in exact rational arithmetic.
- `ChatRecords`: `get_message_count` and `parse_message_counts`.
- `SimpleStats`, `StatsByType`, `FullDistribution`: the three reports.
- `SamplePlan`: `get_chats` lines 50-60 and the comprehension in `to_dataframe`.

The source builds three of its results with loops: the percentile
dictionary, the per-type dictionary and the distribution rows. Each becomes
a method with a loop, proved equal to a specification function
(`StatsOf`, `TypeAnalysis`, `Distribution`). The lemmas state the counting
facts about those functions.

The model follows the code as written:

- percentiles use linear interpolation truncated by `int()`, not nearest rank;
- an empty column makes `get_simple_stats` fail at `int()` of a NaN quantile;
- a negative estimate with a non-negative limit gives 0.1 percent, and a zero estimate has no guard;
- `limit <= 0` is not special-cased;
- the cumulative column uses a positional slice (see Findings).

## Model

| member | source | states |
|---|---|---|
| `ChatRecords.MessageCount` | analyze_chat_lengths.py:9-17 | A present summary object gives its inner `msg_count`, or 0 when that key is absent. Without one, a present message list gives its length. Otherwise the count is 0. |
| `ChatRecords.SummaryWinsOverMessages` | analyze_chat_lengths.py:11-12 | When a summary object is present, replacing the message list by any other list, or by null, leaves the count unchanged. |
| `ChatRecords.CountsNonNegativeIffSummariesAre` | analyze_chat_lengths.py:9-20 | The parsed `message_count` column has no negative entry exactly when no present summary object holds a negative `msg_count`. |
| `ChatRecords.ParseMessageCounts` | analyze_chat_lengths.py:5-20 | Dropping the added column gives back the input records, same rows in the same order. Each row's added count is `MessageCount` of its record. |
| `Counting.Unique` | analyze_chat_lengths.py:67 | `unique()` has no duplicates. It holds every value of the column and nothing else, in order of first appearance. |
| `Counting.OccurrencesSumToLength` | analyze_chat_lengths.py:85 | Over distinct keys that cover every element, the occurrence counts add up to the length. |
| `Order.Sort` | analyze_chat_lengths.py:41 | The sort behind `quantile` is ascending and a permutation of its input (same multiset). |
| `Order.SortedDistinct` | analyze_chat_lengths.py:85 | The index of `value_counts().sort_index()` is strictly ascending. It holds exactly the values that occur. |
| `Order.SortEnds` | analyze_chat_lengths.py:34-35 | The first and last elements of the ascending sort are `min()` and `max()`. |
| `Statistics.MeanBetweenMinAndMax` | analyze_chat_lengths.py:30 | The mean of a non-empty column lies between its minimum and maximum. |
| `Statistics.MedianBetweenMinAndMax` | analyze_chat_lengths.py:32 | The median, the linear quantile at 1/2, lies between the minimum and maximum. |
| `Statistics.VirtualPosition` | analyze_chat_lengths.py:41 | numpy's index `(n-1)*p/100` stays inside the column. When it falls on the last element it has no fractional part. |
| `Statistics.QuantileBetweenEnds` | analyze_chat_lengths.py:41 | The linear quantile of a sorted column lies between its first and last values. |
| `Statistics.QuantileMonotone` | analyze_chat_lengths.py:39-41 | The linear quantile is non-decreasing in p. |
| `SimpleStats.GetSimpleStats` | analyze_chat_lengths.py:22-58 | It fails exactly on an empty column. Otherwise the percentile loop builds the map p -> `int(quantile(p/100))` for p in 25, 50, 75, 90, 95, and the result is `StatsOf` of the column. |
| `SimpleStats.MasksAddUp` | analyze_chat_lengths.py:44-49 | Counted over all inputs, positive, zero and negative counts make up the column. So do the six buckets plus the negative counts. |
| `SimpleStats.ChatsWithMessagesAndEmptyAreTotal` | analyze_chat_lengths.py:27-29 | For non-negative counts, `chats_with_messages + empty_chats == total_chats == n`. |
| `SimpleStats.BucketsPartitionChats` | analyze_chat_lengths.py:44-49 | For non-negative counts, the sizes of the six inclusive buckets add up to `total_chats`. Disjointness follows from `MasksAddUp` applied to a one-element column. |
| `SimpleStats.PercentilesOrderedAndBounded` | analyze_chat_lengths.py:34-41 | For p1 <= p2 among the reported points, percentile p1 is at most percentile p2. Both lie in [`min_messages`, `max_messages`]. |
| `SimpleStats.AveragesWithinRange` | analyze_chat_lengths.py:30-35 | The mean and the median lie in [min, max]. When some chat has messages, the non-empty mean lies in (0, max]. |
| `SimpleStats.PercentagesBounded` | analyze_chat_lengths.py:52-56 | For non-negative counts, the four reported percentages are non-negative and add up to at most 100. |
| `SimpleStats.BucketsOfSample` | analyze_chat_lengths.py:44-49 | For the counts 1,2,3,5,6,10,11,20,21, the empty mask selects none of them. The very short, short, medium and long masks select 2 each, and the very long mask selects 1. |
| `StatsByType.CountsOfType` | analyze_chat_lengths.py:71 | The subset for a type has one count per row carrying that type. |
| `StatsByType.CountsOfTypeMatchRows` | analyze_chat_lengths.py:71 | For any mask, the number of subset counts it selects equals the number of rows that carry the type and whose count it selects. |
| `StatsByType.TypeStatsOf` | analyze_chat_lengths.py:72-78 | `count` is the subset size. `empty_chats <= count` and `long_chats (>15) <= count`. |
| `StatsByType.PresentValues` | analyze_chat_lengths.py:67-69 | The loop skips the null types. It keeps every non-null visited value, and distinct values stay distinct. |
| `StatsByType.GetStatsByType` | analyze_chat_lengths.py:60-80 | It returns None exactly when there is no `chat_type` column. Otherwise the loop over the unique types builds `TypeAnalysis` of the rows. |
| `StatsByType.TypesAreUniqueAndComplete` | analyze_chat_lengths.py:67-72 | Each non-null type of any row has an entry, and entries only name types from the column. No type appears twice. |
| `StatsByType.TypeCountsAreRowCounts` | analyze_chat_lengths.py:71-77 | Each entry's `count` is the number of rows with its type, and its empty and long chats are at most that count. |
| `StatsByType.TypeBucketsAreRowCounts` | analyze_chat_lengths.py:71-77 | Each entry's `empty_chats` is the number of rows with its type and count 0, and its `long_chats` the number with its type and count above 15. |
| `StatsByType.TypeCountsSumToTypedRows` | analyze_chat_lengths.py:67-73 | The per-type counts plus the null-typed rows add up to all rows. |
| `FullDistribution.ValueCounts` | analyze_chat_lengths.py:85 | One entry per distinct count, ascending. Each frequency is that value's number of occurrences and is positive. |
| `FullDistribution.SliceLength` | analyze_chat_lengths.py:95 | The positional slice `[:stop]` keeps at most `len` entries. Position i is among them exactly when Python's slice rule keeps it: i < stop for a non-negative stop, and i < len + stop for a negative stop, which counts from the end. |
| `FullDistribution.GetFullDistribution` | analyze_chat_lengths.py:82-98 | The loop over the sorted distribution appends exactly the rows of `Distribution`. |
| `FullDistribution.RowsAreTheDistinctCounts` | analyze_chat_lengths.py:85-92 | The rows are strictly ascending by message count. Each row's count occurs in the column, and every occurring count has a row. |
| `FullDistribution.RowFrequenciesSumToTotal` | analyze_chat_lengths.py:85-93 | Each row's frequency is its count's number of occurrences and is positive. The frequencies add up to n. |
| `FullDistribution.CumulativeNumeratorFacts` | analyze_chat_lengths.py:95 | For non-negative counts, the numerator `distribution[:length+1].sum()` is non-decreasing down the rows and at least the running sum up to the row. It equals n on the last row. |
| `FullDistribution.CumulativePercentageMonotone` | analyze_chat_lengths.py:94-95 | For non-negative counts, the unrounded cumulative percentage is non-decreasing down the rows. |
| `FullDistribution.CumulativePercentageEndsAt100` | analyze_chat_lengths.py:94-95 | For non-negative, non-empty counts, the unrounded cumulative percentage of the last row is exactly 100. |
| `FullDistribution.PositionalCumulativeOvercounts` | analyze_chat_lengths.py:95 | For the counts [1, 3], the first row already reports 100 percent, although only one of the two chats has at most one message. |
| `FullDistribution.PositionalOvercountsWithoutZero` | analyze_chat_lengths.py:95 | When every count is at least 1, every row but the last has a positional numerator strictly above the running sum, so it over-reports. |
| `FullDistribution.PositionalMatchesWhenContiguous` | analyze_chat_lengths.py:95 | When the distinct counts are exactly 0, 1, 2, ..., the positional numerator equals the running sum. |
| `FullDistribution.CorrectedDistribution` | analyze_chat_lengths.py:90-96 | The intended distribution has one row per distinct count, with the running sum as cumulative numerator. |
| `FullDistribution.RunningCumulativeCountsAtMost` | analyze_chat_lengths.py:95 | The intended cumulative numerator is the number of chats with at most the row's message count, for every input. |
| `FullDistribution.CorrectedCumulativeMonotone` | analyze_chat_lengths.py:95 | The intended cumulative percentage is non-decreasing down the rows, for every input. |
| `FullDistribution.CorrectedCumulativeEndsAt100` | analyze_chat_lengths.py:95 | The intended cumulative percentage of the last row is 100, for every non-empty input, negative counts included. |
| `SamplePlan.EstimatedRows` | query.py:50 | The estimate is the catalog's first value, or 1000 when the catalog query returns no row. |
| `SamplePlan.RawPercentAgainst` | query.py:54 | For a positive estimate, the raw percentage reaches 100 exactly when target >= estimate. It is at most 0.1 exactly when 1000 * target <= estimate. A negative estimate with a non-negative target gives at most 0. |
| `SamplePlan.SamplePercent` | query.py:54 | The percentage lies in [0.1, 100]. For a positive estimate it is 100 iff estimate <= target, and 0.1 iff 1000 * target <= estimate. It is 0.1 for a negative estimate with a non-negative target. Strictly between the bounds it is the unclamped value. |
| `SamplePlan.PlanSample` | query.py:50-54 | `target_sample == 3 * limit`. The percentage lies in [0.1, 100], and it is exactly 100 when `0 < estimated_rows <= 3 * limit`. |
| `SamplePlan.QueryShape` | query.py:56-60 | The query starts with `SELECT * FROM ai_chat TABLESAMPLE BERNOULLI(<percent>)` and ends with `LIMIT <limit>;`. |
| `SamplePlan.FilterPresentIffEmptyExcluded` | query.py:59 | The non-null, non-empty `messages` filter occurs in the query exactly when `include_empty_chats` is false. |
| `SamplePlan.LimitReadsBack` | query.py:60 | The decimal text of a non-negative limit in the query reads back as that limit. |
| `SamplePlan.ColumnNames` | query.py:68 | It succeeds exactly when every field has a `name`. Then there is one column per field, in order, named by that field. Otherwise the `KeyError` is at the first field without a name. |

## Left out

- Database I/O is not modelled: `execute_query`, the SQLAlchemy engine, the `pg_class` catalog read, `get_chat_tables` and `get_ai_chat_structure`. The catalog's first column is an input of `EstimatedRows`.
- JSON and file output (`to_json`, `save_json`) and everything in `judge.py` are library and remote calls. That covers the OpenAI client, `.env` loading and the sleep throttle.
- `summarize`'s console output and the module-level `analyze(...)` call are output and entry point.
- Pandas DataFrame construction is left out. Frames are sequences of records, and the per-type frame is a sequence of (type, statistics) entries in insertion order.
- `std_deviation` (analyze_chat_lengths.py:33) is a square root, floating-point numerics.
- The 2-decimal `round` of the percentages is left out. All percentages, means and quantiles are exact rationals, not float64.
- SimpleStats.PercentileValue: numpy computes the quantile index `(n-1)*0.9` in float64, which can land a hair below an integer. That can change the truncated percentile. The model uses the exact index.
- SamplePlan.SampleQuery: Python's text for `sample_percent` is a parameter. It may be the `int` 100 from `min(100, …)` or a float repr. The model only assumes it is drawn from the characters of Python's number formatting.
- SamplePlan.PlanSample: a zero estimate is excluded by a precondition. The source has no guard; numpy integer division by zero gives inf or nan rather than an error, and this is not modelled.
- A `limit <= 0` gets no special case, as in the source. Its query is built as for any other limit.
- ChatRecords.MessageCount: a missing column and a null cell both read as None. A float NaN in the `msg_count` column would make `.get` raise; it is not modelled. Summary values are taken to be integers.
- ChatRecords.MessageCount: a float NaN in the `messages` column is not None, so `len()` of it raises `TypeError`; the model reads a missing message list only as None.
- StatsByType.CountsOfTypeMatchRows: it fixes every masked count, and so the multiset of the subset, but the model does not prove that `avg_length` and `median_length` depend on the subset only through that multiset.
- SamplePlan.ColumnNames: it takes the field list itself, so the `KeyError` of a result without a `"fields"` entry (query.py:68) is not modelled.
- The empty-frame corner of `df.apply` in `parse_message_counts` is not modelled. The model maps an empty input to an empty result.
- Calling the statistics twice always gives the same value, because every report here is a mathematical function. No lemma is needed for it.

## Findings

| source | as written | input that shows it | evidently intended | confidence | as-written member | corrected member |
|---|---|---|---|---|---|---|
| analyze_chat_lengths.py:95 | `distribution[:length+1].sum()` slices an integer-indexed Series by position, so it sums the first `length+1` distinct values, not the values up to `length`. | message counts [1, 3]: the row for 1 reports a cumulative 100 percent, though only 1 of 2 chats has at most 1 message. | The number of chats with at most `length` messages: the running sum of the frequencies. It is non-decreasing and ends at 100 percent for every input (`RunningCumulativeCountsAtMost`, `CorrectedCumulativeMonotone`, `CorrectedCumulativeEndsAt100`). | not executed; depends on pandas treating integer-index slices as positional | `FullDistribution.PositionalCumulativeOvercounts` | `FullDistribution.CorrectedDistribution` |

`GetFullDistribution` keeps the positional behaviour of the code as written.
When every count is at least 1, every row but the last over-reports
(`PositionalOvercountsWithoutZero`). Excluding empty chats in the query does
not guarantee this: the query tests `messages`, while a present summary
object decides the count and may still give 0.
