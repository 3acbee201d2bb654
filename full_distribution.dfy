/** `get_full_distribution`: one row per distinct message count, ascending,
    with its frequency, its percentage and a cumulative percentage. */
module FullDistribution {
  import opened Counting
  import opened Order
  import SimpleStats

  /** One entry of `value_counts().sort_index()`. */
  datatype ValueCount = ValueCount(value: int, count: nat)

  /** One appended row; the percentages are exact, before `round(…, 2)`. */
  datatype DistributionRow = DistributionRow(
    messageCount: int,
    frequency: nat,
    percentage: real,
    cumulativePercentage: real)

  /** `value_counts().sort_index()`: each distinct count, ascending, with
      the number of chats that have it. */
  function ValueCounts(counts: seq<int>): (vc: seq<ValueCount>)
    ensures |vc| == |SortedDistinct(counts)|
    ensures forall i :: 0 <= i < |vc| ==>
      vc[i].value == SortedDistinct(counts)[i] && vc[i].count == Occurrences(counts, vc[i].value) > 0
    ensures vc == [] <==> counts == []
  {
    var keys := SortedDistinct(counts);
    assert counts != [] ==> counts[0] in keys;
    seq(|keys|, i requires 0 <= i < |keys| => ValueCount(keys[i], Occurrences(counts, keys[i])))
  }

  /** Python's rule for the slice `[:stop]` on a sequence of length `len`:
      position `i` is kept when it lies before `stop`, where a negative stop
      counts from the end. */
  predicate KeptBySlice(len: nat, stop: int, i: nat) {
    (0 <= stop && i < stop) || (stop < 0 && i < len + stop)
  }

  /** How many leading entries the slice `[:stop]` keeps: exactly the kept
      positions form a prefix of that length. */
  function SliceLength(len: nat, stop: int): (k: nat)
    ensures k <= len
    ensures forall i :: 0 <= i < len ==> (i < k <==> KeptBySlice(len, stop, i))
  {
    if stop >= 0 then (if stop <= len then stop else len)
    else if len + stop >= 0 then len + stop
    else 0
  }

  /** The sum of the frequencies of the first `k` entries. */
  function PrefixSum(vc: seq<ValueCount>, k: nat): nat
    requires k <= |vc|
  {
    if k == 0 then 0 else vc[0].count + PrefixSum(vc[1..], k - 1)
  }

  /** `distribution[:length+1].sum()` on the row of entry `i`: on an integer
      index the slice is positional, so it takes the first `length + 1`
      entries whatever their labels are. */
  function CumulativeNumerator(vc: seq<ValueCount>, i: nat): nat
    requires i < |vc|
  {
    PrefixSum(vc, SliceLength(|vc|, vc[i].value + 1))
  }

  /** The row the loop appends for entry `i`. */
  function RowAt(vc: seq<ValueCount>, i: nat, total: nat): DistributionRow
    requires i < |vc| && total > 0
  {
    DistributionRow(
      messageCount := vc[i].value,
      frequency := vc[i].count,
      percentage := SimpleStats.Percent(vc[i].count, total),
      cumulativePercentage := SimpleStats.Percent(CumulativeNumerator(vc, i), total))
  }

  /** The frame `get_full_distribution` returns. */
  function Distribution(counts: seq<int>): (rows: seq<DistributionRow>)
    ensures |rows| == |ValueCounts(counts)|
  {
    var vc := ValueCounts(counts);
    assert vc != [] ==> counts != [];
    seq(|vc|, i requires 0 <= i < |vc| => RowAt(vc, i, |counts|))
  }

  /** `get_full_distribution`, with its loop over the sorted distribution. */
  method GetFullDistribution(counts: seq<int>) returns (distData: seq<DistributionRow>)
    ensures distData == Distribution(counts)
  {
    var distribution := ValueCounts(counts);
    var total := |counts|;
    ghost var rows := Distribution(counts);
    distData := [];
    for i := 0 to |distribution|
      invariant distData == rows[..i]
    {
      var length, count := distribution[i].value, distribution[i].count;
      var cumulative := PrefixSum(distribution, SliceLength(|distribution|, length + 1));
      var row := DistributionRow(
        messageCount := length,
        frequency := count,
        percentage := SimpleStats.Percent(count, total),
        cumulativePercentage := SimpleStats.Percent(cumulative, total));
      assert row == RowAt(distribution, i, total) == rows[i];
      distData := distData + [row];
      assert rows[..i + 1] == rows[..i] + [rows[i]];
    }
    assert rows[..|distribution|] == rows;
  }

  // ---- Facts about the distribution ----

  lemma {:induction false} PrefixSumMonotone(vc: seq<ValueCount>, j: nat, k: nat)
    requires j <= k <= |vc|
    ensures PrefixSum(vc, j) <= PrefixSum(vc, k)
  {
    if j > 0 {
      PrefixSumMonotone(vc[1..], j - 1, k - 1);
    }
  }

  /** The frequencies of all entries add up to the occurrences of their values. */
  lemma {:induction false} PrefixSumIsOccurrences(keys: seq<int>, counts: seq<int>, vc: seq<ValueCount>)
    requires |vc| == |keys|
    requires forall i :: 0 <= i < |vc| ==> vc[i].value == keys[i] && vc[i].count == Occurrences(counts, keys[i])
    ensures PrefixSum(vc, |vc|) == SumOfOccurrences(keys, counts)
  {
    if vc != [] {
      PrefixSumIsOccurrences(keys[1..], counts, vc[1..]);
    }
  }

  lemma StrictlyIncreasingIsDistinct(s: seq<int>)
    requires StrictlyIncreasing(s)
    ensures NoDuplicates(s)
  {
  }

  /** The frequencies are positive and add up to the number of chats. */
  lemma FrequenciesSumToTotal(counts: seq<int>)
    ensures var vc := ValueCounts(counts);
      (forall i :: 0 <= i < |vc| ==> vc[i].count > 0) && PrefixSum(vc, |vc|) == |counts|
  {
    var keys := SortedDistinct(counts);
    PrefixSumIsOccurrences(keys, counts, ValueCounts(counts));
    StrictlyIncreasingIsDistinct(keys);
    OccurrencesSumToLength(keys, counts);
  }

  /** One row per distinct count, in strictly ascending order. */
  lemma RowsAreTheDistinctCounts(counts: seq<int>)
    ensures var rows := Distribution(counts);
      && (forall i, j :: 0 <= i < j < |rows| ==> rows[i].messageCount < rows[j].messageCount)
      && (forall i :: 0 <= i < |rows| ==> rows[i].messageCount in counts)
      && (forall k :: 0 <= k < |counts| ==> exists i :: 0 <= i < |rows| && rows[i].messageCount == counts[k])
  {
    var rows := Distribution(counts);
    var keys := SortedDistinct(counts);
    assert forall i :: 0 <= i < |rows| ==> rows[i].messageCount == keys[i];
    forall k | 0 <= k < |counts|
      ensures exists i :: 0 <= i < |rows| && rows[i].messageCount == counts[k]
    {
      assert counts[k] in keys;
      var i :| 0 <= i < |keys| && keys[i] == counts[k];
      assert rows[i].messageCount == counts[k];
    }
  }

  /** Each row's frequency is the number of chats with its count, is
      positive, and the frequencies add up to the number of chats. */
  lemma RowFrequenciesSumToTotal(counts: seq<int>)
    ensures var rows := Distribution(counts);
      && (forall i :: 0 <= i < |rows| ==> rows[i].frequency == Occurrences(counts, rows[i].messageCount) > 0)
      && TotalFrequency(rows) == |counts|
  {
    var rows := Distribution(counts);
    var vc := ValueCounts(counts);
    FrequenciesSumToTotal(counts);
    TotalFrequencyIsPrefixSum(rows, vc);
  }

  function TotalFrequency(rows: seq<DistributionRow>): nat {
    if rows == [] then 0 else rows[0].frequency + TotalFrequency(rows[1..])
  }

  lemma {:induction false} TotalFrequencyIsPrefixSum(rows: seq<DistributionRow>, vc: seq<ValueCount>)
    requires |rows| == |vc|
    requires forall i :: 0 <= i < |rows| ==> rows[i].frequency == vc[i].count
    ensures TotalFrequency(rows) == PrefixSum(vc, |vc|)
  {
    if rows != [] {
      TotalFrequencyIsPrefixSum(rows[1..], vc[1..]);
    }
  }

  /** Strictly increasing integers grow by at least one per step. */
  lemma {:induction false} StrictlyIncreasingGrows(s: seq<int>, i: nat)
    requires StrictlyIncreasing(s) && i < |s|
    ensures s[0] + i <= s[i]
  {
    if i > 0 {
      StrictlyIncreasingGrows(s, i - 1);
    }
  }

  /** For non-negative counts the cumulative numerator is non-decreasing down
      the rows, is at least the running sum of the frequencies up to and
      including the row, and equals the number of chats on the last row. */
  lemma CumulativeNumeratorFacts(counts: seq<int>, i: nat, j: nat)
    requires SimpleStats.NonNegative(counts)
    requires i <= j < |ValueCounts(counts)|
    ensures var vc := ValueCounts(counts);
      && CumulativeNumerator(vc, i) <= CumulativeNumerator(vc, j)
      && PrefixSum(vc, i + 1) <= CumulativeNumerator(vc, i)
      && CumulativeNumerator(vc, |vc| - 1) == |counts|
  {
    var vc := ValueCounts(counts);
    var keys := SortedDistinct(counts);
    assert keys[0] >= 0;
    SlicedPrefixFacts(keys, vc, i, j);
    FrequenciesSumToTotal(counts);
  }

  /** The positional numerator over entries whose values are non-negative
      and strictly increasing. */
  lemma SlicedPrefixFacts(keys: seq<int>, vc: seq<ValueCount>, i: nat, j: nat)
    requires StrictlyIncreasing(keys) && |keys| == |vc| && i <= j < |vc|
    requires keys[0] >= 0
    requires forall k :: 0 <= k < |vc| ==> vc[k].value == keys[k]
    ensures CumulativeNumerator(vc, i) <= CumulativeNumerator(vc, j)
    ensures PrefixSum(vc, i + 1) <= CumulativeNumerator(vc, i)
    ensures CumulativeNumerator(vc, |vc| - 1) == PrefixSum(vc, |vc|)
  {
    var m := |vc|;
    StrictlyIncreasingGrows(keys, i);
    StrictlyIncreasingGrows(keys, m - 1);
    assert vc[i].value <= vc[j].value;
    PrefixSumMonotone(vc, SliceLength(m, vc[i].value + 1), SliceLength(m, vc[j].value + 1));
    PrefixSumMonotone(vc, i + 1, SliceLength(m, vc[i].value + 1));
    assert SliceLength(m, vc[m - 1].value + 1) == m;
  }

  /** For non-negative counts the cumulative percentage is non-decreasing
      down the rows. */
  lemma CumulativePercentageMonotone(counts: seq<int>, i: nat, j: nat)
    requires SimpleStats.NonNegative(counts)
    requires i <= j < |Distribution(counts)|
    ensures var rows := Distribution(counts);
      rows[i].cumulativePercentage <= rows[j].cumulativePercentage
  {
    var vc := ValueCounts(counts);
    var a, b := CumulativeNumerator(vc, i), CumulativeNumerator(vc, j);
    assert a <= b by {
      CumulativeNumeratorFacts(counts, i, j);
    }
    PositionalRow(counts, i);
    PositionalRow(counts, j);
    SimpleStats.PercentMonotone(a, b, |counts|);
  }

  /** For non-negative counts the cumulative percentage of the last row is
      exactly 100. */
  lemma CumulativePercentageEndsAt100(counts: seq<int>)
    requires SimpleStats.NonNegative(counts) && counts != []
    ensures var rows := Distribution(counts);
      rows != [] && rows[|rows| - 1].cumulativePercentage == 100.0
  {
    var vc := ValueCounts(counts);
    var last := |vc| - 1;
    var n := |counts|;
    assert CumulativeNumerator(vc, last) == n by {
      CumulativeNumeratorFacts(counts, last, last);
    }
    PositionalRow(counts, last);
    SimpleStats.PercentOfWhole(n);
  }

  lemma PositionalRow(counts: seq<int>, i: nat)
    requires i < |ValueCounts(counts)|
    ensures counts != []
    ensures Distribution(counts)[i].cumulativePercentage
      == SimpleStats.Percent(CumulativeNumerator(ValueCounts(counts), i), |counts|)
  {
  }

  // ---- The cumulative column as evidently intended ----

  /** Concrete case: for the counts [1, 3] both values are distinct and
      neither is 0, so the slice `[:2]` of the first row already takes both
      entries and its cumulative percentage is 100, although only one of
      the two chats has at most one message. */
  lemma PositionalCumulativeOvercounts()
    ensures var vc := ValueCounts([1, 3]);
      && vc == [ValueCount(1, 1), ValueCount(3, 1)]
      && CumulativeNumerator(vc, 0) == 2
      && Distribution([1, 3])[0].cumulativePercentage == 100.0
      && CountWhere([1, 3], AtMost(1)) == 1
  {
    var counts := [1, 3];
    assert counts[..1] == [1];
    assert SortedDistinct([1]) == [1];
    assert SortedDistinct(counts) == [1, 3];
    assert Occurrences(counts, 1) == 1 && Occurrences(counts, 3) == 1;
    var vc := ValueCounts(counts);
    assert vc == [ValueCount(1, 1), ValueCount(3, 1)];
    assert PrefixSum(vc[1..], 1) == 1 by {
      assert vc[1..][0] == ValueCount(3, 1);
    }
    SimpleStats.PercentOfWhole(2);
  }

  /** The mask "at most `v` messages". */
  function AtMost(v: int): int -> bool {
    c => c <= v
  }

  /** The number of chats with at most as many messages as entry `i`: the
      running sum of the frequencies up to and including that entry
      (`distribution.cumsum()`, or the label slice `distribution.loc[:length]`). */
  function RunningCumulativeNumerator(vc: seq<ValueCount>, i: nat): nat
    requires i < |vc|
  {
    PrefixSum(vc, i + 1)
  }

  /** The distribution with the intended cumulative column. */
  function CorrectedDistribution(counts: seq<int>): (rows: seq<DistributionRow>)
    ensures |rows| == |ValueCounts(counts)|
  {
    var vc := ValueCounts(counts);
    assert vc != [] ==> counts != [];
    seq(|vc|, i requires 0 <= i < |vc| =>
      DistributionRow(
        messageCount := vc[i].value,
        frequency := vc[i].count,
        percentage := SimpleStats.Percent(vc[i].count, |counts|),
        cumulativePercentage := SimpleStats.Percent(RunningCumulativeNumerator(vc, i), |counts|)))
  }

  lemma {:induction false} PrefixSumIsPrefixOccurrences(keys: seq<int>, counts: seq<int>, vc: seq<ValueCount>, k: nat)
    requires |vc| == |keys| && k <= |vc|
    requires forall i :: 0 <= i < |vc| ==> vc[i].value == keys[i] && vc[i].count == Occurrences(counts, keys[i])
    ensures PrefixSum(vc, k) == SumOfOccurrences(keys[..k], counts)
  {
    if k > 0 {
      assert keys[..k][1..] == keys[1..][..k - 1];
      PrefixSumIsPrefixOccurrences(keys[1..], counts, vc[1..], k - 1);
    }
  }

  lemma {:induction false} OccurrencesInFilter(s: seq<int>, p: int -> bool, x: int)
    requires p(x)
    ensures Occurrences(Filter(s, p), x) == Occurrences(s, x)
  {
    if s != [] {
      OccurrencesInFilter(s[1..], p, x);
    }
  }

  lemma {:induction false} SumOfOccurrencesInFilter(keys: seq<int>, s: seq<int>, p: int -> bool)
    requires forall k :: 0 <= k < |keys| ==> p(keys[k])
    ensures SumOfOccurrences(keys, Filter(s, p)) == SumOfOccurrences(keys, s)
  {
    if keys != [] {
      OccurrencesInFilter(s, p, keys[0]);
      SumOfOccurrencesInFilter(keys[1..], s, p);
    }
  }

  /** Every count of at most `keys[i]` is among the first `i + 1` distinct values. */
  lemma AtMostIsAmongHead(counts: seq<int>, i: nat)
    requires i < |SortedDistinct(counts)|
    ensures var keys := SortedDistinct(counts);
      forall x :: x in Filter(counts, AtMost(keys[i])) ==> x in keys[..i + 1]
  {
    var keys := SortedDistinct(counts);
    var within := Filter(counts, AtMost(keys[i]));
    forall x | x in within
      ensures x in keys[..i + 1]
    {
      var j :| 0 <= j < |keys| && keys[j] == x;
      assert j <= i;
      assert keys[..i + 1][j] == x;
    }
  }

  /** The intended cumulative numerator counts the chats with at most the
      row's number of messages, for every input. */
  lemma RunningCumulativeCountsAtMost(counts: seq<int>, i: nat)
    requires i < |ValueCounts(counts)|
    ensures var vc := ValueCounts(counts);
      RunningCumulativeNumerator(vc, i) == CountWhere(counts, AtMost(vc[i].value))
  {
    var vc := ValueCounts(counts);
    var keys := SortedDistinct(counts);
    var head := keys[..i + 1];
    var within := Filter(counts, AtMost(keys[i]));
    PrefixSumIsPrefixOccurrences(keys, counts, vc, i + 1);
    assert forall k :: 0 <= k < |head| ==> AtMost(keys[i])(head[k]);
    SumOfOccurrencesInFilter(head, counts, AtMost(keys[i]));
    AtMostIsAmongHead(counts, i);
    assert StrictlyIncreasing(head);
    StrictlyIncreasingIsDistinct(head);
    OccurrencesSumToLength(head, within);
  }

  /** The intended cumulative percentage is non-decreasing down the rows,
      for every input. */
  lemma CorrectedCumulativeMonotone(counts: seq<int>, i: nat, j: nat)
    requires i <= j < |CorrectedDistribution(counts)|
    ensures var rows := CorrectedDistribution(counts);
      rows[i].cumulativePercentage <= rows[j].cumulativePercentage
  {
    var vc := ValueCounts(counts);
    PrefixSumMonotone(vc, i + 1, j + 1);
    CorrectedRow(counts, i);
    CorrectedRow(counts, j);
    SimpleStats.PercentMonotone(RunningCumulativeNumerator(vc, i), RunningCumulativeNumerator(vc, j), |counts|);
  }

  /** The intended cumulative percentage of the last row is 100, for every
      non-empty input. */
  lemma CorrectedCumulativeEndsAt100(counts: seq<int>)
    requires counts != []
    ensures var rows := CorrectedDistribution(counts);
      rows != [] && rows[|rows| - 1].cumulativePercentage == 100.0
  {
    var vc := ValueCounts(counts);
    var last := |vc| - 1;
    var n := |counts|;
    assert RunningCumulativeNumerator(vc, last) == n by {
      FrequenciesSumToTotal(counts);
    }
    CorrectedRow(counts, last);
    SimpleStats.PercentOfWhole(n);
  }

  lemma CorrectedRow(counts: seq<int>, i: nat)
    requires i < |ValueCounts(counts)|
    ensures counts != []
    ensures CorrectedDistribution(counts)[i].cumulativePercentage
      == SimpleStats.Percent(RunningCumulativeNumerator(ValueCounts(counts), i), |counts|)
  {
  }

  lemma {:induction false} PrefixSumStep(vc: seq<ValueCount>, k: nat)
    requires k < |vc|
    ensures PrefixSum(vc, k + 1) == PrefixSum(vc, k) + vc[k].count
  {
    if k > 0 {
      PrefixSumStep(vc[1..], k - 1);
    }
  }

  /** When no chat has zero messages, every row but the last reports more
      than the chats with at most its number of messages: the positional
      slice always takes at least one entry too many. */
  lemma PositionalOvercountsWithoutZero(counts: seq<int>, i: nat)
    requires forall k :: 0 <= k < |counts| ==> counts[k] >= 1
    requires i + 1 < |ValueCounts(counts)|
    ensures var vc := ValueCounts(counts);
      CumulativeNumerator(vc, i) > RunningCumulativeNumerator(vc, i)
  {
    var vc := ValueCounts(counts);
    var keys := SortedDistinct(counts);
    var m := |vc|;
    assert keys[0] in counts;
    StrictlyIncreasingGrows(keys, i);
    assert SliceLength(m, vc[i].value + 1) >= i + 2;
    PrefixSumMonotone(vc, i + 2, SliceLength(m, vc[i].value + 1));
    PrefixSumStep(vc, i + 1);
  }

  /** Where the distinct counts are exactly 0, 1, 2, ... the positional slice
      and the intended running sum agree. */
  lemma PositionalMatchesWhenContiguous(counts: seq<int>, i: nat)
    requires i < |ValueCounts(counts)|
    requires forall k :: 0 <= k < |ValueCounts(counts)| ==> ValueCounts(counts)[k].value == k
    ensures var vc := ValueCounts(counts);
      CumulativeNumerator(vc, i) == RunningCumulativeNumerator(vc, i)
  {
  }
}
