/** `get_simple_stats`: totals, mean, median, range, truncated percentiles,
    the six length buckets and their percentages, over the `message_count`
    column. */
module SimpleStats {
  import opened Wrappers
  import opened Counting
  import opened Order
  import opened Statistics

  /** The percentiles the source reports, in the order its loop visits them. */
  const PercentilePoints: seq<nat> := [25, 50, 75, 90, 95]

  /** On an empty column the quantile is NaN and `int()` of it raises. */
  datatype StatsError = QuantileOfEmptyColumn

  datatype LengthStats = LengthStats(
    totalChats: nat,
    chatsWithMessages: nat,
    emptyChats: nat,
    avgMessageCount: real,
    avgNonEmptyChats: Option<real>,  // None where pandas gives NaN: no chat has messages
    medianMessages: real,
    minMessages: int,
    maxMessages: int,
    percentiles: map<nat, int>,      // p |-> the `{p}th_percentile` entry
    veryShortChats: nat,
    shortChats: nat,
    mediumChats: nat,
    longChats: nat,
    veryLongChats: nat,
    emptyPercentage: real,
    shortPercentage: real,
    mediumPercentage: real,
    longPercentage: real)

  // The masks of the source, on one count.
  predicate HasMessages(c: int) { c > 0 }
  predicate IsEmptyChat(c: int) { c == 0 }
  predicate IsVeryShort(c: int) { 1 <= c <= 2 }
  predicate IsShort(c: int) { 3 <= c <= 5 }
  predicate IsMedium(c: int) { 6 <= c <= 10 }
  predicate IsLong(c: int) { 11 <= c <= 20 }
  predicate IsVeryLong(c: int) { c > 20 }
  predicate IsNegative(c: int) { c < 0 }

  predicate NonNegative(counts: seq<int>) {
    forall k :: 0 <= k < |counts| ==> counts[k] >= 0
  }

  /** `(part / total) * 100` in exact arithmetic. */
  function Percent(part: nat, total: nat): real
    requires total > 0
  {
    (part as real / total as real) * 100.0
  }

  /** `int(quantile(p / 100))` on the ascending sort of the column. */
  function PercentileValue(sorted: seq<int>, p: nat): int
    requires sorted != [] && p <= 100
  {
    Truncate(Quantile(sorted, p))
  }

  function PercentileMap(sorted: seq<int>): map<nat, int>
    requires sorted != []
  {
    map p | p in PercentilePoints :: PercentileValue(sorted, p)
  }

  /** The dictionary `get_simple_stats` returns for a non-empty column. */
  function StatsOf(counts: seq<int>): LengthStats
    requires counts != []
  {
    var n := |counts|;
    var nonEmpty := Filter(counts, HasMessages);
    LengthStats(
      totalChats := n,
      chatsWithMessages := CountWhere(counts, HasMessages),
      emptyChats := CountWhere(counts, IsEmptyChat),
      avgMessageCount := Mean(counts),
      avgNonEmptyChats := if nonEmpty == [] then None else Some(Mean(nonEmpty)),
      medianMessages := Median(counts),
      minMessages := MinOf(counts),
      maxMessages := MaxOf(counts),
      percentiles := PercentileMap(Sort(counts)),
      veryShortChats := CountWhere(counts, IsVeryShort),
      shortChats := CountWhere(counts, IsShort),
      mediumChats := CountWhere(counts, IsMedium),
      longChats := CountWhere(counts, IsLong),
      veryLongChats := CountWhere(counts, IsVeryLong),
      emptyPercentage := Percent(CountWhere(counts, IsEmptyChat), n),
      shortPercentage := Percent(CountWhere(counts, IsShort), n),
      mediumPercentage := Percent(CountWhere(counts, IsMedium), n),
      longPercentage := Percent(CountWhere(counts, IsLong), n))
  }

  /** `get_simple_stats`, with its loop over the percentiles. It fails exactly
      on an empty column, and otherwise returns the statistics of `StatsOf`. */
  method GetSimpleStats(counts: seq<int>) returns (r: Result<LengthStats, StatsError>)
    ensures r.Failure? <==> counts == []
    ensures r.Success? ==> r.value == StatsOf(counts)
  {
    if counts == [] {
      return Failure(QuantileOfEmptyColumn);
    }
    var sorted := Sort(counts);
    var percentiles: map<nat, int> := map[];
    for i := 0 to |PercentilePoints|
      invariant forall p :: p in percentiles <==> p in PercentilePoints[..i]
      invariant forall p :: p in percentiles ==> p <= 100 && percentiles[p] == PercentileValue(sorted, p)
    {
      var p := PercentilePoints[i];
      assert PercentilePoints[..i + 1] == PercentilePoints[..i] + [p];
      percentiles := percentiles[p := PercentileValue(sorted, p)];
    }
    assert PercentilePoints[..|PercentilePoints|] == PercentilePoints;
    assert percentiles == PercentileMap(sorted);
    var n := |counts|;
    var nonEmpty := Filter(counts, HasMessages);
    var stats := LengthStats(
      totalChats := n,
      chatsWithMessages := CountWhere(counts, HasMessages),
      emptyChats := CountWhere(counts, IsEmptyChat),
      avgMessageCount := Mean(counts),
      avgNonEmptyChats := if nonEmpty == [] then None else Some(Mean(nonEmpty)),
      medianMessages := Quantile(sorted, 50),
      minMessages := MinOf(counts),
      maxMessages := MaxOf(counts),
      percentiles := percentiles,
      veryShortChats := CountWhere(counts, IsVeryShort),
      shortChats := CountWhere(counts, IsShort),
      mediumChats := CountWhere(counts, IsMedium),
      longChats := CountWhere(counts, IsLong),
      veryLongChats := CountWhere(counts, IsVeryLong),
      emptyPercentage := Percent(CountWhere(counts, IsEmptyChat), n),
      shortPercentage := Percent(CountWhere(counts, IsShort), n),
      mediumPercentage := Percent(CountWhere(counts, IsMedium), n),
      longPercentage := Percent(CountWhere(counts, IsLong), n));
    return Success(stats);
  }

  /** Every count falls in exactly one of the zero, positive and negative
      masks, and in exactly one bucket when it is not negative. */
  lemma {:induction false} MasksAddUp(s: seq<int>)
    ensures CountWhere(s, HasMessages) + CountWhere(s, IsEmptyChat) + CountWhere(s, IsNegative) == |s|
    ensures CountWhere(s, IsEmptyChat) + CountWhere(s, IsVeryShort) + CountWhere(s, IsShort)
          + CountWhere(s, IsMedium) + CountWhere(s, IsLong) + CountWhere(s, IsVeryLong)
          + CountWhere(s, IsNegative) == |s|
  {
    if s != [] {
      MasksAddUp(s[1..]);
    }
  }

  /** Non-empty and empty chats together are all the chats. */
  lemma ChatsWithMessagesAndEmptyAreTotal(counts: seq<int>)
    requires counts != [] && NonNegative(counts)
    ensures StatsOf(counts).chatsWithMessages + StatsOf(counts).emptyChats == StatsOf(counts).totalChats == |counts|
  {
    MasksAddUp(counts);
    CountWhereNone(counts, IsNegative);
  }

  /** The six buckets are disjoint and their sizes add up to the total. */
  lemma BucketsPartitionChats(counts: seq<int>)
    requires counts != [] && NonNegative(counts)
    ensures var st := StatsOf(counts);
      st.emptyChats + st.veryShortChats + st.shortChats + st.mediumChats
        + st.longChats + st.veryLongChats == st.totalChats
  {
    MasksAddUp(counts);
    CountWhereNone(counts, IsNegative);
  }

  /** The reported percentiles are non-decreasing in p and lie within the
      range [min_messages, max_messages]. */
  lemma PercentilesOrderedAndBounded(counts: seq<int>, p1: nat, p2: nat)
    requires counts != []
    requires p1 in PercentilePoints && p2 in PercentilePoints && p1 <= p2
    ensures var st := StatsOf(counts);
      p1 in st.percentiles && p2 in st.percentiles
      && st.percentiles[p1] <= st.percentiles[p2]
      && st.minMessages <= st.percentiles[p1]
      && st.percentiles[p2] <= st.maxMessages
  {
    var sorted := Sort(counts);
    SortEnds(counts);
    QuantileMonotone(sorted, p1, p2);
    TruncateMonotone(Quantile(sorted, p1), Quantile(sorted, p2));
    QuantileBetweenEnds(sorted, p1);
    QuantileBetweenEnds(sorted, p2);
    TruncateBetween(Quantile(sorted, p1), sorted[0], sorted[|sorted| - 1]);
    TruncateBetween(Quantile(sorted, p2), sorted[0], sorted[|sorted| - 1]);
  }

  /** The mean, the mean of the non-empty chats and the median lie within the range. */
  lemma AveragesWithinRange(counts: seq<int>)
    requires counts != []
    ensures var st := StatsOf(counts);
      && st.minMessages as real <= st.avgMessageCount <= st.maxMessages as real
      && st.minMessages as real <= st.medianMessages <= st.maxMessages as real
      && (st.avgNonEmptyChats.Some? ==> 0.0 < st.avgNonEmptyChats.value <= st.maxMessages as real)
  {
    MeanBetweenMinAndMax(counts);
    MedianBetweenMinAndMax(counts);
    var nonEmpty := Filter(counts, HasMessages);
    if nonEmpty != [] {
      MeanBetweenMinAndMax(nonEmpty);
      assert 1 <= MinOf(nonEmpty);
      assert MaxOf(nonEmpty) in counts;
    }
  }

  lemma PercentMonotone(a: nat, b: nat, total: nat)
    requires total > 0 && a <= b
    ensures Percent(a, total) <= Percent(b, total)
  {
    assert a as real / total as real <= b as real / total as real by {
      assert (b as real / total as real - a as real / total as real) * total as real == (b - a) as real;
    }
  }

  lemma PercentSum(a: nat, b: nat, total: nat)
    requires total > 0
    ensures Percent(a, total) + Percent(b, total) == Percent(a + b, total)
  {
  }

  lemma PercentOfWhole(total: nat)
    requires total > 0
    ensures Percent(total, total) == 100.0
  {
  }

  /** Percentages of disjoint parts of the total are non-negative and add up
      to at most 100. */
  lemma PercentsOfPartsBounded(a: nat, b: nat, c: nat, d: nat, total: nat)
    requires total > 0 && a + b + c + d <= total
    ensures 0.0 <= Percent(a, total) && 0.0 <= Percent(b, total)
    ensures 0.0 <= Percent(c, total) && 0.0 <= Percent(d, total)
    ensures Percent(a, total) + Percent(b, total) + Percent(c, total) + Percent(d, total) <= 100.0
  {
    PercentMonotone(0, a, total);
    PercentMonotone(0, b, total);
    PercentMonotone(0, c, total);
    PercentMonotone(0, d, total);
    PercentSum(a, b, total);
    PercentSum(a + b, c, total);
    PercentSum(a + b + c, d, total);
    PercentMonotone(a + b + c + d, total, total);
    PercentOfWhole(total);
  }

  /** Each reported percentage lies in [0, 100], and, the buckets being
      disjoint, the four reported ones add up to at most 100. */
  lemma PercentagesBounded(counts: seq<int>)
    requires counts != [] && NonNegative(counts)
    ensures var st := StatsOf(counts);
      && 0.0 <= st.emptyPercentage && 0.0 <= st.shortPercentage
      && 0.0 <= st.mediumPercentage && 0.0 <= st.longPercentage
      && st.emptyPercentage + st.shortPercentage + st.mediumPercentage + st.longPercentage <= 100.0
  {
    MasksAddUp(counts);
    CountWhereNone(counts, IsNegative);
    PercentsOfPartsBounded(CountWhere(counts, IsEmptyChat), CountWhere(counts, IsShort),
      CountWhere(counts, IsMedium), CountWhere(counts, IsLong), |counts|);
  }

  /** A worked case: after empty chats are filtered out, the counts
      1, 2, 3, 5, 6, 10, 11, 20, 21 fall two per bucket from very short to
      long, and one very long. */
  lemma BucketsOfSample()
    ensures var counts := [1, 2, 3, 5, 6, 10, 11, 20, 21];
      && CountWhere(counts, IsEmptyChat) == 0
      && CountWhere(counts, IsVeryShort) == 2 && CountWhere(counts, IsShort) == 2
      && CountWhere(counts, IsMedium) == 2 && CountWhere(counts, IsLong) == 2
      && CountWhere(counts, IsVeryLong) == 1
  {
  }
}
