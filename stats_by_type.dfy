/** `get_stats_by_type`: one column of statistics per non-null chat type, in
    the order `Series.unique()` first meets the types. */
module StatsByType {
  import opened Wrappers
  import opened Counting
  import opened Statistics
  import opened ChatRecords
  import SimpleStats

  datatype TypeStats = TypeStats(
    count: nat,
    avgLength: real,
    medianLength: real,
    emptyChats: nat,
    longChats: nat)

  /** One column of the returned frame: a chat type and its statistics. */
  datatype TypeEntry = TypeEntry(chatType: string, stats: TypeStats)

  predicate IsLongerThan15(c: int) { c > 15 }

  /** The `chat_type` column. */
  function ChatTypes(rows: seq<CountedRecord>): (ts: seq<Option<string>>)
    ensures |ts| == |rows|
    ensures forall i :: 0 <= i < |rows| ==> ts[i] == rows[i].record.chatType
  {
    if rows == [] then [] else [rows[0].record.chatType] + ChatTypes(rows[1..])
  }

  /** The number of rows of type `t` whose message count satisfies `p`. */
  function RowsOfTypeWhere(rows: seq<CountedRecord>, t: string, p: int -> bool): nat {
    if rows == [] then 0
    else
      (if rows[0].record.chatType == Some(t) && p(rows[0].messageCount) then 1 else 0)
        + RowsOfTypeWhere(rows[1..], t, p)
  }

  /** `subset['message_count']` for `subset = df[df['chat_type'] == t]`: one
      count per row of that type. */
  function CountsOfType(rows: seq<CountedRecord>, t: string): (sub: seq<int>)
    ensures |sub| == Occurrences(ChatTypes(rows), Some(t))
  {
    if rows == [] then []
    else
      assert ChatTypes(rows)[1..] == ChatTypes(rows[1..]);
      (if rows[0].record.chatType == Some(t) then [rows[0].messageCount] else [])
        + CountsOfType(rows[1..], t)
  }

  /** The subset holds the counts of exactly the rows of type `t`: for any
      mask, as many of its counts pass the mask as there are rows of that
      type whose count passes it. */
  lemma {:induction false} CountsOfTypeMatchRows(rows: seq<CountedRecord>, t: string, p: int -> bool)
    ensures CountWhere(CountsOfType(rows, t), p) == RowsOfTypeWhere(rows, t, p)
  {
    if rows != [] {
      var rest := CountsOfType(rows[1..], t);
      CountsOfTypeMatchRows(rows[1..], t, p);
      if rows[0].record.chatType == Some(t) {
        assert CountsOfType(rows, t) == [rows[0].messageCount] + rest;
        assert ([rows[0].messageCount] + rest)[1..] == rest;
      } else {
        assert CountsOfType(rows, t) == rest;
      }
    }
  }

  /** The statistics of one type's subset; the subset is never empty, since
      the type was taken from the column. */
  function TypeStatsOf(sub: seq<int>): (ts: TypeStats)
    requires sub != []
    ensures ts.count == |sub|
    ensures ts.emptyChats <= ts.count && ts.longChats <= ts.count
  {
    TypeStats(
      count := |sub|,
      avgLength := Mean(sub),
      medianLength := Median(sub),
      emptyChats := CountWhere(sub, SimpleStats.IsEmptyChat),
      longChats := CountWhere(sub, IsLongerThan15))
  }

  /** The non-null values of `types`, in order: the values the loop does not skip. */
  function PresentValues(types: seq<Option<string>>): (ts: seq<string>)
    ensures forall i :: 0 <= i < |ts| ==> Some(ts[i]) in types
    ensures forall k :: 0 <= k < |types| && types[k].Some? ==> types[k].value in ts
    ensures NoDuplicates(types) ==> NoDuplicates(ts)
  {
    if types == [] then []
    else
      var init := types[..|types| - 1];
      assert forall k :: 0 <= k < |types| - 1 ==> init[k] == types[k];
      var ts := PresentValues(init);
      match types[|types| - 1]
      case None => ts
      case Some(t) =>
        assert NoDuplicates(types) ==> Some(t) !in init;
        ts + [t]
  }

  /** Every name in `ts` is a value of the column. */
  predicate AllListed(rows: seq<CountedRecord>, ts: seq<string>) {
    forall i :: 0 <= i < |ts| ==> Some(ts[i]) in ChatTypes(rows)
  }

  /** One entry per listed type, each with the statistics of its subset. */
  function Entries(rows: seq<CountedRecord>, ts: seq<string>): (es: seq<TypeEntry>)
    requires AllListed(rows, ts)
    ensures |es| == |ts|
    ensures forall i :: 0 <= i < |ts| ==> es[i].chatType == ts[i]
  {
    seq(|ts|, i requires 0 <= i < |ts| => TypeEntry(ts[i], TypeStatsOf(CountsOfType(rows, ts[i]))))
  }

  lemma PresentValuesSnoc(types: seq<Option<string>>, x: Option<string>)
    ensures PresentValues(types + [x]) == PresentValues(types) + (if x.Some? then [x.value] else [])
  {
    assert (types + [x])[..|types|] == types;
  }

  /** Values taken from the column stay in the column when the nulls are dropped. */
  lemma PresentValuesListed(rows: seq<CountedRecord>, types: seq<Option<string>>)
    requires forall k :: 0 <= k < |types| ==> types[k] in ChatTypes(rows)
    ensures AllListed(rows, PresentValues(types))
  {
  }

  lemma EntriesSnoc(rows: seq<CountedRecord>, ts: seq<string>, t: string)
    requires AllListed(rows, ts)
    requires Some(t) in ChatTypes(rows)
    ensures Entries(rows, ts + [t]) == Entries(rows, ts) + [TypeEntry(t, TypeStatsOf(CountsOfType(rows, t)))]
  {
  }

  /** One turn of the loop of `get_stats_by_type`: visiting one more value
      of the column adds its entry, or nothing for a null. */
  lemma VisitOneMore(rows: seq<CountedRecord>, types: seq<Option<string>>, i: nat)
    requires i < |types|
    requires forall k :: 0 <= k < |types| ==> types[k] in ChatTypes(rows)
    ensures AllListed(rows, PresentValues(types[..i + 1]))
    ensures AllListed(rows, PresentValues(types[..i]))
    ensures Entries(rows, PresentValues(types[..i + 1])) ==
      match types[i]
      case None => Entries(rows, PresentValues(types[..i]))
      case Some(t) => Entries(rows, PresentValues(types[..i])) + [TypeEntry(t, TypeStatsOf(CountsOfType(rows, t)))]
  {
    var visited := types[..i];
    assert types[..i + 1] == visited + [types[i]];
    PresentValuesSnoc(visited, types[i]);
    PresentValuesListed(rows, types[..i + 1]);
    PresentValuesListed(rows, visited);
    match types[i]
    case None =>
    case Some(t) =>
      EntriesSnoc(rows, PresentValues(visited), t);
  }

  /** The frame `get_stats_by_type` returns, when the column exists. */
  function TypeAnalysis(rows: seq<CountedRecord>): seq<TypeEntry> {
    var ts := PresentValues(Unique(ChatTypes(rows)));
    Entries(rows, ts)
  }

  /** `get_stats_by_type`: no result without a `chat_type` column; otherwise
      the loop over the unique types builds `TypeAnalysis`. */
  method GetStatsByType(hasChatTypeColumn: bool, rows: seq<CountedRecord>)
    returns (r: Option<seq<TypeEntry>>)
    ensures r.None? <==> !hasChatTypeColumn
    ensures r.Some? ==> r.value == TypeAnalysis(rows)
  {
    if !hasChatTypeColumn {
      return None;
    }
    var types := Unique(ChatTypes(rows));
    var entries: seq<TypeEntry> := [];
    for i := 0 to |types|
      invariant AllListed(rows, PresentValues(types[..i]))
      invariant entries == Entries(rows, PresentValues(types[..i]))
    {
      VisitOneMore(rows, types, i);
      match types[i]
      case None =>
      case Some(t) =>
        entries := entries + [TypeEntry(t, TypeStatsOf(CountsOfType(rows, t)))];
    }
    assert types[..|types|] == types;
    return Some(entries);
  }

  /** Every non-null type of the column has exactly one entry, and nothing else does. */
  lemma TypesAreUniqueAndComplete(rows: seq<CountedRecord>)
    ensures var es := TypeAnalysis(rows);
      && (forall i, j :: 0 <= i < j < |es| ==> es[i].chatType != es[j].chatType)
      && (forall i :: 0 <= i < |es| ==> Some(es[i].chatType) in ChatTypes(rows))
      && (forall k :: 0 <= k < |rows| && rows[k].record.chatType.Some? ==>
            exists i :: 0 <= i < |es| && es[i].chatType == rows[k].record.chatType.value)
  {
    var ct := ChatTypes(rows);
    var ts := PresentValues(Unique(ct));
    forall k | 0 <= k < |rows| && rows[k].record.chatType.Some?
      ensures rows[k].record.chatType.value in ts
    {
      assert ct[k] == rows[k].record.chatType;
    }
  }

  /** Each entry counts the rows of its type; its empty and long chats are
      among them. */
  lemma TypeCountsAreRowCounts(rows: seq<CountedRecord>)
    ensures var es := TypeAnalysis(rows);
      forall i :: 0 <= i < |es| ==>
        && es[i].stats.count == Occurrences(ChatTypes(rows), Some(es[i].chatType))
        && es[i].stats.emptyChats <= es[i].stats.count
        && es[i].stats.longChats <= es[i].stats.count
  {
  }

  /** Each entry's empty and long chats are the rows of its type with no
      message and with more than 15 messages. */
  lemma TypeBucketsAreRowCounts(rows: seq<CountedRecord>)
    ensures var es := TypeAnalysis(rows);
      forall i :: 0 <= i < |es| ==>
        && es[i].stats.emptyChats == RowsOfTypeWhere(rows, es[i].chatType, SimpleStats.IsEmptyChat)
        && es[i].stats.longChats == RowsOfTypeWhere(rows, es[i].chatType, IsLongerThan15)
  {
    var ts := PresentValues(Unique(ChatTypes(rows)));
    forall i | 0 <= i < |ts| {
      EntryBuckets(rows, ts, i);
    }
  }

  lemma EntryBuckets(rows: seq<CountedRecord>, ts: seq<string>, i: nat)
    requires AllListed(rows, ts) && i < |ts|
    ensures Entries(rows, ts)[i].stats.emptyChats == RowsOfTypeWhere(rows, ts[i], SimpleStats.IsEmptyChat)
    ensures Entries(rows, ts)[i].stats.longChats == RowsOfTypeWhere(rows, ts[i], IsLongerThan15)
  {
    var sub := CountsOfType(rows, ts[i]);
    assert Entries(rows, ts)[i].stats == TypeStatsOf(sub);
    CountsOfTypeMatchRows(rows, ts[i], SimpleStats.IsEmptyChat);
    CountsOfTypeMatchRows(rows, ts[i], IsLongerThan15);
  }

  function TotalCount(es: seq<TypeEntry>): nat {
    if es == [] then 0 else es[0].stats.count + TotalCount(es[1..])
  }

  lemma {:induction false} TotalCountAppend(es: seq<TypeEntry>, e: TypeEntry)
    ensures TotalCount(es + [e]) == TotalCount(es) + e.stats.count
  {
    if es != [] {
      assert (es + [e])[1..] == es[1..] + [e];
      TotalCountAppend(es[1..], e);
    }
  }

  /** Over distinct visited values, the entries count every row whose type
      was visited, except the null-typed ones. */
  lemma {:induction false} EntriesCountVisitedRows(types: seq<Option<string>>, rows: seq<CountedRecord>)
    requires forall k :: 0 <= k < |types| ==> types[k] in ChatTypes(rows)
    requires NoDuplicates(types)
    ensures SumOfOccurrences(types, ChatTypes(rows))
      == TotalCount(Entries(rows, PresentValues(types)))
       + (if None in types then Occurrences(ChatTypes(rows), None) else 0)
  {
    if types != [] {
      var init := types[..|types| - 1];
      var last := types[|types| - 1];
      assert types == init + [last];
      assert forall k :: 0 <= k < |types| - 1 ==> init[k] == types[k];
      EntriesCountVisitedRows(init, rows);
      SumOfOccurrencesAppend(init, last, ChatTypes(rows));
      assert None in types <==> None in init || last == None;
      assert last == None ==> None !in init;
      PresentValuesSnoc(init, last);
      match last
      case None =>
      case Some(t) =>
        var ts := PresentValues(init);
        EntriesSnoc(rows, ts, t);
        TotalCountAppend(Entries(rows, ts), TypeEntry(t, TypeStatsOf(CountsOfType(rows, t))));
    }
  }

  /** The per-type counts add up to the number of rows with a non-null type. */
  lemma TypeCountsSumToTypedRows(rows: seq<CountedRecord>)
    ensures TotalCount(TypeAnalysis(rows)) + Occurrences(ChatTypes(rows), None) == |rows|
  {
    var ct := ChatTypes(rows);
    var u := Unique(ct);
    EntriesCountVisitedRows(u, rows);
    OccurrencesSumToLength(u, ct);
    assert None !in u ==> Occurrences(ct, None) == 0;
  }
}
