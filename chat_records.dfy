/** Conversation records and the message-count rule of
    `parse_message_counts` / `get_message_count`. */
module ChatRecords {
  import opened Wrappers
  import SimpleStats

  /** A stored message; the aggregator only counts messages and never looks inside. */
  datatype Message = Message(role: string, content: string)

  /** One row of the `ai_chat` sample. A column missing from the frame and a
      null cell read the same to `get_message_count`, so both are `None`.
      `msgCount` is the `msg_count` summary object, `messages` the message
      list, `chatType` the category label. */
  datatype ChatRecord = ChatRecord(
    msgCount: Option<map<string, int>>,
    messages: Option<seq<Message>>,
    chatType: Option<string>)

  const MsgCountKey: string := "msg_count"

  /** `dict.get(key, 0)` on the summary object. */
  function GetOrZero(m: map<string, int>, key: string): int {
    if key in m then m[key] else 0
  }

  /** `get_message_count`: a present summary object always decides (its inner
      `msg_count`, or 0 when the key is absent), whatever the message list
      holds; otherwise the length of the message list; otherwise 0. */
  function MessageCount(r: ChatRecord): (c: int)
    ensures r.msgCount.Some? ==> c == GetOrZero(r.msgCount.value, MsgCountKey)
    ensures r.msgCount.None? && r.messages.Some? ==> c == |r.messages.value|
    ensures r.msgCount.None? && r.messages.None? ==> c == 0
  {
    match r.msgCount
    case Some(summary) => GetOrZero(summary, MsgCountKey)
    case None =>
      match r.messages
      case Some(ms) => |ms|
      case None => 0
  }

  /** A present summary object wins over a message list of any length. */
  lemma SummaryWinsOverMessages(r: ChatRecord, other: Option<seq<Message>>)
    requires r.msgCount.Some?
    ensures MessageCount(r.(messages := other)) == MessageCount(r)
  {
  }

  /** A row of the copied frame: the original record plus its `message_count` column. */
  datatype CountedRecord = CountedRecord(record: ChatRecord, messageCount: int)

  function Records(rows: seq<CountedRecord>): (rs: seq<ChatRecord>)
    ensures |rs| == |rows|
    ensures forall i :: 0 <= i < |rows| ==> rs[i] == rows[i].record
  {
    seq(|rows|, i requires 0 <= i < |rows| => rows[i].record)
  }

  /** The `message_count` column. */
  function MessageCounts(rows: seq<CountedRecord>): (cs: seq<int>)
    ensures |cs| == |rows|
    ensures forall i :: 0 <= i < |rows| ==> cs[i] == rows[i].messageCount
  {
    seq(|rows|, i requires 0 <= i < |rows| => rows[i].messageCount)
  }

  /** `parse_message_counts`: the same rows in the same order, each with one
      added count computed by the one rule; the input itself is a value and
      stays as it was. */
  function ParseMessageCounts(records: seq<ChatRecord>): (rows: seq<CountedRecord>)
    ensures Records(rows) == records
    ensures |MessageCounts(rows)| == |records|
    ensures forall i :: 0 <= i < |records| ==> MessageCounts(rows)[i] == MessageCount(records[i])
  {
    seq(|records|, i requires 0 <= i < |records| => CountedRecord(records[i], MessageCount(records[i])))
  }

  /** No summary object carries a negative `msg_count`. */
  predicate SummariesNonNegative(records: seq<ChatRecord>) {
    forall i :: 0 <= i < |records| && records[i].msgCount.Some? ==>
      GetOrZero(records[i].msgCount.value, MsgCountKey) >= 0
  }

  /** The `message_count` column is free of negative counts exactly when no
      summary object carries a negative `msg_count`: list lengths and the
      default 0 never are negative. */
  lemma CountsNonNegativeIffSummariesAre(records: seq<ChatRecord>)
    ensures SimpleStats.NonNegative(MessageCounts(ParseMessageCounts(records)))
      <==> SummariesNonNegative(records)
  {
    var cs := MessageCounts(ParseMessageCounts(records));
    if SummariesNonNegative(records) {
      forall k | 0 <= k < |cs| ensures cs[k] >= 0 {
        assert cs[k] == MessageCount(records[k]);
      }
    }
    if SimpleStats.NonNegative(cs) {
      forall i | 0 <= i < |records| && records[i].msgCount.Some?
        ensures GetOrZero(records[i].msgCount.value, MsgCountKey) >= 0
      {
        assert cs[i] == MessageCount(records[i]);
      }
    }
  }
}
