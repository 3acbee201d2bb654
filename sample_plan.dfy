/** `get_chats` without its database calls: the estimate fallback, the
    over-sample target, the clamped Bernoulli percentage and the text of the
    sampling query; and the column list of `to_dataframe`. */
module SamplePlan {
  import opened Wrappers

  /** The estimate used when the catalog query returns no row. */
  const FallbackEstimate: int := 1000

  /** The over-sampling factor: three times as many rows as requested. */
  const OverSample: int := 3

  /** `result_df.iloc[0, 0] if not result_df.empty else 1000`, where
      `catalog` is the first column of the catalog query's result. */
  function EstimatedRows(catalog: seq<int>): (e: int)
    ensures catalog == [] ==> e == FallbackEstimate
    ensures catalog != [] ==> e == catalog[0]
  {
    if catalog == [] then FallbackEstimate else catalog[0]
  }

  function Min(a: real, b: real): real { if b < a then b else a }
  function Max(a: real, b: real): real { if b > a then b else a }

  /** `target_sample / estimated_rows * 100` before clamping. */
  function RawPercent(targetSample: int, estimatedRows: int): real
    requires estimatedRows != 0
  {
    (targetSample as real / estimatedRows as real) * 100.0
  }

  /** `min(100, max(0.1, raw))`: the percentage always lies in [0.1, 100]; it
      is 100 exactly when a positive estimate is at most the target, 0.1
      exactly when the target is at most a thousandth of a positive
      estimate, 0.1 for a negative estimate (the catalog's -1 for a table
      never analysed), and the unclamped value in between. */
  function SamplePercent(targetSample: int, estimatedRows: int): (pct: real)
    requires estimatedRows != 0
    ensures 0.1 <= pct <= 100.0
    ensures estimatedRows > 0 ==> (pct == 100.0 <==> estimatedRows <= targetSample)
    ensures estimatedRows > 0 ==> (pct == 0.1 <==> targetSample * 1000 <= estimatedRows)
    ensures estimatedRows < 0 && targetSample >= 0 ==> pct == 0.1
    ensures 0.1 < pct < 100.0 ==> pct == RawPercent(targetSample, estimatedRows)
  {
    var raw := RawPercent(targetSample, estimatedRows);
    RawPercentAgainst(targetSample, estimatedRows);
    Min(100.0, Max(0.1, raw))
  }

  /** For a positive estimate, the raw percentage reaches 100 exactly when
      the target reaches the estimate, and stays at or below 0.1 exactly
      when a thousand times the target stays at or below it. */
  lemma RawPercentAgainst(targetSample: int, estimatedRows: int)
    requires estimatedRows != 0
    ensures estimatedRows > 0 ==>
      (RawPercent(targetSample, estimatedRows) >= 100.0 <==> estimatedRows <= targetSample)
    ensures estimatedRows > 0 ==>
      (RawPercent(targetSample, estimatedRows) <= 0.1 <==> targetSample * 1000 <= estimatedRows)
    ensures estimatedRows < 0 && targetSample >= 0 ==> RawPercent(targetSample, estimatedRows) <= 0.0
  {
    if estimatedRows > 0 {
      QuotientAgainst(targetSample, estimatedRows, 1);
      QuotientAgainst(targetSample * 1000, estimatedRows, 1);
      assert (targetSample * 1000) as real / estimatedRows as real
        == 1000.0 * (targetSample as real / estimatedRows as real);
    } else if targetSample >= 0 {
      var q := targetSample as real / estimatedRows as real;
      assert q * estimatedRows as real == targetSample as real;
    }
  }

  lemma QuotientAgainst(a: int, b: int, c: int)
    requires b > 0
    ensures a as real / b as real >= c as real <==> a >= c * b
    ensures a as real / b as real <= c as real <==> a <= c * b
  {
    var q := a as real / b as real;
    assert q * b as real == a as real;
    assert (q - c as real) * b as real == (a - c * b) as real;
  }

  /** The numbers `get_chats` derives before it builds the query. */
  datatype Plan = Plan(estimatedRows: int, targetSample: int, samplePercent: real)

  /** Lines 50-54 of `get_chats`. The source divides by the estimate without
      a guard, so a zero estimate is excluded here. */
  function PlanSample(catalog: seq<int>, limit: int): (p: Plan)
    requires EstimatedRows(catalog) != 0
    ensures p.estimatedRows == EstimatedRows(catalog)
    ensures p.targetSample == OverSample * limit
    ensures 0.1 <= p.samplePercent <= 100.0
    ensures 0 < p.estimatedRows <= OverSample * limit ==> p.samplePercent == 100.0
  {
    var estimated := EstimatedRows(catalog);
    var target := limit * OverSample;
    Plan(estimated, target, SamplePercent(target, estimated))
  }

  // ---- The query text ----

  /** The filter line of the f-string, written in pieces only so that the
      verifier can look inside the literal. */
  const FilterClause: string := "WHERE " + "messages IS NOT NULL " + "AND jsonb_array_length(messages) > 0"

  /** The f-string up to the sample percentage, in pieces for the same reason. */
  const QueryHead: string := "\n    SELECT *\n    " + "FROM ai_chat " + "TABLESAMPLE " + "BERNOULLI("

  /** The characters Python's `str` of a float or an int can produce
      (digits, sign, point, exponent, `inf`, `nan`). */
  predicate IsNumberText(s: string) {
    forall k :: 0 <= k < |s| ==> s[k] in "0123456789.-+einfa"
  }

  function DigitChar(d: nat): (c: char)
    requires d < 10
    ensures c in "0123456789"
  {
    "0123456789"[d]
  }

  function DigitValue(c: char): nat {
    if '0' <= c <= '9' then (c as int - '0' as int) else 0
  }

  /** `str(n)` for a natural number. */
  function NatToString(n: nat): (s: string)
    ensures |s| > 0
    ensures forall k :: 0 <= k < |s| ==> s[k] in "0123456789"
  {
    if n < 10 then [DigitChar(n)] else NatToString(n / 10) + [DigitChar(n % 10)]
  }

  /** `str(i)` for an integer. */
  function IntToString(i: int): (s: string)
    ensures IsNumberText(s)
  {
    if i < 0 then "-" + NatToString(-i) else NatToString(i)
  }

  /** The value of a string of decimal digits. */
  function DecimalValue(s: string): nat {
    if s == [] then 0 else DecimalValue(s[..|s| - 1]) * 10 + DigitValue(s[|s| - 1])
  }

  lemma {:induction false} DecimalValueOfNatToString(n: nat)
    ensures DecimalValue(NatToString(n)) == n
  {
    if n >= 10 {
      var s := NatToString(n);
      assert s[..|s| - 1] == NatToString(n / 10);
      DecimalValueOfNatToString(n / 10);
    }
  }

  /** `TABLESAMPLE BERNOULLI(...)` on `ai_chat`, with the text Python
      prints for `sample_percent` (float formatting is not modelled). */
  function SampleClause(percentText: string): string {
    QueryHead + percentText + ")"
  }

  /** The conditional fragment of the f-string. */
  function FilterLine(includeEmptyChats: bool): string {
    if includeEmptyChats then "" else FilterClause
  }

  function LimitClause(limit: int): string {
    "LIMIT " + IntToString(limit) + ";\n    "
  }

  /** The f-string of `get_chats`. */
  function SampleQuery(percentText: string, limit: int, includeEmptyChats: bool): string {
    SampleClause(percentText) + "\n    " + FilterLine(includeEmptyChats) + "\n    " + LimitClause(limit)
  }

  lemma ConcatParts<T>(a: seq<T>, b: seq<T>, c: seq<T>, d: seq<T>, e: seq<T>)
    ensures var s := a + b + c + d + e;
      s[..|a|] == a && s[|s| - |e|..] == e && s[|a + b|..|a + b + c|] == c
  {
    var s := a + b + c + d + e;
    assert s == a + (b + c + d + e);
    assert s == (a + b + c + d) + e;
    assert s == (a + b) + c + (d + e);
  }

  predicate OccursAt(s: string, part: string, i: nat) {
    i + |part| <= |s| && s[i..i + |part|] == part
  }

  predicate Occurs(s: string, part: string) {
    exists i: nat :: i <= |s| && OccursAt(s, part, i)
  }

  /** The query samples `ai_chat` with `TABLESAMPLE BERNOULLI(percentText)`,
      and ends with `LIMIT` and the unchanged limit. */
  lemma QueryShape(percentText: string, limit: int, includeEmptyChats: bool)
    ensures var q := SampleQuery(percentText, limit, includeEmptyChats);
      && q[..|SampleClause(percentText)|] == SampleClause(percentText)
      && q[|q| - |LimitClause(limit)|..] == LimitClause(limit)
  {
    ConcatParts(SampleClause(percentText), "\n    ", FilterLine(includeEmptyChats), "\n    ", LimitClause(limit));
  }

  /** The limit in the query reads back as the limit given. */
  lemma LimitReadsBack(limit: nat)
    ensures DecimalValue(IntToString(limit)) == limit
  {
    DecimalValueOfNatToString(limit);
  }

  lemma NoWInConcat(a: string, b: string)
    ensures 'W' !in a + b <==> 'W' !in a && 'W' !in b
  {
    assert forall c :: c in a + b <==> c in a || c in b;
  }

  /** No part of the query other than the filter contains a `W`. */
  lemma NoFilterNoW(percentText: string, limit: int)
    requires IsNumberText(percentText)
    ensures 'W' !in SampleQuery(percentText, limit, true)
  {
    assert 'W' !in QueryHead by {
      assert 'W' !in "\n    SELECT *\n    ";
      assert 'W' !in "FROM ai_chat ";
      assert 'W' !in "TABLESAMPLE ";
      assert 'W' !in "BERNOULLI(";
    }
    assert 'W' !in percentText;
    NoWInConcat(QueryHead, percentText);
    NoWInConcat(QueryHead + percentText, ")");
    var lim := IntToString(limit);
    assert 'W' !in lim;
    NoWInConcat("LIMIT ", lim);
    NoWInConcat("LIMIT " + lim, ";\n    ");
    var head := SampleClause(percentText) + "\n    ";
    NoWInConcat(SampleClause(percentText), "\n    ");
    NoWInConcat(head, "");
    NoWInConcat(head + "", "\n    ");
    NoWInConcat(head + "" + "\n    ", LimitClause(limit));
  }

  lemma FirstCharOfOccurrence(s: string, part: string, i: nat)
    requires OccursAt(s, part, i) && |part| > 0
    ensures s[i] == part[0]
  {
    assert s[i..i + |part|][0] == s[i];
  }

  lemma FilterStartsWithW()
    ensures |FilterClause| > 0 && FilterClause[0] == 'W'
  {
    assert FilterClause[0] == "WHERE "[0];
  }

  /** A text without the first character of `part` has no occurrence of it. */
  lemma NoOccurrenceWithoutFirstChar(s: string, part: string)
    requires |part| > 0 && part[0] !in s
    ensures !Occurs(s, part)
  {
    forall i: nat | i <= |s| && OccursAt(s, part, i)
      ensures s[i] == part[0]
    {
      FirstCharOfOccurrence(s, part, i);
    }
  }

  lemma FilterAppearsWhenExcluded(percentText: string, limit: int)
    ensures OccursAt(SampleQuery(percentText, limit, false), FilterClause, |SampleClause(percentText) + "\n    "|)
  {
    var front := SampleClause(percentText);
    ConcatParts(front, "\n    ", FilterClause, "\n    ", LimitClause(limit));
  }

  /** The filter on non-null, non-empty message lists is in the query
      exactly when empty chats are not wanted. */
  lemma FilterPresentIffEmptyExcluded(percentText: string, limit: int, includeEmptyChats: bool)
    requires IsNumberText(percentText)
    ensures Occurs(SampleQuery(percentText, limit, includeEmptyChats), FilterClause) <==> !includeEmptyChats
  {
    if includeEmptyChats {
      FilterStartsWithW();
      NoFilterNoW(percentText, limit);
      NoOccurrenceWithoutFirstChar(SampleQuery(percentText, limit, true), FilterClause);
    } else {
      FilterAppearsWhenExcluded(percentText, limit);
    }
  }

  // ---- to_dataframe ----

  /** `field["name"]` raises `KeyError` on the first field without a name. */
  datatype ColumnsError = MissingName(index: nat)

  /** `[field["name"] for field in results["fields"]]`. */
  function ColumnNames(fields: seq<map<string, string>>): (r: Result<seq<string>, ColumnsError>)
    ensures r.Success? <==> forall i :: 0 <= i < |fields| ==> "name" in fields[i]
    ensures r.Success? ==> |r.value| == |fields| && forall i :: 0 <= i < |fields| ==> r.value[i] == fields[i]["name"]
    ensures r.Failure? ==>
      && r.error.index < |fields| && "name" !in fields[r.error.index]
      && forall j :: 0 <= j < r.error.index ==> "name" in fields[j]
  {
    if fields == [] then Success([])
    else if "name" !in fields[0] then Failure(MissingName(0))
    else
      match ColumnNames(fields[1..])
      case Success(rest) => Success([fields[0]["name"]] + rest)
      case Failure(MissingName(k)) => Failure(MissingName(k + 1))
  }
}
