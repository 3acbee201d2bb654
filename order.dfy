/** Ordering of message counts: the ascending sort behind `quantile`,
    `median`, `min` and `max`, and the ascending distinct values behind
    `value_counts().sort_index()`. */
module Order {

  predicate Sorted(s: seq<int>) {
    forall i, j :: 0 <= i <= j < |s| ==> s[i] <= s[j]
  }

  predicate StrictlyIncreasing(s: seq<int>) {
    forall i, j :: 0 <= i < j < |s| ==> s[i] < s[j]
  }

  function Insert(s: seq<int>, x: int): (r: seq<int>)
    requires Sorted(s)
    ensures Sorted(r)
    ensures forall k :: 0 <= k < |r| ==> r[k] == x || r[k] in s
    ensures multiset(r) == multiset(s) + multiset{x}
  {
    if s == [] then [x]
    else if x <= s[0] then [x] + s
    else
      var t := Insert(s[1..], x);
      assert s == [s[0]] + s[1..];
      assert forall k :: 0 <= k < |t| ==> s[0] <= t[k];
      [s[0]] + t
  }

  /** The values of `s` in ascending order. */
  function Sort(s: seq<int>): (r: seq<int>)
    ensures Sorted(r)
    ensures multiset(r) == multiset(s)
  {
    if s == [] then []
    else
      assert s == s[..|s| - 1] + [s[|s| - 1]];
      Insert(Sort(s[..|s| - 1]), s[|s| - 1])
  }

  function InsertDistinct(s: seq<int>, x: int): (r: seq<int>)
    requires StrictlyIncreasing(s)
    ensures StrictlyIncreasing(r)
    ensures forall y :: y in r <==> y == x || y in s
  {
    if s == [] then [x]
    else if x < s[0] then [x] + s
    else if x == s[0] then s
    else
      var t := InsertDistinct(s[1..], x);
      AboveHead(s, t, x);
      assert s == [s[0]] + s[1..];
      [s[0]] + t
  }

  /** What `InsertDistinct` puts after the head of `s` lies above that head. */
  lemma AboveHead(s: seq<int>, t: seq<int>, x: int)
    requires StrictlyIncreasing(s) && StrictlyIncreasing(t) && s != [] && s[0] < x
    requires forall y :: y in t <==> y == x || y in s[1..]
    ensures StrictlyIncreasing([s[0]] + t)
  {
    forall k | 0 <= k < |t|
      ensures s[0] < t[k]
    {
      if t[k] != x {
        assert t[k] in s[1..];
        var j :| 0 <= j < |s[1..]| && s[1..][j] == t[k];
        assert s[j + 1] == t[k];
      }
    }
    var r := [s[0]] + t;
    assert forall k :: 1 <= k < |r| ==> r[k] == t[k - 1];
  }

  /** The distinct values of `s` in strictly ascending order. */
  function SortedDistinct(s: seq<int>): (r: seq<int>)
    ensures StrictlyIncreasing(r)
    ensures forall y :: y in r <==> y in s
  {
    if s == [] then []
    else
      var init := s[..|s| - 1];
      assert s == init + [s[|s| - 1]];
      InsertDistinct(SortedDistinct(init), s[|s| - 1])
  }

  function MinOf(s: seq<int>): (m: int)
    requires s != []
    ensures m in s
    ensures forall k :: 0 <= k < |s| ==> m <= s[k]
  {
    if |s| == 1 then s[0]
    else
      var m := MinOf(s[1..]);
      assert forall k :: 1 <= k < |s| ==> s[k] == s[1..][k - 1];
      if s[0] <= m then s[0] else m
  }

  function MaxOf(s: seq<int>): (m: int)
    requires s != []
    ensures m in s
    ensures forall k :: 0 <= k < |s| ==> s[k] <= m
  {
    if |s| == 1 then s[0]
    else
      var m := MaxOf(s[1..]);
      assert forall k :: 1 <= k < |s| ==> s[k] == s[1..][k - 1];
      if m <= s[0] then s[0] else m
  }

  /** The ends of the ascending sort are the minimum and the maximum. */
  lemma SortEnds(s: seq<int>)
    requires s != []
    ensures |Sort(s)| == |s|
    ensures Sort(s)[0] == MinOf(s)
    ensures Sort(s)[|s| - 1] == MaxOf(s)
  {
    var r := Sort(s);
    assert |r| == |multiset(r)| == |multiset(s)| == |s|;
    assert r[0] in multiset(s) && r[|r| - 1] in multiset(s);
    assert MinOf(s) in multiset(r) && MaxOf(s) in multiset(r);
  }
}
