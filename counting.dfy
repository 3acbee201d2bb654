/** Counting facts over sequences: occurrences, filtered counts, and
    first-appearance de-duplication (what `Series.unique()` returns). */
module Counting {

  /** Number of positions of `s` holding `x`. */
  function Occurrences<T(==)>(s: seq<T>, x: T): (c: nat)
    ensures c <= |s|
    ensures c > 0 <==> x in s
  {
    if s == [] then 0 else (if s[0] == x then 1 else 0) + Occurrences(s[1..], x)
  }

  /** Number of elements of `s` satisfying `p` (the length of a boolean-mask selection). */
  function CountWhere(s: seq<int>, p: int -> bool): (c: nat)
    ensures c <= |s|
  {
    if s == [] then 0 else (if p(s[0]) then 1 else 0) + CountWhere(s[1..], p)
  }

  predicate NoDuplicates<T(==)>(s: seq<T>) {
    forall i, j :: 0 <= i < j < |s| ==> s[i] != s[j]
  }

  /** The sum, over the keys, of how often each key occurs in `s`. */
  function SumOfOccurrences<T(==)>(keys: seq<T>, s: seq<T>): nat {
    if keys == [] then 0 else Occurrences(s, keys[0]) + SumOfOccurrences(keys[1..], s)
  }

  lemma {:induction false} SumOfOccurrencesEmpty<T>(keys: seq<T>)
    ensures SumOfOccurrences(keys, []) == 0
  {
    if keys != [] {
      SumOfOccurrencesEmpty(keys[1..]);
    }
  }

  /** Prepending one element adds exactly the number of keys equal to it. */
  lemma {:induction false} SumOfOccurrencesCons<T>(keys: seq<T>, x: T, s: seq<T>)
    ensures SumOfOccurrences(keys, [x] + s) == Occurrences(keys, x) + SumOfOccurrences(keys, s)
  {
    if keys != [] {
      assert ([x] + s)[1..] == s;
      SumOfOccurrencesCons(keys[1..], x, s);
    }
  }

  /** Appending one key adds exactly that key's occurrences. */
  lemma {:induction false} SumOfOccurrencesAppend<T>(keys: seq<T>, k: T, s: seq<T>)
    ensures SumOfOccurrences(keys + [k], s) == SumOfOccurrences(keys, s) + Occurrences(s, k)
  {
    if keys != [] {
      assert (keys + [k])[1..] == keys[1..] + [k];
      SumOfOccurrencesAppend(keys[1..], k, s);
    }
  }

  lemma {:induction false} OccurrencesOfDistinct<T>(keys: seq<T>, x: T)
    requires NoDuplicates(keys)
    requires x in keys
    ensures Occurrences(keys, x) == 1
  {
    if keys[0] == x {
      assert x !in keys[1..] by {
        forall j | 0 <= j < |keys| - 1 ensures keys[1..][j] != x {
          assert keys[1..][j] == keys[j + 1];
        }
      }
    } else {
      OccurrencesOfDistinct(keys[1..], x);
    }
  }

  /** When the keys are distinct and cover every element, the occurrence
      counts of the keys add up to the length: frequencies sum to the total. */
  lemma {:induction false} OccurrencesSumToLength<T>(keys: seq<T>, s: seq<T>)
    requires NoDuplicates(keys)
    requires forall x :: x in s ==> x in keys
    ensures SumOfOccurrences(keys, s) == |s|
  {
    if s == [] {
      SumOfOccurrencesEmpty(keys);
    } else {
      assert s == [s[0]] + s[1..];
      SumOfOccurrencesCons(keys, s[0], s[1..]);
      OccurrencesOfDistinct(keys, s[0]);
      OccurrencesSumToLength(keys, s[1..]);
    }
  }

  /** The distinct elements of `s` in order of first appearance. */
  function Unique<T(==)>(s: seq<T>): (u: seq<T>)
    ensures NoDuplicates(u)
    ensures forall i :: 0 <= i < |s| ==> s[i] in u
    ensures forall i :: 0 <= i < |u| ==> u[i] in s
    ensures forall i, j :: 0 <= i < j < |u| ==> FirstIndex(s, u[i]) < FirstIndex(s, u[j])
  {
    if s == [] then []
    else
      var init, x := s[..|s| - 1], s[|s| - 1];
      var u := Unique(init);
      assert s == init + [x];
      assert forall i :: 0 <= i < |s| - 1 ==> s[i] == init[i];
      var r := if x in u then u else u + [x];
      OrderAfterAppend(init, x, u, r);
      r
  }

  /** One step of `Unique`: ordering by first appearance survives appending `x`. */
  lemma OrderAfterAppend<T>(init: seq<T>, x: T, u: seq<T>, r: seq<T>)
    requires forall i :: 0 <= i < |u| ==> u[i] in init
    requires forall i, j :: 0 <= i < j < |u| ==> FirstIndex(init, u[i]) < FirstIndex(init, u[j])
    requires r == if x in u then u else u + [x]
    requires x in init ==> x in u
    ensures forall i :: 0 <= i < |r| ==> r[i] in init + [x]
    ensures forall i, j :: 0 <= i < j < |r| ==> FirstIndex(init + [x], r[i]) < FirstIndex(init + [x], r[j])
  {
    FirstIndicesKept(init, x, u);
    if x !in u {
      FirstIndexOfNew(init, x);
      assert r[|u|] == x;
      forall i, j | 0 <= i < j < |r|
        ensures FirstIndex(init + [x], r[i]) < FirstIndex(init + [x], r[j])
      {
        assert r[i] == u[i];
        if j < |u| {
          assert r[j] == u[j];
        }
      }
    }
  }

  /** The position at which `x` first appears in `s`. */
  function FirstIndex<T(==)>(s: seq<T>, x: T): (k: nat)
    requires x in s
    ensures k < |s| && s[k] == x
  {
    if s[0] == x then 0 else 1 + FirstIndex(s[1..], x)
  }

  /** Appending an element leaves the first position of every earlier value alone. */
  lemma {:induction false} FirstIndexAppend<T>(s: seq<T>, x: T, y: T)
    requires y in s
    ensures y in s + [x] && FirstIndex(s + [x], y) == FirstIndex(s, y)
  {
    if s[0] != y {
      assert (s + [x])[1..] == s[1..] + [x];
      FirstIndexAppend(s[1..], x, y);
    }
  }

  lemma FirstIndicesKept<T>(init: seq<T>, x: T, u: seq<T>)
    requires forall i :: 0 <= i < |u| ==> u[i] in init
    ensures forall i :: 0 <= i < |u| ==>
      u[i] in init + [x] && FirstIndex(init + [x], u[i]) == FirstIndex(init, u[i])
  {
    forall i | 0 <= i < |u|
      ensures u[i] in init + [x] && FirstIndex(init + [x], u[i]) == FirstIndex(init, u[i])
    {
      FirstIndexAppend(init, x, u[i]);
    }
  }

  /** A value new to `init` first appears at the appended position. */
  lemma {:induction false} FirstIndexOfNew<T>(init: seq<T>, x: T)
    requires x !in init
    ensures x in init + [x] && FirstIndex(init + [x], x) == |init|
  {
    if init != [] {
      assert (init + [x])[1..] == init[1..] + [x];
      FirstIndexOfNew(init[1..], x);
    }
  }

  /** The elements of `s` satisfying `p`, in order (a boolean-mask selection). */
  function Filter(s: seq<int>, p: int -> bool): (r: seq<int>)
    ensures |r| == CountWhere(s, p)
    ensures forall k :: 0 <= k < |r| ==> p(r[k]) && r[k] in s
  {
    if s == [] then []
    else
      var t := Filter(s[1..], p);
      assert forall k :: 0 <= k < |t| ==> t[k] in s by {
        assert forall y :: y in s[1..] ==> y in s;
      }
      if p(s[0]) then [s[0]] + t else t
  }

  lemma {:induction false} CountWhereNone(s: seq<int>, p: int -> bool)
    requires forall k :: 0 <= k < |s| ==> !p(s[k])
    ensures CountWhere(s, p) == 0
  {
    if s != [] {
      assert forall k :: 0 <= k < |s| - 1 ==> s[1..][k] == s[k + 1];
      CountWhereNone(s[1..], p);
    }
  }
}
