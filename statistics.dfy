/** The descriptive statistics computed by pandas over a column of message
    counts, in exact rational arithmetic: the sum and mean, the linear
    interpolation quantile (numpy's default method, used by `Series.quantile`
    and `Series.median`), and Python's `int()` of a real value. */
module Statistics {
  import opened Order

  function Sum(s: seq<int>): int {
    if s == [] then 0 else s[0] + Sum(s[1..])
  }

  /** `Series.mean()` of a non-empty column. */
  function Mean(s: seq<int>): real
    requires s != []
  {
    Sum(s) as real / |s| as real
  }

  lemma {:induction false} SumBetween(s: seq<int>, lo: int, hi: int)
    requires forall k :: 0 <= k < |s| ==> lo <= s[k] <= hi
    ensures |s| * lo <= Sum(s) <= |s| * hi
  {
    if s != [] {
      var n := |s| - 1;
      assert forall k :: 0 <= k < n ==> s[1..][k] == s[k + 1];
      SumBetween(s[1..], lo, hi);
      assert |s| * lo == n * lo + lo;
      assert |s| * hi == n * hi + hi;
    }
  }

  /** A real lying between `n * lo` and `n * hi` yields, divided by `n`, a
      value between `lo` and `hi`. */
  lemma DivideBetween(total: int, n: int, lo: int, hi: int)
    requires n > 0
    requires n * lo <= total <= n * hi
    ensures lo as real <= total as real / n as real <= hi as real
  {
    var q := total as real / n as real;
    assert q * n as real == total as real;
    assert (q - lo as real) * n as real == total as real - (n * lo) as real;
    assert (hi as real - q) * n as real == (n * hi) as real - total as real;
  }

  /** The mean lies between the minimum and the maximum. */
  lemma MeanBetweenMinAndMax(s: seq<int>)
    requires s != []
    ensures MinOf(s) as real <= Mean(s) <= MaxOf(s) as real
  {
    SumBetween(s, MinOf(s), MaxOf(s));
    DivideBetween(Sum(s), |s|, MinOf(s), MaxOf(s));
  }

  /** `lo + frac * (hi - lo)`: numpy's linear interpolation between two
      neighbouring order statistics. */
  function Lerp(lo: int, hi: int, frac: real): real {
    lo as real + frac * (hi - lo) as real
  }

  lemma LerpBetween(lo: int, hi: int, frac: real)
    requires lo <= hi && 0.0 <= frac <= 1.0
    ensures lo as real <= Lerp(lo, hi, frac) <= hi as real
  {
    var d := (hi - lo) as real;
    assert 0.0 <= frac * d <= d;
  }

  lemma LerpMonotone(lo: int, hi: int, f1: real, f2: real)
    requires lo <= hi && f1 <= f2
    ensures Lerp(lo, hi, f1) <= Lerp(lo, hi, f2)
  {
    var d := (hi - lo) as real;
    assert f2 * d - f1 * d == (f2 - f1) * d;
  }

  /** One hundred times numpy's virtual index `(n - 1) * p / 100`, so that the
      index and its fractional part come out of integer division. */
  function VirtualPosition(n: nat, p: nat): (pos: nat)
    requires n > 0 && p <= 100
    ensures pos / 100 < n
    ensures pos / 100 == n - 1 ==> pos % 100 == 0
  {
    var pos := (n - 1) * p;
    MulMonotone(n - 1, p, 100);
    WholeAndFractionMonotone(pos, (n - 1) * 100);
    pos
  }

  /** `Series.quantile(p / 100)` with the default linear interpolation, on the
      ascending sort `sorted` of a non-empty column. */
  function Quantile(sorted: seq<int>, p: nat): real
    requires sorted != [] && p <= 100
  {
    var pos := VirtualPosition(|sorted|, p);
    var lo := pos / 100;
    var hi := if lo + 1 < |sorted| then lo + 1 else lo;
    Lerp(sorted[lo], sorted[hi], (pos % 100) as real / 100.0)
  }

  /** `Series.median()`: the linear quantile at one half. */
  function Median(s: seq<int>): real
    requires s != []
  {
    Quantile(Sort(s), 50)
  }

  /** Python's `int()` of a real value: truncation toward zero. */
  function Truncate(v: real): int {
    if v >= 0.0 then v.Floor else -((-v).Floor)
  }

  lemma TruncateMonotone(a: real, b: real)
    requires a <= b
    ensures Truncate(a) <= Truncate(b)
  {
  }

  lemma TruncateBetween(v: real, lo: int, hi: int)
    requires lo as real <= v <= hi as real
    ensures lo <= Truncate(v) <= hi
  {
  }

  /** The quantile of a sorted column lies between its first and last value. */
  lemma QuantileBetweenEnds(sorted: seq<int>, p: nat)
    requires sorted != [] && p <= 100 && Sorted(sorted)
    ensures sorted[0] as real <= Quantile(sorted, p) <= sorted[|sorted| - 1] as real
  {
    var pos := VirtualPosition(|sorted|, p);
    var lo := pos / 100;
    var hi := if lo + 1 < |sorted| then lo + 1 else lo;
    LerpBetween(sorted[lo], sorted[hi], (pos % 100) as real / 100.0);
  }

  /** The virtual index grows with `p`: its whole part never decreases, and
      on the same whole part the fractional part never decreases. */
  lemma VirtualPositionMonotone(n: nat, p1: nat, p2: nat)
    requires n > 0 && p1 <= p2 <= 100
    ensures VirtualPosition(n, p1) / 100 <= VirtualPosition(n, p2) / 100
    ensures VirtualPosition(n, p1) / 100 == VirtualPosition(n, p2) / 100 ==>
      VirtualPosition(n, p1) % 100 <= VirtualPosition(n, p2) % 100
  {
    var pos1, pos2 := VirtualPosition(n, p1), VirtualPosition(n, p2);
    MulMonotone(n - 1, p1, p2);
    WholeAndFractionMonotone(pos1, pos2);
  }

  lemma {:induction false} MulMonotone(a: nat, b: nat, c: nat)
    requires b <= c
    ensures a * b <= a * c
  {
    if a > 0 {
      MulMonotone(a - 1, b, c);
      assert a * b == (a - 1) * b + b;
      assert a * c == (a - 1) * c + c;
    }
  }

  lemma WholeAndFractionMonotone(a: nat, b: nat)
    requires a <= b
    ensures a / 100 <= b / 100
    ensures a / 100 == b / 100 ==> a % 100 <= b % 100
  {
    var q1, r1 := a / 100, a % 100;
    var q2, r2 := b / 100, b % 100;
    assert a == 100 * q1 + r1 && 0 <= r1 < 100;
    assert b == 100 * q2 + r2 && 0 <= r2 < 100;
  }

  /** The quantile is non-decreasing in `p`. */
  lemma QuantileMonotone(sorted: seq<int>, p1: nat, p2: nat)
    requires sorted != [] && p1 <= p2 <= 100 && Sorted(sorted)
    ensures Quantile(sorted, p1) <= Quantile(sorted, p2)
  {
    var n := |sorted|;
    var pos1, pos2 := VirtualPosition(n, p1), VirtualPosition(n, p2);
    VirtualPositionMonotone(n, p1, p2);
    var lo1, lo2 := pos1 / 100, pos2 / 100;
    var hi1 := if lo1 + 1 < n then lo1 + 1 else lo1;
    var hi2 := if lo2 + 1 < n then lo2 + 1 else lo2;
    var f1, f2 := (pos1 % 100) as real / 100.0, (pos2 % 100) as real / 100.0;
    assert Quantile(sorted, p1) == Lerp(sorted[lo1], sorted[hi1], f1);
    assert Quantile(sorted, p2) == Lerp(sorted[lo2], sorted[hi2], f2);
    assert sorted[lo1] <= sorted[hi1] && sorted[lo2] <= sorted[hi2];
    if lo1 == lo2 {
      LerpMonotone(sorted[lo1], sorted[hi1], f1, f2);
    } else {
      LerpBetween(sorted[lo1], sorted[hi1], f1);
      LerpBetween(sorted[lo2], sorted[hi2], f2);
      assert sorted[hi1] <= sorted[lo2];
    }
  }

  /** The median lies between the minimum and the maximum. */
  lemma MedianBetweenMinAndMax(s: seq<int>)
    requires s != []
    ensures MinOf(s) as real <= Median(s) <= MaxOf(s) as real
  {
    SortEnds(s);
    QuantileBetweenEnds(Sort(s), 50);
  }
}
