/** The order statistics pandas computes over a column of prices:
    the median (`Series.median`) and the linearly interpolated quantile
    (`Series.quantile`, default method), over exact reals. */
module Stats {

  predicate Sorted(s: seq<real>) {
    forall i, j :: 0 <= i < j < |s| ==> s[i] <= s[j]
  }

  /** Inserts `x` into a sorted sequence, before the first larger element. */
  function Insert(x: real, s: seq<real>): (r: seq<real>)
    requires Sorted(s)
    ensures Sorted(r)
    ensures multiset(r) == multiset(s) + multiset{x}
    ensures |r| == |s| + 1
  {
    if s == [] then [x]
    else if x <= s[0] then [x] + s
    else
      var rest := Insert(x, s[1..]);
      assert s == [s[0]] + s[1..];
      LowerBound(s[0], rest, s[1..], x);
      [s[0]] + rest
  }

  /** A value below everything in `s` and below `x` is below everything in any rearrangement of `s` plus `x`. */
  lemma LowerBound(b: real, r: seq<real>, s: seq<real>, x: real)
    requires multiset(r) == multiset(s) + multiset{x}
    requires b <= x && forall j :: 0 <= j < |s| ==> b <= s[j]
    ensures forall j :: 0 <= j < |r| ==> b <= r[j]
  {
    forall j | 0 <= j < |r| ensures b <= r[j] {
      assert r[j] in multiset(r);
      if r[j] != x {
        assert r[j] in multiset(s);
      }
    }
  }

  /** The values of `xs` in ascending order. */
  function Sort(xs: seq<real>): (r: seq<real>)
    ensures Sorted(r)
    ensures multiset(r) == multiset(xs)
    ensures |r| == |xs|
  {
    if xs == [] then []
    else
      assert xs == [xs[0]] + xs[1..];
      Insert(xs[0], Sort(xs[1..]))
  }

  /** `Series.median`: the middle value, or the mean of the two middle values for an even count. */
  function Median(xs: seq<real>): real
    requires |xs| > 0
  {
    var s := Sort(xs);
    var n := |s|;
    if n % 2 == 1 then s[n / 2] else (s[n / 2 - 1] + s[n / 2]) / 2.0
  }

  /** `Series.quantile(quarter / 4)` with linear interpolation between the
      order statistics around position `(n - 1) * quarter / 4`; the engine
      asks only for the first and third quartiles. */
  function Quantile(xs: seq<real>, quarter: nat): real
    requires |xs| > 0 && quarter <= 4
  {
    QuantileOfSorted(Sort(xs), quarter)
  }

  function QuantileOfSorted(s: seq<real>, quarter: nat): real
    requires |s| > 0 && quarter <= 4
  {
    Interpolate(s, Below(|s|, quarter), Fraction(|s|, quarter))
  }

  /** The value a fraction `frac` of the way from order statistic `lo` to the next one. */
  function Interpolate(s: seq<real>, lo: nat, frac: real): real
    requires lo < |s|
  {
    if lo + 1 < |s| then Lerp(s[lo], s[lo + 1], frac) else s[lo]
  }

  /** The point a fraction `t` of the way from `a` to `b`. */
  function Lerp(a: real, b: real, t: real): real {
    a + (b - a) * t
  }

  /** Four times the interpolation position, `(n - 1) * quarter`, written
      out per quarter so that it stays linear. */
  function QuarterPosition(n: nat, quarter: nat): (p: nat)
    requires n > 0 && quarter <= 4
    ensures p <= 4 * (n - 1)
  {
    var m := n - 1;
    if quarter == 0 then 0 else if quarter == 1 then m else if quarter == 2 then 2 * m
    else if quarter == 3 then 3 * m else 4 * m
  }

  /** The order statistic at or just below the interpolation position (its floor). */
  function Below(n: nat, quarter: nat): (lo: nat)
    requires n > 0 && quarter <= 4
    ensures lo < n
  {
    QuarterPosition(n, quarter) / 4
  }

  /** How far past `Below` the interpolation position lies, in [0, 1). */
  function Fraction(n: nat, quarter: nat): (f: real)
    requires n > 0 && quarter <= 4
    ensures 0.0 <= f < 1.0
  {
    (QuarterPosition(n, quarter) % 4) as real / 4.0
  }

  lemma BelowMonotone(n: nat, q1: nat, q2: nat)
    requires n > 0 && q1 <= q2 <= 4
    ensures Below(n, q1) <= Below(n, q2)
    ensures Below(n, q1) == Below(n, q2) ==> Fraction(n, q1) <= Fraction(n, q2)
  {
    assert QuarterPosition(n, q1) <= QuarterPosition(n, q2);
  }

  /** The interpolated quantile never leaves the interval spanned by its two order statistics. */
  lemma QuantileBetween(s: seq<real>, quarter: nat)
    requires |s| > 0 && quarter <= 4 && Sorted(s)
    ensures var lo := Below(|s|, quarter);
      s[lo] <= QuantileOfSorted(s, quarter) && (lo + 1 < |s| ==> QuantileOfSorted(s, quarter) <= s[lo + 1])
  {
    var lo := Below(|s|, quarter);
    if lo + 1 < |s| {
      LerpBetween(s[lo], s[lo + 1], Fraction(|s|, quarter));
    }
  }

  /** Quantiles of a sorted column are bounded by its extremes and ordered like their levels. */
  lemma {:induction false} QuantileMonotone(s: seq<real>, q1: nat, q2: nat)
    requires |s| > 0 && q1 <= q2 <= 4 && Sorted(s)
    ensures s[0] <= QuantileOfSorted(s, q1) <= QuantileOfSorted(s, q2) <= s[|s| - 1]
  {
    var n := |s|;
    var lo1, lo2 := Below(n, q1), Below(n, q2);
    BelowMonotone(n, q1, q2);
    QuantileBetween(s, q1);
    QuantileBetween(s, q2);
    if lo1 == lo2 && lo1 + 1 < n {
      LerpMonotone(s[lo1], s[lo1 + 1], Fraction(n, q1), Fraction(n, q2));
    } else if lo1 < lo2 {
      assert s[lo1 + 1] <= s[lo2];
    }
  }

  lemma LerpBetween(a: real, b: real, t: real)
    requires a <= b && 0.0 <= t <= 1.0
    ensures a <= Lerp(a, b, t) <= b
  {
    MulNonNegative(b - a, t);
    MulNonNegative(b - a, 1.0 - t);
    assert Lerp(a, b, t) == a + (b - a) * t;
    assert b - Lerp(a, b, t) == (b - a) * (1.0 - t);
  }

  lemma MulNonNegative(x: real, y: real)
    requires x >= 0.0 && y >= 0.0
    ensures x * y >= 0.0
  {
  }

  lemma LerpMonotone(a: real, b: real, t1: real, t2: real)
    requires a <= b && t1 <= t2
    ensures Lerp(a, b, t1) <= Lerp(a, b, t2)
  {
    MulNonNegative(b - a, t2 - t1);
    assert Lerp(a, b, t2) - Lerp(a, b, t1) == (b - a) * (t2 - t1);
  }

  /** The median is one of the values, or lies between two of them. */
  lemma MedianBetween(xs: seq<real>)
    requires |xs| > 0
    ensures exists i, j :: 0 <= i < |xs| && 0 <= j < |xs| && xs[i] <= Median(xs) <= xs[j]
  {
    var s := Sort(xs);
    var n := |s|;
    var a, b := if n % 2 == 1 then n / 2 else n / 2 - 1, n / 2;
    assert s[a] <= Median(xs) <= s[b];
    assert s[a] in multiset(xs) && s[b] in multiset(xs);
    var i :| 0 <= i < |xs| && xs[i] == s[a];
    var j :| 0 <= j < |xs| && xs[j] == s[b];
  }

  /** A column of positive prices has a positive median. */
  lemma MedianPositive(xs: seq<real>)
    requires |xs| > 0
    requires forall i :: 0 <= i < |xs| ==> xs[i] > 0.0
    ensures Median(xs) > 0.0
  {
    MedianBetween(xs);
  }
}
