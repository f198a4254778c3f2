/** The smoothed index: a centred rolling mean of the raw index with a
    window of at least two months, each position averaging whatever part
    of its window lies inside the series (`min_periods=1`). */
module Smoothing {
  import opened Dates
  import opened MonthlyIndex

  /** `max(2, int(smooth_window))`. */
  function SmoothWindow(w: int): (r: int)
    ensures r >= 2 && r >= w
    ensures w >= 2 ==> r == w
    ensures w < 2 ==> r == 2
  {
    if w < 2 then 2 else w
  }

  /** End (exclusive) of the centred window of width `w` around position
      `i` of a series of length `n`: the trailing window ending at
      `i + (w - 1) / 2`, clipped to the series. */
  function WindowEnd(n: int, w: int, i: int): int {
    var e := i + 1 + (w - 1) / 2;
    if e > n then n else e
  }

  /** Start of the same window, clipped at the first position. */
  function WindowStart(n: int, w: int, i: int): int {
    var s := i + 1 + (w - 1) / 2 - w;
    if s < 0 then 0 else s
  }

  function Sum(xs: seq<real>): real {
    if xs == [] then 0.0 else Sum(xs[..|xs| - 1]) + xs[|xs| - 1]
  }

  function Mean(xs: seq<real>): real
    requires |xs| > 0
  {
    Sum(xs) / |xs| as real
  }

  /** `rolling(window=w, center=True, min_periods=1).mean()`. */
  function RollingMean(raw: seq<real>, w: int): (r: seq<real>)
    requires w >= 1
    ensures |r| == |raw|
  {
    seq(|raw|, i requires 0 <= i < |raw| => Mean(raw[WindowStart(|raw|, w, i)..WindowEnd(|raw|, w, i)]))
  }

  /** Every window holds its own position and at most `w` values, and a
      window that fits inside the series holds exactly `w`. */
  lemma WindowAround(n: int, w: int, i: int)
    requires w >= 1 && 0 <= i < n
    ensures 0 <= WindowStart(n, w, i) <= i < WindowEnd(n, w, i) <= n
    ensures WindowEnd(n, w, i) - WindowStart(n, w, i) <= w
    ensures i + 1 + (w - 1) / 2 - w >= 0 && i + 1 + (w - 1) / 2 <= n ==>
      WindowEnd(n, w, i) - WindowStart(n, w, i) == w
  {
  }

  lemma {:induction false} SumBounds(xs: seq<real>, lo: real, hi: real)
    requires forall k :: 0 <= k < |xs| ==> lo <= xs[k] <= hi
    ensures |xs| as real * lo <= Sum(xs) <= |xs| as real * hi
  {
    if xs != [] {
      var n := |xs|;
      SumBounds(xs[..n - 1], lo, hi);
      assert n as real * lo == (n - 1) as real * lo + lo;
      assert n as real * hi == (n - 1) as real * hi + hi;
    }
  }

  lemma QuotientBounds(s: real, n: real, lo: real, hi: real)
    requires n > 0.0 && n * lo <= s <= n * hi
    ensures lo <= s / n <= hi
  {
    assert s / n * n == s;
  }

  /** The mean lies within any bounds of its values. */
  lemma MeanBounds(xs: seq<real>, lo: real, hi: real)
    requires |xs| > 0
    requires forall k :: 0 <= k < |xs| ==> lo <= xs[k] <= hi
    ensures lo <= Mean(xs) <= hi
  {
    SumBounds(xs, lo, hi);
    QuotientBounds(Sum(xs), |xs| as real, lo, hi);
  }

  /** A smoothed value lies within any bounds of the raw values in its
      window: smoothing never leaves the range of the raw index. */
  lemma SmoothedWithinWindow(raw: seq<real>, w: int, i: int, lo: real, hi: real)
    requires w >= 1 && 0 <= i < |raw|
    requires forall k :: WindowStart(|raw|, w, i) <= k < WindowEnd(|raw|, w, i) ==> lo <= raw[k] <= hi
    ensures lo <= RollingMean(raw, w)[i] <= hi
  {
    var a, b := WindowStart(|raw|, w, i), WindowEnd(|raw|, w, i);
    WindowAround(|raw|, w, i);
    var win := raw[a..b];
    forall k | 0 <= k < |win| ensures lo <= win[k] <= hi {
      assert win[k] == raw[a + k];
    }
    MeanBounds(win, lo, hi);
  }

  /** A positive raw index has a positive smoothed index. */
  lemma SmoothedPositive(raw: seq<real>, w: int, i: int)
    requires w >= 1 && 0 <= i < |raw|
    requires forall k :: 0 <= k < |raw| ==> raw[k] > 0.0
    ensures RollingMean(raw, w)[i] > 0.0
  {
    var a, b := WindowStart(|raw|, w, i), WindowEnd(|raw|, w, i);
    WindowAround(|raw|, w, i);
    var least := Least(raw[a..b]);
    forall k | a <= k < b ensures least <= raw[k] {
      assert raw[k] == raw[a..b][k - a];
    }
    var bound :| a <= bound < b && least == raw[bound];
    assert least > 0.0;
    LowerBoundOnly(raw, w, i, least);
  }

  lemma LowerBoundOnly(raw: seq<real>, w: int, i: int, lo: real)
    requires w >= 1 && 0 <= i < |raw|
    requires forall k :: WindowStart(|raw|, w, i) <= k < WindowEnd(|raw|, w, i) ==> lo <= raw[k]
    ensures lo <= RollingMean(raw, w)[i]
  {
    var a, b := WindowStart(|raw|, w, i), WindowEnd(|raw|, w, i);
    WindowAround(|raw|, w, i);
    var hi := Greatest(raw[a..b]);
    forall k | a <= k < b ensures lo <= raw[k] <= hi {
      assert raw[k] == raw[a..b][k - a];
    }
    SmoothedWithinWindow(raw, w, i, lo, hi);
  }

  /** The smallest value of a non-empty sequence. */
  function Least(xs: seq<real>): (r: real)
    requires |xs| > 0
    ensures forall k :: 0 <= k < |xs| ==> r <= xs[k]
    ensures exists k :: 0 <= k < |xs| && r == xs[k]
  {
    if |xs| == 1 then xs[0]
    else
      var rest := Least(xs[1..]);
      assert forall k :: 1 <= k < |xs| ==> xs[k] == xs[1..][k - 1];
      if xs[0] <= rest then xs[0] else rest
  }

  /** The largest value of a non-empty sequence. */
  function Greatest(xs: seq<real>): (r: real)
    requires |xs| > 0
    ensures forall k :: 0 <= k < |xs| ==> xs[k] <= r
    ensures exists k :: 0 <= k < |xs| && r == xs[k]
  {
    if |xs| == 1 then xs[0]
    else
      var rest := Greatest(xs[1..]);
      assert forall k :: 1 <= k < |xs| ==> xs[k] == xs[1..][k - 1];
      if xs[0] >= rest then xs[0] else rest
  }

  /** A flat raw index is left unchanged by smoothing. */
  lemma SmoothingKeepsConstant(raw: seq<real>, w: int, c: real)
    requires w >= 1
    requires forall k :: 0 <= k < |raw| ==> raw[k] == c
    ensures RollingMean(raw, w) == raw
  {
    var r := RollingMean(raw, w);
    forall i | 0 <= i < |raw| ensures r[i] == raw[i] {
      SmoothedWithinWindow(raw, w, i, c, c);
    }
  }

  /** One row of the index table: the monthly row plus its smoothed value. */
  datatype IndexRow = IndexRow(month: Date, salesCount: nat, medianPrice: real, thinMonth: bool,
                               indexRaw: real, indexSmoothed: real)

  function RawColumn(rows: seq<MonthRow>): (r: seq<real>)
    ensures |r| == |rows| && forall i :: 0 <= i < |rows| ==> r[i] == rows[i].indexRaw
  {
    seq(|rows|, i requires 0 <= i < |rows| => rows[i].indexRaw)
  }

  /** `add_smoothed_and_regression` (smoothing only): the monthly rows with
      the rolling mean of their raw index attached. */
  function WithSmoothed(rows: seq<MonthRow>, smoothWindow: int): (r: seq<IndexRow>)
    ensures |r| == |rows|
  {
    var smoothed := RollingMean(RawColumn(rows), SmoothWindow(smoothWindow));
    seq(|rows|, i requires 0 <= i < |rows| =>
      IndexRow(rows[i].month, rows[i].salesCount, rows[i].medianPrice, rows[i].thinMonth,
               rows[i].indexRaw, smoothed[i]))
  }

  /** The index table `build_index_cached` returns. */
  function IndexTable(sales: seq<Sale>, minSales: int, smoothWindow: int): seq<IndexRow> {
    WithSmoothed(MonthlyTable(sales, minSales), smoothWindow)
  }

  /** `build_index_cached`: the monthly index, then the smoothed column. */
  method BuildIndex(sales: seq<Sale>, minSales: int, smoothWindow: int) returns (index: seq<IndexRow>)
    ensures index == IndexTable(sales, minSales, smoothWindow)
    ensures |index| > 0 ==> index[0].indexRaw == 1.0
    ensures forall i :: 0 <= i < |index| ==>
      index[i].indexSmoothed == RollingMean(RawColumn(MonthlyTable(sales, minSales)), SmoothWindow(smoothWindow))[i]
  {
    var monthly := BuildMonthlyIndex(sales, minSales);
    index := WithSmoothed(monthly, smoothWindow);
  }

  /** With positive prices, the smoothed index of every month is positive. */
  lemma IndexTablePositive(sales: seq<Sale>, minSales: int, smoothWindow: int, i: int)
    requires forall k :: 0 <= k < |sales| ==> sales[k].soldPrice > 0.0
    requires 0 <= i < |IndexTable(sales, minSales, smoothWindow)|
    ensures IndexTable(sales, minSales, smoothWindow)[i].indexRaw > 0.0
    ensures IndexTable(sales, minSales, smoothWindow)[i].indexSmoothed > 0.0
  {
    var rows := MonthlyTable(sales, minSales);
    var raw := RawColumn(rows);
    forall k | 0 <= k < |raw| ensures raw[k] > 0.0 {
      MonthlyIndexOfPositivePrices(sales, minSales, k);
    }
    SmoothedPositive(raw, SmoothWindow(smoothWindow), i);
  }
}
