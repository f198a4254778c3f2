/** `lookup_index`: the index value for a date's month, falling back to the
    latest earlier month when that month has no row. */
module Lookup {
  import opened Options
  import opened Dates
  import opened MonthlyIndex
  import opened Smoothing

  /** Which index column is read: `Index_Raw` or `Index_Smoothed`. */
  datatype IndexColumn = Raw | Smoothed

  /** How a lookup was resolved: `exact`, `prior`, `no_prior` or `no_index`. */
  datatype Resolution = Exact | Prior | NoPrior | NoIndex

  /** The value found (NaN when missing), the month it came from and the mode. */
  datatype Found = Found(value: Option<real>, usedMonth: Option<Date>, mode: Resolution)

  function ColumnValue(row: IndexRow, col: IndexColumn): real {
    match col
    case Raw => row.indexRaw
    case Smoothed => row.indexSmoothed
  }

  predicate HasMonth(index: seq<IndexRow>, m: Date) {
    exists i :: 0 <= i < |index| && index[i].month == m
  }

  /** The position of the first row for month `m`. */
  function FirstRowOf(index: seq<IndexRow>, m: Date): (i: nat)
    requires HasMonth(index, m)
    ensures i < |index| && index[i].month == m
    ensures forall j :: 0 <= j < i ==> index[j].month != m
  {
    if index[0].month == m then 0
    else
      assert HasMonth(index[1..], m) by {
        var k :| 0 <= k < |index| && index[k].month == m;
        assert index[1..][k - 1] == index[k];
      }
      FirstRowOf(index[1..], m) + 1
  }

  predicate HasPrior(index: seq<IndexRow>, m: Date) {
    exists i :: 0 <= i < |index| && AtOrBefore(index[i].month, m)
  }

  /** The last row of `index[..n]` after a stable sort by month, among those
      at or before `m`: a latest such month, the last one in order among equals. */
  function LatestPrior(index: seq<IndexRow>, m: Date, n: nat): (i: nat)
    requires n <= |index|
    requires exists k :: 0 <= k < n && AtOrBefore(index[k].month, m)
    ensures i < n && AtOrBefore(index[i].month, m)
    ensures forall j :: 0 <= j < n && AtOrBefore(index[j].month, m) ==> AtOrBefore(index[j].month, index[i].month)
    ensures forall j :: i < j < n && AtOrBefore(index[j].month, m) ==> index[j].month != index[i].month
  {
    var last := n - 1;
    if !AtOrBefore(index[last].month, m) then
      LatestPrior(index, m, last)
    else if !(exists k :: 0 <= k < last && AtOrBefore(index[k].month, m)) then
      last
    else
      var best := LatestPrior(index, m, last);
      if Before(index[last].month, index[best].month) then best else
        assert forall j :: 0 <= j < n && AtOrBefore(index[j].month, m) ==> AtOrBefore(index[j].month, index[last].month) by {
          forall j | 0 <= j < n && AtOrBefore(index[j].month, m) ensures AtOrBefore(index[j].month, index[last].month) {
            if j < last { OrderTransitive(index[j].month, index[best].month, index[last].month); }
          }
        }
        last
  }

  /** Chronological order is a total order. */
  lemma OrderTransitive(a: Date, b: Date, c: Date)
    requires AtOrBefore(a, b) && !Before(c, b)
    ensures AtOrBefore(a, c)
  {
  }

  /** `lookup_index(index_df, target_date, index_col)`. */
  function LookupIndex(index: seq<IndexRow>, target: Option<Date>, col: IndexColumn): (r: Found)
    ensures r.mode == NoIndex <==> index == [] || target.None?
    ensures r.value.Some? <==> r.mode == Exact || r.mode == Prior
    ensures r.usedMonth.Some? <==> r.value.Some?
  {
    if index == [] || target.None? then Found(None, None, NoIndex)
    else
      var m := MonthStart(target.value);
      if HasMonth(index, m) then
        var i := FirstRowOf(index, m);
        Found(Some(ColumnValue(index[i], col)), Some(m), Exact)
      else if !HasPrior(index, m) then
        Found(None, None, NoPrior)
      else
        var i := LatestPrior(index, m, |index|);
        Found(Some(ColumnValue(index[i], col)), Some(index[i].month), Prior)
  }

  /** `exact` exactly when the index has a row for the target's month; the
      value is the first such row's, and the month used is the target's month. */
  lemma LookupExact(index: seq<IndexRow>, target: Date, col: IndexColumn)
    requires index != []
    ensures var r := LookupIndex(index, Some(target), col);
      (r.mode == Exact <==> HasMonth(index, MonthStart(target))) &&
      (r.mode == Exact ==>
         r.usedMonth == Some(MonthStart(target)) &&
         exists i :: 0 <= i < |index| && index[i].month == MonthStart(target) &&
           r.value == Some(ColumnValue(index[i], col)) &&
           forall j :: 0 <= j < i ==> index[j].month != MonthStart(target))
  {
    var m := MonthStart(target);
    if HasMonth(index, m) {
      var i := FirstRowOf(index, m);
    }
  }

  /** `prior` exactly when the target's month has no row but an earlier month
      does; the row used is a latest month before the target's month. */
  lemma LookupPrior(index: seq<IndexRow>, target: Date, col: IndexColumn)
    requires index != []
    ensures var r := LookupIndex(index, Some(target), col); var m := MonthStart(target);
      (r.mode == Prior <==> !HasMonth(index, m) && HasPrior(index, m)) &&
      (r.mode == Prior ==>
         exists i :: 0 <= i < |index| && Before(index[i].month, m) &&
           r.usedMonth == Some(index[i].month) && r.value == Some(ColumnValue(index[i], col)) &&
           forall j :: 0 <= j < |index| && Before(index[j].month, m) ==> AtOrBefore(index[j].month, index[i].month))
  {
    var m := MonthStart(target);
    if !HasMonth(index, m) && HasPrior(index, m) {
      var i := LatestPrior(index, m, |index|);
      assert index[i].month != m;
    }
  }

  /** `no_prior` exactly when every row's month comes after the target's month. */
  lemma LookupNoPrior(index: seq<IndexRow>, target: Date, col: IndexColumn)
    requires index != []
    ensures LookupIndex(index, Some(target), col).mode == NoPrior <==>
      forall i :: 0 <= i < |index| ==> Before(MonthStart(target), index[i].month)
  {
    var m := MonthStart(target);
    if forall i :: 0 <= i < |index| ==> Before(m, index[i].month) {
      assert forall i :: 0 <= i < |index| ==> index[i].month != m;
    } else {
      var i :| 0 <= i < |index| && !Before(m, index[i].month);
      assert AtOrBefore(index[i].month, m);
    }
  }

  /** The month used is never after the target's month. */
  lemma LookupNeverLooksAhead(index: seq<IndexRow>, target: Date, col: IndexColumn)
    ensures var r := LookupIndex(index, Some(target), col);
      r.usedMonth.Some? ==> AtOrBefore(r.usedMonth.value, MonthStart(target))
  {
    if index != [] {
      LookupExact(index, target, col);
      LookupPrior(index, target, col);
    }
  }

  /** Looking up a month the table holds gives that month's row: exact, with
      the row's own value, when months are distinct. */
  lemma LookupOwnMonth(index: seq<IndexRow>, i: int, day: int, col: IndexColumn)
    requires 0 <= i < |index| && index[i].month.day == 1
    requires forall j, k :: 0 <= j < k < |index| ==> Before(index[j].month, index[k].month)
    requires 1 <= day <= DaysInMonth(index[i].month.year, index[i].month.month)
    ensures var t := CalendarDate(index[i].month.year, index[i].month.month, day);
      LookupIndex(index, Some(t), col) == Found(Some(ColumnValue(index[i], col)), Some(index[i].month), Exact)
  {
    var t: Date := CalendarDate(index[i].month.year, index[i].month.month, day);
    assert MonthStart(t) == index[i].month;
    assert forall j :: 0 <= j < i ==> index[j].month != index[i].month by {
      forall j | 0 <= j < i ensures index[j].month != index[i].month {
        assert Before(index[j].month, index[i].month);
      }
    }
  }

  /** Every sale's own contract date resolves exactly in the index built
      from those sales, to the row of its month. */
  lemma SaleDatesResolveExactly(sales: seq<Sale>, minSales: int, smoothWindow: int, k: int, col: IndexColumn)
    requires 0 <= k < |sales|
    ensures var r := LookupIndex(IndexTable(sales, minSales, smoothWindow), Some(sales[k].contractDate), col);
      r.mode == Exact && r.usedMonth == Some(MonthStart(sales[k].contractDate))
  {
    var index := IndexTable(sales, minSales, smoothWindow);
    var m := MonthStart(sales[k].contractDate);
    MonthlyTableCoversSales(sales, minSales, k);
    var i :| 0 <= i < |MonthlyTable(sales, minSales)| && MonthlyTable(sales, minSales)[i].month == m;
    assert index[i].month == m;
    LookupExact(index, sales[k].contractDate, col);
  }
}
