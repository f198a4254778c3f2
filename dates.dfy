/** Calendar dates as Python's `datetime.date` represents them, with the
    day arithmetic the engine needs: the first day of a month and the
    whole-day distance between two dates. */
module Dates {

  datatype CalendarDate = CalendarDate(year: int, month: int, day: int)

  predicate IsLeapYear(y: int) {
    y % 4 == 0 && (y % 100 != 0 || y % 400 == 0)
  }

  function DaysInMonth(y: int, m: int): (n: int)
    requires 1 <= m <= 12
    ensures 28 <= n <= 31
  {
    if m == 2 then (if IsLeapYear(y) then 29 else 28)
    else if m == 4 || m == 6 || m == 9 || m == 11 then 30
    else 31
  }

  /** A date Python can represent: years 1 to 9999, a real month and day. */
  predicate IsValid(d: CalendarDate) {
    1 <= d.year <= 9999 && 1 <= d.month <= 12 && 1 <= d.day <= DaysInMonth(d.year, d.month)
  }

  type Date = d: CalendarDate | IsValid(d) witness CalendarDate(1970, 1, 1)

  /** Chronological order; Python compares dates field by field. */
  predicate Before(a: Date, b: Date) {
    a.year < b.year || (a.year == b.year && (a.month < b.month || (a.month == b.month && a.day < b.day)))
  }

  predicate AtOrBefore(a: Date, b: Date) {
    Before(a, b) || a == b
  }

  /** `month_start`: the first day of the date's month. */
  function MonthStart(d: Date): (r: Date)
    ensures r.day == 1 && r.year == d.year && r.month == d.month
    ensures AtOrBefore(r, d)
  {
    CalendarDate(d.year, d.month, 1)
  }

  predicate IsMonthStart(d: Date) {
    d.day == 1
  }

  /** Days in the months of year `y` before month `m` (Python's `_days_before_month`). */
  function DaysBeforeMonth(y: int, m: int): (n: int)
    requires 1 <= m <= 12
    ensures 0 <= n <= 335
  {
    var common :=
      if m == 1 then 0 else if m == 2 then 31 else if m == 3 then 59
      else if m == 4 then 90 else if m == 5 then 120 else if m == 6 then 151
      else if m == 7 then 181 else if m == 8 then 212 else if m == 9 then 243
      else if m == 10 then 273 else if m == 11 then 304 else 334;
    if m > 2 && IsLeapYear(y) then common + 1 else common
  }

  /** Days in the years before `y` (Python's `_days_before_year`). */
  function DaysBeforeYear(y: int): int
    requires y >= 1
  {
    var p := y - 1;
    p * 365 + p / 4 - p / 100 + p / 400
  }

  /** `date.toordinal()`: 1 January of year 1 is day 1. */
  function Ordinal(d: Date): int {
    DaysBeforeYear(d.year) + DaysBeforeMonth(d.year, d.month) + d.day
  }

  /** `days_between`: the absolute difference, in whole days, of two dates. */
  function DaysBetween(d1: Date, d2: Date): nat {
    var diff := Ordinal(d1) - Ordinal(d2);
    if diff < 0 then -diff else diff
  }

  lemma DaysBetweenSymmetric(d1: Date, d2: Date)
    ensures DaysBetween(d1, d2) == DaysBetween(d2, d1)
  {
  }

  /** A date lies `day - 1` days after the start of its month. */
  lemma DaysIntoMonth(d: Date)
    ensures DaysBetween(d, MonthStart(d)) == d.day - 1
  {
  }

  /** Crossing a multiple of 4, 100 or 400 raises the quotient by one; otherwise it stays. */
  lemma QuotientSteps(y: int)
    requires y >= 1
    ensures y / 4 - (y - 1) / 4 == if y % 4 == 0 then 1 else 0
    ensures y / 100 - (y - 1) / 100 == if y % 100 == 0 then 1 else 0
    ensures y / 400 - (y - 1) / 400 == if y % 400 == 0 then 1 else 0
  {
  }

  lemma DaysInYear(y: int)
    requires y >= 1
    ensures DaysBeforeYear(y + 1) - DaysBeforeYear(y) == if IsLeapYear(y) then 366 else 365
  {
    QuotientSteps(y);
    DivisorsOfCentury(y);
  }

  /** A multiple of 400 is a multiple of 100, and a multiple of 100 is a multiple of 4. */
  lemma DivisorsOfCentury(y: int)
    ensures y % 400 == 0 ==> y % 100 == 0
    ensures y % 100 == 0 ==> y % 4 == 0
  {
    if y % 400 == 0 {
      var k := 4 * (y / 400);
      assert y == 100 * k;
      MultipleOfHundred(k);
    }
    if y % 100 == 0 {
      var k := 25 * (y / 100);
      assert y == 4 * k;
      MultipleOfFour(k);
    }
  }

  lemma MultipleOfHundred(k: int)
    ensures (100 * k) % 100 == 0
  {
  }

  lemma MultipleOfFour(k: int)
    ensures (4 * k) % 4 == 0
  {
  }

  /** No day of a month has an ordinal past the day before the next month's first day. */
  lemma {:induction false} OrdinalBeforeNextMonth(d: Date)
    ensures d.month < 12 ==> Ordinal(d) < DaysBeforeYear(d.year) + DaysBeforeMonth(d.year, d.month + 1) + 1
    ensures Ordinal(d) < DaysBeforeYear(d.year + 1) + 1
  {
    DaysInYear(d.year);
  }

  /** The ordinal follows the calendar: a strictly earlier date has a strictly smaller ordinal. */
  lemma {:induction false} OrdinalMonotone(a: Date, b: Date)
    requires Before(a, b)
    ensures Ordinal(a) < Ordinal(b)
  {
    OrdinalBeforeNextMonth(a);
    if a.year < b.year {
      DaysBeforeYearMonotone(a.year + 1, b.year);
    } else if a.month < b.month {
      assert DaysBeforeMonth(a.year, a.month + 1) <= DaysBeforeMonth(b.year, b.month);
    }
  }

  lemma {:induction false} DaysBeforeYearMonotone(y1: int, y2: int)
    requires 1 <= y1 <= y2
    ensures DaysBeforeYear(y1) <= DaysBeforeYear(y2)
    decreases y2 - y1
  {
    if y1 < y2 {
      DaysInYear(y1);
      DaysBeforeYearMonotone(y1 + 1, y2);
    }
  }

  /** Two dates are zero days apart exactly when they are the same date. */
  lemma DaysBetweenZeroIff(d1: Date, d2: Date)
    ensures DaysBetween(d1, d2) == 0 <==> d1 == d2
  {
    if Before(d1, d2) {
      OrdinalMonotone(d1, d2);
    } else if Before(d2, d1) {
      OrdinalMonotone(d2, d1);
    }
  }
}
