/** The monthly chain-linked price index: sales are grouped by the first day
    of their contract month, each month gets a sales count, a median price
    and a thin-month flag, and the index starts at 1.00 and moves with the
    month-over-month ratio of medians. */
module MonthlyIndex {
  import opened Dates
  import opened Stats

  /** One sale that survived ingestion: a contract date and a price. */
  datatype Sale = Sale(contractDate: Date, soldPrice: real)

  /** The prices of one month, in the order the sales were given. */
  datatype Group = Group(month: Date, prices: seq<real>)

  /** One row of the monthly table before smoothing. */
  datatype MonthRow = MonthRow(month: Date, salesCount: nat, medianPrice: real, thinMonth: bool, indexRaw: real)

  /** The prices of the sales whose contract month starts on `m`, in input order. */
  function PricesIn(sales: seq<Sale>, m: Date): seq<real> {
    if sales == [] then []
    else
      var last := sales[|sales| - 1];
      PricesIn(sales[..|sales| - 1], m) + (if MonthStart(last.contractDate) == m then [last.soldPrice] else [])
  }

  predicate Ascending(groups: seq<Group>) {
    forall i, j :: 0 <= i < j < |groups| ==> Before(groups[i].month, groups[j].month)
  }

  /** Every group is keyed by a first-of-month date and holds at least one sale. */
  predicate WellFormed(groups: seq<Group>) {
    forall i :: 0 <= i < |groups| ==> IsMonthStart(groups[i].month) && |groups[i].prices| >= 1
  }

  /** The prices held for month `m`, or none. */
  function PricesOf(groups: seq<Group>, m: Date): seq<real> {
    if groups == [] then []
    else if groups[0].month == m then groups[0].prices
    else PricesOf(groups[1..], m)
  }

  lemma {:induction false} PricesOfAbsent(groups: seq<Group>, m: Date)
    requires forall i :: 0 <= i < |groups| ==> groups[i].month != m
    ensures PricesOf(groups, m) == []
  {
    if groups != [] {
      PricesOfAbsent(groups[1..], m);
    }
  }

  lemma {:induction false} PricesOfAt(groups: seq<Group>, i: int)
    requires Ascending(groups) && 0 <= i < |groups|
    ensures PricesOf(groups, groups[i].month) == groups[i].prices
  {
    if i > 0 {
      PricesOfAt(groups[1..], i - 1);
    }
  }

  lemma PricesOfCons(g: Group, rest: seq<Group>, q: Date)
    ensures PricesOf([g] + rest, q) == if g.month == q then g.prices else PricesOf(rest, q)
  {
    assert ([g] + rest)[1..] == rest;
  }

  /** Adds price `p` of month `m` to ascending groups: to the month's group
      when there is one, otherwise as a new group at its place in the order. */
  function Place(groups: seq<Group>, m: Date, p: real): (r: seq<Group>)
    requires Ascending(groups) && WellFormed(groups) && IsMonthStart(m)
    ensures Ascending(r) && WellFormed(r)
    ensures forall k :: 0 <= k < |r| ==> r[k].month == m || exists j :: 0 <= j < |groups| && groups[j].month == r[k].month
    ensures forall q :: PricesOf(r, q) == PricesOf(groups, q) + (if q == m then [p] else [])
  {
    if groups == [] then
      [Group(m, [p])]
    else if groups[0].month == m then
      var r := [Group(m, groups[0].prices + [p])] + groups[1..];
      PlaceAtHead(groups, m, p);
      r
    else if Before(m, groups[0].month) then
      var r := [Group(m, [p])] + groups;
      PlaceBeforeHead(groups, m, p);
      r
    else
      var rest := Place(groups[1..], m, p);
      PlaceAfterHead(groups, m, p, rest);
      [groups[0]] + rest
  }

  lemma PlaceAtHead(groups: seq<Group>, m: Date, p: real)
    requires Ascending(groups) && groups != [] && groups[0].month == m
    ensures forall q :: PricesOf([Group(m, groups[0].prices + [p])] + groups[1..], q) == PricesOf(groups, q) + (if q == m then [p] else [])
  {
    forall q ensures PricesOf([Group(m, groups[0].prices + [p])] + groups[1..], q) == PricesOf(groups, q) + (if q == m then [p] else []) {
      PricesOfCons(Group(m, groups[0].prices + [p]), groups[1..], q);
    }
  }

  lemma PlaceBeforeHead(groups: seq<Group>, m: Date, p: real)
    requires Ascending(groups) && groups != [] && Before(m, groups[0].month)
    ensures forall q :: PricesOf([Group(m, [p])] + groups, q) == PricesOf(groups, q) + (if q == m then [p] else [])
  {
    forall q ensures PricesOf([Group(m, [p])] + groups, q) == PricesOf(groups, q) + (if q == m then [p] else []) {
      PricesOfCons(Group(m, [p]), groups, q);
      if q == m {
        PricesOfAbsent(groups, m);
      }
    }
  }

  lemma PlaceAfterHead(groups: seq<Group>, m: Date, p: real, rest: seq<Group>)
    requires Ascending(groups) && groups != [] && Before(groups[0].month, m)
    requires Ascending(rest)
    requires forall k :: 0 <= k < |rest| ==> rest[k].month == m || exists j :: 0 <= j < |groups[1..]| && groups[1..][j].month == rest[k].month
    requires forall q :: PricesOf(rest, q) == PricesOf(groups[1..], q) + (if q == m then [p] else [])
    ensures Ascending([groups[0]] + rest)
    ensures forall q :: PricesOf([groups[0]] + rest, q) == PricesOf(groups, q) + (if q == m then [p] else [])
  {
    var r := [groups[0]] + rest;
    forall k | 0 < k < |r| ensures Before(groups[0].month, r[k].month) {
      assert r[k] == rest[k - 1];
      if r[k].month != m {
        var j :| 0 <= j < |groups[1..]| && groups[1..][j].month == r[k].month;
        assert groups[1..][j] == groups[j + 1];
      }
    }
    forall q ensures PricesOf(r, q) == PricesOf(groups, q) + (if q == m then [p] else []) {
      PricesOfCons(groups[0], rest, q);
      PricesOfCons(groups[0], groups[1..], q);
      assert [groups[0]] + groups[1..] == groups;
    }
  }

  /** `groupby("Month")`: one group per month that has a sale, ascending by
      month, each holding exactly that month's prices in input order. */
  function GroupByMonth(sales: seq<Sale>): (groups: seq<Group>)
    ensures Ascending(groups) && WellFormed(groups)
    ensures forall m :: PricesOf(groups, m) == PricesIn(sales, m)
  {
    if sales == [] then []
    else
      var last := sales[|sales| - 1];
      Place(GroupByMonth(sales[..|sales| - 1]), MonthStart(last.contractDate), last.soldPrice)
  }

  /** Every group's month has a sale: no month is synthesised. */
  lemma GroupHasSales(sales: seq<Sale>, i: int)
    requires 0 <= i < |GroupByMonth(sales)|
    ensures PricesIn(sales, GroupByMonth(sales)[i].month) == GroupByMonth(sales)[i].prices != []
  {
    var groups := GroupByMonth(sales);
    PricesOfAt(groups, i);
  }

  /** Every month with a sale has a group: no month is dropped. */
  lemma MonthWithSalesHasGroup(sales: seq<Sale>, m: Date)
    requires PricesIn(sales, m) != []
    ensures exists i :: 0 <= i < |GroupByMonth(sales)| && GroupByMonth(sales)[i].month == m
  {
    var groups := GroupByMonth(sales);
    if forall i :: 0 <= i < |groups| ==> groups[i].month != m {
      PricesOfAbsent(groups, m);
      assert false;
    }
  }

  /** A month never holds more sales than there are, and a month with no sale holds none. */
  lemma {:induction false} PricesInCount(sales: seq<Sale>, m: Date)
    ensures |PricesIn(sales, m)| <= |sales|
    ensures (forall k :: 0 <= k < |sales| ==> MonthStart(sales[k].contractDate) != m) ==> PricesIn(sales, m) == []
  {
    if sales != [] {
      PricesInCount(sales[..|sales| - 1], m);
    }
  }

  function Medians(groups: seq<Group>): (r: seq<real>)
    requires WellFormed(groups)
    ensures |r| == |groups|
  {
    seq(|groups|, i requires 0 <= i < |groups| => Median(groups[i].prices))
  }

  /** One step of the chain: the previous index value times the ratio of
      medians, or carried forward when the previous median is zero. */
  function ChainStep(prevIndex: real, prevMedian: real, curMedian: real): real {
    if prevMedian == 0.0 then prevIndex else prevIndex * (curMedian / prevMedian)
  }

  /** The chain-linked index over a series of monthly medians. */
  function ChainIndex(medians: seq<real>): (r: seq<real>)
    ensures |r| == |medians|
    ensures |medians| > 0 ==> r[0] == 1.0
    ensures forall i :: 1 <= i < |medians| ==> r[i] == ChainStep(r[i - 1], medians[i - 1], medians[i])
  {
    if |medians| == 0 then []
    else if |medians| == 1 then [1.0]
    else
      var n := |medians|;
      var prev := ChainIndex(medians[..n - 1]);
      prev + [ChainStep(prev[n - 2], medians[n - 2], medians[n - 1])]
  }

  lemma StepTelescopes(prevIndex: real, first: real, prev: real, cur: real)
    requires first != 0.0 && prev != 0.0 && prevIndex == prev / first
    ensures ChainStep(prevIndex, prev, cur) == cur / first
  {
  }

  /** When no median is zero, the index of month i is its median over the
      first month's median: the chain product telescopes. */
  lemma {:induction false} ChainIndexTelescopes(medians: seq<real>, i: int)
    requires 0 <= i < |medians|
    requires forall k :: 0 <= k < |medians| ==> medians[k] != 0.0
    ensures ChainIndex(medians)[i] == medians[i] / medians[0]
  {
    var r := ChainIndex(medians);
    if i > 0 {
      ChainIndexTelescopes(medians, i - 1);
      assert r[i] == ChainStep(r[i - 1], medians[i - 1], medians[i]);
      StepTelescopes(r[i - 1], medians[0], medians[i - 1], medians[i]);
    }
  }

  /** A carried-forward step: a zero median leaves the next month's index equal to its own. */
  lemma ChainIndexCarriesForward(medians: seq<real>, i: int)
    requires 1 <= i < |medians| && medians[i - 1] == 0.0
    ensures ChainIndex(medians)[i] == ChainIndex(medians)[i - 1]
  {
    var r := ChainIndex(medians);
    assert r[i] == ChainStep(r[i - 1], medians[i - 1], medians[i]);
  }

  /** Extending the medians extends the index without changing earlier values. */
  lemma {:induction false} ChainIndexPrefix(medians: seq<real>, n: int)
    requires 0 <= n <= |medians|
    ensures ChainIndex(medians[..n]) == ChainIndex(medians)[..n]
  {
    var a, b := ChainIndex(medians[..n]), ChainIndex(medians)[..n];
    forall i | 0 <= i < n ensures a[i] == b[i] {
      ChainIndexPrefixAt(medians, n, i);
    }
  }

  lemma {:induction false} ChainIndexPrefixAt(medians: seq<real>, n: int, i: int)
    requires 0 <= i < n <= |medians|
    ensures ChainIndex(medians[..n])[i] == ChainIndex(medians)[i]
    decreases i
  {
    if i > 0 {
      ChainIndexPrefixAt(medians, n, i - 1);
    }
  }

  /** The monthly table over ascending groups: count, median, thin flag and
      chain-linked index per group. */
  function TableOf(groups: seq<Group>, minSalesPerMonth: int): (rows: seq<MonthRow>)
    requires WellFormed(groups)
    ensures |rows| == |groups|
    // An unfolding of the definition, row by row, for the proofs below; the
    // table's properties are stated by TableOfChainLinked and MonthlyTableRows.
    ensures forall i :: 0 <= i < |groups| ==>
      rows[i] == MonthRow(groups[i].month, |groups[i].prices|, Median(groups[i].prices),
                          |groups[i].prices| < minSalesPerMonth, ChainIndex(Medians(groups))[i])
  {
    var index := ChainIndex(Medians(groups));
    seq(|groups|, i requires 0 <= i < |groups| =>
      MonthRow(groups[i].month, |groups[i].prices|, Median(groups[i].prices),
               |groups[i].prices| < minSalesPerMonth, index[i]))
  }

  /** The table `build_monthly_index_price` returns, as a function of the sales. */
  function MonthlyTable(sales: seq<Sale>, minSalesPerMonth: int): seq<MonthRow> {
    TableOf(GroupByMonth(sales), minSalesPerMonth)
  }

  /** The chain rule of the table: the first index value is 1.00, and each
      later one is the previous one times the ratio of medians, or the
      previous one carried forward when the previous median is zero. */
  predicate ChainLinked(rows: seq<MonthRow>) {
    (|rows| > 0 ==> rows[0].indexRaw == 1.0) &&
    forall i :: 1 <= i < |rows| ==>
      rows[i].indexRaw == (if rows[i - 1].medianPrice == 0.0 then rows[i - 1].indexRaw
                           else rows[i - 1].indexRaw * (rows[i].medianPrice / rows[i - 1].medianPrice))
  }

  lemma TableOfChainLinked(groups: seq<Group>, minSalesPerMonth: int)
    requires WellFormed(groups)
    ensures ChainLinked(TableOf(groups, minSalesPerMonth))
  {
    var medians := Medians(groups);
    var index := ChainIndex(medians);
    var rows := TableOf(groups, minSalesPerMonth);
    forall i | 1 <= i < |rows|
      ensures rows[i].indexRaw == ChainStep(rows[i - 1].indexRaw, rows[i - 1].medianPrice, rows[i].medianPrice)
    {
      assert rows[i].indexRaw == index[i] && rows[i - 1].indexRaw == index[i - 1];
      assert rows[i].medianPrice == medians[i] && rows[i - 1].medianPrice == medians[i - 1];
    }
  }

  /** The monthly table is chain-linked for every set of sales. */
  lemma MonthlyTableChainLinked(sales: seq<Sale>, minSalesPerMonth: int)
    ensures ChainLinked(MonthlyTable(sales, minSalesPerMonth))
  {
    TableOfChainLinked(GroupByMonth(sales), minSalesPerMonth);
  }

  /** The `Index_Raw` loop of `build_monthly_index_price`: a fresh array of
      index values, 1.00 first, each later one chained from its predecessor. */
  method FillIndex(medians: seq<real>) returns (index: array<real>)
    ensures fresh(index)
    ensures index[..] == ChainIndex(medians)
  {
    var n := |medians|;
    ghost var chain := ChainIndex(medians);
    index := new real[n];
    if n > 0 {
      index[0] := 1.0;
      var i := 1;
      while i < n
        invariant 1 <= i <= n
        invariant forall k :: 0 <= k < i ==> index[k] == chain[k]
      {
        var prev, cur, last := medians[i - 1], medians[i], index[i - 1];
        if prev == 0.0 {
          index[i] := last;
        } else {
          index[i] := last * (cur / prev);
        }
        assert index[i] == chain[i] by {
          assert chain[i] == ChainStep(chain[i - 1], medians[i - 1], medians[i]);
        }
        i := i + 1;
      }
    }
  }

  /** `build_monthly_index_price`: groups the sales by month, takes each
      month's count and median, and fills the raw index. */
  method BuildMonthlyIndex(sales: seq<Sale>, minSalesPerMonth: int) returns (rows: seq<MonthRow>)
    ensures rows == MonthlyTable(sales, minSalesPerMonth)
    ensures ChainLinked(rows)
  {
    var groups := GroupByMonth(sales);
    var medians := Medians(groups);
    var index := FillIndex(medians);
    var values := index[..];
    rows := seq(|groups|, i requires 0 <= i < |groups| =>
      MonthRow(groups[i].month, |groups[i].prices|, medians[i], |groups[i].prices| < minSalesPerMonth, values[i]));
    TableOfChainLinked(groups, minSalesPerMonth);
  }

  /** The table has one row per month with a sale, in ascending month order,
      each keyed by a first-of-month date and holding that month's sales:
      its count, its median and its thin flag. */
  lemma MonthlyTableRows(sales: seq<Sale>, minSalesPerMonth: int, i: int)
    requires 0 <= i < |MonthlyTable(sales, minSalesPerMonth)|
    ensures var rows := MonthlyTable(sales, minSalesPerMonth);
      IsMonthStart(rows[i].month) && rows[i].salesCount >= 1 &&
      rows[i].salesCount == |PricesIn(sales, rows[i].month)| &&
      rows[i].medianPrice == Median(PricesIn(sales, rows[i].month)) &&
      (rows[i].thinMonth <==> rows[i].salesCount < minSalesPerMonth) &&
      forall j :: i < j < |rows| ==> Before(rows[i].month, rows[j].month)
  {
    var groups := GroupByMonth(sales);
    PricesOfAt(groups, i);
  }

  /** Every sale's month has a row. */
  lemma MonthlyTableCoversSales(sales: seq<Sale>, minSalesPerMonth: int, k: int)
    requires 0 <= k < |sales|
    ensures var rows := MonthlyTable(sales, minSalesPerMonth);
      exists i :: 0 <= i < |rows| && rows[i].month == MonthStart(sales[k].contractDate)
  {
    var groups := GroupByMonth(sales);
    var m := MonthStart(sales[k].contractDate);
    SaleIsCounted(sales, k);
    MonthWithSalesHasGroup(sales, m);
    var i :| 0 <= i < |groups| && groups[i].month == m;
    assert MonthlyTable(sales, minSalesPerMonth)[i].month == m;
  }

  lemma {:induction false} SaleIsCounted(sales: seq<Sale>, k: int)
    requires 0 <= k < |sales|
    ensures PricesIn(sales, MonthStart(sales[k].contractDate)) != []
  {
    var n := |sales|;
    if k < n - 1 {
      assert sales[..n - 1][k] == sales[k];
      SaleIsCounted(sales[..n - 1], k);
    }
  }

  /** With positive prices, every index value is positive and equals the
      month's median over the first month's median. */
  lemma MonthlyIndexOfPositivePrices(sales: seq<Sale>, minSalesPerMonth: int, i: int)
    requires forall k :: 0 <= k < |sales| ==> sales[k].soldPrice > 0.0
    requires 0 <= i < |MonthlyTable(sales, minSalesPerMonth)|
    ensures var rows := MonthlyTable(sales, minSalesPerMonth);
      rows[0].medianPrice > 0.0 &&
      rows[i].indexRaw == rows[i].medianPrice / rows[0].medianPrice && rows[i].indexRaw > 0.0
  {
    var groups := GroupByMonth(sales);
    forall j, k | 0 <= j < |groups| && 0 <= k < |groups[j].prices| ensures groups[j].prices[k] > 0.0 {
      PricesOfAt(groups, j);
      PositivePricesIn(sales, groups[j].month);
    }
    PositiveTable(groups, minSalesPerMonth, i);
  }

  lemma PositiveTable(groups: seq<Group>, minSalesPerMonth: int, i: int)
    requires WellFormed(groups) && 0 <= i < |groups|
    requires forall j, k :: 0 <= j < |groups| && 0 <= k < |groups[j].prices| ==> groups[j].prices[k] > 0.0
    ensures var rows := TableOf(groups, minSalesPerMonth);
      rows[0].medianPrice > 0.0 &&
      rows[i].indexRaw == rows[i].medianPrice / rows[0].medianPrice && rows[i].indexRaw > 0.0
  {
    var medians := Medians(groups);
    forall j | 0 <= j < |groups| ensures medians[j] > 0.0 {
      MedianPositive(groups[j].prices);
    }
    ChainIndexTelescopes(medians, i);
    QuotientPositive(medians[i], medians[0]);
    var rows := TableOf(groups, minSalesPerMonth);
    assert rows[0].medianPrice == medians[0] && rows[i].medianPrice == medians[i];
  }

  lemma QuotientPositive(a: real, b: real)
    requires a > 0.0 && b > 0.0
    ensures a / b > 0.0
  {
  }

  lemma {:induction false} PositivePricesIn(sales: seq<Sale>, m: Date)
    requires forall k :: 0 <= k < |sales| ==> sales[k].soldPrice > 0.0
    ensures forall j :: 0 <= j < |PricesIn(sales, m)| ==> PricesIn(sales, m)[j] > 0.0
  {
    if sales != [] {
      PositivePricesIn(sales[..|sales| - 1], m);
    }
  }
}
