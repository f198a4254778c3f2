/** The market-condition adjustment of each selected comparable: the index
    at the effective date over the index at the comparable's contract date,
    applied to its sale price unless the sale lies inside the no-adjustment
    window, and labelled by size and by sign. */
module Adjustment {
  import opened Options
  import opened Dates
  import opened Smoothing
  import opened Lookup

  /** `pct_change(i_eff, i_contract)`: the relative change of the index,
      undefined when either index is missing or the contract index is zero. */
  function PctChange(iEff: Option<real>, iContract: Option<real>): (r: Option<real>)
    ensures r.None? <==> iEff.None? || iContract.None? || iContract.value == 0.0
    ensures r.Some? ==> iContract.value * (r.value + 1.0) == iEff.value
  {
    if iEff.None? || iContract.None? || iContract.value == 0.0 then None
    else
      var e, c := iEff.value, iContract.value;
      QuotientTimesDivisor(e, c);
      Some(e / c - 1.0)
  }

  lemma QuotientTimesDivisor(e: real, c: real)
    requires c != 0.0
    ensures c * (e / c - 1.0 + 1.0) == e
  {
  }

  /** An index that did not move gives a zero change, and a rise gives a positive one. */
  lemma PctChangeSign(e: real, c: real)
    requires c > 0.0
    ensures PctChange(Some(e), Some(c)).value == 0.0 <==> e == c
    ensures PctChange(Some(e), Some(c)).value > 0.0 <==> e > c
    ensures PctChange(Some(e), Some(c)).value < 0.0 <==> e < c
  {
    var r := PctChange(Some(e), Some(c)).value;
    assert c * (r + 1.0) == e;
    SignOfProduct(c, r);
  }

  lemma SignOfProduct(c: real, r: real)
    requires c > 0.0
    ensures c * r > 0.0 <==> r > 0.0
    ensures c * r < 0.0 <==> r < 0.0
  {
    if r > 0.0 { assert c * r > 0.0; }
    else if r < 0.0 { assert c * -r > 0.0; }
  }

  /** `categorize_adjustment`'s labels: "Increasing", "Declining", "Stable", "N/A". */
  datatype Category = Increasing | Declining | Stable | NotAvailable

  /** `adjustment_direction`'s labels: "UPWARD", "DOWNWARD", "NO ADJUSTMENT". */
  datatype Direction = Upward | Downward | NoAdjustment

  /** The default thresholds: 0.5 percent for the category, 0.1 percent for the direction. */
  const CategoryThreshold: real := 0.5
  const DirectionThreshold: real := 0.1

  /** `categorize_adjustment(adj_pct, threshold)`. */
  function Categorize(pct: Option<real>, threshold: real): (c: Category)
    ensures c == NotAvailable <==> pct.None?
    ensures c == Increasing <==> pct.Some? && pct.value > threshold
    ensures c == Declining <==> pct.Some? && pct.value <= threshold && pct.value < -threshold
    ensures c == Stable <==> pct.Some? && -threshold <= pct.value <= threshold
  {
    match pct
    case None => NotAvailable
    case Some(p) => if p > threshold then Increasing else if p < -threshold then Declining else Stable
  }

  function Abs(x: real): real {
    if x < 0.0 then -x else x
  }

  /** `adjustment_direction(adj_pct, threshold)`. */
  function DirectionOf(pct: Option<real>, threshold: real): (d: Direction)
    ensures d == NoAdjustment <==> pct.None? || Abs(pct.value) < threshold
    ensures d == Upward <==> pct.Some? && Abs(pct.value) >= threshold && pct.value > 0.0
    ensures d == Downward <==> pct.Some? && Abs(pct.value) >= threshold && pct.value <= 0.0
  {
    if pct.None? || Abs(pct.value) < threshold then NoAdjustment
    else if pct.value > 0.0 then Upward
    else Downward
  }

  /** At the default thresholds the two labels never contradict each other:
      an increase points upward, a decline downward, and no adjustment is
      stable or unavailable. */
  lemma LabelsAgree(pct: Option<real>)
    ensures Categorize(pct, CategoryThreshold) == Increasing ==> DirectionOf(pct, DirectionThreshold) == Upward
    ensures Categorize(pct, CategoryThreshold) == Declining ==> DirectionOf(pct, DirectionThreshold) == Downward
    ensures DirectionOf(pct, DirectionThreshold) == NoAdjustment ==>
      Categorize(pct, CategoryThreshold) in {Stable, NotAvailable}
  {
  }

  /** The thresholds differ on purpose: a 0.3 percent change is stable in
      category yet still points upward. */
  lemma ThresholdsDiffer()
    ensures Categorize(Some(0.3), CategoryThreshold) == Stable
    ensures DirectionOf(Some(0.3), DirectionThreshold) == Upward
  {
  }

  /** One selected comparable sale. */
  datatype Comparable = Comparable(address: string, contractDate: Date, soldPrice: real)

  /** One row of the adjustment table. */
  datatype AdjustmentRow = AdjustmentRow(
    comp: Comparable,
    indexContract: Option<real>,
    indexEffective: Option<real>,
    daysFromEffective: nat,
    applied: bool,
    pct: Option<real>,
    dollars: Option<real>,
    category: Category,
    direction: Direction)

  /** `MktAdjPct` before the window is applied: the percentage change, NaN when undefined. */
  function RawPct(iEff: Option<real>, iContract: Option<real>): Option<real> {
    match PctChange(iEff, iContract)
    case None => None
    case Some(r) => Some(r * 100.0)
  }

  /** `MktAdj$` before the window is applied: the sale price times the percentage over 100. */
  function RawDollars(price: real, pct: Option<real>): Option<real> {
    match pct
    case None => None
    case Some(p) => Some(price * (p / 100.0))
  }

  /** The row the step-5 block produces for one comparable, given the
      effective index already looked up. */
  function AdjustmentOf(c: Comparable, index: seq<IndexRow>, effDate: Date, effIndex: Option<real>,
                        col: IndexColumn, noAdjDays: int): AdjustmentRow
  {
    var iContract := LookupIndex(index, Some(c.contractDate), col).value;
    var days := DaysBetween(c.contractDate, effDate);
    var applied := days >= noAdjDays;
    var pct := if applied then RawPct(effIndex, iContract) else Some(0.0);
    var dollars := if applied then RawDollars(c.soldPrice, RawPct(effIndex, iContract)) else Some(0.0);
    AdjustmentRow(c, iContract, effIndex, days, applied, pct, dollars,
                  Categorize(pct, CategoryThreshold), DirectionOf(pct, DirectionThreshold))
  }

  /** The adjustment table, one row per comparable in the order of `comps`. */
  function Adjustments(comps: seq<Comparable>, index: seq<IndexRow>, effDate: Date,
                       col: IndexColumn, noAdjDays: int): (rows: seq<AdjustmentRow>)
    ensures |rows| == |comps|
  {
    var effIndex := LookupIndex(index, Some(effDate), col).value;
    seq(|comps|, i requires 0 <= i < |comps| => AdjustmentOf(comps[i], index, effDate, effIndex, col, noAdjDays))
  }

  /** The step-5 block: looks up the effective index once, fills the
      `MktAdjPct` and `MktAdj$` columns for every comparable, then
      overwrites them with zero on the rows inside the no-adjustment window,
      and labels each row from its final percentage. */
  method ComputeAdjustments(comps: seq<Comparable>, index: seq<IndexRow>, effDate: Date,
                            col: IndexColumn, noAdjDays: int) returns (rows: seq<AdjustmentRow>)
    ensures rows == Adjustments(comps, index, effDate, col, noAdjDays)
    ensures |rows| == |comps|
    ensures forall i :: 0 <= i < |rows| ==>
      rows[i].comp == comps[i] &&
      rows[i].daysFromEffective == DaysBetween(comps[i].contractDate, effDate) &&
      (rows[i].applied <==> rows[i].daysFromEffective >= noAdjDays)
    ensures forall i :: 0 <= i < |rows| && !rows[i].applied ==>
      rows[i].pct == Some(0.0) && rows[i].dollars == Some(0.0) &&
      rows[i].category == Stable && rows[i].direction == NoAdjustment
  {
    var n := |comps|;
    var effIndex := LookupIndex(index, Some(effDate), col).value;
    var contractIndex := seq(n, k requires 0 <= k < n => LookupIndex(index, Some(comps[k].contractDate), col).value);
    var days := seq(n, k requires 0 <= k < n => DaysBetween(comps[k].contractDate, effDate));
    var applied := seq(n, k requires 0 <= k < n => days[k] >= noAdjDays);
    var pct := new Option<real>[n](k requires 0 <= k < n => RawPct(effIndex, contractIndex[k]));
    var dollars := new Option<real>[n](k requires 0 <= k < n => RawDollars(comps[k].soldPrice, RawPct(effIndex, contractIndex[k])));
    ZeroOutsideWindow(applied, pct, dollars);
    rows := seq(n, k requires 0 <= k < n reads pct, dollars =>
      AdjustmentRow(comps[k], contractIndex[k], effIndex, days[k], applied[k], pct[k], dollars[k],
                    Categorize(pct[k], CategoryThreshold), DirectionOf(pct[k], DirectionThreshold)));
    assert forall k :: 0 <= k < n ==>
      rows[k] == AdjustmentOf(comps[k], index, effDate, effIndex, col, noAdjDays);
  }

  /** `comps.loc[~comps["AppliedAdj"], ...] = 0.0`: overwrites the percentage
      and dollar columns with zero on every row not applied, in place. */
  method ZeroOutsideWindow(applied: seq<bool>, pct: array<Option<real>>, dollars: array<Option<real>>)
    requires pct.Length == dollars.Length == |applied| && pct != dollars
    modifies pct, dollars
    ensures forall k :: 0 <= k < |applied| ==>
      pct[k] == (if applied[k] then old(pct[k]) else Some(0.0)) &&
      dollars[k] == (if applied[k] then old(dollars[k]) else Some(0.0))
  {
    var i := 0;
    while i < |applied|
      invariant 0 <= i <= |applied|
      invariant forall k :: 0 <= k < |applied| ==>
        pct[k] == (if k < i && !applied[k] then Some(0.0) else old(pct[k])) &&
        dollars[k] == (if k < i && !applied[k] then Some(0.0) else old(dollars[k]))
    {
      if !applied[i] {
        pct[i] := Some(0.0);
        dollars[i] := Some(0.0);
      }
      i := i + 1;
    }
  }

  /** An applied adjustment moves the sale price to its value at the
      effective date: price plus adjustment is price times the index ratio. */
  lemma AdjustedPriceFollowsIndex(c: Comparable, index: seq<IndexRow>, effDate: Date, effIndex: Option<real>,
                                  col: IndexColumn, noAdjDays: int)
    ensures var r := AdjustmentOf(c, index, effDate, effIndex, col, noAdjDays);
      r.applied && r.pct.Some? ==>
        r.indexContract.Some? && r.indexEffective.Some? && r.indexContract.value != 0.0 &&
        r.dollars.Some? &&
        (c.soldPrice + r.dollars.value) * r.indexContract.value == c.soldPrice * r.indexEffective.value
  {
    var r := AdjustmentOf(c, index, effDate, effIndex, col, noAdjDays);
    if r.applied && r.pct.Some? {
      PriceAtEffectiveIndex(c.soldPrice, r.indexEffective.value, r.indexContract.value);
    }
  }

  lemma PriceAtEffectiveIndex(price: real, e: real, c: real)
    requires c != 0.0
    ensures var d := RawDollars(price, RawPct(Some(e), Some(c)));
      d.Some? && (price + d.value) * c == price * e
  {
    var q := PctChange(Some(e), Some(c)).value;
    ScaledPrice(price, q, c, e);
  }

  lemma ScaledPrice(price: real, q: real, c: real, e: real)
    requires c * (q + 1.0) == e
    ensures (price + price * (q * 100.0 / 100.0)) * c == price * e
  {
    assert q * 100.0 / 100.0 == q;
    assert price + price * q == price * (q + 1.0);
    assert price * (q + 1.0) * c == price * (c * (q + 1.0));
  }

  /** An applied percentage is undefined exactly when one of the two index
      values is missing or the contract index is zero; it is never silently zero. */
  lemma AppliedPctUndefinedIff(c: Comparable, index: seq<IndexRow>, effDate: Date, effIndex: Option<real>,
                               col: IndexColumn, noAdjDays: int)
    ensures var r := AdjustmentOf(c, index, effDate, effIndex, col, noAdjDays);
      r.applied ==>
        (r.pct.None? <==> r.indexEffective.None? || r.indexContract.None? || r.indexContract.value == 0.0) &&
        (r.pct.None? <==> r.dollars.None?) &&
        (r.pct.None? ==> r.category == NotAvailable && r.direction == NoAdjustment)
  {
  }

  /** Without an effective index no applied row gets an adjustment, while rows
      inside the window are still zero. */
  lemma NoEffectiveIndex(c: Comparable, index: seq<IndexRow>, effDate: Date, effIndex: Option<real>,
                         col: IndexColumn, noAdjDays: int)
    requires effIndex.None?
    ensures var r := AdjustmentOf(c, index, effDate, effIndex, col, noAdjDays);
      (r.applied ==> r.pct.None? && r.category == NotAvailable) &&
      (!r.applied ==> r.pct == Some(0.0))
  {
  }

  /** A sale on the effective date itself is adjusted only when the window is zero days or less. */
  lemma SameDaySale(c: Comparable, index: seq<IndexRow>, effDate: Date, effIndex: Option<real>,
                    col: IndexColumn, noAdjDays: int)
    requires c.contractDate == effDate
    ensures AdjustmentOf(c, index, effDate, effIndex, col, noAdjDays).applied <==> noAdjDays <= 0
  {
    DaysBetweenZeroIff(effDate, effDate);
  }

  /** An applied row whose contract date and effective date read the same
      non-zero index value gets a zero adjustment. */
  lemma SameIndexNoChange(c: Comparable, index: seq<IndexRow>, effDate: Date, effIndex: Option<real>,
                          col: IndexColumn, noAdjDays: int)
    ensures var r := AdjustmentOf(c, index, effDate, effIndex, col, noAdjDays);
      r.indexContract == effIndex && effIndex.Some? && effIndex.value != 0.0 ==>
        r.pct == Some(0.0) && r.dollars == Some(0.0) && r.category == Stable && r.direction == NoAdjustment
  {
    var r := AdjustmentOf(c, index, effDate, effIndex, col, noAdjDays);
    if r.indexContract == effIndex && effIndex.Some? && effIndex.value != 0.0 {
      UnchangedIndex(effIndex.value);
    }
  }

  lemma UnchangedIndex(v: real)
    requires v != 0.0
    ensures PctChange(Some(v), Some(v)) == Some(0.0)
  {
    assert v / v == 1.0;
  }
}
