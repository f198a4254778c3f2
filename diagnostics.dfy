/** Outlier diagnostics of the filtered sales: the IQR fence on sale prices,
    the two regression flags, their combination into `Flagged`, and the
    audit-trail label naming which flags fired. */
module Diagnostics {
  import opened Stats

  /** A price lies outside the fences `Q1 - k * IQR` and `Q3 + k * IQR`. */
  predicate OutsideFences(p: real, q1: real, q3: real, k: real) {
    p < q1 - k * (q3 - q1) || p > q3 + k * (q3 - q1)
  }

  /** `compute_iqr_flags_cached(sold_prices, k)`: one flag per price, set
      when the price lies strictly outside the fences around the first and
      third quartiles. */
  function IqrFlags(prices: seq<real>, k: real): (flags: seq<bool>)
    ensures |flags| == |prices|
  {
    if prices == [] then []
    else
      var q1, q3 := Quantile(prices, 1), Quantile(prices, 3);
      seq(|prices|, i requires 0 <= i < |prices| => OutsideFences(prices[i], q1, q3, k))
  }

  lemma IqrFlagAt(prices: seq<real>, k: real, i: int)
    requires 0 <= i < |prices|
    ensures IqrFlags(prices, k)[i] == OutsideFences(prices[i], Quantile(prices, 1), Quantile(prices, 3), k)
  {
  }

  /** The first quartile never exceeds the third, and both lie within the prices' range. */
  lemma QuartilesOrdered(prices: seq<real>)
    requires |prices| > 0
    ensures Quantile(prices, 1) <= Quantile(prices, 3)
    ensures exists i :: 0 <= i < |prices| && prices[i] <= Quantile(prices, 1)
    ensures exists j :: 0 <= j < |prices| && Quantile(prices, 3) <= prices[j]
  {
    var s := Sort(prices);
    QuantileMonotone(s, 1, 3);
    assert s[0] in multiset(prices) && s[|s| - 1] in multiset(prices);
    var i :| 0 <= i < |prices| && prices[i] == s[0];
    var j :| 0 <= j < |prices| && prices[j] == s[|s| - 1];
  }

  /** With ordered quartiles and a non-negative multiplier the fences lie
      outside the quartiles. */
  lemma FencesEncloseQuartiles(p: real, q1: real, q3: real, k: real)
    requires q1 <= q3 && k >= 0.0 && q1 <= p <= q3
    ensures !OutsideFences(p, q1, q3, k)
  {
    MulNonNegative(k, q3 - q1);
  }

  /** A larger multiplier moves both fences outwards. */
  lemma FencesWiden(p: real, q1: real, q3: real, k1: real, k2: real)
    requires q1 <= q3 && k1 <= k2
    ensures OutsideFences(p, q1, q3, k2) ==> OutsideFences(p, q1, q3, k1)
  {
    MulNonNegative(k2 - k1, q3 - q1);
    assert k2 * (q3 - q1) - k1 * (q3 - q1) == (k2 - k1) * (q3 - q1);
  }

  /** With a non-negative multiplier no price between Q1 and Q3 is ever flagged. */
  lemma InnerPricesNotFlagged(prices: seq<real>, k: real, i: int)
    requires 0 <= i < |prices| && k >= 0.0
    requires Quantile(prices, 1) <= prices[i] <= Quantile(prices, 3)
    ensures !IqrFlags(prices, k)[i]
  {
    QuartilesOrdered(prices);
    FencesEncloseQuartiles(prices[i], Quantile(prices, 1), Quantile(prices, 3), k);
    IqrFlagAt(prices, k, i);
  }

  /** Widening the fences only removes flags: a price flagged with a larger
      multiplier is flagged with every smaller one. */
  lemma FlagsShrinkAsMultiplierGrows(prices: seq<real>, k1: real, k2: real, i: int)
    requires 0 <= i < |prices| && k1 <= k2
    ensures IqrFlags(prices, k2)[i] ==> IqrFlags(prices, k1)[i]
  {
    QuartilesOrdered(prices);
    FencesWiden(prices[i], Quantile(prices, 1), Quantile(prices, 3), k1, k2);
    IqrFlagAt(prices, k1, i);
    IqrFlagAt(prices, k2, i);
  }

  /** A flagged price lies outside the quartiles: below Q1 or above Q3. */
  lemma FlaggedOutsideQuartiles(prices: seq<real>, k: real, i: int)
    requires 0 <= i < |prices| && k >= 0.0
    ensures IqrFlags(prices, k)[i] ==> prices[i] < Quantile(prices, 1) || prices[i] > Quantile(prices, 3)
  {
    if Quantile(prices, 1) <= prices[i] <= Quantile(prices, 3) {
      InnerPricesNotFlagged(prices, k, i);
    }
  }

  /** When all prices are equal the quartiles coincide and nothing is flagged. */
  lemma FlatPricesNotFlagged(prices: seq<real>, k: real, i: int)
    requires 0 <= i < |prices|
    requires forall j :: 0 <= j < |prices| ==> prices[j] == prices[0]
    ensures !IqrFlags(prices, k)[i]
  {
    FlatQuartiles(prices);
    FencesCollapse(prices[i], Quantile(prices, 1), k);
    IqrFlagAt(prices, k, i);
  }

  lemma FlatQuartiles(prices: seq<real>)
    requires |prices| > 0
    requires forall j :: 0 <= j < |prices| ==> prices[j] == prices[0]
    ensures Quantile(prices, 1) == prices[0] == Quantile(prices, 3)
  {
    QuartilesOrdered(prices);
    var a :| 0 <= a < |prices| && prices[a] <= Quantile(prices, 1);
    var b :| 0 <= b < |prices| && Quantile(prices, 3) <= prices[b];
  }

  /** Equal quartiles put both fences on them, whatever the multiplier. */
  lemma FencesCollapse(p: real, q: real, k: real)
    requires p == q
    ensures !OutsideFences(p, q, q, k)
  {
    assert k * (q - q) == 0.0;
  }

  /** The three diagnostic flags of one record. */
  datatype RecordFlags = RecordFlags(iqrOutlier: bool, highLeverage: bool, highCooksD: bool)

  /** `Flagged`: any of the three flags. */
  predicate Flagged(f: RecordFlags) {
    f.iqrOutlier || f.highLeverage || f.highCooksD
  }

  /** Appends `part` to the reason, with " + " between parts. */
  function Join(reason: string, part: string): string {
    if reason == "" then part else reason + " + " + part
  }

  /** `_flag_reason`: the names of the flags that fired, in the fixed order
      "IQR", "Price Dev", "Cook's D", joined with " + ". */
  function FlagReason(f: RecordFlags): (reason: string)
  {
    var a := if f.iqrOutlier then "IQR" else "";
    var b := if f.highLeverage then Join(a, "Price Dev") else a;
    if f.highCooksD then Join(b, "Cook's D") else b
  }

  /** The reason is empty exactly when the record is not flagged. */
  lemma ReasonEmptyIffUnflagged(f: RecordFlags)
    ensures FlagReason(f) == "" <==> !Flagged(f)
  {
    if f.highCooksD { assert |FlagReason(f)| >= |"Cook's D"|; }
    else if f.highLeverage { assert |FlagReason(f)| >= |"Price Dev"|; }
  }

  /** The length of each of the eight possible reasons: all different. */
  lemma ReasonLength(f: RecordFlags)
    ensures |FlagReason(f)| ==
      match f
      case RecordFlags(false, false, false) => 0
      case RecordFlags(true, false, false) => 3
      case RecordFlags(false, true, false) => 9
      case RecordFlags(false, false, true) => 8
      case RecordFlags(true, true, false) => 15
      case RecordFlags(true, false, true) => 14
      case RecordFlags(false, true, true) => 20
      case RecordFlags(true, true, true) => 26
  {
  }

  /** Different flag combinations give different reasons, so the label
      records exactly which flags fired. */
  lemma ReasonDeterminesFlags(f: RecordFlags, g: RecordFlags)
    requires FlagReason(f) == FlagReason(g)
    ensures f == g
  {
    ReasonLength(f);
    ReasonLength(g);
  }

  /** What the regression diagnostic reports for one record. */
  datatype RegressionFlags = RegressionFlags(highLeverage: bool, highCooksD: bool)

  /** The least number of records the regression diagnostic needs; with fewer it flags nothing. */
  const MinRegressionRecords: nat := 6

  /** One record's diagnostic outcome. */
  datatype Diagnosis = Diagnosis(flags: RecordFlags, flagged: bool, reason: string)

  function DiagnosisOf(f: RecordFlags): Diagnosis {
    Diagnosis(f, Flagged(f), FlagReason(f))
  }

  /** The diagnostics step over the filtered prices: the IQR flags when they
      are switched on, the regression flags (computed outside this model and
      passed in) when that diagnostic is switched on and has enough records,
      then the combined flag and its reason. */
  function Diagnose(prices: seq<real>, useIqr: bool, k: real, useCooks: bool,
                    regression: seq<RegressionFlags>): (d: seq<Diagnosis>)
    requires |regression| == |prices|
    ensures |d| == |prices|
  {
    var iqr := IqrFlags(prices, k);
    var regressionOn := useCooks && |prices| >= MinRegressionRecords;
    seq(|prices|, i requires 0 <= i < |prices| =>
      DiagnosisOf(RecordFlags(useIqr && iqr[i],
                              regressionOn && regression[i].highLeverage,
                              regressionOn && regression[i].highCooksD)))
  }

  /** Each record is flagged exactly when some switched-on diagnostic fired,
      and its reason is empty exactly when it is not flagged. */
  lemma DiagnoseFlagsIff(prices: seq<real>, useIqr: bool, k: real, useCooks: bool,
                         regression: seq<RegressionFlags>, i: int)
    requires |regression| == |prices| && 0 <= i < |prices|
    ensures var d := Diagnose(prices, useIqr, k, useCooks, regression)[i];
      (d.flagged <==>
        (useIqr && IqrFlags(prices, k)[i]) ||
        (useCooks && |prices| >= MinRegressionRecords &&
          (regression[i].highLeverage || regression[i].highCooksD))) &&
      (d.reason == "" <==> !d.flagged)
  {
    ReasonEmptyIffUnflagged(Diagnose(prices, useIqr, k, useCooks, regression)[i].flags);
  }

  /** With both diagnostics off, or with IQR off and fewer than six records,
      nothing is flagged. */
  lemma NothingFlaggedWhenOff(prices: seq<real>, useIqr: bool, k: real, useCooks: bool,
                              regression: seq<RegressionFlags>, i: int)
    requires |regression| == |prices| && 0 <= i < |prices|
    requires !useIqr && (!useCooks || |prices| < MinRegressionRecords)
    ensures !Diagnose(prices, useIqr, k, useCooks, regression)[i].flagged
    ensures Diagnose(prices, useIqr, k, useCooks, regression)[i].reason == ""
  {
    ReasonEmptyIffUnflagged(Diagnose(prices, useIqr, k, useCooks, regression)[i].flags);
  }
}
