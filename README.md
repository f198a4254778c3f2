# Market index and adjustment engine

This project is a Dafny model of the engine inside the market-conditions
Streamlit app (`market_condition_app_v4_15_premium_plus.py`). The engine:

- turns closed sales into a monthly chain-linked price index;
- smooths that index with a centred rolling mean;
- looks up the index for a date, falling back to the latest earlier month;
- turns the index at the effective date and the index at each comparable's
  contract date into a percentage and dollar adjustment, labelled by size
  and by direction;
- flags price outliers with an IQR fence and combines the flags into a
  single flag with a reason label;
- keeps the saved-report history list.

Prices and index values are exact `real`s. A missing value (pandas' NaN,
Python's `None`) is an `Option`. Dates are Python `datetime.date` values
(years 1 to 9999), with day differences taken through `toordinal`.

Modules, one file each:

- `Options`: the `Option` type.
- `Dates`: `month_start`, `days_between`, calendar order.
- `Stats`: sorting, `Series.median`, and `Series.quantile` with linear
  interpolation.
- `MonthlyIndex`: `build_monthly_index_price`.
- `Smoothing`: the rolling mean of `add_smoothed_and_regression`, and
  `build_index_cached`.
- `Lookup`: `lookup_index`.
- `Adjustment`: `pct_change`, `categorize_adjustment`,
  `adjustment_direction`, and the step-5 adjustment block.
- `Diagnostics`: `compute_iqr_flags_cached`, the regression-flag toggle,
  `Flagged`, and `_flag_reason`.
- `History`: the list logic of `save_report_to_history` and
  `delete_report_from_history`.

Where the code runs a loop or overwrites in place, the model does too, and
proves it against a specification function:

- the `Index_Raw` loop is `MonthlyIndex.FillIndex`;
- the overwrite of rows not applied is `Adjustment.ZeroOutsideWindow`;
- the scan for an existing report is `History.FindExisting`;
- the history list is `History.ReportHistory`, a class with `Save` and
  `Delete`.

Points where the code's behaviour is easy to misread:

- A monthly median need not be positive. The code accepts any price, so a
  zero median is possible, and the index is carried forward after it.
- The code's carry-forward test also checks for a missing median. No median
  can be missing, because rows with no price are dropped first (line 867).
  So the rule reduces to "the previous median is zero".
- `HighLeverage` is named like a leverage flag. In the code it is the
  studentized-residual ("Price Dev") flag. The model treats it as the
  second regression flag, as the code does.

## Model

| member | source | states |
|---|---|---|
| Dates.MonthStart | market_condition_app_v4_15_premium_plus.py:819-824 | the month start has day 1 and the same year and month, and never falls after the date |
| Dates.DaysBetweenSymmetric | market_condition_app_v4_15_premium_plus.py:841-842 | the day distance is the same in both argument orders |
| Dates.DaysBetweenZeroIff | market_condition_app_v4_15_premium_plus.py:841-842 | two dates are zero days apart exactly when they are the same date |
| Dates.DaysIntoMonth | market_condition_app_v4_15_premium_plus.py:819-824 | a date lies `day - 1` days after its month start |
| Dates.DaysBetween | market_condition_app_v4_15_premium_plus.py:841-842 | the absolute difference of the two dates' day ordinals, never negative; its symmetry and its zero case are stated by `DaysBetweenSymmetric` and `DaysBetweenZeroIff` |
| Dates.OrdinalMonotone | market_condition_app_v4_15_premium_plus.py:841-842 | a strictly earlier date has a strictly smaller day ordinal, so distances follow the calendar |
| Stats.Sort | market_condition_app_v4_15_premium_plus.py:872-873 | the result is sorted and is a permutation of the input (the order statistics behind median and quantile) |
| Stats.Median | market_condition_app_v4_15_premium_plus.py:872-873 | the middle element of the sorted prices, or the mean of the two middle ones for an even count; `MedianBetween` and `MedianPositive` state its bounds and sign |
| Stats.QuantileMonotone | market_condition_app_v4_15_premium_plus.py:996-997 | linearly interpolated quantiles of sorted prices lie between the least and greatest price and are ordered like their levels |
| Stats.Quantile | market_condition_app_v4_15_premium_plus.py:996-997 | pandas' linear-interpolation quantile at a quarter level, taken over the sorted prices; `QuantileMonotone` and `Diagnostics.QuartilesOrdered` state its range and order |
| Stats.MedianBetween | market_condition_app_v4_15_premium_plus.py:872-873 | a month's median lies between two of that month's prices |
| Stats.MedianPositive | market_condition_app_v4_15_premium_plus.py:872-873 | positive prices give a positive median |
| MonthlyIndex.GroupByMonth | market_condition_app_v4_15_premium_plus.py:868-874 | groups are strictly ascending by month, each keyed by a first-of-month date with at least one price, and hold exactly the prices of that month's sales |
| MonthlyIndex.GroupHasSales | market_condition_app_v4_15_premium_plus.py:868-874 | no group is made up: every group's month has sales, and the group holds exactly them |
| MonthlyIndex.MonthWithSalesHasGroup | market_condition_app_v4_15_premium_plus.py:868-874 | no month with a sale is dropped |
| MonthlyIndex.ChainIndex | market_condition_app_v4_15_premium_plus.py:879-888 | the index has one value per month, starts at exactly 1.00, and each later value is the previous one times the median ratio, or the previous one when the previous median is zero |
| MonthlyIndex.ChainIndexTelescopes | market_condition_app_v4_15_premium_plus.py:879-888 | with no zero median, each month's index is its median over the first month's median |
| MonthlyIndex.ChainIndexCarriesForward | market_condition_app_v4_15_premium_plus.py:885-886 | after a zero median the index value is carried forward unchanged |
| MonthlyIndex.ChainIndexPrefix | market_condition_app_v4_15_premium_plus.py:879-888 | adding later months never changes earlier index values |
| MonthlyIndex.TableOfChainLinked | market_condition_app_v4_15_premium_plus.py:879-888 | the table's first index value is 1.00 and every later one follows the chain rule from the previous row |
| MonthlyIndex.MonthlyTableChainLinked | market_condition_app_v4_15_premium_plus.py:865-890 | the monthly table built from any sales obeys the chain rule |
| MonthlyIndex.MonthlyTable | market_condition_app_v4_15_premium_plus.py:865-890 | the table of `build_monthly_index_price` for some sales; its rows are stated by `MonthlyTableRows`, `MonthlyTableCoversSales` and `MonthlyTableChainLinked` |
| MonthlyIndex.FillIndex | market_condition_app_v4_15_premium_plus.py:879-888 | the row-by-row loop fills exactly the chained index |
| MonthlyIndex.BuildMonthlyIndex | market_condition_app_v4_15_premium_plus.py:865-890 | the built table is the monthly table of the sales and obeys the chain rule |
| MonthlyIndex.MonthlyTableRows | market_condition_app_v4_15_premium_plus.py:868-877 | each row has a first-of-month date and a count of at least 1. The count is that month's number of sales and the median is the median of its prices. The thin flag holds exactly when the count is below the minimum. Later rows have strictly later months |
| MonthlyIndex.MonthlyTableCoversSales | market_condition_app_v4_15_premium_plus.py:868-874 | every sale's month has a row, so thin months are flagged, never removed |
| MonthlyIndex.MonthlyIndexOfPositivePrices | market_condition_app_v4_15_premium_plus.py:879-888 | with positive prices every index value is positive and equals the month's median over the first month's median |
| MonthlyIndex.PricesInCount | market_condition_app_v4_15_premium_plus.py:871-873 | a month's sales count never exceeds the number of sales, and is zero for a month with no sale |
| Smoothing.SmoothWindow | market_condition_app_v4_15_premium_plus.py:894 | the window is the requested width when that is 2 or more, and exactly 2 otherwise |
| Smoothing.WindowAround | market_condition_app_v4_15_premium_plus.py:896-900 | each centred window contains its own month and at most `w` months, and exactly `w` where it fits inside the series |
| Smoothing.RollingMean | market_condition_app_v4_15_premium_plus.py:896-900 | one value per raw value, each the mean over its centred window; `SmoothedWithinWindow`, `SmoothedPositive` and `SmoothingKeepsConstant` state its bounds |
| Smoothing.MeanBounds | market_condition_app_v4_15_premium_plus.py:896-900 | a mean lies within any bounds of the values averaged |
| Smoothing.SmoothedWithinWindow | market_condition_app_v4_15_premium_plus.py:896-900 | each smoothed value lies within any bounds of the raw values in its window |
| Smoothing.SmoothedPositive | market_condition_app_v4_15_premium_plus.py:896-900 | a positive raw index has a positive smoothed index |
| Smoothing.SmoothingKeepsConstant | market_condition_app_v4_15_premium_plus.py:896-900 | smoothing leaves a flat index unchanged |
| Smoothing.WithSmoothed | market_condition_app_v4_15_premium_plus.py:896-900 | the monthly rows with the rolling mean of their raw index over the clamped window attached, one row per month; `BuildIndex` and `IndexTablePositive` state its content |
| Smoothing.BuildIndex | market_condition_app_v4_15_premium_plus.py:1004-1016 | the index table is the monthly table with its rolling mean attached. The first raw value is 1.00 and each smoothed value is the rolling mean of the raw column over the clamped window |
| Smoothing.IndexTablePositive | market_condition_app_v4_15_premium_plus.py:1004-1016 | with positive prices both the raw and the smoothed index are positive in every month |
| Lookup.FirstRowOf | market_condition_app_v4_15_premium_plus.py:923-926 | finds the first row whose month is the target month |
| Lookup.LatestPrior | market_condition_app_v4_15_premium_plus.py:927-931 | picks a row at or before the target month, with no later such month; among rows with that month it picks the last |
| Lookup.LookupIndex | market_condition_app_v4_15_premium_plus.py:920-931 | `no_index` exactly for an empty index or no date; a value and a used month exactly in modes `exact` and `prior` |
| Lookup.LookupExact | market_condition_app_v4_15_premium_plus.py:923-926 | `exact` exactly when the target's month has a row; it returns the first such row's value and the target's month |
| Lookup.LookupPrior | market_condition_app_v4_15_premium_plus.py:927-931 | `prior` exactly when the target's month has no row but an earlier month does; it returns the value of a latest earlier month, and that month |
| Lookup.LookupNoPrior | market_condition_app_v4_15_premium_plus.py:927-929 | `no_prior` exactly when every row's month comes after the target's month |
| Lookup.LookupNeverLooksAhead | market_condition_app_v4_15_premium_plus.py:920-931 | the month used is never after the target's month |
| Lookup.LookupOwnMonth | market_condition_app_v4_15_premium_plus.py:923-926 | in a strictly ascending index, any day of a row's month resolves `exact` to that row |
| Lookup.SaleDatesResolveExactly | market_condition_app_v4_15_premium_plus.py:920-931 | in the index built from some sales, every one of those sales' dates resolves `exact` to its own month |
| Adjustment.PctChange | market_condition_app_v4_15_premium_plus.py:836-839 | undefined exactly when either index is missing or the contract index is zero; otherwise contract index times (1 + change) is the effective index |
| Adjustment.PctChangeSign | market_condition_app_v4_15_premium_plus.py:836-839 | with a positive contract index the change is zero, positive or negative exactly as the effective index is equal, higher or lower |
| Adjustment.Categorize | market_condition_app_v4_15_premium_plus.py:844-852 | "N/A" exactly when undefined; "Increasing" exactly above the threshold; "Declining" exactly below its negative; "Stable" exactly in between, bounds included |
| Adjustment.DirectionOf | market_condition_app_v4_15_premium_plus.py:854-860 | "NO ADJUSTMENT" exactly when undefined or smaller in magnitude than the threshold; otherwise "UPWARD" or "DOWNWARD" by sign |
| Adjustment.LabelsAgree | market_condition_app_v4_15_premium_plus.py:844-860 | at the default thresholds 0.5 and 0.1: "Increasing" implies "UPWARD", "Declining" implies "DOWNWARD", and "NO ADJUSTMENT" implies "Stable" or "N/A" |
| Adjustment.ThresholdsDiffer | market_condition_app_v4_15_premium_plus.py:844-860 | an example, not a general property: a 0.3 percent change is "Stable" yet "UPWARD", which shows the two thresholds give different answers |
| Adjustment.ComputeAdjustments | market_condition_app_v4_15_premium_plus.py:2428-2443 | one row per comparable, in order. Each row carries the day distance to the effective date, and is applied exactly when that distance reaches the window. A row not applied has percent and dollars exactly 0, "Stable" and "NO ADJUSTMENT". The result is the adjustment table of the specification function |
| Adjustment.ZeroOutsideWindow | market_condition_app_v4_15_premium_plus.py:2439-2440 | percent and dollars become 0 on rows not applied, and every other row is unchanged |
| Adjustment.AdjustmentOf | market_condition_app_v4_15_premium_plus.py:2428-2443 | the adjustment row of one comparable; `AdjustedPriceFollowsIndex`, `AppliedPctUndefinedIff`, `NoEffectiveIndex`, `SameDaySale` and `SameIndexNoChange` state its content |
| Adjustment.Adjustments | market_condition_app_v4_15_premium_plus.py:2428-2443 | one adjustment row per comparable, in input order, all against the one effective index; `ComputeAdjustments` is proved to produce it |
| Adjustment.AdjustedPriceFollowsIndex | market_condition_app_v4_15_premium_plus.py:2433-2437 | an applied, defined adjustment makes price plus adjustment equal to the price times the effective index over the contract index |
| Adjustment.AppliedPctUndefinedIff | market_condition_app_v4_15_premium_plus.py:2433-2437 | an applied percentage is undefined, never zero, exactly when an index is missing or the contract index is zero. The dollars are then undefined too, and the labels are "N/A" and "NO ADJUSTMENT" |
| Adjustment.NoEffectiveIndex | market_condition_app_v4_15_premium_plus.py:2387-2388 | without an effective index every applied row is undefined and every row not applied is 0 |
| Adjustment.SameDaySale | market_condition_app_v4_15_premium_plus.py:2430-2431 | a sale on the effective date is applied exactly when the window is zero days or less |
| Adjustment.SameIndexNoChange | market_condition_app_v4_15_premium_plus.py:2433-2443 | equal non-zero contract and effective index values give a zero adjustment, "Stable" and "NO ADJUSTMENT" |
| Diagnostics.IqrFlags | market_condition_app_v4_15_premium_plus.py:994-1001 | one flag per price, the same length as the input |
| Diagnostics.QuartilesOrdered | market_condition_app_v4_15_premium_plus.py:996-998 | Q1 is at most Q3, and both lie within the range of the prices |
| Diagnostics.InnerPricesNotFlagged | market_condition_app_v4_15_premium_plus.py:994-1001 | with `k ≥ 0` no price between Q1 and Q3 is flagged |
| Diagnostics.FlaggedOutsideQuartiles | market_condition_app_v4_15_premium_plus.py:994-1001 | with `k ≥ 0` every flagged price lies below Q1 or above Q3 |
| Diagnostics.FlagsShrinkAsMultiplierGrows | market_condition_app_v4_15_premium_plus.py:999-1001 | a price flagged with a larger multiplier is flagged with every smaller one |
| Diagnostics.FlatPricesNotFlagged | market_condition_app_v4_15_premium_plus.py:994-1001 | when all prices are equal, nothing is flagged |
| Diagnostics.ReasonEmptyIffUnflagged | market_condition_app_v4_15_premium_plus.py:1905-1917 | the reason label is empty exactly when the record is not flagged |
| Diagnostics.ReasonLength | market_condition_app_v4_15_premium_plus.py:1908-1916 | the eight possible labels ("", "IQR", …, "IQR + Price Dev + Cook's D") have eight different lengths |
| Diagnostics.ReasonDeterminesFlags | market_condition_app_v4_15_premium_plus.py:1908-1916 | equal reason labels mean equal flag triples, so the label records exactly which flags fired |
| Diagnostics.FlagReason | market_condition_app_v4_15_premium_plus.py:1908-1916 | the names of the flags that fired, in fixed order, joined with " + "; `ReasonEmptyIffUnflagged`, `ReasonLength` and `ReasonDeterminesFlags` state what it records |
| Diagnostics.Diagnose | market_condition_app_v4_15_premium_plus.py:1893-1917 | one diagnosis per record |
| Diagnostics.DiagnoseFlagsIff | market_condition_app_v4_15_premium_plus.py:1893-1917 | a record is flagged exactly when the switched-on IQR rule fired, or the switched-on regression rule fired with at least six records. Its reason is empty exactly when it is not flagged |
| Diagnostics.NothingFlaggedWhenOff | market_condition_app_v4_15_premium_plus.py:946-951 | with IQR off, and regression off or fewer than six records, no record is flagged and every reason is empty |
| History.FirstMatch | market_condition_app_v4_15_premium_plus.py:84-89 | none exactly when no entry has the same address and effective date; otherwise the first such entry |
| History.FindExisting | market_condition_app_v4_15_premium_plus.py:84-89 | the scan loop returns exactly the first entry with the same address and effective date, or none when there is no such entry |
| History.ReportHistory.Save | market_condition_app_v4_15_premium_plus.py:84-97 | the new list is the saved history of the old one, and holds at most 50 entries |
| History.ReportHistory.Delete | market_condition_app_v4_15_premium_plus.py:132-135 | the new list is the old one without the entries carrying the id |
| History.Saved | market_condition_app_v4_15_premium_plus.py:84-97 | the history after a save; `SaveReplacesInPlace`, `SaveInsertsAtFront`, `SavedReportKept`, `SaveKeepsKeysUnique` and `SaveIdempotent` state its content |
| History.WithoutId | market_condition_app_v4_15_premium_plus.py:135 | the history after deleting an id; `DeleteRemovesId`, `DeleteKeepsOthers`, `DeleteKeepsOrder`, `DeleteAbsentId` and `DeleteIdempotent` state its content |
| History.SaveReplacesInPlace | market_condition_app_v4_15_premium_plus.py:91-92 | saving over an existing entry keeps the length, puts the report at that entry's position, and leaves every other entry unchanged |
| History.SaveInsertsAtFront | market_condition_app_v4_15_premium_plus.py:93-97 | a new address and date go first, followed by the old list, which loses its oldest entry when it was full |
| History.SavedReportKept | market_condition_app_v4_15_premium_plus.py:84-97 | from a history of at most 50, the report just saved is always kept |
| History.SaveKeepsKeysUnique | market_condition_app_v4_15_premium_plus.py:84-97 | if no two entries shared an address and date before the save, none do after it |
| History.SaveIdempotent | market_condition_app_v4_15_premium_plus.py:84-97 | saving the same report twice is the same as saving it once |
| History.DeleteRemovesId | market_condition_app_v4_15_premium_plus.py:135 | no remaining entry carries the deleted id |
| History.DeleteKeepsOthers | market_condition_app_v4_15_premium_plus.py:135 | every entry with another id remains, and nothing is added |
| History.DeleteKeepsOrder | market_condition_app_v4_15_premium_plus.py:135 | deletion acts on each part of the list separately, so the remaining entries keep their order |
| History.DeleteAbsentId | market_condition_app_v4_15_premium_plus.py:135 | deleting an id that no entry carries changes nothing |
| History.DeleteIdempotent | market_condition_app_v4_15_premium_plus.py:135 | deleting twice is the same as deleting once |

## Left out

- Streamlit UI, step navigation, widget state, charts, the table image, the PDF and ZIP exports, and the narrative text: these are presentation.
- History file I/O (`load_history`, `save_history`) and restoring a report (`load_report_from_history`): these are filesystem and CSV work. Only the in-memory list update is modelled.
- The report id and timestamp come from the clock. They are fields of the report passed to `Save`.
- Stored history entries are assumed to carry every key. The source reads them with `dict.get`, so an entry missing its address or date never matches.
- CSV ingestion and date and price parsing: these are pandas inference the model cannot see. Sales arrive as a date and a real price each.
- Rows with a missing date or price, and pandas' NaN prices: such rows are dropped before grouping, so sales always carry both.
- `month_start` on strings and timestamps: the model takes a `date` only.
- `days_between` goes through `pd.Timestamp`, which only represents years 1677 to 2262. The model uses Python's ordinal for years 1 to 9999.
- Floating point: all arithmetic is exact over the reals, so rounding in the median ratio, the rolling mean and the quartiles is not modelled.
- `Index_Std` (a rolling standard deviation, which needs a square root), `Index_Regression` (`np.polyfit`), and therefore the regression index column in lookups: floating-point numerics with no exact-real counterpart.
- `cooks_distance_time_regression` (logarithm, matrix inverse or pseudo-inverse, `np.std`): only its rule that fewer than six records raise no flag is modelled. Its flags otherwise come in as an input.
- The `st.cache_data` memoisation of `build_index_cached` and `compute_iqr_flags_cached`: this is a performance cache only.
- Diagnostics.IqrFlags: invariance of the flags under scaling every price by one positive factor is not proved; the flags are characterised by `QuartilesOrdered`, `InnerPricesNotFlagged`, `FlaggedOutsideQuartiles`, `FlagsShrinkAsMultiplierGrows` and `FlatPricesNotFlagged` instead.
- Lookup.LatestPrior: the source sorts the earlier rows with pandas' default sort, which is not stable. For rows sharing a month the model picks the last in order. An index built by `build_monthly_index_price` has distinct months, so this case does not arise from it.
- Adjustment.ComputeAdjustments: the final `sort_values("ContractDate")` of the output table is a display ordering and is not modelled. The rows keep the order of the input sequence.
- The trend lookback, the overall trend label and the manual trend override at lines 2390-2418 are display-only: they feed the on-screen header (line 2482), the narrative (lines 2469-2470) and the table image (lines 1303-1304, 2598).
- The quarterly-median tiles and the rolling IQR band overlay are display-only computations.
