# Inventory health report, modelled in Dafny

This project models the analysis part of the Pike Creek Community Hardware
inventory health report (`inventory_health_report.py`). The script loads
the store's `items` table and derives three columns per item:

- days since the last sale;
- value at cost;
- potential lost margin.

It then runs four analyses over the table:

1. replacement-SKU overstock;
2. negative quantity on hand (QOH);
3. dead stock;
4. a financial summary.

Here the table is a `seq<Item>` in load order, and the reference date (fixed
to 2025-12-17 in the script) is a parameter. Every analysis is a pure
function: a filter, a fold, an argmin or a quantile over that sequence.

Modules:

- `Calendar` (`calendar.dfy`): proleptic-Gregorian dates and day ordinals
  (Python's `toordinal`). Subtracting ordinals gives the whole-day difference
  the script takes with `.dt.days`.
- `Text` (`text.dfy`): case-insensitive substring search.
- `Folds` (`folds.dfy`): boolean-mask selection (`Filter`), column sums and
  column extraction, with lemmas for concatenation and permutation.
- `Stats` (`stats.dfy`): insertion sort, first-minimum index (`idxmin`) and
  numpy's linear quantile.
- `HealthReport` (`report.dfy`): the item record, the derived columns, the
  four rules and the report record.
- `ReportProperties` (`properties.dfy`): properties that relate several
  tables or orderings: permutation invariance, load order, and `idxmin`
  over the whole table.
- `SampleRows` (`samples.dfy`): rows of the repository's sample data,
  checked against the rules.
- `Wrappers` (`wrappers.dfy`): `Option`, used for nullable columns.

Modelling choices:

- Money is an exact `real`, and quantities are `int`.
- A stored date goes through the same coercion as `pd.to_datetime(...,
  errors='coerce')`. A triple that is not a calendar day becomes missing. So
  does a day outside the range of a nanosecond timestamp (1677-09-22 to
  2262-04-11).
- The description pattern `repl|replacement|new` is matched with ASCII case
  folding. For the letters of these keywords this is exactly what Python's
  case-insensitive regex does: no non-ASCII character folds to any of them.
- The quantile uses numpy's "linear" method, which is the pandas default:
  virtual index `0.9 * (n - 1)`, interpolating between the two values
  around it. For an empty table the quantile is missing (NaN in pandas),
  and then nothing is overstock.
- The row DEAD-10001 (last sold 2022-03-15) is 1373 days stale at the
  reference date 2025-12-17 by the script's day arithmetic
  (`SampleRows.ObsoleteBulbIsDeadStock`).
- The day-count column is computed with 64-bit nanosecond time differences.
  A sale date 106752 or more days from the reference date makes that
  subtraction overflow, and the script stops with an error before it prints
  any section. `HealthReport.RunReport` models one run: no report in that
  case, the report otherwise. For 2025-12-17 the affected dates are those up
  to 1733-09-07.

## Model

| member | source | states |
|---|---|---|
| Calendar.OrdinalNextDay | inventory_health_report.py:119 | consecutive calendar days have consecutive ordinals, across month ends, year ends and leap days, so ordinal differences count days |
| Calendar.OrdinalOrder | inventory_health_report.py:119 | ordinals order valid dates exactly as the calendar does; two dates share an ordinal only if they are the same day |
| HealthReport.CoerceDate | inventory_health_report.py:41 | a stored sale date survives conversion exactly when it is a real calendar day within the timestamp range (read in calendar order), and then it is unchanged; anything else becomes missing |
| HealthReport.DaysSinceLastSale | inventory_health_report.py:119 | days since last sale is missing exactly when there is no usable sale date; it is positive exactly when the sale came before the reference date, and zero exactly when the sale was on it |
| Calendar.OrdinalAddDays | inventory_health_report.py:119 | stepping `n` calendar days forward adds exactly `n` to the ordinal, so an ordinal difference is a count of days |
| HealthReport.SpanOverflowsIff | inventory_health_report.py:119 | the nanosecond difference behind a row's day count leaves the signed 64-bit range exactly when the sale is 106752 or more days from the reference date, on either side |
| HealthReport.RunReport | inventory_health_report.py:116-181 | a run stops without a report exactly when some row's day span overflows; otherwise it yields the report |
| HealthReport.DaysSinceLastSaleNextDay | inventory_health_report.py:116-119 | moving the reference date one day later adds exactly one day to every defined count and leaves missing counts missing |
| HealthReport.ValueAtCost | inventory_health_report.py:120 | value at cost is unclamped: with a positive cost it is negative for negative stock and positive for positive stock; it is zero exactly when qoh or cost is zero |
| HealthReport.LostMargin | inventory_health_report.py:121 | lost margin is 0 when qoh <= 0; otherwise it is retail value minus cost value of the stock; it is never negative when retail >= cost |
| Text.ContainsIgnoreCase | inventory_health_report.py:133 | the search succeeds exactly when the pattern occurs at some offset, ignoring ASCII case |
| HealthReport.MatchesReplacement | inventory_health_report.py:133 | a description matches exactly when "repl" or "new" occurs in it, ignoring case, so the "replacement" keyword adds nothing; a missing description never matches |
| Stats.Sort | inventory_health_report.py:134 | the sorted qoh column is ascending and holds exactly the input values (a permutation) |
| Stats.SortedUnique | inventory_health_report.py:134 | two ascending sequences with the same values are equal, so the sorted column does not depend on row order |
| Stats.LinearQuantile | inventory_health_report.py:134 | the interpolated quantile lies between the smallest and the largest value |
| HealthReport.QohThreshold | inventory_health_report.py:134 | the 0.9 quantile of qoh over all rows, negatives included, is missing exactly for an empty table; otherwise it lies between some row's qoh and some row's qoh |
| HealthReport.ReplacementOverstock | inventory_health_report.py:132-135 | a row is selected iff its description matches and its qoh is strictly above the threshold of the whole table |
| HealthReport.UniformStockHasNoOverstock | inventory_health_report.py:132-135 | when every row holds the same qoh, no row is replacement overstock |
| Stats.QuantileTopShare | inventory_health_report.py:134 | of `n` sorted values, at most `n - 1 - floor(p * (n - 1))` lie strictly above their `p` quantile |
| ReportProperties.OverstockWithinTopTenth | inventory_health_report.py:132-135 | whatever the descriptions, at most `n - 1 - floor(0.9 * (n - 1))` of `n` rows are replacement overstock: only rows above the lower neighbour of the quantile's virtual index can be selected |
| Folds.Filter | inventory_health_report.py:147 | a boolean-mask selection holds exactly the rows of the table that satisfy the condition |
| Folds.FilterConcat | inventory_health_report.py:147 | selection distributes over concatenation, so the selected rows keep load order |
| HealthReport.NegativeQoh | inventory_health_report.py:147 | the negative subset holds exactly the rows with qoh < 0 |
| HealthReport.MissingUnits | inventory_health_report.py:152 | total missing units are at most minus the number of negative rows; the total is negative exactly when some row is negative, and zero otherwise |
| Stats.FirstMinIndex | inventory_health_report.py:150 | the index holds a minimum and every earlier entry is strictly larger (first occurrence, as `idxmin`) |
| HealthReport.MostNegative | inventory_health_report.py:148-150 | missing exactly when no row is negative; otherwise it is a negative row whose qoh is at most every negative row's, and every negative row before it has strictly larger qoh |
| ReportProperties.MostNegativeIsFirstMinimum | inventory_health_report.py:147-150 | the most negative row is the first row of the whole table that holds the table's minimum qoh |
| HealthReport.ShrinkCost | inventory_health_report.py:153 | the shrink estimate is never negative, and it is 0 when no row is negative |
| ReportProperties.ShrinkIsMissingValue | inventory_health_report.py:153 | when no cost is negative, the shrink estimate is exactly the negated value at cost of the negative rows |
| HealthReport.DeadStock | inventory_health_report.py:162 | a row is dead stock iff it has a usable sale date more than 547 days before the reference date and qoh > 0 |
| HealthReport.DeadStockIff | inventory_health_report.py:119-162 | dead stock read on the calendar: stock is on hand, the sale date is usable, and the day 548 calendar days after it is on or before the reference date |
| HealthReport.NoSaleDateNeverDead | inventory_health_report.py:162 | a row without a usable sale date is never dead stock, whatever its qoh |
| HealthReport.DeadStockPersists | inventory_health_report.py:162 | a row that is dead stock stays dead stock when the reference date moves one day later |
| ReportProperties.SectionsKeepLoadOrder | inventory_health_report.py:147-162 | the negative and dead-stock sections of two concatenated tables are the two tables' sections, concatenated |
| HealthReport.FinancialSummary | inventory_health_report.py:178-181 | the guarded dead-stock value is the value at cost of the dead-stock rows (0 when there are none); the shrink figure is the negative section's shrink; the lost margin is never negative when every retail price is at least the cost |
| HealthReport.BuildReport | inventory_health_report.py:132-181 | the count covers all dead rows while the listing is their first min(15, count) rows in load order; the summary's guarded dead value and shrink equal the section figures; with no negative rows the shrink and missing units are 0 |
| Folds.SumPermutation | inventory_health_report.py:178-181 | a column sum does not depend on row order |
| ReportProperties.ThresholdPermutation | inventory_health_report.py:134 | the qoh threshold does not depend on row order |
| ReportProperties.ReportPermutationInvariant | inventory_health_report.py:132-181 | reordering the rows changes no count or total of the report (the overstock value, missing units, shrink, dead count and value, and the whole summary) and selects the same rows in each section; the most negative qoh is unchanged |
| SampleRows.ObsoleteBulbIsDeadStock | inventory_health_report.py:85-86 | DEAD-10001, last sold 2022-03-15, is 1373 days stale at 2025-12-17 and is dead stock |
| SampleRows.UnsoldCaulkIsNotDeadStock | create_inventory_db.py:35 | row 22222, never sold, has no day count and is not dead stock |
| SampleRows.WidgetPairThreshold | create_inventory_db.py:28-29 | for qoh -50 and 450 the 0.9 quantile is 400 |
| SampleRows.WidgetPairOverstock | create_inventory_db.py:28-29 | of the widget pair, only the replacement (qoh 450 > 400) is overstock |
| SampleRows.SeededNegativeRows | create_inventory_db.py:27-40 | of the twelve seeded rows, the negative ones are 12345, 67890 and 11111, in load order |
| SampleRows.SeededMissingUnits | create_inventory_db.py:27-40 | the seeded table misses 11283 units |
| SampleRows.SeededMostNegative | create_inventory_db.py:27-40 | in the seeded table, 11111 (qoh -11033) is the most negative row |
| SampleRows.SeededShrinkCost | create_inventory_db.py:27-40 | the seeded table's shrink estimate is 52023.50 at cost |
| SampleRows.SeededDeadStock | create_inventory_db.py:27-40 | the seeded table's dead stock at 2025-12-17 is 98765 (712 days) and 55555 (1347 days); 12345 and 67890 are stale but hold no stock |
| SampleRows.SeededTableRuns | create_inventory_db.py:27-40 | no seeded row's day span overflows, so a run on the seeded table yields the report |
| SampleRows.AncientSaleAborts | inventory_health_report.py:119 | a sale on 1700-01-01 is a valid timestamp 119054 days before 2025-12-17, and a table holding it yields no report |
| SampleRows.OverflowBoundary | inventory_health_report.py:119 | at 2025-12-17 a sale on 1733-09-07 overflows and one on 1733-09-08 does not |
| SampleRows.TiedNegativesFollowLoadOrder | inventory_health_report.py:150 | with two rows tied at the minimum, the row loaded first is named, so swapping them changes the named row |

## Left out

- Loading (`connect_and_fetch`, inventory_health_report.py:22-49): the SQLite query and the catch-all fallback to sample data are I/O. The model starts from "the table is some sequence of rows".
- `generate_sample_data` (inventory_health_report.py:52-110) is a fixture that draws random rows. Some of its fixed rows appear as test vectors in `SampleRows`.
- Printing (inventory_health_report.py:123-189): headers, currency formatting and `to_string` are output only. The report record carries the values the script prints.
- Floating point: pandas/NumPy sums and products, and the binary value of 0.9, are replaced by exact reals. Rounding is not modelled.
- Date-string parsing by `pd.to_datetime`: dates arrive as (year, month, day) triples or missing. Only the coercion of impossible or out-of-range days is modelled.
- Missing numeric values (a NULL qoh, cost or retail price, which pandas reads as NaN) are not modelled: these columns are plain numbers.
- General regular expressions: only the fixed keyword alternation is modelled. Case folding is ASCII-only; for these keywords it matches Python's case-insensitive matching.
- `last_received_date` and `status` are carried in the record, but no rule reads them.
- The wall clock: the reference date is a parameter (`today`).
- create_inventory_db.py and test_db.py hold no report logic (schema creation, inserts and an unrelated demo table). Rows of the former serve as test vectors.
- Which tied row is named as most negative depends on load order, so the permutation lemma does not claim that row is order-independent. Ties go to the row loaded first (`SampleRows.TiedNegativesFollowLoadOrder`). Only its qoh is invariant.
- HealthReport.DaysSinceLastSale: the column is an unbounded day count. The 64-bit overflow of a span of 106752 days or more is not modelled inside the column. It is modelled as the abort of the whole run (`HealthReport.RunReport`).
- HealthReport.MissingUnits: quantities are unbounded integers. pandas holds `qoh` as int64, and numpy's sum wraps past 2^63 without an error. The model does not reproduce that wrap-around.
