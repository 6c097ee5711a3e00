/** The inventory health report: the derived columns of each item and the
    four analyses over the loaded table, with the reference date as a parameter. */
module HealthReport {
  import opened Wrappers
  import opened Calendar
  import opened Text
  import opened Folds
  import opened Stats

  /** One row of the items table, in the column order of the loading query. */
  datatype Item = Item(
    sku: string,
    description: Option<string>,
    qoh: int,
    cost: real,
    retail: real,
    lastSold: Option<Date>,
    lastReceived: Option<Date>,
    status: string)

  /** Days without a sale after which positive stock is dead (18 months). */
  const DeadStockDays: int := 547
  /** Rows of the dead-stock section that are listed. */
  const DeadStockListingRows: nat := 15
  /** The quantile of quantity on hand that a replacement item must exceed. */
  const OverstockQuantile: real := 0.9
  /** The alternatives of the description pattern, matched ignoring case. */
  const ReplacementKeywords: seq<string> := ["repl", "replacement", "new"]

  /** The first and last days a nanosecond timestamp can hold at midnight. */
  const FirstTimestampDay: CalendarDate := Date(1677, 9, 22)
  const LastTimestampDay: CalendarDate := Date(2262, 4, 11)

  // ---------------------------------------------------------------- loading

  /** Date conversion with coercion: a stored date survives only if it names a
      real day that a timestamp can hold; anything else becomes missing. The
      range is read in calendar order. */
  function CoerceDate(d: Option<Date>): (r: Option<CalendarDate>)
    ensures r.Some? ==> d.Some? && r.value == d.value
    ensures r.Some? <==>
      d.Some? && ValidDate(d.value)
      && !Before(d.value, FirstTimestampDay) && !Before(LastTimestampDay, d.value)
  {
    match d
    case None => None
    case Some(x) =>
      if ValidDate(x) then
        OrdinalOrder(x, FirstTimestampDay);
        OrdinalOrder(LastTimestampDay, x);
        if Ordinal(FirstTimestampDay) <= Ordinal(x) <= Ordinal(LastTimestampDay) then Some(x) else None
      else None
  }

  // -------------------------------------------------------- derived columns

  /** Whole days from the last sale to the reference date; missing exactly
      when the item has no usable sale date. The count is positive exactly when
      the sale came before the reference date, and zero when it was on it. */
  function DaysSinceLastSale(today: CalendarDate, it: Item): (days: Option<int>)
    ensures days.None? <==> CoerceDate(it.lastSold).None?
    ensures days.Some? ==> (days.value > 0 <==> Before(CoerceDate(it.lastSold).value, today))
    ensures days.Some? ==> (days.value == 0 <==> CoerceDate(it.lastSold).value == today)
  {
    match CoerceDate(it.lastSold)
    case None => None
    case Some(d) =>
      OrdinalOrder(d, today);
      Some(Ordinal(today) - Ordinal(d))
  }

  /** A day later, every item with a sale date is exactly one day staler. */
  lemma DaysSinceLastSaleNextDay(today: CalendarDate, it: Item)
    ensures DaysSinceLastSale(NextDay(today), it).Some? <==> DaysSinceLastSale(today, it).Some?
    ensures DaysSinceLastSale(today, it).Some? ==>
      DaysSinceLastSale(NextDay(today), it).value == DaysSinceLastSale(today, it).value + 1
  {
    OrdinalNextDay(today);
  }

  /** The sign of a product with a positive factor is the sign of the other factor. */
  lemma ProductSign(a: real, b: real)
    ensures b > 0.0 ==> (a * b < 0.0 <==> a < 0.0)
    ensures b > 0.0 ==> (a * b > 0.0 <==> a > 0.0)
  {
    if a < 0.0 && b > 0.0 {
      assert a * b == -((-a) * b);
    }
  }

  /** Stock valued at cost, with no clamping: negative stock has negative value. */
  function ValueAtCost(it: Item): (v: real)
    ensures it.cost > 0.0 ==> (v < 0.0 <==> it.qoh < 0) && (v > 0.0 <==> it.qoh > 0)
    ensures v == 0.0 <==> it.qoh == 0 || it.cost == 0.0
  {
    ProductSign(it.qoh as real, it.cost);
    it.qoh as real * it.cost
  }

  /** Gross margin the stock would earn if sold at retail; zero unless stock is positive. */
  function LostMargin(it: Item): (m: real)
    ensures it.qoh <= 0 ==> m == 0.0
    ensures it.qoh > 0 ==> m == ValueAtCost(it.(cost := it.retail)) - ValueAtCost(it)
    ensures it.retail >= it.cost ==> m >= 0.0
  {
    if it.qoh > 0 then
      ProductSign(it.retail - it.cost, it.qoh as real);
      it.qoh as real * (it.retail - it.cost)
    else 0.0
  }

  function Qoh(it: Item): int {
    it.qoh
  }

  function Abs(x: real): real {
    if x < 0.0 then -x else x
  }

  // ------------------------------------------------ 1. replacement overstock

  /** The description matches one of the keywords, ignoring case; a missing
      description never matches. "replacement" adds nothing to the pattern:
      the match holds exactly when "repl" or "new" occurs at some offset. */
  function MatchesReplacement(description: Option<string>): (m: bool)
    ensures m <==>
      description.Some? &&
      ((exists i :: MatchesAt(description.value, "repl", i)) || (exists i :: MatchesAt(description.value, "new", i)))
  {
    if description.None? then false
    else
      var s := description.value;
      assert ReplacementKeywords[0] == "repl" && ReplacementKeywords[2] == "new";
      assert ContainsIgnoreCase(s, "replacement") ==> ContainsIgnoreCase(s, "repl") by {
        if ContainsIgnoreCase(s, "replacement") {
          ContainsPrefix(s, "replacement", 4);
          assert "replacement"[..4] == "repl";
        }
      }
      assert (exists k :: k in ReplacementKeywords && ContainsIgnoreCase(s, k)) <==>
        ContainsIgnoreCase(s, "repl") || ContainsIgnoreCase(s, "replacement") || ContainsIgnoreCase(s, "new");
      exists k :: k in ReplacementKeywords && ContainsIgnoreCase(s, k)
  }

  /** The quantity column of the table. */
  function Qohs(rows: seq<Item>): seq<int> {
    Map(rows, Qoh)
  }

  /** The 0.9 quantile of quantity on hand over all rows, negatives included;
      missing for an empty table. It lies between the smallest and largest quantity. */
  function QohThreshold(rows: seq<Item>): (t: Option<real>)
    ensures t.None? <==> |rows| == 0
    ensures t.Some? ==> exists i :: 0 <= i < |rows| && rows[i].qoh as real <= t.value
    ensures t.Some? ==> exists j :: 0 <= j < |rows| && t.value <= rows[j].qoh as real
  {
    if |rows| == 0 then None
    else
      var sorted := Sort(Qohs(rows));
      var q := LinearQuantile(sorted, OverstockQuantile);
      assert sorted[0] in multiset(Qohs(rows)) && sorted[|sorted| - 1] in multiset(Qohs(rows));
      Some(q)
  }

  /** An item is overstocked replacement stock when its description matches and
      its quantity is strictly above the threshold. */
  predicate IsReplacementOverstock(threshold: Option<real>, it: Item) {
    MatchesReplacement(it.description) && threshold.Some? && it.qoh as real > threshold.value
  }

  function OverstockRule(threshold: Option<real>): Item -> bool {
    it => IsReplacementOverstock(threshold, it)
  }

  /** Rule 1: the matching rows above the quantity threshold, in load order. */
  function ReplacementOverstock(rows: seq<Item>): (r: seq<Item>)
    ensures forall it :: it in r <==>
      it in rows && MatchesReplacement(it.description)
      && QohThreshold(rows).Some? && it.qoh as real > QohThreshold(rows).value
  {
    Filter(rows, OverstockRule(QohThreshold(rows)))
  }

  /** When every row holds the same quantity, nothing is above the threshold. */
  lemma UniformStockHasNoOverstock(rows: seq<Item>)
    requires forall i, j :: 0 <= i < |rows| && 0 <= j < |rows| ==> rows[i].qoh == rows[j].qoh
    ensures ReplacementOverstock(rows) == []
  {
    var t := QohThreshold(rows);
    if |rows| > 0 {
      assert forall it :: it in rows ==> it.qoh as real <= t.value;
    }
    FilterNone(rows, OverstockRule(t));
  }

  // ------------------------------------------------------ 2. negative QOH

  predicate IsNegative(it: Item) {
    it.qoh < 0
  }

  /** Rule 2: the rows with negative quantity on hand, in load order. */
  function NegativeQoh(rows: seq<Item>): (r: seq<Item>)
    ensures forall it :: it in r <==> it in rows && it.qoh < 0
  {
    Filter(rows, IsNegative)
  }

  /** Total missing units: at most minus the number of negative rows, so it is
      negative exactly when some row is. */
  function MissingUnits(rows: seq<Item>): (u: int)
    ensures u <= -|NegativeQoh(rows)|
    ensures u == 0 <==> NegativeQoh(rows) == []
    ensures u < 0 <==> NegativeQoh(rows) != []
  {
    var negative := NegativeQoh(rows);
    SumIntAtMostMinusCount(negative, Qoh);
    SumInt(negative, Qoh)
  }

  /** The most negative row (first in load order among ties); missing when no
      row is negative. */
  function MostNegative(rows: seq<Item>): (w: Option<Item>)
    ensures w.None? <==> NegativeQoh(rows) == []
    ensures w.Some? ==> w.value in NegativeQoh(rows)
    ensures w.Some? ==> forall x :: x in NegativeQoh(rows) ==> w.value.qoh <= x.qoh
    ensures w.Some? ==> exists k :: (0 <= k < |NegativeQoh(rows)| && NegativeQoh(rows)[k] == w.value
      && forall j :: 0 <= j < k ==> NegativeQoh(rows)[j].qoh > w.value.qoh)
  {
    var negative := NegativeQoh(rows);
    if |negative| == 0 then None
    else
      var k := FirstMinIndex(Qohs(negative));
      assert forall x :: x in negative ==> negative[k].qoh <= x.qoh by {
        forall x | x in negative ensures negative[k].qoh <= x.qoh {
          var j :| 0 <= j < |negative| && negative[j] == x;
          assert Qohs(negative)[j] == x.qoh;
        }
      }
      assert forall j :: 0 <= j < k ==> negative[j].qoh > negative[k].qoh by {
        forall j | 0 <= j < k ensures negative[j].qoh > negative[k].qoh {
          assert Qohs(negative)[j] == negative[j].qoh;
        }
      }
      Some(negative[k])
  }

  /** Estimated shrink: the magnitude of the negative rows' value at cost. */
  function ShrinkCost(rows: seq<Item>): (c: real)
    ensures c >= 0.0
    ensures NegativeQoh(rows) == [] ==> c == 0.0
  {
    Abs(Sum(NegativeQoh(rows), ValueAtCost))
  }

  // ---------------------------------------------------------- 3. dead stock

  /** Positive stock whose last sale lies more than the dead-stock window before
      the reference date; an item with no usable sale date is never dead. */
  predicate IsDeadStock(today: CalendarDate, it: Item) {
    var days := DaysSinceLastSale(today, it);
    days.Some? && days.value > DeadStockDays && it.qoh > 0
  }

  function DeadRule(today: CalendarDate): Item -> bool {
    it => IsDeadStock(today, it)
  }

  /** Rule 3: the dead rows, in load order. */
  function DeadStock(today: CalendarDate, rows: seq<Item>): (r: seq<Item>)
    ensures forall it :: it in r <==> it in rows && IsDeadStock(today, it)
  {
    Filter(rows, DeadRule(today))
  }

  /** Dead stock read on the calendar: stock is on hand, the sale date is
      usable, and the day 548 days after it has been reached by the reference date. */
  lemma DeadStockIff(today: CalendarDate, it: Item)
    ensures IsDeadStock(today, it) <==>
      it.qoh > 0 && CoerceDate(it.lastSold).Some?
      && !Before(today, AddDays(CoerceDate(it.lastSold).value, DeadStockDays + 1))
  {
    if CoerceDate(it.lastSold).Some? {
      var due := AddDays(CoerceDate(it.lastSold).value, DeadStockDays + 1);
      OrdinalAddDays(CoerceDate(it.lastSold).value, DeadStockDays + 1);
      OrdinalOrder(today, due);
    }
  }

  /** An item without a usable sale date is never dead, however much is on hand. */
  lemma NoSaleDateNeverDead(today: CalendarDate, it: Item)
    requires CoerceDate(it.lastSold).None?
    ensures !IsDeadStock(today, it)
  {
  }

  /** Dead stock stays dead as the reference date advances. */
  lemma DeadStockPersists(today: CalendarDate, it: Item)
    requires IsDeadStock(today, it)
    ensures IsDeadStock(NextDay(today), it)
  {
    DaysSinceLastSaleNextDay(today, it);
  }

  function Min(a: int, b: int): int {
    if a <= b then a else b
  }

  // --------------------------------------------------------- 4. the report

  datatype Summary = Summary(totalValue: real, deadValue: real, negativeShrink: real, lostMargin: real)

  datatype Report = Report(
    itemCount: nat,
    overstock: seq<Item>,
    overstockValue: real,
    negativeCount: nat,
    mostNegative: Option<Item>,
    missingUnits: int,
    shrinkCost: real,
    deadCount: nat,
    deadListing: seq<Item>,
    deadValue: real,
    summary: Summary)

  /** Rule 4: the financial summary; the dead-stock and shrink figures are
      zero for an empty subset. */
  function FinancialSummary(today: CalendarDate, rows: seq<Item>): (s: Summary)
    ensures s.deadValue == Sum(DeadStock(today, rows), ValueAtCost)
    ensures s.negativeShrink == ShrinkCost(rows)
    ensures (forall it :: it in rows ==> it.retail >= it.cost) ==> s.lostMargin >= 0.0
  {
    var dead := DeadStock(today, rows);
    var negative := NegativeQoh(rows);
    assert (forall it :: it in rows ==> it.retail >= it.cost) ==> Sum(rows, LostMargin) >= 0.0 by {
      if forall it :: it in rows ==> it.retail >= it.cost {
        SumNonNegative(rows, LostMargin);
      }
    }
    Summary(
      Sum(rows, ValueAtCost),
      if |dead| > 0 then Sum(dead, ValueAtCost) else 0.0,
      if |negative| > 0 then Abs(Sum(negative, ValueAtCost)) else 0.0,
      Sum(rows, LostMargin))
  }

  /** The whole report for one snapshot of the table. The listing shows the
      first dead rows in load order while the count covers them all, and the
      summary's guarded figures agree with the sections' sums. */
  function BuildReport(today: CalendarDate, rows: seq<Item>): (r: Report)
    ensures r.itemCount == |rows|
    ensures r.deadCount == |DeadStock(today, rows)|
    ensures |r.deadListing| == Min(DeadStockListingRows, r.deadCount)
    ensures r.deadListing <= DeadStock(today, rows)
    ensures r.summary.deadValue == r.deadValue
    ensures r.summary.negativeShrink == r.shrinkCost
    ensures r.negativeCount == 0 ==> r.shrinkCost == 0.0 && r.missingUnits == 0
  {
    var overstock := ReplacementOverstock(rows);
    var dead := DeadStock(today, rows);
    Report(
      |rows|,
      overstock,
      Sum(overstock, ValueAtCost),
      |NegativeQoh(rows)|,
      MostNegative(rows),
      MissingUnits(rows),
      ShrinkCost(rows),
      |dead|,
      dead[..Min(DeadStockListingRows, |dead|)],
      Sum(dead, ValueAtCost),
      FinancialSummary(today, rows))
  }

  // ------------------------------------------------------ the run as a whole

  /** Nanoseconds in a day; time differences are signed 64-bit nanosecond counts. */
  const NanosecondsPerDay: int := 86_400_000_000_000
  const MinNanoseconds: int := -0x8000_0000_0000_0000
  const MaxNanoseconds: int := 0x7FFF_FFFF_FFFF_FFFF

  /** The subtraction behind this row's day count leaves the 64-bit
      nanosecond range, which raises an overflow error. */
  predicate SpanOverflows(today: CalendarDate, it: Item) {
    var days := DaysSinceLastSale(today, it);
    days.Some? && !(MinNanoseconds <= days.value * NanosecondsPerDay <= MaxNanoseconds)
  }

  function OverflowRule(today: CalendarDate): Item -> bool {
    it => SpanOverflows(today, it)
  }

  /** A span overflows exactly when the sale lies 106752 days or more from
      the reference date, on either side. */
  lemma SpanOverflowsIff(today: CalendarDate, it: Item)
    ensures SpanOverflows(today, it) <==>
      DaysSinceLastSale(today, it).Some? &&
      (DaysSinceLastSale(today, it).value >= 106752 || DaysSinceLastSale(today, it).value <= -106752)
  {
  }

  /** One run of the script on a table: computing the day-count column aborts
      the run before any section is printed when some row's span overflows;
      otherwise the run produces the report. */
  function RunReport(today: CalendarDate, rows: seq<Item>): (r: Option<Report>)
    ensures r.None? <==> exists it :: it in rows && SpanOverflows(today, it)
    ensures r.Some? ==> r.value == BuildReport(today, rows)
  {
    var overflowing := Filter(rows, OverflowRule(today));
    if overflowing == [] then Some(BuildReport(today, rows))
    else
      assert overflowing[0] in overflowing;
      None
  }
}
