/** Rows of the repository's sample data, checked against the rules at the
    report date used by the script. */
module SampleRows {
  import Text
  import Folds
  import Stats
  import opened Wrappers
  import opened Calendar
  import opened HealthReport

  const ReportDate: CalendarDate := Date(2025, 12, 17)

  const ObsoleteBulb: Item := Item("DEAD-10001", Some("Obsolete LED Bulb 40W Equivalent (Old Model)"),
    150, 4.20, 9.99, Some(Date(2022, 3, 15)), Some(Date(2022, 6, 10)), "Active")

  const Caulk: Item := Item("22222", Some("Caulk Tube - White"),
    35, 6.50, 12.99, None, Some(Date(2025, 12, 10)), "Active")

  const OldWidget: Item := Item("12345", Some("Old Widget A (Discontinued)"),
    -50, 12.50, 24.99, Some(Date(2023, 6, 15)), Some(Date(2024, 3, 10)), "Discontinued")

  const NewWidget: Item := Item("12345-REPL", Some("New Widget A (Replacement)"),
    450, 14.00, 27.99, Some(Date(2025, 12, 10)), Some(Date(2025, 12, 1)), "Active")

  const OldBolts: Item := Item("67890", Some("Old Bolt Pack (Discontinued)"),
    -200, 8.75, 17.99, Some(Date(2022, 11, 1)), Some(Date(2023, 9, 20)), "Discontinued")

  const Studs: Item := Item("11111", Some("Lumber 2x4x8 (High Negative)"),
    -11033, 4.50, 8.99, Some(Date(2025, 12, 1)), Some(Date(2025, 11, 28)), "Active")

  const NewBolts: Item := Item("67890-REPL", Some("New Bolt Pack (Replacement)"),
    800, 10.20, 21.99, Some(Date(2025, 12, 16)), Some(Date(2025, 12, 15)), "Active")

  const FastenerKit: Item := Item("54321", Some("Fastener Kit - Stainless (Midwest)"),
    120, 45.00, 89.99, Some(Date(2025, 11, 20)), Some(Date(2025, 10, 30)), "Active")

  const SprayPaint: Item := Item("98765", Some("Spray Paint - Red (Slow Mover)"),
    15, 9.99, 14.99, Some(Date(2024, 1, 5)), Some(Date(2024, 2, 20)), "Active")

  const Screws: Item := Item("33333", Some("GRK RSS Structural Screws 3\" (100pk)"),
    280, 58.00, 89.99, Some(Date(2025, 10, 15)), Some(Date(2025, 12, 5)), "Active")

  const Anchors: Item := Item("44444", Some("Tapcon Concrete Anchors 1/4x3\" (100)"),
    95, 32.50, 59.99, Some(Date(2025, 8, 20)), Some(Date(2025, 11, 1)), "Active")

  const StaleItem: Item := Item("55555", Some("Dead Stock Item - No Sale in 3 Years"),
    60, 22.00, 44.99, Some(Date(2022, 4, 10)), Some(Date(2023, 1, 15)), "Active")

  const HexBolts: Item := Item("66666", Some("Midwest Stainless Hex Bolts Assortment"),
    45, 65.00, 119.99, Some(Date(2025, 9, 30)), Some(Date(2025, 11, 20)), "Active")

  /** Last sold 2022-03-15, the bulb is 1373 days stale and dead stock. */
  lemma ObsoleteBulbIsDeadStock()
    ensures DaysSinceLastSale(ReportDate, ObsoleteBulb) == Some(1373)
    ensures IsDeadStock(ReportDate, ObsoleteBulb)
  {
  }

  /** Never sold, the caulk is not dead stock despite 35 on hand. */
  lemma UnsoldCaulkIsNotDeadStock()
    ensures DaysSinceLastSale(ReportDate, Caulk) == None
    ensures !IsDeadStock(ReportDate, Caulk)
  {
  }

  /** A stored 30 February is coerced to a missing date. */
  lemma ImpossibleDateIsCoerced()
    ensures CoerceDate(Some(Date(2025, 2, 30))) == None
    ensures !IsDeadStock(ReportDate, Caulk.(lastSold := Some(Date(2020, 2, 30))))
  {
  }

  lemma WidgetPairColumn()
    ensures Qohs([OldWidget, NewWidget]) == [-50, 450]
  {
  }

  /** Quantities -50 and 450: the threshold interpolates to 400. */
  lemma WidgetPairThreshold()
    ensures QohThreshold([OldWidget, NewWidget]) == Some(400.0)
  {
    WidgetPairColumn();
    assert Stats.Sort([-50, 450]) == [-50, 450];
  }

  /** Only the replacement widget lies above that threshold. */
  lemma WidgetPairOverstock()
    ensures ReplacementOverstock([OldWidget, NewWidget]) == [NewWidget]
  {
    WidgetPairThreshold();
    var rows := [OldWidget, NewWidget];
    assert Text.MatchesAt(NewWidget.description.value, "new", 0);
    assert Text.ContainsIgnoreCase(NewWidget.description.value, "new");
    assert ReplacementKeywords[2] == "new";
    assert MatchesReplacement(NewWidget.description);
    var rule := OverstockRule(Some(400.0));
    assert rows[1..] == [NewWidget] && [NewWidget][1..] == [];
    assert Folds.Filter(rows, rule) == Folds.Filter([NewWidget], rule);
  }

  /** The whole seeded table, in load order, as its first six and last six rows. */
  const SeededFront: seq<Item> := [OldWidget, NewWidget, OldBolts, NewBolts, FastenerKit, SprayPaint]
  const SeededBack: seq<Item> := [Studs, Caulk, Screws, Anchors, StaleItem, HexBolts]
  const SeededRows: seq<Item> := SeededFront + SeededBack

  /** A single row is selected exactly when it satisfies the condition. */
  lemma FilterOne(x: Item, p: Item -> bool)
    ensures Folds.Filter([x], p) == if p(x) then [x] else []
  {
    assert [x][1..] == [];
  }

  lemma FrontNegatives()
    ensures Folds.Filter(SeededFront, IsNegative) == [OldWidget, OldBolts]
  {
    var p := IsNegative;
    FilterSix(OldWidget, NewWidget, OldBolts, NewBolts, FastenerKit, SprayPaint, p);
    FilterOne(OldWidget, p);
    FilterOne(NewWidget, p);
    FilterOne(OldBolts, p);
    FilterOne(NewBolts, p);
    FilterOne(FastenerKit, p);
    FilterOne(SprayPaint, p);
  }

  lemma BackNegatives()
    ensures Folds.Filter(SeededBack, IsNegative) == [Studs]
  {
    var p := IsNegative;
    FilterSix(Studs, Caulk, Screws, Anchors, StaleItem, HexBolts, p);
    FilterOne(Studs, p);
    FilterOne(Caulk, p);
    FilterOne(Screws, p);
    FilterOne(Anchors, p);
    FilterOne(StaleItem, p);
    FilterOne(HexBolts, p);
  }

  /** Its negative rows are the old widget, the old bolts and the studs. */
  lemma SeededNegativeRows(rows: seq<Item>)
    requires rows == SeededRows
    ensures NegativeQoh(rows) == [OldWidget, OldBolts, Studs]
  {
    Folds.FilterConcat(SeededFront, SeededBack, IsNegative);
    FrontNegatives();
    BackNegatives();
  }

  /** The rows of six that a condition selects, one row at a time. */
  lemma FilterSix(a: Item, b: Item, c: Item, d: Item, e: Item, f: Item, p: Item -> bool)
    ensures Folds.Filter([a, b, c, d, e, f], p)
      == Folds.Filter([a], p) + Folds.Filter([b], p) + Folds.Filter([c], p)
       + Folds.Filter([d], p) + Folds.Filter([e], p) + Folds.Filter([f], p)
  {
    assert [a, b, c, d, e, f] == [a] + [b] + [c] + [d] + [e] + [f];
    Folds.FilterConcat([a] + [b] + [c] + [d] + [e], [f], p);
    Folds.FilterConcat([a] + [b] + [c] + [d], [e], p);
    Folds.FilterConcat([a] + [b] + [c], [d], p);
    Folds.FilterConcat([a] + [b], [c], p);
    Folds.FilterConcat([a], [b], p);
  }

  /** Days since the last sale of the seeded rows, two rows at a time. */
  lemma WidgetDays()
    ensures DaysSinceLastSale(ReportDate, OldWidget) == Some(916)
    ensures DaysSinceLastSale(ReportDate, NewWidget) == Some(7)
  {
  }

  lemma BoltDays()
    ensures DaysSinceLastSale(ReportDate, OldBolts) == Some(1142)
    ensures DaysSinceLastSale(ReportDate, NewBolts) == Some(1)
  {
  }

  lemma KitAndPaintDays()
    ensures DaysSinceLastSale(ReportDate, FastenerKit) == Some(27)
    ensures DaysSinceLastSale(ReportDate, SprayPaint) == Some(712)
  {
  }

  lemma StudsAndCaulkDays()
    ensures DaysSinceLastSale(ReportDate, Studs) == Some(16)
    ensures DaysSinceLastSale(ReportDate, Caulk) == None
  {
  }

  lemma ScrewsAndAnchorsDays()
    ensures DaysSinceLastSale(ReportDate, Screws) == Some(63)
    ensures DaysSinceLastSale(ReportDate, Anchors) == Some(119)
  {
  }

  lemma StaleAndHexDays()
    ensures DaysSinceLastSale(ReportDate, StaleItem) == Some(1347)
    ensures DaysSinceLastSale(ReportDate, HexBolts) == Some(78)
  {
  }

  lemma FrontDays()
    ensures DaysSinceLastSale(ReportDate, OldWidget) == Some(916)
    ensures DaysSinceLastSale(ReportDate, NewWidget) == Some(7)
    ensures DaysSinceLastSale(ReportDate, OldBolts) == Some(1142)
    ensures DaysSinceLastSale(ReportDate, NewBolts) == Some(1)
    ensures DaysSinceLastSale(ReportDate, FastenerKit) == Some(27)
    ensures DaysSinceLastSale(ReportDate, SprayPaint) == Some(712)
  {
    WidgetDays();
    BoltDays();
    KitAndPaintDays();
  }

  lemma BackDays()
    ensures DaysSinceLastSale(ReportDate, Studs) == Some(16)
    ensures DaysSinceLastSale(ReportDate, Caulk) == None
    ensures DaysSinceLastSale(ReportDate, Screws) == Some(63)
    ensures DaysSinceLastSale(ReportDate, Anchors) == Some(119)
    ensures DaysSinceLastSale(ReportDate, StaleItem) == Some(1347)
    ensures DaysSinceLastSale(ReportDate, HexBolts) == Some(78)
  {
    StudsAndCaulkDays();
    ScrewsAndAnchorsDays();
    StaleAndHexDays();
  }

  /** The rows of three that a condition selects, one row at a time. */
  lemma FilterThree(a: Item, b: Item, c: Item, p: Item -> bool)
    ensures Folds.Filter([a, b, c], p) == Folds.Filter([a], p) + Folds.Filter([b], p) + Folds.Filter([c], p)
  {
    assert [a, b, c] == [a] + [b] + [c];
    Folds.FilterConcat([a] + [b], [c], p);
    Folds.FilterConcat([a], [b], p);
  }

  /** The dead rows of a six-row part, three rows at a time. */
  lemma DeadOfSix(a: Item, b: Item, c: Item, d: Item, e: Item, f: Item)
    ensures Folds.Filter([a, b, c, d, e, f], DeadRule(ReportDate))
      == Folds.Filter([a, b, c], DeadRule(ReportDate)) + Folds.Filter([d, e, f], DeadRule(ReportDate))
  {
    assert [a, b, c, d, e, f] == [a, b, c] + [d, e, f];
    Folds.FilterConcat([a, b, c], [d, e, f], DeadRule(ReportDate));
  }

  lemma DeadAmong(a: Item, b: Item, c: Item)
    ensures Folds.Filter([a, b, c], DeadRule(ReportDate))
      == (if IsDeadStock(ReportDate, a) then [a] else [])
       + (if IsDeadStock(ReportDate, b) then [b] else [])
       + (if IsDeadStock(ReportDate, c) then [c] else [])
  {
    var p := DeadRule(ReportDate);
    FilterThree(a, b, c, p);
    FilterOne(a, p);
    FilterOne(b, p);
    FilterOne(c, p);
  }

  lemma FrontDeadStock()
    ensures Folds.Filter(SeededFront, DeadRule(ReportDate)) == [SprayPaint]
  {
    DeadOfSix(OldWidget, NewWidget, OldBolts, NewBolts, FastenerKit, SprayPaint);
    FrontDays();
    DeadAmong(OldWidget, NewWidget, OldBolts);
    DeadAmong(NewBolts, FastenerKit, SprayPaint);
  }

  lemma BackDeadStock()
    ensures Folds.Filter(SeededBack, DeadRule(ReportDate)) == [StaleItem]
  {
    DeadOfSix(Studs, Caulk, Screws, Anchors, StaleItem, HexBolts);
    BackDays();
    DeadAmong(Studs, Caulk, Screws);
    DeadAmong(Anchors, StaleItem, HexBolts);
  }

  /** Its dead stock is the spray paint (712 days) and the stale item
      (1347 days); the old widget and bolts are stale but hold no stock. */
  lemma SeededDeadStock(rows: seq<Item>)
    requires rows == SeededRows
    ensures DeadStock(ReportDate, rows) == [SprayPaint, StaleItem]
  {
    Folds.FilterConcat(SeededFront, SeededBack, DeadRule(ReportDate));
    FrontDeadStock();
    BackDeadStock();
  }

  /** Three rows' column totals, one row at a time. */
  lemma SumThree(a: Item, b: Item, c: Item)
    ensures Folds.SumInt([a, b, c], Qoh) == a.qoh + b.qoh + c.qoh
    ensures Folds.Sum([a, b, c], ValueAtCost) == ValueAtCost(a) + ValueAtCost(b) + ValueAtCost(c)
  {
    assert [a, b, c][1..] == [b, c] && [b, c][1..] == [c] && [c][1..] == [];
    assert Folds.SumInt([c], Qoh) == c.qoh;
    assert Folds.SumInt([b, c], Qoh) == b.qoh + c.qoh;
    assert Folds.Sum([c], ValueAtCost) == ValueAtCost(c);
    assert Folds.Sum([b, c], ValueAtCost) == ValueAtCost(b) + ValueAtCost(c);
  }

  /** 11283 units are missing. */
  lemma SeededMissingUnits(rows: seq<Item>)
    requires rows == SeededRows
    ensures MissingUnits(rows) == -11283
  {
    SeededNegativeRows(rows);
    SumThree(OldWidget, OldBolts, Studs);
  }

  /** The studs (qoh -11033) are the most negative row. */
  lemma SeededMostNegative(rows: seq<Item>)
    requires rows == SeededRows
    ensures MostNegative(rows) == Some(Studs)
  {
    SeededNegativeRows(rows);
    var negative := [OldWidget, OldBolts, Studs];
    var w := MostNegative(rows).value;
    assert w in negative && Studs in negative;
    assert w.qoh <= Studs.qoh;
  }

  /** The shrink estimate is 52023.50 at cost. */
  lemma SeededShrinkCost(rows: seq<Item>)
    requires rows == SeededRows
    ensures ShrinkCost(rows) == 52023.5
  {
    SeededNegativeRows(rows);
    SumThree(OldWidget, OldBolts, Studs);
    assert ValueAtCost(OldWidget) == -625.0;
    assert ValueAtCost(OldBolts) == -1750.0;
    assert ValueAtCost(Studs) == -49648.5;
  }

  /** A sale on 1700-01-01 is a valid timestamp, but it lies 119054 days
      before the report date, beyond what a nanosecond difference can hold,
      so the run aborts. */
  lemma AncientSaleAborts()
    ensures DaysSinceLastSale(ReportDate, Caulk.(lastSold := Some(Date(1700, 1, 1)))) == Some(119054)
    ensures RunReport(ReportDate, [Caulk.(lastSold := Some(Date(1700, 1, 1)))]).None?
  {
    var it := Caulk.(lastSold := Some(Date(1700, 1, 1)));
    assert it in [it];
  }

  /** At the report date the last sale date that overflows is 1733-09-07. */
  lemma OverflowBoundary()
    ensures SpanOverflows(ReportDate, Caulk.(lastSold := Some(Date(1733, 9, 7))))
    ensures !SpanOverflows(ReportDate, Caulk.(lastSold := Some(Date(1733, 9, 8))))
  {
    assert DaysSinceLastSale(ReportDate, Caulk.(lastSold := Some(Date(1733, 9, 7)))) == Some(106752);
    assert DaysSinceLastSale(ReportDate, Caulk.(lastSold := Some(Date(1733, 9, 8)))) == Some(106751);
  }

  lemma FrontFits()
    ensures forall it :: it in SeededFront ==> !SpanOverflows(ReportDate, it)
  {
    FrontDays();
    forall it | it in SeededFront ensures !SpanOverflows(ReportDate, it) {
      SpanOverflowsIff(ReportDate, it);
    }
  }

  lemma BackFits()
    ensures forall it :: it in SeededBack ==> !SpanOverflows(ReportDate, it)
  {
    BackDays();
    forall it | it in SeededBack ensures !SpanOverflows(ReportDate, it) {
      SpanOverflowsIff(ReportDate, it);
    }
  }

  /** No seeded row's span overflows, so a run on the seeded table produces
      the report rather than aborting. */
  lemma SeededTableRuns()
    ensures forall it :: it in SeededRows ==> !SpanOverflows(ReportDate, it)
    ensures RunReport(ReportDate, SeededRows).Some?
  {
    FrontFits();
    BackFits();
  }

  /** Among tied quantities the row loaded first is named, so the choice
      depends on load order while the quantity does not. */
  lemma TiedNegativesFollowLoadOrder()
    ensures MostNegative([OldWidget, OldWidget.(sku := "12346")]) == Some(OldWidget)
    ensures MostNegative([OldWidget.(sku := "12346"), OldWidget]) == Some(OldWidget.(sku := "12346"))
  {
  }
}
