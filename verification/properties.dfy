/** Properties of the report that relate several rows, several tables or
    several orderings of one table. */
module ReportProperties {
  import opened Wrappers
  import opened Calendar
  import opened Folds
  import opened Stats
  import opened HealthReport

  /** The quantity threshold depends only on which quantities occur, not on
      the order in which the rows were loaded. */
  lemma ThresholdPermutation(a: seq<Item>, b: seq<Item>)
    requires multiset(a) == multiset(b)
    ensures QohThreshold(a) == QohThreshold(b)
  {
    assert |a| == |multiset(a)| == |multiset(b)| == |b|;
    MapPermutation(a, b, Qoh);
    SortedUnique(Sort(Qohs(a)), Sort(Qohs(b)));
  }

  lemma OverstockPermutation(a: seq<Item>, b: seq<Item>)
    requires multiset(a) == multiset(b)
    ensures multiset(ReplacementOverstock(a)) == multiset(ReplacementOverstock(b))
    ensures Sum(ReplacementOverstock(a), ValueAtCost) == Sum(ReplacementOverstock(b), ValueAtCost)
  {
    ThresholdPermutation(a, b);
    var over := OverstockRule(QohThreshold(a));
    FilterPermutation(a, b, over);
    SumPermutation(Filter(a, over), Filter(b, over), ValueAtCost);
  }

  lemma NegativePermutation(a: seq<Item>, b: seq<Item>)
    requires multiset(a) == multiset(b)
    ensures multiset(NegativeQoh(a)) == multiset(NegativeQoh(b))
    ensures |NegativeQoh(a)| == |NegativeQoh(b)|
    ensures MissingUnits(a) == MissingUnits(b)
    ensures ShrinkCost(a) == ShrinkCost(b)
    ensures MostNegative(a).Some? ==> MostNegative(a).value.qoh == MostNegative(b).value.qoh
  {
    var na, nb := NegativeQoh(a), NegativeQoh(b);
    FilterPermutation(a, b, IsNegative);
    assert |na| == |multiset(na)| == |multiset(nb)| == |nb|;
    SumIntPermutation(na, nb, Qoh);
    SumPermutation(na, nb, ValueAtCost);
    var wa, wb := MostNegative(a), MostNegative(b);
    if wa.Some? {
      assert wa.value in multiset(nb) && wb.value in multiset(na);
    }
  }

  lemma DeadStockPermutation(today: CalendarDate, a: seq<Item>, b: seq<Item>)
    requires multiset(a) == multiset(b)
    ensures multiset(DeadStock(today, a)) == multiset(DeadStock(today, b))
    ensures |DeadStock(today, a)| == |DeadStock(today, b)|
    ensures Sum(DeadStock(today, a), ValueAtCost) == Sum(DeadStock(today, b), ValueAtCost)
  {
    var da, db := DeadStock(today, a), DeadStock(today, b);
    FilterPermutation(a, b, DeadRule(today));
    assert |da| == |multiset(da)| == |multiset(db)| == |db|;
    SumPermutation(da, db, ValueAtCost);
  }

  /** Every count and total of the report is unchanged by reordering the rows;
      the selected subsets are the same rows, and the most negative quantity is
      the same (only which of several tied rows is named may change). */
  lemma ReportPermutationInvariant(today: CalendarDate, a: seq<Item>, b: seq<Item>)
    requires multiset(a) == multiset(b)
    ensures var ra := BuildReport(today, a); var rb := BuildReport(today, b);
      && ra.itemCount == rb.itemCount
      && ra.overstockValue == rb.overstockValue
      && ra.negativeCount == rb.negativeCount
      && ra.missingUnits == rb.missingUnits
      && ra.shrinkCost == rb.shrinkCost
      && ra.deadCount == rb.deadCount
      && ra.deadValue == rb.deadValue
      && ra.summary == rb.summary
      && (ra.mostNegative.Some? ==> ra.mostNegative.value.qoh == rb.mostNegative.value.qoh)
    ensures multiset(ReplacementOverstock(a)) == multiset(ReplacementOverstock(b))
    ensures multiset(NegativeQoh(a)) == multiset(NegativeQoh(b))
    ensures multiset(DeadStock(today, a)) == multiset(DeadStock(today, b))
  {
    assert |a| == |multiset(a)| == |multiset(b)| == |b|;
    OverstockPermutation(a, b);
    NegativePermutation(a, b);
    DeadStockPermutation(today, a, b);
    SumPermutation(a, b, ValueAtCost);
    SumPermutation(a, b, LostMargin);
  }

  /** The negative rows of a table, split around a negative row. */
  lemma NegativeSplitAt(rows: seq<Item>, k: int)
    requires 0 <= k < |rows| && rows[k].qoh < 0
    ensures NegativeQoh(rows) == Filter(rows[..k], IsNegative) + [rows[k]] + Filter(rows[k + 1..], IsNegative)
  {
    var front, back := rows[..k], rows[k + 1..];
    assert rows == front + ([rows[k]] + back);
    FilterConcat(front, [rows[k]] + back, IsNegative);
    FilterConcat([rows[k]], back, IsNegative);
    assert Filter([rows[k]], IsNegative) == [rows[k]] by {
      assert [rows[k]][1..] == [];
    }
  }

  /** The negative row that comes first among the table's minima is the one named. */
  lemma MostNegativeAt(rows: seq<Item>, k: int)
    requires 0 <= k < |rows| && rows[k].qoh < 0
    requires forall j :: 0 <= j < |rows| ==> rows[k].qoh <= rows[j].qoh
    requires forall j :: 0 <= j < k ==> rows[k].qoh < rows[j].qoh
    ensures MostNegative(rows) == Some(rows[k])
  {
    var negative := NegativeQoh(rows);
    NegativeSplitAt(rows, k);
    var before := Filter(rows[..k], IsNegative);
    var idx := |before|;
    assert negative[idx] == rows[k];
    var qn := Qohs(negative);
    forall j | 0 <= j < |negative| ensures qn[idx] <= qn[j] {
      assert negative[j] in rows;
    }
    forall j | 0 <= j < idx ensures qn[idx] < qn[j] {
      assert negative[j] == before[j] && before[j] in rows[..k];
    }
    FirstMinUnique(qn, FirstMinIndex(qn), idx);
  }

  /** The most negative row is the first row of the whole table whose quantity
      is the table's minimum: selecting the negative rows first changes nothing. */
  lemma MostNegativeIsFirstMinimum(rows: seq<Item>)
    requires NegativeQoh(rows) != []
    ensures exists i :: (0 <= i < |rows| && MostNegative(rows) == Some(rows[i])
      && (forall j :: 0 <= j < |rows| ==> rows[i].qoh <= rows[j].qoh)
      && (forall j :: 0 <= j < i ==> rows[i].qoh < rows[j].qoh))
  {
    var q := Qohs(rows);
    var k := FirstMinIndex(q);
    forall j | 0 <= j < |rows| ensures rows[k].qoh <= rows[j].qoh {
      assert q[j] == rows[j].qoh;
    }
    forall j | 0 <= j < k ensures rows[k].qoh < rows[j].qoh {
      assert q[j] == rows[j].qoh;
    }
    var negative := NegativeQoh(rows);
    assert negative[0] in negative;
    MostNegativeAt(rows, k);
  }

  /** When no cost is negative, the shrink estimate is exactly the value at
      cost missing from the negative rows, read as a positive amount. */
  lemma ShrinkIsMissingValue(rows: seq<Item>)
    requires forall it :: it in rows ==> it.cost >= 0.0
    ensures ShrinkCost(rows) == -Sum(NegativeQoh(rows), ValueAtCost)
  {
    var negative := NegativeQoh(rows);
    forall it | it in negative ensures ValueAtCost(it) <= 0.0 {
    }
    SumNonPositive(negative, ValueAtCost);
  }

  /** The negative and dead-stock sections list rows in load order: the
      sections of a table loaded in two parts are the two parts' sections, joined. */
  lemma SectionsKeepLoadOrder(today: CalendarDate, a: seq<Item>, b: seq<Item>)
    ensures NegativeQoh(a + b) == NegativeQoh(a) + NegativeQoh(b)
    ensures DeadStock(today, a + b) == DeadStock(today, a) + DeadStock(today, b)
  {
    FilterConcat(a, b, IsNegative);
    FilterConcat(a, b, DeadRule(today));
  }

  /** The rows whose quantity is strictly above `t`. */
  function RowAbove(t: real): Item -> bool {
    (it: Item) => it.qoh as real > t
  }

  /** Counting rows above a level is counting sorted quantities above it. */
  lemma RowsAboveSorted(rows: seq<Item>, t: real)
    ensures |Filter(rows, RowAbove(t))| == |Filter(Sort(Qohs(rows)), Above(t))|
  {
    var sorted := Sort(Qohs(rows));
    FilterMapLength(rows, Qoh, Above(t), RowAbove(t));
    FilterPermutation(Qohs(rows), sorted, Above(t));
    assert |multiset(Filter(Qohs(rows), Above(t)))| == |multiset(Filter(sorted, Above(t)))|;
  }

  /** Every overstocked row is above the threshold. */
  lemma OverstockAmongRowsAbove(rows: seq<Item>, t: real)
    requires QohThreshold(rows) == Some(t)
    ensures |ReplacementOverstock(rows)| <= |Filter(rows, RowAbove(t))|
  {
    forall x | OverstockRule(Some(t))(x) ensures RowAbove(t)(x) {
      assert IsReplacementOverstock(Some(t), x);
    }
    FilterMonotone(rows, OverstockRule(Some(t)), RowAbove(t));
  }

  /** Replacement overstock is drawn from the top tenth of stock levels: at most
      `n - 1 - floor(0.9 * (n - 1))` of `n` rows are selected. */
  lemma OverstockWithinTopTenth(rows: seq<Item>)
    requires |rows| > 0
    ensures |ReplacementOverstock(rows)| <= TopCount(|rows|, OverstockQuantile)
  {
    var t := QohThreshold(rows).value;
    var sorted := Sort(Qohs(rows));
    assert |sorted| == |rows| by {
      assert |multiset(sorted)| == |multiset(Qohs(rows))|;
    }
    assert t == LinearQuantile(sorted, OverstockQuantile);
    var bound := TopCount(|rows|, OverstockQuantile);
    assert |Filter(sorted, Above(t))| <= bound by {
      QuantileTopShare(sorted, OverstockQuantile);
    }
    assert |Filter(rows, RowAbove(t))| <= bound by {
      RowsAboveSorted(rows, t);
    }
    assert |ReplacementOverstock(rows)| <= |Filter(rows, RowAbove(t))| by {
      OverstockAmongRowsAbove(rows, t);
    }
  }
}
