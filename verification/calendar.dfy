/** Proleptic-Gregorian calendar dates and the day ordinals used to subtract them. */
module Calendar {

  /** A date as stored in the items table. The triple need not name a real
      day (month 13, February 30); the loader coerces such values away. */
  datatype Date = Date(year: int, month: int, day: int)

  predicate IsLeapYear(y: int) {
    y % 4 == 0 && (y % 100 != 0 || y % 400 == 0)
  }

  function DaysInYear(y: int): int {
    if IsLeapYear(y) then 366 else 365
  }

  function DaysInMonth(y: int, m: int): (n: int)
    requires 1 <= m <= 12
    ensures 28 <= n <= 31
    ensures n == 29 <==> m == 2 && IsLeapYear(y)
  {
    if m == 2 then (if IsLeapYear(y) then 29 else 28)
    else if m == 4 || m == 6 || m == 9 || m == 11 then 30
    else 31
  }

  /** The triple names a day of the proleptic-Gregorian calendar. */
  predicate ValidDate(d: Date) {
    1 <= d.month <= 12 && 1 <= d.day <= DaysInMonth(d.year, d.month)
  }

  /** A date that names a real day, such as the report's reference date. */
  type CalendarDate = d: Date | ValidDate(d) witness Date(2000, 1, 1)

  /** Days in all years before `y`, counting from year 1; Euclidean division
      extends the count to years before 1. */
  function DaysBeforeYear(y: int): int {
    var p := y - 1;
    365 * p + p / 4 - p / 100 + p / 400
  }

  /** Days in the months of year `y` before month `m`. */
  function DaysBeforeMonth(y: int, m: int): int
    requires 1 <= m <= 12
  {
    [0, 31, 59, 90, 120, 151, 181, 212, 243, 273, 304, 334][m - 1]
      + (if m > 2 && IsLeapYear(y) then 1 else 0)
  }

  /** The day number of `d`, with 0001-01-01 as day 1 (Python's `toordinal`). */
  function Ordinal(d: CalendarDate): int {
    DaysBeforeYear(d.year) + DaysBeforeMonth(d.year, d.month) + d.day
  }

  /** The calendar day after `d`. */
  function NextDay(d: CalendarDate): CalendarDate {
    if d.day < DaysInMonth(d.year, d.month) then Date(d.year, d.month, d.day + 1)
    else if d.month < 12 then Date(d.year, d.month + 1, 1)
    else Date(d.year + 1, 1, 1)
  }

  /** `a` comes strictly before `b` in calendar order. */
  predicate Before(a: Date, b: Date) {
    a.year < b.year
    || (a.year == b.year && a.month < b.month)
    || (a.year == b.year && a.month == b.month && a.day < b.day)
  }

  lemma DivUnique(x: int, k: int, q: int, r: int)
    requires k > 0 && 0 <= r < k && x == k * q + r
    ensures x / k == q && x % k == r
  {
    var q', r' := x / k, x % k;
    assert k * (q - q') == r' - r by {
      assert k * (q - q') == k * q - k * q';
    }
    if q > q' {
      MulAtLeast(k, q - q');
    } else if q < q' {
      MulAtLeast(k, q' - q);
    }
  }

  lemma MulAtLeast(k: int, a: int)
    requires k > 0 && a >= 1
    ensures k * a >= k
  {
    assert k * a == k * (a - 1) + k;
  }

  /** Stepping a numerator by one raises its quotient exactly when it lands on a multiple. */
  lemma DivStep(p: int, k: int)
    requires k > 0
    ensures (p + 1) / k - p / k == (if (p + 1) % k == 0 then 1 else 0)
  {
    var q, r := p / k, p % k;
    if r == k - 1 {
      DivUnique(p + 1, k, q + 1, 0);
    } else {
      DivUnique(p + 1, k, q, r + 1);
    }
  }

  lemma {:induction false} DaysBeforeYearStep(y: int)
    ensures DaysBeforeYear(y + 1) == DaysBeforeYear(y) + DaysInYear(y)
  {
    var p := y - 1;
    DivStep(p, 4);
    DivStep(p, 100);
    DivStep(p, 400);
    if y % 400 == 0 {
      DivUnique(y, 100, 4 * (y / 400), 0);
      DivUnique(y, 4, 100 * (y / 400), 0);
    } else if y % 100 == 0 {
      DivUnique(y, 4, 25 * (y / 100), 0);
    }
  }

  /** Each calendar day is exactly one ordinal after the day before it. */
  lemma {:induction false} OrdinalNextDay(d: CalendarDate)
    ensures Ordinal(NextDay(d)) == Ordinal(d) + 1
  {
    if d.day == DaysInMonth(d.year, d.month) && d.month == 12 {
      DaysBeforeYearStep(d.year);
    }
  }

  lemma {:induction false} DaysBeforeYearIncreasing(a: int, b: int)
    requires a < b
    ensures DaysBeforeYear(a + 1) <= DaysBeforeYear(b)
    decreases b - a
  {
    DaysBeforeYearStep(a);
    if a + 1 < b {
      DaysBeforeYearIncreasing(a + 1, b);
      DaysBeforeYearStep(a + 1);
    }
  }

  lemma DaysBeforeMonthIncreasing(y: int, a: int, b: int)
    requires 1 <= a < b <= 12
    ensures DaysBeforeMonth(y, a) + DaysInMonth(y, a) <= DaysBeforeMonth(y, b)
  {
  }

  /** Every day of year `y` has an ordinal inside that year's span. */
  lemma {:induction false} OrdinalWithinYear(d: CalendarDate)
    ensures DaysBeforeYear(d.year) < Ordinal(d) <= DaysBeforeYear(d.year + 1)
  {
    DaysBeforeYearStep(d.year);
  }

  /** Ordinals order dates exactly as the calendar does, so day differences
      are positive precisely for earlier dates and distinct days never share one. */
  lemma {:induction false} OrdinalOrder(a: CalendarDate, b: CalendarDate)
    ensures Before(a, b) <==> Ordinal(a) < Ordinal(b)
    ensures a == b <==> Ordinal(a) == Ordinal(b)
  {
    OrdinalWithinYear(a);
    OrdinalWithinYear(b);
    if a.year < b.year {
      DaysBeforeYearIncreasing(a.year, b.year);
    } else if b.year < a.year {
      DaysBeforeYearIncreasing(b.year, a.year);
    } else if a.month < b.month {
      DaysBeforeMonthIncreasing(a.year, a.month, b.month);
    } else if b.month < a.month {
      DaysBeforeMonthIncreasing(a.year, b.month, a.month);
    }
  }

  /** The day `n` calendar days after `d`, stepping one day at a time. */
  function AddDays(d: CalendarDate, n: nat): CalendarDate
    decreases n
  {
    if n == 0 then d else AddDays(NextDay(d), n - 1)
  }

  /** Stepping `n` days forward adds exactly `n` to the ordinal, so ordinal
      differences are day counts. */
  lemma {:induction false} OrdinalAddDays(d: CalendarDate, n: nat)
    ensures Ordinal(AddDays(d, n)) == Ordinal(d) + n
    decreases n
  {
    if n > 0 {
      OrdinalNextDay(d);
      OrdinalAddDays(NextDay(d), n - 1);
    }
  }
}
