/**
 * Proleptic Gregorian calendar arithmetic, as Python's `datetime` does it:
 * a date is a (year, month, day) triple with 1 <= year <= 9999, and day
 * number 1 (the ordinal) is 0001-01-01.  `Ordinal` is days-from-civil,
 * `FromOrdinal` is civil-from-days, and `MinusDays` is `date - timedelta`.
 */
module Calendar {
  import opened Wrappers

  datatype Date = Date(year: int, month: int, day: int)

  const MaxYear: int := 9999

  predicate IsLeapYear(y: int) {
    y % 4 == 0 && (y % 100 != 0 || y % 400 == 0)
  }

  function DaysInYear(y: int): int {
    if IsLeapYear(y) then 366 else 365
  }

  function DaysInMonth(y: int, m: int): (n: int)
    requires 1 <= m <= 12
    ensures 28 <= n <= 31
  {
    if m == 2 then (if IsLeapYear(y) then 29 else 28)
    else if m == 4 || m == 6 || m == 9 || m == 11 then 30
    else 31
  }

  /** A triple naming a day of the calendar, with no upper bound on the year. */
  predicate InCalendar(d: Date) {
    1 <= d.year && 1 <= d.month <= 12 && 1 <= d.day <= DaysInMonth(d.year, d.month)
  }

  /** A date Python's `datetime` can represent. */
  predicate Valid(d: Date) {
    InCalendar(d) && d.year <= MaxYear
  }

  /** Days in the years before year y (y >= 1). */
  function DaysBeforeYear(y: int): int
    requires 1 <= y
  {
    var p := y - 1;
    p * 365 + p / 4 - p / 100 + p / 400
  }

  /** Days in the months of year y before month m; m == 13 gives the whole year. */
  function DaysBeforeMonth(y: int, m: int): int
    requires 1 <= m <= 13
  {
    var before := [0, 31, 59, 90, 120, 151, 181, 212, 243, 273, 304, 334, 365];
    before[m - 1] + (if m > 2 && IsLeapYear(y) then 1 else 0)
  }

  /** Days-from-civil: 0001-01-01 is day 1. */
  function Ordinal(d: Date): int
    requires 1 <= d.year && 1 <= d.month <= 12
  {
    DaysBeforeYear(d.year) + DaysBeforeMonth(d.year, d.month) + d.day
  }

  /** The ordinal of 9999-12-31, the last day Python's `datetime` represents. */
  const MaxOrdinal: int := 3652059

  /** Chronological order of triples: year first, then month, then day. */
  predicate NotAfter(a: Date, b: Date) {
    a.year < b.year || (a.year == b.year && (a.month < b.month || (a.month == b.month && a.day <= b.day)))
  }

  lemma DaysBeforeYearStep(y: int)
    requires 1 <= y
    ensures DaysBeforeYear(y + 1) == DaysBeforeYear(y) + DaysInYear(y)
  {
    var p := y - 1;
    FloorStep(p, 4);
    FloorStep(p, 100);
    FloorStep(p, 400);
    DivisorChain(y);
    var step := 365 + (if y % 4 == 0 then 1 else 0) - (if y % 100 == 0 then 1 else 0) + (if y % 400 == 0 then 1 else 0);
    assert DaysBeforeYear(y + 1) - DaysBeforeYear(y) == step;
    assert step == DaysInYear(y);
  }

  /** A multiple of 400 is one of 100, and a multiple of 100 one of 4. */
  lemma DivisorChain(y: int)
    ensures y % 400 == 0 ==> y % 100 == 0
    ensures y % 100 == 0 ==> y % 4 == 0
  {
    if y % 400 == 0 {
      var q := y / 400;
      assert y == 100 * (4 * q);
    }
    if y % 100 == 0 {
      var q := y / 100;
      assert y == 4 * (25 * q);
    }
  }

  /** Counting one further, the quotient by k grows by one exactly at a multiple of k. */
  lemma FloorStep(p: int, k: int)
    requires 0 <= p && (k == 4 || k == 100 || k == 400)
    ensures (p + 1) / k == p / k + (if (p + 1) % k == 0 then 1 else 0)
  {
    if k == 4 {
      assert (p + 1) / 4 == p / 4 + (if (p + 1) % 4 == 0 then 1 else 0);
    } else if k == 100 {
      assert (p + 1) / 100 == p / 100 + (if (p + 1) % 100 == 0 then 1 else 0);
    } else {
      assert (p + 1) / 400 == p / 400 + (if (p + 1) % 400 == 0 then 1 else 0);
    }
  }

  lemma {:induction false} DaysBeforeYearGrows(a: int, b: int)
    requires 1 <= a <= b
    ensures DaysBeforeYear(a) + 365 * (b - a) <= DaysBeforeYear(b)
    decreases b - a
  {
    if a < b {
      DaysBeforeYearGrows(a + 1, b);
      DaysBeforeYearStep(a);
    }
  }

  lemma MonthStep(y: int, m: int)
    requires 1 <= m <= 12
    ensures DaysBeforeMonth(y, m + 1) == DaysBeforeMonth(y, m) + DaysInMonth(y, m)
  {
  }

  lemma MonthBounds(y: int, m: int, m': int)
    requires 1 <= m <= m' <= 13
    ensures DaysBeforeMonth(y, m) <= DaysBeforeMonth(y, m')
    ensures DaysBeforeMonth(y, 13) == DaysInYear(y)
  {
  }

  /** The ordinal of every day of year y lies in the block of that year. */
  lemma OrdinalInYear(d: Date)
    requires InCalendar(d)
    ensures DaysBeforeYear(d.year) < Ordinal(d) <= DaysBeforeYear(d.year) + DaysInYear(d.year)
  {
    MonthStep(d.year, d.month);
    MonthBounds(d.year, d.month + 1, 13);
  }

  /** Later triples have larger ordinals. */
  lemma OrdinalMonotone(a: Date, b: Date)
    requires InCalendar(a) && InCalendar(b)
    requires NotAfter(a, b) && a != b
    ensures Ordinal(a) < Ordinal(b)
  {
    if a.year < b.year {
      OrdinalInYear(a);
      OrdinalInYear(b);
      DaysBeforeYearStep(a.year);
      DaysBeforeYearGrows(a.year + 1, b.year);
    } else if a.month < b.month {
      MonthStep(a.year, a.month);
      MonthBounds(a.year, a.month + 1, b.month);
    }
  }

  /** Ordinal order is chronological order, and the ordinal is one-to-one. */
  lemma OrdinalOrder(a: Date, b: Date)
    requires InCalendar(a) && InCalendar(b)
    ensures NotAfter(a, b) <==> Ordinal(a) <= Ordinal(b)
    ensures Ordinal(a) == Ordinal(b) <==> a == b
  {
    if a != b {
      if NotAfter(a, b) {
        OrdinalMonotone(a, b);
      } else {
        OrdinalMonotone(b, a);
      }
    }
  }

  /**
   * The year holding day n of the count that starts at year y, and the
   * day of that year (1-based).
   */
  function LocateYear(y: int, n: int): (r: (int, int))
    requires 1 <= y && 1 <= n
    ensures y <= r.0 && 1 <= r.1 <= DaysInYear(r.0)
    ensures DaysBeforeYear(r.0) + r.1 == DaysBeforeYear(y) + n
    decreases n
  {
    DaysBeforeYearStep(y);
    if n <= DaysInYear(y) then (y, n)
    else LocateYear(y + 1, n - DaysInYear(y))
  }

  /**
   * The month holding day k of year y counted from the start of month m,
   * and the day of that month.
   */
  function LocateMonth(y: int, m: int, k: int): (r: (int, int))
    requires 1 <= m <= 12 && 1 <= k
    requires DaysBeforeMonth(y, m) + k <= DaysInYear(y)
    ensures m <= r.0 <= 12 && 1 <= r.1 <= DaysInMonth(y, r.0)
    ensures DaysBeforeMonth(y, r.0) + r.1 == DaysBeforeMonth(y, m) + k
    decreases 12 - m
  {
    MonthStep(y, m);
    if k <= DaysInMonth(y, m) then (m, k)
    else LocateMonth(y, m + 1, k - DaysInMonth(y, m))
  }

  /** Civil-from-days: the date with ordinal n. */
  function FromOrdinal(n: int): (d: Date)
    requires 1 <= n
    ensures InCalendar(d) && Ordinal(d) == n
  {
    var (y, k) := LocateYear(1, n);
    MonthBounds(y, 1, 13);
    var (m, day) := LocateMonth(y, 1, k);
    Date(y, m, day)
  }

  /** Days-from-civil followed by civil-from-days gives the date back. */
  lemma FromOrdinalOfOrdinal(d: Date)
    requires InCalendar(d)
    ensures Ordinal(d) >= 1 && FromOrdinal(Ordinal(d)) == d
  {
    OrdinalInYear(d);
    OrdinalOrder(d, FromOrdinal(Ordinal(d)));
  }

  /** Ordinals up to MaxOrdinal name dates Python can represent. */
  lemma FromOrdinalValid(n: int)
    requires 1 <= n <= MaxOrdinal
    ensures Valid(FromOrdinal(n))
  {
    var last := Date(MaxYear, 12, 31);
    assert Ordinal(last) == MaxOrdinal;
    var d := FromOrdinal(n);
    if d.year > MaxYear {
      OrdinalMonotone(last, d);
    }
  }

  /**
   * `d - timedelta(days=k)`: None when the result falls before 0001-01-01
   * (Python raises OverflowError there).
   */
  function MinusDays(d: Date, k: nat): (r: Option<Date>)
    requires Valid(d)
    ensures r.None? <==> Ordinal(d) <= k
    ensures r.Some? ==> Valid(r.value) && Ordinal(r.value) + k == Ordinal(d)
    ensures r.Some? ==> NotAfter(r.value, d)
  {
    OrdinalOrder(d, Date(MaxYear, 12, 31));
    if Ordinal(d) - k < 1 then None
    else
      var e := FromOrdinal(Ordinal(d) - k);
      FromOrdinalValid(Ordinal(d) - k);
      OrdinalOrder(e, d);
      Some(e)
  }

  /** The same month and day one year later is the length of the year in between later. */
  lemma OrdinalYearApart(d: Date)
    requires InCalendar(d) && 2 <= d.year && InCalendar(Date(d.year - 1, d.month, d.day))
    ensures Ordinal(d) == Ordinal(Date(d.year - 1, d.month, d.day))
                          + (if d.month <= 2 then DaysInYear(d.year - 1) else DaysInYear(d.year))
  {
    DaysBeforeYearStep(d.year - 1);
  }

  /**
   * 365 days back lands on the same month and day of the previous year
   * exactly when no February 29 lies in between.
   */
  lemma MinusYearOfDays(d: Date)
    requires Valid(d) && 2 <= d.year && !(d.month == 2 && d.day == 29)
    ensures MinusDays(d, 365) == Some(Date(d.year - 1, d.month, d.day))
            <==> if d.month <= 2 then !IsLeapYear(d.year - 1) else !IsLeapYear(d.year)
  {
    var e := Date(d.year - 1, d.month, d.day);
    assert InCalendar(e);
    OrdinalYearApart(d);
    OrdinalInYear(e);
    var r := MinusDays(d, 365);
    assert r.Some? && Ordinal(r.value) + 365 == Ordinal(d);
    OrdinalOrder(r.value, e);
  }
}
