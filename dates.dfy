/**
 * The proleptic Gregorian calendar of Python's `datetime.date`, and
 * `datetime.datetime` as a date plus the microseconds elapsed since midnight.
 * Python compares dates field by field (year, then month, then day); the
 * ordinal (`date.toordinal()`) is proved to be an order embedding, so that
 * comparisons and differences can be done on integers.
 */
module Dates {

  const MinYear := 1
  const MaxYear := 9999
  const MicrosPerSecond := 1000000
  const SecondsPerDay := 86400
  const DayMicros := 86400 * 1000000

  datatype Date = Date(year: int, month: int, day: int)

  /** A point in time: a date and the microseconds elapsed since its midnight. */
  datatype DateTime = DateTime(date: Date, micros: int)

  predicate IsLeap(y: int) {
    y % 4 == 0 && (y % 100 != 0 || y % 400 == 0)
  }

  function DaysInMonth(y: int, m: int): (n: int)
    requires 1 <= m <= 12
    ensures 28 <= n <= 31
    ensures n == 31 <==> m in {1, 3, 5, 7, 8, 10, 12}
  {
    if m == 2 then (if IsLeap(y) then 29 else 28)
    else if m == 4 || m == 6 || m == 9 || m == 11 then 30
    else 31
  }

  /** What `date(year, month, day)` accepts without raising ValueError. */
  predicate ValidDate(d: Date) {
    MinYear <= d.year <= MaxYear && 1 <= d.month <= 12 && 1 <= d.day <= DaysInMonth(d.year, d.month)
  }

  predicate ValidDateTime(t: DateTime) {
    ValidDate(t.date) && 0 <= t.micros < DayMicros
  }

  /** Python's `a < b` on dates: field by field. */
  predicate DateLess(a: Date, b: Date) {
    a.year < b.year
    || (a.year == b.year && a.month < b.month)
    || (a.year == b.year && a.month == b.month && a.day < b.day)
  }

  function DaysBeforeYear(y: int): int {
    var p := y - 1;
    p * 365 + p / 4 - p / 100 + p / 400
  }

  /** Days of year `y` before the first of month `m`; month 13 stands for the next January. */
  function DaysBeforeMonth(y: int, m: int): int
    requires 1 <= m <= 13
  {
    var cumulative := [0, 31, 59, 90, 120, 151, 181, 212, 243, 273, 304, 334, 365];
    cumulative[m - 1] + (if m > 2 && IsLeap(y) then 1 else 0)
  }

  /** `date.toordinal()`: 1 for 0001-01-01. */
  function Ordinal(d: Date): int
    requires 1 <= d.month <= 12
  {
    DaysBeforeYear(d.year) + DaysBeforeMonth(d.year, d.month) + d.day
  }

  /** `date.weekday()`: Monday is 0, Sunday is 6. */
  function Weekday(d: Date): (w: int)
    requires 1 <= d.month <= 12
    ensures 0 <= w < 7
  {
    (Ordinal(d) + 6) % 7
  }

  /** `d + timedelta(days=1)`; undefined (OverflowError) after 9999-12-31. */
  function NextDay(d: Date): (n: Date)
    requires ValidDate(d) && d != Date(MaxYear, 12, 31)
    ensures ValidDate(n)
  {
    if d.day < DaysInMonth(d.year, d.month) then Date(d.year, d.month, d.day + 1)
    else if d.month < 12 then Date(d.year, d.month + 1, 1)
    else Date(d.year + 1, 1, 1)
  }

  /** A point in time as one integer: microseconds since 0001-01-01 00:00 minus one day. */
  function Key(t: DateTime): int
    requires 1 <= t.date.month <= 12
  {
    Ordinal(t.date) * DayMicros + t.micros
  }

  /** `datetime.combine(d, time)` at midnight: how SQL promotes a date to a timestamp. */
  function Midnight(d: Date): DateTime {
    DateTime(d, 0)
  }

  // ---------------------------------------------------------------------
  // The ordinal counts days

  lemma DaysBeforeYearStep(y: int)
    ensures DaysBeforeYear(y + 1) == DaysBeforeYear(y) + (if IsLeap(y) then 366 else 365)
  {
    var p := y - 1;
    assert y / 4 - p / 4 == if y % 4 == 0 then 1 else 0;
    assert y / 100 - p / 100 == if y % 100 == 0 then 1 else 0;
    assert y / 400 - p / 400 == if y % 400 == 0 then 1 else 0;
    assert y % 400 == 0 ==> y % 100 == 0;
    assert y % 100 == 0 ==> y % 4 == 0;
  }

  lemma DaysBeforeMonthNext(y: int, m: int)
    requires 1 <= m <= 12
    ensures DaysBeforeMonth(y, m) + DaysInMonth(y, m) == DaysBeforeMonth(y, m + 1)
  {
  }

  lemma {:induction false} DaysBeforeMonthBound(y: int, m1: int, m2: int)
    requires 1 <= m1 < m2 <= 13
    ensures DaysBeforeMonth(y, m1) + DaysInMonth(y, m1) <= DaysBeforeMonth(y, m2)
  {
    DaysBeforeMonthNext(y, m1);
  }

  lemma DaysInYear(y: int)
    ensures DaysBeforeMonth(y, 13) == if IsLeap(y) then 366 else 365
  {
  }

  lemma {:induction false} DaysBeforeYearBound(y1: int, y2: int)
    requires y1 < y2
    ensures DaysBeforeYear(y1) + DaysBeforeMonth(y1, 13) <= DaysBeforeYear(y2)
    decreases y2 - y1
  {
    DaysBeforeYearStep(y1);
    DaysInYear(y1);
    if y1 + 1 < y2 {
      DaysBeforeYearBound(y1 + 1, y2);
      DaysBeforeYearStep(y1 + 1);
      DaysInYear(y1 + 1);
    }
  }

  /** The ordinal of a date is strictly between the start and the end of its year. */
  lemma OrdinalWithinYear(d: Date)
    requires ValidDate(d)
    ensures DaysBeforeYear(d.year) < Ordinal(d) <= DaysBeforeYear(d.year) + DaysBeforeMonth(d.year, 13)
  {
    DaysBeforeMonthBound(d.year, d.month, 13);
  }

  /** Field-by-field order and ordinal order agree on valid dates. */
  lemma OrdinalMonotone(a: Date, b: Date)
    requires ValidDate(a) && ValidDate(b)
    ensures DateLess(a, b) <==> Ordinal(a) < Ordinal(b)
    ensures a == b <==> Ordinal(a) == Ordinal(b)
  {
    if a.year < b.year {
      OrdinalWithinYear(a);
      OrdinalWithinYear(b);
      DaysBeforeYearBound(a.year, b.year);
    } else if b.year < a.year {
      OrdinalWithinYear(a);
      OrdinalWithinYear(b);
      DaysBeforeYearBound(b.year, a.year);
    } else if a.month < b.month {
      DaysBeforeMonthBound(a.year, a.month, b.month);
    } else if b.month < a.month {
      DaysBeforeMonthBound(a.year, b.month, a.month);
    }
  }

  /** The next day is one ordinal further. */
  lemma OrdinalNextDay(d: Date)
    requires ValidDate(d) && d != Date(MaxYear, 12, 31)
    ensures Ordinal(NextDay(d)) == Ordinal(d) + 1
  {
    if d.day == DaysInMonth(d.year, d.month) && d.month == 12 {
      DaysBeforeYearStep(d.year);
      DaysInYear(d.year);
    }
  }

  /** Comparing date-times field by field is comparing their keys. */
  lemma KeyMonotone(s: DateTime, t: DateTime)
    requires ValidDateTime(s) && ValidDateTime(t)
    ensures Key(s) < Key(t) <==> DateLess(s.date, t.date) || (s.date == t.date && s.micros < t.micros)
    ensures Key(s) == Key(t) <==> s == t
  {
    OrdinalMonotone(s.date, t.date);
    ScaledOrder(Ordinal(s.date), s.micros, Ordinal(t.date), t.micros);
  }

  /** Whole days dominate the microseconds within a day. */
  lemma ScaledOrder(a: int, x: int, b: int, y: int)
    requires 0 <= x < DayMicros && 0 <= y < DayMicros
    ensures a * DayMicros + x < b * DayMicros + y <==> a < b || (a == b && x < y)
    ensures a * DayMicros + x == b * DayMicros + y <==> a == b && x == y
  {
    if a < b {
      assert (b - a) * DayMicros >= DayMicros;
      assert b * DayMicros - a * DayMicros == (b - a) * DayMicros;
    } else if b < a {
      assert (a - b) * DayMicros >= DayMicros;
      assert a * DayMicros - b * DayMicros == (a - b) * DayMicros;
    }
  }
}
