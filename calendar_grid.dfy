/**
 * The calendar grid that `monthly_report` in `seantis/reservation/report.py`
 * walks: `Calendar().itermonthdates(year, month)` yields whole weeks, Monday
 * first, so the month's days are preceded by the last days of the previous
 * month and followed by the first days of the next. Only the day numbers
 * matter to the report. The grid stops early after 9999-12-31, where the
 * next date would overflow.
 */
module CalendarGrid {
  import opened Dates

  /** A month the calendar accepts: `date(year, month, 1)` exists. */
  predicate ValidMonth(year: int, month: int) {
    MinYear <= year <= MaxYear && 1 <= month <= 12
  }

  /** The length of the month before. */
  function PrevMonthDays(year: int, month: int): (n: int)
    requires 1 <= month <= 12
    ensures 28 <= n <= 31
  {
    if month == 1 then DaysInMonth(year - 1, 12) else DaysInMonth(year, month - 1)
  }

  /** How many days of the previous month open the grid: the weekday of the 1st. */
  function Lead(year: int, month: int): (n: int)
    requires ValidMonth(year, month)
    ensures 0 <= n < 7
  {
    Weekday(Date(year, month, 1))
  }

  /** How many days of the next month close the grid: up to the next Monday. */
  function Trail(year: int, month: int): (n: int)
    requires ValidMonth(year, month)
    ensures 0 <= n < 7
  {
    if year == MaxYear && month == 12 then 0
    else (7 - (Lead(year, month) + DaysInMonth(year, month)) % 7) % 7
  }

  /** The days of the month: 1 .. its length. */
  function MonthDays(year: int, month: int): (s: seq<int>)
    requires 1 <= month <= 12
    ensures |s| == DaysInMonth(year, month)
    ensures forall i :: 0 <= i < |s| ==> s[i] == i + 1
  {
    seq(DaysInMonth(year, month), i => i + 1)
  }

  /** The day numbers of `itermonthdates(year, month)`, in order. */
  function MonthGrid(year: int, month: int): (g: seq<int>)
    requires ValidMonth(year, month)
    ensures |g| == Lead(year, month) + DaysInMonth(year, month) + Trail(year, month)
  {
    var lead := Lead(year, month);
    var prev := PrevMonthDays(year, month);
    seq(lead, i => prev - lead + 1 + i) + MonthDays(year, month) + seq(Trail(year, month), i => i + 1)
  }

  /** The grid is made of whole weeks, except in December 9999. */
  lemma GridWholeWeeks(year: int, month: int)
    requires ValidMonth(year, month) && !(year == MaxYear && month == 12)
    ensures |MonthGrid(year, month)| % 7 == 0
    ensures 28 <= |MonthGrid(year, month)| <= 42
  {
    WeekPadding(Lead(year, month), DaysInMonth(year, month));
  }

  /** Padding `lead + days` up to the next multiple of seven. */
  lemma WeekPadding(lead: int, days: int)
    requires 0 <= lead < 7 && 28 <= days <= 31
    ensures var n := lead + days + (7 - (lead + days) % 7) % 7;
            n % 7 == 0 && 28 <= n <= 42
  {
    var s := lead + days;
    var q := s % 7;
    assert s == 7 * (s / 7) + q;
    assert 4 <= s / 7 <= 5;
    if q == 0 {
      assert (7 - q) % 7 == 0;
    } else {
      assert (7 - q) % 7 == 7 - q;
      assert s + (7 - q) == 7 * (s / 7 + 1);
    }
  }

  /** The month's own days sit in the grid right after the lead, in order. */
  lemma GridHoldsMonth(year: int, month: int)
    requires ValidMonth(year, month)
    ensures var g := MonthGrid(year, month);
            var lead := Lead(year, month);
            g[lead..lead + DaysInMonth(year, month)] == MonthDays(year, month)
  {
    var g := MonthGrid(year, month);
    var lead := Lead(year, month);
    var prev := PrevMonthDays(year, month);
    var a := seq(lead, i => prev - lead + 1 + i);
    assert g == a + MonthDays(year, month) + seq(Trail(year, month), i => i + 1);
    assert g[lead..lead + DaysInMonth(year, month)] == MonthDays(year, month);
  }

  /** The lead is the end of the previous month, up to its last day. */
  lemma GridLeadEndsPrevMonth(year: int, month: int)
    requires ValidMonth(year, month) && Lead(year, month) > 0
    ensures MonthGrid(year, month)[Lead(year, month) - 1] == PrevMonthDays(year, month)
    ensures forall i :: 0 <= i < Lead(year, month) ==> MonthGrid(year, month)[i] <= PrevMonthDays(year, month)
  {
  }

  /** `max(acc, s[0], ..., s[n-1])`, taken left to right. */
  function MaxOf(acc: int, s: seq<int>): (m: int)
    ensures m >= acc && forall i :: 0 <= i < |s| ==> s[i] <= m
    ensures m == acc || m in s
  {
    if s == [] then acc
    else
      var m := MaxOf(acc, s[..|s| - 1]);
      assert forall i :: 0 <= i < |s| - 1 ==> s[..|s| - 1][i] == s[i];
      if s[|s| - 1] > m then s[|s| - 1] else m
  }

  /** A bound that is reached is the maximum. */
  lemma MaxOfIs(acc: int, s: seq<int>, c: int)
    requires c >= acc && forall i :: 0 <= i < |s| ==> s[i] <= c
    requires c == acc || c in s
    ensures MaxOf(acc, s) == c
  {
  }

  /**
   * The largest day number of the grid, counting from 28: the month's length,
   * or the previous month's when that is longer and the month does not start
   * on a Monday.
   */
  lemma GridMax(year: int, month: int)
    requires ValidMonth(year, month)
    ensures MaxOf(28, MonthGrid(year, month))
            == if Lead(year, month) > 0 && PrevMonthDays(year, month) > DaysInMonth(year, month)
               then PrevMonthDays(year, month) else DaysInMonth(year, month)
  {
    var g := MonthGrid(year, month);
    var lead := Lead(year, month);
    var d := DaysInMonth(year, month);
    var prev := PrevMonthDays(year, month);
    var c := if lead > 0 && prev > d then prev else d;
    GridHoldsMonth(year, month);
    assert g[lead + d - 1] == d;
    if lead > 0 {
      GridLeadEndsPrevMonth(year, month);
    }
    assert c in g;
    MaxOfIs(28, g, c);
  }

  /** The month's own days never go past its length. */
  lemma MonthDaysMax(year: int, month: int)
    requires 1 <= month <= 12
    ensures MaxOf(28, MonthDays(year, month)) == DaysInMonth(year, month)
  {
    var s := MonthDays(year, month);
    assert s[|s| - 1] == DaysInMonth(year, month);
    MaxOfIs(28, s, DaysInMonth(year, month));
  }
}
