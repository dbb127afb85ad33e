/**
 * Time helpers of `seantis/reservation/utils.py`: the overlap test, Python's
 * `timedelta` normal form, `total_timedelta_seconds`, `get_date_range` and
 * `shift_day`.
 */
module Intervals {
  import opened Wrappers
  import opened Dates

  /**
   * `overlaps(start, end, otherstart, otherend)`: closed intervals, so two
   * ranges that only touch at an endpoint overlap.
   */
  function Overlaps(start: int, end: int, otherstart: int, otherend: int): (r: bool)
    ensures start <= end && otherstart <= otherend ==>
              (r <==> otherstart <= end && start <= otherend)
  {
    if otherstart <= start && start <= otherend then true
    else if start <= otherstart && otherstart <= end then true
    else false
  }

  /** The test does not depend on which range comes first. */
  lemma OverlapsSymmetric(start: int, end: int, otherstart: int, otherend: int)
    ensures Overlaps(start, end, otherstart, otherend) == Overlaps(otherstart, otherend, start, end)
  {
  }

  /** A range overlaps itself exactly when it is well formed. */
  lemma OverlapsSelf(start: int, end: int)
    ensures Overlaps(start, end, start, end) <==> start <= end
  {
  }

  /** One booking ending when the next begins is a conflict. */
  lemma TouchingRangesOverlap(a: int, b: int, c: int)
    requires a <= b <= c
    ensures Overlaps(a, b, b, c)
  {
  }

  // ---------------------------------------------------------------------
  // timedelta

  /**
   * Python's `timedelta` in normal form: `seconds` is only the part below one
   * day and `microseconds` the part below one second; `days` carries the sign.
   */
  datatype Timedelta = Timedelta(days: int, seconds: int, microseconds: int)

  predicate Normalized(td: Timedelta) {
    0 <= td.seconds < 86400 && 0 <= td.microseconds < 1000000
  }

  /** The length of a timedelta in microseconds. */
  function TotalMicros(td: Timedelta): int {
    (td.days * 86400 + td.seconds) * 1000000 + td.microseconds
  }

  /** `timedelta(microseconds=us)`, normalized the way Python does it (floor division). */
  function TimedeltaOf(us: int): (td: Timedelta)
    ensures Normalized(td)
    ensures TotalMicros(td) == us
  {
    var secs := us / 1000000;
    Timedelta(secs / 86400, secs % 86400, us % 1000000)
  }

  /** A normalized timedelta is determined by its length. */
  lemma TimedeltaOfTotal(td: Timedelta)
    requires Normalized(td)
    ensures TimedeltaOf(TotalMicros(td)) == td
  {
    var us := TotalMicros(td);
    var secs := td.days * 86400 + td.seconds;
    assert us / 1000000 == secs;
    assert us % 1000000 == td.microseconds;
    assert secs / 86400 == td.days;
    assert secs % 86400 == td.seconds;
  }

  /**
   * `total_timedelta_seconds(td)`: Python 2 `/` on integers floors, so the
   * result is the whole seconds of the length, rounded towards minus infinity.
   */
  function TotalTimedeltaSeconds(td: Timedelta): (s: int)
    ensures s * 1000000 <= TotalMicros(td) < (s + 1) * 1000000
    ensures Normalized(td) ==> s == td.days * 86400 + td.seconds
  {
    (td.microseconds + (td.seconds + td.days * 24 * 3600) * 1000000) / 1000000
  }

  /** A length of -1 microsecond is -1 second, not 0: the division floors. */
  lemma TotalSecondsFloors()
    ensures TotalTimedeltaSeconds(TimedeltaOf(-1)) == -1
  {
  }

  // ---------------------------------------------------------------------
  // get_date_range and shift_day

  datatype DateError = Overflow

  /**
   * `get_date_range(day, start_time, end_time)`: both times combined with the
   * day; an end before the start is taken to mean the following day. Adding a
   * day to 9999-12-31 raises OverflowError in Python.
   */
  function GetDateRange(day: Date, startTime: int, endTime: int): (r: Result<(DateTime, DateTime), DateError>)
    requires ValidDate(day) && 0 <= startTime < DayMicros && 0 <= endTime < DayMicros
    ensures r.Failure? <==> endTime < startTime && day == Date(MaxYear, 12, 31)
    ensures r.Success? ==> r.value.0 == DateTime(day, startTime) && r.value.1.micros == endTime
    ensures r.Success? ==> ValidDateTime(r.value.1)
    ensures r.Success? ==> (r.value.1.date == day <==> startTime <= endTime)
  {
    var start := DateTime(day, startTime);
    var end := DateTime(day, endTime);
    if Key(end) < Key(start) then
      if day == Date(MaxYear, 12, 31) then Failure(Overflow)
      else Success((start, DateTime(NextDay(day), endTime)))
    else Success((start, end))
  }

  /** The range returned starts on the given day and lasts less than 24 hours. */
  lemma GetDateRangeSpan(day: Date, startTime: int, endTime: int)
    requires ValidDate(day) && 0 <= startTime < DayMicros && 0 <= endTime < DayMicros
    requires GetDateRange(day, startTime, endTime).Success?
    ensures var (s, e) := GetDateRange(day, startTime, endTime).value;
            Key(s) <= Key(e) < Key(s) + DayMicros
  {
    var o := Ordinal(day);
    assert Key(DateTime(day, startTime)) == o * DayMicros + startTime;
    if endTime < startTime {
      OrdinalNextDay(day);
      assert Key(DateTime(NextDay(day), endTime)) == o * DayMicros + DayMicros + endTime;
    }
  }

  /**
   * `shift_day(stdday)`: Python's weekday numbering (Monday is 0) to Plone's
   * (Sunday is 0). Python's `%` floors, like Dafny's for a positive divisor.
   */
  function ShiftDay(stdday: int): (r: int)
    ensures 0 <= r <= 6
    ensures r == 0 <==> stdday % 7 == 6
  {
    var m := (stdday + 1) % 7;
    var x := 0 - m;
    if x < 0 then -x else x
  }

  /** Plone's weekday number back to Python's. */
  function UnshiftDay(ploneday: int): (r: int)
    ensures 0 <= r <= 6
  {
    (ploneday + 6) % 7
  }

  /** Shifting is a bijection of the week: Monday becomes 1, Sunday 0. */
  lemma ShiftDayRoundTrip(d: int)
    requires 0 <= d <= 6
    ensures UnshiftDay(ShiftDay(d)) == d && ShiftDay(UnshiftDay(d)) == d
    ensures ShiftDay(0) == 1 && ShiftDay(6) == 0
  {
    assert ShiftDay(0) == 1 && ShiftDay(6) == 0;
    if d == 0 {
      assert UnshiftDay(0) == 6;
    } else if d < 6 {
      assert ShiftDay(d) == d + 1 && UnshiftDay(d) == d - 1;
      assert ShiftDay(d - 1) == d && UnshiftDay(d + 1) == d;
    } else {
      assert UnshiftDay(6) == 5 && ShiftDay(5) == 6;
    }
  }
}
