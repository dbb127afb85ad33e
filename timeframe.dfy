/**
 * Timeframes of `seantis/reservation/timeframe.py`: the date-range invariant
 * of the schema, the `timestr` label, the search for an overlapping sibling
 * frame and the walk up the acquisition chain to the nearest level that holds
 * timeframes. The catalog is a parameter: `framesIn(o)` is what the catalog
 * query for timeframes directly inside `o` returns, in catalog order.
 */
module Timeframes {
  import opened Wrappers
  import opened Decimal
  import opened Dates
  import opened Intervals

  const TimeframeType := "seantis.reservation.timeframe"
  const SiteRootType := "Plone Site"

  /** A catalog brain of a timeframe, resolved to the object it stands for. */
  datatype Frame = Frame(id: string, title: string, start: Date, end: Date)

  /**
   * A content object in its acquisition context: its id, its `portal_type`
   * when it has that attribute, and the parent it was acquired from.
   */
  datatype Obj = Obj(id: string, portalType: Option<string>, parent: Option<Obj>)

  // ---------------------------------------------------------------------
  // ITimeframe.isValidDateRange

  datatype Invalid = Invalid(message: string)

  const EndBeforeStart := "End date before start date"

  /** The schema invariant: the end may equal the start but not precede it. */
  function IsValidDateRange(start: Date, end: Date): (r: Result<(), Invalid>)
    ensures r.Failure? ==> r.error == Invalid(EndBeforeStart)
  {
    if DateLess(end, start) then Failure(Invalid(EndBeforeStart)) else Success(())
  }

  /** A range is accepted exactly when its start is not after its end, in days. */
  lemma ValidDateRangeOrdinals(start: Date, end: Date)
    requires ValidDate(start) && ValidDate(end)
    ensures IsValidDateRange(start, end).Success? <==> Ordinal(start) <= Ordinal(end)
  {
    OrdinalMonotone(end, start);
  }

  /** A one-day frame is valid; a frame ending the day before it starts is not. */
  lemma ValidDateRangeEdges(d: Date)
    requires ValidDate(d) && d != Date(MaxYear, 12, 31)
    ensures IsValidDateRange(d, d).Success?
    ensures IsValidDateRange(NextDay(d), d).Failure?
  {
    OrdinalNextDay(d);
    OrdinalMonotone(d, NextDay(d));
  }

  // ---------------------------------------------------------------------
  // Timeframe.timestr

  datatype FormatError = YearBefore1900(year: int)

  /** `d.strftime('%d.%m.%Y')`; Python 2 refuses years before 1900. */
  function FormatDate(d: Date): (r: Result<string, FormatError>)
    requires ValidDate(d)
    ensures r.Failure? <==> d.year < 1900
    ensures r.Success? ==> |r.value| == 10 && r.value[2] == '.' && r.value[5] == '.'
    ensures r.Success? ==> AllDigits(r.value[..2]) && AllDigits(r.value[3..5]) && AllDigits(r.value[6..])
  {
    if d.year < 1900 then Failure(YearBefore1900(d.year))
    else
      assert NatToString(d.day) == NatToString(d.day / 10) + [DigitChar(d.day % 10)] || d.day < 10;
      assert NatToString(d.month) == NatToString(d.month / 10) + [DigitChar(d.month % 10)] || d.month < 10;
      YearDigits(d.year);
      var s := ZeroPad(d.day, 2) + "." + ZeroPad(d.month, 2) + "." + ZeroPad(d.year, 4);
      assert s[..2] == ZeroPad(d.day, 2) && s[3..5] == ZeroPad(d.month, 2) && s[6..] == ZeroPad(d.year, 4);
      Success(s)
  }

  /** Years 1900 .. 9999 have four digits. */
  lemma YearDigits(y: int)
    requires 1900 <= y <= MaxYear
    ensures |NatToString(y)| == 4
  {
    assert NatToString(y) == NatToString(y / 10) + [DigitChar(y % 10)];
    assert NatToString(y / 10) == NatToString(y / 100) + [DigitChar(y / 10 % 10)];
    assert NatToString(y / 100) == NatToString(y / 1000) + [DigitChar(y / 100 % 10)];
  }

  /** Reading the label back gives day, month and year. */
  lemma FormatDateReadsBack(d: Date)
    requires ValidDate(d) && d.year >= 1900
    ensures var s := FormatDate(d).value;
            ParseDigits(s[..2]) == d.day && ParseDigits(s[3..5]) == d.month && ParseDigits(s[6..]) == d.year
  {
    var s := FormatDate(d).value;
    YearDigits(d.year);
    assert s == ZeroPad(d.day, 2) + "." + ZeroPad(d.month, 2) + "." + ZeroPad(d.year, 4);
    assert s[..2] == ZeroPad(d.day, 2) && s[3..5] == ZeroPad(d.month, 2) && s[6..] == ZeroPad(d.year, 4);
    ParseZeroPad(d.day, 2);
    ParseZeroPad(d.month, 2);
    ParseZeroPad(d.year, 4);
  }

  /** `timestr`: `'dd.mm.YYYY - dd.mm.YYYY'`, failing as `strftime` does. */
  function Timestr(f: Frame): (r: Result<string, FormatError>)
    requires ValidDate(f.start) && ValidDate(f.end)
    ensures r.Failure? <==> f.start.year < 1900 || f.end.year < 1900
    ensures r.Success? ==> |r.value| == 23 && r.value[10..13] == " - "
  {
    match FormatDate(f.start)
    case Failure(e) => Failure(e)
    case Success(a) =>
      match FormatDate(f.end)
      case Failure(e) => Failure(e)
      case Success(b) => Success(a + " - " + b)
  }

  /** Both halves of the label read back as the frame's start and end. */
  lemma TimestrReadsBack(f: Frame)
    requires ValidDate(f.start) && ValidDate(f.end) && f.start.year >= 1900 && f.end.year >= 1900
    ensures var s := Timestr(f).value;
            ParseDigits(s[..2]) == f.start.day && ParseDigits(s[3..5]) == f.start.month
            && ParseDigits(s[6..10]) == f.start.year
            && ParseDigits(s[13..15]) == f.end.day && ParseDigits(s[16..18]) == f.end.month
            && ParseDigits(s[19..]) == f.end.year
  {
    var a := FormatDate(f.start).value;
    var b := FormatDate(f.end).value;
    var s := Timestr(f).value;
    assert s == a + " - " + b;
    assert s[..2] == a[..2] && s[3..5] == a[3..5] && s[6..10] == a[6..];
    assert s[13..15] == b[..2] && s[16..18] == b[3..5] && s[19..] == b[6..];
    FormatDateReadsBack(f.start);
    FormatDateReadsBack(f.end);
  }

  // ---------------------------------------------------------------------
  // overlapping_timeframe and validate_timeframe

  datatype LookupError = AttributeError

  /** `utils.overlaps` on dates, which Python compares field by field. */
  predicate DatesOverlap(start: Date, end: Date, otherstart: Date, otherend: Date)
    requires 1 <= start.month <= 12 && 1 <= end.month <= 12
    requires 1 <= otherstart.month <= 12 && 1 <= otherend.month <= 12
  {
    Overlaps(Ordinal(start), Ordinal(end), Ordinal(otherstart), Ordinal(otherend))
  }

  predicate ValidFrame(f: Frame) {
    ValidDate(f.start) && ValidDate(f.end)
  }

  predicate ValidFrames(frames: seq<Frame>) {
    forall k :: 0 <= k < |frames| ==> ValidFrame(frames[k])
  }

  /** The folder whose timeframes are searched: a timeframe's parent, any other object itself. */
  function SearchFolder(context: Obj): (r: Result<Obj, LookupError>)
    ensures context.portalType == Some(TimeframeType) && context.parent.Some? ==> r == Success(context.parent.value)
    ensures context.portalType.Some? && context.portalType != Some(TimeframeType) ==> r == Success(context)
    ensures r.Failure? <==> context.portalType.None? || (context.portalType == Some(TimeframeType) && context.parent.None?)
  {
    match context.portalType
    case None => Failure(AttributeError)
    case Some(t) =>
      if t == TimeframeType then
        (match context.parent
         case Some(p) => Success(p)
         case None => Failure(AttributeError))
      else Success(context)
  }

  /** The loop of `overlapping_timeframe`: the first frame, in catalog order, that overlaps and is not the context. */
  function FirstOverlapping(frames: seq<Frame>, contextId: string, start: Date, end: Date): (r: Option<Frame>)
    requires ValidDate(start) && ValidDate(end) && ValidFrames(frames)
    ensures r.Some? ==> r.value in frames && r.value.id != contextId && ValidFrame(r.value)
    ensures r.Some? ==> DatesOverlap(start, end, r.value.start, r.value.end)
  {
    if frames == [] then None
    else if frames[0].id == contextId then FirstOverlapping(frames[1..], contextId, start, end)
    else if DatesOverlap(start, end, frames[0].start, frames[0].end) then Some(frames[0])
    else FirstOverlapping(frames[1..], contextId, start, end)
  }

  /** A frame that conflicts with the range and is not the context itself. */
  predicate Conflicting(f: Frame, contextId: string, start: Date, end: Date)
    requires ValidDate(start) && ValidDate(end) && ValidDate(f.start) && ValidDate(f.end)
  {
    f.id != contextId && DatesOverlap(start, end, f.start, f.end)
  }

  /**
   * The search returns the first conflicting frame: every frame before it is
   * either the context or clear of the range, and it returns nothing exactly
   * when no frame conflicts.
   */
  lemma FirstOverlappingIsFirst(frames: seq<Frame>, contextId: string, start: Date, end: Date)
    requires ValidDate(start) && ValidDate(end) && ValidFrames(frames)
    ensures var r := FirstOverlapping(frames, contextId, start, end);
            (r.None? <==> forall k :: 0 <= k < |frames| ==> !Conflicting(frames[k], contextId, start, end))
            && (r.Some? ==>
                  exists i :: 0 <= i < |frames| && frames[i] == r.value
                    && forall k :: 0 <= k < i ==> !Conflicting(frames[k], contextId, start, end))
  {
    FirstOverlappingNone(frames, contextId, start, end);
    if FirstOverlapping(frames, contextId, start, end).Some? {
      FirstOverlappingPrefix(frames, contextId, start, end);
    }
  }

  lemma {:induction false} FirstOverlappingNone(frames: seq<Frame>, contextId: string, start: Date, end: Date)
    requires ValidDate(start) && ValidDate(end) && ValidFrames(frames)
    ensures FirstOverlapping(frames, contextId, start, end).None?
            <==> forall k :: 0 <= k < |frames| ==> !Conflicting(frames[k], contextId, start, end)
  {
    if frames != [] {
      var rest := frames[1..];
      assert ValidFrames(rest) by {
        assert forall k :: 0 <= k < |rest| ==> rest[k] == frames[k + 1];
      }
      FirstOverlappingNone(rest, contextId, start, end);
      assert forall k :: 0 < k < |frames| ==> frames[k] == rest[k - 1];
    }
  }

  lemma {:induction false} FirstOverlappingPrefix(frames: seq<Frame>, contextId: string, start: Date, end: Date)
    requires ValidDate(start) && ValidDate(end) && ValidFrames(frames)
    requires FirstOverlapping(frames, contextId, start, end).Some?
    ensures exists i :: 0 <= i < |frames| && frames[i] == FirstOverlapping(frames, contextId, start, end).value
              && forall k :: 0 <= k < i ==> !Conflicting(frames[k], contextId, start, end)
  {
    var r := FirstOverlapping(frames, contextId, start, end);
    if Conflicting(frames[0], contextId, start, end) {
      assert frames[0] == r.value;
    } else {
      var rest := frames[1..];
      assert ValidFrames(rest) by {
        assert forall k :: 0 <= k < |rest| ==> rest[k] == frames[k + 1];
      }
      assert r == FirstOverlapping(rest, contextId, start, end);
      FirstOverlappingPrefix(rest, contextId, start, end);
      var i :| 0 <= i < |rest| && rest[i] == r.value
               && forall k :: 0 <= k < i ==> !Conflicting(rest[k], contextId, start, end);
      assert frames[i + 1] == r.value;
      forall k | 0 <= k < i + 1
        ensures !Conflicting(frames[k], contextId, start, end)
      {
        if k > 0 {
          assert frames[k] == rest[k - 1];
        }
      }
    }
  }

  /** `overlapping_timeframe(context, start, end)`; a context without `portal_type` raises. */
  function OverlappingTimeframe(framesIn: Obj -> seq<Frame>, context: Obj, start: Date, end: Date)
    : (r: Result<Option<Frame>, LookupError>)
    requires ValidDate(start) && ValidDate(end)
    requires forall o :: ValidFrames(framesIn(o))
    ensures r.Failure? <==> SearchFolder(context).Failure?
    ensures r.Success? && r.value.Some? ==> r.value.value.id != context.id
    ensures r.Success? && r.value.Some? ==>
              r.value.value in framesIn(SearchFolder(context).value) && ValidFrame(r.value.value)
              && DatesOverlap(start, end, r.value.value.start, r.value.value.end)
  {
    match SearchFolder(context)
    case Failure(e) => Failure(e)
    case Success(folder) => Success(FirstOverlapping(framesIn(folder), context.id, start, end))
  }

  /** The context is never reported as overlapping itself, whatever the catalog holds. */
  lemma OverlappingSkipsContext(framesIn: Obj -> seq<Frame>, context: Obj, start: Date, end: Date)
    requires ValidDate(start) && ValidDate(end)
    requires forall o :: ValidFrames(framesIn(o))
    requires forall k :: 0 <= k < |framesIn(context)| ==> framesIn(context)[k].id == context.id
    requires context.portalType.Some? && context.portalType != Some(TimeframeType)
    ensures OverlappingTimeframe(framesIn, context, start, end) == Success(None)
  {
    FirstOverlappingIsFirst(framesIn(context), context.id, start, end);
  }

  datatype FormError = FormError(template: string, overlapTitle: string)

  const OverlapMessage := "Timeframe overlaps with '%s' in the current folder"

  /**
   * `validate_timeframe(context, request, data)`: a form error naming the
   * overlapping frame. The message is kept untranslated, with the title that
   * fills its placeholder beside it.
   */
  function ValidateTimeframe(framesIn: Obj -> seq<Frame>, context: Obj, start: Date, end: Date)
    : (r: Result<(), Result<FormError, LookupError>>)
    requires ValidDate(start) && ValidDate(end)
    requires forall o :: ValidFrames(framesIn(o))
  {
    match OverlappingTimeframe(framesIn, context, start, end)
    case Failure(e) => Failure(Failure(e))
    case Success(None) => Success(())
    case Success(Some(f)) => Failure(Success(FormError(OverlapMessage, f.title)))
  }

  /** The form is refused exactly when some frame of the folder, other than the context, overlaps the range. */
  lemma ValidateTimeframeRefuses(framesIn: Obj -> seq<Frame>, context: Obj, start: Date, end: Date)
    requires ValidDate(start) && ValidDate(end)
    requires forall o :: ValidFrames(framesIn(o))
    requires SearchFolder(context).Success?
    ensures var frames := framesIn(SearchFolder(context).value);
            ValidateTimeframe(framesIn, context, start, end).Failure?
            <==> exists k :: 0 <= k < |frames| && Conflicting(frames[k], context.id, start, end)
  {
    FirstOverlappingIsFirst(framesIn(SearchFolder(context).value), context.id, start, end);
  }

  // ---------------------------------------------------------------------
  // timeframes_by_context

  /** Where the walk up the acquisition chain gives up with no frames. */
  predicate StopsWalk(o: Obj) {
    o.portalType.None? || o.portalType == Some(SiteRootType)
  }

  /**
   * `timeframes_by_context(context)`: the frames of the context, or else of its
   * nearest ancestor holding any; an object without `portal_type` or the site
   * root ends the walk with none. Acquiring past a parentless object raises.
   */
  function TimeframesByContext(framesIn: Obj -> seq<Frame>, context: Obj): (r: Result<seq<Frame>, LookupError>)
    ensures framesIn(context) != [] ==> r == Success(framesIn(context))
    ensures r.Success? && r.value != [] ==> exists a :: a in AcquisitionChain(context) && r.value == framesIn(a)
  {
    var frames := framesIn(context);
    if frames != [] then Success(frames)
    else if StopsWalk(context) then Success([])
    else match context.parent
      case None => Failure(AttributeError)
      case Some(p) => TimeframesByContext(framesIn, p)
  }

  /** The context followed by its parent, the parent's parent and so on. */
  function AcquisitionChain(o: Obj): (c: seq<Obj>)
    ensures |c| >= 1 && c[0] == o
  {
    match o.parent
    case None => [o]
    case Some(p) => [o] + AcquisitionChain(p)
  }

  /**
   * Level `i` of the chain `c` is where the walk ends: it holds frames or stops
   * the walk, and no level below it does either.
   */
  predicate WalkEndsAt(framesIn: Obj -> seq<Frame>, c: seq<Obj>, i: int) {
    0 <= i < |c|
    && (framesIn(c[i]) != [] || StopsWalk(c[i]))
    && forall j :: 0 <= j < i ==> framesIn(c[j]) == [] && !StopsWalk(c[j])
  }

  /**
   * The walk returns the frames of the first level, counting from the context,
   * that holds frames or ends the walk.
   */
  lemma {:induction false} TimeframesByContextNearest(framesIn: Obj -> seq<Frame>, context: Obj)
    requires TimeframesByContext(framesIn, context).Success?
    ensures exists i :: WalkEndsAt(framesIn, AcquisitionChain(context), i)
                        && TimeframesByContext(framesIn, context).value == framesIn(AcquisitionChain(context)[i])
    decreases context
  {
    var c := AcquisitionChain(context);
    if framesIn(context) == [] && !StopsWalk(context) {
      var p := context.parent.value;
      TimeframesByContextNearest(framesIn, p);
      var cp := AcquisitionChain(p);
      assert c == [context] + cp;
      var i :| WalkEndsAt(framesIn, cp, i) && TimeframesByContext(framesIn, p).value == framesIn(cp[i]);
      assert c[i + 1] == cp[i];
      forall j | 0 <= j < i + 1
        ensures framesIn(c[j]) == [] && !StopsWalk(c[j])
      {
        if j > 0 {
          assert c[j] == cp[j - 1];
        }
      }
      assert WalkEndsAt(framesIn, c, i + 1);
    } else {
      assert WalkEndsAt(framesIn, c, 0);
    }
  }
}
