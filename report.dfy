/**
 * `monthly_report(context, year, month, resource_uuids)` of
 * `seantis/reservation/report.py`: for every day of a month and every
 * requested resource, the approved and the pending reservations, each bucket
 * kept sorted by start.
 *
 * The two database queries are filters over given sequences, in the order the
 * database returns them; the titles of the resources and their display order
 * are inputs. `MonthlyReport` with `AsWritten` follows the code line by line;
 * with `Corrected` it builds the report the code evidently means to build.
 */
module Report {
  import opened Wrappers
  import opened Dates
  import opened CalendarGrid

  type Uuid = string

  /** A timestamp column value: a valid date and a time of day. */
  type Timestamp = t: DateTime | ValidDateTime(t) witness DateTime(Date(1, 1, 1), 0)

  /** The columns of an allocation the report reads. */
  datatype Allocation = Allocation(resource: Uuid, mirrorOf: Uuid, group: Uuid, start: Timestamp, end: Timestamp)

  /** The reservation status enum, in declaration order: pending sorts first. */
  datatype Status = Pending | Confirmed

  /** The columns of a reservation the report reads; start and end are nullable. */
  datatype Reservation = Reservation(target: Uuid, resource: Uuid, status: Status,
                                     start: Option<Timestamp>, end: Option<Timestamp>)

  /** `dict(start=start, end=end, data=None)`. */
  datatype Entry = Entry(start: Timestamp, end: Option<Timestamp>)

  /** `report[day][uuid]`: the resource's title and its two sorted buckets. */
  datatype ResourceDay = ResourceDay(title: string, approved: seq<Entry>, pending: seq<Entry>)

  /** `report`: day of month, then resource, then the resource's day. */
  type MonthReport = map<int, map<Uuid, ResourceDay>>

  datatype ReportError = ValueError | KeyError | AttributeError

  /** The code as written, or the report it evidently means to build. */
  datatype Variant = AsWritten | Corrected

  /** The target the code compares against before expanding a group. */
  const LiteralAllocation := "allocation"

  // ---------------------------------------------------------------------
  // Filters in input order

  function Filter<T(!new)>(p: T -> bool, s: seq<T>): (r: seq<T>)
    ensures |r| <= |s|
    ensures forall x :: x in r <==> x in s && p(x)
    ensures forall i :: 0 <= i < |r| ==> p(r[i])
  {
    if s == [] then []
    else
      var init := Filter(p, s[..|s| - 1]);
      assert forall x :: x in s <==> x in s[..|s| - 1] || x == s[|s| - 1];
      if p(s[|s| - 1]) then init + [s[|s| - 1]] else init
  }

  lemma {:induction false} FilterSplit<T(!new)>(p: T -> bool, q: T -> bool, s: seq<T>)
    requires forall x :: p(x) <==> !q(x)
    ensures multiset(Filter(p, s)) + multiset(Filter(q, s)) == multiset(s)
  {
    if s != [] {
      FilterSplit(p, q, s[..|s| - 1]);
      assert s == s[..|s| - 1] + [s[|s| - 1]];
    }
  }

  // ---------------------------------------------------------------------
  // SortedCollection(key=lambda i: i["start"])

  function StartKey(e: Entry): int {
    Key(e.start)
  }

  predicate SortedByStart(s: seq<Entry>) {
    forall i, j :: 0 <= i < j < |s| ==> StartKey(s[i]) <= StartKey(s[j])
  }

  /** `bisect_left(keys, k)` on a sorted key list: the first position whose key is not below `k`. */
  function BisectLeft(s: seq<Entry>, k: int): (i: nat)
    ensures i <= |s|
    ensures forall j :: 0 <= j < i ==> StartKey(s[j]) < k
    ensures i < |s| ==> StartKey(s[i]) >= k
  {
    if s == [] || StartKey(s[0]) >= k then 0 else 1 + BisectLeft(s[1..], k)
  }

  /** `SortedCollection.insert(item)`: placed to the left of any equal keys. */
  function Insort(s: seq<Entry>, e: Entry): (r: seq<Entry>)
    ensures multiset(r) == multiset(s) + multiset{e}
    ensures |r| == |s| + 1
  {
    var i := BisectLeft(s, StartKey(e));
    assert s == s[..i] + s[i..];
    s[..i] + [e] + s[i..]
  }

  /** Where each element of `s` lands when `e` is inserted at position `i`. */
  lemma InsertAt(s: seq<Entry>, i: nat, e: Entry)
    requires i <= |s|
    ensures var r := s[..i] + [e] + s[i..];
            |r| == |s| + 1 && r[i] == e
            && (forall j :: 0 <= j < i ==> r[j] == s[j])
            && (forall j :: i < j < |r| ==> r[j] == s[j - 1])
  {
  }

  /** The new entry lands before every entry not starting earlier, after every one starting earlier. */
  lemma InsortPosition(s: seq<Entry>, e: Entry)
    requires SortedByStart(s)
    ensures var i := BisectLeft(s, StartKey(e));
            var r := Insort(s, e);
            r[i] == e
            && (forall j :: 0 <= j < i ==> StartKey(r[j]) < StartKey(e))
            && (forall j :: i < j < |r| ==> StartKey(r[j]) >= StartKey(e))
  {
    var i := BisectLeft(s, StartKey(e));
    InsertAt(s, i, e);
    var r := Insort(s, e);
    forall j | i < j < |r|
      ensures StartKey(r[j]) >= StartKey(e)
    {
      assert r[j] == s[j - 1];
      assert StartKey(s[i]) <= StartKey(s[j - 1]);
    }
  }

  /** Inserting keeps a bucket sorted. */
  lemma InsortSorted(s: seq<Entry>, e: Entry)
    requires SortedByStart(s)
    ensures SortedByStart(Insort(s, e))
  {
    InsortPosition(s, e);
    var i := BisectLeft(s, StartKey(e));
    InsertAt(s, i, e);
    var r := Insort(s, e);
    forall a, b | 0 <= a < b < |r|
      ensures StartKey(r[a]) <= StartKey(r[b])
    {
      if a < i && b < i {
        assert r[a] == s[a] && r[b] == s[b];
      } else if a > i && b > i {
        assert r[a] == s[a - 1] && r[b] == s[b - 1];
      } else if a < i && b > i {
        assert r[a] == s[a] && r[b] == s[b - 1];
      }
    }
  }

  // ---------------------------------------------------------------------
  // The skeleton: report[day][uuid] for every day of the grid

  function Fresh(title: string): ResourceDay {
    ResourceDay(title, [], [])
  }

  /** The per-day dictionary the corrected skeleton gives every day: every resource, in display order. */
  function Row(ordered: seq<Uuid>, title: Uuid -> string): (row: map<Uuid, ResourceDay>)
    ensures forall u :: u in row <==> u in ordered
    ensures forall u :: u in row ==> row[u] == Fresh(title(u))
  {
    if ordered == [] then map[]
    else
      var u := ordered[|ordered| - 1];
      assert forall x :: x in ordered <==> x in ordered[..|ordered| - 1] || x == u;
      Row(ordered[..|ordered| - 1], title)[u := Fresh(title(u))]
  }

  /**
   * What one day of the grid does to the report. As written, `report[day]` is
   * reset for every resource, so only the last resource survives; corrected,
   * the day holds every resource.
   */
  function SkeletonDay(v: Variant, report: MonthReport, day: int, ordered: seq<Uuid>, title: Uuid -> string)
    : MonthReport
  {
    match v
    case AsWritten =>
      if ordered == [] then report
      else
        var u := ordered[|ordered| - 1];
        report[day := map[u := Fresh(title(u))]]
    case Corrected => report[day := Row(ordered, title)]
  }

  /** The report after the skeleton loop over `days`. */
  function Skeleton(v: Variant, days: seq<int>, ordered: seq<Uuid>, title: Uuid -> string): MonthReport {
    if days == [] then map[]
    else SkeletonDay(v, Skeleton(v, days[..|days| - 1], ordered, title), days[|days| - 1], ordered, title)
  }

  /** The inner loop of the skeleton: one day, one resource after the other. */
  method FillDay(v: Variant, report0: MonthReport, day: int, ordered: seq<Uuid>, title: Uuid -> string)
    returns (report: MonthReport)
    ensures report == SkeletonDay(v, report0, day, ordered, title)
  {
    if v == AsWritten {
      report := FillDayAsWritten(report0, day, ordered, title);
    } else {
      report := FillDayCorrected(report0, day, ordered, title);
    }
  }

  /** As written: the day is reset before each resource is added. */
  method FillDayAsWritten(report0: MonthReport, day: int, ordered: seq<Uuid>, title: Uuid -> string)
    returns (report: MonthReport)
    ensures report == SkeletonDay(AsWritten, report0, day, ordered, title)
  {
    report := report0;
    var j := 0;
    while j < |ordered|
      invariant 0 <= j <= |ordered|
      invariant j == 0 ==> report == report0
      invariant j > 0 ==> report == report0[day := map[ordered[j - 1] := Fresh(title(ordered[j - 1]))]]
    {
      var uuid := ordered[j];
      report := report[day := map[]];
      report := report[day := report[day][uuid := Fresh(title(uuid))]];
      j := j + 1;
    }
  }

  /** Corrected: the day is reset once, then every resource is added. */
  method FillDayCorrected(report0: MonthReport, day: int, ordered: seq<Uuid>, title: Uuid -> string)
    returns (report: MonthReport)
    ensures report == SkeletonDay(Corrected, report0, day, ordered, title)
  {
    report := report0[day := map[]];
    var j := 0;
    while j < |ordered|
      invariant 0 <= j <= |ordered|
      invariant report == report0[day := Row(ordered[..j], title)]
    {
      var uuid := ordered[j];
      var row := Row(ordered[..j], title)[uuid := Fresh(title(uuid))];
      RowSnoc(ordered, j, title);
      UpdateTwice(report0, day, Row(ordered[..j], title), row);
      report := report[day := report[day][uuid := Fresh(title(uuid))]];
      j := j + 1;
    }
    assert ordered[..j] == ordered;
  }

  lemma UpdateTwice(m: MonthReport, day: int, x: map<Uuid, ResourceDay>, y: map<Uuid, ResourceDay>)
    ensures m[day := x][day := y] == m[day := y]
  {
  }

  lemma RowSnoc(ordered: seq<Uuid>, j: int, title: Uuid -> string)
    requires 0 <= j < |ordered|
    ensures Row(ordered[..j + 1], title) == Row(ordered[..j], title)[ordered[j] := Fresh(title(ordered[j]))]
  {
    assert ordered[..j + 1][..j] == ordered[..j];
  }

  /**
   * The skeleton loop together with the `last_day` scan of the same loop.
   */
  method BuildSkeleton(v: Variant, days: seq<int>, ordered: seq<Uuid>, title: Uuid -> string)
    returns (report: MonthReport, lastDay: int)
    ensures report == Skeleton(v, days, ordered, title)
    ensures lastDay == MaxOf(28, days)
  {
    report := map[];
    lastDay := 28;
    var i := 0;
    while i < |days|
      invariant 0 <= i <= |days|
      invariant report == Skeleton(v, days[..i], ordered, title)
      invariant lastDay == MaxOf(28, days[..i])
    {
      var day := days[i];
      assert days[..i + 1][..i] == days[..i];
      lastDay := if day > lastDay then day else lastDay;
      report := FillDay(v, report, day, ordered, title);
      i := i + 1;
    }
    assert days[..i] == days;
  }

  // ---------------------------------------------------------------------
  // Adding entries to their buckets

  /** One entry to add: whose resource it is, the reservation's status, and the entry. */
  datatype Item = Item(resource: Uuid, status: Status, entry: Entry)

  datatype Bucket = ApprovedBucket | PendingBucket

  /**
   * The bucket `report[day][uuid][status]` names. As written the status is
   * used as the key, and there is no 'confirmed' bucket; corrected, a
   * confirmed reservation is an approved one.
   */
  function BucketOf(v: Variant, status: Status): Option<Bucket> {
    match status
    case Pending => Some(PendingBucket)
    case Confirmed => if v == AsWritten then None else Some(ApprovedBucket)
  }

  function Entries(rd: ResourceDay, b: Bucket): seq<Entry> {
    match b
    case ApprovedBucket => rd.approved
    case PendingBucket => rd.pending
  }

  function Put(rd: ResourceDay, b: Bucket, e: Entry): (r: ResourceDay)
    ensures r.title == rd.title
    ensures Entries(r, b) == Insort(Entries(rd, b), e)
    ensures forall other :: other != b ==> Entries(r, other) == Entries(rd, other)
  {
    match b
    case ApprovedBucket => rd.(approved := Insort(rd.approved, e))
    case PendingBucket => rd.(pending := Insort(rd.pending, e))
  }

  /** `add_reservation(start, end, reservation)`: a missing day, resource or bucket raises KeyError. */
  function AddItem(v: Variant, report: MonthReport, item: Item): (r: Result<MonthReport, ReportError>)
    ensures r.Failure? ==> r.error == KeyError
    ensures r.Success? <==> var day := item.entry.start.date.day;
              day in report && item.resource in report[day] && BucketOf(v, item.status).Some?
  {
    var day := item.entry.start.date.day;
    if day !in report then Failure(KeyError)
    else if item.resource !in report[day] then Failure(KeyError)
    else match BucketOf(v, item.status)
      case None => Failure(KeyError)
      case Some(b) =>
        var row := report[day];
        Success(report[day := row[item.resource := Put(row[item.resource], b, item.entry)]])
  }

  /** The items added one after the other; the first failure stops the run. */
  function AddItems(v: Variant, report: MonthReport, items: seq<Item>): Result<MonthReport, ReportError> {
    if items == [] then Success(report)
    else match AddItems(v, report, items[..|items| - 1])
      case Failure(e) => Failure(e)
      case Success(r) => AddItem(v, r, items[|items| - 1])
  }

  /** Once the run has failed, more items do not revive it. */
  lemma {:induction false} AddItemsFailed(v: Variant, report: MonthReport, items: seq<Item>, k: nat)
    requires k <= |items| && AddItems(v, report, items[..k]).Failure?
    ensures AddItems(v, report, items) == AddItems(v, report, items[..k])
    decreases |items| - k
  {
    if k < |items| {
      assert items[..k + 1][..k] == items[..k];
      AddItemsFailed(v, report, items, k + 1);
    } else {
      assert items[..k] == items;
    }
  }

  /** Adding `a` and then `b` is adding `a + b`. */
  lemma {:induction false} AddItemsConcat(v: Variant, report: MonthReport, a: seq<Item>, b: seq<Item>)
    ensures AddItems(v, report, a + b)
            == match AddItems(v, report, a)
               case Failure(e) => Failure(e)
               case Success(r) => AddItems(v, r, b)
    decreases |b|
  {
    if b == [] {
      assert a + b == a;
    } else {
      assert (a + b)[..|a + b| - 1] == a + b[..|b| - 1];
      AddItemsConcat(v, report, a, b[..|b| - 1]);
      if AddItems(v, report, a).Failure? {
        assert AddItems(v, report, a + b[..|b| - 1]).Failure?;
      }
    }
  }

  /** Adding items keeps the days and the resources of each day. */
  lemma {:induction false} AddItemsKeys(v: Variant, report: MonthReport, items: seq<Item>)
    requires AddItems(v, report, items).Success?
    ensures var r := AddItems(v, report, items).value;
            r.Keys == report.Keys && forall d :: d in report ==> r[d].Keys == report[d].Keys
  {
    if items != [] {
      AddItemsKeys(v, report, items[..|items| - 1]);
    }
  }

  /** Item `it` goes to bucket `b` of resource `u` on day `d`. */
  predicate GoesTo(v: Variant, it: Item, d: int, u: Uuid, b: Bucket) {
    it.entry.start.date.day == d && it.resource == u && BucketOf(v, it.status) == Some(b)
  }

  /** One insert: the target bucket gains the entry in sorted position, every other bucket is untouched. */
  lemma AddItemBucket(v: Variant, report: MonthReport, it: Item, d: int, u: Uuid, b: Bucket)
    requires AddItem(v, report, it).Success?
    requires d in report && u in report[d]
    ensures var r := AddItem(v, report, it).value;
            d in r && u in r[d] && r[d][u].title == report[d][u].title
            && Entries(r[d][u], b) == if GoesTo(v, it, d, u, b) then Insort(Entries(report[d][u], b), it.entry)
                                      else Entries(report[d][u], b)
  {
  }

  /** The entries of the items that go to bucket `b` of resource `u` on day `d`, in order. */
  function Matching(v: Variant, items: seq<Item>, d: int, u: Uuid, b: Bucket): seq<Entry> {
    if items == [] then []
    else
      var init := Matching(v, items[..|items| - 1], d, u, b);
      if GoesTo(v, items[|items| - 1], d, u, b) then init + [items[|items| - 1].entry] else init
  }

  /**
   * After a successful run each bucket holds what it held before plus exactly
   * the entries of the items that go to it.
   */
  lemma {:induction false} AddItemsBucket(v: Variant, report: MonthReport, items: seq<Item>, d: int, u: Uuid, b: Bucket)
    requires AddItems(v, report, items).Success?
    requires d in report && u in report[d]
    ensures var r := AddItems(v, report, items).value;
            d in r && u in r[d]
            && r[d][u].title == report[d][u].title
            && multiset(Entries(r[d][u], b)) == multiset(Entries(report[d][u], b)) + multiset(Matching(v, items, d, u, b))
  {
    AddItemsKeys(v, report, items);
    if items != [] {
      var init := items[..|items| - 1];
      var it := items[|items| - 1];
      assert AddItems(v, report, init).Success?;
      AddItemsBucket(v, report, init, d, u, b);
      var prev := AddItems(v, report, init).value;
      AddItemsKeys(v, report, init);
      assert AddItems(v, report, items) == AddItem(v, prev, it);
      AddItemBucket(v, prev, it, d, u, b);
    }
  }

  /** After a successful run a sorted bucket is still sorted. */
  lemma {:induction false} AddItemsSorted(v: Variant, report: MonthReport, items: seq<Item>, d: int, u: Uuid, b: Bucket)
    requires AddItems(v, report, items).Success?
    requires d in report && u in report[d] && SortedByStart(Entries(report[d][u], b))
    ensures var r := AddItems(v, report, items).value;
            d in r && u in r[d] && SortedByStart(Entries(r[d][u], b))
  {
    AddItemsKeys(v, report, items);
    if items != [] {
      var init := items[..|items| - 1];
      var it := items[|items| - 1];
      assert AddItems(v, report, init).Success?;
      AddItemsSorted(v, report, init, d, u, b);
      var prev := AddItems(v, report, init).value;
      AddItemsKeys(v, report, init);
      assert AddItems(v, report, items) == AddItem(v, prev, it);
      AddItemBucket(v, prev, it, d, u, b);
      if GoesTo(v, it, d, u, b) {
        InsortSorted(Entries(prev[d][u], b), it.entry);
      }
    }
  }

  /** A run succeeds when every item finds its day, its resource and its bucket. */
  lemma {:induction false} AddItemsSucceed(v: Variant, report: MonthReport, items: seq<Item>)
    requires forall k :: 0 <= k < |items| ==>
               items[k].entry.start.date.day in report
               && items[k].resource in report[items[k].entry.start.date.day]
               && BucketOf(v, items[k].status).Some?
    ensures AddItems(v, report, items).Success?
  {
    if items != [] {
      AddItemsSucceed(v, report, items[..|items| - 1]);
      AddItemsKeys(v, report, items[..|items| - 1]);
    }
  }

  // ---------------------------------------------------------------------
  // Reservations expanded over their target group

  /** One entry per allocation of the group, carrying that allocation's start and end. */
  function ItemsFor(r: Reservation, allocs: seq<Allocation>): (items: seq<Item>)
    ensures |items| == |allocs|
    ensures forall i :: 0 <= i < |allocs| ==>
              items[i] == Item(r.resource, r.status, Entry(allocs[i].start, Some(allocs[i].end)))
  {
    seq(|allocs|, i requires 0 <= i < |allocs| => Item(r.resource, r.status, Entry(allocs[i].start, Some(allocs[i].end))))
  }

  /** What one reservation adds: its own times for the literal target, else its group's. */
  function AddReservation(v: Variant, report: MonthReport, r: Reservation, groups: map<Uuid, seq<Allocation>>)
    : Result<MonthReport, ReportError>
  {
    if r.target == LiteralAllocation then
      match r.start
      case None => Failure(AttributeError)
      case Some(s) => AddItem(v, report, Item(r.resource, r.status, Entry(s, r.end)))
    else if r.target !in groups then Failure(KeyError)
    else AddItems(v, report, ItemsFor(r, groups[r.target]))
  }

  /** The reservations added one after the other; the first failure stops the run. */
  function AddReservations(v: Variant, report: MonthReport, rs: seq<Reservation>, groups: map<Uuid, seq<Allocation>>)
    : Result<MonthReport, ReportError>
  {
    if rs == [] then Success(report)
    else match AddReservations(v, report, rs[..|rs| - 1], groups)
      case Failure(e) => Failure(e)
      case Success(m) => AddReservation(v, m, rs[|rs| - 1], groups)
  }

  lemma {:induction false} AddReservationsFailed(v: Variant, report: MonthReport, rs: seq<Reservation>,
                                                 groups: map<Uuid, seq<Allocation>>, k: nat)
    requires k <= |rs| && AddReservations(v, report, rs[..k], groups).Failure?
    ensures AddReservations(v, report, rs, groups) == AddReservations(v, report, rs[..k], groups)
    decreases |rs| - k
  {
    if k < |rs| {
      assert rs[..k + 1][..k] == rs[..k];
      AddReservationsFailed(v, report, rs, groups, k + 1);
    } else {
      assert rs[..k] == rs;
    }
  }

  lemma AddItemsSnoc(v: Variant, report: MonthReport, items: seq<Item>, j: int)
    requires 0 <= j < |items| && AddItems(v, report, items[..j]).Success?
    ensures AddItems(v, report, items[..j + 1]) == AddItem(v, AddItems(v, report, items[..j]).value, items[j])
  {
    assert items[..j + 1][..j] == items[..j];
  }

  /** The inner loop: one entry per allocation of the reservation's group. */
  method AddGroup(v: Variant, report0: MonthReport, reservation: Reservation, allocs: seq<Allocation>)
    returns (result: Result<MonthReport, ReportError>)
    ensures result == AddItems(v, report0, ItemsFor(reservation, allocs))
  {
    ghost var items := ItemsFor(reservation, allocs);
    var report := report0;
    var j := 0;
    while j < |allocs|
      invariant 0 <= j <= |allocs|
      invariant AddItems(v, report0, items[..j]) == Success(report)
    {
      var step := AddItem(v, report, Item(reservation.resource, reservation.status,
                                          Entry(allocs[j].start, Some(allocs[j].end))));
      AddItemsSnoc(v, report0, items, j);
      if step.Failure? {
        AddItemsFailed(v, report0, items, j + 1);
        return step;
      }
      report := step.value;
      j := j + 1;
    }
    assert items[..j] == items;
    result := Success(report);
  }

  lemma AddReservationsSnoc(v: Variant, report: MonthReport, rs: seq<Reservation>,
                            groups: map<Uuid, seq<Allocation>>, i: int)
    requires 0 <= i < |rs| && AddReservations(v, report, rs[..i], groups).Success?
    ensures AddReservations(v, report, rs[..i + 1], groups)
            == AddReservation(v, AddReservations(v, report, rs[..i], groups).value, rs[i], groups)
  {
    assert rs[..i + 1][..i] == rs[..i];
  }

  /** The body of the loop over the reservations. */
  method AddOne(v: Variant, report: MonthReport, reservation: Reservation, groups: map<Uuid, seq<Allocation>>)
    returns (step: Result<MonthReport, ReportError>)
    ensures step == AddReservation(v, report, reservation, groups)
  {
    if reservation.target == LiteralAllocation {
      if reservation.start.None? {
        step := Failure(AttributeError);
      } else {
        step := AddItem(v, report, Item(reservation.resource, reservation.status,
                                        Entry(reservation.start.value, reservation.end)));
      }
    } else if reservation.target !in groups {
      step := Failure(KeyError);
    } else {
      step := AddGroup(v, report, reservation, groups[reservation.target]);
    }
  }

  /** The loop over the reservations: `add_reservation` for each, the first error propagating. */
  method AddReservationsLoop(v: Variant, report0: MonthReport, rs: seq<Reservation>, groups: map<Uuid, seq<Allocation>>)
    returns (result: Result<MonthReport, ReportError>)
    ensures result == AddReservations(v, report0, rs, groups)
  {
    var report := report0;
    var i := 0;
    while i < |rs|
      invariant 0 <= i <= |rs|
      invariant AddReservations(v, report0, rs[..i], groups) == Success(report)
    {
      var reservation := rs[i];
      AddReservationsSnoc(v, report0, rs, groups, i);
      var step := AddOne(v, report, reservation, groups);
      if step.Failure? {
        AddReservationsFailed(v, report0, rs, groups, i + 1);
        return step;
      }
      report := step.value;
      i := i + 1;
    }
    assert rs[..i] == rs;
    result := Success(report);
  }

  // ---------------------------------------------------------------------
  // The period and the allocation query

  /** The day numbers the skeleton loop walks: the calendar grid as written, the month's own days corrected. */
  function ReportDays(v: Variant, year: int, month: int): seq<int>
    requires ValidMonth(year, month)
  {
    match v
    case AsWritten => MonthGrid(year, month)
    case Corrected => MonthDays(year, month)
  }

  /**
   * `period_start <= Allocation._start <= period_end`. As written the two
   * dates are compared with a timestamp, so they stand for their midnights;
   * corrected, the allocation's day is compared with the two days.
   */
  predicate InPeriod(v: Variant, a: Allocation, year: int, month: int, lastDay: int)
    requires ValidMonth(year, month) && 1 <= lastDay <= DaysInMonth(year, month)
  {
    var first := Date(year, month, 1);
    var last := Date(year, month, lastDay);
    match v
    case AsWritten => Key(Midnight(first)) <= Key(a.start) <= Key(Midnight(last))
    case Corrected => Ordinal(first) <= Ordinal(a.start.date) <= Ordinal(last)
  }

  /** The filters of the allocation query. */
  predicate Relevant(v: Variant, a: Allocation, year: int, month: int, lastDay: int, resourceUuids: seq<Uuid>)
    requires ValidMonth(year, month) && 1 <= lastDay <= DaysInMonth(year, month)
  {
    InPeriod(v, a, year, month, lastDay) && a.resource == a.mirrorOf && a.resource in resourceUuids
  }

  /** `query.all()`: the relevant allocations, in the order the database returns them. */
  function Fetched(v: Variant, allocations: seq<Allocation>, year: int, month: int, lastDay: int,
                   resourceUuids: seq<Uuid>): seq<Allocation>
    requires ValidMonth(year, month) && 1 <= lastDay <= DaysInMonth(year, month)
  {
    Filter((a: Allocation) => Relevant(v, a, year, month, lastDay, resourceUuids), allocations)
  }

  /**
   * As written, the period misses what starts on its last day after
   * midnight; otherwise the two bounds agree. The corrected bounds hold
   * exactly the allocations starting on the month's days 1 .. `lastDay`.
   */
  lemma InPeriodBounds(a: Allocation, year: int, month: int, lastDay: int)
    requires ValidMonth(year, month) && 1 <= lastDay <= DaysInMonth(year, month)
    ensures InPeriod(Corrected, a, year, month, lastDay)
            <==> a.start.date.year == year && a.start.date.month == month && a.start.date.day <= lastDay
    ensures InPeriod(AsWritten, a, year, month, lastDay)
            <==> InPeriod(Corrected, a, year, month, lastDay)
                 && !(a.start.date == Date(year, month, lastDay) && a.start.micros > 0)
  {
    var first := Date(year, month, 1);
    var last := Date(year, month, lastDay);
    var x := a.start.date;
    OrdinalMonotone(x, first);
    OrdinalMonotone(last, x);
    OrdinalMonotone(first, x);
    OrdinalMonotone(x, last);
    KeyMonotone(Midnight(first), a.start);
    KeyMonotone(a.start, Midnight(last));
  }

  /** The concrete case: an allocation on 31 March 2021 at 08:00 is left out of the March report as written. */
  lemma LastDayMorningExcluded()
    ensures var a := Allocation("r", "r", "g", DateTime(Date(2021, 3, 31), 8 * 3600 * 1000000),
                                DateTime(Date(2021, 3, 31), 9 * 3600 * 1000000));
            !InPeriod(AsWritten, a, 2021, 3, 31) && InPeriod(Corrected, a, 2021, 3, 31)
  {
    var a := Allocation("r", "r", "g", DateTime(Date(2021, 3, 31), 8 * 3600 * 1000000),
                        DateTime(Date(2021, 3, 31), 9 * 3600 * 1000000));
    InPeriodBounds(a, 2021, 3, 31);
  }

  // ---------------------------------------------------------------------
  // groups.setdefault(allocation.group, list()).append(allocation)

  /** The fetched allocations of group `g`, in fetch order. */
  function Group(allocs: seq<Allocation>, g: Uuid): (r: seq<Allocation>)
    ensures forall a :: a in r <==> a in allocs && a.group == g
  {
    if allocs == [] then []
    else
      var init := Group(allocs[..|allocs| - 1], g);
      var a := allocs[|allocs| - 1];
      assert forall x :: x in allocs <==> x in allocs[..|allocs| - 1] || x == a;
      if a.group == g then init + [a] else init
  }

  /** The dictionary the grouping loop builds, one `setdefault(...).append` after the other. */
  function GroupsOf(allocs: seq<Allocation>): map<Uuid, seq<Allocation>> {
    if allocs == [] then map[]
    else
      var before := GroupsOf(allocs[..|allocs| - 1]);
      var a := allocs[|allocs| - 1];
      before[a.group := (if a.group in before then before[a.group] else []) + [a]]
  }

  /** A group none of the allocations belongs to is empty. */
  lemma {:induction false} GroupAbsent(allocs: seq<Allocation>, g: Uuid)
    requires forall a :: a in allocs ==> a.group != g
    ensures Group(allocs, g) == []
  {
    if allocs != [] {
      assert allocs[|allocs| - 1] in allocs;
      GroupAbsent(allocs[..|allocs| - 1], g);
    }
  }

  /** The keys are the groups of the fetched allocations, each list the group's allocations in fetch order. */
  lemma {:induction false} GroupsOfLists(allocs: seq<Allocation>)
    ensures forall g :: g in GroupsOf(allocs) <==> exists a :: a in allocs && a.group == g
    ensures forall g :: g in GroupsOf(allocs) ==> GroupsOf(allocs)[g] == Group(allocs, g)
  {
    if allocs != [] {
      var init := allocs[..|allocs| - 1];
      var a := allocs[|allocs| - 1];
      GroupsOfLists(init);
      assert forall x :: x in allocs <==> x in init || x == a;
      forall g | g !in GroupsOf(init)
        ensures Group(init, g) == []
      {
        GroupAbsent(init, g);
      }
    }
  }

  /**
   * Every allocation lands in exactly one list: its own group's list holds
   * it as often as the fetched allocations do, every other list never.
   */
  lemma {:induction false} GroupPartition(allocs: seq<Allocation>, a: Allocation, g: Uuid)
    ensures multiset(Group(allocs, g))[a] == if a.group == g then multiset(allocs)[a] else 0
  {
    if allocs != [] {
      GroupPartition(allocs[..|allocs| - 1], a, g);
      assert allocs == allocs[..|allocs| - 1] + [allocs[|allocs| - 1]];
    }
  }

  /** The grouping loop. */
  method GroupAllocations(allocs: seq<Allocation>) returns (groups: map<Uuid, seq<Allocation>>)
    ensures groups == GroupsOf(allocs)
  {
    groups := map[];
    var i := 0;
    while i < |allocs|
      invariant 0 <= i <= |allocs|
      invariant groups == GroupsOf(allocs[..i])
    {
      var allocation := allocs[i];
      assert allocs[..i + 1][..i] == allocs[..i];
      var list := if allocation.group in groups then groups[allocation.group] else [];
      groups := groups[allocation.group := list + [allocation]];
      i := i + 1;
    }
    assert allocs[..i] == allocs;
  }

  // ---------------------------------------------------------------------
  // The reservation query

  predicate IsPending(r: Reservation) {
    r.status == Pending
  }

  predicate IsConfirmed(r: Reservation) {
    r.status == Confirmed
  }

  /** The position of a status in the enum's declaration order. */
  function Rank(s: Status): int {
    match s
    case Pending => 0
    case Confirmed => 1
  }

  predicate SortedByStatus(rs: seq<Reservation>) {
    forall i, j :: 0 <= i < j < |rs| ==> Rank(rs[i].status) <= Rank(rs[j].status)
  }

  /** `Reservation.target.in_(groups.keys())`, in the database's order. */
  function Targeting(reservations: seq<Reservation>, keys: set<Uuid>): seq<Reservation> {
    Filter((r: Reservation) => r.target in keys, reservations)
  }

  /**
   * `order_by(Reservation.status)`: the pending ones first, then the
   * confirmed ones; within one status the database's order is kept.
   */
  function SelectReservations(reservations: seq<Reservation>, keys: set<Uuid>): seq<Reservation> {
    var hits := Targeting(reservations, keys);
    Filter(IsPending, hits) + Filter(IsConfirmed, hits)
  }

  /** Pending reservations followed by confirmed ones are in status order. */
  lemma PendingFirst(p: seq<Reservation>, c: seq<Reservation>)
    requires forall i :: 0 <= i < |p| ==> IsPending(p[i])
    requires forall i :: 0 <= i < |c| ==> IsConfirmed(c[i])
    ensures SortedByStatus(p + c)
  {
    var s := p + c;
    forall i, j | 0 <= i < j < |s|
      ensures Rank(s[i].status) <= Rank(s[j].status)
    {
      if i < |p| {
        assert s[i] == p[i];
      } else {
        assert s[i] == c[i - |p|] && s[j] == c[j - |p|];
      }
    }
  }

  /** The query returns exactly the reservations on the given groups, pending ones first. */
  lemma SelectReservationsSpec(reservations: seq<Reservation>, keys: set<Uuid>)
    ensures multiset(SelectReservations(reservations, keys)) == multiset(Targeting(reservations, keys))
    ensures SortedByStatus(SelectReservations(reservations, keys))
    ensures forall r :: r in SelectReservations(reservations, keys) <==> r in reservations && r.target in keys
  {
    var hits := Targeting(reservations, keys);
    FilterSplit(IsPending, IsConfirmed, hits);
    var p, c := Filter(IsPending, hits), Filter(IsConfirmed, hits);
    PendingFirst(p, c);
    assert forall r :: r in p + c <==> r in p || r in c;
  }

  /** Reservations on no listed group add nothing to what the query targets. */
  lemma {:induction false} TargetingAppendOthers(reservations: seq<Reservation>, others: seq<Reservation>, keys: set<Uuid>)
    requires forall i :: 0 <= i < |others| ==> others[i].target !in keys
    ensures Targeting(reservations + others, keys) == Targeting(reservations, keys)
  {
    if others == [] {
      assert reservations + others == reservations;
    } else {
      var init := others[..|others| - 1];
      var all := reservations + others;
      assert all[..|all| - 1] == reservations + init;
      assert all[|all| - 1] == others[|others| - 1];
      TargetingAppendOthers(reservations, init, keys);
    }
  }

  /** Reservations on groups other than the given ones are not selected. */
  lemma SelectIgnoresOthers(reservations: seq<Reservation>, others: seq<Reservation>, keys: set<Uuid>)
    requires forall i :: 0 <= i < |others| ==> others[i].target !in keys
    ensures SelectReservations(reservations + others, keys) == SelectReservations(reservations, keys)
  {
    TargetingAppendOthers(reservations, others, keys);
  }

  // ---------------------------------------------------------------------
  // monthly_report

  /** The report `monthly_report` returns, or the error it raises. */
  function MonthlyReportSpec(v: Variant, year: int, month: int, resourceUuids: seq<Uuid>, ordered: seq<Uuid>,
                             title: Uuid -> string, allocations: seq<Allocation>, reservations: seq<Reservation>)
    : Result<MonthReport, ReportError>
  {
    if !ValidMonth(year, month) then Failure(ValueError)
    else
      var days := ReportDays(v, year, month);
      var lastDay := MaxOf(28, days);
      if lastDay > DaysInMonth(year, month) then Failure(ValueError)
      else
        var groups := GroupsOf(Fetched(v, allocations, year, month, lastDay, resourceUuids));
        AddReservations(v, Skeleton(v, days, ordered, title),
                        SelectReservations(reservations, groups.Keys), groups)
  }

  /**
   * The report reads only the reservations on the groups it fetched: adding
   * reservations of any other group, such as those of resources left out of
   * the report, changes neither the report nor the error.
   */
  lemma ReportIgnoresOtherGroups(v: Variant, year: int, month: int, resourceUuids: seq<Uuid>, ordered: seq<Uuid>,
                                 title: Uuid -> string, allocations: seq<Allocation>,
                                 reservations: seq<Reservation>, others: seq<Reservation>)
    requires forall i, a :: 0 <= i < |others| && a in allocations ==> others[i].target != a.group
    ensures MonthlyReportSpec(v, year, month, resourceUuids, ordered, title, allocations, reservations + others)
            == MonthlyReportSpec(v, year, month, resourceUuids, ordered, title, allocations, reservations)
  {
    if ValidMonth(year, month) && MaxOf(28, ReportDays(v, year, month)) <= DaysInMonth(year, month) {
      var lastDay := MaxOf(28, ReportDays(v, year, month));
      var fetched := Fetched(v, allocations, year, month, lastDay, resourceUuids);
      GroupsOfLists(fetched);
      assert forall i :: 0 <= i < |others| ==> others[i].target !in GroupsOf(fetched).Keys;
      SelectIgnoresOthers(reservations, others, GroupsOf(fetched).Keys);
    }
  }

  /**
   * `monthly_report(context, year, month, resource_uuids)`. The allocations
   * and reservations are the tables the two queries read, `ordered` the
   * resources sorted by title, and `title` the title of each.
   */
  method MonthlyReport(v: Variant, year: int, month: int, resourceUuids: seq<Uuid>, ordered: seq<Uuid>,
                       title: Uuid -> string, allocations: seq<Allocation>, reservations: seq<Reservation>)
    returns (result: Result<MonthReport, ReportError>)
    ensures result == MonthlyReportSpec(v, year, month, resourceUuids, ordered, title, allocations, reservations)
  {
    if !ValidMonth(year, month) {
      return Failure(ValueError);
    }
    var days := ReportDays(v, year, month);
    var report, lastDay := BuildSkeleton(v, days, ordered, title);
    if lastDay > DaysInMonth(year, month) {
      return Failure(ValueError);
    }
    var fetched := Fetched(v, allocations, year, month, lastDay, resourceUuids);
    var groups := GroupAllocations(fetched);
    var selected := SelectReservations(reservations, groups.Keys);
    result := AddReservationsLoop(v, report, selected, groups);
  }

  // ---------------------------------------------------------------------
  // What the report holds

  /** As written, every day of the grid holds the last resource only. */
  lemma {:induction false} SkeletonKeepsLastUuid(days: seq<int>, ordered: seq<Uuid>, title: Uuid -> string)
    requires ordered != []
    ensures var r := Skeleton(AsWritten, days, ordered, title);
            var last := ordered[|ordered| - 1];
            (forall d :: d in r <==> d in days)
            && forall d :: d in r ==> r[d] == map[last := Fresh(title(last))]
  {
    if days != [] {
      SkeletonKeepsLastUuid(days[..|days| - 1], ordered, title);
      assert forall d :: d in days <==> d in days[..|days| - 1] || d == days[|days| - 1];
    }
  }

  /** As written, without resources the skeleton has no days at all. */
  lemma {:induction false} SkeletonWithoutResources(days: seq<int>, title: Uuid -> string)
    ensures Skeleton(AsWritten, days, [], title) == map[]
  {
    if days != [] {
      SkeletonWithoutResources(days[..|days| - 1], title);
    }
  }

  /** Corrected, every day of the loop holds every resource with its title and two empty buckets. */
  lemma {:induction false} SkeletonHoldsEveryUuid(days: seq<int>, ordered: seq<Uuid>, title: Uuid -> string)
    ensures var r := Skeleton(Corrected, days, ordered, title);
            (forall d :: d in r <==> d in days)
            && forall d :: d in r ==> r[d] == Row(ordered, title)
  {
    if days != [] {
      SkeletonHoldsEveryUuid(days[..|days| - 1], ordered, title);
      assert forall d :: d in days <==> d in days[..|days| - 1] || d == days[|days| - 1];
    }
  }

  /**
   * As written, `date(year, month, last_day)` raises ValueError exactly when
   * the grid opens with days of a longer previous month; corrected,
   * `last_day` is the month's length.
   */
  lemma LastDayOverflow(year: int, month: int)
    requires ValidMonth(year, month)
    ensures MaxOf(28, ReportDays(AsWritten, year, month)) > DaysInMonth(year, month)
            <==> Lead(year, month) > 0 && PrevMonthDays(year, month) > DaysInMonth(year, month)
    ensures MaxOf(28, ReportDays(Corrected, year, month)) == DaysInMonth(year, month)
  {
    GridMax(year, month);
    MonthDaysMax(year, month);
  }

  /** The concrete case: June 2021 opens on a Tuesday after a May of 31 days, so the report as written fails. */
  lemma June2021Fails(resourceUuids: seq<Uuid>, ordered: seq<Uuid>, title: Uuid -> string,
                      allocations: seq<Allocation>, reservations: seq<Reservation>)
    ensures Lead(2021, 6) == 1
    ensures MonthlyReportSpec(AsWritten, 2021, 6, resourceUuids, ordered, title, allocations, reservations)
            == Failure(ValueError)
  {
    assert DaysBeforeYear(2021) == 2020 * 365 + 505 - 20 + 5 == 737790;
    assert !IsLeap(2021) && DaysBeforeMonth(2021, 6) == 151;
    assert Ordinal(Date(2021, 6, 1)) == 737942;
    assert (737942 + 6) % 7 == 1;
    assert PrevMonthDays(2021, 6) == 31 && DaysInMonth(2021, 6) == 30;
    LastDayOverflow(2021, 6);
  }

  /**
   * As written, a confirmed reservation can only pass through when its group
   * is empty: a confirmed entry has no bucket to go to.
   */
  lemma ConfirmedHasNoBucket(report: MonthReport, rs: seq<Reservation>, groups: map<Uuid, seq<Allocation>>)
    requires AddReservations(AsWritten, report, rs, groups).Success?
    ensures forall i :: 0 <= i < |rs| && rs[i].status == Confirmed ==>
              rs[i].target != LiteralAllocation && rs[i].target in groups && groups[rs[i].target] == []
  {
    forall i | 0 <= i < |rs| && rs[i].status == Confirmed
      ensures rs[i].target != LiteralAllocation && rs[i].target in groups && groups[rs[i].target] == []
    {
      if AddReservations(AsWritten, report, rs[..i], groups).Failure? {
        AddReservationsFailed(AsWritten, report, rs, groups, i);
      }
      AddReservationsSnoc(AsWritten, report, rs, groups, i);
      var m := AddReservations(AsWritten, report, rs[..i], groups).value;
      if AddReservation(AsWritten, m, rs[i], groups).Failure? {
        AddReservationsFailed(AsWritten, report, rs, groups, i + 1);
      }
      ConfirmedStep(m, rs[i], groups);
    }
  }

  /** One confirmed reservation that goes through names a group without allocations. */
  lemma ConfirmedStep(report: MonthReport, r: Reservation, groups: map<Uuid, seq<Allocation>>)
    requires r.status == Confirmed && AddReservation(AsWritten, report, r, groups).Success?
    ensures r.target != LiteralAllocation && r.target in groups && groups[r.target] == []
  {
    if r.target != LiteralAllocation && r.target in groups {
      ConfirmedGroupFails(report, r, groups[r.target]);
    }
  }

  lemma ConfirmedGroupFails(report: MonthReport, r: Reservation, allocs: seq<Allocation>)
    requires r.status == Confirmed
    ensures AddItems(AsWritten, report, ItemsFor(r, allocs)).Success? ==> allocs == []
  {
    var items := ItemsFor(r, allocs);
    if allocs != [] {
      assert items[..1][..0] == [];
      assert AddItems(AsWritten, report, items[..1]).Failure?;
      AddItemsFailed(AsWritten, report, items, 1);
    }
  }

  /** Every entry the expansion of `rs` produces, in order. */
  function AllItems(rs: seq<Reservation>, groups: map<Uuid, seq<Allocation>>): seq<Item> {
    if rs == [] then []
    else
      var r := rs[|rs| - 1];
      AllItems(rs[..|rs| - 1], groups) + (if r.target in groups then ItemsFor(r, groups[r.target]) else [])
  }

  /** When every reservation names a group, adding the reservations is adding their expanded entries. */
  lemma {:induction false} AddReservationsExpand(v: Variant, report: MonthReport, rs: seq<Reservation>,
                                                 groups: map<Uuid, seq<Allocation>>)
    requires forall r :: r in rs ==> r.target != LiteralAllocation && r.target in groups
    ensures AddReservations(v, report, rs, groups) == AddItems(v, report, AllItems(rs, groups))
  {
    if rs != [] {
      var init := rs[..|rs| - 1];
      var r := rs[|rs| - 1];
      assert forall x :: x in init ==> x in rs;
      AddReservationsExpand(v, report, init, groups);
      AddItemsConcat(v, report, AllItems(init, groups), ItemsFor(r, groups[r.target]));
    }
  }

  /** The expanded entries carry the reservations' resources and the starts of the groups' allocations. */
  lemma {:induction false} AllItemsWithin(rs: seq<Reservation>, groups: map<Uuid, seq<Allocation>>,
                                          lo: int, hi: int, resources: seq<Uuid>)
    requires forall r :: r in rs ==> r.resource in resources
    requires forall g, a :: g in groups && a in groups[g] ==> lo <= a.start.date.day <= hi
    ensures forall it :: it in AllItems(rs, groups) ==> lo <= it.entry.start.date.day <= hi && it.resource in resources
  {
    if rs != [] {
      var init := rs[..|rs| - 1];
      var r := rs[|rs| - 1];
      assert forall x :: x in init ==> x in rs;
      AllItemsWithin(init, groups, lo, hi, resources);
      if r.target in groups {
        var items := ItemsFor(r, groups[r.target]);
        forall it | it in items
          ensures lo <= it.entry.start.date.day <= hi && it.resource in resources
        {
          var k :| 0 <= k < |items| && items[k] == it;
          assert groups[r.target][k] in groups[r.target];
        }
      }
    }
  }

  /**
   * Every reservation the corrected query selects, one on a group fetched for
   * the month, names a real group rather than the literal `allocation` and
   * belongs to a listed resource. Reservations on other groups, such as those
   * of resources not in the report, are not constrained.
   */
  predicate SelectedListed(year: int, month: int, resourceUuids: seq<Uuid>, ordered: seq<Uuid>,
                           allocations: seq<Allocation>, reservations: seq<Reservation>)
    requires ValidMonth(year, month)
  {
    var groups := GroupsOf(Fetched(Corrected, allocations, year, month, DaysInMonth(year, month), resourceUuids));
    forall r :: r in reservations && r.target in groups ==> r.target != LiteralAllocation && r.resource in ordered
  }

  /** The entries the corrected report files, in the order it files them. */
  function CorrectedItems(year: int, month: int, resourceUuids: seq<Uuid>, allocations: seq<Allocation>,
                          reservations: seq<Reservation>): seq<Item>
    requires ValidMonth(year, month)
  {
    var groups := GroupsOf(Fetched(Corrected, allocations, year, month, DaysInMonth(year, month), resourceUuids));
    AllItems(SelectReservations(reservations, groups.Keys), groups)
  }

  /** The corrected report is its skeleton with every expanded entry added, each entry on a day of the month. */
  lemma CorrectedAsItems(year: int, month: int, resourceUuids: seq<Uuid>, ordered: seq<Uuid>,
                         title: Uuid -> string, allocations: seq<Allocation>, reservations: seq<Reservation>)
    requires ValidMonth(year, month)
    requires SelectedListed(year, month, resourceUuids, ordered, allocations, reservations)
    ensures MonthlyReportSpec(Corrected, year, month, resourceUuids, ordered, title, allocations, reservations)
            == AddItems(Corrected, Skeleton(Corrected, MonthDays(year, month), ordered, title),
                        CorrectedItems(year, month, resourceUuids, allocations, reservations))
    ensures forall it :: it in CorrectedItems(year, month, resourceUuids, allocations, reservations) ==>
              1 <= it.entry.start.date.day <= DaysInMonth(year, month) && it.resource in ordered
  {
    var dim := DaysInMonth(year, month);
    LastDayOverflow(year, month);
    var fetched := Fetched(Corrected, allocations, year, month, dim, resourceUuids);
    var groups := GroupsOf(fetched);
    GroupsOfLists(fetched);
    var selected := SelectReservations(reservations, groups.Keys);
    SelectReservationsSpec(reservations, groups.Keys);
    AddReservationsExpand(Corrected, Skeleton(Corrected, MonthDays(year, month), ordered, title), selected, groups);
    forall g, a | g in groups && a in groups[g]
      ensures 1 <= a.start.date.day <= dim
    {
      assert a in fetched;
      InPeriodBounds(a, year, month, dim);
    }
    AllItemsWithin(selected, groups, 1, dim, ordered);
  }

  /**
   * Corrected, with every selected reservation naming a group and a listed
   * resource, the report succeeds and holds every day of the month and every resource
   * on each day.
   */
  lemma CorrectedReportShape(year: int, month: int, resourceUuids: seq<Uuid>, ordered: seq<Uuid>,
                             title: Uuid -> string, allocations: seq<Allocation>, reservations: seq<Reservation>)
    requires ValidMonth(year, month)
    requires SelectedListed(year, month, resourceUuids, ordered, allocations, reservations)
    ensures var rep := MonthlyReportSpec(Corrected, year, month, resourceUuids, ordered, title, allocations, reservations);
            rep.Success?
            && (forall d :: d in rep.value <==> 1 <= d <= DaysInMonth(year, month))
            && forall d :: d in rep.value ==> forall u :: u in rep.value[d] <==> u in ordered
  {
    CorrectedAsItems(year, month, resourceUuids, ordered, title, allocations, reservations);
    var skeleton := Skeleton(Corrected, MonthDays(year, month), ordered, title);
    CorrectedSkeleton(year, month, ordered, title);
    var items := CorrectedItems(year, month, resourceUuids, allocations, reservations);
    assert AddItems(Corrected, skeleton, items).Success? by {
      forall k | 0 <= k < |items|
        ensures items[k].entry.start.date.day in skeleton
                && items[k].resource in skeleton[items[k].entry.start.date.day]
      {
        assert items[k] in items;
      }
      AddItemsSucceed(Corrected, skeleton, items);
    }
    AddItemsKeys(Corrected, skeleton, items);
  }

  /** The corrected skeleton: the days of the month, each with every resource. */
  lemma CorrectedSkeleton(year: int, month: int, ordered: seq<Uuid>, title: Uuid -> string)
    requires ValidMonth(year, month)
    ensures var s := Skeleton(Corrected, MonthDays(year, month), ordered, title);
            (forall d :: d in s <==> 1 <= d <= DaysInMonth(year, month))
            && forall d :: d in s ==> forall u :: u in s[d] <==> u in ordered
  {
    var days := MonthDays(year, month);
    SkeletonHoldsEveryUuid(days, ordered, title);
    forall d | 1 <= d <= DaysInMonth(year, month)
      ensures d in days
    {
      assert days[d - 1] == d;
    }
  }

  /**
   * Corrected, each bucket of the report is sorted by start and holds exactly
   * the entries filed under its day, its resource and its status: confirmed
   * ones in `approved`, pending ones in `pending`.
   */
  lemma CorrectedBuckets(year: int, month: int, resourceUuids: seq<Uuid>, ordered: seq<Uuid>,
                         title: Uuid -> string, allocations: seq<Allocation>, reservations: seq<Reservation>,
                         d: int, u: Uuid, b: Bucket)
    requires ValidMonth(year, month) && 1 <= d <= DaysInMonth(year, month) && u in ordered
    requires SelectedListed(year, month, resourceUuids, ordered, allocations, reservations)
    ensures var rep := MonthlyReportSpec(Corrected, year, month, resourceUuids, ordered, title, allocations, reservations);
            rep.Success? && d in rep.value && u in rep.value[d]
            && rep.value[d][u].title == title(u)
            && SortedByStart(Entries(rep.value[d][u], b))
            && multiset(Entries(rep.value[d][u], b))
               == multiset(Matching(Corrected, CorrectedItems(year, month, resourceUuids, allocations, reservations), d, u, b))
  {
    CorrectedReportShape(year, month, resourceUuids, ordered, title, allocations, reservations);
    CorrectedAsItems(year, month, resourceUuids, ordered, title, allocations, reservations);
    var skeleton := Skeleton(Corrected, MonthDays(year, month), ordered, title);
    SkeletonHoldsEveryUuid(MonthDays(year, month), ordered, title);
    assert MonthDays(year, month)[d - 1] == d;
    var items := CorrectedItems(year, month, resourceUuids, allocations, reservations);
    AddItemsBucket(Corrected, skeleton, items, d, u, b);
    AddItemsSorted(Corrected, skeleton, items, d, u, b);
  }
}
