/**
 * `merge_reserved_slots` of `seantis/reservation/utils.py`: reserved slots are
 * sorted by start and consecutive slots whose gap passes a one-second test are
 * fused into one timespan. Times are microseconds.
 *
 * `MergeReservedSlots` is the loop as written; `MergeAdjacent` is the merge the
 * docstring describes, with the two defects of the loop corrected.
 */
module SlotMerge {
  import opened Wrappers
  import Intervals

  /** A reserved slot: its display start and display end. */
  datatype Slot = Slot(start: int, end: int)

  /** The loop's accumulator; `None` fields stand for an unset span. */
  datatype Timespan = Timespan(start: Option<int>, end: Option<int>)

  const Unset := Timespan(None, None)

  // ---------------------------------------------------------------------
  // sorted(slots, key=lambda s: s.start): a stable sort

  predicate SortedByStart(s: seq<Slot>) {
    forall i, j :: 0 <= i < j < |s| ==> s[i].start <= s[j].start
  }

  /** Places `x` after every slot starting no later than it. */
  function InsertByStart(x: Slot, s: seq<Slot>): (r: seq<Slot>)
    ensures multiset(r) == multiset(s) + multiset{x}
    ensures |r| == |s| + 1
  {
    if s == [] then [x]
    else if x.start < s[0].start then [x] + s
    else
      assert s == [s[0]] + s[1..];
      [s[0]] + InsertByStart(x, s[1..])
  }

  lemma {:induction false} InsertSorted(x: Slot, s: seq<Slot>)
    requires SortedByStart(s)
    ensures SortedByStart(InsertByStart(x, s))
  {
    if s != [] && x.start >= s[0].start {
      var rest := InsertByStart(x, s[1..]);
      InsertSorted(x, s[1..]);
      forall k | 0 <= k < |rest|
        ensures s[0].start <= rest[k].start
      {
        assert rest[k] in multiset(rest);
        if rest[k] != x {
          assert rest[k] in multiset(s[1..]);
          var j :| 0 <= j < |s[1..]| && s[1..][j] == rest[k];
          assert s[1 + j] == rest[k];
        }
      }
    }
  }

  /** Python's `sorted` by start: the input's order is kept among equal starts. */
  function SortByStart(s: seq<Slot>): (r: seq<Slot>)
    ensures SortedByStart(r)
    ensures multiset(r) == multiset(s) && |r| == |s|
  {
    if s == [] then []
    else
      assert s == s[..|s| - 1] + [s[|s| - 1]];
      var init := SortByStart(s[..|s| - 1]);
      InsertSorted(s[|s| - 1], init);
      InsertByStart(s[|s| - 1], init)
  }

  lemma {:induction false} InsertByStartLast(x: Slot, s: seq<Slot>)
    requires forall k :: 0 <= k < |s| ==> s[k].start <= x.start
    ensures InsertByStart(x, s) == s + [x]
  {
    if s != [] {
      InsertByStartLast(x, s[1..]);
    }
  }

  /** Sorting slots already in start order changes nothing. */
  lemma {:induction false} SortSorted(s: seq<Slot>)
    requires SortedByStart(s)
    ensures SortByStart(s) == s
  {
    if s != [] {
      var init := s[..|s| - 1];
      SortSorted(init);
      InsertByStartLast(s[|s| - 1], init);
      assert init + [s[|s| - 1]] == s;
    }
  }

  /** The slots of `s` that start at `k`, in the order `s` has them. */
  function WithStart(s: seq<Slot>, k: int): (r: seq<Slot>)
    ensures forall i :: 0 <= i < |r| ==> r[i].start == k
    ensures |r| <= |s|
  {
    if s == [] then []
    else (if s[0].start == k then [s[0]] else []) + WithStart(s[1..], k)
  }

  lemma {:induction false} WithStartConcat(a: seq<Slot>, b: seq<Slot>, k: int)
    ensures WithStart(a + b, k) == WithStart(a, k) + WithStart(b, k)
  {
    if a != [] {
      assert (a + b)[1..] == a[1..] + b;
      WithStartConcat(a[1..], b, k);
    } else {
      assert a + b == b;
    }
  }

  lemma {:induction false} NoneWithStart(t: seq<Slot>, k: int)
    requires forall i :: 0 <= i < |t| ==> k < t[i].start
    ensures WithStart(t, k) == []
  {
    if t != [] {
      NoneWithStart(t[1..], k);
    }
  }

  lemma WithStartCons(a: Slot, r: seq<Slot>, k: int)
    ensures WithStart([a] + r, k) == (if a.start == k then [a] else []) + WithStart(r, k)
  {
    assert ([a] + r)[0] == a && ([a] + r)[1..] == r;
  }

  lemma InsertFrontWithStart(x: Slot, t: seq<Slot>, k: int)
    requires SortedByStart(t) && t != [] && x.start < t[0].start
    ensures WithStart(InsertByStart(x, t), k) == WithStart(t, k) + (if x.start == k then [x] else [])
  {
    assert InsertByStart(x, t) == [x] + t;
    WithStartCons(x, t, k);
    if x.start == k {
      assert forall i :: 0 <= i < |t| ==> t[0].start <= t[i].start;
      NoneWithStart(t, k);
    }
  }

  /** Inserting `x` puts it after every slot of the same start already present. */
  lemma {:induction false} InsertWithStart(x: Slot, t: seq<Slot>, k: int)
    requires SortedByStart(t)
    ensures WithStart(InsertByStart(x, t), k) == WithStart(t, k) + (if x.start == k then [x] else [])
  {
    if t == [] {
      WithStartCons(x, [], k);
    } else if x.start < t[0].start {
      InsertFrontWithStart(x, t, k);
    } else {
      var tail := t[1..];
      assert SortedByStart(tail) by {
        forall i, j | 0 <= i < j < |tail|
          ensures tail[i].start <= tail[j].start
        {
          assert tail[i] == t[i + 1] && tail[j] == t[j + 1];
        }
      }
      var r := InsertByStart(x, tail);
      assert InsertByStart(x, t) == [t[0]] + r;
      var head := if t[0].start == k then [t[0]] else [];
      var last := if x.start == k then [x] else [];
      WithStartCons(t[0], r, k);
      InsertWithStart(x, tail, k);
      assert WithStart(t, k) == head + WithStart(tail, k);
      assert head + (WithStart(tail, k) + last) == (head + WithStart(tail, k)) + last;
    }
  }

  lemma SortByStartLast(s: seq<Slot>)
    requires s != []
    ensures SortByStart(s) == InsertByStart(s[|s| - 1], SortByStart(s[..|s| - 1]))
    ensures SortedByStart(SortByStart(s[..|s| - 1]))
  {
  }

  /**
   * The sort is stable: for every start `k`, the slots starting at `k` come
   * out in the order they went in.
   */
  lemma {:induction false} SortByStartStable(s: seq<Slot>, k: int)
    ensures WithStart(SortByStart(s), k) == WithStart(s, k)
  {
    if s != [] {
      var init, last := s[..|s| - 1], s[|s| - 1];
      SortByStartLast(s);
      SortByStartStable(init, k);
      InsertWithStart(last, SortByStart(init), k);
      WithStartCons(last, [], k);
      assert [last] + [] == [last];
      WithStartConcat(init, [last], k);
      assert init + [last] == s;
    }
  }

  // ---------------------------------------------------------------------
  // The loop as written

  /**
   * The gap test of the loop: `abs((next.start - prev.end).seconds) <= 1`.
   * `.seconds` is the seconds-within-a-day component of the timedelta, not its
   * length, and is never negative.
   */
  predicate AdjacentAsWritten(prev: Slot, next: Slot) {
    var seconds := Intervals.TimedeltaOf(next.start - prev.end).seconds;
    (if seconds < 0 then -seconds else seconds) <= 1
  }

  /** Every consecutive pair passes the gap test. */
  predicate AllAdjacentAsWritten(s: seq<Slot>) {
    forall k :: 0 <= k < |s| - 1 ==> AdjacentAsWritten(s[k], s[k + 1])
  }

  /**
   * The loop over `pairwise(slots)` from the pair `(s[0], s[1])` on, with the
   * accumulator `current` and the output so far `merged`.
   */
  function MergePairs(s: seq<Slot>, current: Timespan, merged: seq<Timespan>): seq<Timespan>
    decreases |s|
  {
    if |s| < 2 then
      (if current.start.Some? then merged + [current] else merged)
    else if AdjacentAsWritten(s[0], s[1]) then
      MergePairs(s[1..], Timespan(if current.start.Some? then current.start else Some(s[0].start), Some(s[1].end)), merged)
    else
      MergePairs(s[1..], Unset, merged + [current])
  }

  /** What `merge_reserved_slots(slots)` returns. */
  function MergeReservedSlotsSpec(slots: seq<Slot>): seq<Timespan> {
    if |slots| == 1 then [Timespan(Some(slots[0].start), Some(slots[0].end))]
    else MergePairs(SortByStart(slots), Unset, [])
  }

  /** `merge_reserved_slots`: the loop over consecutive pairs of the sorted slots. */
  method MergeReservedSlots(slots: seq<Slot>) returns (merged: seq<Timespan>)
    ensures merged == MergeReservedSlotsSpec(slots)
  {
    if |slots| == 1 {
      return [Timespan(Some(slots[0].start), Some(slots[0].end))];
    }
    var sorted := SortByStart(slots);
    merged := [];
    var current := Unset;
    var i := 0;
    while i + 1 < |sorted|
      invariant 0 <= i <= |sorted| || (i == 0 && sorted == [])
      invariant MergePairs(sorted[i..], current, merged) == MergePairs(sorted, Unset, [])
    {
      var prev, next := sorted[i], sorted[i + 1];
      assert sorted[i..][1..] == sorted[i + 1..];
      if AdjacentAsWritten(prev, next) {
        current := Timespan(if current.start.Some? then current.start else Some(prev.start), Some(next.end));
      } else {
        merged := merged + [current];
        current := Unset;
      }
      i := i + 1;
    }
    if current.start.Some? {
      merged := merged + [current];
    }
  }

  /** No slots, no timespans. */
  lemma MergeNone()
    ensures MergeReservedSlotsSpec([]) == []
  {
  }

  /** A single slot comes back as a single timespan of the same extent. */
  lemma MergeOne(x: Slot)
    ensures MergeReservedSlotsSpec([x]) == [Timespan(Some(x.start), Some(x.end))]
  {
  }

  lemma {:induction false} MergePairsAllAdjacent(s: seq<Slot>, current: Timespan, merged: seq<Timespan>)
    requires |s| >= 2 && AllAdjacentAsWritten(s)
    ensures MergePairs(s, current, merged)
            == merged + [Timespan(Some(current.start.GetOr(s[0].start)), Some(s[|s| - 1].end))]
  {
    var next := Timespan(if current.start.Some? then current.start else Some(s[0].start), Some(s[1].end));
    if |s| > 2 {
      MergePairsAllAdjacent(s[1..], next, merged);
    }
  }

  /**
   * When every consecutive gap of the sorted slots passes the test, the result
   * is one timespan from the first start to the end of the last sorted slot.
   */
  lemma MergeAllAdjacent(slots: seq<Slot>)
    requires |slots| >= 2 && AllAdjacentAsWritten(SortByStart(slots))
    ensures var s := SortByStart(slots);
            MergeReservedSlotsSpec(slots) == [Timespan(Some(s[0].start), Some(s[|s| - 1].end))]
  {
    MergePairsAllAdjacent(SortByStart(slots), Unset, []);
  }

  const Minute := 60 * 1000000
  const Hour := 60 * Minute

  /** The docstring's example: 08:00-08:14:59.999999 and 08:15-08:29:59.999999 give 08:00-08:29:59.999999. */
  lemma MergeDocstringExample()
    ensures MergeReservedSlotsSpec([Slot(8 * Hour, 8 * Hour + 15 * Minute - 1), Slot(8 * Hour + 15 * Minute, 8 * Hour + 30 * Minute - 1)])
            == [Timespan(Some(8 * Hour), Some(8 * Hour + 30 * Minute - 1))]
  {
    var slots := [Slot(8 * Hour, 8 * Hour + 15 * Minute - 1), Slot(8 * Hour + 15 * Minute, 8 * Hour + 30 * Minute - 1)];
    SortSorted(slots);
    assert slots[1].start - slots[0].end == 1;
    assert Intervals.TimedeltaOf(1).seconds == 0;
    assert AdjacentAsWritten(slots[0], slots[1]);
    var span := Timespan(Some(8 * Hour), Some(8 * Hour + 30 * Minute - 1));
    assert MergePairs(slots, Unset, []) == MergePairs(slots[1..], span, []);
    assert MergePairs(slots[1..], span, []) == [span];
  }

  /**
   * Two slots an hour apart: the loop appends its unset accumulator and drops
   * both slots, so the result is one empty timespan.
   */
  lemma MergeDropsIsolatedSlots()
    ensures MergeReservedSlotsSpec([Slot(8 * Hour, 8 * Hour + 15 * Minute), Slot(9 * Hour, 9 * Hour + 15 * Minute)])
            == [Unset]
  {
    var slots := [Slot(8 * Hour, 8 * Hour + 15 * Minute), Slot(9 * Hour, 9 * Hour + 15 * Minute)];
    SortSorted(slots);
    assert slots[1].start - slots[0].end == 45 * Minute;
    assert Intervals.TimedeltaOf(45 * Minute).seconds == 2700;
    assert !AdjacentAsWritten(slots[0], slots[1]);
    assert MergePairs(slots, Unset, []) == MergePairs(slots[1..], Unset, [Unset]);
    assert MergePairs(slots[1..], Unset, [Unset]) == [Unset];
  }

  /** Two slots exactly one day apart pass the `.seconds` test and are fused. */
  lemma MergeFusesSlotsADayApart()
    ensures MergeReservedSlotsSpec([Slot(8 * Hour, 8 * Hour + 15 * Minute), Slot(32 * Hour + 15 * Minute, 32 * Hour + 30 * Minute)])
            == [Timespan(Some(8 * Hour), Some(32 * Hour + 30 * Minute))]
  {
    var slots := [Slot(8 * Hour, 8 * Hour + 15 * Minute), Slot(32 * Hour + 15 * Minute, 32 * Hour + 30 * Minute)];
    SortSorted(slots);
    assert slots[1].start - slots[0].end == 86400000000;
    assert 86400000000 / 1000000 == 86400;
    assert Intervals.TimedeltaOf(86400000000).seconds == 0;
    assert AdjacentAsWritten(slots[0], slots[1]);
    var span := Timespan(Some(8 * Hour), Some(32 * Hour + 30 * Minute));
    assert MergePairs(slots, Unset, []) == MergePairs(slots[1..], span, []);
    assert MergePairs(slots[1..], span, []) == [span];
  }

  // ---------------------------------------------------------------------
  // The merge the docstring describes

  /** Two slots are contiguous when the gap between them is at most one second either way. */
  predicate Contiguous(prev: Slot, next: Slot) {
    -1000000 <= next.start - prev.end <= 1000000
  }

  predicate AllContiguous(s: seq<Slot>) {
    forall k :: 0 <= k < |s| - 1 ==> Contiguous(s[k], s[k + 1])
  }

  predicate NoneContiguous(s: seq<Slot>) {
    forall k :: 0 <= k < |s| - 1 ==> !Contiguous(s[k], s[k + 1])
  }

  /** The number of consecutive pairs that are not contiguous. */
  function Breaks(s: seq<Slot>): nat {
    if |s| < 2 then 0 else (if Contiguous(s[0], s[1]) then 0 else 1) + Breaks(s[1..])
  }

  /**
   * The spans of the sorted slots `[prev] + rest`, where `cur` is the span
   * being grown and `prev` the last slot fused into it.
   */
  function Runs(prev: Slot, rest: seq<Slot>, cur: Slot): (r: seq<Slot>)
    ensures |r| >= 1 && r[0].start == cur.start
    decreases |rest|
  {
    if rest == [] then [cur]
    else if Contiguous(prev, rest[0]) then Runs(rest[0], rest[1..], Slot(cur.start, rest[0].end))
    else [cur] + Runs(rest[0], rest[1..], rest[0])
  }

  /**
   * The corrected merge: the gap is measured in full, and every maximal run of
   * contiguous slots is emitted, a single isolated slot included.
   */
  function MergeAdjacent(slots: seq<Slot>): (r: seq<Slot>)
    ensures r == [] <==> slots == []
  {
    var s := SortByStart(slots);
    if s == [] then [] else Runs(s[0], s[1..], s[0])
  }

  /** One slot is one span, as in the original's special case. */
  lemma MergeAdjacentOne(x: Slot)
    ensures MergeAdjacent([x]) == [x]
  {
    SortSorted([x]);
  }

  lemma {:induction false} RunsCount(prev: Slot, rest: seq<Slot>, cur: Slot)
    ensures |Runs(prev, rest, cur)| == 1 + Breaks([prev] + rest)
    decreases |rest|
  {
    if rest != [] {
      assert ([prev] + rest)[1..] == [rest[0]] + rest[1..];
      if Contiguous(prev, rest[0]) {
        RunsCount(rest[0], rest[1..], Slot(cur.start, rest[0].end));
      } else {
        RunsCount(rest[0], rest[1..], rest[0]);
      }
    }
  }

  /** There is one span more than there are gaps between the sorted slots. */
  lemma MergeAdjacentCount(slots: seq<Slot>)
    requires slots != []
    ensures |MergeAdjacent(slots)| == 1 + Breaks(SortByStart(slots))
  {
    var s := SortByStart(slots);
    RunsCount(s[0], s[1..], s[0]);
    assert [s[0]] + s[1..] == s;
  }

  lemma {:induction false} RunsAllContiguous(prev: Slot, rest: seq<Slot>, cur: Slot)
    requires AllContiguous([prev] + rest) && cur.end == prev.end
    ensures Runs(prev, rest, cur) == [Slot(cur.start, ([prev] + rest)[|rest|].end)]
    decreases |rest|
  {
    if rest != [] {
      var all := [prev] + rest;
      assert Contiguous(all[0], all[1]);
      assert [rest[0]] + rest[1..] == rest;
      forall k | 0 <= k < |rest| - 1
        ensures Contiguous(rest[k], rest[k + 1])
      {
        assert rest[k] == all[k + 1] && rest[k + 1] == all[k + 2];
      }
      assert all[0] == prev && all[1] == rest[0];
      assert all[|rest|] == rest[|rest| - 1];
      RunsAllContiguous(rest[0], rest[1..], Slot(cur.start, rest[0].end));
      assert ([rest[0]] + rest[1..])[|rest[1..]|] == rest[|rest| - 1];
      assert Runs(prev, rest, cur) == Runs(rest[0], rest[1..], Slot(cur.start, rest[0].end));
    }
  }

  /** Slots that are all contiguous become one span from the first start to the last end. */
  lemma MergeAdjacentAllContiguous(slots: seq<Slot>)
    requires slots != [] && AllContiguous(SortByStart(slots))
    ensures var s := SortByStart(slots);
            MergeAdjacent(slots) == [Slot(s[0].start, s[|s| - 1].end)]
  {
    var s := SortByStart(slots);
    assert [s[0]] + s[1..] == s;
    RunsAllContiguous(s[0], s[1..], s[0]);
  }

  lemma {:induction false} RunsNoneContiguous(prev: Slot, rest: seq<Slot>)
    requires NoneContiguous([prev] + rest)
    ensures Runs(prev, rest, prev) == [prev] + rest
    decreases |rest|
  {
    if rest != [] {
      var all := [prev] + rest;
      assert !Contiguous(all[0], all[1]);
      assert [rest[0]] + rest[1..] == rest;
      forall k | 0 <= k < |rest| - 1
        ensures !Contiguous(rest[k], rest[k + 1])
      {
        assert rest[k] == all[k + 1] && rest[k + 1] == all[k + 2];
      }
      RunsNoneContiguous(rest[0], rest[1..]);
    }
  }

  /** Slots of which no two are contiguous come back unchanged, in start order. */
  lemma MergeAdjacentNoneContiguous(slots: seq<Slot>)
    requires NoneContiguous(SortByStart(slots))
    ensures MergeAdjacent(slots) == SortByStart(slots)
  {
    var s := SortByStart(slots);
    if s != [] {
      assert [s[0]] + s[1..] == s;
      RunsNoneContiguous(s[0], s[1..]);
    }
  }

  lemma {:induction false} RunsShape(prev: Slot, rest: seq<Slot>, cur: Slot)
    requires SortedByStart([prev] + rest)
    requires cur.start <= prev.start && cur.end == prev.end
    ensures var r := Runs(prev, rest, cur);
            SortedByStart(r) && NoneContiguous(r) && forall k :: 0 <= k < |r| ==> cur.start <= r[k].start
    decreases |rest|
  {
    if rest != [] {
      var all := [prev] + rest;
      assert all[1..] == rest;
      assert SortedByStart(rest);
      assert prev.start <= rest[0].start by { assert all[0] == prev && all[1] == rest[0]; }
      if Contiguous(prev, rest[0]) {
        RunsShape(rest[0], rest[1..], Slot(cur.start, rest[0].end));
      } else {
        var tail := Runs(rest[0], rest[1..], rest[0]);
        RunsShape(rest[0], rest[1..], rest[0]);
        ConsRun(cur, tail);
      }
    }
  }

  /** A span that is not contiguous with a run list and starts no later than it extends it. */
  lemma ConsRun(cur: Slot, tail: seq<Slot>)
    requires tail != [] && SortedByStart(tail) && NoneContiguous(tail)
    requires forall k :: 0 <= k < |tail| ==> cur.start <= tail[k].start
    requires !Contiguous(cur, tail[0])
    ensures var r := [cur] + tail;
            SortedByStart(r) && NoneContiguous(r) && forall k :: 0 <= k < |r| ==> cur.start <= r[k].start
  {
    var r := [cur] + tail;
    assert forall k :: 1 <= k < |r| ==> r[k] == tail[k - 1];
  }

  /** Merging what was merged changes nothing. */
  lemma MergeAdjacentIdempotent(slots: seq<Slot>)
    ensures MergeAdjacent(MergeAdjacent(slots)) == MergeAdjacent(slots)
  {
    var s := SortByStart(slots);
    if s != [] {
      assert [s[0]] + s[1..] == s;
      var m := MergeAdjacent(slots);
      RunsShape(s[0], s[1..], s[0]);
      SortSorted(m);
      assert [m[0]] + m[1..] == m;
      RunsNoneContiguous(m[0], m[1..]);
    }
  }

  /** The slots an hour apart that the loop as written loses are both kept. */
  lemma MergeAdjacentKeepsIsolatedSlots()
    ensures MergeAdjacent([Slot(8 * Hour, 8 * Hour + 15 * Minute), Slot(9 * Hour, 9 * Hour + 15 * Minute)])
            == [Slot(8 * Hour, 8 * Hour + 15 * Minute), Slot(9 * Hour, 9 * Hour + 15 * Minute)]
  {
    var slots := [Slot(8 * Hour, 8 * Hour + 15 * Minute), Slot(9 * Hour, 9 * Hour + 15 * Minute)];
    assert slots[1].start - slots[0].end == 2700000000;
    assert SortedByStart(slots) && NoneContiguous(slots);
    SortSorted(slots);
    MergeAdjacentNoneContiguous(slots);
  }

  /** Slots a day apart are not contiguous. */
  lemma MergeAdjacentKeepsDaysApart()
    ensures MergeAdjacent([Slot(8 * Hour, 8 * Hour + 15 * Minute), Slot(32 * Hour + 15 * Minute, 32 * Hour + 30 * Minute)])
            == [Slot(8 * Hour, 8 * Hour + 15 * Minute), Slot(32 * Hour + 15 * Minute, 32 * Hour + 30 * Minute)]
  {
    var slots := [Slot(8 * Hour, 8 * Hour + 15 * Minute), Slot(32 * Hour + 15 * Minute, 32 * Hour + 30 * Minute)];
    assert slots[1].start - slots[0].end == 86400000000;
    assert SortedByStart(slots) && NoneContiguous(slots);
    SortSorted(slots);
    MergeAdjacentNoneContiguous(slots);
  }
}
