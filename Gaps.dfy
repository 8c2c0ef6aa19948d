/**
 * everyAttendeeIsConsidered and doesRequestFitInFreeTime: the free gaps
 * before, between and after the busy events, kept when the meeting fits.
 */
module Gaps {
  import opened TimeRanges
  import opened Events
  import opened Options

  /** doesRequestFitInFreeTime: the meeting fits, an exact fit included. */
  function DoesRequestFitInFreeTime(freeTime: int, requestedTime: int): bool {
    freeTime >= requestedTime
  }

  /** [freeTime] when the meeting fits in it, nothing otherwise. */
  function IfFits(freeTime: TimeRange, duration: int): seq<TimeRange> {
    if DoesRequestFitInFreeTime(freeTime.Duration(), duration) then [freeTime] else []
  }

  /** The free time before the first event, unless it starts the day. */
  function GapBefore(ws: seq<Event>, duration: int): seq<TimeRange>
    requires |ws| > 0
  {
    if ws[0].when.start != StartOfDay
    then IfFits(FromStartEnd(StartOfDay, ws[0].when.start, false), duration)
    else []
  }

  /** The events before and at position k do not meet. */
  predicate HasGapAt(ws: seq<Event>, k: int)
    requires 1 <= k < |ws|
  {
    ws[k - 1].when.end != ws[k].when.start
  }

  /** The time between the event at k - 1 and the event at k. */
  function GapAt(ws: seq<Event>, k: int): TimeRange
    requires 1 <= k < |ws|
  {
    FromStartEnd(ws[k - 1].when.end, ws[k].when.start, false)
  }

  /** The free times between consecutive events, in order. */
  function GapsBetween(ws: seq<Event>, duration: int): seq<TimeRange> {
    if |ws| < 2 then []
    else
      GapsBetween(ws[..|ws| - 1], duration)
      + (if HasGapAt(ws, |ws| - 1) then IfFits(GapAt(ws, |ws| - 1), duration) else [])
  }

  /** The free time after the last event, unless it ends the day. */
  function GapAfter(ws: seq<Event>, duration: int): seq<TimeRange>
    requires |ws| > 0
  {
    var last := ws[|ws| - 1].when;
    if last.end - 1 != EndOfDay
    then IfFits(FromStartEnd(last.end, EndOfDay, true), duration)
    else []
  }

  /** The gaps around a non-empty list of busy events that the meeting fits in. */
  function GapsAround(ws: seq<Event>, duration: int): seq<TimeRange>
    requires |ws| > 0
  {
    GapBefore(ws, duration) + GapsBetween(ws, duration) + GapAfter(ws, duration)
  }

  /** What everyAttendeeIsConsidered returns. */
  function AvailableTimes(events: seq<Event>, request: MeetingRequest): seq<TimeRange> {
    if request.duration > WholeDay.Duration() then []
    else if |request.attendees| == 0 || |events| == 0 then [WholeDay]
    else GapsAround(events, request.duration)
  }

  /**
   * The gaps the source derives from busy events ws: from the start of the
   * day to the first event when it does not start the day, between two
   * consecutive events that do not meet, and from the last event to the
   * end of the day when it does not end the day.
   */
  predicate CandidateGap(ws: seq<Event>, g: TimeRange)
    requires |ws| > 0
  {
    || (ws[0].when.start != StartOfDay && g == TimeRange(StartOfDay, ws[0].when.start))
    || (exists k :: 1 <= k < |ws| && HasGapAt(ws, k) && g == GapAt(ws, k))
    || (ws[|ws| - 1].when.end != WholeDay.end && g == TimeRange(ws[|ws| - 1].when.end, WholeDay.end))
  }

  /** The gaps between events are those between consecutive events that do not meet and that the meeting fits in. */
  lemma {:induction false} GapsBetweenMembers(ws: seq<Event>, duration: int)
    ensures forall g :: g in GapsBetween(ws, duration) <==>
      g.Duration() >= duration && exists k :: 1 <= k < |ws| && HasGapAt(ws, k) && g == GapAt(ws, k)
  {
    if |ws| >= 2 {
      var n := |ws|;
      var init := ws[..n - 1];
      GapsBetweenMembers(init, duration);
      forall k | 1 <= k < n - 1
        ensures HasGapAt(init, k) == HasGapAt(ws, k) && GapAt(init, k) == GapAt(ws, k)
      {
        assert init[k - 1] == ws[k - 1] && init[k] == ws[k];
      }
      forall g | g in GapsBetween(ws, duration)
        ensures g.Duration() >= duration && exists k :: 1 <= k < n && HasGapAt(ws, k) && g == GapAt(ws, k)
      {
        if g in GapsBetween(init, duration) {
          var k :| 1 <= k < |init| && HasGapAt(init, k) && g == GapAt(init, k);
          assert HasGapAt(ws, k) && g == GapAt(ws, k);
        } else {
          assert HasGapAt(ws, n - 1) && g == GapAt(ws, n - 1);
        }
      }
      forall g: TimeRange | g.Duration() >= duration && exists k :: 1 <= k < n && HasGapAt(ws, k) && g == GapAt(ws, k)
        ensures g in GapsBetween(ws, duration)
      {
        var k :| 1 <= k < n && HasGapAt(ws, k) && g == GapAt(ws, k);
        if k < n - 1 {
          assert HasGapAt(init, k) && g == GapAt(init, k);
          assert g in GapsBetween(init, duration);
        }
      }
    }
  }

  /**
   * Gap derivation: a range is returned for busy events ws exactly when it
   * is one of the candidate gaps and the meeting fits in it, an exact fit
   * included. No order or disjointness of ws is needed for this.
   */
  lemma GapsAreCandidates(ws: seq<Event>, duration: int)
    requires |ws| > 0
    ensures forall g :: g in GapsAround(ws, duration) <==> CandidateGap(ws, g) && g.Duration() >= duration
  {
    GapsBetweenMembers(ws, duration);
  }

  /** Each event ends no later than any later event starts. */
  predicate SortedDisjoint(ws: seq<Event>) {
    forall i, j :: 0 <= i < j < |ws| ==> ws[i].when.end <= ws[j].when.start
  }

  /** g is a maximal stretch of the day in which no event of ws takes place. */
  predicate FreeSlot(ws: seq<Event>, g: TimeRange) {
    && WithinDay(g)
    && (forall t :: g.start <= t < g.end ==> !Covers(ws, t))
    && (g.start == StartOfDay || Covers(ws, g.start - 1))
    && (g.end == WholeDay.end || Covers(ws, g.end))
  }

  /** Ranges that each end before the next one starts. */
  predicate Ascending(rs: seq<TimeRange>) {
    forall i, j :: 0 <= i < j < |rs| ==> rs[i].end < rs[j].start
  }

  /** A range that every event lies entirely before or after is free of them. */
  lemma SeparatedIsFree(ws: seq<Event>, g: TimeRange)
    requires forall i :: 0 <= i < |ws| ==> ws[i].when.end <= g.start || g.end <= ws[i].when.start
    ensures forall t :: g.start <= t < g.end ==> !Covers(ws, t)
  {
    forall t | g.start <= t < g.end ensures !Covers(ws, t) {
      forall e | e in ws ensures !e.when.Contains(t) {
        var i :| 0 <= i < |ws| && ws[i] == e;
      }
    }
  }

  /** Over sorted, disjoint busy events inside the day, every candidate gap is a maximal free slot. */
  lemma CandidateIsFreeSlot(ws: seq<Event>, g: TimeRange)
    requires |ws| > 0 && SortedDisjoint(ws) && AllWithinDay(ws)
    requires CandidateGap(ws, g)
    ensures FreeSlot(ws, g)
  {
    var n := |ws|;
    if ws[0].when.start != StartOfDay && g == TimeRange(StartOfDay, ws[0].when.start) {
      GapBeforeIsFree(ws);
    } else if exists k :: 1 <= k < n && HasGapAt(ws, k) && g == GapAt(ws, k) {
      var k :| 1 <= k < n && HasGapAt(ws, k) && g == GapAt(ws, k);
      GapAtIsFree(ws, k);
    } else {
      GapAfterIsFree(ws);
    }
  }

  /** The time before the first event is a maximal free slot. */
  lemma GapBeforeIsFree(ws: seq<Event>)
    requires |ws| > 0 && SortedDisjoint(ws) && AllWithinDay(ws) && ws[0].when.start != StartOfDay
    ensures FreeSlot(ws, TimeRange(StartOfDay, ws[0].when.start))
  {
    var g := TimeRange(StartOfDay, ws[0].when.start);
    assert WithinDay(ws[0].when);
    forall i | 0 <= i < |ws| ensures g.end <= ws[i].when.start {
      assert WithinDay(ws[i].when);
    }
    SeparatedIsFree(ws, g);
    assert ws[0].when.Contains(g.end);
  }

  /** The time between the events at k - 1 and k, when they do not meet, is a maximal free slot. */
  lemma GapAtIsFree(ws: seq<Event>, k: int)
    requires SortedDisjoint(ws) && AllWithinDay(ws) && 1 <= k < |ws| && HasGapAt(ws, k)
    ensures FreeSlot(ws, GapAt(ws, k))
  {
    var g := GapAt(ws, k);
    assert WithinDay(ws[k - 1].when) && WithinDay(ws[k].when);
    forall i | 0 <= i < |ws| ensures ws[i].when.end <= g.start || g.end <= ws[i].when.start {
      assert WithinDay(ws[i].when);
      if i < k - 1 {
        assert ws[i].when.end <= ws[k - 1].when.start;
      } else if k < i {
        assert ws[k].when.end <= ws[i].when.start;
      }
    }
    SeparatedIsFree(ws, g);
    assert ws[k - 1].when.Contains(g.start - 1);
    assert ws[k].when.Contains(g.end);
  }

  /** The time after the last event, when it does not end the day, is a maximal free slot. */
  lemma GapAfterIsFree(ws: seq<Event>)
    requires |ws| > 0 && SortedDisjoint(ws) && AllWithinDay(ws)
    requires ws[|ws| - 1].when.end != WholeDay.end
    ensures FreeSlot(ws, TimeRange(ws[|ws| - 1].when.end, WholeDay.end))
  {
    var n := |ws|;
    var g := TimeRange(ws[n - 1].when.end, WholeDay.end);
    assert WithinDay(ws[n - 1].when);
    forall i | 0 <= i < n ensures ws[i].when.end <= g.start {
      assert WithinDay(ws[i].when);
    }
    SeparatedIsFree(ws, g);
    assert ws[n - 1].when.Contains(g.start - 1);
  }

  /** An event covers its own first minute. */
  lemma CoversOwnStart(ws: seq<Event>, k: int)
    requires 0 <= k < |ws| && ws[k].when.start < ws[k].when.end
    ensures Covers(ws, ws[k].when.start)
  {
    assert ws[k] in ws && ws[k].when.Contains(ws[k].when.start);
  }

  /** A free slot that does not reach the end of the day ends where some event starts. */
  lemma EventStartingAtSlotEnd(ws: seq<Event>, g: TimeRange) returns (j: nat)
    requires FreeSlot(ws, g) && g.end != WholeDay.end
    ensures j < |ws| && ws[j].when.start == g.end
  {
    var e :| e in ws && e.when.Contains(g.end);
    j :| 0 <= j < |ws| && ws[j] == e;
    assert !Covers(ws, g.start);
    CoversOwnStart(ws, j);
    assert e.when.start < g.end ==> !Covers(ws, e.when.start);
  }

  /** A free slot that does not begin the day starts where some event ends. */
  lemma EventEndingAtSlotStart(ws: seq<Event>, g: TimeRange) returns (i: nat)
    requires FreeSlot(ws, g) && g.start != StartOfDay
    ensures i < |ws| && ws[i].when.end == g.start
  {
    var e :| e in ws && e.when.Contains(g.start - 1);
    i :| 0 <= i < |ws| && ws[i] == e;
    assert !Covers(ws, g.start);
    assert !e.when.Contains(g.start);
  }

  /** Over sorted, disjoint busy events inside the day, every maximal free slot is a candidate gap. */
  lemma FreeSlotIsCandidate(ws: seq<Event>, g: TimeRange)
    requires |ws| > 0 && SortedDisjoint(ws) && AllWithinDay(ws)
    requires FreeSlot(ws, g)
    ensures CandidateGap(ws, g)
  {
    var n := |ws|;
    assert WithinDay(ws[0].when) && WithinDay(ws[n - 1].when);
    CoversOwnStart(ws, 0);
    CoversOwnStart(ws, n - 1);
    if g.start == StartOfDay {
      assert ws[0].when.start >= g.end;
      var j := EventStartingAtSlotEnd(ws, g);
      assert j == 0;
    } else {
      var i := EventEndingAtSlotStart(ws, g);
      assert WithinDay(ws[i].when);
      if g.end == WholeDay.end {
        assert ws[n - 1].when.start < g.start;
        assert i == n - 1;
      } else {
        var j := EventStartingAtSlotEnd(ws, g);
        assert WithinDay(ws[j].when);
        assert i < j;
        assert WithinDay(ws[i + 1].when);
        CoversOwnStart(ws, i + 1);
        assert ws[i].when.end <= ws[i + 1].when.start;
        assert j == i + 1;
        assert HasGapAt(ws, j) && g == GapAt(ws, j);
      }
    }
  }

  /** Concatenating ascending lists, each range of the first before each of the second. */
  lemma AscendingConcat(a: seq<TimeRange>, b: seq<TimeRange>)
    requires Ascending(a) && Ascending(b)
    requires forall x, y :: x in a && y in b ==> x.end < y.start
    ensures Ascending(a + b)
  {
    forall i, j | 0 <= i < j < |a + b| ensures (a + b)[i].end < (a + b)[j].start {
      if i < |a| && |a| <= j {
        assert (a + b)[i] in a && (a + b)[j] in b;
      }
    }
  }

  /** The last step of GapsBetween: the gap before the event at k, if any. */
  lemma GapsBetweenStep(ws: seq<Event>, k: int, duration: int)
    requires 1 <= k < |ws|
    ensures GapsBetween(ws[..k + 1], duration)
      == GapsBetween(ws[..k], duration) + (if HasGapAt(ws, k) then IfFits(GapAt(ws, k), duration) else [])
  {
    var p := ws[..k + 1];
    assert p[..k] == ws[..k];
    assert p[k - 1] == ws[k - 1] && p[k] == ws[k];
  }

  /** Over sorted, disjoint busy events every gap between them ends by the last one's start. */
  lemma {:induction false} GapsBetweenEndByLast(ws: seq<Event>, duration: int)
    requires |ws| > 0 && SortedDisjoint(ws) && AllWithinDay(ws)
    ensures forall x :: x in GapsBetween(ws, duration) ==> x.end <= ws[|ws| - 1].when.start
  {
    if |ws| >= 2 {
      var n := |ws|;
      var init := ws[..n - 1];
      GapsBetweenEndByLast(init, duration);
      assert WithinDay(ws[n - 2].when);
      assert ws[n - 2].when.end <= ws[n - 1].when.start;
    }
  }

  /** Over sorted, disjoint busy events every gap between them starts after the first one ends. */
  lemma {:induction false} GapsBetweenStartByFirst(ws: seq<Event>, duration: int)
    requires |ws| > 0 && SortedDisjoint(ws) && AllWithinDay(ws)
    ensures forall x :: x in GapsBetween(ws, duration) ==> ws[0].when.end <= x.start
  {
    if |ws| >= 2 {
      var n := |ws|;
      var init := ws[..n - 1];
      GapsBetweenStartByFirst(init, duration);
      assert WithinDay(ws[0].when);
      assert n - 2 > 0 ==> ws[0].when.end <= ws[n - 2].when.start;
      assert WithinDay(ws[n - 2].when);
    }
  }

  /** Over sorted, disjoint busy events the gaps between them ascend. */
  lemma {:induction false} GapsBetweenAscending(ws: seq<Event>, duration: int)
    requires SortedDisjoint(ws) && AllWithinDay(ws)
    ensures Ascending(GapsBetween(ws, duration))
  {
    if |ws| >= 2 {
      var n := |ws|;
      var init := ws[..n - 1];
      GapsBetweenAscending(init, duration);
      GapsBetweenEndByLast(init, duration);
      var last := if HasGapAt(ws, n - 1) then IfFits(GapAt(ws, n - 1), duration) else [];
      assert WithinDay(ws[n - 2].when);
      assert forall y :: y in last ==> y.start == ws[n - 2].when.end;
      AscendingConcat(GapsBetween(init, duration), last);
    }
  }

  /** Over sorted, disjoint busy events inside the day, the gaps come in chronological order. */
  lemma GapsAscending(ws: seq<Event>, duration: int)
    requires |ws| > 0 && SortedDisjoint(ws) && AllWithinDay(ws)
    ensures Ascending(GapsAround(ws, duration))
  {
    var n := |ws|;
    var before, between, after := GapBefore(ws, duration), GapsBetween(ws, duration), GapAfter(ws, duration);
    GapsBetweenAscending(ws, duration);
    GapsBetweenEndByLast(ws, duration);
    GapsBetweenStartByFirst(ws, duration);
    assert WithinDay(ws[0].when) && WithinDay(ws[n - 1].when);
    AscendingConcat(before, between);
    AscendingConcat(before + between, after);
  }

  /** The one maximal free slot when nothing is busy is the whole day. */
  lemma FreeSlotOfNothing(g: TimeRange)
    ensures FreeSlot([], g) <==> g == WholeDay
  {
  }

  /**
   * For sorted, disjoint busy events inside the day (and none when nobody
   * is requested), everyAttendeeIsConsidered returns exactly the maximal
   * free slots the meeting fits in, an exact fit included, in
   * chronological order.
   */
  lemma AvailableTimesExact(ws: seq<Event>, request: MeetingRequest)
    requires SortedDisjoint(ws) && AllWithinDay(ws)
    requires |request.attendees| == 0 ==> ws == []
    ensures forall g :: g in AvailableTimes(ws, request) <==> FreeSlot(ws, g) && g.Duration() >= request.duration
    ensures Ascending(AvailableTimes(ws, request))
  {
    if request.duration > WholeDay.Duration() {
    } else if ws == [] {
      forall g ensures FreeSlot(ws, g) <==> g == WholeDay {
        FreeSlotOfNothing(g);
      }
    } else {
      GapsAreCandidates(ws, request.duration);
      forall g ensures CandidateGap(ws, g) <==> FreeSlot(ws, g) {
        if CandidateGap(ws, g) {
          CandidateIsFreeSlot(ws, g);
        }
        if FreeSlot(ws, g) {
          FreeSlotIsCandidate(ws, g);
        }
      }
      GapsAscending(ws, request.duration);
    }
  }

  /** AvailableTimesExact, stated for any input. */
  lemma ExactWhenSorted(ws: seq<Event>, request: MeetingRequest)
    ensures SortedDisjoint(ws) && AllWithinDay(ws) && (|request.attendees| == 0 ==> ws == []) ==>
      Ascending(AvailableTimes(ws, request))
      && forall g :: g in AvailableTimes(ws, request) <==> FreeSlot(ws, g) && g.Duration() >= request.duration
  {
    if SortedDisjoint(ws) && AllWithinDay(ws) && (|request.attendees| == 0 ==> ws == []) {
      AvailableTimesExact(ws, request);
    }
  }

  /** everyAttendeeIsConsidered (lines 164-220). */
  method EveryAttendeeIsConsidered(events: seq<Event>, request: MeetingRequest) returns (availableTimes: seq<TimeRange>)
    ensures availableTimes == AvailableTimes(events, request)
    ensures SortedDisjoint(events) && AllWithinDay(events) && (|request.attendees| == 0 ==> events == []) ==>
      Ascending(availableTimes)
      && forall g :: g in availableTimes <==> FreeSlot(events, g) && g.Duration() >= request.duration
  {
    if request.duration > WholeDay.Duration() {
      availableTimes := [];
      ExactWhenSorted(events, request);
      return;
    }
    if |request.attendees| == 0 || |events| == 0 {
      availableTimes := [WholeDay];
      ExactWhenSorted(events, request);
      return;
    }
    var n := |events|;
    var d := request.duration;
    availableTimes := [];
    var next := 0;  // the position of the event iterator
    var currEventTime := events[next].when;
    next := next + 1;
    var runnerEventTime: Option<TimeRange> := None;
    var size := n;

    // before the first event
    if currEventTime.start != StartOfDay {
      var freeTime := FromStartEnd(StartOfDay, currEventTime.start, false);
      if DoesRequestFitInFreeTime(freeTime.Duration(), d) {
        availableTimes := availableTimes + [freeTime];
      }
    }
    assert events[..0] == [] && GapsBetween([], d) == [];
    assert availableTimes == GapBefore(events, d) + GapsBetween(events[..0], d);
    if size != 1 {
      runnerEventTime := Some(currEventTime);
      currEventTime := events[next].when;
      next := next + 1;
      size := size - 1;
      assert GapsBetween(events[..1], d) == [];
    }
    // between events
    while size != 0
      invariant 0 <= size <= n
      invariant size == n ==> n == 1 && runnerEventTime == None
      invariant size < n ==> runnerEventTime == Some(events[n - size - 1].when)
      invariant size > 0 ==> currEventTime == events[n - size].when && next == n - size + 1
      invariant availableTimes == GapBefore(events, d) + GapsBetween(events[..n - size], d)
      decreases size
    {
      ghost var before := availableTimes;
      ghost var k := n - size;
      if size != n && runnerEventTime.value.end != currEventTime.start {
        var freeTime := FromStartEnd(runnerEventTime.value.end, currEventTime.start, false);
        if DoesRequestFitInFreeTime(freeTime.Duration(), d) {
          availableTimes := availableTimes + [freeTime];
        }
      }
      if k == 0 {
        assert GapsBetween(events[..1], d) == [];
      } else {
        ghost var piece := if HasGapAt(events, k) then IfFits(GapAt(events, k), d) else [];
        assert availableTimes == before + piece;
        GapsBetweenStep(events, k, d);
        AppendAssociative(GapBefore(events, d), GapsBetween(events[..k], d), piece);
      }
      runnerEventTime := Some(currEventTime);
      if size != 1 {
        currEventTime := events[next].when;
        next := next + 1;
      }
      size := size - 1;
    }
    assert events[..n] == events;
    // after the last event
    if runnerEventTime.value.end - 1 != EndOfDay {
      var freeTime := FromStartEnd(runnerEventTime.value.end, EndOfDay, true);
      if DoesRequestFitInFreeTime(freeTime.Duration(), d) {
        availableTimes := availableTimes + [freeTime];
      }
    }
    ExactWhenSorted(events, request);
  }
}
