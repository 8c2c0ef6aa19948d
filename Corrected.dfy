/**
 * The query as its stages evidently intend it, next to the two inputs on
 * which the code as written goes wrong.
 *
 * - Ordering: of two events with the same start, the TreeMap keeps only
 *   the one put last, so the minutes only the other one takes up are
 *   reported free. Here the entry that ends later is kept instead, which
 *   loses no busy minute.
 * - Merging: checkForOverlaps decides whether to fuse a new event by
 *   asking whether the previous one overlapped e0, so an event that
 *   overlaps nothing is fused after an overlapping pair, and the free time
 *   before it is lost. Here each event is fused into the block built so
 *   far exactly when it overlaps that block.
 *
 * With both changes the query returns exactly the maximal free slots of
 * the requested attendees that the meeting fits in, in order.
 */
module Corrected {
  import opened TimeRanges
  import opened Events
  import opened Filter
  import opened Sort
  import opened Merge
  import opened Gaps
  import opened FindMeetingQuery

  /** TreeMap.put keyed on start that keeps, of two events with one start, the later-ending one. */
  function PutLonger(tm: seq<Event>, e: Event): (r: seq<Event>)
    requires StartsAscending(tm)
    ensures StartsAscending(r)
    ensures forall x :: x in r ==> x == e || x in tm
  {
    if tm == [] then [e]
    else if e.when.start < tm[0].when.start then [e] + tm
    else if e.when.start == tm[0].when.start then
      if tm[0].when.end < e.when.end then [e] + tm[1..] else tm
    else
      var rest := PutLonger(tm[1..], e);
      assert forall x :: x in rest ==> x.when.start > tm[0].when.start;
      [tm[0]] + rest
  }

  /** Putting e with PutLonger loses no busy minute and adds only those of e. */
  lemma {:induction false} PutLongerCovers(tm: seq<Event>, e: Event, t: int)
    requires StartsAscending(tm)
    ensures Covers(PutLonger(tm, e), t) <==> Covers(tm, t) || e.when.Contains(t)
  {
    if tm != [] {
      assert tm == [tm[0]] + tm[1..];
      if e.when.start > tm[0].when.start {
        PutLongerCovers(tm[1..], e, t);
        assert PutLonger(tm, e) == [tm[0]] + PutLonger(tm[1..], e);
      }
    }
  }

  /** The entries after putting every event of `events` in order with PutLonger. */
  function LongestPerStart(events: seq<Event>): (tm: seq<Event>)
    ensures StartsAscending(tm)
    ensures forall x :: x in tm ==> x in events
  {
    if events == [] then []
    else
      var n := |events|;
      assert events == events[..n - 1] + [events[n - 1]];
      PutLonger(LongestPerStart(events[..n - 1]), events[n - 1])
  }

  /** The kept entries take up exactly the minutes of the events put. */
  lemma {:induction false} LongestPerStartCovers(events: seq<Event>, t: int)
    ensures Covers(LongestPerStart(events), t) <==> Covers(events, t)
  {
    if events != [] {
      var n := |events|;
      assert events == events[..n - 1] + [events[n - 1]];
      LongestPerStartCovers(events[..n - 1], t);
      PutLongerCovers(LongestPerStart(events[..n - 1]), events[n - 1], t);
    }
  }

  /** Putting an event that starts after every entry adds it at the end. */
  lemma {:induction false} PutLongerAfterAll(tm: seq<Event>, e: Event)
    requires StartsAscending(tm)
    requires forall x :: x in tm ==> x.when.start < e.when.start
    ensures PutLonger(tm, e) == tm + [e]
  {
    if tm != [] {
      PutLongerAfterAll(tm[1..], e);
      assert tm == [tm[0]] + tm[1..];
    }
  }

  /** Events already in order of strictly increasing start come back as they are. */
  lemma {:induction false} LongestPerStartInOrder(events: seq<Event>)
    requires StartsAscending(events)
    ensures LongestPerStart(events) == events
  {
    if events != [] {
      var n := |events|;
      var init := events[..n - 1];
      assert events == init + [events[n - 1]];
      LongestPerStartInOrder(init);
      PutLongerAfterAll(init, events[n - 1]);
    }
  }

  /** orderEventsbyStartTimes with the TreeMap keeping the later-ending event per start. */
  function OrderedByStartKeepingLongest(events: seq<Event>): seq<Event> {
    if |events| == 1 then events else LongestPerStart(events)
  }

  /** The corrected ordering has ascending starts, one entry per start, and the input's busy minutes. */
  lemma OrderedByStartKeepingLongestCovers(events: seq<Event>, t: int)
    ensures StartsAscending(OrderedByStartKeepingLongest(events))
    ensures Covers(OrderedByStartKeepingLongest(events), t) <==> Covers(events, t)
  {
    if |events| != 1 {
      LongestPerStartCovers(events, t);
    }
  }

  /** The corrected ordering: one event per start, ascending, taking up exactly the input's minutes. */
  method OrderEventsByStartTimesKeepingLongest(events: seq<Event>) returns (ordered: seq<Event>)
    ensures ordered == OrderedByStartKeepingLongest(events)
    ensures StartsAscending(ordered)
    ensures forall x :: x in ordered ==> x in events
    ensures forall t :: Covers(ordered, t) <==> Covers(events, t)
  {
    forall t ensures Covers(OrderedByStartKeepingLongest(events), t) <==> Covers(events, t) {
      OrderedByStartKeepingLongestCovers(events, t);
    }
    if |events| == 1 {
      return events;
    }
    var tm := [];
    for i := 0 to |events|
      invariant tm == LongestPerStart(events[..i])
    {
      tm := PutLonger(tm, events[i]);
      assert events[..i + 1][..i] == events[..i];
    }
    assert events[..|events|] == events;
    ordered := tm;
  }

  /**
   * The corrected merge: walking the events in start order, each one is
   * fused into the last block when it overlaps it, and opens a new block
   * otherwise.
   */
  function MergeOverlapping(events: seq<Event>): seq<Event> {
    if events == [] then []
    else
      var merged := MergeOverlapping(events[..|events| - 1]);
      var e := events[|events| - 1];
      if merged != [] && e.when.Overlaps(merged[|merged| - 1].when)
      then merged[..|merged| - 1] + [Combined(merged[|merged| - 1], e)]
      else merged + [e]
  }

  /** The last element of a non-empty list. */
  function Last(s: seq<Event>): Event
    requires s != []
  {
    s[|s| - 1]
  }

  /** Merging loses no busy minute and adds none. */
  lemma {:induction false} MergeOverlappingCovers(events: seq<Event>, t: int)
    ensures Covers(MergeOverlapping(events), t) <==> Covers(events, t)
  {
    if events != [] {
      var n := |events|;
      var init, e := events[..n - 1], events[n - 1];
      assert events == init + [e];
      MergeOverlappingCovers(init, t);
      var merged := MergeOverlapping(init);
      if merged != [] && e.when.Overlaps(Last(merged).when) {
        var m := |merged|;
        assert merged == merged[..m - 1] + [Last(merged)];
        HullOfOverlappingIsUnion(Last(merged).when, e.when);
      }
    }
  }

  /**
   * Over events inside the day with ascending starts, the merged blocks lie
   * inside the day and are sorted and disjoint, and the last block starts
   * no later than the last event.
   */
  lemma {:induction false} MergeOverlappingSortedDisjoint(events: seq<Event>)
    requires StartsAscending(events) && AllWithinDay(events)
    ensures SortedDisjoint(MergeOverlapping(events)) && AllWithinDay(MergeOverlapping(events))
    ensures events != [] ==>
      (MergeOverlapping(events) != [] && Last(MergeOverlapping(events)).when.start <= Last(events).when.start)
  {
    if events != [] {
      var n := |events|;
      var init, e := events[..n - 1], events[n - 1];
      PrefixInOrder(events);
      MergeOverlappingSortedDisjoint(init);
      var merged := MergeOverlapping(init);
      if merged != [] {
        assert Last(merged).when.start <= Last(init).when.start < e.when.start;
        if e.when.Overlaps(Last(merged).when) {
          assert MergeOverlapping(events) == merged[..|merged| - 1] + [Combined(Last(merged), e)];
          FuseLast(merged, e);
        } else {
          assert MergeOverlapping(events) == merged + [e];
          AppendDisjoint(merged, e);
        }
      }
    }
  }

  /** Dropping the last event keeps the rest in order and inside the day. */
  lemma PrefixInOrder(events: seq<Event>)
    requires events != [] && StartsAscending(events) && AllWithinDay(events)
    ensures StartsAscending(events[..|events| - 1]) && AllWithinDay(events[..|events| - 1])
    ensures WithinDay(Last(events).when)
    ensures |events| > 1 ==> Last(events[..|events| - 1]).when.start < Last(events).when.start
  {
    var init := events[..|events| - 1];
    assert forall x :: x in init ==> x in events;
  }

  /** Fusing an overlapping event into the last block keeps the blocks sorted, disjoint and in the day. */
  lemma FuseLast(merged: seq<Event>, e: Event)
    requires merged != [] && SortedDisjoint(merged) && AllWithinDay(merged) && WithinDay(e.when)
    requires Last(merged).when.start <= e.when.start && e.when.Overlaps(Last(merged).when)
    ensures var r := merged[..|merged| - 1] + [Combined(Last(merged), e)];
      SortedDisjoint(r) && AllWithinDay(r) && Last(r).when.start == Last(merged).when.start
  {
    var m := |merged|;
    var last := Last(merged);
    var r := merged[..m - 1] + [Combined(last, e)];
    assert merged == merged[..m - 1] + [last];
    assert WithinDay(last.when);
    forall i, j | 0 <= i < j < |r| ensures r[i].when.end <= r[j].when.start {
      assert r[i] == merged[i];
      if j < m - 1 {
        assert r[j] == merged[j];
      } else {
        assert merged[i].when.end <= last.when.start;
      }
    }
  }

  /** Appending an event that starts after the last block ends keeps the blocks sorted and disjoint. */
  lemma AppendDisjoint(merged: seq<Event>, e: Event)
    requires merged != [] && SortedDisjoint(merged) && AllWithinDay(merged) && WithinDay(e.when)
    requires Last(merged).when.start <= e.when.start && !e.when.Overlaps(Last(merged).when)
    ensures SortedDisjoint(merged + [e])
  {
    var m := |merged|;
    var last := Last(merged);
    assert WithinDay(last.when);
    forall i, j | 0 <= i < j < m + 1 ensures (merged + [e])[i].when.end <= (merged + [e])[j].when.start {
      if j == m && i < m - 1 {
        assert merged[i].when.end <= last.when.start;
      }
    }
  }

  /** The corrected merge, as a loop over the events. */
  method MergeOverlappingEvents(events: seq<Event>) returns (merged: seq<Event>)
    ensures merged == MergeOverlapping(events)
    ensures forall t :: Covers(merged, t) <==> Covers(events, t)
    ensures StartsAscending(events) && AllWithinDay(events) ==>
      SortedDisjoint(merged) && AllWithinDay(merged)
  {
    merged := [];
    for k := 0 to |events|
      invariant merged == MergeOverlapping(events[..k])
    {
      var e := events[k];
      if merged != [] && e.when.Overlaps(merged[|merged| - 1].when) {
        var customEvent;
        customEvent, merged := CombineEvents(merged[..|merged| - 1], merged[|merged| - 1], e);
      } else {
        merged := merged + [e];
      }
      assert events[..k + 1] == events[..k] + [e];
    }
    assert events[..|events|] == events;
    if StartsAscending(events) && AllWithinDay(events) {
      MergeOverlappingSortedDisjoint(events);
    }
    forall t ensures Covers(merged, t) <==> Covers(events, t) {
      MergeOverlappingCovers(events, t);
    }
  }

  /** What query returns with both stages corrected. */
  function CorrectedQueryResult(events: seq<Event>, request: MeetingRequest): seq<TimeRange> {
    AvailableTimes(MergeOverlapping(OrderedByStartKeepingLongest(RequestedEvents(events, request.attendees))), request)
  }

  /** Two lists of events that take up the same minutes have the same free slots. */
  lemma FreeSlotsFollowCoverage(a: seq<Event>, b: seq<Event>, g: TimeRange)
    requires forall t :: Covers(a, t) <==> Covers(b, t)
    ensures FreeSlot(a, g) <==> FreeSlot(b, g)
  {
  }

  /**
   * For events inside the day, the corrected query returns exactly the
   * maximal free slots of the requested attendees that the meeting fits
   * in, an exact fit included, in chronological order.
   */
  lemma CorrectedQueryExact(events: seq<Event>, request: MeetingRequest)
    requires AllWithinDay(events)
    ensures Ascending(CorrectedQueryResult(events, request))
    ensures forall g :: g in CorrectedQueryResult(events, request) <==>
      FreeSlot(RequestedEvents(events, request.attendees), g) && g.Duration() >= request.duration
  {
    var filtered := RequestedEvents(events, request.attendees);
    assert AllWithinDay(filtered);
    var ordered := OrderedByStartKeepingLongest(filtered);
    forall t ensures Covers(ordered, t) <==> Covers(filtered, t) {
      OrderedByStartKeepingLongestCovers(filtered, t);
    }
    assert StartsAscending(ordered) && AllWithinDay(ordered);
    var merged := MergeOverlapping(ordered);
    MergeOverlappingSortedDisjoint(ordered);
    forall t ensures Covers(merged, t) <==> Covers(filtered, t) {
      MergeOverlappingCovers(ordered, t);
    }
    assert request.attendees == [] ==> merged == [];
    AvailableTimesExact(merged, request);
    forall g ensures FreeSlot(merged, g) <==> FreeSlot(filtered, g) {
      FreeSlotsFollowCoverage(merged, filtered, g);
    }
  }

  /** query with the corrected ordering and merge. */
  method QueryCorrected(events: seq<Event>, request: MeetingRequest) returns (available: seq<TimeRange>)
    ensures available == CorrectedQueryResult(events, request)
    ensures AllWithinDay(events) ==>
      Ascending(available)
      && forall g :: g in available <==>
        FreeSlot(RequestedEvents(events, request.attendees), g) && g.Duration() >= request.duration
  {
    var es := OnlyRequestedEvents(events, request);
    es := OrderEventsByStartTimesKeepingLongest(es);
    es := MergeOverlappingEvents(es);
    available := EveryAttendeeIsConsidered(es, request);
    if AllWithinDay(events) {
      CorrectedQueryExact(events, request);
    }
  }

  /** Two events of one attendee that start together, the shorter one listed last. */
  const SameStartEvents: seq<Event> :=
    [Event("long", TimeRange(0, 60), {"p"}), Event("short", TimeRange(0, 30), {"p"})]

  /** Three events of one attendee: an overlapping pair, then one well after both. */
  const PairThenLaterEvents: seq<Event> :=
    [Event("a", TimeRange(0, 30), {"p"}), Event("b", TimeRange(20, 40), {"p"}),
     Event("c", TimeRange(100, 130), {"p"})]

  /** A half-hour meeting for that attendee. */
  const HalfHourRequest: MeetingRequest := MeetingRequest(["p"], 30)

  /** Of two events with one start, the TreeMap keeps the second and the corrected map the longer. */
  lemma TwoWithOneStart(x: Event, y: Event)
    requires x.when.start == y.when.start && y.when.end < x.when.end
    ensures OrderedByStart([x, y]) == [y]
    ensures OrderedByStartKeepingLongest([x, y]) == [x]
  {
    assert [x, y][..1] == [x] && [x][..0] == [];
    assert TreeMapOf([x]) == [x];
    assert LongestPerStart([x]) == [x];
  }

  /** For one attendee who attends every event, query sees the events themselves. */
  lemma OneAttendeeQuery(es: seq<Event>, p: string, d: int)
    requires es != [] && forall e :: e in es ==> p in e.attendees
    requires d <= 1440
    ensures QueryResult(es, MeetingRequest([p], d)) == AvailableTimes(Merged(OrderedByStart(es)), MeetingRequest([p], d))
    ensures CorrectedQueryResult(es, MeetingRequest([p], d))
         == AvailableTimes(MergeOverlapping(OrderedByStartKeepingLongest(es)), MeetingRequest([p], d))
  {
    OneAttendeeAttendingAll(es, p);
  }

  /**
   * As written, the TreeMap keeps only the shorter event, and query offers
   * a slot from minute 30 although the attendee is busy until minute 60;
   * the corrected query offers the slot from minute 60.
   */
  lemma SameStartDropsLongerEvent()
    ensures QueryResult(SameStartEvents, HalfHourRequest) == [TimeRange(30, 1440)]
    ensures Covers(RequestedEvents(SameStartEvents, HalfHourRequest.attendees), 30)
    ensures CorrectedQueryResult(SameStartEvents, HalfHourRequest) == [TimeRange(60, 1440)]
  {
    var es := SameStartEvents;
    var long, short := es[0], es[1];
    OneAttendeeQuery(es, "p", 30);
    OneAttendeeAttendingAll(es, "p");
    TwoWithOneStart(long, short);
    OneEventFromMidnight(short, "p", 30);
    OneEventFromMidnight(long, "p", 30);
    assert long in es && long.when.Contains(30);
  }

  /** One event from minute 0 passes through either merge, leaving the rest of the day free. */
  lemma OneEventFromMidnight(e: Event, p: string, d: int)
    requires e.when.start == 0 && 0 < e.when.end < 1440 && e.when.end + d <= 1440
    ensures Merged([e]) == [e] && MergeOverlapping([e]) == [e]
    ensures AvailableTimes([e], MeetingRequest([p], d)) == [TimeRange(e.when.end, 1440)]
  {
    assert [e][..0] == [];
    assert MergeRun([e]) == MergeStep(MergeRun([]), e);
  }

  /** One step of the corrected merge, for an event added at the end. */
  lemma MergeOverlappingSnoc(s: seq<Event>, e: Event)
    ensures var merged := MergeOverlapping(s);
      MergeOverlapping(s + [e])
        == if merged != [] && e.when.Overlaps(merged[|merged| - 1].when)
           then merged[..|merged| - 1] + [Combined(merged[|merged| - 1], e)]
           else merged + [e]
  {
    assert (s + [e])[..|s|] == s;
  }

  /** An overlapping pair followed by an event after both: the corrected merge keeps the third apart. */
  lemma PairThenLater(a: Event, b: Event, c: Event)
    requires b.when.Overlaps(a.when) && !c.when.Overlaps(Hull(a.when, b.when))
    ensures MergeOverlapping([a, b, c]) == [Combined(a, b), c]
  {
    MergeOverlappingSnoc([], a);
    assert [] + [a] == [a];
    MergeOverlappingSnoc([a], b);
    assert [a] + [b] == [a, b];
    MergeOverlappingSnoc([a, b], c);
    assert [a, b] + [c] == [a, b, c];
  }

  /** Two blocks, the first from minute 0: the free time between them and after the second. */
  lemma TwoBlocksFromMidnight(x: Event, y: Event, p: string, d: int)
    requires 0 < d && x.when.start == 0 < x.when.end && y.when.start < y.when.end
    requires x.when.end + d <= y.when.start && y.when.end + d <= 1440
    ensures AvailableTimes([x, y], MeetingRequest([p], d))
         == [TimeRange(x.when.end, y.when.start), TimeRange(y.when.end, 1440)]
  {
    var ws := [x, y];
    assert ws[..1] == [x];
    assert GapBefore(ws, d) == [];
    assert GapsBetween(ws, d) == [TimeRange(x.when.end, y.when.start)];
    assert GapAfter(ws, d) == [TimeRange(y.when.end, 1440)];
  }

  /** An overlapping pair from minute 0 and, some time after it, a third event of one attendee. */
  predicate PairThenLaterShape(a: Event, b: Event, c: Event, p: string, d: int) {
    && p in a.attendees && p in b.attendees && p in c.attendees
    && 0 < d && a.when.start == 0 < b.when.start < a.when.end <= b.when.end
    && b.when.end + d <= c.when.start < c.when.end && c.when.end + d <= 1440
  }

  /** The TreeMap and checkForOverlaps as written fuse all three events into one block. */
  lemma PairThenLaterBlock(a: Event, b: Event, c: Event, p: string, d: int)
    requires PairThenLaterShape(a, b, c, p, d)
    ensures AvailableTimes(Merged(OrderedByStart([a, b, c])), MeetingRequest([p], d)) == [TimeRange(c.when.end, 1440)]
  {
    var es := [a, b, c];
    assert OrderedByStart(es) == es by {
      TreeMapOfInOrder(es);
    }
    ThirdEventAbsorbed(a, b, c);
    var block := Combined(Combined(a, b), c);
    assert block.when == TimeRange(0, c.when.end);
    OneEventFromMidnight(block, p, d);
  }

  /** So query as written offers only the time after the third event. */
  lemma PairThenLaterAsWritten(a: Event, b: Event, c: Event, p: string, d: int)
    requires PairThenLaterShape(a, b, c, p, d)
    ensures QueryResult([a, b, c], MeetingRequest([p], d)) == [TimeRange(c.when.end, 1440)]
  {
    OneAttendeeQuery([a, b, c], p, d);
    PairThenLaterBlock(a, b, c, p, d);
  }

  /** The corrected ordering and merge keep the third event apart from the pair. */
  lemma PairThenLaterBlocks(a: Event, b: Event, c: Event, p: string, d: int)
    requires PairThenLaterShape(a, b, c, p, d)
    ensures AvailableTimes(MergeOverlapping(OrderedByStartKeepingLongest([a, b, c])), MeetingRequest([p], d))
         == [TimeRange(b.when.end, c.when.start), TimeRange(c.when.end, 1440)]
  {
    var es := [a, b, c];
    assert OrderedByStartKeepingLongest(es) == es by {
      LongestPerStartInOrder(es);
    }
    assert MergeOverlapping(es) == [Combined(a, b), c] by {
      PairThenLater(a, b, c);
    }
    assert Combined(a, b).when == TimeRange(0, b.when.end);
    TwoBlocksFromMidnight(Combined(a, b), c, p, d);
  }

  /** So the corrected query also offers the time between the pair and the third event. */
  lemma PairThenLaterCorrected(a: Event, b: Event, c: Event, p: string, d: int)
    requires PairThenLaterShape(a, b, c, p, d)
    ensures CorrectedQueryResult([a, b, c], MeetingRequest([p], d))
         == [TimeRange(b.when.end, c.when.start), TimeRange(c.when.end, 1440)]
  {
    OneAttendeeQuery([a, b, c], p, d);
    PairThenLaterBlocks(a, b, c, p, d);
  }

  /**
   * As written, the event from minute 100 is fused into the block of the
   * overlapping pair before it, and query offers nothing before minute 130;
   * the corrected query also offers minutes 40 to 100.
   */
  lemma LaterEventAbsorbed()
    ensures QueryResult(PairThenLaterEvents, HalfHourRequest) == [TimeRange(130, 1440)]
    ensures CorrectedQueryResult(PairThenLaterEvents, HalfHourRequest) == [TimeRange(40, 100), TimeRange(130, 1440)]
  {
    var es := PairThenLaterEvents;
    PairThenLaterAsWritten(es[0], es[1], es[2], "p", 30);
    PairThenLaterCorrected(es[0], es[1], es[2], "p", 30);
  }

  /** For such events, the time between the pair and the third event is a free slot of the attendee. */
  lemma PairThenLaterFreeSlot(a: Event, b: Event, c: Event, p: string, d: int)
    requires PairThenLaterShape(a, b, c, p, d)
    ensures FreeSlot(RequestedEvents([a, b, c], [p]), TimeRange(b.when.end, c.when.start))
  {
    var es, request, g := [a, b, c], MeetingRequest([p], d), TimeRange(b.when.end, c.when.start);
    assert g in CorrectedQueryResult(es, request) by {
      PairThenLaterCorrected(a, b, c, p, d);
    }
    assert AllWithinDay(es);
    CorrectedQueryExact(es, request);
  }

  /** Minutes 40 to 100 are a free slot of the attendee, which query as written does not offer. */
  lemma MissedSlotIsFree()
    ensures FreeSlot(RequestedEvents(PairThenLaterEvents, HalfHourRequest.attendees), TimeRange(40, 100))
    ensures TimeRange(40, 100) !in QueryResult(PairThenLaterEvents, HalfHourRequest)
  {
    var es := PairThenLaterEvents;
    PairThenLaterFreeSlot(es[0], es[1], es[2], "p", 30);
    LaterEventAbsorbed();
  }
}
