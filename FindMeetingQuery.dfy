/**
 * query: the four stages in sequence. The requested attendees' events are
 * kept, ordered by start, fused where they overlap, and the free time
 * around them that the meeting fits in is returned.
 */
module FindMeetingQuery {
  import opened TimeRanges
  import opened Events
  import opened Filter
  import opened Sort
  import opened Merge
  import opened Gaps

  /** What query returns. */
  function QueryResult(events: seq<Event>, request: MeetingRequest): seq<TimeRange> {
    AvailableTimes(Merged(OrderedByStart(RequestedEvents(events, request.attendees))), request)
  }

  /** A request longer than the day has no available time, whatever the events. */
  lemma TooLongRequest(events: seq<Event>, request: MeetingRequest)
    requires request.duration > WholeDay.Duration()
    ensures QueryResult(events, request) == []
  {
  }

  /**
   * With nobody requested, or no event of a requested attendee, the whole
   * day is available (for a request no longer than the day).
   */
  lemma UnconstrainedRequest(events: seq<Event>, request: MeetingRequest)
    requires request.duration <= WholeDay.Duration()
    requires request.attendees == [] || RequestedEvents(events, request.attendees) == []
    ensures QueryResult(events, request) == [WholeDay]
  {
    assert RequestedEvents(events, request.attendees) == [];
    assert OrderedByStart([]) == [];
    assert Merged([]) == [];
  }

  /**
   * Otherwise the result is the gaps around the merged busy events: the
   * whole-day shortcut is taken exactly when no requested event survives.
   */
  lemma ConstrainedRequest(events: seq<Event>, request: MeetingRequest)
    requires request.duration <= WholeDay.Duration()
    requires |request.attendees| > 0 && RequestedEvents(events, request.attendees) != []
    ensures |Merged(OrderedByStart(RequestedEvents(events, request.attendees)))| > 0
    ensures QueryResult(events, request)
      == GapsAround(Merged(OrderedByStart(RequestedEvents(events, request.attendees))), request.duration)
  {
    var filtered := RequestedEvents(events, request.attendees);
    var ordered := OrderedByStart(filtered);
    assert ordered != [] by {
      if |filtered| != 1 {
        TreeMapOfKeepsEveryStart(filtered);
        assert filtered[0].when.start in StartsOf(filtered);
      }
    }
    MergedNonEmpty(ordered);
  }

  /** checkForOverlaps returns something for a non-empty input. */
  lemma MergedNonEmpty(events: seq<Event>)
    requires events != []
    ensures Merged(events) != []
  {
    var n := |events|;
    var st := MergeRun(events[..n - 1]);
    assert MergeRun(events) == MergeStep(st, events[n - 1]);
  }

  /** query (lines 26-38). */
  method Query(events: seq<Event>, request: MeetingRequest) returns (available: seq<TimeRange>)
    ensures available == QueryResult(events, request)
    ensures request.duration > WholeDay.Duration() ==> available == []
    ensures request.duration <= WholeDay.Duration() && RequestedEvents(events, request.attendees) == [] ==>
      available == [WholeDay]
  {
    var es := OnlyRequestedEvents(events, request);
    es := OrderEventsByStartTimes(es);
    es := CheckForOverlaps(es);
    available := EveryAttendeeIsConsidered(es, request);
    if request.duration <= WholeDay.Duration() && RequestedEvents(events, request.attendees) == [] {
      UnconstrainedRequest(events, request);
    }
  }
}
