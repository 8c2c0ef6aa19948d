/**
 * onlyRequestedEvents: for each requested attendee in turn, every event
 * that attendee attends, in input order. An event attended by several
 * requested people is collected once per such person.
 */
module Filter {
  import opened Events

  /** The events of `events`, in their order, that p attends. */
  function AttendedBy(events: seq<Event>, p: string): (r: seq<Event>)
    ensures forall e :: e in r <==> e in events && p in e.attendees
  {
    if events == [] then []
    else
      var last := events[|events| - 1];
      assert events == events[..|events| - 1] + [last];
      AttendedBy(events[..|events| - 1], p) + (if p in last.attendees then [last] else [])
  }

  /** The list onlyRequestedEvents builds: the events of each attendee in turn. */
  function RequestedEvents(events: seq<Event>, attendees: seq<string>): (r: seq<Event>)
    ensures forall e :: e in r <==> e in events && Involves(e, attendees)
  {
    if attendees == [] then []
    else
      var p := attendees[|attendees| - 1];
      assert attendees == attendees[..|attendees| - 1] + [p];
      RequestedEvents(events, attendees[..|attendees| - 1]) + AttendedBy(events, p)
  }

  /** When p attends every event, p's list is the input itself, order and repeats included. */
  lemma {:induction false} AttendedByAll(events: seq<Event>, p: string)
    requires forall e :: e in events ==> p in e.attendees
    ensures AttendedBy(events, p) == events
  {
    if events != [] {
      var init, last := events[..|events| - 1], events[|events| - 1];
      assert events == init + [last];
      AttendedByAll(init, p);
    }
  }

  /** Filtering for a single attendee who attends every event keeps the input as it is. */
  lemma OneAttendeeAttendingAll(events: seq<Event>, p: string)
    requires forall e :: e in events ==> p in e.attendees
    ensures RequestedEvents(events, [p]) == events
  {
    assert [p][..0] == [];
    assert RequestedEvents(events, [p]) == RequestedEvents(events, []) + AttendedBy(events, p);
    AttendedByAll(events, p);
  }

  /** How many entries of `attendees` (with repetition) attend e. */
  function MatchCount(attendees: seq<string>, e: Event): nat {
    if attendees == [] then 0
    else
      MatchCount(attendees[..|attendees| - 1], e)
      + (if attendees[|attendees| - 1] in e.attendees then 1 else 0)
  }

  /** p's list holds each event p attends as often as the input does. */
  lemma {:induction false} AttendedByMultiplicity(events: seq<Event>, p: string, e: Event)
    ensures multiset(AttendedBy(events, p))[e]
            == if p in e.attendees then multiset(events)[e] else 0
  {
    if events != [] {
      var init, last := events[..|events| - 1], events[|events| - 1];
      assert events == init + [last];
      AttendedByMultiplicity(init, p, e);
    }
  }

  /**
   * The filtered list holds each input event once per requested attendee
   * who attends it: an event shared by two requested people appears twice.
   */
  lemma {:induction false} RequestedEventsMultiplicity(events: seq<Event>, attendees: seq<string>, e: Event)
    ensures multiset(RequestedEvents(events, attendees))[e]
            == multiset(events)[e] * MatchCount(attendees, e)
  {
    if attendees != [] {
      var init, p := attendees[..|attendees| - 1], attendees[|attendees| - 1];
      RequestedEventsMultiplicity(events, init, e);
      AttendedByMultiplicity(events, p, e);
      var r, q := RequestedEvents(events, init), AttendedBy(events, p);
      assert RequestedEvents(events, attendees) == r + q;
      assert multiset(r + q)[e] == multiset(r)[e] + multiset(q)[e];
      OneMoreMatch(multiset(r + q)[e], multiset(r)[e], multiset(q)[e], multiset(events)[e],
        MatchCount(init, e), MatchCount(attendees, e), p in e.attendees);
    }
  }

  /** The arithmetic of one more attendee: a matching one adds one more copy of the event. */
  lemma OneMoreMatch(total: int, before: int, added: int, m: int, c: int, count: int, attends: bool)
    requires total == before + added && before == m * c
    requires added == (if attends then m else 0) && count == c + (if attends then 1 else 0)
    ensures total == m * count
  {
  }

  /** Minute t is taken by an event that involves a requested attendee. */
  predicate Busy(events: seq<Event>, attendees: seq<string>, t: int) {
    exists e :: e in events && Involves(e, attendees) && e.when.Contains(t)
  }

  /** The filtered events take up exactly the minutes in which a requested attendee is busy. */
  lemma RequestedEventsCoverBusy(events: seq<Event>, attendees: seq<string>, t: int)
    ensures Covers(RequestedEvents(events, attendees), t) <==> Busy(events, attendees, t)
  {
  }

  /** onlyRequestedEvents (lines 43-54). */
  method OnlyRequestedEvents(events: seq<Event>, request: MeetingRequest) returns (eventsOfRequested: seq<Event>)
    ensures eventsOfRequested == RequestedEvents(events, request.attendees)
    ensures forall e :: e in eventsOfRequested ==> e in events && Involves(e, request.attendees)
    ensures forall e :: e in events && Involves(e, request.attendees) ==> e in eventsOfRequested
  {
    eventsOfRequested := [];
    var people := request.attendees;
    for i := 0 to |people|
      invariant eventsOfRequested == RequestedEvents(events, people[..i])
    {
      var p := people[i];
      for j := 0 to |events|
        invariant eventsOfRequested == RequestedEvents(events, people[..i]) + AttendedBy(events[..j], p)
      {
        if p in events[j].attendees {
          eventsOfRequested := eventsOfRequested + [events[j]];
        }
        assert events[..j + 1][..j] == events[..j];
        AppendAssociative(RequestedEvents(events, people[..i]), AttendedBy(events[..j], p),
          if p in events[j].attendees then [events[j]] else []);
      }
      assert events[..|events|] == events;
      assert people[..i + 1][..i] == people[..i];
    }
    assert people[..|people|] == people;
  }
}
