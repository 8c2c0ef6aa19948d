/**
 * The value types the meeting finder consumes: calendar events and the
 * meeting request.
 */
module Events {
  import opened TimeRanges

  /** A calendar event: its title, when it takes place and who attends it. */
  datatype Event = Event(title: string, when: TimeRange, attendees: set<string>)

  /**
   * A meeting request: the requested attendees, in the order their
   * collection yields them, and the meeting's length in minutes.
   */
  datatype MeetingRequest = MeetingRequest(attendees: seq<string>, duration: int)

  /** The title combineEvents gives every event it builds. */
  const CustomEventTitle: string := "Custom Event"

  /** Some attendee of e is among `attendees`. */
  predicate Involves(e: Event, attendees: seq<string>) {
    exists p :: p in attendees && p in e.attendees
  }

  /** Some event of es takes up minute t. */
  predicate Covers(es: seq<Event>, t: int) {
    exists e :: e in es && e.when.Contains(t)
  }

  /** Every event of es lies inside the day and is not empty. */
  predicate AllWithinDay(es: seq<Event>) {
    forall e :: e in es ==> WithinDay(e.when)
  }

  /** Appending to a list built in two parts appends to its second part. */
  lemma AppendAssociative<T>(a: seq<T>, b: seq<T>, c: seq<T>)
    ensures (a + b) + c == a + (b + c)
  {
  }
}
