/**
 * checkForOverlaps and combineEvents: a single pass over the events that
 * fuses an event into the previous one when their ranges overlap, and,
 * once e0 is an event the pass built, also fuses the next event into it
 * whenever the event before overlapped e0, whether or not the next
 * event overlaps anything (ThirdEventAbsorbed shows such a case).
 *
 * The pass keeps the trackers e0, e1 and i of the source. Its
 * `customEvent` is only ever compared with e0 by reference, and every
 * event combineEvents builds is a fresh object that no input event can
 * be; so the test `e0 == customEvent && customEvent != null` is kept as
 * the flag `e0IsCustom`: e0 is the event most recently built.
 */
module Merge {
  import opened TimeRanges
  import opened Events
  import opened Options

  /**
   * ArrayList.remove(Object): drop the first element equal to x, if any.
   */
  function RemoveFirst(s: seq<Event>, x: Event): (r: seq<Event>)
    ensures x in s ==> |r| == |s| - 1 && multiset(r) == multiset(s) - multiset{x}
    ensures x !in s ==> r == s
  {
    if s == [] then []
    else if s[0] == x then
      assert s == [s[0]] + s[1..];
      s[1..]
    else
      assert s == [s[0]] + s[1..];
      [s[0]] + RemoveFirst(s[1..], x)
  }

  /** The position of the first element of s equal to x. */
  function FirstIndexOf(s: seq<Event>, x: Event): (i: nat)
    requires x in s
    ensures i < |s| && s[i] == x && x !in s[..i]
  {
    if s[0] == x then 0
    else
      assert s == [s[0]] + s[1..];
      var j := FirstIndexOf(s[1..], x);
      assert s[..j + 1] == [s[0]] + s[1..][..j];
      j + 1
  }

  /** Removing x at its first position i keeps what lies before and after i. */
  lemma {:induction false} RemoveFirstSplit(s: seq<Event>, x: Event, i: nat)
    requires i < |s| && s[i] == x && x !in s[..i]
    ensures RemoveFirst(s, x) == s[..i] + s[i + 1..]
  {
    if i == 0 {
      assert s[..0] == [];
    } else {
      var t := s[1..];
      assert s[..i] == [s[0]] + t[..i - 1];
      assert s[0] != x;
      RemoveFirstSplit(t, x, i - 1);
      assert RemoveFirst(s, x) == [s[0]] + RemoveFirst(t, x);
      AppendAssociative([s[0]], t[..i - 1], t[i..]);
      assert t[i..] == s[i + 1..];
    }
  }

  /**
   * RemoveFirst takes out exactly the first occurrence of x: the elements
   * before it and after it are kept, in their order.
   */
  lemma RemoveFirstAt(s: seq<Event>, x: Event)
    ensures x in s ==> exists i :: 0 <= i < |s| && s[i] == x && x !in s[..i] && RemoveFirst(s, x) == s[..i] + s[i + 1..]
  {
    if x in s {
      var i := FirstIndexOf(s, x);
      RemoveFirstSplit(s, x, i);
    }
  }

  /** The event combineEvents builds from e0 and e1. */
  function Combined(e0: Event, e1: Event): Event {
    Event(CustomEventTitle, Hull(e0.when, e1.when), e0.attendees)
  }

  /**
   * combineEvents (lines 114-159): the combined event runs from the
   * smaller start to the larger end, keeps e0's attendees, and is
   * appended to the list.
   */
  method CombineEvents(orderedEvents: seq<Event>, e0: Event, e1: Event) returns (newEvent: Event, ordered: seq<Event>)
    ensures newEvent == Combined(e0, e1)
    ensures newEvent.title == CustomEventTitle && newEvent.attendees == e0.attendees
    ensures newEvent.when.start <= e0.when.start && newEvent.when.start <= e1.when.start
    ensures newEvent.when.start == e0.when.start || newEvent.when.start == e1.when.start
    ensures newEvent.when.end >= e0.when.end && newEvent.when.end >= e1.when.end
    ensures newEvent.when.end == e0.when.end || newEvent.when.end == e1.when.end
    ensures ordered == orderedEvents + [newEvent]
  {
    var smallerStart, biggerEnd := 0, 0;
    var compResult := CompareByStart(e0.when, e1.when);
    if compResult == 1 {
      smallerStart := e1.when.start;
    } else if compResult == -1 {
      smallerStart := e0.when.start;
    } else {
      smallerStart := e0.when.start;
    }
    compResult := CompareByEndReversed(e0.when, e1.when);
    if compResult == 1 {
      biggerEnd := e1.when.end;
    } else if compResult == -1 {
      biggerEnd := e0.when.end;
    } else {
      biggerEnd := e0.when.end;
    }
    var combinedTimes := FromStartEnd(smallerStart, biggerEnd, false);
    newEvent := Event(CustomEventTitle, combinedTimes, e0.attendees);
    ordered := orderedEvents + [newEvent];
  }

  /** The combined event takes up every minute of both events. */
  lemma CombinedCoversBoth(e0: Event, e1: Event, t: int)
    requires e0.when.Contains(t) || e1.when.Contains(t)
    ensures Combined(e0, e1).when.Contains(t)
  {
  }

  /** The trackers of checkForOverlaps after a prefix of its input. */
  datatype MergeState = MergeState(
    orderedEvents: seq<Event>,
    e0: Option<Event>,
    e1: Option<Event>,
    e0IsCustom: bool,
    i: nat)

  /** After the first event e1 is set; e0 is set whenever it is the built event. */
  predicate Consistent(st: MergeState) {
    (st.i > 0 ==> st.e1.Some?) && (st.e0IsCustom ==> st.e0.Some?)
  }

  /** One iteration of the loop of checkForOverlaps, on event e. */
  function MergeStep(st: MergeState, e: Event): (r: MergeState)
    requires Consistent(st)
    ensures Consistent(r) && r.i == st.i + 1
  {
    if st.i == 0 then
      st.(orderedEvents := st.orderedEvents + [e], e1 := Some(e), i := 1)
    else if st.e0IsCustom && st.e1.value.when.Overlaps(st.e0.value.when) then
      // the event just built becomes customEvent, so e0 no longer refers to it
      var custom := Combined(st.e0.value, e);
      MergeState(RemoveFirst(st.orderedEvents, st.e0.value) + [custom], st.e0, Some(e), false, st.i + 1)
    else
      var e0 := if !st.e0IsCustom then st.e1.value else st.e0.value;
      if e.when.Overlaps(e0.when) then
        var custom := Combined(e0, e);
        MergeState(RemoveFirst(st.orderedEvents, e0) + [custom], Some(custom), Some(e), true, st.i + 1)
      else
        MergeState(st.orderedEvents + [e], Some(e0), Some(e), st.e0IsCustom, st.i + 1)
  }

  /** The trackers after the loop has seen every event of `events`. */
  function MergeRun(events: seq<Event>): (st: MergeState)
    ensures Consistent(st) && st.i == |events|
  {
    if events == [] then MergeState([], None, None, false, 0)
    else MergeStep(MergeRun(events[..|events| - 1]), events[|events| - 1])
  }

  /** What checkForOverlaps returns. */
  function Merged(events: seq<Event>): seq<Event> {
    MergeRun(events).orderedEvents
  }

  /** Removing x loses no minute that x itself does not take up. */
  lemma RemoveFirstKeepsOthers(s: seq<Event>, x: Event, t: int)
    requires Covers(s, t) && !x.when.Contains(t)
    ensures Covers(RemoveFirst(s, x), t)
  {
    var y :| y in s && y.when.Contains(t);
    assert y != x;
    if x in s {
      assert multiset(RemoveFirst(s, x))[y] == multiset(s)[y];
    }
  }

  /** One step of the loop keeps every minute already covered and covers e. */
  lemma StepCovers(st: MergeState, e: Event, t: int)
    requires Consistent(st)
    requires Covers(st.orderedEvents, t) || e.when.Contains(t)
    ensures Covers(MergeStep(st, e).orderedEvents, t)
  {
    var r := MergeStep(st, e);
    if st.i == 0 {
      assert e in r.orderedEvents;
    } else if st.e0IsCustom && st.e1.value.when.Overlaps(st.e0.value.when) {
      var x := st.e0.value;
      var custom := Combined(x, e);
      assert r.orderedEvents == RemoveFirst(st.orderedEvents, x) + [custom];
      if x.when.Contains(t) || e.when.Contains(t) {
        CombinedCoversBoth(x, e, t);
        assert custom in r.orderedEvents;
      } else {
        RemoveFirstKeepsOthers(st.orderedEvents, x, t);
      }
    } else {
      var x := if !st.e0IsCustom then st.e1.value else st.e0.value;
      if e.when.Overlaps(x.when) {
        var custom := Combined(x, e);
        assert r.orderedEvents == RemoveFirst(st.orderedEvents, x) + [custom];
        if x.when.Contains(t) || e.when.Contains(t) {
          CombinedCoversBoth(x, e, t);
          assert custom in r.orderedEvents;
        } else {
          RemoveFirstKeepsOthers(st.orderedEvents, x, t);
        }
      } else {
        assert r.orderedEvents == st.orderedEvents + [e];
      }
    }
  }

  /** checkForOverlaps never frees a busy minute: its output covers its input. */
  lemma {:induction false} MergedCoversInput(events: seq<Event>, t: int)
    requires Covers(events, t)
    ensures Covers(Merged(events), t)
  {
    var n := |events|;
    var init, e := events[..n - 1], events[n - 1];
    assert events == init + [e];
    if Covers(init, t) {
      MergedCoversInput(init, t);
    }
    StepCovers(MergeRun(init), e, t);
  }

  /** No two consecutive events overlap. */
  predicate NoConsecutiveOverlap(events: seq<Event>) {
    forall k :: 0 < k < |events| ==> !events[k].when.Overlaps(events[k - 1].when)
  }

  /** The trackers over an input with no consecutive overlap. */
  lemma {:induction false} RunWithoutOverlap(events: seq<Event>)
    requires NoConsecutiveOverlap(events)
    ensures MergeRun(events) == MergeState(
      events,
      if |events| >= 2 then Some(events[|events| - 2]) else None,
      if |events| >= 1 then Some(events[|events| - 1]) else None,
      false,
      |events|)
  {
    if events != [] {
      var n := |events|;
      var init := events[..n - 1];
      assert events == init + [events[n - 1]];
      assert NoConsecutiveOverlap(init) by {
        forall k | 0 < k < |init| ensures !init[k].when.Overlaps(init[k - 1].when) {
          assert init[k] == events[k] && init[k - 1] == events[k - 1];
        }
      }
      RunWithoutOverlap(init);
      if n >= 2 {
        assert init[n - 2] == events[n - 2];
      }
    }
  }

  /** If no two consecutive events overlap, checkForOverlaps returns its input unchanged. */
  lemma NoOverlapUnchanged(events: seq<Event>)
    requires NoConsecutiveOverlap(events)
    ensures Merged(events) == events
  {
    RunWithoutOverlap(events);
  }

  /** Two overlapping events come back as the one event combining them. */
  lemma TwoOverlappingCombined(a: Event, b: Event)
    requires b.when.Overlaps(a.when)
    ensures Merged([a, b]) == [Combined(a, b)]
  {
    RunOfTwoOverlapping(a, b);
  }

  lemma RunOfTwoOverlapping(a: Event, b: Event)
    requires b.when.Overlaps(a.when)
    ensures MergeRun([a, b]) == MergeState([Combined(a, b)], Some(Combined(a, b)), Some(b), true, 2)
  {
    assert [a][..0] == [];
    assert MergeRun([a]) == MergeStep(MergeRun([]), a);
    var first := MergeRun([a]);
    assert first == MergeState([a], None, Some(a), false, 1);
    assert [a, b][..1] == [a];
    assert MergeRun([a, b]) == MergeStep(first, b);
    assert RemoveFirst([a], a) == [];
  }

  /**
   * After two overlapping events, a third is fused into their combination
   * even when it overlaps neither: the test at line 90 asks whether the
   * previous event overlapped e0, not whether the new one does.
   */
  lemma {:induction false} ThirdEventAbsorbed(a: Event, b: Event, c: Event)
    requires b.when.start < b.when.end
    requires b.when.Overlaps(a.when)
    ensures Merged([a, b, c]) == [Combined(Combined(a, b), c)]
  {
    var ab := Combined(a, b);
    assert [a, b, c][..2] == [a, b];
    RunOfTwoOverlapping(a, b);
    assert MergeRun([a, b, c]) == MergeStep(MergeRun([a, b]), c);
    assert b.when.Overlaps(ab.when);
    assert RemoveFirst([ab], ab) == [];
  }

  /** checkForOverlaps (lines 74-112). */
  method CheckForOverlaps(events: seq<Event>) returns (orderedEvents: seq<Event>)
    ensures orderedEvents == Merged(events)
    ensures forall t :: Covers(events, t) ==> Covers(orderedEvents, t)
    ensures NoConsecutiveOverlap(events) ==> orderedEvents == events
  {
    orderedEvents := [];
    var e0: Option<Event> := None;
    var e1: Option<Event> := None;
    var e0IsCustom := false;
    var i := 0;
    for k := 0 to |events|
      invariant MergeState(orderedEvents, e0, e1, e0IsCustom, i) == MergeRun(events[..k])
    {
      var e := events[k];
      if i == 0 {
        e1 := Some(e);
        orderedEvents := orderedEvents + [e];
      } else if e0IsCustom && e1.value.when.Overlaps(e0.value.when) {
        e1 := Some(e);
        orderedEvents := RemoveFirst(orderedEvents, e0.value);
        var customEvent;
        customEvent, orderedEvents := CombineEvents(orderedEvents, e0.value, e1.value);
        e0IsCustom := false;
      } else {
        if !e0IsCustom {
          e0 := e1;
        }
        e1 := Some(e);
        if e1.value.when.Overlaps(e0.value.when) {
          orderedEvents := RemoveFirst(orderedEvents, e0.value);
          var customEvent;
          customEvent, orderedEvents := CombineEvents(orderedEvents, e0.value, e1.value);
          e0 := Some(customEvent);
          e0IsCustom := true;
        } else {
          orderedEvents := orderedEvents + [e];
        }
      }
      i := i + 1;
      assert events[..k + 1] == events[..k] + [e];
    }
    assert events[..|events|] == events;
    forall t | Covers(events, t) ensures Covers(orderedEvents, t) {
      MergedCoversInput(events, t);
    }
    if NoConsecutiveOverlap(events) {
      NoOverlapUnchanged(events);
    }
  }
}
