/**
 * orderEventsbyStartTimes: the events are put into a TreeMap keyed on
 * their start minute and read back in key order. A later event with the
 * same start replaces the earlier one, so one event per start survives.
 */
module Sort {
  import opened Events

  /** Starts strictly ascend: the shape of a TreeMap's values keyed on start. */
  predicate StartsAscending(es: seq<Event>) {
    forall i, j :: 0 <= i < j < |es| ==> es[i].when.start < es[j].when.start
  }

  /** The start minutes of the events of es. */
  function StartsOf(es: seq<Event>): set<int> {
    set e | e in es :: e.when.start
  }

  /** x occurs in es and no later event of es starts when x does. */
  predicate IsLastWithItsStart(es: seq<Event>, x: Event) {
    exists j :: 0 <= j < |es| && es[j] == x
      && forall k :: j < k < |es| ==> es[k].when.start != x.when.start
  }

  /**
   * TreeMap.put keyed on start, with the map held as its entries in key
   * order: e is inserted in place, replacing the entry with its start.
   */
  function Put(tm: seq<Event>, e: Event): (r: seq<Event>)
    requires StartsAscending(tm)
    ensures StartsAscending(r)
    ensures e in r
    ensures forall x :: x in r ==> x == e || (x in tm && x.when.start != e.when.start)
    ensures forall x :: x in tm && x.when.start != e.when.start ==> x in r
  {
    if tm == [] then [e]
    else if e.when.start < tm[0].when.start then [e] + tm
    else if e.when.start == tm[0].when.start then
      assert forall x :: x in tm[1..] ==> x.when.start != e.when.start;
      [e] + tm[1..]
    else
      var rest := Put(tm[1..], e);
      assert forall x :: x in rest ==> x.when.start > tm[0].when.start;
      [tm[0]] + rest
  }

  /** The TreeMap after putting every event of `events` in order. */
  function TreeMapOf(events: seq<Event>): (tm: seq<Event>)
    ensures StartsAscending(tm)
  {
    if events == [] then []
    else Put(TreeMapOf(events[..|events| - 1]), events[|events| - 1])
  }

  /** What orderEventsbyStartTimes returns. */
  function OrderedByStart(events: seq<Event>): seq<Event> {
    if |events| == 1 then events else TreeMapOf(events)
  }

  /** Putting an event that starts after every entry adds it at the end. */
  lemma {:induction false} PutAfterAll(tm: seq<Event>, e: Event)
    requires StartsAscending(tm)
    requires forall x :: x in tm ==> x.when.start < e.when.start
    ensures Put(tm, e) == tm + [e]
  {
    if tm != [] {
      PutAfterAll(tm[1..], e);
      assert tm == [tm[0]] + tm[1..];
    }
  }

  /** Events already in order of strictly increasing start come back as they are. */
  lemma {:induction false} TreeMapOfInOrder(events: seq<Event>)
    requires StartsAscending(events)
    ensures TreeMapOf(events) == events
  {
    if events != [] {
      var n := |events|;
      var init := events[..n - 1];
      assert events == init + [events[n - 1]];
      TreeMapOfInOrder(init);
      PutAfterAll(init, events[n - 1]);
    }
  }

  /** The TreeMap has an entry for every start minute of the input, and no other. */
  lemma {:induction false} TreeMapOfKeepsEveryStart(events: seq<Event>)
    ensures StartsOf(TreeMapOf(events)) == StartsOf(events)
  {
    if events != [] {
      var n := |events|;
      var init, e := events[..n - 1], events[n - 1];
      assert events == init + [e];
      TreeMapOfKeepsEveryStart(init);
      var tm, r := TreeMapOf(init), TreeMapOf(events);
      assert r == Put(tm, e);
      forall s | s in StartsOf(events) ensures s in StartsOf(r) {
        var y :| y in events && y.when.start == s;
        if y.when.start != e.when.start {
          assert y in init;
          assert s in StartsOf(tm);
          var z :| z in tm && z.when.start == s;
          assert z in r;
        }
      }
      forall s | s in StartsOf(r) ensures s in StartsOf(events) {
        var y :| y in r && y.when.start == s;
        if y != e {
          assert y.when.start in StartsOf(tm);
        }
      }
    }
  }

  /** Each entry of the TreeMap is the last input event with its start. */
  lemma {:induction false} TreeMapOfKeepsLastPerStart(events: seq<Event>)
    ensures forall x :: x in TreeMapOf(events) ==> IsLastWithItsStart(events, x)
  {
    if events != [] {
      var n := |events|;
      var init, e := events[..n - 1], events[n - 1];
      TreeMapOfKeepsLastPerStart(init);
      var tm := TreeMapOf(init);
      assert TreeMapOf(events) == Put(tm, e);
      assert events == init + [e];
      forall x | x in Put(tm, e) ensures IsLastWithItsStart(events, x) {
        if x == e {
          LastAt(events, n - 1);
        } else {
          assert x in tm && x.when.start != e.when.start;
          StillLastAfterAppend(init, e, x);
        }
      }
    }
  }

  /** An event that was last with its start stays so when an event with another start follows. */
  lemma StillLastAfterAppend(es: seq<Event>, e: Event, x: Event)
    requires IsLastWithItsStart(es, x) && x.when.start != e.when.start
    ensures IsLastWithItsStart(es + [e], x)
  {
    var j := LastIndex(es, x);
    var es' := es + [e];
    forall k | j < k < |es'| ensures es'[k].when.start != es'[j].when.start {
      if k < |es| {
        assert es'[k] == es[k];
      }
    }
    LastAt(es', j);
  }

  /** The index that witnesses IsLastWithItsStart. */
  lemma LastIndex(es: seq<Event>, x: Event) returns (j: nat)
    requires IsLastWithItsStart(es, x)
    ensures j < |es| && es[j] == x
    ensures forall k :: j < k < |es| ==> es[k].when.start != x.when.start
  {
    j :| 0 <= j < |es| && es[j] == x
      && forall k :: j < k < |es| ==> es[k].when.start != x.when.start;
  }

  lemma LastAt(es: seq<Event>, j: nat)
    requires j < |es|
    requires forall k :: j < k < |es| ==> es[k].when.start != es[j].when.start
    ensures IsLastWithItsStart(es, es[j])
  {
  }

  /** orderEventsbyStartTimes (lines 59-69). */
  method OrderEventsByStartTimes(events: seq<Event>) returns (ordered: seq<Event>)
    ensures ordered == OrderedByStart(events)
    ensures |events| == 1 ==> ordered == events
    ensures StartsAscending(ordered)
    ensures StartsOf(ordered) == StartsOf(events)
    ensures forall x :: x in ordered ==> IsLastWithItsStart(events, x)
  {
    if |events| == 1 {
      assert IsLastWithItsStart(events, events[0]);
      return events;
    }
    var tm := [];
    for i := 0 to |events|
      invariant tm == TreeMapOf(events[..i])
    {
      tm := Put(tm, events[i]);
      assert events[..i + 1][..i] == events[..i];
    }
    assert events[..|events|] == events;
    TreeMapOfKeepsEveryStart(events);
    TreeMapOfKeepsLastPerStart(events);
    ordered := tm;
  }
}
