/**
 * Minutes of one day and the half-open ranges over them, as the meeting
 * finder uses them: a range [start, end) of whole minutes, the day's
 * boundary constants, the fromStartEnd constructor and the two orderings
 * that combineEvents consults.
 */
module TimeRanges {

  /** The half-open range of minutes [start, end). */
  datatype TimeRange = TimeRange(start: int, end: int) {

    function Duration(): int {
      end - start
    }

    predicate Contains(t: int) {
      start <= t < end
    }

    /** Half-open intersection: the two ranges share at least one minute. */
    predicate Overlaps(other: TimeRange) {
      start < other.end && other.start < end
    }
  }

  /** The first minute of the day. */
  const StartOfDay: int := 0
  /** The last minute of the day. */
  const EndOfDay: int := 1439
  /** Every minute of the day, [0, 1440). */
  const WholeDay: TimeRange := TimeRange(StartOfDay, EndOfDay + 1)

  /** A non-empty range that lies inside the day. */
  predicate WithinDay(r: TimeRange) {
    StartOfDay <= r.start < r.end <= WholeDay.end
  }

  /**
   * fromStartEnd: the range from `start` up to `end`, which is itself
   * included when `inclusive` holds.
   */
  function FromStartEnd(start: int, end: int, inclusive: bool): (r: TimeRange)
    ensures r.start == start
    ensures r.Duration() == end - start + (if inclusive then 1 else 0)
    ensures forall t :: start <= t < end ==> r.Contains(t)
    ensures forall t :: r.Contains(t) ==> start <= t <= end
    ensures start <= end ==> (r.Contains(end) <==> inclusive)
  {
    if inclusive then TimeRange(start, end + 1) else TimeRange(start, end)
  }

  /** For non-empty ranges, Overlaps is exactly "some minute lies in both". */
  lemma OverlapsIffSharedMinute(a: TimeRange, b: TimeRange)
    requires a.start < a.end && b.start < b.end
    ensures a.Overlaps(b) <==> exists t :: a.Contains(t) && b.Contains(t)
  {
    if a.Overlaps(b) {
      var t := if a.start <= b.start then b.start else a.start;
      assert a.Contains(t) && b.Contains(t);
    }
  }

  /** ORDER_BY_START: -1, 0 or 1 as a starts before, with or after b. */
  function CompareByStart(a: TimeRange, b: TimeRange): int {
    if a.start < b.start then -1 else if a.start == b.start then 0 else 1
  }

  /** ORDER_BY_END reversed: -1, 0 or 1 as a ends after, with or before b. */
  function CompareByEndReversed(a: TimeRange, b: TimeRange): int {
    if b.end < a.end then -1 else if b.end == a.end then 0 else 1
  }

  /** The smallest range that holds both a and b. */
  function Hull(a: TimeRange, b: TimeRange): TimeRange {
    TimeRange(if a.start <= b.start then a.start else b.start,
              if a.end >= b.end then a.end else b.end)
  }

  /** The hull of two overlapping ranges holds exactly their minutes. */
  lemma HullOfOverlappingIsUnion(a: TimeRange, b: TimeRange)
    requires a.Overlaps(b)
    ensures forall t :: Hull(a, b).Contains(t) <==> a.Contains(t) || b.Contains(t)
  {
  }
}
