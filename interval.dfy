/**
 * The overlap test the day view applies between a candidate placement and
 * every other block or calendar event of the date.
 */
module Interval {
  import opened TimeOfDay

  /** A calendar event of the selected date, already resolved to minutes of that day. */
  datatype CalendarEvent = CalendarEvent(start: Minute, end: Minute)

  /**
   * The source's three-clause test: the new start lies in [otherStart, otherEnd),
   * or the new end lies in (otherStart, otherEnd], or the new interval covers
   * the other one.
   */
  predicate Overlaps(newStart: Minute, newEnd: Minute, otherStart: Minute, otherEnd: Minute)
  {
    || (newStart >= otherStart && newStart < otherEnd)
    || (newEnd > otherStart && newEnd <= otherEnd)
    || (newStart <= otherStart && newEnd >= otherEnd)
  }

  /** For proper intervals the test is exactly "they share a minute". */
  lemma OverlapsIff(newStart: Minute, newEnd: Minute, otherStart: Minute, otherEnd: Minute)
    requires newStart < newEnd && otherStart < otherEnd
    ensures Overlaps(newStart, newEnd, otherStart, otherEnd)
        <==> newStart < otherEnd && otherStart < newEnd
  {
  }

  /** Minute t lies in the half-open interval [start, end). */
  predicate Covers(start: Minute, end: Minute, t: Minute) { start <= t < end }

  /** Shared minutes, as the half-open intervals [start, end) mean them. */
  lemma OverlapsIffSharedMinute(newStart: Minute, newEnd: Minute, otherStart: Minute, otherEnd: Minute)
    requires newStart < newEnd && otherStart < otherEnd
    ensures Overlaps(newStart, newEnd, otherStart, otherEnd)
        <==> exists t :: Covers(newStart, newEnd, t) && Covers(otherStart, otherEnd, t)
  {
    if Overlaps(newStart, newEnd, otherStart, otherEnd) {
      var t := if newStart < otherStart then otherStart else newStart;
      assert Covers(newStart, newEnd, t) && Covers(otherStart, otherEnd, t);
    }
  }

  lemma OverlapsSymmetric(aStart: Minute, aEnd: Minute, bStart: Minute, bEnd: Minute)
    requires aStart < aEnd && bStart < bEnd
    ensures Overlaps(aStart, aEnd, bStart, bEnd) == Overlaps(bStart, bEnd, aStart, aEnd)
  {
  }

  /** Back-to-back intervals do not conflict, in either order. */
  lemma BackToBackDoNotOverlap(aStart: Minute, aEnd: Minute, bEnd: Minute)
    requires aStart < aEnd < bEnd
    ensures !Overlaps(aStart, aEnd, aEnd, bEnd) && !Overlaps(aEnd, bEnd, aStart, aEnd)
  {
  }
}
