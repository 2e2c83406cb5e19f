/**
  Half-open time-of-day intervals [start, end) as the store compares them.
  Nothing in the store checks start < end, so both predicates are defined
  for inverted and empty intervals too; the lemmas that need a proper
  interval say so.
*/
module Intervals {

  /** Instant `x` lies in the half-open interval [start, end). */
  predicate InSpan(x: int, start: int, end: int) {
    start <= x < end
  }

  /** An existing [aStart, aEnd) blocks a request [bStart, bEnd). */
  predicate Overlaps(aStart: int, aEnd: int, bStart: int, bEnd: int) {
    aStart < bEnd && aEnd > bStart
  }

  /** The request [start, end) is admitted by the window [open, close). */
  predicate Within(open: int, close: int, start: int, end: int) {
    !(start < open || end > close)
  }

  lemma OverlapsSymmetric(aStart: int, aEnd: int, bStart: int, bEnd: int)
    ensures Overlaps(aStart, aEnd, bStart, bEnd) <==> Overlaps(bStart, bEnd, aStart, aEnd)
  {
  }

  /** Back-to-back intervals do not overlap, whichever comes first. */
  lemma TouchingDoesNotOverlap(aStart: int, aEnd: int, bStart: int, bEnd: int)
    requires aEnd == bStart || bEnd == aStart
    ensures !Overlaps(aStart, aEnd, bStart, bEnd)
  {
  }

  /** For proper intervals, overlapping means sharing at least one instant. */
  lemma OverlapsIffSharedInstant(aStart: int, aEnd: int, bStart: int, bEnd: int)
    requires aStart < aEnd && bStart < bEnd
    ensures Overlaps(aStart, aEnd, bStart, bEnd) <==>
            exists x :: InSpan(x, aStart, aEnd) && InSpan(x, bStart, bEnd)
  {
    if Overlaps(aStart, aEnd, bStart, bEnd) {
      var x := if aStart < bStart then bStart else aStart;
      assert InSpan(x, aStart, aEnd) && InSpan(x, bStart, bEnd);
    }
  }

  /**
    An inverted interval can block a request although the two share no
    instant: [5, 3) against [0, 10).
  */
  lemma InvertedIntervalBlocks()
    ensures Overlaps(5, 3, 0, 10)
    ensures !exists x :: InSpan(x, 5, 3) && InSpan(x, 0, 10)
  {
  }

  /** The window test accepts exactly the requests that start no earlier and end no later. */
  lemma WithinBounds(open: int, close: int, start: int, end: int)
    ensures Within(open, close, start, end) <==> open <= start && end <= close
    ensures Within(open, close, open, close)
  {
  }

  /** For a proper request, being within the window means every instant of it is in the window. */
  lemma WithinIffCovered(open: int, close: int, start: int, end: int)
    requires start < end
    ensures Within(open, close, start, end) <==>
            forall x :: InSpan(x, start, end) ==> InSpan(x, open, close)
  {
    if forall x :: InSpan(x, start, end) ==> InSpan(x, open, close) {
      assert InSpan(start, start, end) && InSpan(end - 1, start, end);
    }
  }
}
