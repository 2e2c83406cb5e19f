/**
  The first-available search over the candidate appointments, already ordered
  by start time: the "is the first one in progress" test, then the scan of
  consecutive pairs for the first one that is not back to back.
*/
module Availability {
  import opened Clock
  import opened Intervals
  import opened Records
  import opened Tables

  /** The instant an appointment ends, on its own date. */
  function EndOf(a: Appointment): Instant {
    Instant(a.appointmentDate, a.endTime)
  }

  /**
    The test applied to the first candidate, taken literally:
    `start >= t and end <= t`. It holds only when start == end == t (or for an
    inverted appointment), never for an appointment with start < end.
  */
  predicate ProbeHits(a: Appointment, t: TimeOfDay) {
    a.startTime >= t && a.endTime <= t
  }

  /** Consecutive candidates i and i + 1 are back to back. */
  predicate Adjacent(c: seq<Appointment>, i: nat)
    requires i + 1 < |c|
  {
    c[i].endTime == c[i + 1].startTime
  }

  /**
    Index of the first candidate whose end differs from the next one's start,
    or of the last candidate when every pair is back to back.
  */
  function FirstGapIndex(c: seq<Appointment>): (k: nat)
    requires c != []
    ensures k < |c|
    ensures forall j :: 0 <= j < k ==> Adjacent(c, j)
    ensures k < |c| - 1 ==> !Adjacent(c, k)
  {
    if |c| == 1 || !Adjacent(c, 0) then 0
    else
      var k := FirstGapIndex(c[1..]);
      assert forall j :: 0 <= j < k + 1 ==> Adjacent(c, j) by {
        forall j | 1 <= j < k + 1 ensures Adjacent(c, j) {
          assert Adjacent(c[1..], j - 1);
        }
      }
      k + 1
  }

  /**
    First available instant for ordered candidates `c` and a request at `from`:
    the request itself when there is no candidate; the end of the first
    candidate when the literal probe holds; otherwise the end of the first
    candidate followed by a gap (or of the last one), on that candidate's date.
  */
  function FirstAvailableFrom(c: seq<Appointment>, from: Instant): (r: Instant)
    ensures c == [] ==> r == from
    ensures c != [] ==> exists i :: 0 <= i < |c| && r == EndOf(c[i])
  {
    if c == [] then from
    else if ProbeHits(c[0], from.time) then EndOf(c[0])
    else EndOf(c[FirstGapIndex(c)])
  }

  /** The scan over consecutive pairs, with its early return. */
  method FirstAvailableAmong(c: seq<Appointment>, from: Instant) returns (r: Instant)
    ensures r == FirstAvailableFrom(c, from)
  {
    if c == [] {
      return from;
    }
    if ProbeHits(c[0], from.time) {
      return EndOf(c[0]);
    }
    var i := 0;
    while i < |c| - 1
      invariant 0 <= i <= FirstGapIndex(c)
    {
      if !Adjacent(c, i) {
        return EndOf(c[i]);
      }
      i := i + 1;
    }
    r := EndOf(c[|c| - 1]);
  }

  /** With start < end the probe never fires, so the scan decides. */
  lemma ProbeNeverHitsProperAppointment(a: Appointment, t: TimeOfDay)
    requires a.startTime < a.endTime
    ensures !ProbeHits(a, t)
  {
  }

  /** A zero-length appointment starting at the requested time does fire the probe. */
  lemma ProbeHitsEmptyAppointmentAtRequest(a: Appointment, t: TimeOfDay)
    requires a.startTime == a.endTime == t
    ensures ProbeHits(a, t)
  {
  }

  /** When every pair is back to back, the answer is the end of the last candidate. */
  lemma BackToBackYieldsLastEnd(c: seq<Appointment>, from: Instant)
    requires c != [] && !ProbeHits(c[0], from.time)
    requires forall j :: 0 <= j < |c| - 1 ==> Adjacent(c, j)
    ensures FirstAvailableFrom(c, from) == EndOf(c[|c| - 1])
  {
  }

  /** Otherwise the answer is the end of the first candidate followed by a gap. */
  lemma FirstGapYieldsItsEnd(c: seq<Appointment>, from: Instant, i: nat)
    requires c != [] && !ProbeHits(c[0], from.time)
    requires i < |c| - 1 && !Adjacent(c, i)
    requires forall j :: 0 <= j < i ==> Adjacent(c, j)
    ensures FirstAvailableFrom(c, from) == EndOf(c[i])
  {
  }

  /**
    For candidates that start no earlier than the requested time and do not end
    before they start, the answer is never earlier in the day than the request.
  */
  lemma FirstAvailableNotBefore(c: seq<Appointment>, from: Instant)
    requires forall a :: a in c ==> a.startTime >= from.time && a.startTime <= a.endTime
    ensures FirstAvailableFrom(c, from).time >= from.time
  {
    if c != [] {
      var k := FirstGapIndex(c);
      assert c[k] in c;
    }
  }

  /**
    Without that condition the answer can be earlier: a single inverted
    candidate 10:00-09:00 and a request at 09:30 fire the probe and yield 09:00.
  */
  lemma InvertedCandidateAnswersEarlier(d: Date)
    ensures var c := [Appointment(1, "A", d, 36000, 32400)];
            FirstAvailableFrom(c, Instant(d, 34200)) == Instant(d, 32400)
  {
  }

  /** Along a back-to-back chain of proper appointments the end times grow. */
  lemma {:induction false} ChainEndsGrow(c: seq<Appointment>, j: nat, k: nat)
    requires j <= k < |c|
    requires forall i :: 0 <= i < k ==> Adjacent(c, i)
    requires forall a :: a in c ==> a.startTime < a.endTime
    ensures c[j].endTime <= c[k].endTime
    decreases k - j
  {
    if j < k {
      ChainEndsGrow(c, j + 1, k);
      assert Adjacent(c, j);
      assert c[j + 1] in c;
    }
  }

  /**
    On a single day, for candidates of one doctor ordered by start time, proper
    and free of double bookings, the instant returned lies inside none of them.
    The written scan's answer is free too; what sets the intended answer apart
    is the last clause: every candidate that ends before the answer is followed
    back to back by the next one, so no earlier end is skipped.
  */
  lemma FirstAvailableIsFree(c: seq<Appointment>, from: Instant)
    requires c != []
    requires forall a :: a in c ==> a.appointmentDate == c[0].appointmentDate
    requires forall a :: a in c ==> a.doctorId == c[0].doctorId
    requires forall a :: a in c ==> a.startTime < a.endTime
    requires SortedByStart(c)
    requires NoDoubleBooking(c)
    ensures FirstAvailableFrom(c, from).date == c[0].appointmentDate
    ensures forall a :: a in c ==> !InSpan(FirstAvailableFrom(c, from).time, a.startTime, a.endTime)
    ensures forall j :: 0 <= j < |c| - 1 && c[j].endTime < FirstAvailableFrom(c, from).time ==>
              Adjacent(c, j)
  {
    ProbeNeverHitsProperAppointment(c[0], from.time);
    var k := FirstGapIndex(c);
    var r := FirstAvailableFrom(c, from);
    assert r == EndOf(c[k]);
    assert c[k] in c;
    forall a | a in c
      ensures !InSpan(r.time, a.startTime, a.endTime)
    {
      var j :| 0 <= j < |c| && c[j] == a;
      if j <= k {
        ChainEndsGrow(c, j, k);
      } else {
        assert c[k + 1] in c;
        assert !Adjacent(c, k);
        assert !Conflicts(c[k], c[k + 1].doctorId, c[k + 1].appointmentDate,
                          c[k + 1].startTime, c[k + 1].endTime);
        assert c[k + 1].startTime <= c[j].startTime;
      }
    }
  }

  // ---------------------------------------------------------------------
  // The scan as written

  /**
    The same search as the code writes it: when a gap follows candidate i it
    returns candidate i's date with the LAST candidate's end time.
  */
  function FirstAvailableAsWritten(c: seq<Appointment>, from: Instant): (r: Instant)
    ensures c == [] ==> r == from
    ensures c != [] && !ProbeHits(c[0], from.time) ==> r.time == c[|c| - 1].endTime
  {
    if c == [] then from
    else if ProbeHits(c[0], from.time) then EndOf(c[0])
    else Instant(c[FirstGapIndex(c)].appointmentDate, c[|c| - 1].endTime)
  }

  /** Without a gap the written scan and the intended one agree. */
  lemma AsWrittenAgreesWithoutGap(c: seq<Appointment>, from: Instant)
    requires forall j :: 0 <= j < |c| - 1 ==> Adjacent(c, j)
    ensures FirstAvailableAsWritten(c, from) == FirstAvailableFrom(c, from)
  {
    if c != [] && !ProbeHits(c[0], from.time) {
      BackToBackYieldsLastEnd(c, from);
    }
  }

  /**
    Bookings 09:00-10:00 and 11:00-12:00 on one date, request at 09:00: the
    written scan answers 12:00, skipping the free hour from 10:00; the intended
    answer is 10:00.
  */
  lemma AsWrittenSkipsFirstGap(d: Date)
    ensures var c := [Appointment(1, "A", d, 32400, 36000), Appointment(1, "B", d, 39600, 43200)];
            FirstAvailableAsWritten(c, Instant(d, 32400)) == Instant(d, 43200) &&
            FirstAvailableFrom(c, Instant(d, 32400)) == Instant(d, 36000)
  {
    var c := [Appointment(1, "A", d, 32400, 36000), Appointment(1, "B", d, 39600, 43200)];
    FirstGapYieldsItsEnd(c, Instant(d, 32400), 0);
  }

  /**
    The written scan lacks the last property of `FirstAvailableIsFree`: on the
    bookings 09:00-10:00 and 11:00-12:00 it answers 12:00 although the first
    booking ends at 10:00 and is followed by a gap.
  */
  lemma AsWrittenSkipsEarlierEnd(d: Date)
    ensures var c := [Appointment(1, "A", d, 32400, 36000), Appointment(1, "B", d, 39600, 43200)];
            c[0].endTime < FirstAvailableAsWritten(c, Instant(d, 32400)).time && !Adjacent(c, 0)
  {
  }
}
