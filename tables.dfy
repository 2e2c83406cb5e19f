/**
  The queries the handlers send to the two tables, as pure functions over
  their contents: the working-hours upsert and lookup, the overlap query of a
  booking, the range query and the candidate query of the first-available
  search. The appointment table is a sequence in insertion order.
*/
module Tables {
  import opened Clock
  import opened Intervals
  import opened Records

  type HoursTable = map<(DoctorId, string), WorkingHours>

  /** The rows of `s` that satisfy `p`, in their original order. */
  function Filter<T(!new)>(s: seq<T>, p: T -> bool): (r: seq<T>)
    ensures |r| <= |s|
    ensures forall x :: x in r <==> x in s && p(x)
    ensures forall x :: multiset(r)[x] == (if p(x) then multiset(s)[x] else 0)
  {
    if s == [] then []
    else
      var rest := Filter(s[1..], p);
      assert s == [s[0]] + s[1..];
      assert multiset(s) == multiset([s[0]]) + multiset(s[1..]);
      if p(s[0]) then [s[0]] + rest else rest
  }

  // ---------------------------------------------------------------------
  // Working hours

  /** The key a row is unique under: (doctor, day of week as sent). */
  function KeyOf(row: WorkingHours): (DoctorId, string) {
    (row.doctorId, row.dayOfWeek)
  }

  /** Every row sits under its own key, so each key holds at most one row. */
  ghost predicate KeyedByRow(table: HoursTable) {
    forall k :: k in table ==> KeyOf(table[k]) == k
  }

  /**
    Insert-or-overwrite by (doctor, day): afterwards exactly the new row is
    stored under its key, every other key is untouched, and the row count grows
    only when the key was new.
  */
  function Upsert(table: HoursTable, row: WorkingHours): (t: HoursTable)
    ensures KeyOf(row) in t && t[KeyOf(row)] == row
    ensures t.Keys == table.Keys + {KeyOf(row)}
    ensures forall k :: k in table && k != KeyOf(row) ==> t[k] == table[k]
    ensures |t| == |table| + (if KeyOf(row) in table then 0 else 1)
  {
    table[KeyOf(row) := row]
  }

  lemma UpsertKeepsKeying(table: HoursTable, row: WorkingHours)
    requires KeyedByRow(table)
    ensures KeyedByRow(Upsert(table, row))
  {
  }

  /** Upserting the same key twice leaves only the second row. */
  lemma UpsertOverwrites(table: HoursTable, first: WorkingHours, second: WorkingHours)
    requires KeyOf(first) == KeyOf(second)
    ensures Upsert(Upsert(table, first), second) == Upsert(table, second)
  {
  }

  /** The working-hours row consulted for a booking on `date`. */
  function HoursOn(table: HoursTable, doctorId: DoctorId, date: Date): (r: Option<WorkingHours>)
    ensures r.Some? <==> (doctorId, DayName(date)) in table
    ensures r.Some? ==> r.value == table[(doctorId, DayName(date))]
  {
    var key := (doctorId, DayName(date));
    if key in table then Some(table[key]) else None
  }

  /** A booking fits when that weekday has a row and the request lies inside it. */
  predicate FitsWorkingHours(table: HoursTable, doctorId: DoctorId, date: Date,
                             start: TimeOfDay, end: TimeOfDay)
  {
    var hours := HoursOn(table, doctorId, date);
    hours.Some? && Within(hours.value.startTime, hours.value.endTime, start, end)
  }

  /**
    A booking is refused for hours exactly when the weekday has no row, or the
    request starts before the row opens, or ends after it closes; a request equal
    to the working hours fits.
  */
  lemma FitsWorkingHoursCases(table: HoursTable, doctorId: DoctorId, date: Date,
                              start: TimeOfDay, end: TimeOfDay)
    ensures var key := (doctorId, DayName(date));
            FitsWorkingHours(table, doctorId, date, start, end) <==>
              key in table && table[key].startTime <= start && end <= table[key].endTime
    ensures var key := (doctorId, DayName(date));
            key in table && table[key].startTime == start && table[key].endTime == end ==>
              FitsWorkingHours(table, doctorId, date, start, end)
  {
  }

  /** Rows whose day-of-week key is not an upper-case weekday name never admit a booking. */
  lemma LowerCaseRowNeverFits(table: HoursTable, doctorId: DoctorId, date: Date,
                              start: TimeOfDay, end: TimeOfDay)
    requires forall k :: k in table && k.0 == doctorId ==>
               exists i :: 0 <= i < |k.1| && 'a' <= k.1[i] <= 'z'
    ensures !FitsWorkingHours(table, doctorId, date, start, end)
  {
  }

  // ---------------------------------------------------------------------
  // Booking conflicts

  /** Stored appointment `a` blocks a request for the same doctor and date. */
  predicate Conflicts(a: Appointment, doctorId: DoctorId, date: Date,
                      start: TimeOfDay, end: TimeOfDay)
  {
    a.doctorId == doctorId && a.appointmentDate == date &&
    Overlaps(a.startTime, a.endTime, start, end)
  }

  /** The first stored appointment that blocks the request, if any. */
  function FirstConflict(appts: seq<Appointment>, doctorId: DoctorId, date: Date,
                         start: TimeOfDay, end: TimeOfDay): (r: Option<Appointment>)
    ensures r.Some? <==> exists a :: a in appts && Conflicts(a, doctorId, date, start, end)
    ensures r.Some? ==> r.value in appts && Conflicts(r.value, doctorId, date, start, end)
  {
    var hits := Filter(appts, a => Conflicts(a, doctorId, date, start, end));
    if hits == [] then None else assert hits[0] in hits; Some(hits[0])
  }

  /** No two stored appointments of one doctor on one date overlap. */
  ghost predicate NoDoubleBooking(appts: seq<Appointment>) {
    forall i, j :: 0 <= i < |appts| && 0 <= j < |appts| && i != j ==>
      !Conflicts(appts[i], appts[j].doctorId, appts[j].appointmentDate,
                 appts[j].startTime, appts[j].endTime)
  }

  /** Appending a booking that nothing blocks keeps the ledger free of double bookings. */
  lemma {:induction false} AppendKeepsNoDoubleBooking(appts: seq<Appointment>, a: Appointment)
    requires NoDoubleBooking(appts)
    requires FirstConflict(appts, a.doctorId, a.appointmentDate, a.startTime, a.endTime).None?
    ensures NoDoubleBooking(appts + [a])
  {
    var s := appts + [a];
    forall i, j | 0 <= i < |s| && 0 <= j < |s| && i != j
      ensures !Conflicts(s[i], s[j].doctorId, s[j].appointmentDate, s[j].startTime, s[j].endTime)
    {
      if i == |appts| {
        assert s[j] in appts;
        OverlapsSymmetric(s[j].startTime, s[j].endTime, a.startTime, a.endTime);
      } else if j == |appts| {
        assert s[i] in appts;
      } else {
        assert s[i] == appts[i] && s[j] == appts[j];
      }
    }
  }

  // ---------------------------------------------------------------------
  // Range query and first-available candidates

  /** The WHERE clause of the range query. */
  predicate InWindow(a: Appointment, doctorId: DoctorId, from: Instant, to: Instant) {
    a.doctorId == doctorId &&
    a.appointmentDate >= from.date && a.appointmentDate <= to.date &&
    a.startTime >= from.time && a.endTime <= to.time
  }

  /** The appointments of `doctorId` the range query returns for [from, to]. */
  function RangeQuery(appts: seq<Appointment>, doctorId: DoctorId, from: Instant, to: Instant)
    : (r: seq<Appointment>)
    ensures forall a :: a in r <==>
      a in appts && a.doctorId == doctorId &&
      from.date <= a.appointmentDate <= to.date &&
      a.startTime >= from.time && a.endTime <= to.time
    ensures forall a ::
              multiset(r)[a] == (if InWindow(a, doctorId, from, to) then multiset(appts)[a] else 0)
  {
    Filter(appts, (a: Appointment) => InWindow(a, doctorId, from, to))
  }

  /**
    The range query compares dates and times of day separately: an appointment
    on a date inside the range but starting before the lower time is left out,
    even on a later date than the lower bound.
  */
  lemma RangeQueryIgnoresDateForTime(a: Appointment, from: Instant, to: Instant)
    requires from.date < a.appointmentDate <= to.date
    requires a.startTime < from.time
    ensures RangeQuery([a], a.doctorId, from, to) == []
  {
  }

  /** The WHERE clause of the first-available search. */
  predicate IsCandidate(a: Appointment, doctorId: DoctorId, from: Instant) {
    a.doctorId == doctorId && a.appointmentDate >= from.date && a.startTime >= from.time
  }

  /** The appointments the first-available search starts from (before ordering). */
  function Candidates(appts: seq<Appointment>, doctorId: DoctorId, from: Instant)
    : (r: seq<Appointment>)
    ensures forall a :: a in r <==>
      a in appts && a.doctorId == doctorId &&
      a.appointmentDate >= from.date && a.startTime >= from.time
    ensures forall a ::
              multiset(r)[a] == (if IsCandidate(a, doctorId, from) then multiset(appts)[a] else 0)
  {
    Filter(appts, (a: Appointment) => IsCandidate(a, doctorId, from))
  }

  /** Candidates come back ordered by start time only, ignoring their dates. */
  ghost predicate SortedByStart(c: seq<Appointment>) {
    forall i, j :: 0 <= i < j < |c| ==> c[i].startTime <= c[j].startTime
  }
}
