/**
  The scheduling store behind the HTTP handlers: the doctor, working-hours and
  appointment tables as fields of one object, and one member per handler.
  Transport, argument parsing and the session are not part of this model;
  handlers receive already-typed dates and times.
*/
module Schedule {
  import opened Clock
  import opened Intervals
  import opened Records
  import opened Tables
  import opened Availability

  class Scheduler {
    /** Doctor rows: id to name. */
    var doctors: map<DoctorId, string>
    /** The id the next doctor row receives. */
    var nextDoctorId: DoctorId
    /** Working-hours rows, one per (doctor, day of week). */
    var workingHours: HoursTable
    /** Appointment rows in insertion order. */
    var appointments: seq<Appointment>

    /**
      Ids come from the counter; each working-hours row sits under its own
      (doctor, day) key; every row names an existing doctor; and no two
      appointments of one doctor on one date overlap.
    */
    ghost predicate Valid()
      reads this
    {
      && 1 <= nextDoctorId
      && (forall id :: id in doctors ==> 1 <= id < nextDoctorId)
      && KeyedByRow(workingHours)
      && (forall k :: k in workingHours ==> k.0 in doctors)
      && (forall a :: a in appointments ==> a.doctorId in doctors)
      && NoDoubleBooking(appointments)
    }

    constructor ()
      ensures Valid()
      ensures doctors == map[] && workingHours == map[] && appointments == []
    {
      doctors := map[];
      nextDoctorId := 1;
      workingHours := map[];
      appointments := [];
    }

    /** `doctor_create`: add a doctor row under a fresh id. */
    method CreateDoctor(name: string) returns (id: DoctorId)
      requires Valid()
      modifies this
      ensures Valid()
      ensures id !in old(doctors)
      ensures doctors == old(doctors)[id := name]
      ensures workingHours == old(workingHours) && appointments == old(appointments)
    {
      id := nextDoctorId;
      doctors := doctors[id := name];
      nextDoctorId := nextDoctorId + 1;
    }

    /**
      `working_hours_create`: an unknown doctor is refused with nothing changed;
      otherwise the row for (doctor, day) has its times overwritten, or is added
      when there is none.
    */
    method CreateWorkingHours(doctorId: DoctorId, dayOfWeek: string,
                              startTime: TimeOfDay, endTime: TimeOfDay)
      returns (r: Result<WorkingHours>)
      requires Valid()
      modifies this
      ensures Valid()
      ensures doctors == old(doctors) && nextDoctorId == old(nextDoctorId)
      ensures appointments == old(appointments)
      ensures doctorId !in doctors ==>
        r == Failure(DoctorNotFound) && workingHours == old(workingHours)
      ensures doctorId in doctors ==>
        r == Success(WorkingHours(doctorId, dayOfWeek, startTime, endTime)) &&
        workingHours == Upsert(old(workingHours), r.value)
    {
      if doctorId !in doctors {
        return Failure(DoctorNotFound);
      }
      var key := (doctorId, dayOfWeek);
      if key in workingHours {
        var updated := workingHours[key].(startTime := startTime, endTime := endTime);
        workingHours := workingHours[key := updated];
        r := Success(updated);
      } else {
        var row := WorkingHours(doctorId, dayOfWeek, startTime, endTime);
        workingHours := workingHours[key := row];
        r := Success(row);
      }
    }

    /**
      `create_appointment`: refuse an unknown doctor, then a request outside
      that weekday's working hours, then one that overlaps a booking of the
      same doctor and date; otherwise append the new appointment. A refusal
      changes nothing.
    */
    method CreateAppointment(doctorId: DoctorId, patientName: string, appointmentDate: Date,
                             startTime: TimeOfDay, endTime: TimeOfDay)
      returns (r: Result<Appointment>)
      requires Valid()
      modifies this
      ensures Valid()
      ensures doctors == old(doctors) && nextDoctorId == old(nextDoctorId)
      ensures workingHours == old(workingHours)
      ensures doctorId !in doctors ==> r == Failure(DoctorNotFound)
      ensures doctorId in doctors &&
              !FitsWorkingHours(workingHours, doctorId, appointmentDate, startTime, endTime) ==>
                r == Failure(OutsideWorkingHours)
      ensures doctorId in doctors &&
              FitsWorkingHours(workingHours, doctorId, appointmentDate, startTime, endTime) &&
              (exists a :: a in old(appointments) &&
                           Conflicts(a, doctorId, appointmentDate, startTime, endTime)) ==>
                r == Failure(Overlap)
      ensures r.Success? <==>
              doctorId in doctors &&
              FitsWorkingHours(workingHours, doctorId, appointmentDate, startTime, endTime) &&
              !(exists a :: a in old(appointments) &&
                            Conflicts(a, doctorId, appointmentDate, startTime, endTime))
      ensures r.Success? ==>
              r.value == Appointment(doctorId, patientName, appointmentDate, startTime, endTime) &&
              appointments == old(appointments) + [r.value]
      ensures r.Failure? ==> appointments == old(appointments)
    {
      if doctorId !in doctors {
        return Failure(DoctorNotFound);
      }
      var hours := HoursOn(workingHours, doctorId, appointmentDate);
      if hours.None? || startTime < hours.value.startTime || endTime > hours.value.endTime {
        return Failure(OutsideWorkingHours);
      }
      var clash := FirstConflict(appointments, doctorId, appointmentDate, startTime, endTime);
      if clash.Some? {
        return Failure(Overlap);
      }
      var booked := Appointment(doctorId, patientName, appointmentDate, startTime, endTime);
      AppendKeepsNoDoubleBooking(appointments, booked);
      appointments := appointments + [booked];
      r := Success(booked);
    }

    /**
      `get_appointments_by_time`: the doctor's appointments dated within
      [start.date, end.date] that start no earlier than start's time of day and
      end no later than end's; an empty answer is reported as not found.
    */
    function AppointmentsByTime(doctorId: DoctorId, start: Instant, end: Instant)
      : (r: Result<seq<Appointment>>)
      reads this
      ensures doctorId !in doctors ==> r == Failure(DoctorNotFound)
      ensures doctorId in doctors ==>
        (r == Failure(NoAppointments) <==>
         !exists a :: a in appointments && InWindow(a, doctorId, start, end))
      ensures r.Success? <==>
        doctorId in doctors && exists a :: a in appointments && InWindow(a, doctorId, start, end)
      ensures r.Success? ==> r.value != [] && forall a :: a in r.value <==>
        a in appointments && a.doctorId == doctorId &&
        start.date <= a.appointmentDate <= end.date &&
        a.startTime >= start.time && a.endTime <= end.time
      ensures r.Success? ==>
        forall a ::
          multiset(r.value)[a] ==
            (if InWindow(a, doctorId, start, end) then multiset(appointments)[a] else 0)
    {
      if doctorId !in doctors then Failure(DoctorNotFound)
      else
        var found := RangeQuery(appointments, doctorId, start, end);
        if found == [] then Failure(NoAppointments)
        else assert found[0] in found; Success(found)
    }

    /**
      `get_first_available_appointment`. `ordered` is what the storage returns
      for the candidate query ordered by start time: the candidates in some order
      that is non-decreasing in start time, whatever their dates.
    */
    method FirstAvailable(doctorId: DoctorId, start: Instant, ordered: seq<Appointment>)
      returns (r: Result<Instant>)
      requires SortedByStart(ordered)
      requires multiset(ordered) == multiset(Candidates(appointments, doctorId, start))
      ensures doctorId !in doctors ==> r == Failure(DoctorNotFound)
      ensures doctorId in doctors ==> r == Success(FirstAvailableFrom(ordered, start))
      ensures doctorId in doctors &&
              !(exists a :: a in appointments && IsCandidate(a, doctorId, start)) ==>
                r == Success(start)
      ensures doctorId in doctors &&
              (forall a :: a in appointments ==> a.startTime <= a.endTime) ==>
                r.Success? && r.value.time >= start.time
    {
      if doctorId !in doctors {
        return Failure(DoctorNotFound);
      }
      forall a | a in ordered
        ensures a in appointments && IsCandidate(a, doctorId, start)
      {
        assert a in multiset(ordered);
      }
      if ordered != [] {
        assert ordered[0] in multiset(Candidates(appointments, doctorId, start));
      }
      if forall a :: a in appointments ==> a.startTime <= a.endTime {
        FirstAvailableNotBefore(ordered, start);
      }
      var found := FirstAvailableAmong(ordered, start);
      r := Success(found);
    }
  }

  /** A short session: exact-fit, back-to-back and repeated bookings. */
  method BookingSession() {
    var s := new Scheduler();
    var doc := s.CreateDoctor("Strange");
    var monday: Date := 1;
    var hours := s.CreateWorkingHours(doc, "MONDAY", 32400, 61200);
    assert DayName(monday) == "MONDAY";

    var first := s.CreateAppointment(doc, "Ann", monday, 32400, 36000);
    assert first.Success?;
    var again := s.CreateAppointment(doc, "Bob", monday, 32400, 36000);
    assert s.appointments[0] in s.appointments;
    assert again == Failure(Overlap);
    var next := s.CreateAppointment(doc, "Cy", monday, 36000, 61200);
    assert next.Success?;
    var early := s.CreateAppointment(doc, "Di", monday, 28800, 36000);
    assert early == Failure(OutsideWorkingHours);
  }
}
