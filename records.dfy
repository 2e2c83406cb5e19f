/** The rows the store keeps and the outcomes its handlers report. */
module Records {
  import opened Clock

  /** Doctor rows are identified by an auto-incremented integer. */
  type DoctorId = int

  /** One booked appointment (the `Appointment` table, without its surrogate id). */
  datatype Appointment = Appointment(
    doctorId: DoctorId,
    patientName: string,
    appointmentDate: Date,
    startTime: TimeOfDay,
    endTime: TimeOfDay)

  /** One working-hours row (the `WorkingHours` table, without its surrogate id). */
  datatype WorkingHours = WorkingHours(
    doctorId: DoctorId,
    dayOfWeek: string,
    startTime: TimeOfDay,
    endTime: TimeOfDay)

  /**
    The refusals the handlers return: an unknown doctor id (404), a booking
    outside the weekday's working hours (400), a booking that collides with an
    existing one (400), and a range query that matched nothing (404 with a null
    body).
  */
  datatype Error = DoctorNotFound | OutsideWorkingHours | Overlap | NoAppointments

  datatype Option<T> = None | Some(value: T)

  datatype Result<T> = Success(value: T) | Failure(error: Error)
}
