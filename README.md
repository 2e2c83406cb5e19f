# Doctor appointment scheduling core

A Dafny model of the scheduling logic inside the Flask handlers of
`src/endpoints.py`: a store of doctors, weekly working hours and booked
appointments, with the operations the handlers perform on it.

- **Doctors** (`doctor_create`): a new doctor row receives the next
  auto-incremented id.
- **Working hours** (`working_hours_create`): one row per (doctor, day of
  week); an upsert overwrites the times of an existing row or adds a row.
  The day-of-week key is stored exactly as sent.
- **Booking** (`create_appointment`): an unknown doctor is refused first; then
  a request that does not lie inside the working hours stored under the
  upper-case English name of the date's weekday; then one that overlaps, with
  half-open comparisons, an appointment of the same doctor on the same date.
  Otherwise the appointment is appended.
- **Range query** (`get_appointments_by_time`): the doctor's appointments whose
  date lies between the two dates and whose start and end times lie between
  the two times of day, dates and times compared separately. An empty answer
  is reported as not found.
- **First available** (`get_first_available_appointment`): candidates are the
  doctor's appointments dated on or after the requested date that start at or
  after the requested time of day, ordered by start time only. With no
  candidate the request is returned; then a probe of the first candidate; then
  the end of the first candidate that is not back to back with the next, or
  of the last one.

Times of day are seconds since midnight, dates are proleptic Gregorian
ordinals (1 = 0001-01-01, a Monday), and the weekday name of a date is
`["MONDAY", …, "SUNDAY"][(ordinal - 1) % 7]`, which is what
`strftime("%A").upper()` gives in the C locale.

Modules: `Clock` (times, dates, weekday names), `Intervals` (the overlap and
containment tests), `Records` (row shapes and refusals), `Tables` (the queries
on the tables, as functions), `Availability` (the first-available search) and
`Schedule` (class `Scheduler`, whose fields are the three tables and whose
members are the handlers).

Decisions where the code is loose; the model follows the code:

- Nothing checks `start < end`, for working hours or appointments. Inverted and
  empty intervals stay legal. Lemmas that need proper intervals require them.
  `Intervals.InvertedIntervalBlocks` shows an inverted booking blocking a
  request with which it shares no instant.
- The probe at line 197 (`start >= t and end <= t`) is modelled literally as
  `Availability.ProbeHits`. It cannot fire for an appointment with start < end.
  The candidate filter already drops every booking that started before the
  requested time.
- First available does not return the request when the first candidate starts
  later. It always answers with the end of a back-to-back chain of candidates,
  because the code does.
- The storage orders the candidates by start time, not by (date, start). The
  model receives that ordering as the argument `ordered` of
  `Scheduler.FirstAvailable`, required to be sorted by start time and to hold
  exactly the candidates.
- An empty range query is a refusal (`NoAppointments`), as in the code, not an
  empty list.
- Line 205 returns the date of the appointment before the gap with the end
  time of the LAST candidate. Its comment at line 204 says the end of the
  appointment before the gap. The model uses the commented intent (see
  Findings).

## Model

| member | source | states |
|---|---|---|
| `Clock.Weekday` | src/endpoints.py:114 | weekday index is below 7, and ordinal 1 is a Monday |
| `Clock.DayName` | src/endpoints.py:114 | the lookup key of a date is one of the seven upper-case English weekday names |
| `Clock.DayNameWeekly` | src/endpoints.py:114 | dates seven days apart get the same weekday and the same name |
| `Clock.LowerCaseKeyNeverMatches` | src/endpoints.py:58 | a day-of-week string holding a lower-case letter (such as "monday") equals no date's name |
| `Intervals.OverlapsSymmetric` | src/endpoints.py:119 | the overlap test gives the same answer with the two intervals swapped |
| `Intervals.TouchingDoesNotOverlap` | src/endpoints.py:119 | back-to-back intervals (one ends where the other starts) do not overlap, inverted ones included |
| `Intervals.OverlapsIffSharedInstant` | src/endpoints.py:119 | for proper intervals, overlapping holds exactly when some instant lies in both |
| `Intervals.InvertedIntervalBlocks` | src/endpoints.py:119 | an inverted interval [5, 3) overlaps [0, 10) although they share no instant |
| `Intervals.WithinBounds` | src/endpoints.py:115 | the working-hours test admits exactly the requests with open <= start and end <= close, including an exact fit |
| `Intervals.WithinIffCovered` | src/endpoints.py:115 | for a proper request, being admitted means every instant of it is inside the working hours |
| `Tables.Filter` | src/endpoints.py:158-163 | a query result holds each row that satisfies its condition exactly as often as the table does, and no other row |
| `Tables.Upsert` | src/endpoints.py:74-88 | after an upsert the new row is under its key, other keys keep their rows, and the row count grows by one only for a new key |
| `Tables.UpsertKeepsKeying` | src/models.py:48 | the upsert keeps every row under its own (doctor, day) key, so each key holds at most one row |
| `Tables.UpsertOverwrites` | src/endpoints.py:74-79 | a second upsert for the same key replaces the first row's times |
| `Tables.HoursOn` | src/endpoints.py:114 | the lookup finds a row exactly when one is stored under (doctor, weekday name of the date), and returns that row |
| `Tables.FitsWorkingHoursCases` | src/endpoints.py:114-116 | a booking fits exactly when a row exists for the weekday, start >= its start and end <= its end; an exact fit is admitted |
| `Tables.LowerCaseRowNeverFits` | src/endpoints.py:114 | a doctor whose day-of-week keys each hold a lower-case letter somewhere can never book |
| `Tables.FirstConflict` | src/endpoints.py:118-122 | the overlap query finds an appointment exactly when some stored appointment of the same doctor and date overlaps the request, and what it finds is one |
| `Tables.AppendKeepsNoDoubleBooking` | src/endpoints.py:118-134 | appending a booking the overlap query did not block keeps every pair of same-doctor same-date appointments non-overlapping |
| `Tables.RangeQuery` | src/endpoints.py:158-163 | the range query returns exactly the doctor's appointments with dates in range, start >= lower time and end <= upper time, each as often as it is stored |
| `Tables.RangeQueryIgnoresDateForTime` | src/endpoints.py:159-162 | an appointment on a later date that starts before the lower time of day is not returned |
| `Tables.Candidates` | src/endpoints.py:186-188 | the candidates are exactly the doctor's appointments dated on or after the request that start at or after its time of day, each as often as it is stored |
| `Availability.FirstGapIndex` | src/endpoints.py:202-203 | the index found has every earlier pair back to back and is followed by a gap unless it is the last candidate |
| `Availability.FirstAvailableFrom` | src/endpoints.py:191-208 | with no candidate the request is returned; otherwise the end (date and time) of one of the candidates |
| `Availability.FirstAvailableAmong` | src/endpoints.py:191-208 | the loop with early return computes the first-available answer |
| `Availability.ProbeNeverHitsProperAppointment` | src/endpoints.py:197 | the probe never fires for an appointment with start < end |
| `Availability.ProbeHitsEmptyAppointmentAtRequest` | src/endpoints.py:197 | the probe fires for a zero-length appointment at the requested time |
| `Availability.BackToBackYieldsLastEnd` | src/endpoints.py:207-208 | when every pair is back to back the answer is the end of the last candidate |
| `Availability.FirstGapYieldsItsEnd` | src/endpoints.py:202-205 | otherwise the answer is the end of the first candidate followed by a gap, on its own date |
| `Availability.FirstAvailableNotBefore` | src/endpoints.py:186-208 | for candidates that do not end before they start, the answer is never earlier in the day than the request |
| `Availability.InvertedCandidateAnswersEarlier` | src/endpoints.py:197-199 | a single inverted candidate 10:00-09:00 and a request at 09:30 yield 09:00, earlier than the request |
| `Availability.ChainEndsGrow` | src/endpoints.py:202-203 | along a back-to-back chain of proper appointments the end times do not decrease |
| `Availability.FirstAvailableIsFree` | src/endpoints.py:186-208 | for one doctor's proper, non-overlapping candidates on one date, sorted by start, the answer is on their date, lies inside none of them, and no candidate ending before it is followed by a gap |
| `Availability.FirstAvailableAsWritten` | src/endpoints.py:202-208 | the written scan answers with the last candidate's end time whenever the probe does not fire |
| `Availability.AsWrittenAgreesWithoutGap` | src/endpoints.py:207-208 | when no pair has a gap the written and the intended scans agree |
| `Availability.AsWrittenSkipsFirstGap` | src/endpoints.py:205 | for bookings 09-10 and 11-12 and a request at 09:00 the written scan answers 12:00 and the intended one 10:00 |
| `Availability.AsWrittenSkipsEarlierEnd` | src/endpoints.py:202-205 | on bookings 09-10 and 11-12 the written scan answers after 10:00 although the 09-10 booking is followed by a gap, so it breaks the last property of `FirstAvailableIsFree` |
| `Schedule.Scheduler.CreateDoctor` | src/endpoints.py:45-51 | a new doctor gets an id not used before; nothing else changes |
| `Schedule.Scheduler.CreateWorkingHours` | src/endpoints.py:63-90 | unknown doctor: not found, nothing changes; otherwise the table becomes the upsert of the new row, and the store invariant is kept |
| `Schedule.Scheduler.CreateAppointment` | src/endpoints.py:102-136 | refusals in order (unknown doctor, outside hours, overlap) leave everything unchanged; success appends exactly the requested appointment; working hours never change; no double booking is kept |
| `Schedule.Scheduler.AppointmentsByTime` | src/endpoints.py:139-168 | unknown doctor: not found; no match: not found; a known doctor with a match gets success, holding each matching appointment as often as it is stored |
| `Schedule.Scheduler.FirstAvailable` | src/endpoints.py:171-208 | unknown doctor: not found; no candidate: the request; otherwise the first-available answer on the ordered candidates, never earlier in the day than the request when no appointment ends before it starts |

## Findings

| source | as written | input that shows it | evidently intended | confidence | as-written member | corrected member |
|---|---|---|---|---|---|---|
| src/endpoints.py:205 | returns `appointments[i].appointment_date` with `appointments[-1].end_time` | bookings 09:00-10:00 and 11:00-12:00 on one date, request at 09:00: answers 12:00 and skips the free hour from 10:00 (`AsWrittenSkipsFirstGap`) | the end time of `appointments[i]`, the appointment before the gap, as the comment at line 204 says: 10:00 | not executed | `Availability.FirstAvailableAsWritten` | `Availability.FirstAvailableFrom` |

## Left out

- Flask routing, the `Blueprint`, `request.args`, `use_args` and the `index` and `dummy_model` routes: transport only.
- Parsing of dates and times (`date.fromisoformat`, `time.fromisoformat`, `datetime.strptime`) and the bad-request answers for malformed input: handlers receive typed values. Sub-second times are not modelled.
- Missing request arguments (a `KeyError` on `args[...]`, or a `None` doctor id): these belong to argument parsing.
- The SQLAlchemy session: the tables are fields of one object. The surrogate `id` columns of working-hours and appointment rows are dropped. Rows come back in insertion order. The order of rows with equal start times under `order_by` is left to the `ordered` argument.
- The race between the overlap query and the insert: the model is sequential.
- The debugging `print` calls at lines 150-152.
- `json()` serialisation in src/models.py. A doctor whose name is missing is refused by the NOT NULL column at commit; that is not modelled. Neither is the declared length 10 of `day_of_week`.
- Locale dependence of `strftime("%A")`: the weekday name is the fixed English one.
- Lines 199, 205 and 208 add a date to a time or a string. Python raises on that at run time. The model returns every answer as a (date, time) pair instead.
