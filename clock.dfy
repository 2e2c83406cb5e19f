/**
  Calendar values used by the scheduling store: times of day with second
  resolution, dates as proleptic Gregorian ordinals, and the upper-case
  English weekday name under which working hours are looked up.
*/
module Clock {

  /** Seconds since midnight, 00:00:00 .. 23:59:59. */
  type TimeOfDay = t: int | 0 <= t < 86400

  /** Ordinal 1 is 0001-01-01 (a Monday); 3652059 is 9999-12-31. */
  type Date = d: int | 1 <= d <= 3652059 witness 1

  /** A date combined with a time of day. */
  datatype Instant = Instant(date: Date, time: TimeOfDay)

  /** The names `strftime("%A").upper()` produces, Monday first. */
  const WeekdayNames: seq<string> :=
    ["MONDAY", "TUESDAY", "WEDNESDAY", "THURSDAY", "FRIDAY", "SATURDAY", "SUNDAY"]

  /** Day of the week, 0 = Monday, as Python's `date.weekday()`. */
  function Weekday(d: Date): (w: nat)
    ensures w < 7
    ensures d == 1 ==> w == 0
  {
    (d - 1) % 7
  }

  predicate IsUpperCaseLetters(s: string) {
    forall i :: 0 <= i < |s| ==> 'A' <= s[i] <= 'Z'
  }

  /** The day-of-week key a booking on date `d` is matched against. */
  function DayName(d: Date): (name: string)
    ensures name in WeekdayNames
    ensures IsUpperCaseLetters(name)
    ensures name == WeekdayNames[Weekday(d)]
  {
    var w := Weekday(d);
    assert forall k :: 0 <= k < 7 ==> IsUpperCaseLetters(WeekdayNames[k]);
    WeekdayNames[w]
  }

  /** Dates seven days apart share their weekday name. */
  lemma DayNameWeekly(d: Date)
    requires d + 7 <= 3652059
    ensures Weekday(d + 7) == Weekday(d)
    ensures DayName(d + 7) == DayName(d)
  {
  }

  /**
    A day-of-week key holding any lower-case letter (say "monday") is never the
    name of a date, so working hours stored under it never admit a booking.
  */
  lemma LowerCaseKeyNeverMatches(day: string, i: nat, d: Date)
    requires i < |day| && 'a' <= day[i] <= 'z'
    ensures DayName(d) != day
  {
  }
}
