/**
 * The due-date label of a task card (formatDate in the client): "Today",
 * "Tomorrow", or the short month-and-day text of the date.
 * Instants are millisecond timestamps already shifted to local time, so the
 * local calendar day of an instant is its floor division by the length of a day.
 */
module Dates {

  const MsPerDay: int := 86_400_000

  /** The local calendar day an instant falls on. */
  function Day(t: int): int {
    t / MsPerDay
  }

  /** new Date(y, m, d) for the calendar day of t: local midnight as a timestamp. */
  function Midnight(t: int): (m: int)
    ensures m <= t < m + MsPerDay
    ensures m % MsPerDay == 0
  {
    Day(t) * MsPerDay
  }

  datatype Label = Today | Tomorrow | MonthDay(day: int)

  /**
   * formatDate(date) with the current instant passed in: compares the local
   * midnights of the date, of now and of the day after now.
   */
  function FormatDate(date: int, now: int): (r: Label)
    ensures r == Today <==> Day(date) == Day(now)
    ensures r == Tomorrow <==> Day(date) == Day(now) + 1
    ensures r.MonthDay? ==> r.day == Day(date)
  {
    var today := Midnight(now);
    var tomorrow := (Day(now) + 1) * MsPerDay;
    var dateOnly := Midnight(date);
    if dateOnly == today then Today
    else if dateOnly == tomorrow then Tomorrow
    else MonthDay(Day(date))
  }

  /** The label ignores the time of day of both the date and now. */
  lemma {:induction false} FormatDateIgnoresTimeOfDay(date: int, date': int, now: int, now': int)
    requires Day(date) == Day(date') && Day(now) == Day(now')
    ensures FormatDate(date, now) == FormatDate(date', now')
  {
  }
}
