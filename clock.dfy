/**
 * The single local time scale of the scheduler. An instant is a whole number
 * of minutes since midnight of day 0; every day has 1440 minutes (no time zones,
 * no daylight-saving shifts). Day 0 is a Monday.
 */
module Clock {
  const MinutesPerDay: int := 1440
  /** WORK_START, 09:00, as minutes after midnight. */
  const WorkStart: int := 9 * 60
  /** WORK_END, 22:00, as minutes after midnight. */
  const WorkEnd: int := 22 * 60

  /** The local calendar date of an instant (Python's `.date()`). */
  function Day(t: int): int {
    t / MinutesPerDay
  }

  /** Minutes elapsed since midnight of the instant's own day. */
  function MinuteOfDay(t: int): int {
    t % MinutesPerDay
  }

  /** Python's `date.weekday()`: Monday is 0, Sunday is 6. */
  function Weekday(day: int): (w: int)
    ensures 0 <= w < 7
  {
    day % 7
  }

  /** The instant `minute` minutes after midnight of `day`. */
  function At(day: int, minute: int): int {
    day * MinutesPerDay + minute
  }

  /** 09:00 of `day` (`probe.replace(hour=WORK_START, …)`). */
  function WindowStart(day: int): int {
    At(day, WorkStart)
  }

  /** 22:00 of `day` (`probe.replace(hour=WORK_END, …)`). */
  function WindowEnd(day: int): int {
    At(day, WorkEnd)
  }

  /** An instant taken within a day belongs to that day, at that minute. */
  lemma DayOfAt(day: int, minute: int)
    requires 0 <= minute < MinutesPerDay
    ensures Day(At(day, minute)) == day
    ensures MinuteOfDay(At(day, minute)) == minute
  {
  }

  /** Every instant lies between the midnights that bound its day. */
  lemma DayBounds(t: int)
    ensures At(Day(t), 0) <= t < At(Day(t) + 1, 0)
    ensures t == At(Day(t), MinuteOfDay(t))
  {
  }

  /** An instant between the two midnights of `day` has that day as its date. */
  lemma InDay(t: int, day: int)
    requires At(day, 0) <= t < At(day + 1, 0)
    ensures Day(t) == day
  {
    DayOfAt(day, t - At(day, 0));
  }
}
