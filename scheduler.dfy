/**
 * `schedule_tasks`: tasks are taken in input order; for each one the days are
 * walked from the cursor's day up to the deadline date inclusive, and the task
 * goes first-fit into the first free window of the first day that allows its
 * weekday and still has room under the daily cap. A placed slot becomes busy
 * for the later tasks, its minutes are added to its day's total, and the
 * cursor moves to its end.
 */
module Scheduler {
  import opened Wrappers
  import opened Clock
  import opened FreeWindows
  import opened Weekdays

  /** An input task `{"id", "task", "duration_hours"}`, its duration in minutes and possibly absent. */
  datatype Task = Task(id: int, text: string, durationMinutes: Option<int>)

  /** A `scheduled` entry `{"summary", "start", "end"}`. */
  datatype Event = Event(summary: string, start: int, end: int)

  /** An `unscheduled` entry `{"id", "task"}`. */
  datatype Unplaced = Unplaced(id: int, task: string)

  /** The fixed parameters of one run: the deadline date, the daily cap in minutes (None = unlimited), the allowed weekdays. */
  datatype Policy = Policy(deadline: int, cap: Option<int>, allowed: set<int>)

  /**
   * Everything the run updates: the busy list, the minutes used per day, the
   * cursor `dt`, the two output lists, and for the proofs the outcome of every
   * task handled so far.
   */
  datatype State = State(
    busy: seq<Interval>,
    used: map<int, int>,
    cursor: int,
    scheduled: seq<Event>,
    unscheduled: seq<Unplaced>,
    outcomes: seq<Option<Interval>>)

  /** `duration_hours` defaults to 1.0, that is 60 minutes. */
  function Duration(t: Task): int {
    t.durationMinutes.GetOr(60)
  }

  /** `day_hours.get(day, 0.0)`. */
  function UsedOn(used: map<int, int>, day: int): int {
    if day in used then used[day] else 0
  }

  /** `max_hours_per_day is None or already_used + duration <= max_hours_per_day`. */
  predicate CapAllows(alreadyUsed: int, duration: int, cap: Option<int>) {
    cap.None? || alreadyUsed + duration <= cap.value
  }

  /** `deadline_date`: the parsed date, or seven days after today when the string does not parse. */
  function DeadlineDay(parsed: Option<int>, today: int): int {
    parsed.GetOr(today + 7)
  }

  /** The slot found on one day of the walk, if that day allows the weekday, has room under the cap and has a window that fits. */
  function DaySlot(p: Policy, busy: seq<Interval>, used: map<int, int>, day: int, duration: int): Option<Interval> {
    if Weekday(day) in p.allowed && CapAllows(UsedOn(used, day), duration, p.cap) then
      FirstFit(FreeWindowsOf(busy, day), duration)
    else
      None
  }

  /** The day walk from `day` to the deadline date inclusive, stopping at the first day that yields a slot. */
  function SearchFrom(p: Policy, busy: seq<Interval>, used: map<int, int>, day: int, duration: int): Option<Interval>
    decreases p.deadline - day
  {
    if day > p.deadline then None
    else
      var slot := DaySlot(p, busy, used, day, duration);
      if slot.Some? then slot else SearchFrom(p, busy, used, day + 1, duration)
  }

  /** Handles one task: a search from the cursor's day, then either the unscheduled entry or the placement bookkeeping. */
  function Place(p: Policy, st: State, t: Task): State {
    var duration := Duration(t);
    match SearchFrom(p, st.busy, st.used, Day(st.cursor), duration)
    case None =>
      st.(unscheduled := st.unscheduled + [Unplaced(t.id, t.text)],
          outcomes := st.outcomes + [None])
    case Some(slot) =>
      var dayKey := Day(slot.start);
      State(st.busy + [slot],
            st.used[dayKey := UsedOn(st.used, dayKey) + duration],
            slot.end,
            st.scheduled + [Event(t.text, slot.start, slot.end)],
            st.unscheduled,
            st.outcomes + [Some(slot)])
  }

  /** The tasks handled one after another, in input order. */
  function Run(p: Policy, st: State, tasks: seq<Task>): State {
    if tasks == [] then st
    else
      var n := |tasks| - 1;
      Place(p, Run(p, st, tasks[..n]), tasks[n])
  }

  /** The state before the first task: the fetched busy list, no minutes used, the cursor at 09:00 of the start's date. */
  function Initial(fetched: seq<Interval>, start: int): State {
    State(fetched, map[], At(Day(start), WorkStart), [], [], [])
  }

  /** The whole run on already-parsed inputs. */
  function Schedule(p: Policy, fetched: seq<Interval>, start: int, tasks: seq<Task>): State {
    Run(p, Initial(fetched, start), tasks)
  }

  // ------------------------------------------------------------ the algorithm

  /** One step of the sweep: what is carved so far plus the rest of the sweep is unchanged by moving past the slice at `k`. */
  lemma CarveStep(carved: seq<Interval>, cursor: int, dayBusy: seq<Interval>, k: int, endWindow: int)
    requires 0 <= k < |dayBusy|
    ensures carved + Carve(cursor, dayBusy[k..], endWindow)
      == (carved + (if dayBusy[k].start > cursor then [Interval(cursor, dayBusy[k].start)] else []))
         + Carve(Max(cursor, dayBusy[k].end), dayBusy[k + 1..], endWindow)
  {
    assert dayBusy[k..][1..] == dayBusy[k + 1..];
  }

  /** The carve loop over the day's sorted slices, from 09:00 to 22:00. */
  method CarveSweep(startWindow: int, dayBusy: seq<Interval>, endWindow: int) returns (freeWindows: seq<Interval>)
    ensures freeWindows == Carve(startWindow, dayBusy, endWindow)
  {
    freeWindows := [];
    var cursor := startWindow;
    for k := 0 to |dayBusy|
      invariant freeWindows + Carve(cursor, dayBusy[k..], endWindow) == Carve(startWindow, dayBusy, endWindow)
    {
      var b := dayBusy[k];
      ghost var target := Carve(startWindow, dayBusy, endWindow);
      CarveStep(freeWindows, cursor, dayBusy, k, endWindow);
      if b.start > cursor {
        freeWindows := freeWindows + [Interval(cursor, b.start)];
      }
      cursor := Max(cursor, b.end);
      assert freeWindows + Carve(cursor, dayBusy[k + 1..], endWindow) == target;
    }
    assert dayBusy[|dayBusy|..] == [];
    if cursor < endWindow {
      freeWindows := freeWindows + [Interval(cursor, endWindow)];
    }
  }

  /**
   * The scan of the free windows for the first one long enough; the cap test is
   * made again before the slot is taken, on the same values as the caller's.
   */
  method PickSlot(freeWindows: seq<Interval>, duration: int, alreadyUsed: int, cap: Option<int>)
    returns (slot: Option<Interval>)
    requires CapAllows(alreadyUsed, duration, cap)
    ensures slot == FirstFit(freeWindows, duration)
  {
    slot := None;
    var k := 0;
    while k < |freeWindows|
      invariant 0 <= k <= |freeWindows|
      invariant forall j :: 0 <= j < k ==> !Fits(freeWindows[j], duration)
    {
      var w := freeWindows[k];
      if w.end - w.start >= duration {
        if CapAllows(alreadyUsed, duration, cap) {
          slot := Some(Interval(w.start, w.start + duration));
          return;
        }
      }
      k := k + 1;
    }
  }

  /**
   * The day walk for one task: from the cursor's date to the deadline date
   * inclusive, each day whose weekday is allowed and whose minutes leave room
   * under the cap gets its free windows carved and scanned.
   */
  method WalkDays(
    dt: int,
    deadlineDate: int,
    allowedWeekdays: set<int>,
    maxMinutesPerDay: Option<int>,
    busy: seq<Interval>,
    dayHours: map<int, int>,
    duration: int)
    returns (slot: Option<Interval>)
    ensures slot == SearchFrom(Policy(deadlineDate, maxMinutesPerDay, allowedWeekdays), busy, dayHours, Day(dt), duration)
  {
    ghost var p := Policy(deadlineDate, maxMinutesPerDay, allowedWeekdays);
    slot := None;
    var probe := dt;
    while Day(probe) <= deadlineDate
      invariant slot.None?
      invariant SearchFrom(p, busy, dayHours, Day(probe), duration) == SearchFrom(p, busy, dayHours, Day(dt), duration)
      decreases deadlineDate - Day(probe)
    {
      var currentDay := Day(probe);
      if Weekday(currentDay) in allowedWeekdays {
        var alreadyUsed := UsedOn(dayHours, currentDay);
        if CapAllows(alreadyUsed, duration, maxMinutesPerDay) {
          var dayBusy := SortByStart(DayBusy(busy, currentDay));
          var freeWindows := CarveSweep(WindowStart(currentDay), dayBusy, WindowEnd(currentDay));
          slot := PickSlot(freeWindows, duration, alreadyUsed, maxMinutesPerDay);
        }
      }
      assert slot == DaySlot(p, busy, dayHours, currentDay, duration);
      if slot.Some? {
        return;
      }
      probe := At(currentDay + 1, WorkStart);
      DayOfAt(currentDay + 1, WorkStart);
    }
  }

  /**
   * `schedule_tasks` with the busy intervals already fetched (a failed fetch is
   * the empty list), the start already parsed to an instant, and the deadline
   * either parsed to a date or absent, in which case `today` + 7 is used.
   * Returns the `scheduled` and `unscheduled` lists of the run.
   */
  method ScheduleTasks(
    tasks: seq<Task>,
    start: int,
    deadlineParsed: Option<int>,
    today: int,
    fetched: seq<Interval>,
    maxMinutesPerDay: Option<int>,
    allowedDaysOfWeek: Option<seq<string>>)
    returns (scheduled: seq<Event>, unscheduled: seq<Unplaced>)
    ensures var p := Policy(DeadlineDay(deadlineParsed, today), maxMinutesPerDay, AllowedWeekdays(allowedDaysOfWeek));
      && scheduled == Schedule(p, fetched, start, tasks).scheduled
      && unscheduled == Schedule(p, fetched, start, tasks).unscheduled
  {
    var dt := At(Day(start), WorkStart);
    var deadlineDate := DeadlineDay(deadlineParsed, today);
    var busy := fetched;
    scheduled, unscheduled := [], [];
    var dayHours: map<int, int> := map[];
    var allowedWeekdays := AllowedWeekdays(allowedDaysOfWeek);
    ghost var p := Policy(deadlineDate, maxMinutesPerDay, allowedWeekdays);
    ghost var outcomes: seq<Option<Interval>> := [];

    for i := 0 to |tasks|
      invariant State(busy, dayHours, dt, scheduled, unscheduled, outcomes) == Run(p, Initial(fetched, start), tasks[..i])
    {
      var t := tasks[i];
      ghost var before := State(busy, dayHours, dt, scheduled, unscheduled, outcomes);
      assert tasks[..i + 1][..i] == tasks[..i];
      assert Run(p, Initial(fetched, start), tasks[..i + 1]) == Place(p, before, t);
      var duration := Duration(t);
      var slot := WalkDays(dt, deadlineDate, allowedWeekdays, maxMinutesPerDay, busy, dayHours, duration);

      if slot.None? {
        unscheduled := unscheduled + [Unplaced(t.id, t.text)];
        outcomes := outcomes + [None];
        assert State(busy, dayHours, dt, scheduled, unscheduled, outcomes) == Place(p, before, t);
        continue;
      }

      var s := slot.value;
      scheduled := scheduled + [Event(t.text, s.start, s.end)];
      busy := busy + [s];
      var dayKey := Day(s.start);
      var usedMinutes := UsedOn(dayHours, dayKey);
      usedMinutes := usedMinutes + duration;
      dayHours := dayHours[dayKey := usedMinutes];
      dt := s.end;
      outcomes := outcomes + [Some(s)];
      assert State(busy, dayHours, dt, scheduled, unscheduled, outcomes) == Place(p, before, t);
    }
    assert tasks[..|tasks|] == tasks;
  }
}
