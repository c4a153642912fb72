/**
 * Concrete runs of the scheduler: how it fills an empty calendar, how the
 * daily cap pushes work to the next day, and the input on which a busy
 * interval that starts after 22:00 makes it place a task over that interval.
 */
module Scenarios {
  import opened Wrappers
  import opened Clock
  import opened FreeWindows
  import opened Weekdays
  import opened Scheduler
  import opened ScheduleProperties

  /** A day with nothing busy has the whole 09:00–22:00 window free. */
  lemma EmptyDayWindow(day: int)
    ensures FreeWindowsOf([], day) == [Interval(WindowStart(day), WindowEnd(day))]
  {
  }

  /** A run over one more task is one more placement. */
  lemma RunStep(p: Policy, st: State, tasks: seq<Task>, t: Task)
    ensures Run(p, st, tasks + [t]) == Place(p, Run(p, st, tasks), t)
  {
    assert (tasks + [t])[..|tasks|] == tasks;
  }

  /** Two tasks are the first task's run followed by the second's placement. */
  lemma TwoTasks(p: Policy, fetched: seq<Interval>, start: int, t1: Task, t2: Task)
    ensures Schedule(p, fetched, start, [t1, t2]) == Place(p, Schedule(p, fetched, start, [t1]), t2)
  {
    RunStep(p, Initial(fetched, start), [t1], t2);
    assert [t1] + [t2] == [t1, t2];
  }

  /** A placement whose search finds `slot`. */
  lemma PlaceFound(p: Policy, st: State, t: Task, slot: Interval)
    requires SearchFrom(p, st.busy, st.used, Day(st.cursor), Duration(t)) == Some(slot)
    ensures Place(p, st, t) == State(
      st.busy + [slot],
      st.used[Day(slot.start) := UsedOn(st.used, Day(slot.start)) + Duration(t)],
      slot.end,
      st.scheduled + [Event(t.text, slot.start, slot.end)],
      st.unscheduled,
      st.outcomes + [Some(slot)])
  {
  }

  /** A day whose only free window fits the task yields the slot at that window's start. */
  lemma OnlyWindowSlot(p: Policy, busy: seq<Interval>, used: map<int, int>, day: int, duration: int, w: Interval)
    requires Weekday(day) in p.allowed && CapAllows(UsedOn(used, day), duration, p.cap)
    requires FreeWindowsOf(busy, day) == [w] && Fits(w, duration)
    ensures DaySlot(p, busy, used, day, duration) == Some(Interval(w.start, w.start + duration))
  {
  }

  /** The walk stops at a day that yields a slot. */
  lemma SearchHere(p: Policy, busy: seq<Interval>, used: map<int, int>, day: int, duration: int)
    requires day <= p.deadline && DaySlot(p, busy, used, day, duration).Some?
    ensures SearchFrom(p, busy, used, day, duration) == DaySlot(p, busy, used, day, duration)
  {
  }

  /** The walk passes over a day that yields nothing. */
  lemma SearchSkip(p: Policy, busy: seq<Interval>, used: map<int, int>, day: int, duration: int)
    requires day <= p.deadline && DaySlot(p, busy, used, day, duration).None?
    ensures SearchFrom(p, busy, used, day, duration) == SearchFrom(p, busy, used, day + 1, duration)
  {
  }

  /** The whole state after one task on an empty calendar whose start date can take it. */
  lemma FirstPlacement(p: Policy, start: int, t: Task)
    requires Weekday(Day(start)) in p.allowed && Day(start) <= p.deadline
    requires 0 < Duration(t) <= WorkEnd - WorkStart
    requires CapAllows(0, Duration(t), p.cap)
    ensures var s := WindowStart(Day(start));
      var slot := Interval(s, s + Duration(t));
      Schedule(p, [], start, [t])
        == State([slot], map[Day(start) := Duration(t)], s + Duration(t), [Event(t.text, slot.start, slot.end)], [], [Some(slot)])
  {
    var day := Day(start);
    var slot := Interval(WindowStart(day), WindowStart(day) + Duration(t));
    DayOfAt(day, WorkStart);
    EmptyDayWindow(day);
    OnlyWindowSlot(p, [], map[], day, Duration(t), Interval(WindowStart(day), WindowEnd(day)));
    SearchHere(p, [], map[], day, Duration(t));
    RunStep(p, Initial([], start), [], t);
    PlaceFound(p, Initial([], start), t, slot);
  }

  /**
   * On an empty calendar the first task goes at 09:00 of the start's date,
   * even when the start instant is later that day.
   */
  lemma FirstTaskAtNine(p: Policy, start: int, t: Task)
    requires Weekday(Day(start)) in p.allowed && Day(start) <= p.deadline
    requires 0 < Duration(t) <= WorkEnd - WorkStart
    requires CapAllows(0, Duration(t), p.cap)
    ensures Schedule(p, [], start, [t]).scheduled
      == [Event(t.text, WindowStart(Day(start)), WindowStart(Day(start)) + Duration(t))]
    ensures Schedule(p, [], start, [t]).unscheduled == []
  {
    FirstPlacement(p, start, t);
  }

  /** A single slot that starts at 09:00 of `day` leaves `day` free from its end to 22:00 and leaves the next date wholly free. */
  lemma AfterFirstSlot(day: int, d: int)
    requires 0 < d <= WorkEnd - WorkStart
    ensures FreeWindowsOf([Interval(WindowStart(day), WindowStart(day) + d)], day)
      == (if d < WorkEnd - WorkStart then [Interval(WindowStart(day) + d, WindowEnd(day))] else [])
    ensures FreeWindowsOf([Interval(WindowStart(day), WindowStart(day) + d)], day + 1)
      == [Interval(WindowStart(day + 1), WindowEnd(day + 1))]
  {
    var first := Interval(WindowStart(day), WindowStart(day) + d);
    DayOfAt(day, WorkStart);
    DayOfAt(day, WorkStart + d);
    assert [first][..0] == [];
    assert DayBusy([first], day) == [first];
    assert SortByStart([first]) == [first];
    assert Carve(WindowStart(day), [first], WindowEnd(day)) == Carve(WindowStart(day) + d, [], WindowEnd(day));
    assert DayBusy([first], day + 1) == [];
  }

  /** After a slot of `d1` minutes from 09:00 of `day`, with no cap, the walk for `d2` more minutes takes the time right after it. */
  lemma SameDayWalk(p: Policy, day: int, d1: int, d2: int)
    requires Weekday(day) in p.allowed && day <= p.deadline && p.cap.None?
    requires 0 < d1 && 0 < d2 && d1 + d2 <= WorkEnd - WorkStart
    ensures var s := WindowStart(day);
      SearchFrom(p, [Interval(s, s + d1)], map[day := d1], day, d2) == Some(Interval(s + d1, s + d1 + d2))
  {
    var s := WindowStart(day);
    var busy := [Interval(s, s + d1)];
    var used := map[day := d1];
    AfterFirstSlot(day, d1);
    OnlyWindowSlot(p, busy, used, day, d2, Interval(s + d1, WindowEnd(day)));
    SearchHere(p, busy, used, day, d2);
  }

  /** With no cap, a second task on an empty calendar is placed right after the first, on the same date. */
  lemma BackToBack(p: Policy, start: int, t1: Task, t2: Task)
    requires Weekday(Day(start)) in p.allowed && Day(start) <= p.deadline
    requires p.cap.None?
    requires 0 < Duration(t1) && 0 < Duration(t2) && Duration(t1) + Duration(t2) <= WorkEnd - WorkStart
    ensures var s := WindowStart(Day(start));
      Schedule(p, [], start, [t1, t2]).scheduled
        == [Event(t1.text, s, s + Duration(t1)), Event(t2.text, s + Duration(t1), s + Duration(t1) + Duration(t2))]
  {
    var day := Day(start);
    var s := WindowStart(day);
    var d1, d2 := Duration(t1), Duration(t2);
    FirstPlacement(p, start, t1);
    var st1 := Schedule(p, [], start, [t1]);
    TwoTasks(p, [], start, t1, t2);
    DayOfAt(day, WorkStart + d1);
    SameDayWalk(p, day, d1, d2);
    PlaceFound(p, st1, t2, Interval(s + d1, s + d1 + d2));
  }

  /** After a slot of `d` minutes from 09:00 of `day` has used up a cap of `d`, the walk for another `d` minutes takes 09:00 of the next date. */
  lemma FullDayWalk(p: Policy, day: int, d: int)
    requires p.allowed == AllWeekdays() && day + 1 <= p.deadline
    requires 0 < d <= WorkEnd - WorkStart && p.cap == Some(d)
    ensures var first := Interval(WindowStart(day), WindowStart(day) + d);
      SearchFrom(p, [first], map[day := d], day, d) == Some(Interval(WindowStart(day + 1), WindowStart(day + 1) + d))
  {
    var busy := [Interval(WindowStart(day), WindowStart(day) + d)];
    var used := map[day := d];
    AfterFirstSlot(day, d);
    SearchSkip(p, busy, used, day, d);
    assert Weekday(day + 1) in p.allowed;
    assert UsedOn(used, day + 1) == 0;
    OnlyWindowSlot(p, busy, used, day + 1, d, Interval(WindowStart(day + 1), WindowEnd(day + 1)));
    SearchHere(p, busy, used, day + 1, d);
  }

  /** With a cap of one task's length, an identical second task moves to 09:00 of the next date. */
  lemma CapMovesToNextDay(p: Policy, start: int, t1: Task, t2: Task)
    requires p.allowed == AllWeekdays() && Day(start) + 1 <= p.deadline
    requires 0 < Duration(t1) <= WorkEnd - WorkStart && Duration(t2) == Duration(t1)
    requires p.cap == Some(Duration(t1))
    ensures var s := WindowStart(Day(start));
      var s' := WindowStart(Day(start) + 1);
      Schedule(p, [], start, [t1, t2]).scheduled
        == [Event(t1.text, s, s + Duration(t1)), Event(t2.text, s', s' + Duration(t2))]
  {
    var day := Day(start);
    var d := Duration(t1);
    FirstPlacement(p, start, t1);
    var st1 := Schedule(p, [], start, [t1]);
    TwoTasks(p, [], start, t1, t2);
    DayOfAt(day, WorkStart + d);
    FullDayWalk(p, day, d);
    PlaceFound(p, st1, t2, Interval(WindowStart(day + 1), WindowStart(day + 1) + d));
  }

  /** A fetched calendar with an event from 22:10 to 22:20 and one from 22:40 to 23:00 on day 0, besides 09:00–22:00. */
  function LateCalendar(): seq<Interval> {
    [Interval(540, 1320), Interval(1330, 1340), Interval(1360, 1380)]
  }

  /** The clipped slices of that calendar on day 0: the two late events become inverted slices starting after 22:00. */
  function LateSlices(): seq<Interval> {
    [Interval(540, 1320), Interval(1330, 1320), Interval(1360, 1320)]
  }

  /** One more busy interval adds at most its own clip to the day's slices. */
  lemma DayBusySnoc(busy: seq<Interval>, b: Interval, day: int)
    ensures DayBusy(busy + [b], day) == DayBusy(busy, day) + (if TouchesDay(b, day) then [Clip(b, day)] else [])
  {
    assert (busy + [b])[..|busy|] == busy;
  }

  /** Sorting one more element inserts it into the sorted rest. */
  lemma SortSnoc(s: seq<Interval>, x: Interval)
    ensures SortByStart(s + [x]) == InsertByStart(x, SortByStart(s))
  {
    assert (s + [x])[..|s|] == s;
  }

  lemma LateDayBusy()
    ensures DayBusy(LateCalendar(), 0) == LateSlices()
  {
    var busy := LateCalendar();
    var sliced := LateSlices();
    DayBusySnoc([], busy[0], 0);
    DayBusySnoc([busy[0]], busy[1], 0);
    DayBusySnoc([busy[0], busy[1]], busy[2], 0);
    assert [busy[0]] == [] + [busy[0]];
    assert [busy[0], busy[1]] == [busy[0]] + [busy[1]];
    assert busy == [busy[0], busy[1]] + [busy[2]];
    assert Clip(busy[1], 0) == sliced[1];
    assert Clip(busy[2], 0) == sliced[2];
  }

  lemma LateSorted()
    ensures SortByStart(LateSlices()) == LateSlices()
  {
    var sliced := LateSlices();
    SortSnoc([], sliced[0]);
    SortSnoc([sliced[0]], sliced[1]);
    SortSnoc([sliced[0], sliced[1]], sliced[2]);
    assert [sliced[0]] == [] + [sliced[0]];
    assert [sliced[0], sliced[1]] == [sliced[0]] + [sliced[1]];
    assert sliced == [sliced[0], sliced[1]] + [sliced[2]];
    assert InsertByStart(sliced[1], [sliced[0]]) == [sliced[0], sliced[1]];
    assert InsertByStart(sliced[2], [sliced[1]]) == [sliced[1], sliced[2]];
    assert InsertByStart(sliced[2], [sliced[0], sliced[1]]) == sliced;
  }

  lemma LateCarve()
    ensures Carve(540, LateSlices(), 1320) == [Interval(1320, 1330), Interval(1320, 1360)]
  {
    var sliced := LateSlices();
    assert Carve(1320, sliced[3..], 1320) == [];
    assert Carve(1320, sliced[2..], 1320) == [Interval(1320, 1360)];
    assert Carve(1320, sliced[1..], 1320) == [Interval(1320, 1330), Interval(1320, 1360)];
  }

  /**
   * Busy intervals that start after 22:00 are clipped to inverted slices whose
   * start stays past 22:00, and the sweep turns each into a gap that runs past
   * 22:00 into the busy time: a 30-minute task then lands at 22:00–22:30, over
   * the 22:10 event.
   */
  lemma LateBusyOverlap()
    ensures !LateFree(LateCalendar())
    ensures FreeWindowsOf(LateCalendar(), 0) == [Interval(1320, 1330), Interval(1320, 1360)]
    ensures FirstFit(FreeWindowsOf(LateCalendar(), 0), 30) == Some(Interval(1320, 1350))
    ensures Overlap(Interval(1320, 1350), LateCalendar()[1])
    ensures !Inside(Interval(1320, 1350), WindowStart(0), WindowEnd(0))
  {
    var busy := LateCalendar();
    assert busy[1] in busy && MinuteOfDay(busy[1].start) > WorkEnd;
    LateDayBusy();
    LateSorted();
    LateCarve();
    var windows := [Interval(1320, 1330), Interval(1320, 1360)];
    assert FirstFitIndex(windows[1..], 30) == 0;
    assert FirstFitIndex(windows, 30) == 1;
  }

  /** The whole run on that calendar: one 30-minute task, all weekdays, deadline day 0, no cap — the one slot overlaps a fetched interval. */
  lemma LateBusyRun()
    ensures var st := Schedule(Policy(0, None, AllWeekdays()), LateCalendar(), 0, [Task(1, "write", Some(30))]);
      && st.scheduled == [Event("write", 1320, 1350)]
      && Overlap(Span(st.scheduled[0]), LateCalendar()[1])
  {
    var p := Policy(0, None, AllWeekdays());
    LateBusyOverlap();
    assert DaySlot(p, LateCalendar(), map[], 0, 30) == Some(Interval(1320, 1350));
    assert [Task(1, "write", Some(30))][..0] == [];
  }

  /**
   * A single busy interval from 23:50 to 23:55 becomes an inverted slice that
   * starts after 22:00, so the day's one window runs from 09:00 to 23:50 and a
   * 14-hour task, longer than the working window, is placed at 09:00–23:00.
   */
  lemma LateBusyOversized()
    ensures !LateFree([Interval(1430, 1435)])
    ensures FreeWindowsOf([Interval(1430, 1435)], 0) == [Interval(540, 1430)]
    ensures var st := Schedule(Policy(0, None, AllWeekdays()), [Interval(1430, 1435)], 0, [Task(1, "study", Some(840))]);
      && st.scheduled == [Event("study", 540, 1380)]
      && Duration(Task(1, "study", Some(840))) > WorkEnd - WorkStart
      && !Inside(Span(st.scheduled[0]), WindowStart(0), WindowEnd(0))
  {
    var busy := [Interval(1430, 1435)];
    var p := Policy(0, None, AllWeekdays());
    assert busy[0] in busy && MinuteOfDay(busy[0].start) > WorkEnd;
    assert busy[..0] == [];
    assert DayBusy(busy, 0) == [Interval(1430, 1320)];
    assert SortByStart([Interval(1430, 1320)]) == [Interval(1430, 1320)];
    assert Carve(540, [Interval(1430, 1320)], 1320) == [Interval(540, 1430)];
    OnlyWindowSlot(p, busy, map[], 0, 840, Interval(540, 1430));
    assert [Task(1, "study", Some(840))][..0] == [];
  }
}
