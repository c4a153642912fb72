/**
 * What a run of the scheduler guarantees: every task is accounted for once and
 * in order, slots keep the task's duration, fall on allowed days between the
 * start date and the deadline, respect the daily cap, come in non-decreasing
 * date order, and — as long as no busy interval starts after 22:00 of its own
 * day — stay inside 09:00–22:00 and overlap nothing.
 */
module ScheduleProperties {
  import opened Wrappers
  import opened Clock
  import opened FreeWindows
  import opened Weekdays
  import opened Scheduler

  /** The time an event occupies. */
  function Span(e: Event): Interval {
    Interval(e.start, e.end)
  }

  function Spans(events: seq<Event>): (r: seq<Interval>)
    ensures |r| == |events|
    ensures forall i :: 0 <= i < |events| ==> r[i] == Span(events[i])
  {
    seq(|events|, i requires 0 <= i < |events| => Span(events[i]))
  }

  /** The `scheduled` entries implied by per-task outcomes: one per placed task, in task order. */
  function EventsOf(tasks: seq<Task>, outcomes: seq<Option<Interval>>): seq<Event>
    requires |tasks| == |outcomes|
  {
    if tasks == [] then []
    else
      var n := |tasks| - 1;
      EventsOf(tasks[..n], outcomes[..n])
      + (if outcomes[n].Some? then [Event(tasks[n].text, outcomes[n].value.start, outcomes[n].value.end)] else [])
  }

  /** The `unscheduled` entries implied by per-task outcomes: one per task left out, in task order. */
  function UnplacedOf(tasks: seq<Task>, outcomes: seq<Option<Interval>>): seq<Unplaced>
    requires |tasks| == |outcomes|
  {
    if tasks == [] then []
    else
      var n := |tasks| - 1;
      UnplacedOf(tasks[..n], outcomes[..n])
      + (if outcomes[n].None? then [Unplaced(tasks[n].id, tasks[n].text)] else [])
  }

  /** The minutes of the events that start on `day`. */
  function Used(events: seq<Event>, day: int): int {
    if events == [] then 0
    else
      var n := |events| - 1;
      Used(events[..n], day) + (if Day(events[n].start) == day then events[n].end - events[n].start else 0)
  }

  /** A slot of positive length on an allowed weekday between the start date and the deadline, from 09:00 and ending before midnight. */
  ghost predicate WellPlaced(p: Policy, startDay: int, e: Event) {
    && startDay <= Day(e.start) <= p.deadline
    && Weekday(Day(e.start)) in p.allowed
    && WindowStart(Day(e.start)) <= e.start < e.end < At(Day(e.start) + 1, 0)
  }

  ghost predicate DatesNonDecreasing(events: seq<Event>) {
    forall i, j :: 0 <= i < j < |events| ==> Day(events[i].start) <= Day(events[j].start)
  }

  /** Inside 09:00–22:00, clear of every fetched busy interval and of every other slot of the run. */
  ghost predicate Conflictless(fetched: seq<Interval>, events: seq<Event>) {
    && (forall e :: e in events ==> Inside(Span(e), WindowStart(Day(e.start)), WindowEnd(Day(e.start))))
    && (forall e, b :: e in events && b in fetched ==> !Overlap(Span(e), b))
    && (forall i, j :: 0 <= i < |events| && 0 <= j < |events| && i != j ==> !Overlap(Span(events[i]), Span(events[j])))
  }

  ghost predicate PositiveDurations(tasks: seq<Task>) {
    forall t :: t in tasks ==> Duration(t) > 0
  }

  /** Each task handled so far has one outcome, the output lists are the ones those outcomes imply, and a placed slot keeps its task's duration. */
  ghost predicate Traced(tasks: seq<Task>, outcomes: seq<Option<Interval>>, scheduled: seq<Event>, unscheduled: seq<Unplaced>) {
    && |outcomes| == |tasks|
    && scheduled == EventsOf(tasks, outcomes)
    && unscheduled == UnplacedOf(tasks, outcomes)
    && forall k :: 0 <= k < |tasks| && outcomes[k].Some? ==>
         outcomes[k].value.end - outcomes[k].value.start == Duration(tasks[k])
  }

  /** The busy list is the fetched one plus every slot placed, the per-day minutes are those of the placed slots, and no day exceeds the cap (a negative cap admits nothing). */
  ghost predicate Booked(fetched: seq<Interval>, busy: seq<Interval>, used: map<int, int>, scheduled: seq<Event>, cap: Option<int>) {
    && busy == fetched + Spans(scheduled)
    && (forall day :: UsedOn(used, day) == Used(scheduled, day))
    && (cap.Some? ==> forall day :: Used(scheduled, day) <= Max(cap.value, 0))
  }

  /** Where the cursor stands: 09:00 of the start date until a task is placed, then the end of the last slot. */
  function CursorAfter(startDay: int, scheduled: seq<Event>): int {
    if scheduled == [] then WindowStart(startDay) else scheduled[|scheduled| - 1].end
  }

  /** Every slot is well placed, dates never go back, and the cursor stands at `CursorAfter`, on the date of the last slot and not before the start date. */
  ghost predicate Placed(p: Policy, startDay: int, cursor: int, scheduled: seq<Event>) {
    && (forall e :: e in scheduled ==> WellPlaced(p, startDay, e))
    && DatesNonDecreasing(scheduled)
    && cursor == CursorAfter(startDay, scheduled)
    && startDay <= Day(cursor)
    && (scheduled != [] ==> Day(scheduled[|scheduled| - 1].start) == Day(cursor))
  }

  /** Without late busy starts: no conflicts, and no placed task is longer than the working window. */
  ghost predicate Safe(fetched: seq<Interval>, tasks: seq<Task>, outcomes: seq<Option<Interval>>, scheduled: seq<Event>)
    requires |outcomes| == |tasks|
  {
    LateFree(fetched) ==>
      && Conflictless(fetched, scheduled)
      && forall k :: 0 <= k < |tasks| && outcomes[k].Some? ==> Duration(tasks[k]) <= WorkEnd - WorkStart
  }

  /** What holds after the tasks `tasks` have been handled, ending in state `st`. */
  ghost predicate Inv(p: Policy, fetched: seq<Interval>, startDay: int, tasks: seq<Task>, st: State) {
    && Traced(tasks, st.outcomes, st.scheduled, st.unscheduled)
    && Booked(fetched, st.busy, st.used, st.scheduled, p.cap)
    && Placed(p, startDay, st.cursor, st.scheduled)
    && Safe(fetched, tasks, st.outcomes, st.scheduled)
  }

  // ------------------------------------------------------------ one day, one search

  /** A slot found on a day: the day passed the weekday and cap tests, the slot keeps the duration and lies in that day from 09:00; without late busy starts it is inside 09:00–22:00 and clear of every busy interval. */
  lemma DaySlotFacts(p: Policy, busy: seq<Interval>, used: map<int, int>, day: int, duration: int)
    requires DaySlot(p, busy, used, day, duration).Some?
    requires duration > 0
    ensures Weekday(day) in p.allowed
    ensures CapAllows(UsedOn(used, day), duration, p.cap)
    ensures var s := DaySlot(p, busy, used, day, duration).value;
      && s.end - s.start == duration
      && WindowStart(day) <= s.start < s.end < At(day + 1, 0)
      && Day(s.start) == day && Day(s.end) == day
    ensures LateFree(busy) ==>
      var s := DaySlot(p, busy, used, day, duration).value;
      && Inside(s, WindowStart(day), WindowEnd(day))
      && forall b :: b in busy ==> !Overlap(s, b)
  {
    var windows := FreeWindowsOf(busy, day);
    var s := DaySlot(p, busy, used, day, duration).value;
    var k := FirstFitIndex(windows, duration);
    var w := windows[k];
    assert w in windows;
    FreeWindowsShape(busy, day);
    InDay(s.start, day);
    InDay(s.end, day);
    if LateFree(busy) {
      FreeWindowsSafe(busy, day);
      forall b | b in busy ensures !Overlap(s, b) {
        assert !Overlap(w, b);
      }
    }
  }

  /** A slot found on a day lies on that day. */
  lemma DaySlotOnDay(p: Policy, busy: seq<Interval>, used: map<int, int>, day: int, duration: int)
    requires DaySlot(p, busy, used, day, duration).Some?
    requires duration > 0
    ensures Day(DaySlot(p, busy, used, day, duration).value.start) == day
  {
    var windows := FreeWindowsOf(busy, day);
    var k := FirstFitIndex(windows, duration);
    assert windows[k] in windows;
    FreeWindowsShape(busy, day);
    InDay(windows[k].start, day);
  }

  /** `s` comes from the earliest day from `day0` onward that yields a slot, and that day is no later than the deadline. */
  ghost predicate FirstFound(p: Policy, busy: seq<Interval>, used: map<int, int>, day0: int, duration: int, s: Interval) {
    && day0 <= Day(s.start) <= p.deadline
    && DaySlot(p, busy, used, Day(s.start), duration) == Some(s)
    && forall day :: day0 <= day < Day(s.start) ==> DaySlot(p, busy, used, day, duration).None?
  }

  /**
   * First fit across days: the search from `day0` finds nothing exactly when no
   * day from `day0` to the deadline yields a slot; otherwise the slot comes from
   * the earliest such day, which lies in that range.
   */
  lemma {:induction false} SearchIsFirstFit(p: Policy, busy: seq<Interval>, used: map<int, int>, day0: int, duration: int)
    requires duration > 0
    ensures SearchFrom(p, busy, used, day0, duration).None? <==>
      forall day :: day0 <= day <= p.deadline ==> DaySlot(p, busy, used, day, duration).None?
    ensures SearchFrom(p, busy, used, day0, duration).Some? ==>
      FirstFound(p, busy, used, day0, duration, SearchFrom(p, busy, used, day0, duration).value)
    decreases p.deadline - day0
  {
    if day0 <= p.deadline {
      var here := DaySlot(p, busy, used, day0, duration);
      if here.Some? {
        DaySlotOnDay(p, busy, used, day0, duration);
        assert SearchFrom(p, busy, used, day0, duration) == here;
        assert FirstFound(p, busy, used, day0, duration, here.value);
      } else {
        var rest := SearchFrom(p, busy, used, day0 + 1, duration);
        SearchIsFirstFit(p, busy, used, day0 + 1, duration);
        assert SearchFrom(p, busy, used, day0, duration) == rest;
        if rest.None? {
          forall day | day0 <= day <= p.deadline ensures DaySlot(p, busy, used, day, duration).None? {
            if day != day0 {
              assert day0 + 1 <= day;
            }
          }
        } else {
          var s := rest.value;
          forall day | day0 <= day < Day(s.start) ensures DaySlot(p, busy, used, day, duration).None? {
            if day != day0 {
              assert day0 + 1 <= day;
            }
          }
          assert FirstFound(p, busy, used, day0, duration, s);
        }
      }
    }
  }

  /** A stretch of `duration` minutes inside 09:00–22:00 of `day` that overlaps no busy interval. */
  ghost predicate FreeStretch(busy: seq<Interval>, day: int, s: Interval, duration: int) {
    && s.end - s.start == duration
    && Inside(s, WindowStart(day), WindowEnd(day))
    && forall b :: b in busy ==> !Overlap(s, b)
  }

  /** The day passes the weekday test and still has room for `duration` under the cap. */
  ghost predicate Eligible(p: Policy, used: map<int, int>, day: int, duration: int) {
    Weekday(day) in p.allowed && CapAllows(UsedOn(used, day), duration, p.cap)
  }

  /** A day that passes both tests and has a free stretch of the duration yields a slot, starting no later than that stretch. */
  lemma DaySlotComplete(p: Policy, busy: seq<Interval>, used: map<int, int>, day: int, duration: int, s: Interval)
    requires Proper(busy) && duration > 0
    requires Eligible(p, used, day, duration)
    requires FreeStretch(busy, day, s, duration)
    ensures DaySlot(p, busy, used, day, duration).Some?
    ensures DaySlot(p, busy, used, day, duration).value.start <= s.start
  {
    var windows := FreeWindowsOf(busy, day);
    assert DaySlot(p, busy, used, day, duration) == FirstFit(windows, duration);
    FreeWindowsCover(busy, day, s);
    FreeWindowsShape(busy, day);
    FirstFitCovers(windows, duration, s);
  }

  /**
   * The walk misses no room: when some day from `day0` to the deadline passes
   * both tests and has a free stretch of the duration, the walk finds a slot
   * that starts no later than that stretch.
   */
  lemma SearchMissesNoRoom(p: Policy, busy: seq<Interval>, used: map<int, int>, day0: int, duration: int)
    requires Proper(busy) && duration > 0
    ensures forall day, s :: day0 <= day <= p.deadline && Eligible(p, used, day, duration) && FreeStretch(busy, day, s, duration) ==>
      SearchFrom(p, busy, used, day0, duration).Some? && SearchFrom(p, busy, used, day0, duration).value.start <= s.start
  {
    forall day, s | day0 <= day <= p.deadline && Eligible(p, used, day, duration) && FreeStretch(busy, day, s, duration)
      ensures SearchFrom(p, busy, used, day0, duration).Some? && SearchFrom(p, busy, used, day0, duration).value.start <= s.start
    {
      RoomFound(p, busy, used, day0, duration, day, s);
    }
  }

  /** One free stretch on one eligible day within the walk's range: the walk finds a slot no later than it. */
  lemma RoomFound(p: Policy, busy: seq<Interval>, used: map<int, int>, day0: int, duration: int, day: int, s: Interval)
    requires Proper(busy) && duration > 0
    requires day0 <= day <= p.deadline && Eligible(p, used, day, duration) && FreeStretch(busy, day, s, duration)
    ensures SearchFrom(p, busy, used, day0, duration).Some? && SearchFrom(p, busy, used, day0, duration).value.start <= s.start
  {
    DaySlotComplete(p, busy, used, day, duration, s);
    SearchFindsBy(p, busy, used, day0, duration, day);
    var found := SearchFrom(p, busy, used, day0, duration).value;
    FoundNoLater(p, busy, used, day0, duration, found, day);
    if Day(found.start) < day {
      DayBounds(found.start);
      assert found.start < At(day, 0);
    }
  }

  /** When some day in range yields a slot, the walk finds one, on the earliest such day. */
  lemma SearchFindsBy(p: Policy, busy: seq<Interval>, used: map<int, int>, day0: int, duration: int, day: int)
    requires duration > 0
    requires day0 <= day <= p.deadline && DaySlot(p, busy, used, day, duration).Some?
    ensures SearchFrom(p, busy, used, day0, duration).Some?
    ensures FirstFound(p, busy, used, day0, duration, SearchFrom(p, busy, used, day0, duration).value)
  {
    SearchIsFirstFit(p, busy, used, day0, duration);
  }

  /** The earliest day that yields a slot is no later than any day in range that yields one. */
  lemma FoundNoLater(p: Policy, busy: seq<Interval>, used: map<int, int>, day0: int, duration: int, found: Interval, day: int)
    requires FirstFound(p, busy, used, day0, duration, found)
    requires day0 <= day && DaySlot(p, busy, used, day, duration).Some?
    ensures Day(found.start) <= day
  {
  }

  // ------------------------------------------------------------ bookkeeping

  lemma {:induction false} Partition(tasks: seq<Task>, outcomes: seq<Option<Interval>>)
    requires |tasks| == |outcomes|
    ensures |EventsOf(tasks, outcomes)| + |UnplacedOf(tasks, outcomes)| == |tasks|
  {
    if tasks != [] {
      var n := |tasks| - 1;
      Partition(tasks[..n], outcomes[..n]);
    }
  }

  /** Busy intervals the run appends never start after 22:00, so the precondition carries over. */
  lemma LateFreeKept(fetched: seq<Interval>, events: seq<Event>)
    requires LateFree(fetched)
    requires forall e :: e in events ==> e.start < e.end
    requires forall e :: e in events ==> Inside(Span(e), WindowStart(Day(e.start)), WindowEnd(Day(e.start)))
    ensures LateFree(fetched + Spans(events))
  {
    forall b | b in fetched + Spans(events)
      ensures MinuteOfDay(b.start) <= WorkEnd
    {
      if b !in fetched {
        var i :| 0 <= i < |Spans(events)| && Spans(events)[i] == b;
        assert events[i] in events;
        DayBounds(b.start);
      }
    }
  }

  /** What the search guarantees about a slot it finds, in terms of the slot alone. */
  lemma SlotFound(p: Policy, busy: seq<Interval>, used: map<int, int>, day0: int, duration: int)
    requires duration > 0
    requires SearchFrom(p, busy, used, day0, duration).Some?
    ensures var s := SearchFrom(p, busy, used, day0, duration).value;
      var day := Day(s.start);
      && day0 <= day <= p.deadline
      && Weekday(day) in p.allowed
      && CapAllows(UsedOn(used, day), duration, p.cap)
      && s.end - s.start == duration
      && WindowStart(day) <= s.start < s.end < At(day + 1, 0)
      && Day(s.end) == day
      && (LateFree(busy) ==> Inside(s, WindowStart(day), WindowEnd(day)) && forall b :: b in busy ==> !Overlap(s, b))
  {
    SearchIsFirstFit(p, busy, used, day0, duration);
    var s := SearchFrom(p, busy, used, day0, duration).value;
    DaySlotFacts(p, busy, used, Day(s.start), duration);
  }

  lemma TracedNone(tasks: seq<Task>, outcomes: seq<Option<Interval>>, scheduled: seq<Event>, unscheduled: seq<Unplaced>, t: Task)
    requires Traced(tasks, outcomes, scheduled, unscheduled)
    ensures Traced(tasks + [t], outcomes + [None], scheduled, unscheduled + [Unplaced(t.id, t.text)])
  {
    var n := |tasks|;
    assert (tasks + [t])[..n] == tasks;
    assert (outcomes + [None])[..n] == outcomes;
  }

  lemma TracedSome(tasks: seq<Task>, outcomes: seq<Option<Interval>>, scheduled: seq<Event>, unscheduled: seq<Unplaced>, t: Task, s: Interval)
    requires Traced(tasks, outcomes, scheduled, unscheduled)
    requires s.end - s.start == Duration(t)
    ensures Traced(tasks + [t], outcomes + [Some(s)], scheduled + [Event(t.text, s.start, s.end)], unscheduled)
  {
    var n := |tasks|;
    assert (tasks + [t])[..n] == tasks;
    assert (outcomes + [Some(s)])[..n] == outcomes;
  }

  lemma UsedAppend(events: seq<Event>, e: Event, day: int)
    ensures Used(events + [e], day) == Used(events, day) + (if Day(e.start) == day then e.end - e.start else 0)
  {
    assert (events + [e])[..|events|] == events;
  }

  lemma BookedSome(fetched: seq<Interval>, busy: seq<Interval>, used: map<int, int>, scheduled: seq<Event>, cap: Option<int>, e: Event, duration: int)
    requires Booked(fetched, busy, used, scheduled, cap)
    requires e.end - e.start == duration
    requires CapAllows(UsedOn(used, Day(e.start)), duration, cap)
    ensures Booked(fetched, busy + [Span(e)], used[Day(e.start) := UsedOn(used, Day(e.start)) + duration], scheduled + [e], cap)
  {
    assert Spans(scheduled + [e]) == Spans(scheduled) + [Span(e)];
    forall day ensures Used(scheduled + [e], day) == Used(scheduled, day) + (if Day(e.start) == day then duration else 0) {
      UsedAppend(scheduled, e, day);
    }
  }

  lemma PlacedSome(p: Policy, startDay: int, cursor: int, scheduled: seq<Event>, e: Event)
    requires Placed(p, startDay, cursor, scheduled)
    requires Day(cursor) <= Day(e.start)
    requires WellPlaced(p, Day(cursor), e)
    requires Day(e.end) == Day(e.start)
    ensures Placed(p, startDay, e.end, scheduled + [e])
  {
    var r := scheduled + [e];
    forall i, j | 0 <= i < j < |r| ensures Day(r[i].start) <= Day(r[j].start) {
      if j == |scheduled| {
        assert r[i] == scheduled[i];
      }
    }
  }

  lemma SafeNone(fetched: seq<Interval>, tasks: seq<Task>, outcomes: seq<Option<Interval>>, scheduled: seq<Event>, t: Task)
    requires |outcomes| == |tasks|
    requires Safe(fetched, tasks, outcomes, scheduled)
    ensures Safe(fetched, tasks + [t], outcomes + [None], scheduled)
  {
    if LateFree(fetched) {
      var ts, os := tasks + [t], outcomes + [None];
      forall k | 0 <= k < |ts| && os[k].Some? ensures Duration(ts[k]) <= WorkEnd - WorkStart {
        assert k < |tasks| && ts[k] == tasks[k] && os[k] == outcomes[k];
      }
    }
  }

  lemma SafeSome(p: Policy, startDay: int, fetched: seq<Interval>, tasks: seq<Task>, outcomes: seq<Option<Interval>>, scheduled: seq<Event>, t: Task, s: Interval)
    requires |outcomes| == |tasks|
    requires Safe(fetched, tasks, outcomes, scheduled)
    requires forall e :: e in scheduled ==> WellPlaced(p, startDay, e)
    requires s.end - s.start == Duration(t)
    requires Day(s.start) == Day(s.end)
    requires LateFree(fetched + Spans(scheduled)) ==>
      Inside(s, WindowStart(Day(s.start)), WindowEnd(Day(s.start))) && forall b :: b in fetched + Spans(scheduled) ==> !Overlap(s, b)
    ensures Safe(fetched, tasks + [t], outcomes + [Some(s)], scheduled + [Event(t.text, s.start, s.end)])
  {
    if LateFree(fetched) {
      var e := Event(t.text, s.start, s.end);
      var r := scheduled + [e];
      var busy := fetched + Spans(scheduled);
      LateFreeKept(fetched, scheduled);
      assert Span(e) == s;
      forall i | 0 <= i < |scheduled| ensures !Overlap(s, Span(scheduled[i])) && !Overlap(Span(scheduled[i]), s) {
        assert Spans(scheduled)[i] in busy;
      }
      forall i, j | 0 <= i < |r| && 0 <= j < |r| && i != j ensures !Overlap(Span(r[i]), Span(r[j])) {
        if i < |scheduled| && j < |scheduled| {
          assert r[i] == scheduled[i] && r[j] == scheduled[j];
        } else if i < |scheduled| {
          assert r[i] == scheduled[i] && r[j] == e;
        } else {
          assert r[j] == scheduled[j] && r[i] == e;
        }
      }
      forall x | x in r ensures Inside(Span(x), WindowStart(Day(x.start)), WindowEnd(Day(x.start))) {
        if x != e {
          assert x in scheduled;
        }
      }
      forall x, b | x in r && b in fetched ensures !Overlap(Span(x), b) {
        if x != e {
          assert x in scheduled;
        } else {
          assert b in busy;
        }
      }
      var ts, os := tasks + [t], outcomes + [Some(s)];
      forall k | 0 <= k < |ts| && os[k].Some? ensures Duration(ts[k]) <= WorkEnd - WorkStart {
        if k < |tasks| {
          assert ts[k] == tasks[k] && os[k] == outcomes[k];
        }
      }
    }
  }

  /** Leaving a task out, when the walk finds nothing, keeps the invariant. */
  lemma LeaveOutKeepsInv(p: Policy, fetched: seq<Interval>, startDay: int, tasks: seq<Task>, st: State, t: Task)
    requires Inv(p, fetched, startDay, tasks, st)
    requires SearchFrom(p, st.busy, st.used, Day(st.cursor), Duration(t)).None?
    ensures Inv(p, fetched, startDay, tasks + [t], Place(p, st, t))
  {
    TracedNone(tasks, st.outcomes, st.scheduled, st.unscheduled, t);
    SafeNone(fetched, tasks, st.outcomes, st.scheduled, t);
    assert Place(p, st, t) == st.(unscheduled := st.unscheduled + [Unplaced(t.id, t.text)], outcomes := st.outcomes + [None]);
  }

  /** Placing a task in the slot the walk found keeps the invariant. */
  lemma PlaceFoundKeepsInv(p: Policy, fetched: seq<Interval>, startDay: int, tasks: seq<Task>, st: State, t: Task)
    requires Inv(p, fetched, startDay, tasks, st)
    requires Duration(t) > 0
    requires SearchFrom(p, st.busy, st.used, Day(st.cursor), Duration(t)).Some?
    ensures Inv(p, fetched, startDay, tasks + [t], Place(p, st, t))
  {
    var d := Duration(t);
    var s := SearchFrom(p, st.busy, st.used, Day(st.cursor), d).value;
    SlotFound(p, st.busy, st.used, Day(st.cursor), d);
    var e := Event(t.text, s.start, s.end);
    assert Span(e) == s;
    TracedSome(tasks, st.outcomes, st.scheduled, st.unscheduled, t, s);
    BookedSome(fetched, st.busy, st.used, st.scheduled, p.cap, e, d);
    PlacedSome(p, startDay, st.cursor, st.scheduled, e);
    SafeSome(p, startDay, fetched, tasks, st.outcomes, st.scheduled, t, s);
    assert Place(p, st, t) == State(st.busy + [s], st.used[Day(s.start) := UsedOn(st.used, Day(s.start)) + d], s.end,
      st.scheduled + [e], st.unscheduled, st.outcomes + [Some(s)]);
  }

  /** Handling one more task keeps the invariant. */
  lemma PlaceKeepsInv(p: Policy, fetched: seq<Interval>, startDay: int, tasks: seq<Task>, st: State, t: Task)
    requires Inv(p, fetched, startDay, tasks, st)
    requires Duration(t) > 0
    ensures Inv(p, fetched, startDay, tasks + [t], Place(p, st, t))
  {
    if SearchFrom(p, st.busy, st.used, Day(st.cursor), Duration(t)).None? {
      LeaveOutKeepsInv(p, fetched, startDay, tasks, st, t);
    } else {
      PlaceFoundKeepsInv(p, fetched, startDay, tasks, st, t);
    }
  }

  /** The invariant after any prefix of the tasks. */
  lemma {:induction false} RunKeepsInv(p: Policy, fetched: seq<Interval>, start: int, tasks: seq<Task>)
    requires PositiveDurations(tasks)
    ensures Inv(p, fetched, Day(start), tasks, Schedule(p, fetched, start, tasks))
  {
    if tasks == [] {
      DayOfAt(Day(start), WorkStart);
      assert Spans([]) == [];
    } else {
      var n := |tasks| - 1;
      assert tasks[n] in tasks;
      RunKeepsInv(p, fetched, start, tasks[..n]);
      PlaceKeepsInv(p, fetched, Day(start), tasks[..n], Schedule(p, fetched, start, tasks[..n]), tasks[n]);
      assert tasks[..n] + [tasks[n]] == tasks;
    }
  }

  // ------------------------------------------------------------ the guarantees of a run

  /** Each task has exactly one outcome; `scheduled` lists the placed ones with their text as summary, `unscheduled` the others with id and text, both in input order. */
  lemma SchedulePartition(p: Policy, fetched: seq<Interval>, start: int, tasks: seq<Task>)
    requires PositiveDurations(tasks)
    ensures |Schedule(p, fetched, start, tasks).outcomes| == |tasks|
    ensures Schedule(p, fetched, start, tasks).scheduled == EventsOf(tasks, Schedule(p, fetched, start, tasks).outcomes)
    ensures Schedule(p, fetched, start, tasks).unscheduled == UnplacedOf(tasks, Schedule(p, fetched, start, tasks).outcomes)
    ensures |Schedule(p, fetched, start, tasks).scheduled| + |Schedule(p, fetched, start, tasks).unscheduled| == |tasks|
  {
    RunKeepsInv(p, fetched, start, tasks);
    Partition(tasks, Schedule(p, fetched, start, tasks).outcomes);
  }

  /** A placed task's slot is one interval of exactly its duration, on an allowed weekday between the start date and the deadline, from 09:00 and before midnight. */
  lemma ScheduleSlots(p: Policy, fetched: seq<Interval>, start: int, tasks: seq<Task>)
    requires PositiveDurations(tasks)
    ensures |Schedule(p, fetched, start, tasks).outcomes| == |tasks|
    ensures forall k :: 0 <= k < |tasks| && Schedule(p, fetched, start, tasks).outcomes[k].Some? ==>
      Schedule(p, fetched, start, tasks).outcomes[k].value.end - Schedule(p, fetched, start, tasks).outcomes[k].value.start
        == Duration(tasks[k])
    ensures forall e :: e in Schedule(p, fetched, start, tasks).scheduled ==> WellPlaced(p, Day(start), e)
  {
    RunKeepsInv(p, fetched, start, tasks);
  }

  /** With a cap, no day carries more scheduled minutes than the cap. */
  lemma ScheduleRespectsCap(p: Policy, fetched: seq<Interval>, start: int, tasks: seq<Task>, day: int)
    requires PositiveDurations(tasks)
    requires p.cap.Some?
    ensures Used(Schedule(p, fetched, start, tasks).scheduled, day) <= Max(p.cap.value, 0)
  {
    RunKeepsInv(p, fetched, start, tasks);
  }

  /** Later scheduled entries never fall on an earlier date. */
  lemma ScheduleDatesNonDecreasing(p: Policy, fetched: seq<Interval>, start: int, tasks: seq<Task>)
    requires PositiveDurations(tasks)
    ensures DatesNonDecreasing(Schedule(p, fetched, start, tasks).scheduled)
  {
    RunKeepsInv(p, fetched, start, tasks);
  }

  /** A placement records the search's answer as the task's outcome. */
  lemma PlaceOutcome(p: Policy, st: State, t: Task)
    ensures Place(p, st, t).outcomes == st.outcomes + [SearchFrom(p, st.busy, st.used, Day(st.cursor), Duration(t))]
  {
  }

  /** A run adds one outcome per task, and the run over a prefix of the tasks records a prefix of the outcomes. */
  lemma {:induction false} OutcomesPrefix(p: Policy, st: State, tasks: seq<Task>, m: nat)
    requires m <= |tasks|
    ensures |Run(p, st, tasks).outcomes| == |st.outcomes| + |tasks|
    ensures Run(p, st, tasks[..m]).outcomes == Run(p, st, tasks).outcomes[..|st.outcomes| + m]
  {
    if tasks == [] {
      assert tasks[..m] == tasks;
    } else {
      var n := |tasks| - 1;
      var prev := Run(p, st, tasks[..n]);
      assert Run(p, st, tasks) == Place(p, prev, tasks[n]);
      PlaceOutcome(p, prev, tasks[n]);
      if m <= n {
        OutcomesPrefix(p, st, tasks[..n], m);
        assert tasks[..n][..m] == tasks[..m];
        var x := SearchFrom(p, prev.busy, prev.used, Day(prev.cursor), Duration(tasks[n]));
        assert (prev.outcomes + [x])[..|st.outcomes| + m] == prev.outcomes[..|st.outcomes| + m];
      } else {
        OutcomesPrefix(p, st, tasks[..n], n);
        assert tasks[..m] == tasks;
      }
    }
  }

  /** The cursor after any prefix of the tasks: 09:00 of the start date until a task is placed, then the end of the last slot, so a task left out leaves it where it was. */
  lemma ScheduleCursor(p: Policy, fetched: seq<Interval>, start: int, tasks: seq<Task>)
    requires PositiveDurations(tasks)
    ensures Schedule(p, fetched, start, tasks).cursor == CursorAfter(Day(start), Schedule(p, fetched, start, tasks).scheduled)
  {
    RunKeepsInv(p, fetched, start, tasks);
  }

  /** Task k's outcome in a run is the walk's answer from the state the earlier tasks left. */
  lemma OutcomeAt(p: Policy, init: State, tasks: seq<Task>, k: int)
    requires 0 <= k < |tasks|
    ensures |Run(p, init, tasks).outcomes| == |init.outcomes| + |tasks|
    ensures Run(p, init, tasks).outcomes[|init.outcomes| + k]
      == SearchFrom(p, Run(p, init, tasks[..k]).busy, Run(p, init, tasks[..k]).used, Day(Run(p, init, tasks[..k]).cursor), Duration(tasks[k]))
  {
    var before := Run(p, init, tasks[..k]);
    var upTo := tasks[..k + 1];
    OutcomesPrefix(p, init, tasks, k + 1);
    OutcomesPrefix(p, init, tasks[..k], k);
    assert upTo[..k] == tasks[..k] && upTo[k] == tasks[k];
    assert Run(p, init, upTo) == Place(p, before, tasks[k]);
    PlaceOutcome(p, before, tasks[k]);
    assert Run(p, init, upTo).outcomes[|init.outcomes| + k] == Run(p, init, tasks).outcomes[|init.outcomes| + k];
  }

  /**
   * First fit at every step of a run: task k is left out exactly when no day
   * from the cursor's date to the deadline yields a slot in the state the
   * earlier tasks left, and otherwise it takes the slot of the earliest such
   * day. The walk starts on the start date until a task has been placed, and
   * on the date of the last placed slot afterwards.
   */
  lemma ScheduleFirstFit(p: Policy, fetched: seq<Interval>, start: int, tasks: seq<Task>, k: int)
    requires PositiveDurations(tasks)
    requires 0 <= k < |tasks|
    ensures |Schedule(p, fetched, start, tasks).outcomes| == |tasks|
    ensures var before := Schedule(p, fetched, start, tasks[..k]);
      Day(before.cursor) == (if before.scheduled == [] then Day(start) else Day(before.scheduled[|before.scheduled| - 1].start))
    ensures var before := Schedule(p, fetched, start, tasks[..k]);
      var outcome := Schedule(p, fetched, start, tasks).outcomes[k];
      && (outcome.None? <==>
            forall day :: Day(before.cursor) <= day <= p.deadline ==> DaySlot(p, before.busy, before.used, day, Duration(tasks[k])).None?)
      && (outcome.Some? ==> FirstFound(p, before.busy, before.used, Day(before.cursor), Duration(tasks[k]), outcome.value))
  {
    var init := Initial(fetched, start);
    var before := Run(p, init, tasks[..k]);
    assert tasks[k] in tasks;
    OutcomeAt(p, init, tasks, k);
    assert Schedule(p, fetched, start, tasks) == Run(p, init, tasks);
    assert Schedule(p, fetched, start, tasks[..k]) == before;
    SearchIsFirstFit(p, before.busy, before.used, Day(before.cursor), Duration(tasks[k]));
    assert forall t :: t in tasks[..k] ==> t in tasks;
    RunKeepsInv(p, fetched, start, tasks[..k]);
    DayOfAt(Day(start), WorkStart);
  }

  /** Slots of positive length added to busy intervals of positive length keep them all of positive length. */
  lemma ProperKept(fetched: seq<Interval>, events: seq<Event>)
    requires Proper(fetched)
    requires forall e :: e in events ==> e.start < e.end
    ensures Proper(fetched + Spans(events))
  {
    forall b | b in fetched + Spans(events)
      ensures b.start < b.end
    {
      if b !in fetched {
        var i :| 0 <= i < |Spans(events)| && Spans(events)[i] == b;
        assert events[i] in events;
      }
    }
  }

  /**
   * No task is left out while there is room for it: when some day from the
   * cursor's date to the deadline allows its weekday, has room under the cap and
   * has a free stretch of task k's duration clear of the busy time the earlier
   * tasks left, task k is placed, starting no later than that stretch. Without
   * late busy starts the converse holds as well: the slot placed is itself such
   * a stretch, so task k is left out exactly when there is no room.
   */
  lemma ScheduleMissesNoRoom(p: Policy, fetched: seq<Interval>, start: int, tasks: seq<Task>, k: int)
    requires PositiveDurations(tasks)
    requires Proper(fetched)
    requires 0 <= k < |tasks|
    ensures |Schedule(p, fetched, start, tasks).outcomes| == |tasks|
    ensures var before := Schedule(p, fetched, start, tasks[..k]);
      var d := Duration(tasks[k]);
      var outcome := Schedule(p, fetched, start, tasks).outcomes[k];
      forall day, s :: Day(before.cursor) <= day <= p.deadline && Eligible(p, before.used, day, d) && FreeStretch(before.busy, day, s, d) ==>
        outcome.Some? && outcome.value.start <= s.start
    ensures var before := Schedule(p, fetched, start, tasks[..k]);
      var d := Duration(tasks[k]);
      var outcome := Schedule(p, fetched, start, tasks).outcomes[k];
      LateFree(fetched) && outcome.Some? ==>
        var day := Day(outcome.value.start);
        Day(before.cursor) <= day <= p.deadline && Eligible(p, before.used, day, d) && FreeStretch(before.busy, day, outcome.value, d)
  {
    var init := Initial(fetched, start);
    var before := Run(p, init, tasks[..k]);
    var d := Duration(tasks[k]);
    assert tasks[k] in tasks;
    OutcomeAt(p, init, tasks, k);
    assert Schedule(p, fetched, start, tasks) == Run(p, init, tasks);
    assert Schedule(p, fetched, start, tasks[..k]) == before;
    assert forall t :: t in tasks[..k] ==> t in tasks;
    RunKeepsInv(p, fetched, start, tasks[..k]);
    ProperKept(fetched, before.scheduled);
    SearchMissesNoRoom(p, before.busy, before.used, Day(before.cursor), d);
    if LateFree(fetched) && SearchFrom(p, before.busy, before.used, Day(before.cursor), d).Some? {
      LateFreeKept(fetched, before.scheduled);
      SlotFound(p, before.busy, before.used, Day(before.cursor), d);
    }
  }

  /** When no fetched busy interval starts after 22:00 of its day, every slot lies in 09:00–22:00 and overlaps neither a fetched interval nor another slot. */
  lemma ScheduleConflictless(p: Policy, fetched: seq<Interval>, start: int, tasks: seq<Task>)
    requires PositiveDurations(tasks)
    requires LateFree(fetched)
    ensures Conflictless(fetched, Schedule(p, fetched, start, tasks).scheduled)
  {
    RunKeepsInv(p, fetched, start, tasks);
  }

  /** Under the same condition a task longer than the 13-hour working window is never placed. */
  lemma OversizedUnscheduled(p: Policy, fetched: seq<Interval>, start: int, tasks: seq<Task>, k: int)
    requires PositiveDurations(tasks)
    requires LateFree(fetched)
    requires 0 <= k < |tasks| && Duration(tasks[k]) > WorkEnd - WorkStart
    ensures |Schedule(p, fetched, start, tasks).outcomes| == |tasks|
    ensures Schedule(p, fetched, start, tasks).outcomes[k].None?
  {
    RunKeepsInv(p, fetched, start, tasks);
  }
}
