# Task scheduler core in Dafny

A model of the two computational parts of a goal-to-calendar planner:

- **`schedule_tasks`** (calendar_integration.py). It is a greedy slot allocator:
  - Tasks are taken in input order.
  - For each task, days are walked from the cursor's date up to the deadline date.
  - A day is skipped when its weekday is not allowed or when the task would exceed the daily cap.
  - Otherwise the day's busy intervals are clipped to the 09:00–22:00 working window and sorted by start.
  - A left-to-right sweep carves the free gaps, and the task goes at the start of the first gap long enough for it.
  - A placed slot becomes busy for later tasks, its minutes are added to its day's total, and the cursor moves to its end.
- **`decide_total_tasks`** (app.py). It decides how many tasks a goal is broken into from:
  - the days left;
  - the proficiency level;
  - an optional override;
  - an optional complexity score.

Time is whole minutes on one local scale with 1440-minute days, and day 0 is a Monday:
- the date of an instant is `t / 1440`;
- its weekday is `date % 7`, with Monday = 0 as in Python's `weekday()`;
- durations and the daily cap are in minutes.

How the model is laid out:
- The scheduler is specified by pure functions (`DayBusy`, `SortByStart`, `Carve`, `FirstFit`, `DaySlot`, `SearchFrom`, `Place`, `Run`).
- The algorithm itself is written as the imperative methods `CarveSweep`, `PickSlot`, `WalkDays` and `ScheduleTasks`. Each has loops and invariants and is proved to compute exactly what those functions say.
- The guarantees of a run are proved about the functions, through one invariant that every placement keeps.

**What `schedule_tasks` does not do.** The model has exactly the behaviour of calendar_integration.py:12-177, and no more:
- No idle buffer is left after a placed task; the next task may start the minute it ends.
- There is no preferred-time-window mode; every day uses 09:00–22:00.
- The only daily cap is in hours per day; there is no cap on the number of tasks per day.
- The start date is never skipped; the walk begins on it.
- With no weekday list, all seven days are allowed, not Monday to Friday.

**The 22:00 boundary.** Clipping sets only the start to `max(09:00, start)` and the end to `min(22:00, end)`.
- A busy interval that starts after 22:00 of its own date therefore becomes an inverted slice whose start is still past 22:00.
- The sweep then emits a gap from the cursor up to that start, which runs past 22:00 into other busy time.
- Containment in 09:00–22:00 and freedom from overlap are proved under the condition that no fetched busy interval starts after 22:00 of its own date (`LateFree`); the slots the run appends keep that condition.
- `Scenarios.LateBusyOverlap` and `Scenarios.LateBusyRun` exhibit the input where it fails. The busy intervals are 09:00–22:00, 22:10–22:20 and 22:40–23:00, and a 30-minute task is placed at 22:00–22:30, over the 22:10 event.
- `Scenarios.LateBusyOversized` exhibits the same cause placing a task longer than the working window. A lone busy interval 23:50–23:55 leaves the single window 09:00–23:50, and a 14-hour task is placed at 09:00–23:00.

**No room is missed.** The carve is also complete. When every busy interval has positive length, each stretch inside 09:00–22:00 that overlaps no busy interval lies within one carved window (`FreeWindowsCover`). So a task is left out only when no day from the cursor's date to the deadline passes the weekday and cap tests and has such a stretch of its duration (`ScheduleMissesNoRoom`). A zero-length busy interval does split a window, which is why the condition is needed.

## Model

| member | source | states |
|---|---|---|
| Weekdays.AllowedWeekdays | calendar_integration.py:76-83 | the allowed set only ever holds weekday numbers 0–6 |
| Weekdays.WeekdayCode | calendar_integration.py:78 | the day-code table: MO … SU to 0 … 6, any other string unrecognised |
| Weekdays.WeekdayCodeInjective | calendar_integration.py:78 | the day-code table maps distinct codes to distinct weekdays |
| Weekdays.DefaultAllowsAll | calendar_integration.py:79-83 | a missing or empty code list allows all seven weekdays |
| Weekdays.AllowedIffNamed | calendar_integration.py:80 | with a non-empty list, a weekday is allowed exactly when some recognised code in the list names it |
| Weekdays.UnrecognisedAllowNothing | calendar_integration.py:80 | a non-empty list of only unrecognised codes allows no day, so nothing can be placed |
| Weekdays.WorkingWeek | calendar_integration.py:26 | the documented list MO–FR allows exactly Monday to Friday |
| Clock.DayOfAt | calendar_integration.py:143-149 | the next probe, 09:00 of the following date, lies on that date |
| FreeWindows.Clip | calendar_integration.py:109 | a busy interval clipped to the day's window: the later of its start and 09:00, the earlier of its end and 22:00, possibly inverted |
| FreeWindows.DayBusy | calendar_integration.py:106-112 | the clipped busy intervals whose start date is on or before the day and whose end date is on or after it, in busy-list order |
| FreeWindows.DayBusyMembers | calendar_integration.py:106-112 | the day's slices are exactly the clips of the busy intervals whose start date is on or before and whose end date on or after the day |
| FreeWindows.InsertByStart | calendar_integration.py:107-114 | one step of the stable sort: an interval goes after every interval whose start is not later |
| FreeWindows.SortByStart | calendar_integration.py:107-114 | `sorted(…, key=start)`, stable, built by insertion in input order |
| FreeWindows.InsertByStartSorted | calendar_integration.py:107-114 | inserting into a list sorted by start keeps it sorted and adds exactly the one element |
| FreeWindows.SortByStartSorted | calendar_integration.py:107-114 | the sort by start returns a permutation of its input, ordered by start |
| FreeWindows.SortedMember | calendar_integration.py:107-114 | the sort keeps exactly the same members |
| FreeWindows.Carve | calendar_integration.py:116-124 | the sweep: a gap before each slice that starts after the cursor, the cursor moved to the later of itself and the slice's end, and a last gap up to the window's end |
| FreeWindows.FreeWindowsOf | calendar_integration.py:103-124 | a day's free windows: the sweep from 09:00 to 22:00 over the day's sorted slices |
| FreeWindows.CarveShape | calendar_integration.py:116-124 | the sweep emits gaps of positive length that start no earlier than the cursor, in non-decreasing start order |
| FreeWindows.CarveBounded | calendar_integration.py:119-124 | every gap ends at a slice's start or at the window's end, so no later than any bound on those |
| FreeWindows.CarveAvoids | calendar_integration.py:119-122 | over slices sorted by start, no gap shares a minute with any slice |
| FreeWindows.FreeWindowsShape | calendar_integration.py:102-124 | a day's windows start at or after 09:00, have positive length, end before the next midnight, and come in ascending start order |
| FreeWindows.FreeWindowsSafe | calendar_integration.py:102-124 | without late busy starts, every window lies inside 09:00–22:00 and overlaps no busy interval |
| FreeWindows.CarveCovers | calendar_integration.py:116-124 | a stretch between the cursor and the window's end that every slice ends before or starts after lies within one carved gap, sorted or not |
| FreeWindows.FreeWindowsCover | calendar_integration.py:103-124 | with busy intervals of positive length, every stretch inside 09:00–22:00 that overlaps no busy interval lies within one free window |
| FreeWindows.FirstFitCovers | calendar_integration.py:126-136 | when a window of a start-sorted list holds a stretch of the duration, first fit finds a slot starting no later than that stretch |
| FreeWindows.FirstFit | calendar_integration.py:126-136 | the slot `(ws, ws + duration)` of the first window at least as long as the duration, or none |
| FreeWindows.FirstFitIndex | calendar_integration.py:127-128 | the chosen index is the first window whose length is at least the duration, or past the end when none is |
| FreeWindows.FirstFitSlot | calendar_integration.py:126-136 | first fit yields nothing exactly when no window is long enough; otherwise the slot starts at the first long-enough window, has exactly the duration and ends within that window |
| Scheduler.Duration | calendar_integration.py:87 | a task's duration, 60 minutes when `duration_hours` is absent |
| Scheduler.UsedOn | calendar_integration.py:99 | the minutes already placed on a date, 0 when none |
| Scheduler.CapAllows | calendar_integration.py:101 | no cap, or the minutes used plus the duration stay within it |
| Scheduler.DeadlineDay | calendar_integration.py:38-42 | the parsed deadline date, or seven days after today when it does not parse |
| Scheduler.DaySlot | calendar_integration.py:96-136 | one day of the walk: first fit in the day's free windows when the weekday is allowed and the cap has room, otherwise nothing |
| Scheduler.SearchFrom | calendar_integration.py:91-149 | the walk from a date to the deadline date inclusive, stopping at the first date that yields a slot |
| Scheduler.Place | calendar_integration.py:153-175 | one task: an `unscheduled` entry when the walk finds nothing; otherwise the event, the slot made busy, its minutes added to its date and the cursor moved to its end |
| Scheduler.Run | calendar_integration.py:86-175 | the tasks handled one after another in input order |
| Scheduler.Initial | calendar_integration.py:33-74 | the state before the first task: the fetched busy list, no minutes used, empty outputs, the cursor at 09:00 of the start's date |
| Scheduler.Schedule | calendar_integration.py:33-177 | the whole run from the initial state |
| Scheduler.CarveSweep | calendar_integration.py:116-124 | the carve loop computes exactly the sweep `Carve` |
| Scheduler.PickSlot | calendar_integration.py:126-137 | the scan with its repeated cap test computes exactly the first fit |
| Scheduler.WalkDays | calendar_integration.py:88-151 | the day walk from the cursor's date returns exactly the search `SearchFrom` |
| Scheduler.ScheduleTasks | calendar_integration.py:12-177 | the returned `scheduled` and `unscheduled` lists are those of the run `Schedule` on the same inputs |
| ScheduleProperties.DaySlotFacts | calendar_integration.py:96-136 | a slot found on a day means the day passed the weekday and cap tests; the slot has the task's duration and lies on that date from 09:00; without late busy starts it is inside 09:00–22:00 and clear of all busy time |
| ScheduleProperties.DaySlotComplete | calendar_integration.py:96-136 | a day that passes the weekday and cap tests and has a free stretch of the duration inside 09:00–22:00 yields a slot starting no later than that stretch |
| ScheduleProperties.SearchIsFirstFit | calendar_integration.py:91-149 | the walk finds nothing exactly when no day up to the deadline yields a slot; otherwise the slot comes from the earliest such day |
| ScheduleProperties.SearchFindsBy | calendar_integration.py:91-149 | when some date in range yields a slot, the walk finds one, on the earliest such date |
| ScheduleProperties.FoundNoLater | calendar_integration.py:91-149 | the walk's date is no later than any date in range that yields a slot |
| ScheduleProperties.RoomFound | calendar_integration.py:91-149 | a free stretch on an eligible date within the walk's range means the walk finds a slot no later than it |
| ScheduleProperties.SearchMissesNoRoom | calendar_integration.py:91-149 | the walk misses no room: it finds a slot no later than every free stretch of the duration on every eligible date up to the deadline |
| ScheduleProperties.SlotFound | calendar_integration.py:91-149 | a slot the walk finds lies between the cursor's date and the deadline, on an allowed weekday under the cap, with the task's duration, within one date |
| ScheduleProperties.Partition | calendar_integration.py:153-163 | placed plus left-out entries number exactly the tasks |
| ScheduleProperties.LateFreeKept | calendar_integration.py:166 | appending slots that lie inside 09:00–22:00 keeps every busy start at or before 22:00 |
| ScheduleProperties.TracedNone | calendar_integration.py:153-156 | a task left out adds one `{"id", "task"}` entry and no event |
| ScheduleProperties.TracedSome | calendar_integration.py:158-163 | a placed task adds one event with its text as summary and its slot |
| ScheduleProperties.UsedAppend | calendar_integration.py:169-172 | a new event adds its minutes to its own date's total only |
| ScheduleProperties.BookedSome | calendar_integration.py:166-172 | a placement keeps busy = fetched + placed slots, the per-day totals equal to the placed minutes, and every total within the cap |
| ScheduleProperties.PlacedSome | calendar_integration.py:169-175 | a placement on or after the cursor's date keeps the dates non-decreasing and moves the cursor to the new slot's date |
| ScheduleProperties.SafeNone | calendar_integration.py:153-156 | leaving a task out keeps the no-overlap and length facts |
| ScheduleProperties.SafeSome | calendar_integration.py:166 | a slot clear of all busy time keeps every slot clear of the fetched intervals and of each other |
| ScheduleProperties.LeaveOutKeepsInv | calendar_integration.py:153-156 | leaving a task out keeps the whole run invariant |
| ScheduleProperties.PlaceFoundKeepsInv | calendar_integration.py:158-175 | placing a task in the slot the walk found keeps the whole run invariant |
| ScheduleProperties.PlaceKeepsInv | calendar_integration.py:86-175 | handling one task keeps the whole run invariant |
| ScheduleProperties.RunKeepsInv | calendar_integration.py:33-175 | the invariant holds after every prefix of the tasks |
| ScheduleProperties.SchedulePartition | calendar_integration.py:86-163 | each task has exactly one outcome; `scheduled` lists the placed ones and `unscheduled` the others, both in input order |
| ScheduleProperties.ScheduleSlots | calendar_integration.py:87-135 | each slot is one interval of exactly the task's duration (60 minutes by default), on an allowed weekday between the start date and the deadline, from 09:00 and before midnight |
| ScheduleProperties.ScheduleRespectsCap | calendar_integration.py:99-101 | with a cap, no date carries more scheduled minutes than the cap, and none at all under a negative cap |
| ScheduleProperties.ScheduleDatesNonDecreasing | calendar_integration.py:169-175 | later scheduled entries never fall on an earlier date |
| ScheduleProperties.PlaceOutcome | calendar_integration.py:153-166 | a placement records the walk's answer as the task's outcome |
| ScheduleProperties.OutcomesPrefix | calendar_integration.py:86-175 | a run records one outcome per task, and a run over a prefix records a prefix of the outcomes |
| ScheduleProperties.ScheduleCursor | calendar_integration.py:33-175 | the cursor is 09:00 of the start date until a task is placed and the end of the last slot afterwards, so a task left out leaves it where it was |
| ScheduleProperties.OutcomeAt | calendar_integration.py:86-175 | task k's outcome is the walk's answer from the state the earlier tasks left |
| ScheduleProperties.ScheduleFirstFit | calendar_integration.py:86-149 | each task is left out exactly when no day from the cursor's date to the deadline yields a slot in the state the earlier tasks left, and otherwise takes the earliest such day's slot; the walk starts on the start date until a task is placed, then on the last slot's date |
| ScheduleProperties.ProperKept | calendar_integration.py:166 | appending slots of positive length keeps every busy interval of positive length |
| ScheduleProperties.ScheduleMissesNoRoom | calendar_integration.py:86-166 | with fetched intervals of positive length, task k is placed, no later than the stretch, whenever an eligible date from the cursor's date to the deadline has a free stretch of its duration; without late busy starts the slot placed is itself such a stretch, so a task is left out exactly when there is no room |
| ScheduleProperties.ScheduleConflictless | calendar_integration.py:102-166 | without late busy starts, every slot lies in 09:00–22:00 and overlaps neither a fetched interval nor another slot |
| ScheduleProperties.OversizedUnscheduled | calendar_integration.py:103-128 | without late busy starts, a task longer than the 13-hour window is never placed |
| Scenarios.EmptyDayWindow | calendar_integration.py:116-124 | a day with no busy time has exactly one window, 09:00–22:00 |
| Scenarios.FirstPlacement | calendar_integration.py:33-175 | on an empty calendar one task gives the state with its slot at 09:00 of the start date |
| Scenarios.FirstTaskAtNine | calendar_integration.py:34-36 | the first task goes at 09:00 of the start date even when the start instant is later that day |
| Scenarios.AfterFirstSlot | calendar_integration.py:103-124 | a slot from 09:00 leaves its date free from its end to 22:00 and the next date wholly free |
| Scenarios.BackToBack | calendar_integration.py:166-175 | without a cap a second task goes right after the first |
| Scenarios.CapMovesToNextDay | calendar_integration.py:97-149 | with a cap of one task's length the second task moves to 09:00 of the next date |
| Scenarios.LateBusyOverlap | calendar_integration.py:107-128 | a busy interval starting after 22:00 yields gaps past 22:00, and first fit places a 30-minute slot over the 22:10 event |
| Scenarios.LateBusyRun | calendar_integration.py:86-166 | on that calendar the whole run schedules a slot that overlaps a fetched interval |
| Scenarios.LateBusyOversized | calendar_integration.py:86-166 | a lone busy interval at 23:50 leaves the window 09:00–23:50, and a 14-hour task is placed at 09:00–23:00 |
| TaskCount.DaysLeft | app.py:184-190 | the days left are the difference from today when that is positive, 1 when the deadline is today or past, and 7 when the deadline does not parse |
| TaskCount.TotalTasks | app.py:176-223 | the number of tasks is always at least 1 |
| TaskCount.AtLeastOne | app.py:188 | `max(x, 1)` |
| TaskCount.Lower | app.py:194 | `level.lower()` on ASCII letters |
| TaskCount.MultiplierFifths | app.py:193-194 | the proficiency multiplier in fifths: easy 4, medium 5, hard 6, anything else 5 |
| TaskCount.RoundFifths | app.py:195 | `round(days × k / 5)` in whole numbers |
| TaskCount.RoundThirds | app.py:211 | `round(score / 3)` in whole numbers |
| TaskCount.MultiplierInFifths | app.py:193-194 | the multipliers 0.8, 1.0 and 1.2 (1.0 for an unknown level) are 4, 5 and 6 fifths |
| TaskCount.RoundFifthsNearest | app.py:195 | the integer formula is the nearest integer to days × multiplier, with no tie possible |
| TaskCount.RoundThirdsNearest | app.py:211 | the integer formula is the nearest integer to score / 3 for every score, with no tie possible |
| TaskCount.OverrideWins | app.py:197-202 | an override of at least 1 is returned unchanged, whatever the level, deadline or score |
| TaskCount.OverrideIgnored | app.py:197-204 | an override below 1 or one that is not a number changes nothing |
| TaskCount.WithComplexity | app.py:192-213 | with a score c the answer is max(nearest(days × multiplier) + nearest(c / 3), 1) |
| TaskCount.FallbackEasy | app.py:218-221 | without a score, "easy" in any letter case gives max(nearest(0.8 × days), 1) |
| TaskCount.FallbackOther | app.py:222-223 | without a score, every other level, "hard" included, gives the days left unscaled |
| TaskCount.HardIsScaledOnlyWithScore | app.py:193-223 | ten days at "Hard" give 10 without a score and 12 with a score of 1 |
| TaskCount.LevelCaseIrrelevant | app.py:194-219 | the level's letter case never changes the number of tasks |

## Left out

- The Google free/busy query and its `HttpError` fallback (calendar_integration.py:51-67) are not modelled. The busy intervals are an input, and a failed fetch is the empty list. `time_max` (44-49) only bounds that query.
- `create_calendar_events` and everything else outside `schedule_tasks` in calendar_integration.py is calendar I/O.
- Time zones and daylight-saving shifts are not modelled. Every day has 1440 minutes on one local scale, and seconds and microseconds are dropped.
- ISO parsing and formatting are not modelled. The start is an instant, the deadline is a parsed date or None for a parse failure, and scheduled entries carry minutes, not ISO strings.
- `datetime.utcnow()` becomes the parameter `today` in both functions.
- Scheduler.ScheduleTasks: hours become whole minutes, so the float comparisons of the cap (lines 101 and 134) are exact, and durations that are not whole minutes are out of scope.
- Scheduler.ScheduleTasks: missing `id` or `task` keys, which raise `KeyError` in the code, are not modelled.
- ScheduleProperties: the run theorems require positive durations (`PositiveDurations`), because the code does not check `duration_hours`. The functions and methods are defined for every duration.
- ScheduleProperties.ScheduleConflictless and ScheduleProperties.OversizedUnscheduled hold only when no fetched interval starts after 22:00 of its date. The code breaks them otherwise: `Scenarios.LateBusyRun` places a slot over a fetched interval and `Scenarios.LateBusyOversized` places a 14-hour task.
- ScheduleProperties.ScheduleMissesNoRoom requires every fetched busy interval to have positive length. A zero-length interval splits a window, so a stretch across it is not found.
- The Flask routes, OAuth and the session are not modelled (app.py outside lines 176-223).
- `ask_complexity_score` is not modelled. The score is an optional integer input, where None stands for no API key or a failing call. A score that is not an integer is not modelled, and `goal` is used only by that call.
- All of task_breakdown.py is left out. It is prompt construction and a network call.
- The call sites between the modules are left out because their arguments do not match the callees.
- TaskCount.TotalTasks: `int(override)` is taken as already applied (`Numeric`), or as having raised `ValueError` (`NonNumeric`). A `TypeError` from other argument types escapes in the code and is not modelled.
- TaskCount.Lower: only ASCII letters are lowered. For deciding whether the level is "easy", "medium" or "hard" this agrees with Python's Unicode `str.lower`.
