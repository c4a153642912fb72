/**
 * One day's free time: the busy intervals that touch the day are clipped to the
 * 09:00–22:00 working window, sorted by start, and a left-to-right sweep carves
 * the gaps between them; a task goes at the start of the first gap long enough
 * for it.
 */
module FreeWindows {
  import opened Wrappers
  import opened Clock

  /** The half-open span of minutes [start, end). */
  datatype Interval = Interval(start: int, end: int)

  function Max(x: int, y: int): int {
    if x >= y then x else y
  }

  function Min(x: int, y: int): int {
    if x <= y then x else y
  }

  /** The two intervals share at least one minute. */
  predicate Overlap(a: Interval, b: Interval) {
    Max(a.start, b.start) < Min(a.end, b.end)
  }

  /** `a` lies within [lo, hi]. */
  predicate Inside(a: Interval, lo: int, hi: int) {
    lo <= a.start && a.end <= hi
  }

  /** The filter of the day's busy slices: `bs.date() <= current_day <= be.date()`. */
  predicate TouchesDay(b: Interval, day: int) {
    Day(b.start) <= day <= Day(b.end)
  }

  /** `(max(start_window, bs), min(end_window, be))`; the pair may come out inverted. */
  function Clip(b: Interval, day: int): Interval {
    Interval(Max(WindowStart(day), b.start), Min(WindowEnd(day), b.end))
  }

  /** The clipped busy intervals of `day`, in the order of `busy`. */
  function DayBusy(busy: seq<Interval>, day: int): seq<Interval> {
    if busy == [] then []
    else
      var n := |busy| - 1;
      DayBusy(busy[..n], day) + (if TouchesDay(busy[n], day) then [Clip(busy[n], day)] else [])
  }

  /** The day's slices are exactly the clips of the busy intervals that touch the day. */
  lemma {:induction false} DayBusyMembers(busy: seq<Interval>, day: int)
    ensures forall b :: b in busy && TouchesDay(b, day) ==> Clip(b, day) in DayBusy(busy, day)
    ensures forall c :: c in DayBusy(busy, day) ==> exists b :: b in busy && TouchesDay(b, day) && c == Clip(b, day)
  {
    if busy != [] {
      var n := |busy| - 1;
      DayBusyMembers(busy[..n], day);
      assert busy == busy[..n] + [busy[n]];
    }
  }

  /** Starts never decrease along the sequence. */
  predicate SortedByStart(s: seq<Interval>) {
    forall i, j :: 0 <= i < j < |s| ==> s[i].start <= s[j].start
  }

  /** Inserts `x` after every element whose start is not later than its own. */
  function InsertByStart(x: Interval, s: seq<Interval>): seq<Interval> {
    if s == [] then [x]
    else if x.start < s[0].start then [x] + s
    else [s[0]] + InsertByStart(x, s[1..])
  }

  /**
   * `sorted(…, key=lambda x: x[0])`: a stable sort by start. Elements are
   * inserted in input order, each after the equal keys already placed.
   */
  function SortByStart(s: seq<Interval>): seq<Interval> {
    if s == [] then []
    else
      var n := |s| - 1;
      InsertByStart(s[n], SortByStart(s[..n]))
  }

  lemma InsertKeepsHead(x: Interval, s: seq<Interval>, rest: seq<Interval>)
    requires s != [] && SortedByStart(s) && s[0].start <= x.start
    requires multiset(rest) == multiset(s[1..]) + multiset{x}
    requires SortedByStart(rest)
    ensures SortedByStart([s[0]] + rest)
    ensures multiset([s[0]] + rest) == multiset(s) + multiset{x}
  {
    assert s == [s[0]] + s[1..];
    forall j | 0 <= j < |rest| ensures s[0].start <= rest[j].start {
      var e := rest[j];
      assert e in multiset(rest);
      if e != x {
        assert e in multiset(s[1..]);
        var k :| 0 <= k < |s[1..]| && s[1..][k] == e;
        assert s[k + 1] == e;
      }
    }
  }

  /** Inserting into a sorted list keeps it sorted and adds exactly the one element. */
  lemma {:induction false} InsertByStartSorted(x: Interval, s: seq<Interval>)
    requires SortedByStart(s)
    ensures SortedByStart(InsertByStart(x, s))
    ensures multiset(InsertByStart(x, s)) == multiset(s) + multiset{x}
  {
    if s != [] && x.start >= s[0].start {
      InsertByStartSorted(x, s[1..]);
      InsertKeepsHead(x, s, InsertByStart(x, s[1..]));
    }
  }

  /** The sort yields the same elements, ordered by start. */
  lemma {:induction false} SortByStartSorted(s: seq<Interval>)
    ensures SortedByStart(SortByStart(s))
    ensures multiset(SortByStart(s)) == multiset(s)
  {
    if s != [] {
      var n := |s| - 1;
      SortByStartSorted(s[..n]);
      InsertByStartSorted(s[n], SortByStart(s[..n]));
      assert s == s[..n] + [s[n]];
    }
  }

  /** Sorting keeps exactly the same members. */
  lemma SortedMember(s: seq<Interval>, c: Interval)
    ensures c in SortByStart(s) <==> c in s
  {
    SortByStartSorted(s);
    assert c in SortByStart(s) <==> c in multiset(SortByStart(s));
  }

  /**
   * The carve sweep from `cursor` over the sorted slices `dayBusy`: a gap before
   * each slice that starts after the cursor, the cursor then moved to the
   * slice's end if that is later, and a last gap up to `windowEnd`.
   */
  function Carve(cursor: int, dayBusy: seq<Interval>, windowEnd: int): seq<Interval>
    decreases |dayBusy|
  {
    if dayBusy == [] then
      (if cursor < windowEnd then [Interval(cursor, windowEnd)] else [])
    else
      var b := dayBusy[0];
      (if b.start > cursor then [Interval(cursor, b.start)] else [])
      + Carve(Max(cursor, b.end), dayBusy[1..], windowEnd)
  }

  /** The free windows of `day` given the busy intervals known so far. */
  function FreeWindowsOf(busy: seq<Interval>, day: int): seq<Interval> {
    Carve(WindowStart(day), SortByStart(DayBusy(busy, day)), WindowEnd(day))
  }

  /** `(we - ws) >= duration`. */
  predicate Fits(w: Interval, duration: int) {
    w.end - w.start >= duration
  }

  /** The index of the first window that fits, or |windows| when none does. */
  function FirstFitIndex(windows: seq<Interval>, duration: int): (k: nat)
    ensures k <= |windows|
    ensures forall j :: 0 <= j < k ==> !Fits(windows[j], duration)
    ensures k < |windows| ==> Fits(windows[k], duration)
  {
    if windows == [] then 0
    else if Fits(windows[0], duration) then 0
    else 1 + FirstFitIndex(windows[1..], duration)
  }

  /** The slot `(ws, ws + duration)` in the first window that fits. */
  function FirstFit(windows: seq<Interval>, duration: int): Option<Interval> {
    var k := FirstFitIndex(windows, duration);
    if k < |windows| then Some(Interval(windows[k].start, windows[k].start + duration)) else None
  }

  /** Every interval of the list has positive length. */
  ghost predicate Proper(busy: seq<Interval>) {
    forall b :: b in busy ==> b.start < b.end
  }

  /** No busy interval of the list starts after 22:00 of its own day. */
  ghost predicate LateFree(busy: seq<Interval>) {
    forall b :: b in busy ==> MinuteOfDay(b.start) <= WorkEnd
  }

  // ---------------------------------------------------------------- lemmas

  /** A list sorted by start stays sorted when an element starting no later than all of it goes in front. */
  lemma SortedPrepend(x: Interval, tail: seq<Interval>)
    requires SortedByStart(tail)
    requires forall w :: w in tail ==> x.start <= w.start
    ensures SortedByStart([x] + tail)
  {
    var r := [x] + tail;
    forall i, j | 0 <= i < j < |r| ensures r[i].start <= r[j].start {
      assert r[j] == tail[j - 1];
      if i == 0 {
        assert tail[j - 1] in tail;
      } else {
        assert r[i] == tail[i - 1];
      }
    }
  }

  /** The sweep emits gaps of positive length, none before the cursor, in non-decreasing start order. */
  lemma {:induction false} CarveShape(cursor: int, dayBusy: seq<Interval>, windowEnd: int)
    ensures forall w :: w in Carve(cursor, dayBusy, windowEnd) ==> cursor <= w.start < w.end
    ensures SortedByStart(Carve(cursor, dayBusy, windowEnd))
    decreases |dayBusy|
  {
    if dayBusy != [] {
      var b0 := dayBusy[0];
      var next := Max(cursor, b0.end);
      var tail := Carve(next, dayBusy[1..], windowEnd);
      CarveShape(next, dayBusy[1..], windowEnd);
      if b0.start > cursor {
        var gap := Interval(cursor, b0.start);
        assert Carve(cursor, dayBusy, windowEnd) == [gap] + tail;
        SortedPrepend(gap, tail);
        forall w | w in [gap] + tail ensures cursor <= w.start < w.end {
          if w != gap {
            assert w in tail;
          }
        }
      } else {
        assert Carve(cursor, dayBusy, windowEnd) == tail;
      }
    }
  }

  /** A gap ends at a slice's start or at the window's end, so it ends no later than any bound on those. */
  lemma {:induction false} CarveBounded(cursor: int, dayBusy: seq<Interval>, windowEnd: int, hi: int)
    requires windowEnd <= hi
    requires forall b :: b in dayBusy ==> b.start <= hi
    ensures forall w :: w in Carve(cursor, dayBusy, windowEnd) ==> w.end <= hi
    decreases |dayBusy|
  {
    if dayBusy != [] {
      assert forall b :: b in dayBusy[1..] ==> b in dayBusy;
      CarveBounded(Max(cursor, dayBusy[0].end), dayBusy[1..], windowEnd, hi);
    }
  }

  /** Over slices sorted by start, no gap shares a minute with any slice. */
  lemma {:induction false} CarveAvoids(cursor: int, dayBusy: seq<Interval>, windowEnd: int)
    requires SortedByStart(dayBusy)
    ensures forall w, b :: w in Carve(cursor, dayBusy, windowEnd) && b in dayBusy ==> !Overlap(w, b)
    decreases |dayBusy|
  {
    if dayBusy != [] {
      var b0 := dayBusy[0];
      var next := Max(cursor, b0.end);
      var tail := dayBusy[1..];
      CarveAvoids(next, tail, windowEnd);
      CarveShape(next, tail, windowEnd);
      assert dayBusy == [b0] + tail;
      forall w, b | w in Carve(cursor, dayBusy, windowEnd) && b in dayBusy
        ensures !Overlap(w, b)
      {
        if w in Carve(next, tail, windowEnd) {
          if b == b0 {
            assert b0.end <= next <= w.start;
          } else {
            assert b in tail;
          }
        } else {
          assert w == Interval(cursor, b0.start);
          var k :| 0 <= k < |dayBusy| && dayBusy[k] == b;
          assert b0.start <= b.start;
        }
      }
    }
  }

  /** Every window of a day starts at or after 09:00, has positive length, ends before the next midnight, and the windows come in non-decreasing start order. */
  lemma FreeWindowsShape(busy: seq<Interval>, day: int)
    ensures forall w :: w in FreeWindowsOf(busy, day) ==>
      WindowStart(day) <= w.start < w.end < At(day + 1, 0)
    ensures SortedByStart(FreeWindowsOf(busy, day))
  {
    var clipped := DayBusy(busy, day);
    var sorted := SortByStart(clipped);
    DayBusyMembers(busy, day);
    SortByStartSorted(clipped);
    CarveShape(WindowStart(day), sorted, WindowEnd(day));
    forall c | c in sorted
      ensures c.start <= At(day + 1, 0) - 1
    {
      assert c in multiset(sorted);
      assert c in clipped;
      var b :| b in busy && TouchesDay(b, day) && c == Clip(b, day);
      DayBounds(b.start);
    }
    CarveBounded(WindowStart(day), sorted, WindowEnd(day), At(day + 1, 0) - 1);
  }

  /**
   * When no busy interval starts after 22:00 of its own day, every window of a
   * day lies within 09:00–22:00 and shares no minute with any busy interval.
   */
  lemma FreeWindowsSafe(busy: seq<Interval>, day: int)
    requires LateFree(busy)
    ensures forall w :: w in FreeWindowsOf(busy, day) ==> Inside(w, WindowStart(day), WindowEnd(day))
    ensures forall w, b :: w in FreeWindowsOf(busy, day) && b in busy ==> !Overlap(w, b)
  {
    var clipped := DayBusy(busy, day);
    var sorted := SortByStart(clipped);
    var r := FreeWindowsOf(busy, day);
    DayBusyMembers(busy, day);
    SortByStartSorted(clipped);
    CarveShape(WindowStart(day), sorted, WindowEnd(day));
    forall c | c in sorted
      ensures c.start <= WindowEnd(day)
    {
      assert c in multiset(sorted);
      assert c in clipped;
      var b :| b in busy && TouchesDay(b, day) && c == Clip(b, day);
      DayBounds(b.start);
      if Day(b.start) == day {
        assert b.start == At(day, MinuteOfDay(b.start));
      }
    }
    CarveBounded(WindowStart(day), sorted, WindowEnd(day), WindowEnd(day));
    CarveAvoids(WindowStart(day), sorted, WindowEnd(day));
    forall w, b | w in r && b in busy
      ensures !Overlap(w, b)
    {
      DayBounds(b.start);
      DayBounds(b.end);
      if TouchesDay(b, day) {
        assert Clip(b, day) in clipped;
        assert Clip(b, day) in multiset(sorted);
        assert !Overlap(w, Clip(b, day));
      }
    }
  }

  /**
   * Nothing free is lost by the sweep: a stretch between the cursor and the
   * window's end that every slice ends before or starts after lies within a
   * single carved gap. The slices need not be sorted.
   */
  lemma {:induction false} CarveCovers(cursor: int, dayBusy: seq<Interval>, windowEnd: int, s: Interval)
    requires cursor <= s.start < s.end <= windowEnd
    requires forall b :: b in dayBusy ==> b.end <= s.start || s.end <= b.start
    ensures exists w :: w in Carve(cursor, dayBusy, windowEnd) && w.start <= s.start && s.end <= w.end
    decreases |dayBusy|
  {
    if dayBusy == [] {
      assert Interval(cursor, windowEnd) in Carve(cursor, dayBusy, windowEnd);
    } else {
      var b0 := dayBusy[0];
      assert b0 in dayBusy;
      if b0.end <= s.start {
        var next := Max(cursor, b0.end);
        assert forall b :: b in dayBusy[1..] ==> b in dayBusy;
        CarveCovers(next, dayBusy[1..], windowEnd, s);
        var w :| w in Carve(next, dayBusy[1..], windowEnd) && w.start <= s.start && s.end <= w.end;
        assert w in Carve(cursor, dayBusy, windowEnd);
      } else {
        assert Interval(cursor, b0.start) in Carve(cursor, dayBusy, windowEnd);
      }
    }
  }

  /**
   * A day's windows cover all its free time: a stretch inside 09:00–22:00 that
   * overlaps no busy interval (all of positive length) lies within one window.
   */
  lemma FreeWindowsCover(busy: seq<Interval>, day: int, s: Interval)
    requires Proper(busy)
    requires s.start < s.end && Inside(s, WindowStart(day), WindowEnd(day))
    requires forall b :: b in busy ==> !Overlap(s, b)
    ensures exists w :: w in FreeWindowsOf(busy, day) && w.start <= s.start && s.end <= w.end
  {
    var clipped := DayBusy(busy, day);
    var sorted := SortByStart(clipped);
    DayBusyMembers(busy, day);
    SortByStartSorted(clipped);
    forall c | c in sorted
      ensures c.end <= s.start || s.end <= c.start
    {
      assert c in multiset(sorted);
      assert c in clipped;
      var b :| b in busy && TouchesDay(b, day) && c == Clip(b, day);
      assert !Overlap(s, b);
    }
    CarveCovers(WindowStart(day), sorted, WindowEnd(day), s);
  }

  /** When some window of a list sorted by start holds a stretch of the duration, first fit finds a slot that starts no later than it. */
  lemma FirstFitCovers(windows: seq<Interval>, duration: int, s: Interval)
    requires SortedByStart(windows)
    requires s.end - s.start == duration
    requires exists w :: w in windows && w.start <= s.start && s.end <= w.end
    ensures FirstFit(windows, duration).Some?
    ensures FirstFit(windows, duration).value.start <= s.start
  {
    var j :| 0 <= j < |windows| && windows[j].start <= s.start && s.end <= windows[j].end;
    var k := FirstFitIndex(windows, duration);
    assert Fits(windows[j], duration);
    assert k <= j;
  }

  /** The first-fit slot has exactly the requested length and starts at the start of the first window long enough for it. */
  lemma FirstFitSlot(windows: seq<Interval>, duration: int)
    ensures FirstFit(windows, duration).None? <==> forall j :: 0 <= j < |windows| ==> !Fits(windows[j], duration)
    ensures FirstFit(windows, duration).Some? ==>
      var s := FirstFit(windows, duration).value;
      var k := FirstFitIndex(windows, duration);
      && s.end - s.start == duration
      && s.start == windows[k].start
      && s.end <= windows[k].end
  {
  }
}
