/**
 * `decide_total_tasks`: how many tasks a goal is broken into. A baseline of one
 * task per day left, scaled by the proficiency level; an override of at least
 * one wins outright; otherwise a complexity score adds round(score / 3); with
 * no score, "easy" gets round(0.8 × days left) and every other level the days
 * left unchanged. The answer is never below one.
 */
module TaskCount {
  import opened Wrappers

  /** The `override` argument: absent, converted by `int(…)` to a whole number, or rejected by `int(…)` with a ValueError. */
  datatype Override = NoOverride | Numeric(value: int) | NonNumeric

  /** `max(x, 1)`. */
  function AtLeastOne(x: int): int {
    if x >= 1 then x else 1
  }

  /** `max((dl_date - today).days, 1)`, or 7 when the deadline does not parse. */
  function DaysLeft(deadline: Option<int>, today: int): (d: int)
    ensures d >= 1
    ensures deadline.None? ==> d == 7
    ensures deadline.Some? ==> d >= deadline.value - today && (deadline.value - today >= 1 ==> d == deadline.value - today)
    ensures deadline.Some? && deadline.value - today < 1 ==> d == 1
  {
    match deadline
    case None => 7
    case Some(day) => AtLeastOne(day - today)
  }

  /** `str.lower()` on the ASCII letters; other characters are kept. */
  function LowerChar(c: char): char {
    if 'A' <= c <= 'Z' then (c as int + 32) as char else c
  }

  function Lower(s: string): (r: string)
    ensures |r| == |s|
  {
    seq(|s|, i requires 0 <= i < |s| => LowerChar(s[i]))
  }

  /** The proficiency multiplier in fifths: easy 0.8, medium 1.0, hard 1.2, anything else 1.0. */
  function MultiplierFifths(level: string): int {
    var l := Lower(level);
    if l == "easy" then 4
    else if l == "medium" then 5
    else if l == "hard" then 6
    else 5
  }

  /** `round(d × k / 5)` for a multiplier of k fifths, in whole numbers. */
  function RoundFifths(k: int, d: int): int {
    (k * d + 2) / 5
  }

  /** `round(c / 3)`, in whole numbers. */
  function RoundThirds(c: int): int {
    (c + 1) / 3
  }

  /**
   * The number of tasks for a level, a deadline date (None when it does not
   * parse), today's date, an override and a complexity score (None when there
   * is no API key or the call fails).
   */
  function TotalTasks(level: string, deadline: Option<int>, today: int, override: Override, complexity: Option<int>): (r: int)
    ensures r >= 1
  {
    var daysLeft := DaysLeft(deadline, today);
    var baseCount := RoundFifths(MultiplierFifths(level), daysLeft);
    if override.Numeric? && override.value >= 1 then override.value
    else if complexity.Some? then AtLeastOne(baseCount + RoundThirds(complexity.value))
    else if Lower(level) == "easy" then AtLeastOne(RoundFifths(4, daysLeft))
    else AtLeastOne(daysLeft)
  }

  // ---------------------------------------------------------------- the real-number reference

  /** `n` is the integer nearest to `x`, with `x` not halfway between two integers. */
  ghost predicate NearestInt(n: int, x: real) {
    -0.5 < x - n as real < 0.5
  }

  /** The multipliers of `prof_map`, with 1.0 for an unknown level. */
  ghost function Multiplier(level: string): real {
    var l := Lower(level);
    if l == "easy" then 0.8
    else if l == "medium" then 1.0
    else if l == "hard" then 1.2
    else 1.0
  }

  lemma MultiplierInFifths(level: string)
    ensures Multiplier(level) == MultiplierFifths(level) as real / 5.0
  {
  }

  /** At most one integer is nearest to a real number. */
  lemma NearestUnique(n: int, m: int, x: real)
    requires NearestInt(n, x) && NearestInt(m, x)
    ensures n == m
  {
  }

  /** The integer formula gives the nearest integer to d × k / 5; there is never a tie. */
  lemma RoundFifthsNearest(k: int, d: int)
    ensures NearestInt(RoundFifths(k, d), (k * d) as real / 5.0)
  {
    var q := (k * d + 2) / 5;
    var r := (k * d + 2) % 5;
    assert k * d == 5 * q + r - 2;
    assert (k * d) as real / 5.0 - q as real == (r - 2) as real / 5.0;
  }

  /** The integer formula gives the nearest integer to c / 3, negative scores included; there is never a tie. */
  lemma RoundThirdsNearest(c: int)
    ensures NearestInt(RoundThirds(c), c as real / 3.0)
  {
    var q := (c + 1) / 3;
    var r := (c + 1) % 3;
    assert c == 3 * q + r - 1;
    assert c as real / 3.0 - q as real == (r - 1) as real / 3.0;
  }

  /** The integer baseline is the nearest integer to days × multiplier. */
  lemma BaseCountNearest(level: string, d: int)
    ensures NearestInt(RoundFifths(MultiplierFifths(level), d), d as real * Multiplier(level))
  {
    var k := MultiplierFifths(level);
    RoundFifthsNearest(k, d);
    if k == 4 {
      assert (k * d) as real / 5.0 == d as real * 0.8;
    } else if k == 5 {
      assert (k * d) as real / 5.0 == d as real * 1.0;
    } else {
      assert (k * d) as real / 5.0 == d as real * 1.2;
    }
  }

  // ---------------------------------------------------------------- what the rule promises

  /** An override of at least one is the answer, whatever the level, deadline or complexity. */
  lemma OverrideWins(level: string, deadline: Option<int>, today: int, v: int, complexity: Option<int>)
    requires v >= 1
    ensures TotalTasks(level, deadline, today, Numeric(v), complexity) == v
  {
  }

  /** An override below one, or one that is not a number, changes nothing. */
  lemma OverrideIgnored(level: string, deadline: Option<int>, today: int, override: Override, complexity: Option<int>)
    requires !(override.Numeric? && override.value >= 1)
    ensures TotalTasks(level, deadline, today, override, complexity) == TotalTasks(level, deadline, today, NoOverride, complexity)
  {
  }

  /** With a complexity score c the answer is max(round(days_left × multiplier) + round(c / 3), 1). */
  lemma WithComplexity(level: string, deadline: Option<int>, today: int, override: Override, c: int, n1: int, n2: int)
    requires !(override.Numeric? && override.value >= 1)
    requires NearestInt(n1, DaysLeft(deadline, today) as real * Multiplier(level))
    requires NearestInt(n2, c as real / 3.0)
    ensures TotalTasks(level, deadline, today, override, Some(c)) == AtLeastOne(n1 + n2)
  {
    var d := DaysLeft(deadline, today);
    BaseCountNearest(level, d);
    NearestUnique(RoundFifths(MultiplierFifths(level), d), n1, d as real * Multiplier(level));
    RoundThirdsNearest(c);
    NearestUnique(RoundThirds(c), n2, c as real / 3.0);
  }

  /** Without a score, "easy" in any letter case gives max(round(0.8 × days_left), 1). */
  lemma FallbackEasy(level: string, deadline: Option<int>, today: int, override: Override, n: int)
    requires !(override.Numeric? && override.value >= 1)
    requires Lower(level) == "easy"
    requires NearestInt(n, 0.8 * DaysLeft(deadline, today) as real)
    ensures TotalTasks(level, deadline, today, override, None) == AtLeastOne(n)
  {
    var d := DaysLeft(deadline, today);
    RoundFifthsNearest(4, d);
    assert (4 * d) as real / 5.0 == 0.8 * d as real;
    NearestUnique(RoundFifths(4, d), n, 0.8 * d as real);
  }

  /** Without a score, every level other than "easy" — "hard" included, unscaled — gives the days left. */
  lemma FallbackOther(level: string, deadline: Option<int>, today: int, override: Override)
    requires !(override.Numeric? && override.value >= 1)
    requires Lower(level) != "easy"
    ensures TotalTasks(level, deadline, today, override, None) == DaysLeft(deadline, today)
  {
  }

  /** Ten days ahead at level "Hard": 10 tasks without a score, but 12 with a score of 1. */
  lemma HardIsScaledOnlyWithScore()
    ensures TotalTasks("Hard", Some(110), 100, NoOverride, None) == 10
    ensures TotalTasks("Hard", Some(110), 100, NoOverride, Some(1)) == 12
  {
    assert Lower("Hard") == "hard";
  }

  /** Lowering is idempotent. */
  lemma LowerIdempotent(s: string)
    ensures Lower(Lower(s)) == Lower(s)
  {
    var l := Lower(s);
    forall i | 0 <= i < |s| ensures Lower(l)[i] == l[i] {
      assert l[i] == LowerChar(s[i]);
    }
  }

  /** The level is only ever looked at lowered, so its letter case never changes the answer. */
  lemma LevelCaseIrrelevant(level: string, deadline: Option<int>, today: int, override: Override, complexity: Option<int>)
    ensures TotalTasks(level, deadline, today, override, complexity) == TotalTasks(Lower(level), deadline, today, override, complexity)
  {
    LowerIdempotent(level);
  }
}
