/** The allowed-weekday filter built from two-letter day codes. */
module Weekdays {
  import opened Wrappers

  /** `weekday_map`: "MO" … "SU" to Monday = 0 … Sunday = 6; any other string is unrecognised. */
  function WeekdayCode(code: string): Option<int> {
    if code == "MO" then Some(0)
    else if code == "TU" then Some(1)
    else if code == "WE" then Some(2)
    else if code == "TH" then Some(3)
    else if code == "FR" then Some(4)
    else if code == "SA" then Some(5)
    else if code == "SU" then Some(6)
    else None
  }

  /** `set(range(7))`. */
  function AllWeekdays(): set<int> {
    {0, 1, 2, 3, 4, 5, 6}
  }

  /**
   * `allowed_weekdays`: every day when the code list is None or empty, otherwise
   * the weekdays of the recognised codes, the others silently dropped.
   */
  function AllowedWeekdays(codes: Option<seq<string>>): (r: set<int>)
    ensures forall w :: w in r ==> 0 <= w < 7
  {
    if codes.Some? && codes.value != [] then
      set c | c in codes.value && WeekdayCode(c).Some? :: WeekdayCode(c).value
    else
      AllWeekdays()
  }

  /** Each code names one weekday and each weekday has exactly one code. */
  lemma WeekdayCodeInjective(c1: string, c2: string)
    requires WeekdayCode(c1).Some? && WeekdayCode(c1) == WeekdayCode(c2)
    ensures c1 == c2
  {
  }

  /** No list, or an empty one, allows all seven days. */
  lemma DefaultAllowsAll(codes: Option<seq<string>>)
    requires codes.None? || codes.value == []
    ensures AllowedWeekdays(codes) == AllWeekdays()
    ensures forall w :: 0 <= w < 7 ==> w in AllowedWeekdays(codes)
  {
  }

  /** A non-empty list allows a weekday exactly when one of its codes names it. */
  lemma AllowedIffNamed(cs: seq<string>, w: int)
    requires cs != []
    ensures w in AllowedWeekdays(Some(cs)) <==> exists c :: c in cs && WeekdayCode(c) == Some(w)
  {
  }

  /** A non-empty list none of whose codes is recognised allows no day at all. */
  lemma UnrecognisedAllowNothing(cs: seq<string>)
    requires cs != []
    requires forall c :: c in cs ==> WeekdayCode(c).None?
    ensures AllowedWeekdays(Some(cs)) == {}
  {
  }

  /** The working-week list of the documentation allows Monday to Friday only. */
  lemma WorkingWeek()
    ensures AllowedWeekdays(Some(["MO", "TU", "WE", "TH", "FR"])) == {0, 1, 2, 3, 4}
  {
    var cs := ["MO", "TU", "WE", "TH", "FR"];
    var r := AllowedWeekdays(Some(cs));
    assert cs[0] in cs && cs[1] in cs && cs[2] in cs && cs[3] in cs && cs[4] in cs;
    assert WeekdayCode(cs[0]) == Some(0);
    assert WeekdayCode(cs[1]) == Some(1);
    assert WeekdayCode(cs[2]) == Some(2);
    assert WeekdayCode(cs[3]) == Some(3);
    assert WeekdayCode(cs[4]) == Some(4);
    assert {0, 1, 2, 3, 4} <= r;
  }
}
