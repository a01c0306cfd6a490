/**
 The search for the next tick as a whole: when it ends, what it finds, and exactly for which
 schedules it finds the earliest tick.
 */
module ScheduleSearch {
  import opened Options
  import opened Calendar
  import opened Clock
  import opened Schedule

  /** The instant at which the search stops, if it stops within `rounds` jumps. */
  function Search(s: Spec, at: Time, rounds: nat): Option<Time>
    decreases rounds
  {
    hide Matches, Jump;
    if Matches(s, at) then Some(at)
    else if rounds == 0 then None
    else Search(s, Jump(s, at), rounds - 1)
  }

  /** Called at `at`, the search returns `r`. */
  ghost predicate Returns(s: Spec, at: Time, r: Time) {
    exists n: nat :: Search(s, NextSecond(s, at), n) == Some(r)
  }

  ghost predicate IsNextTick(s: Spec, at: Time, r: Time) {
    at < r && IsTick(s, r) && forall u :: at < u < r ==> !IsTick(s, u)
  }

  /** Some date of a leap year has an admitted month and an admitted day. */
  predicate HasDate(s: Spec) {
    exists m, d | 1 <= m <= 12 && 1 <= d <= 31 :: IsDate(s, m, d)
  }

  predicate IsDate(s: Spec, m: int, d: int) {
    1 <= m <= 12 && 1 <= d <= LengthOf(m - 1, true) && Admits(s.months, m) && Admits(s.days, d)
  }

  lemma MonthAfterIsLater(months: seq<int>, k: int)
    requires IsField(months, 1, 12)
    ensures k < MonthAfter(months, k)
  {
    if months != [] {
      FirstIsLeast(months);
    }
  }

  lemma JumpIsForward(s: Spec, at: Time)
    requires NormalForm(s)
    ensures at < NextSecond(s, at)
    ensures !Matches(s, at) ==> at < Jump(s, at)
  {
    hide MonthOf, MonthStart, Hour, Minute, Second, Nanosecond, DayOf, MonthAfter, Ahead;
    Reading(at);
    AheadIsPositive(s.hours, 24, Hour(at));
    AheadIsPositive(s.minutes, 60, Minute(at));
    AheadIsPositive(s.seconds, 60, Second(at));
    var k := MonthOf(DayOf(at));
    MonthAfterIsLater(s.months, k);
    MonthsApart(k + 1, MonthAfter(s.months, k));
    DayOrder(at, DateDay(MonthAfter(s.months, k), 1));
    DayIsForward(s, at);
  }

  lemma AheadIsPositive(list: seq<int>, n: int, x: int)
    requires IsField(list, 0, n - 1) && 0 <= x < n
    ensures 1 <= Ahead(list, n, x) <= 2 * n - 1
  {
    if list != [] {
      FirstIsLeast(list);
    }
  }

  lemma DayIsForward(s: Spec, at: Time)
    requires NormalForm(s)
    ensures at < NextDay(s, at)
  {
    hide MonthOf, MonthStart, DayAfter;
    var k, d := MonthOf(DayOf(at)), DayOfMonth(DayOf(at));
    MonthStep(k);
    DayAfterIsLater(s.days, k, d);
    DayOrder(at, DayAfter(s.days, k, d));
  }

  /** What the search returns is a tick, and later than where it started. */
  lemma {:induction false} SearchFindsTick(s: Spec, at: Time, n: nat)
    requires NormalForm(s) && Nanosecond(at) == 0 && Search(s, at, n).Some?
    ensures IsTick(s, Search(s, at, n).value) && at <= Search(s, at, n).value
    decreases n
  {
    hide Jump, NextSecond, Matches;
    if !Matches(s, at) {
      JumpIsForward(s, at);
      JumpIsWhole(s, at);
      SearchFindsTick(s, Jump(s, at), n - 1);
    }
  }

  /** The search passes no tick except one early in March of a skip-prone schedule. */
  lemma {:induction false} SearchPassesNoTick(s: Spec, at: Time, n: nat, u: Time)
    requires NormalForm(s) && Search(s, at, n).Some? && IsTick(s, u) && at <= u < Search(s, at, n).value
    ensures IsEarlyMarch(u) && SkipProne(s)
    decreases n
  {
    hide Jump, SkipProne, IsEarlyMarch, Matches;
    if !Matches(s, at) {
      JumpPassesNoTick(s, at, u);
      if Jump(s, at) <= u {
        SearchPassesNoTick(s, Jump(s, at), n - 1, u);
      }
    }
  }

  /** The search ends, because no jump passes a tick that cannot be skipped. */
  lemma {:induction false} SearchEnds(s: Spec, at: Time, u: Time) returns (n: nat)
    requires NormalForm(s) && IsTick(s, u) && at <= u && !(IsEarlyMarch(u) && SkipProne(s))
    ensures Search(s, at, n).Some?
    decreases u - at
  {
    hide Jump, SkipProne, IsEarlyMarch, Matches;
    if Matches(s, at) {
      n := 0;
    } else {
      JumpPassesNoTick(s, at, u);
      n := SearchEnds(s, Jump(s, at), u);
      n := n + 1;
    }
  }

  // ---------- Existence of ticks ----------

  function FirstOf(list: seq<int>, lo: int): int {
    if list == [] then lo else list[0]
  }

  lemma FirstOfField(list: seq<int>, lo: int, hi: int)
    requires IsField(list, lo, hi) && lo <= hi
    ensures lo <= FirstOf(list, lo) <= hi && Admits(list, FirstOf(list, lo))
  {
    assert list != [] ==> list[0] in list;
  }

  /** A tick on a given day that has an admitted date. */
  lemma TickOnDay(s: Spec, day: int) returns (u: Time)
    requires NormalForm(s)
    requires Admits(s.months, MonthNumber(day)) && Admits(s.days, DayOfMonth(day)) && Admits(s.weekdays, Weekday(day))
    ensures IsTick(s, u) && DayOf(u) == day
  {
    hide MonthOf, Weekday;
    var h, m, c := FirstOf(s.hours, 0), FirstOf(s.minutes, 0), FirstOf(s.seconds, 0);
    u := Instant(day, h, m, c);
    FirstOfField(s.hours, 0, 23);
    FirstOfField(s.minutes, 0, 59);
    FirstOfField(s.seconds, 0, 59);
    assert IsClock(h, m, c, 0);
    ReadingIs(u, day, h, m, c, 0);
  }

  /** A date of a month in the year `y`. */
  lemma DateReads(y: int, m: int, d: int)
    requires 1 <= m <= 12 && 1 <= d <= LengthOf(m - 1, IsLeap(y))
    ensures
      var day := DateDay(12 * y + m - 1, d);
      MonthOf(day) == 12 * y + m - 1 && MonthNumber(day) == m && DayOfMonth(day) == d
  {
    hide MonthOf, MonthStart;
    assert (12 * y + m - 1) / 12 == y && (12 * y + m - 1) % 12 == m - 1;
    DateDayInMonth(12 * y + m - 1, d);
  }

  /** An admitted date, not one that can be skipped. */
  lemma SafeDate(s: Spec) returns (m: int, d: int)
    requires NormalForm(s) && HasDate(s)
    ensures IsDate(s, m, d) && !(SkipProne(s) && m == 3 && d <= 2)
  {
    if SkipProne(s) {
      m, d := 2, if 1 in s.days then 1 else 2;
    } else {
      m, d :| 1 <= m <= 12 && 1 <= d <= 31 && IsDate(s, m, d);
    }
  }

  /** A schedule with an admitted date has a tick after any instant, and one that is never skipped. */
  lemma SafeTickAfter(s: Spec, at: Time) returns (u: Time)
    requires NormalForm(s) && HasDate(s)
    ensures at < u && IsTick(s, u) && !(IsEarlyMarch(u) && SkipProne(s))
  {
    hide MonthOf, MonthStart, SkipProne;
    var m, d := SafeDate(s);
    FirstOfField(s.weekdays, 0, 6);
    var k := MonthOf(DayOf(at));
    var y := YearWithWeekday(true, m - 1, d, FirstOf(s.weekdays, 0), k / 12);
    var day := DateDay(12 * y + m - 1, d);
    DateReads(y, m, d);
    u := TickOnDay(s, day);
    assert DayOf(at) < day by {
      MonthsApart(k + 1, 12 * y + m - 1);
    }
    DayOrder(u, day);
    DayOrder(at, day);
  }

  lemma TickHasDate(s: Spec, t: Time)
    requires IsTick(s, t)
    ensures HasDate(s)
  {
    var day := DayOf(t);
    MonthStep(MonthOf(day));
    assert IsDate(s, MonthNumber(day), DayOfMonth(day));
  }

  /** The search returns from every instant when some date is admitted, and from none otherwise. */
  lemma SearchHalts(s: Spec, at: Time)
    requires NormalForm(s)
    ensures (exists r :: Returns(s, at, r)) <==> HasDate(s)
  {
    hide NextSecond, HasDate, IsEarlyMarch, SkipProne, IsTick, Matches;
    if r :| Returns(s, at, r) {
      var n: nat :| Search(s, NextSecond(s, at), n) == Some(r);
      JumpIsWhole(s, at);
      SearchFindsTick(s, NextSecond(s, at), n);
      TickHasDate(s, r);
    }
    if HasDate(s) {
      var u := SafeTickAfter(s, NextSecond(s, at));
      var n := SearchEnds(s, NextSecond(s, at), u);
      assert Returns(s, at, Search(s, NextSecond(s, at), n).value);
    }
  }

  /** Whatever the schedule, the search returns a later tick, and skips at most early days of March. */
  lemma ReturnsTick(s: Spec, at: Time, r: Time)
    requires NormalForm(s) && Returns(s, at, r)
    ensures at < r && IsTick(s, r)
    ensures forall u :: at < u < r && IsTick(s, u) ==> IsEarlyMarch(u) && SkipProne(s)
  {
    hide NextSecond, SkipProne, IsEarlyMarch;
    var n: nat :| Search(s, NextSecond(s, at), n) == Some(r);
    JumpIsWhole(s, at);
    JumpIsForward(s, at);
    SearchFindsTick(s, NextSecond(s, at), n);
    forall u | at < u < r && IsTick(s, u) ensures IsEarlyMarch(u) && SkipProne(s) {
      SecondJump(s, at, u);
      SearchPassesNoTick(s, NextSecond(s, at), n, u);
    }
  }

  // ---------- The schedules that skip ticks ----------

  /** The weekday `back` days earlier. */
  function WeekdaysBack(w: int, back: int): int {
    if w >= back then w - back else w - back + 7
  }

  /** A restricted weekday list admits some day whose `back`-th predecessor it does not admit. */
  lemma WeekdayEdge(weekdays: seq<int>, back: int) returns (w: int)
    requires IsField(weekdays, 0, 6) && weekdays != [] && 1 <= back <= 2
    ensures w in weekdays && WeekdaysBack(w, back) !in weekdays
  {
    if forall v | v in weekdays :: WeekdaysBack(v, back) in weekdays {
      ClosedIsFull(weekdays, back);
      AtMostLength(weekdays);
      Cardinality({0, 1, 2, 3, 4, 5, 6}, set v | v in weekdays);
      assert false;
    }
    w :| w in weekdays && WeekdaysBack(w, back) !in weekdays;
  }

  lemma Cardinality(a: set<int>, b: set<int>)
    requires a <= b
    ensures |a| <= |b|
  {
    assert b == a + (b - a);
  }

  lemma ClosedIsFull(weekdays: seq<int>, back: int)
    requires IsField(weekdays, 0, 6) && weekdays != [] && 1 <= back <= 2
    requires forall v | v in weekdays :: WeekdaysBack(v, back) in weekdays
    ensures forall v | 0 <= v < 7 :: v in weekdays
  {
    var a := weekdays[0];
    var b := WeekdaysBack(a, back);
    var c := WeekdaysBack(b, back);
    var d := WeekdaysBack(c, back);
    var e := WeekdaysBack(d, back);
    var f := WeekdaysBack(e, back);
    var g := WeekdaysBack(f, back);
    assert a in weekdays && b in weekdays && c in weekdays && d in weekdays;
    assert e in weekdays && f in weekdays && g in weekdays;
    assert {a, b, c, d, e, f, g} == {0, 1, 2, 3, 4, 5, 6};
    forall v | 0 <= v < 7 ensures v in weekdays {
      assert v in {0, 1, 2, 3, 4, 5, 6};
    }
  }

  lemma {:induction false} AtMostLength(list: seq<int>)
    ensures |set v | v in list| <= |list|
  {
    if list != [] {
      AtMostLength(list[1..]);
      assert (set v | v in list) == {list[0]} + set v | v in list[1..];
    }
  }

  lemma ReturnsSomething(s: Spec, at: Time) returns (r: Time)
    requires NormalForm(s) && HasDate(s)
    ensures Returns(s, at, r)
  {
    hide Returns, HasDate;
    SearchHalts(s, at);
    r :| Returns(s, at, r);
  }

  lemma WeekdayBefore(day: int, back: int)
    requires 0 <= back < 7
    ensures Weekday(day) == WeekdaysBack(Weekday(day + back), back)
  {
    var q, r := (day + 6) / 7, (day + 6) % 7;
    DivIs(day + back + 6, 7, if r + back < 7 then q else q + 1, if r + back < 7 then r + back else r + back - 7);
  }

  /** At the start of a day, the search first moves to a second of that same day. */
  lemma SameDay(s: Spec, day: int)
    requires NormalForm(s)
    ensures DayOf(NextSecond(s, Instant(day, 0, 0, 0))) == day
  {
    var at := Instant(day, 0, 0, 0);
    ReadingIs(at, day, 0, 0, 0, 0);
    AheadIsPositive(s.seconds, 60, 0);
    DivIs(NextSecond(s, at), DAY, day, Ahead(s.seconds, 60, 0) * SECOND);
  }

  /** A jump from the last day `n` of a February, which has no admitted tick, to a listed day it does not have. */
  lemma JumpFromFebruary(s: Spec, feb: int, n: int, e: int)
    requires NormalForm(s) && feb % 12 == 1 && MonthLength(feb) == n && 1 <= e
    requires Admits(s.months, 2) && s.days != []
    requires n !in s.days || !Admits(s.weekdays, Weekday(DateDay(feb, n)))
    requires FirstAbove(s.days, n).Some? && FirstAbove(s.days, n).value > n + e
    ensures
      var start := NextSecond(s, Instant(DateDay(feb, n), 0, 0, 0));
      !Matches(s, start) && Jump(s, start) >= Instant(DateDay(feb + 1, e) + 1, 0, 0, 0)
  {
    hide MonthOf, MonthStart, Weekday;
    var last := DateDay(feb, n);
    SameDay(s, last);
    DateDayInMonth(feb, n);
    MonthStep(feb);
    assert MonthNumber(last) == 2;
  }

  /** From the end of February the search of a skip-prone schedule passes a tick of March. */
  lemma SkipWitness(s: Spec) returns (at: Time, u: Time, r: Time)
    requires NormalForm(s) && SkipProne(s)
    ensures Returns(s, at, r) && at < u < r && IsTick(s, u)
  {
    // The last day of February (`n`), and the day of March (`e`) that is passed.
    var leap := !SkipsInCommonYear(s);
    var n := if leap then 29 else 28;
    var e := if 1 in s.days then 1 else 2;
    var w := 0;
    if s.weekdays != [] {
      w := WeekdayEdge(s.weekdays, e);
    }
    var y := YearWithWeekday(leap, 2, e, w, 0);
    at, u := MarchTick(s, y, n, e, w);
    assert IsDate(s, 2, e);
    r := ReturnsSomething(s, at);
    FirstJumpPasses(s, at, u, r);
  }

  lemma FebruaryLength(y: int)
    ensures (12 * y + 1) % 12 == 1 && MonthLength(12 * y + 1) == if IsLeap(y) then 29 else 28
    ensures LengthOf(2, IsLeap(y)) == 31
  {
    assert (12 * y + 1) / 12 == y && (12 * y + 1) % 12 == 1;
  }

  /** The first listed day after the end of February lies more than `e` days past it. */
  lemma OverflowDay(s: Spec, n: int, e: int)
    requires NormalForm(s) && SkipProne(s)
    requires n == (if SkipsInCommonYear(s) then 28 else 29)
    requires e == (if 1 in s.days then 1 else 2)
    ensures s.days != [] && (n !in s.days || s.weekdays != []) && e in s.days
    ensures FirstAbove(s.days, n).Some? && FirstAbove(s.days, n).value > n + e
  {
    hide FirstAbove;
    assert 30 in s.days || 31 in s.days;
    assert FirstAbove(s.days, n).Some?;
  }

  lemma MarchTick(s: Spec, y: int, n: int, e: int, w: int) returns (at: Time, u: Time)
    requires NormalForm(s) && SkipProne(s)
    requires IsLeap(y) == !SkipsInCommonYear(s) && n == (if IsLeap(y) then 29 else 28)
    requires e == (if 1 in s.days then 1 else 2)
    requires Weekday(DateDay(12 * y + 2, e)) == w
    requires s.weekdays != [] ==> w in s.weekdays && WeekdaysBack(w, e) !in s.weekdays
    ensures at < u && IsTick(s, u)
    ensures !Matches(s, NextSecond(s, at)) && u < Jump(s, NextSecond(s, at))
  {
    hide MonthOf, MonthStart, Weekday, Jump, Matches, NextSecond, Hour, Minute, Second, FirstAbove, LengthOf, YearStart;
    var (feb, mar) := (12 * y + 1, 12 * y + 2);
    FebruaryLength(y);
    MonthStep(feb);
    DateReads(y, 3, e);
    u := TickOnDay(s, DateDay(mar, e));
    var last := DateDay(feb, n);
    at := Instant(last, 0, 0, 0);
    WeekdayBefore(last, e);
    OverflowDay(s, n, e);
    JumpFromFebruary(s, feb, n, e);
    DayOrder(u, last + e + 1);
    DayOrder(u, last);
  }

  lemma FirstJumpPasses(s: Spec, at: Time, u: Time, r: Time)
    requires NormalForm(s) && Returns(s, at, r)
    requires !Matches(s, NextSecond(s, at)) && u < Jump(s, NextSecond(s, at))
    ensures u < r
  {
    hide NextSecond, Jump, Matches;
    var rounds: nat :| Search(s, NextSecond(s, at), rounds) == Some(r);
    JumpIsWhole(s, NextSecond(s, at));
    SearchFindsTick(s, Jump(s, NextSecond(s, at)), rounds - 1);
  }

  /** The search always finds the earliest tick exactly for the schedules that are not skip-prone. */
  lemma NextIsExact(s: Spec)
    requires NormalForm(s)
    ensures (forall at, r :: Returns(s, at, r) ==> IsNextTick(s, at, r)) <==> !SkipProne(s)
  {
    hide Returns, SkipProne, IsEarlyMarch, IsTick;
    if SkipProne(s) {
      var at, u, r := SkipWitness(s);
      assert !IsNextTick(s, at, r);
    } else {
      forall at, r | Returns(s, at, r) ensures IsNextTick(s, at, r) {
        ReturnsTick(s, at, r);
      }
    }
  }
}
