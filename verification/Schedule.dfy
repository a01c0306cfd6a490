/**
 Calendar schedules and the search for their next tick: the field-by-field jumps of the search, and
 how each jump relates to the instants the schedule matches.
 */
module Schedule {
  import opened Options
  import opened Calendar
  import opened Clock

  /** Sorted lists of the values each field admits; an empty list admits every value. */
  datatype Spec = Spec(
    seconds: seq<int>,
    minutes: seq<int>,
    hours: seq<int>,
    days: seq<int>,
    months: seq<int>,
    weekdays: seq<int>
  )

  predicate Increasing(list: seq<int>) {
    forall i, j | 0 <= i < j < |list| :: list[i] < list[j]
  }

  /** Sorted, unique, within bounds, and not listing every value. */
  predicate IsField(list: seq<int>, lo: int, hi: int) {
    Increasing(list) && (forall v | v in list :: lo <= v <= hi) && |list| <= hi - lo
  }

  predicate NormalForm(s: Spec) {
    && IsField(s.seconds, 0, 59)
    && IsField(s.minutes, 0, 59)
    && IsField(s.hours, 0, 23)
    && IsField(s.days, 1, 31)
    && IsField(s.months, 1, 12)
    && IsField(s.weekdays, 0, 6)
  }

  predicate Admits(list: seq<int>, v: int) {
    list == [] || v in list
  }

  predicate MatchesMonth(s: Spec, t: Time) {
    Admits(s.months, MonthNumber(DayOf(t)))
  }

  predicate MatchesDay(s: Spec, t: Time) {
    Admits(s.weekdays, Weekday(DayOf(t))) && Admits(s.days, DayOfMonth(DayOf(t)))
  }

  predicate MatchesTime(s: Spec, t: Time) {
    Admits(s.hours, Hour(t)) && Admits(s.minutes, Minute(t)) && Admits(s.seconds, Second(t))
  }

  /** All six fields match. */
  predicate Matches(s: Spec, t: Time) {
    MatchesMonth(s, t) && MatchesDay(s, t) && MatchesTime(s, t)
  }

  /** A scheduled instant: a whole second at which all six fields match. */
  predicate IsTick(s: Spec, t: Time) {
    Nanosecond(t) == 0 && Matches(s, t)
  }

  /** The first listed value above `x`. */
  function FirstAbove(list: seq<int>, x: int): (r: Option<int>)
    ensures r.Some? ==> r.value in list && r.value > x
    ensures forall v | v in list && v > x :: r.Some? && (Increasing(list) ==> r.value <= v)
  {
    if list == [] then None
    else if list[0] > x then Some(list[0])
    else
      assert list == [list[0]] + list[1..];
      FirstAbove(list[1..], x)
  }

  // ---------- The jumps ----------

  function NextMonth(s: Spec, at: Time): Time {
    Instant(DateDay(MonthAfter(s.months, MonthOf(DayOf(at))), 1), 0, 0, 0)
  }

  /** The listed month after month `k`, in its year or the next. */
  function MonthAfter(months: seq<int>, k: int): int {
    var (y, m) := (k / 12, k % 12 + 1);
    if months == [] then 12 * (y + 1)
    else
      match FirstAbove(months, m)
      case Some(v) => 12 * y + v - 1
      case None => 12 * (y + 1) + months[0] - 1
  }

  /** A listed day past the end of the month lands in the next month. */
  function NextDay(s: Spec, at: Time): Time {
    Instant(DayAfter(s.days, MonthOf(DayOf(at)), DayOfMonth(DayOf(at))), 0, 0, 0)
  }

  /** The day after day `d` of month `k` that a day jump leads to. */
  function DayAfter(days: seq<int>, k: int, d: int): int {
    if days == [] then DateDay(k, d + 1)
    else
      match FirstAbove(days, d)
      case Some(v) => DateDay(k, v)
      case None => DateDay(k + 1, days[0])
  }

  /** How far the listed value after `x` lies ahead, in a field of `n` values that starts over. */
  function Ahead(list: seq<int>, n: int, x: int): int {
    if list == [] then 1
    else
      match FirstAbove(list, x)
      case Some(v) => v - x
      case None => n - x + list[0]
  }

  function NextHour(s: Spec, at: Time): Time {
    at + Ahead(s.hours, 24, Hour(at)) * HOUR - (Minute(at) * MINUTE + Second(at) * SECOND + Nanosecond(at))
  }

  function NextMinute(s: Spec, at: Time): Time {
    at + Ahead(s.minutes, 60, Minute(at)) * MINUTE - (Second(at) * SECOND + Nanosecond(at))
  }

  function NextSecond(s: Spec, at: Time): Time {
    at + Ahead(s.seconds, 60, Second(at)) * SECOND - Nanosecond(at)
  }

  /** One round of the search from an instant that does not match. */
  function Jump(s: Spec, at: Time): Time {
    if !MatchesMonth(s, at) then NextMonth(s, at)
    else if !MatchesDay(s, at) then NextDay(s, at)
    else if !Admits(s.hours, Hour(at)) then NextHour(s, at)
    else if !Admits(s.minutes, Minute(at)) then NextMinute(s, at)
    else NextSecond(s, at)
  }

  // ---------- When jumps overshoot ----------

  /**
   The schedules for which a jump to a day that February does not have can pass a scheduled day of
   March: 30 February is 2 March and 31 February is 3 March in a common year.
   */
  predicate SkipsInCommonYear(s: Spec) {
    && 29 !in s.days
    && (28 !in s.days || s.weekdays != [])
    && if 30 in s.days then 1 in s.days else 31 in s.days && (1 in s.days || 2 in s.days)
  }

  predicate SkipsInLeapYear(s: Spec) {
    && 30 !in s.days && 31 in s.days && 1 in s.days
    && (29 !in s.days || s.weekdays != [])
  }

  predicate SkipProne(s: Spec) {
    && Admits(s.months, 2) && Admits(s.months, 3)
    && (SkipsInCommonYear(s) || SkipsInLeapYear(s))
  }

  predicate IsEarlyMarch(t: Time) {
    MonthNumber(DayOf(t)) == 3 && DayOfMonth(DayOf(t)) <= 2
  }

  lemma DayOrder(t: Time, day: int)
    ensures t < Instant(day, 0, 0, 0) <==> DayOf(t) < day
  {
    Reading(t);
  }

  lemma FirstIsLeast(list: seq<int>)
    requires Increasing(list) && list != []
    ensures list[0] in list && forall v | v in list :: list[0] <= v
  {
  }

  lemma MonthAfterIsLeast(months: seq<int>, k: int, l: int)
    requires IsField(months, 1, 12) && k < l && l % 12 + 1 in months
    ensures k < MonthAfter(months, k) <= l
  {
    FirstIsLeast(months);
    assert l / 12 == k / 12 ==> l % 12 > k % 12;
  }

  lemma MonthJump(s: Spec, at: Time, u: Time)
    requires NormalForm(s) && !MatchesMonth(s, at) && MatchesMonth(s, u) && at <= u
    ensures at < NextMonth(s, at) <= u
  {
    hide MonthOf, MonthStart, MonthAfter;
    var k, l := MonthOf(DayOf(at)), MonthOf(DayOf(u));
    MonthOfMonotone(DayOf(at), DayOf(u));
    MonthAfterIsLeast(s.months, k, l);
    var t := MonthAfter(s.months, k);
    MonthsApart(t, l);
    MonthsApart(k + 1, t);
    DayOrder(at, DateDay(t, 1));
    DayOrder(u, DateDay(t, 1));
  }

  lemma DayAfterIsLater(days: seq<int>, k: int, d: int)
    requires IsField(days, 1, 31) && 1 <= d <= MonthLength(k)
    ensures DateDay(k, d) < DayAfter(days, k, d)
  {
    hide MonthOf, MonthStart, MonthLength;
    MonthStep(k);
    if days != [] {
      FirstIsLeast(days);
    }
  }

  /** Unless it overflows the month, a day jump passes no admitted day `e` of a later date. */
  lemma DayAfterIsLeast(days: seq<int>, k: int, d: int, l: int, e: int)
    requires IsField(days, 1, 31) && Admits(days, e) && 1 <= d <= MonthLength(k) && 1 <= e <= MonthLength(l)
    requires k < l || (k == l && d < e)
    requires k < l && days != [] && FirstAbove(days, d).Some? ==> DateDay(k, FirstAbove(days, d).value) <= DateDay(l, e)
    ensures DayAfter(days, k, d) <= DateDay(l, e)
  {
    hide MonthOf, MonthStart, MonthLength;
    MonthStep(k);
    if days != [] {
      FirstIsLeast(days);
    }
    if k < l {
      MonthsApart(k + 1, l);
    }
  }

  /** A day jump passes a scheduled instant only if that is early in March and the schedule is prone to it. */
  lemma DayJump(s: Spec, at: Time, u: Time)
    requires NormalForm(s) && MatchesMonth(s, at) && !MatchesDay(s, at)
    requires MatchesMonth(s, u) && MatchesDay(s, u) && at <= u
    ensures at < NextDay(s, at)
    ensures NextDay(s, at) <= u || (IsEarlyMarch(u) && SkipProne(s))
  {
    hide MonthOf, MonthStart, MonthLength, SkipProne, IsField, DayAfter;
    var a, b := DayOf(at), DayOf(u);
    var k, l := MonthOf(a), MonthOf(b);
    var d, e := DayOfMonth(a), DayOfMonth(b);
    MonthOfMonotone(a, b);
    MonthStep(k);
    MonthStep(l);
    assert a < b && a == DateDay(k, d) && b == DateDay(l, e);
    var target := DayAfter(s.days, k, d);
    DayAfterIsLater(s.days, k, d);
    DayOrder(at, target);
    DayOrder(u, target);
    if k < l && s.days != [] && FirstAbove(s.days, d).Some? && b < DateDay(k, FirstAbove(s.days, d).value) {
      LandsInMarch(s, at, u);
    } else {
      DayAfterIsLeast(s.days, k, d, l, e);
    }
  }

  lemma LandsInMarch(s: Spec, at: Time, u: Time)
    requires NormalForm(s) && MatchesMonth(s, at) && !MatchesDay(s, at)
    requires MatchesMonth(s, u) && MatchesDay(s, u)
    requires MonthOf(DayOf(at)) < MonthOf(DayOf(u)) && s.days != []
    requires FirstAbove(s.days, DayOfMonth(DayOf(at))).Some?
    requires DayOf(u) < DateDay(MonthOf(DayOf(at)), FirstAbove(s.days, DayOfMonth(DayOf(at))).value)
    ensures IsEarlyMarch(u) && SkipProne(s)
  {
    hide MonthOf, MonthStart, MonthLength;
    var k, l := MonthOf(DayOf(at)), MonthOf(DayOf(u));
    var d, e := DayOfMonth(DayOf(at)), DayOfMonth(DayOf(u));
    var v := FirstAbove(s.days, d).value;
    MonthStep(k);
    MonthsApart(k + 1, l);
    assert d <= MonthLength(k) && v <= 31;
    assert l == k + 1 && e + MonthLength(k) < v;
    ShortMonth(k);
    PassedDay(s, d, MonthLength(k), e);
  }

  lemma ShortMonth(k: int)
    ensures 28 <= MonthLength(k) <= 31
    ensures MonthLength(k) < 30 ==> k % 12 == 1 && (k + 1) % 12 == 2
  {
  }

  /** A jump from day `d` of a February with `n` days that passes day `e` of March. */
  lemma PassedDay(s: Spec, d: int, n: int, e: int)
    requires NormalForm(s) && s.days != [] && Admits(s.months, 2) && Admits(s.months, 3)
    requires 28 <= n <= 29 && d <= n && e in s.days && 1 <= e
    requires FirstAbove(s.days, d).Some? && e + n < FirstAbove(s.days, d).value
    requires d !in s.days || s.weekdays != []
    ensures SkipProne(s) && e <= 2
  {
    NoneBetween(s, d);
    PassedMember(x => x in s.days, d, n, e, FirstAbove(s.days, d).value);
    hide NormalForm, FirstAbove;
    if n == 28 {
      assert SkipsInCommonYear(s);
    } else {
      assert SkipsInLeapYear(s);
    }
  }

  lemma PassedMember(has: int -> bool, d: int, n: int, e: int, v: int)
    requires 28 <= n <= 29 && d <= n && has(e) && 1 <= e && has(v) && e + n < v && d < v <= 31
    requires forall w | d < w < v :: !has(w)
    ensures e <= 2
    ensures n == 28 ==>
              && !has(29) && (has(28) ==> d == 28)
              && if has(30) then has(1) else has(31) && (has(1) || has(2))
    ensures n == 29 ==> !has(30) && has(31) && has(1) && (has(29) ==> d == 29)
  {
  }

  lemma NoneBetween(s: Spec, d: int)
    requires NormalForm(s) && FirstAbove(s.days, d).Some?
    ensures
      var v := FirstAbove(s.days, d).value;
      v in s.days && d < v <= 31 && forall w | d < w < v :: w !in s.days
  {
    hide FirstAbove;
  }

  /** The listed value after `x` is no later than an admitted later value `y`, of the same or the next round. */
  lemma AheadIsLeast(list: seq<int>, n: int, x: int, y: int)
    requires IsField(list, 0, n - 1) && 0 <= x < n && 0 <= y < n && Admits(list, y)
    ensures 1 <= Ahead(list, n, x) && x + Ahead(list, n, x) <= n + y
    ensures x < y ==> x + Ahead(list, n, x) <= y
  {
    if list != [] {
      FirstIsLeast(list);
    }
  }

  /** The same with the rounds counted: a unit is value `x` of round `a`, a later one value `y` of round `b`. */
  lemma AheadInRounds(list: seq<int>, n: int, a: int, x: int, b: int, y: int)
    requires IsField(list, 0, n - 1) && 0 <= x < n && 0 <= y < n && Admits(list, y)
    requires a * n + x < b * n + y
    ensures 1 <= Ahead(list, n, x) && a * n + x + Ahead(list, n, x) <= b * n + y
  {
    hide Ahead, IsField, Admits;
    AheadIsLeast(list, n, x, y);
    if a < b {
      MulAtLeast(b - a, n);
    } else if a > b {
      MulAtLeast(a - b, n);
    }
  }

  /** Whole units `a` before `at` and `b` before `u` are ordered as the instants are. */
  lemma UnitOrder(at: Time, u: Time, unit: int, a: int, ra: int, b: int, rb: int)
    requires at == a * unit + ra && u == b * unit + rb && 0 <= ra < unit && 0 <= rb < unit && at <= u
    ensures a <= b
  {
    if a > b {
      MulAtLeast(a - b, unit);
    }
  }

  /** A jump by `ahead` whole units from the unit of `at`, not past the unit of `u`. */
  lemma UnitJump(at: Time, u: Time, unit: int, a: int, ra: int, b: int, rb: int, ahead: int)
    requires at == a * unit + ra && u == b * unit + rb && 0 <= ra < unit && 0 <= rb < unit
    requires 1 <= ahead && a + ahead <= b
    ensures at < at + ahead * unit - ra <= u
  {
    MulAtLeast(ahead, unit);
    assert u - (at + ahead * unit - ra) == (b - a - ahead) * unit + rb;
    if b - a - ahead >= 1 {
      MulAtLeast(b - a - ahead, unit);
    }
  }

  lemma HourJump(s: Spec, at: Time, u: Time)
    requires NormalForm(s) && !Admits(s.hours, Hour(at)) && Admits(s.hours, Hour(u)) && at <= u
    ensures at < NextHour(s, at) <= u
  {
    hide Hour, Minute, Second, Nanosecond, DayOf, Ahead, IsField;
    HourUnits(at);
    HourUnits(u);
    var a, ra := 24 * DayOf(at) + Hour(at), Minute(at) * MINUTE + Second(at) * SECOND + Nanosecond(at);
    var b, rb := 24 * DayOf(u) + Hour(u), Minute(u) * MINUTE + Second(u) * SECOND + Nanosecond(u);
    UnitOrder(at, u, HOUR, a, ra, b, rb);
    assert a < b;
    hide NormalForm, Admits;
    AheadInRounds(s.hours, 24, DayOf(at), Hour(at), DayOf(u), Hour(u));
    UnitJump(at, u, HOUR, a, ra, b, rb, Ahead(s.hours, 24, Hour(at)));
  }

  lemma MinuteJump(s: Spec, at: Time, u: Time)
    requires NormalForm(s) && !Admits(s.minutes, Minute(at)) && Admits(s.minutes, Minute(u)) && at <= u
    ensures at < NextMinute(s, at) <= u
  {
    hide Hour, Minute, Second, Nanosecond, DayOf, Ahead, IsField;
    MinuteUnits(at);
    MinuteUnits(u);
    var a, ra := 60 * (24 * DayOf(at) + Hour(at)) + Minute(at), Second(at) * SECOND + Nanosecond(at);
    var b, rb := 60 * (24 * DayOf(u) + Hour(u)) + Minute(u), Second(u) * SECOND + Nanosecond(u);
    UnitOrder(at, u, MINUTE, a, ra, b, rb);
    assert a < b;
    hide NormalForm, Admits;
    AheadInRounds(s.minutes, 60, 24 * DayOf(at) + Hour(at), Minute(at), 24 * DayOf(u) + Hour(u), Minute(u));
    UnitJump(at, u, MINUTE, a, ra, b, rb, Ahead(s.minutes, 60, Minute(at)));
  }

  /** The jump to the next listed second, from any instant: it passes no whole second with a listed value. */
  lemma SecondJump(s: Spec, at: Time, u: Time)
    requires NormalForm(s) && at < u && Nanosecond(u) == 0 && Admits(s.seconds, Second(u))
    ensures at < NextSecond(s, at) <= u
  {
    hide Hour, Minute, Second, Nanosecond, DayOf, Ahead, IsField;
    SecondUnits(at);
    SecondUnits(u);
    var a, ra := 60 * (60 * (24 * DayOf(at) + Hour(at)) + Minute(at)) + Second(at), Nanosecond(at);
    var b, rb := 60 * (60 * (24 * DayOf(u) + Hour(u)) + Minute(u)) + Second(u), Nanosecond(u);
    UnitOrder(at, u, SECOND, a, ra, b, rb);
    assert a < b;
    hide NormalForm, Admits;
    AheadInRounds(s.seconds, 60, 60 * (24 * DayOf(at) + Hour(at)) + Minute(at), Second(at),
                  60 * (24 * DayOf(u) + Hour(u)) + Minute(u), Second(u));
    UnitJump(at, u, SECOND, a, ra, b, rb, Ahead(s.seconds, 60, Second(at)));
  }

  /** A round of the search moves forward, and passes no tick except one early in March of a skip-prone schedule. */
  lemma JumpPassesNoTick(s: Spec, at: Time, u: Time)
    requires NormalForm(s) && !Matches(s, at) && IsTick(s, u) && at <= u
    ensures at < Jump(s, at)
    ensures Jump(s, at) <= u || (IsEarlyMarch(u) && SkipProne(s))
  {
    hide NextMonth, NextDay, NextHour, NextMinute, NextSecond, Hour, Minute, Second, DayOf;
    if !MatchesMonth(s, at) {
      MonthJump(s, at, u);
    } else if !MatchesDay(s, at) {
      DayJump(s, at, u);
    } else if !Admits(s.hours, Hour(at)) {
      HourJump(s, at, u);
    } else if !Admits(s.minutes, Minute(at)) {
      MinuteJump(s, at, u);
    } else {
      SecondJump(s, at, u);
    }
  }

  lemma ShiftIsWhole(t: Time, k: int)
    ensures Nanosecond(t - Nanosecond(t) + k * SECOND) == 0
  {
    DivIs(t - Nanosecond(t) + k * SECOND, SECOND, t / SECOND + k, 0);
  }

  /** Jumps land on whole seconds. */
  lemma JumpIsWhole(s: Spec, at: Time)
    ensures Nanosecond(NextSecond(s, at)) == 0 && Nanosecond(NextMinute(s, at)) == 0
    ensures Nanosecond(NextHour(s, at)) == 0 && Nanosecond(Jump(s, at)) == 0
  {
    hide Ahead, MonthStart;
    ShiftIsWhole(at, Ahead(s.seconds, 60, Second(at)));
    ShiftIsWhole(at, 60 * Ahead(s.minutes, 60, Minute(at)) - Second(at));
    ShiftIsWhole(at, 3600 * Ahead(s.hours, 24, Hour(at)) - 60 * Minute(at) - Second(at));
    forall day: int ensures Nanosecond(Instant(day, 0, 0, 0)) == 0 {
      ReadingIs(Instant(day, 0, 0, 0), day, 0, 0, 0, 0);
    }
  }
}
