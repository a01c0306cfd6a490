/** Instants as nanoseconds since the start of day 0 in a zone of fixed offset, and the time of day. */
module Clock {
  import opened Calendar

  const SECOND := 1_000_000_000
  const MINUTE := 60 * SECOND
  const HOUR := 60 * MINUTE
  const DAY := 24 * HOUR

  type Time = int

  function DayOf(t: Time): int {
    t / DAY
  }

  function Hour(t: Time): int {
    t % DAY / HOUR
  }

  function Minute(t: Time): int {
    t % HOUR / MINUTE
  }

  function Second(t: Time): int {
    t % MINUTE / SECOND
  }

  function Nanosecond(t: Time): int {
    t % SECOND
  }

  /** The instant of a time of day. */
  function Instant(day: int, hour: int, minute: int, second: int): Time {
    day * DAY + hour * HOUR + minute * MINUTE + second * SECOND
  }

  ghost predicate IsClock(hour: int, minute: int, second: int, nano: int) {
    0 <= hour < 24 && 0 <= minute < 60 && 0 <= second < 60 && 0 <= nano < SECOND
  }

  lemma Reading(t: Time)
    ensures IsClock(Hour(t), Minute(t), Second(t), Nanosecond(t))
    ensures t == Instant(DayOf(t), Hour(t), Minute(t), Second(t)) + Nanosecond(t)
  {
    var d, r := t / DAY, t % DAY;
    var h, s := r / HOUR, r % HOUR;
    DivIs(t, HOUR, 24 * d + h, s);
    var m, u := s / MINUTE, s % MINUTE;
    DivIs(t, MINUTE, 60 * (24 * d + h) + m, u);
    DivIs(t, SECOND, 60 * (60 * (24 * d + h) + m) + u / SECOND, u % SECOND);
  }

  lemma ReadingIs(t: Time, day: int, hour: int, minute: int, second: int, nano: int)
    requires IsClock(hour, minute, second, nano) && t == Instant(day, hour, minute, second) + nano
    ensures DayOf(t) == day && Hour(t) == hour && Minute(t) == minute && Second(t) == second && Nanosecond(t) == nano
  {
    var rest := hour * HOUR + minute * MINUTE + second * SECOND + nano;
    assert t == day * DAY + rest && 0 <= rest < DAY;
    DivIs(t, DAY, day, rest);
    var s := minute * MINUTE + second * SECOND + nano;
    DivIs(rest, HOUR, hour, s);
    DivIs(t, HOUR, 24 * day + hour, s);
    DivIs(s, MINUTE, minute, second * SECOND + nano);
    DivIs(t, MINUTE, 60 * (24 * day + hour) + minute, second * SECOND + nano);
    DivIs(second * SECOND + nano, SECOND, second, nano);
    DivIs(t, SECOND, 60 * (60 * (24 * day + hour) + minute) + second, nano);
  }

  /** The units of time in nanoseconds. */
  lemma InstantIs(day: int, hour: int, minute: int, second: int)
    ensures Instant(day, hour, minute, second) == (((24 * day + hour) * 60 + minute) * 60 + second) * 1_000_000_000
  {
  }

  /** What is left of an instant below whole hours. */
  lemma HourUnits(t: Time)
    ensures 0 <= Hour(t) < 24
    ensures
      var rest := Minute(t) * MINUTE + Second(t) * SECOND + Nanosecond(t);
      t == (24 * DayOf(t) + Hour(t)) * HOUR + rest && 0 <= rest < HOUR
  {
    hide Hour, Minute, Second, Nanosecond, DayOf;
    Reading(t);
  }

  /** What is left below whole minutes. */
  lemma MinuteUnits(t: Time)
    ensures 0 <= Minute(t) < 60
    ensures
      var rest := Second(t) * SECOND + Nanosecond(t);
      t == (60 * (24 * DayOf(t) + Hour(t)) + Minute(t)) * MINUTE + rest && 0 <= rest < MINUTE
  {
    hide Hour, Minute, Second, Nanosecond, DayOf;
    Reading(t);
  }

  /** What is left below whole seconds. */
  lemma SecondUnits(t: Time)
    ensures 0 <= Second(t) < 60 && 0 <= Nanosecond(t) < SECOND
    ensures t == (60 * (60 * (24 * DayOf(t) + Hour(t)) + Minute(t)) + Second(t)) * SECOND + Nanosecond(t)
  {
    hide Hour, Minute, Second, Nanosecond, DayOf;
    Reading(t);
  }
}
