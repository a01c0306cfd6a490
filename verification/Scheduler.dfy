/** The schedule ticker as an object, and the loop of the scheduler that sends its ticks. */
module Scheduler {
  import opened Options
  import opened Clock
  import opened Schedule
  import opened ScheduleSearch
  import opened ScheduleText
  import opened ScheduledTicker
  import opened Texts

  class Ticker {
    var seconds: seq<int>
    var minutes: seq<int>
    var hours: seq<int>
    var days: seq<int>
    var months: seq<int>
    var weekdays: seq<int>

    constructor ()
      ensures Fields() == EVERY
    {
      seconds, minutes, hours, days, months, weekdays := [], [], [], [], [], [];
    }

    function Fields(): Spec
      reads this
    {
      Spec(seconds, minutes, hours, days, months, weekdays)
    }

    /** Parse a schedule over the current fields. */
    method Parse(text: string) returns (ok: bool)
      modifies this
      ensures (ok, Fields()) == ParseSpec(old(Fields()), text)
    {
      if text == "" {
        return false;
      }
      var parts := Split(text, ' ');
      if |parts| > FIELDS {
        return false;
      }
      ghost var before := Fields();
      for i := 0 to |parts|
        invariant ParseParts(Fields(), parts, i) == ParseParts(before, parts, 0)
      {
        hide ParsePart;
        ghost var s := Fields();
        var list := ParsePart(parts[i], Suffix(i), Reader(i));
        Assign(i, if list.Some? then list.value else []);
        if list.None? {
          return false;
        }
      }
      ghost var raw := Fields();
      seconds, minutes, hours := Normalize(seconds, 60), Normalize(minutes, 60), Normalize(hours, 24);
      days, months, weekdays := Normalize(days, 31), Normalize(months, 12), Normalize(weekdays, 7);
      assert Fields() == NormalizeAll(raw);
      return true;
    }

    method Assign(i: nat, list: seq<int>)
      requires i < FIELDS
      modifies this
      ensures Fields() == WithField(old(Fields()), i, list)
    {
      if i == 0 {
        seconds := list;
      } else if i == 1 {
        minutes := list;
      } else if i == 2 {
        hours := list;
      } else if i == 3 {
        days := list;
      } else if i == 4 {
        months := list;
      } else {
        weekdays := list;
      }
    }

    /** Write the schedule field by field. */
    method Text() returns (b: string)
      ensures b == SpecText(Fields())
    {
      hide Field, Namer, Suffix, Join, FieldText, Parts;
      b := "";
      JoinNothing(' ');
      var s := Fields();
      ghost var parts := Parts(s);
      for i := 0 to FIELDS
        invariant b == Join(parts[..i], ' ')
      {
        if i > 0 {
          b := b + " ";
        }
        b := WriteNames(b, Field(s, i), Namer(i));
        b := b + Suffix(i);
        JoinAppend(parts[..i], parts[i], ' ');
        assert parts[i] == PartText(s, i);
        assert parts[..i + 1] == parts[..i] + [parts[i]];
      }
      assert parts[..FIELDS] == parts;
    }

    /** The next tick after an instant. The search has no end when no date is admitted. */
    method Next(from: Time) returns (at: Time)
      requires NormalForm(Fields()) && HasDate(Fields())
      ensures Returns(Fields(), from, at)
    {
      hide NextMonth, NextDay, NextHour, NextMinute, NextSecond, HasDate, IsTick, NormalForm, Returns, Search;
      hide Admits, DayOf, Hour, Minute, Second, IsEarlyMarch, SkipProne;
      var s := Fields();
      at := NextSecond(s, from);
      ghost var first := at;
      ghost var u := SafeTickAfter(s, at);
      ghost var total := SearchEnds(s, at, u);
      ghost var left := total;
      while true
        invariant Search(s, at, left) == Search(s, first, total) && Search(s, first, total).Some?
        decreases left
      {
        SearchRound(s, at, left);
        ghost var here := at;
        left := if Matches(s, at) then left else left - 1;
        if !MatchesMonth(s, at) {
          at := NextMonth(s, at);
          continue;
        }
        if !Admits(s.weekdays, Calendar.Weekday(DayOf(at))) || !Admits(s.days, Calendar.DayOfMonth(DayOf(at))) {
          at := NextDay(s, at);
          continue;
        }
        if !Admits(s.hours, Hour(at)) {
          at := NextHour(s, at);
          continue;
        }
        if !Admits(s.minutes, Minute(at)) {
          at := NextMinute(s, at);
          continue;
        }
        if !Admits(s.seconds, Second(at)) {
          at := NextSecond(s, at);
          continue;
        }
        FoundWithin(s, from, total, at);
        return;
      }
    }
  }

  lemma SearchRound(s: Spec, at: Time, n: nat)
    requires Search(s, at, n).Some?
    ensures if Matches(s, at) then Search(s, at, n) == Some(at)
            else n > 0 && Search(s, Jump(s, at), n - 1) == Search(s, at, n)
  {
    hide Matches, Jump;
  }

  lemma FoundWithin(s: Spec, from: Time, total: nat, r: Time)
    requires Search(s, NextSecond(s, from), total) == Some(r)
    ensures Returns(s, from, r)
  {
  }

  lemma JoinNothing(c: char)
    ensures Join([], c) == ""
  {
  }

  method WriteNames(b: string, list: seq<int>, name: int -> string) returns (r: string)
    ensures r == b + FieldText(list, name)
  {
    hide Join, NamesOf;
    if list == [] {
      return b + "*";
    }
    var text := "";
    JoinNothing(',');
    ghost var names := NamesOf(list, name);
    NamesOfMembers(list, name);
    for i := 0 to |list|
      invariant text == Join(names[..i], ',')
    {
      if i > 0 {
        text := text + ",";
      }
      text := text + name(list[i]);
      JoinAppend(names[..i], names[i], ',');
      assert names[..i + 1] == names[..i] + [names[i]];
    }
    assert names[..|list|] == names;
    return b + text;
  }

  // ---------- The scheduler's loop ----------

  const MAX_SLEEP := 15 * MINUTE

  /**
   One round of the loop as the outside world decides it: the wall clock when the round starts, how much
   longer than asked the sleep lasts, by how much the wall clock is set meanwhile, and whether the
   context is cancelled before the sleep ends.
   */
  datatype Round = Round(now: Time, oversleep: nat, step: int, cancelled: bool)

  /** A tick sent, and the wall clock when it is. */
  datatype Sent = Sent(tick: Time, at: Time)

  /** How many rounds are begun before the first in which the context is cancelled. */
  function Reached(rounds: seq<Round>): (n: nat)
    ensures n <= |rounds| && forall i | 0 <= i < n :: !rounds[i].cancelled
    ensures n < |rounds| ==> rounds[n].cancelled
  {
    if rounds == [] || rounds[0].cancelled then 0 else 1 + Reached(rounds[1..])
  }

  /** The wall clock when a tick is sent in a round: at once when it is overdue, and otherwise after the sleep. */
  function SentAt(tick: Time, round: Round): Time {
    if tick <= round.now then round.now + round.step else tick + round.oversleep + round.step
  }

  /** How many of the rounds in a list come before round `i`. */
  function CountBefore(fired: seq<nat>, i: nat): (n: nat)
    ensures n <= |fired|
  {
    if fired == [] then 0
    else CountBefore(fired[..|fired| - 1], i) + if fired[|fired| - 1] < i then 1 else 0
  }

  lemma {:induction false} CountBeforeAll(fired: seq<nat>, i: nat)
    requires forall k | 0 <= k < |fired| :: fired[k] < i
    ensures CountBefore(fired, i) == |fired|
  {
    if fired != [] {
      CountBeforeAll(fired[..|fired| - 1], i);
    }
  }

  lemma CountBeforeAppend(fired: seq<nat>, f: nat, i: nat)
    ensures CountBefore(fired + [f], i) == CountBefore(fired, i) + if f < i then 1 else 0
  {
    assert (fired + [f])[..|fired|] == fired;
  }

  /**
   The rounds in which ticks were sent are exactly those whose pending tick, the first one not sent before, is less
   than 15 minutes after the wall clock.
   */
  ghost predicate FiresWhenDue(ticks: seq<Time>, fired: seq<nat>, rounds: seq<Round>, n: nat)
    requires n <= |rounds| && |ticks| == |fired| + 1
  {
    forall i: nat | i < n :: i in fired <==> ticks[CountBefore(fired, i)] - rounds[i].now < 900_000_000_000
  }

  /** The rounds before round `n` in which ticks were sent, one each, in order, and when the ticks were sent. */
  ghost predicate FiresInOrder(sent: seq<Sent>, fired: seq<nat>, rounds: seq<Round>, n: nat)
    requires n <= |rounds|
  {
    && |fired| == |sent|
    && (forall j, k | 0 <= j < k < |fired| :: fired[j] < fired[k])
    && forall k | 0 <= k < |fired| :: fired[k] < n && sent[k].at == SentAt(sent[k].tick, rounds[fired[k]])
  }

  /** What holds after `n` rounds. */
  ghost predicate Progress(
    s: Spec, start: Time, sent: seq<Sent>, fired: seq<nat>, pending: Time, rounds: seq<Round>, n: nat)
    requires n <= |rounds|
  {
    && IsChain(s, start, Ticks(sent) + [pending])
    && FiresInOrder(sent, fired, rounds, n)
    && FiresWhenDue(Ticks(sent) + [pending], fired, rounds, n)
  }

  lemma ProgressStarts(s: Spec, start: Time, first: Time, rounds: seq<Round>)
    requires Returns(s, start, first)
    ensures Progress(s, start, [], [], first, rounds, 0)
  {
    hide Returns;
    assert Ticks([]) + [first] == [first];
  }

  lemma ProgressWaits(
    s: Spec, start: Time, sent: seq<Sent>, fired: seq<nat>, pending: Time, rounds: seq<Round>, n: nat)
    requires n < |rounds| && Progress(s, start, sent, fired, pending, rounds, n)
    requires pending - rounds[n].now >= 900_000_000_000
    ensures Progress(s, start, sent, fired, pending, rounds, n + 1)
  {
    hide IsChain;
    CountBeforeAll(fired, n);
    hide CountBefore;
    var ticks := Ticks(sent) + [pending];
    assert ticks[|fired|] == pending && n !in fired;
    assert FiresWhenDue(ticks, fired, rounds, n + 1) by {
      forall i: nat | i < n + 1
        ensures i in fired <==> ticks[CountBefore(fired, i)] - rounds[i].now < 900_000_000_000 {
        if i < n {
          assert FiresWhenDue(ticks, fired, rounds, n);
        }
      }
    }
    hide FiresWhenDue;
  }

  lemma ProgressSends(
    s: Spec, start: Time, sent: seq<Sent>, fired: seq<nat>, pending: Time, rounds: seq<Round>, n: nat,
    e: Sent, next: Time)
    requires n < |rounds| && Progress(s, start, sent, fired, pending, rounds, n)
    requires pending - rounds[n].now < 900_000_000_000 && e == Sent(pending, SentAt(pending, rounds[n]))
    requires Returns(s, pending, next)
    ensures Progress(s, start, sent + [e], fired + [n], next, rounds, n + 1)
  {
    hide Returns, IsChain, FiresWhenDue, FiresInOrder;
    var ticks := Ticks(sent) + [pending];
    ChainExtends(s, start, ticks, next);
    assert Ticks(sent + [e]) == ticks;
    SendsInOrder(sent, fired, rounds, n, e);
    SendsWhenDue(ticks, fired, rounds, n, next);
  }

  lemma SendsInOrder(sent: seq<Sent>, fired: seq<nat>, rounds: seq<Round>, n: nat, e: Sent)
    requires n < |rounds| && FiresInOrder(sent, fired, rounds, n) && e.at == SentAt(e.tick, rounds[n])
    ensures FiresInOrder(sent + [e], fired + [n], rounds, n + 1)
    ensures |fired| == |sent| && forall k | 0 <= k < |fired| :: fired[k] < n
  {
  }

  lemma SendsWhenDue(ticks: seq<Time>, fired: seq<nat>, rounds: seq<Round>, n: nat, next: Time)
    requires n < |rounds| && |ticks| == |fired| + 1 && forall k | 0 <= k < |fired| :: fired[k] < n
    requires FiresWhenDue(ticks, fired, rounds, n) && ticks[|fired|] - rounds[n].now < 900_000_000_000
    ensures FiresWhenDue(ticks + [next], fired + [n], rounds, n + 1)
  {
    CountBeforeAll(fired, n);
    forall i: nat | i < n + 1
      ensures i in fired + [n] <==>
              (ticks + [next])[CountBefore(fired + [n], i)] - rounds[i].now < 900_000_000_000
    {
      CountBeforeAppend(fired, n, i);
    }
  }

  lemma SentInTime(sent: seq<Sent>, fired: seq<nat>, rounds: seq<Round>, n: nat)
    requires n <= |rounds| && FiresInOrder(sent, fired, rounds, n)
    ensures (forall r | r in rounds :: r.step >= 0) ==> forall e | e in sent :: e.at >= e.tick
  {
    if forall r | r in rounds :: r.step >= 0 {
      forall k | 0 <= k < |sent| ensures sent[k].at >= sent[k].tick {
        assert rounds[fired[k]] in rounds;
      }
    }
  }

  /** `n` is the first round in which the context is cancelled, or there is none and `n` is their number. */
  lemma ReachedIs(rounds: seq<Round>, n: nat)
    requires n <= |rounds| && (forall i | 0 <= i < n :: !rounds[i].cancelled)
    requires n < |rounds| ==> rounds[n].cancelled
    ensures Reached(rounds) == n
    ensures n < |rounds| <==> exists r | r in rounds :: r.cancelled
  {
    if n < |rounds| {
      assert rounds[n] in rounds;
    }
  }

  /**
   The loop over any number of rounds: what it has sent, in which rounds, the tick it would send next, and whether
   it was stopped. Every round that is reached sends the pending tick if that is due, and nothing otherwise.
   */
  method Run(ticker: Ticker, start: Time, rounds: seq<Round>)
    returns (sent: seq<Sent>, fired: seq<nat>, pending: Time, stopped: bool)
    requires NormalForm(ticker.Fields()) && HasDate(ticker.Fields())
    ensures IsChain(ticker.Fields(), start, Ticks(sent) + [pending])
    ensures stopped <==> exists r | r in rounds :: r.cancelled
    ensures FiresInOrder(sent, fired, rounds, Reached(rounds))
    ensures FiresWhenDue(Ticks(sent) + [pending], fired, rounds, Reached(rounds))
    ensures (forall r | r in rounds :: r.step >= 0) ==> forall e | e in sent :: e.at >= e.tick
  {
    hide HasDate, NormalForm, Returns, Progress;
    sent, fired := [], [];
    pending := ticker.Next(start);
    ProgressStarts(ticker.Fields(), start, pending, rounds);
    for i := 0 to |rounds|
      invariant forall j | 0 <= j < i :: !rounds[j].cancelled
      invariant Progress(ticker.Fields(), start, sent, fired, pending, rounds, i)
    {
      var round := rounds[i];
      var d := pending - round.now;
      if d >= MAX_SLEEP {
        if round.cancelled {
          Finish(ticker.Fields(), start, sent, fired, pending, rounds, i);
          return sent, fired, pending, true;
        }
        ProgressWaits(ticker.Fields(), start, sent, fired, pending, rounds, i);
        continue;
      }
      if round.cancelled {
        Finish(ticker.Fields(), start, sent, fired, pending, rounds, i);
        return sent, fired, pending, true;
      }
      var asleep := if d <= 0 then 0 else d + round.oversleep;
      var next := ticker.Next(pending);
      var e := Sent(pending, round.now + asleep + round.step);
      ProgressSends(ticker.Fields(), start, sent, fired, pending, rounds, i, e, next);
      sent, fired, pending := sent + [e], fired + [i], next;
    }
    Finish(ticker.Fields(), start, sent, fired, pending, rounds, |rounds|);
    return sent, fired, pending, false;
  }

  lemma Finish(s: Spec, start: Time, sent: seq<Sent>, fired: seq<nat>, pending: Time, rounds: seq<Round>, n: nat)
    requires n <= |rounds| && Progress(s, start, sent, fired, pending, rounds, n)
    requires (forall j | 0 <= j < n :: !rounds[j].cancelled) && (n < |rounds| ==> rounds[n].cancelled)
    ensures IsChain(s, start, Ticks(sent) + [pending])
    ensures n < |rounds| <==> exists r | r in rounds :: r.cancelled
    ensures FiresInOrder(sent, fired, rounds, Reached(rounds))
    ensures FiresWhenDue(Ticks(sent) + [pending], fired, rounds, Reached(rounds))
    ensures (forall r | r in rounds :: r.step >= 0) ==> forall e | e in sent :: e.at >= e.tick
  {
    hide IsChain, FiresWhenDue;
    ReachedIs(rounds, n);
    SentInTime(sent, fired, rounds, n);
  }

  function Ticks(sent: seq<Sent>): (ts: seq<Time>)
    ensures |ts| == |sent| && forall i | 0 <= i < |sent| :: ts[i] == sent[i].tick
  {
    seq(|sent|, i requires 0 <= i < |sent| => sent[i].tick)
  }

  /** The instant after which tick `i` of a chain is sought. */
  function Before(start: Time, ticks: seq<Time>, i: nat): Time
    requires i <= |ticks|
  {
    if i == 0 then start else ticks[i - 1]
  }

  /** Each tick is what the search returns from the one before it, the first from the start. */
  ghost predicate IsChain(s: Spec, start: Time, ticks: seq<Time>) {
    forall i | 0 <= i < |ticks| :: Returns(s, Before(start, ticks, i), ticks[i])
  }

  lemma ChainAt(s: Spec, start: Time, ticks: seq<Time>, i: nat)
    requires IsChain(s, start, ticks) && i < |ticks|
    ensures Returns(s, Before(start, ticks, i), ticks[i])
  {
    hide Returns;
  }

  lemma ChainPrefix(s: Spec, start: Time, ticks: seq<Time>, n: Time)
    requires IsChain(s, start, ticks + [n])
    ensures IsChain(s, start, ticks)
  {
    hide Returns;
    var all := ticks + [n];
    forall i | 0 <= i < |ticks| ensures Returns(s, Before(start, ticks, i), ticks[i]) {
      assert Before(start, ticks, i) == Before(start, all, i) && ticks[i] == all[i];
    }
  }

  lemma ChainExtends(s: Spec, start: Time, ticks: seq<Time>, n: Time)
    requires IsChain(s, start, ticks) && Returns(s, Before(start, ticks, |ticks|), n)
    ensures IsChain(s, start, ticks + [n])
  {
    hide Returns;
    var all := ticks + [n];
    forall i | 0 <= i < |all| ensures Returns(s, Before(start, all, i), all[i]) {
      assert Before(start, all, i) == Before(start, ticks, i);
      assert i < |ticks| ==> all[i] == ticks[i];
    }
  }

  lemma IncreasingAppend(front: seq<int>, t: int)
    requires Increasing(front) && (front != [] ==> front[|front| - 1] < t)
    ensures Increasing(front + [t])
  {
  }

  /** A chain is strictly increasing and consists of ticks after the start. */
  lemma {:induction false} ChainIncreases(s: Spec, start: Time, ticks: seq<Time>)
    requires NormalForm(s) && IsChain(s, start, ticks)
    ensures Increasing(ticks) && forall t | t in ticks :: start < t && IsTick(s, t)
  {
    hide IsTick, SkipProne, NormalForm, Returns, IsEarlyMarch, Increasing, IsChain;
    if ticks == [] {
      IncreasingNothing();
    } else {
      var n := |ticks| - 1;
      var front := ticks[..n];
      assert ticks == front + [ticks[n]];
      ChainPrefix(s, start, front, ticks[n]);
      ChainIncreases(s, start, front);
      ChainAt(s, start, ticks, n);
      ReturnsTick(s, Before(start, ticks, n), ticks[n]);
      assert n > 0 ==> front[n - 1] in front;
      IncreasingAppend(front, ticks[n]);
    }
  }

  lemma IncreasingNothing()
    ensures Increasing([])
  {
  }

  /** Unless the schedule is skip-prone, a chain holds every tick after the start up to its last. */
  lemma {:induction false} ChainSkipsNoTick(s: Spec, start: Time, ticks: seq<Time>, u: Time)
    requires NormalForm(s) && !SkipProne(s) && IsChain(s, start, ticks)
    requires IsTick(s, u) && start < u && ticks != [] && u <= ticks[|ticks| - 1]
    ensures u in ticks
  {
    hide IsTick, SkipProne, NormalForm, Returns, IsEarlyMarch;
    var n := |ticks| - 1;
    var front := ticks[..n];
    assert ticks == front + [ticks[n]];
    ChainPrefix(s, start, front, ticks[n]);
    ReturnsTick(s, Before(start, ticks, n), ticks[n]);
    if n > 0 && u <= front[n - 1] {
      ChainSkipsNoTick(s, start, front, u);
    }
  }
}
