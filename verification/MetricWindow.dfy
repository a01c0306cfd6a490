/** Metric points aggregated over a sliding window of minutes, one slot a minute. */
module MetricWindow {
  /** A value and its time, in nanoseconds since 1970. */
  datatype Point = Point(value: real, time: int)

  datatype Aggregate = Replace | Ignore | Sum | Max | Min

  const MINUTE: int := 60_000_000_000

  /** The time of a point that was never set: the start of the year 1. */
  const ZERO_TIME: int := -62_135_596_800_000_000_000

  /** Window lengths beyond this many minutes overflow the 64 bits of a duration. */
  const LONGEST_WINDOW: int := 153_722_867

  function Combine(o: Aggregate, a: real, b: real): real {
    match o
    case Replace => b
    case Ignore => a
    case Sum => a + b
    case Max => if a > b then a else b
    case Min => if a < b then a else b
  }

  function Slot(window: nat, time: int): (s: nat)
    requires window > 0 && time >= 0
    ensures s < window
  {
    time / MINUTE % window
  }

  function WindowStart(window: nat, now: int): int {
    now - window * MINUTE
  }

  // ---------- The aggregate of a list of points ----------

  function Fold(o: Aggregate, ps: seq<Point>): real
    requires ps != []
  {
    var n := |ps| - 1;
    if n == 0 then ps[0].value else Combine(o, Fold(o, ps[..n]), ps[n].value)
  }

  function Newest(ps: seq<Point>): int
    requires ps != []
  {
    var n := |ps| - 1;
    if n == 0 then ps[0].time
    else if Newest(ps[..n]) < ps[n].time then ps[n].time
    else Newest(ps[..n])
  }

  lemma {:induction false} NewestIsLast(ps: seq<Point>) returns (newest: Point)
    requires ps != []
    ensures newest in ps && newest.time == Newest(ps)
    ensures forall p | p in ps :: p.time <= Newest(ps)
  {
    var n := |ps| - 1;
    newest := ps[n];
    if n > 0 {
      var before := NewestIsLast(ps[..n]);
      if ps[n].time <= before.time {
        newest := before;
      }
      assert forall p | p in ps :: p in ps[..n] || p == ps[n];
    }
  }

  function Summary(o: Aggregate, ps: seq<Point>): Point {
    if ps == [] then Point(0.0, ZERO_TIME) else Point(Fold(o, ps), Newest(ps))
  }

  lemma {:induction false} FoldConcat(o: Aggregate, a: seq<Point>, b: seq<Point>)
    requires a != [] && b != []
    ensures Fold(o, a + b) == Combine(o, Fold(o, a), Fold(o, b))
  {
    var n := |b| - 1;
    var s := a + b;
    assert s[|s| - 1] == b[n] && s[..|s| - 1] == a + b[..n];
    if n == 0 {
      assert a + b[..n] == a;
    } else {
      FoldConcat(o, a, b[..n]);
    }
  }

  lemma NewestConcat(a: seq<Point>, b: seq<Point>)
    requires a != [] && b != []
    ensures Newest(a + b) == if Newest(a) < Newest(b) then Newest(b) else Newest(a)
  {
    var p := NewestIsLast(a);
    var q := NewestIsLast(b);
    var r := NewestIsLast(a + b);
    assert p in a + b && q in a + b;
  }

  // ---------- Which points the slots hold ----------

  /** The points each slot aggregates, oldest arrival first. */
  type Tracked = seq<seq<Point>>

  predicate Live(ps: seq<Point>, t: int) {
    ps != [] && Newest(ps) >= t
  }

  /** The points tracked after a point arrives: too old a point is dropped, and too old a slot starts again. */
  function Track(tracked: Tracked, t: int, p: Point): (r: Tracked)
    requires tracked != [] && p.time >= 0
    ensures |r| == |tracked|
  {
    var s := Slot(|tracked|, p.time);
    if p.time < t then tracked
    else if Live(tracked[s], t) then tracked[s := tracked[s] + [p]]
    else tracked[s := [p]]
  }

  /** The points of the slots that still have one in the window, later slots first. */
  function Flat(tracked: Tracked, t: int): seq<Point> {
    if tracked == [] then [] else Flat(tracked[1..], t) + if Live(tracked[0], t) then tracked[0] else []
  }

  /** Every slot has only points of its minutes, and none more often than it was added. */
  ghost predicate Sorted(tracked: Tracked) {
    forall s: int, p: Point | 0 <= s < |tracked| && p in tracked[s] :: p.time >= 0 && Slot(|tracked|, p.time) == s
  }

  /** Every point in the window is in its slot exactly as often as it was added. */
  ghost predicate Complete(tracked: Tracked, added: seq<Point>, t: int) {
    && (forall s: int, p: Point | 0 <= s < |tracked| :: multiset(tracked[s])[p] <= multiset(added)[p])
    && (forall p: Point | p in added && p.time >= t ::
          && tracked != [] && p.time >= 0
          && multiset(tracked[Slot(|tracked|, p.time)])[p] == multiset(added)[p])
  }

  lemma TrackKeeps(tracked: Tracked, added: seq<Point>, t: int, t': int, p: Point)
    requires Sorted(tracked) && Complete(tracked, added, t) && t <= t' && tracked != [] && p.time >= 0
    ensures Sorted(Track(tracked, t', p)) && Complete(Track(tracked, t', p), added + [p], t')
  {
    var r := Track(tracked, t', p);
    var s := Slot(|tracked|, p.time);
    if tracked[s] != [] {
      var newest := NewestIsLast(tracked[s]);
    }
    assert multiset(added + [p]) == multiset(added) + multiset{p};
    assert multiset(tracked[s] + [p]) == multiset(tracked[s]) + multiset{p};
  }

  /** What a reading aggregates: all points of the window, and possibly some that were in it with one of them. */
  ghost predicate Covers(flat: seq<Point>, added: seq<Point>, t: int) {
    && (forall p: Point :: multiset(flat)[p] <= multiset(added)[p])
    && (forall p: Point | p.time >= t :: multiset(flat)[p] == multiset(added)[p])
    && (flat != [] ==> Newest(flat) >= t)
  }

  lemma {:induction false} FlatCount(ts: Tracked, t: int, p: Point, s: int)
    requires forall i | 0 <= i < |ts| && i != s :: p !in ts[i]
    ensures multiset(Flat(ts, t))[p] == if 0 <= s < |ts| && Live(ts[s], t) then multiset(ts[s])[p] else 0
  {
    if ts != [] {
      FlatCount(ts[1..], t, p, s - 1);
      var head := if Live(ts[0], t) then ts[0] else [];
      assert multiset(Flat(ts, t)) == multiset(Flat(ts[1..], t)) + multiset(head);
      assert s != 0 ==> p !in head;
    }
  }

  lemma {:induction false} FlatIsLive(ts: Tracked, t: int)
    ensures Flat(ts, t) != [] ==> Newest(Flat(ts, t)) >= t
  {
    if ts != [] {
      FlatIsLive(ts[1..], t);
      if Live(ts[0], t) && Flat(ts[1..], t) != [] {
        NewestConcat(Flat(ts[1..], t), ts[0]);
      } else if Live(ts[0], t) {
        assert Flat(ts, t) == ts[0];
      } else {
        assert Flat(ts, t) == Flat(ts[1..], t);
      }
    }
  }

  lemma PointCount(tracked: Tracked, added: seq<Point>, t: int, p: Point)
    requires Sorted(tracked) && Complete(tracked, added, t)
    ensures multiset(Flat(tracked, t))[p] <= multiset(added)[p]
    ensures p.time >= t ==> multiset(Flat(tracked, t))[p] == multiset(added)[p]
  {
    if p in added && p.time >= t {
      var s := Slot(|tracked|, p.time);
      FlatCount(tracked, t, p, s);
      var newest := NewestIsLast(tracked[s]);
    } else if i :| 0 <= i < |tracked| && p in tracked[i] {
      FlatCount(tracked, t, p, i);
      assert multiset(tracked[i])[p] <= multiset(added)[p];
    } else {
      FlatCount(tracked, t, p, -1);
    }
  }

  lemma FlatCovers(tracked: Tracked, added: seq<Point>, t: int)
    requires Sorted(tracked) && Complete(tracked, added, t)
    ensures Covers(Flat(tracked, t), added, t)
  {
    FlatIsLive(tracked, t);
    forall p: Point
      ensures multiset(Flat(tracked, t))[p] <= multiset(added)[p]
      ensures p.time >= t ==> multiset(Flat(tracked, t))[p] == multiset(added)[p]
    {
      PointCount(tracked, added, t, p);
    }
  }

  // ---------- The points added so far ----------

  /** A point, and the time at which it was added. */
  datatype Arrival = Arrival(now: int, point: Point)

  predicate Timely(h: seq<Arrival>) {
    forall a | a in h :: a.point.time >= 0
  }

  /** Points are added at times that do not go back, the last of them not after `clock`. */
  predicate InOrder(h: seq<Arrival>, clock: int) {
    && (forall i, j | 0 <= i < j < |h| :: h[i].now <= h[j].now)
    && forall i | 0 <= i < |h| :: h[i].now <= clock
  }

  function Points(h: seq<Arrival>): (ps: seq<Point>)
    ensures |ps| == |h|
  {
    seq(|h|, i requires 0 <= i < |h| => h[i].point)
  }

  /** What the slots track after all these points were added. */
  function TrackedAfter(window: nat, h: seq<Arrival>): (r: Tracked)
    requires window > 0 && Timely(h)
    ensures |r| == window
  {
    if h == [] then seq(window, _ => [])
    else
      var n := |h| - 1;
      assert forall a | a in h[..n] :: a in h;
      Track(TrackedAfter(window, h[..n]), WindowStart(window, h[n].now), h[n].point)
  }

  /** The points that a reading aggregates. */
  function Reading(window: nat, h: seq<Arrival>, now: int): seq<Point>
    requires window > 0 && Timely(h)
  {
    Flat(TrackedAfter(window, h), WindowStart(window, now))
  }

  lemma TrackedAppend(window: nat, h: seq<Arrival>, a: Arrival)
    requires window > 0 && Timely(h) && a.point.time >= 0
    ensures Timely(h + [a])
    ensures TrackedAfter(window, h + [a]) == Track(TrackedAfter(window, h), WindowStart(window, a.now), a.point)
    ensures Points(h + [a]) == Points(h) + [a.point]
  {
    assert (h + [a])[..|h|] == h;
  }

  lemma {:induction false} TrackedKeeps(window: nat, h: seq<Arrival>, clock: int)
    requires window > 0 && Timely(h) && InOrder(h, clock)
    ensures Sorted(TrackedAfter(window, h))
    ensures Complete(TrackedAfter(window, h), Points(h), WindowStart(window, clock))
  {
    if h != [] {
      hide Sorted, Complete, Track;
      var n := |h| - 1;
      var t := WindowStart(window, h[n].now);
      assert h == h[..n] + [h[n]];
      assert h[n] in h && forall a | a in h[..n] :: a in h;
      TrackedAppend(window, h[..n], h[n]);
      TrackedKeeps(window, h[..n], h[n].now);
      TrackKeeps(TrackedAfter(window, h[..n]), Points(h[..n]), t, t, h[n].point);
      Later(TrackedAfter(window, h), Points(h), t, WindowStart(window, clock));
    }
  }

  /** A reading covers the window: all of its points are aggregated, each as often as it was added. */
  lemma ReadingCovers(window: nat, h: seq<Arrival>, now: int)
    requires window > 0 && Timely(h) && InOrder(h, now)
    ensures Covers(Reading(window, h, now), Points(h), WindowStart(window, now))
    ensures forall p: Point | p.time >= now - window * 60_000_000_000 ::
              multiset(Reading(window, h, now))[p] == multiset(Points(h))[p]
  {
    TrackedKeeps(window, h, now);
    FlatCovers(TrackedAfter(window, h), Points(h), WindowStart(window, now));
  }

  // ---------- The ring of slots ----------

  /** Each slot has the aggregate and the newest time of its points. */
  predicate Synced(o: Aggregate, values: seq<Point>, tracked: Tracked) {
    |values| == |tracked| && forall s | 0 <= s < |values| :: values[s] == Summary(o, tracked[s])
  }

  lemma SummaryAppend(o: Aggregate, ps: seq<Point>, p: Point)
    requires ps != []
    ensures
      var m := Summary(o, ps);
      Summary(o, ps + [p]) == Point(Combine(o, m.value, p.value), if m.time < p.time then p.time else m.time)
  {
    assert (ps + [p])[..|ps|] == ps;
  }

  lemma SummaryConcat(o: Aggregate, a: seq<Point>, b: seq<Point>)
    requires a != [] && b != []
    ensures
      var m, n := Summary(o, a), Summary(o, b);
      Summary(o, a + b) == Point(Combine(o, m.value, n.value), if m.time < n.time then n.time else m.time)
  {
    FoldConcat(o, a, b);
    NewestConcat(a, b);
  }

  /** What a slot holds after a point in the window was added to it. */
  function Placed(o: Aggregate, t: int, v: Point, p: Point): Point {
    if v.time < t then p else Point(Combine(o, v.value, p.value), if v.time < p.time then p.time else v.time)
  }

  lemma PlacedSummary(o: Aggregate, t: int, ps: seq<Point>, p: Point)
    requires t > ZERO_TIME
    ensures Placed(o, t, Summary(o, ps), p) == Summary(o, if Live(ps, t) then ps + [p] else [p])
  {
    if ps != [] {
      SummaryAppend(o, ps, p);
    }
  }

  lemma TrackSynced(o: Aggregate, values: seq<Point>, tracked: Tracked, t: int, p: Point)
    requires Synced(o, values, tracked) && tracked != [] && p.time >= 0 && t > ZERO_TIME
    ensures
      var s := Slot(|values|, p.time);
      if p.time < t then Synced(o, values, Track(tracked, t, p))
      else Synced(o, values[s := Placed(o, t, values[s], p)], Track(tracked, t, p))
  {
    var s := Slot(|values|, p.time);
    hide Slot, Placed, Summary, Live;
    PlacedSummary(o, t, tracked[s], p);
  }

  lemma AddSynced(o: Aggregate, window: nat, values: seq<Point>, h: seq<Arrival>, a: Arrival)
    requires 0 < window <= LONGEST_WINDOW && |values| == window && Timely(h) && a.now >= 0 && a.point.time >= 0
    requires Synced(o, values, TrackedAfter(window, h))
    ensures
      var t := WindowStart(window, a.now);
      var s := Slot(window, a.point.time);
      && Timely(h + [a])
      && Synced(o, if a.point.time < t then values else values[s := Placed(o, t, values[s], a.point)],
                TrackedAfter(window, h + [a]))
  {
    hide Track, Slot, Placed, TrackedAfter;
    TrackedAppend(window, h, a);
    TrackSynced(o, values, TrackedAfter(window, h), WindowStart(window, a.now), a.point);
  }

  /** What a reading has after another slot was looked at. */
  function Read(o: Aggregate, t: int, mp: Point, v: Point): Point {
    if v.time < t then mp
    else if mp.time == ZERO_TIME then v
    else Point(Combine(o, mp.value, v.value), if v.time > mp.time then v.time else mp.time)
  }

  lemma ReadSlot(o: Aggregate, ts: Tracked, t: int, i: nat)
    requires i < |ts| && t > ZERO_TIME
    ensures
      Summary(o, Flat(ts[i..], t)) == Read(o, t, Summary(o, Flat(ts[i + 1..], t)), Summary(o, ts[i]))
  {
    var rest := Flat(ts[i + 1..], t);
    assert ts[i..][1..] == ts[i + 1..];
    FlatIsLive(ts[i + 1..], t);
    if Live(ts[i], t) {
      assert Flat(ts[i..], t) == rest + ts[i];
      if rest == [] {
        assert rest + ts[i] == ts[i];
      } else {
        SummaryConcat(o, rest, ts[i]);
      }
    } else {
      assert Flat(ts[i..], t) == rest + [] == rest;
    }
  }

  class MetricAggregated {
    const aggregate: Aggregate
    const windowLengthMin: nat
    var values: array<Point>
    ghost var history: seq<Arrival>
    ghost var clock: int

    ghost predicate Valid()
      reads this, values
    {
      && 0 <= clock && Timely(history) && InOrder(history, clock)
      && if windowLengthMin == 0 then
        (history == [] && values.Length == 0)
        || (history != [] && values.Length == 1 && values[0] == history[|history| - 1].point)
      else
        && windowLengthMin <= LONGEST_WINDOW
        && (values.Length == 0 ==> history == [])
        && (values.Length != 0 ==>
              && values.Length == windowLengthMin
              && Synced(aggregate, values[..], TrackedAfter(windowLengthMin, history)))
    }

    constructor (aggregate: Aggregate, windowLengthMin: nat)
      requires windowLengthMin <= LONGEST_WINDOW
      ensures Valid() && history == [] && clock == 0 && fresh(values)
      ensures this.aggregate == aggregate && this.windowLengthMin == windowLengthMin
    {
      this.aggregate, this.windowLengthMin := aggregate, windowLengthMin;
      values := new Point[0];
      history, clock := [], 0;
    }

    /** Makes the slots when there are none yet. */
    method Allocate()
      requires Valid() && windowLengthMin > 0
      modifies this
      ensures Valid() && values.Length == windowLengthMin && history == old(history) && clock == old(clock)
      ensures fresh(values) || values == old(values)
    {
      if values.Length != windowLengthMin {
        values := new Point[windowLengthMin](_ => Point(0.0, ZERO_TIME));
      }
    }

    /** Overwrites a slot that is too old, or else adds the point to it. */
    method Place(s: nat, t: int, mp: Point)
      requires s < values.Length
      modifies values
      ensures values[..] == old(values[..])[s := Placed(aggregate, t, old(values[..][s]), mp)]
    {
      if values[s].time < t {
        values[s] := mp;
        return;
      }
      if values[s].time < mp.time {
        values[s] := values[s].(time := mp.time);
      }
      values[s] := values[s].(value := Combine(aggregate, values[s].value, mp.value));
    }

    /** Adds a point to its slot, unless it has left the window. */
    method AddToSlot(now: int, mp: Point)
      requires Valid() && clock <= now && 0 <= mp.time && values.Length == windowLengthMin > 0
      modifies this, values
      ensures Valid() && history == old(history) + [Arrival(now, mp)] && clock == now && values == old(values)
    {
      hide Synced, TrackedAfter, Slot, Placed;
      var s := Slot(windowLengthMin, mp.time);
      var t := WindowStart(windowLengthMin, now);
      AddSynced(aggregate, windowLengthMin, values[..], history, Arrival(now, mp));
      hide WindowStart;
      if mp.time >= t {
        Place(s, t, mp);
      }
      history, clock := history + [Arrival(now, mp)], now;
    }

    /** Takes in a point, at a time `now` that does not go back. */
    method Add(now: int, mp: Point)
      requires Valid() && clock <= now && 0 <= mp.time
      modifies this, values
      ensures Valid() && history == old(history) + [Arrival(now, mp)] && clock == now
      ensures fresh(values) || values == old(values)
    {
      hide Synced;
      if windowLengthMin == 0 {
        values := new Point[1](_ => mp);
        history, clock := history + [Arrival(now, mp)], now;
        return;
      }
      Allocate();
      AddToSlot(now, mp);
    }

    /** Aggregates the tracked points of the live slots, which include all of the window. */
    method Get(now: int) returns (mp: Point)
      requires Valid() && clock <= now
      ensures windowLengthMin == 0 ==>
        mp == if history == [] then Point(0.0, ZERO_TIME) else history[|history| - 1].point
      ensures windowLengthMin > 0 ==>
        && mp == Summary(aggregate, Reading(windowLengthMin, history, now))
        && Covers(Reading(windowLengthMin, history, now), Points(history), WindowStart(windowLengthMin, now))
    {
      mp := Point(0.0, ZERO_TIME);
      if windowLengthMin > 0 {
        ReadingCovers(windowLengthMin, history, now);
      }
      if values.Length == 0 {
        if windowLengthMin > 0 {
          NothingTracked(windowLengthMin, WindowStart(windowLengthMin, now));
        }
        return;
      }
      if windowLengthMin == 0 {
        return values[0];
      }
      hide Covers, Flat, Summary, TrackedAfter;
      ghost var tracked := TrackedAfter(windowLengthMin, history);
      var t := WindowStart(windowLengthMin, now);
      var i := values.Length - 1;
      FlatNothing(aggregate, t);
      while i >= 0
        invariant -1 <= i < values.Length
        invariant mp == Summary(aggregate, Flat(tracked[i + 1..], t))
      {
        ReadSlot(aggregate, tracked, t, i);
        if values[i].time >= t {
          if mp.time == ZERO_TIME {
            mp := values[i];
          } else {
            var newer := values[i].time > mp.time;
            if newer {
              mp := mp.(time := values[i].time);
            }
            mp := mp.(value := Combine(aggregate, mp.value, values[i].value));
          }
        }
        i := i - 1;
      }
      assert tracked[0..] == tracked;
    }
  }

  lemma {:induction false} NothingTracked(window: nat, t: int)
    ensures Flat(seq(window, _ => []), t) == []
  {
    if window > 0 {
      NothingTracked(window - 1, t);
      assert seq(window, _ => [])[1..] == seq<seq<Point>>(window - 1, _ => []);
    }
  }

  lemma FlatNothing(o: Aggregate, t: int)
    ensures Summary(o, Flat([], t)) == Point(0.0, ZERO_TIME)
  {
  }

  lemma Later(tracked: Tracked, added: seq<Point>, t: int, t': int)
    requires Complete(tracked, added, t) && t <= t'
    ensures Complete(tracked, added, t')
  {
  }

  // ---------- What a reading says about the points that were added ----------

  lemma CoversMembers(flat: seq<Point>, added: seq<Point>, t: int)
    requires Covers(flat, added, t)
    ensures forall p | p in flat :: p in added
    ensures forall p | p in added && p.time >= t :: p in flat
  {
    forall p | p in flat ensures p in added {
      assert multiset(flat)[p] <= multiset(added)[p];
    }
    forall p | p in added && p.time >= t ensures p in flat {
      assert multiset(flat)[p] == multiset(added)[p];
    }
  }

  /** The time of a reading is that of the newest point in the window, and unset exactly when there is none. */
  lemma ReadingTime(o: Aggregate, flat: seq<Point>, added: seq<Point>, t: int)
    requires Covers(flat, added, t) && t > ZERO_TIME
    ensures
      var m := Summary(o, flat);
      if forall p | p in added :: p.time < t then m == Point(0.0, ZERO_TIME)
      else m.time >= t && (exists p | p in added :: p.time == m.time) && forall p | p in added :: p.time <= m.time
  {
    CoversMembers(flat, added, t);
    if flat != [] {
      var newest := NewestIsLast(flat);
      assert newest in added && newest.time >= t;
      forall p | p in added ensures p.time <= newest.time {
        assert p.time >= t ==> p in flat;
      }
    }
  }

  lemma {:induction false} FoldMax(ps: seq<Point>) returns (p: Point)
    requires ps != []
    ensures p in ps && p.value == Fold(Max, ps)
    ensures forall q | q in ps :: q.value <= Fold(Max, ps)
  {
    var n := |ps| - 1;
    p := ps[n];
    if n > 0 {
      var before := FoldMax(ps[..n]);
      if before.value > ps[n].value {
        p := before;
      }
      assert forall q | q in ps :: q in ps[..n] || q == ps[n];
    }
  }

  lemma {:induction false} FoldMin(ps: seq<Point>) returns (p: Point)
    requires ps != []
    ensures p in ps && p.value == Fold(Min, ps)
    ensures forall q | q in ps :: q.value >= Fold(Min, ps)
  {
    var n := |ps| - 1;
    p := ps[n];
    if n > 0 {
      var before := FoldMin(ps[..n]);
      if before.value < ps[n].value {
        p := before;
      }
      assert forall q | q in ps :: q in ps[..n] || q == ps[n];
    }
  }

  /** A maximum is at least every value in the window, a minimum at most, and both are values that were added. */
  lemma ReadingBounds(flat: seq<Point>, added: seq<Point>, t: int, p: Point)
    requires Covers(flat, added, t) && p in added && p.time >= t
    ensures Summary(Max, flat).value >= p.value && exists q | q in added :: q.value == Summary(Max, flat).value
    ensures Summary(Min, flat).value <= p.value && exists q | q in added :: q.value == Summary(Min, flat).value
  {
    CoversMembers(flat, added, t);
    var high := FoldMax(flat);
    var low := FoldMin(flat);
  }

  function Total(ps: seq<Point>): real {
    if ps == [] then 0.0 else ps[0].value + Total(ps[1..])
  }

  /** The points at or after a time, and those before it. */
  function Since(ps: seq<Point>, t: int): seq<Point> {
    if ps == [] then [] else (if ps[0].time >= t then [ps[0]] else []) + Since(ps[1..], t)
  }

  function Until(ps: seq<Point>, t: int): seq<Point> {
    if ps == [] then [] else (if ps[0].time < t then [ps[0]] else []) + Until(ps[1..], t)
  }

  lemma {:induction false} TotalConcat(a: seq<Point>, b: seq<Point>)
    ensures Total(a + b) == Total(a) + Total(b)
  {
    if a == [] {
      assert a + b == b;
    } else {
      assert (a + b)[1..] == a[1..] + b;
      TotalConcat(a[1..], b);
    }
  }

  lemma {:induction false} FoldSum(ps: seq<Point>)
    requires ps != []
    ensures Fold(Sum, ps) == Total(ps)
  {
    var n := |ps| - 1;
    if n > 0 {
      FoldSum(ps[..n]);
      TotalConcat(ps[..n], [ps[n]]);
      assert ps == ps[..n] + [ps[n]];
      assert Total([ps[n]]) == ps[n].value;
    }
  }

  lemma {:induction false} TotalSplits(ps: seq<Point>, t: int)
    ensures Total(ps) == Total(Since(ps, t)) + Total(Until(ps, t))
  {
    if ps != [] {
      TotalSplits(ps[1..], t);
      TotalConcat(if ps[0].time >= t then [ps[0]] else [], Since(ps[1..], t));
      TotalConcat(if ps[0].time < t then [ps[0]] else [], Until(ps[1..], t));
      assert Total([ps[0]]) == ps[0].value;
    }
  }

  lemma {:induction false} SinceCount(ps: seq<Point>, t: int, p: Point)
    ensures multiset(Since(ps, t))[p] == if p.time >= t then multiset(ps)[p] else 0
  {
    if ps != [] {
      SinceCount(ps[1..], t, p);
      var head := if ps[0].time >= t then [ps[0]] else [];
      assert multiset(Since(ps, t)) == multiset(head) + multiset(Since(ps[1..], t));
      assert ps == [ps[0]] + ps[1..];
    }
  }

  lemma {:induction false} UntilMembers(ps: seq<Point>, t: int)
    ensures forall p | p in Until(ps, t) :: p in ps && p.time < t
  {
    if ps != [] {
      UntilMembers(ps[1..], t);
    }
  }

  lemma Cancel(x: Point, a: multiset<Point>, l: multiset<Point>, r: multiset<Point>)
    requires multiset{x} + a == l + (multiset{x} + r)
    ensures a == l + r
  {
    forall p: Point ensures a[p] == (l + r)[p] {
      assert (multiset{x} + a)[p] == (l + (multiset{x} + r))[p];
    }
  }

  lemma {:induction false} TotalPermutation(a: seq<Point>, b: seq<Point>)
    requires multiset(a) == multiset(b)
    ensures Total(a) == Total(b)
  {
    if a == [] {
      assert |multiset(b)| == 0;
    } else {
      assert a[0] in multiset(b);
      var i :| 0 <= i < |b| && b[i] == a[0];
      var rest := b[..i] + b[i + 1..];
      assert a == [a[0]] + a[1..];
      assert b == b[..i] + ([b[i]] + b[i + 1..]);
      assert multiset(b) == multiset(b[..i]) + (multiset{b[i]} + multiset(b[i + 1..]));
      Cancel(a[0], multiset(a[1..]), multiset(b[..i]), multiset(b[i + 1..]));
      assert multiset(rest) == multiset(b[..i]) + multiset(b[i + 1..]);
      TotalPermutation(a[1..], rest);
      TotalConcat(b[..i], b[i + 1..]);
      TotalConcat(b[..i], [b[i]] + b[i + 1..]);
      TotalConcat([b[i]], b[i + 1..]);
      assert Total([b[i]]) == b[i].value;
    }
  }

  /** A sum has every point in the window exactly once, and besides them only older points that were added. */
  lemma ReadingSum(flat: seq<Point>, added: seq<Point>, t: int)
    requires Covers(flat, added, t)
    ensures Summary(Sum, flat).value == Total(Since(added, t)) + Total(Until(flat, t))
    ensures forall p | p in Until(flat, t) :: p in added && p.time < t
  {
    if flat != [] {
      FoldSum(flat);
    }
    TotalSplits(flat, t);
    forall p: Point ensures multiset(Since(flat, t))[p] == multiset(Since(added, t))[p] {
      SinceCount(flat, t, p);
      SinceCount(added, t, p);
    }
    assert multiset(Since(flat, t)) == multiset(Since(added, t));
    TotalPermutation(Since(flat, t), Since(added, t));
    UntilMembers(flat, t);
    CoversMembers(flat, added, t);
  }
}
