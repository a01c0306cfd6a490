/** Which of the points ever added a reading aggregates, and when these are exactly the points in the window. */
module MetricHistory {
  import opened MetricWindow
  import Rounding

  /** A point that had not left the window when it was added. */
  predicate Accepted(window: nat, a: Arrival) {
    a.point.time >= WindowStart(window, a.now)
  }

  predicate InSlot(window: nat, a: Arrival, s: nat)
    requires window > 0 && a.point.time >= 0
  {
    Accepted(window, a) && Slot(window, a.point.time) == s
  }

  /** Some accepted point of the slot is at or after a time. */
  ghost predicate SlotLive(window: nat, h: seq<Arrival>, s: nat, t: int)
    requires window > 0 && Timely(h)
  {
    exists k | 0 <= k < |h| :: InSlot(window, h[k], s) && h[k].point.time >= t
  }

  /** The point added at position `j` finds no point of its slot in the window, so that the slot starts again. */
  ghost predicate Restarts(window: nat, h: seq<Arrival>, j: nat, s: nat)
    requires window > 0 && Timely(h) && j < |h|
  {
    InSlot(window, h[j], s) && !SlotLive(window, h[..j], s, WindowStart(window, h[j].now))
  }

  /** The point added at position `k` is in the slot, which has not started again since. */
  ghost predicate Stays(window: nat, h: seq<Arrival>, k: nat, s: nat)
    requires window > 0 && Timely(h) && k < |h|
  {
    InSlot(window, h[k], s) && forall j | k < j < |h| :: !Restarts(window, h, j, s)
  }

  /** The points among the first `n` added that stay in a slot, in the order in which they were added. */
  ghost function Staying(window: nat, h: seq<Arrival>, s: nat, n: nat): seq<Point>
    requires window > 0 && Timely(h) && n <= |h|
  {
    if n == 0 then []
    else Staying(window, h, s, n - 1) + if Stays(window, h, n - 1, s) then [h[n - 1].point] else []
  }

  // ---------- A slot tracks the points that stay in it ----------

  lemma TimelyPrefix(h: seq<Arrival>, n: nat)
    requires Timely(h) && n <= |h|
    ensures Timely(h[..n])
  {
    assert forall a | a in h[..n] :: a in h;
  }

  /** The newest time of a slot is that of its newest accepted point, whether that is still tracked or not. */
  lemma {:induction false} NewestOfSlot(window: nat, h: seq<Arrival>, s: nat)
    requires window > 0 && Timely(h) && s < window
    ensures
      var ps := TrackedAfter(window, h)[s];
      && (forall k | 0 <= k < |h| && InSlot(window, h[k], s) :: ps != [] && h[k].point.time <= Newest(ps))
      && (ps != [] ==> exists k | 0 <= k < |h| :: InSlot(window, h[k], s) && h[k].point.time == Newest(ps))
  {
    if h != [] {
      var n := |h| - 1;
      var (front, a) := (h[..n], h[n]);
      TimelyPrefix(h, n);
      assert a in h && h == front + [a];
      TrackedAppend(window, front, a);
      NewestOfSlot(window, front, s);
      var before := TrackedAfter(window, front)[s];
      hide TrackedAfter, Slot;
      if before != [] {
        NewestConcat(before, [a.point]);
        var k :| 0 <= k < n && InSlot(window, front[k], s) && front[k].point.time == Newest(before);
        assert h[k] == front[k];
      }
      assert Newest([a.point]) == a.point.time;
      assert forall k | 0 <= k < n :: h[k] == front[k];
    }
  }

  lemma LiveIsSlotLive(window: nat, h: seq<Arrival>, s: nat, t: int)
    requires window > 0 && Timely(h) && s < window
    ensures Live(TrackedAfter(window, h)[s], t) <==> SlotLive(window, h, s, t)
  {
    NewestOfSlot(window, h, s);
    hide TrackedAfter, InSlot, Newest;
  }

  /** Adding a point keeps who stays in a slot, or drops all of them when the slot starts again. */
  lemma StayingAppend(window: nat, h: seq<Arrival>, a: Arrival, s: nat, n: nat)
    requires window > 0 && Timely(h) && Timely(h + [a]) && n <= |h|
    ensures
      Staying(window, h + [a], s, n)
      == if Restarts(window, h + [a], |h|, s) then [] else Staying(window, h, s, n)
  {
    var g := h + [a];
    if n > 0 {
      StayingAppend(window, h, a, s, n - 1);
      assert Stays(window, g, n - 1, s) <==> Stays(window, h, n - 1, s) && !Restarts(window, g, |h|, s) by {
        forall j | n - 1 < j < |h| ensures Restarts(window, g, j, s) <==> Restarts(window, h, j, s) {
          assert g[..j] == h[..j];
        }
      }
    }
  }

  /** What a slot tracks is exactly what stays in it. */
  lemma {:induction false} SlotTracksStaying(window: nat, h: seq<Arrival>, s: nat)
    requires window > 0 && Timely(h) && s < window
    ensures TrackedAfter(window, h)[s] == Staying(window, h, s, |h|)
  {
    if h != [] {
      var n := |h| - 1;
      var (front, a) := (h[..n], h[n]);
      TimelyPrefix(h, n);
      assert a in h && h == front + [a];
      TrackedAppend(window, front, a);
      SlotTracksStaying(window, front, s);
      StayingAppend(window, front, a, s, n);
      LiveIsSlotLive(window, front, s, WindowStart(window, a.now));
      assert h[..n] == front;
      hide TrackedAfter, Slot, SlotLive;
      assert Stays(window, h, n, s) <==> InSlot(window, a, s);
    }
  }

  // ---------- What a reading aggregates ----------

  /** The point added at position `k` is in a reading: it stays in its slot, which still has a point in the window. */
  ghost predicate Counts(window: nat, h: seq<Arrival>, now: int, k: nat)
    requires window > 0 && Timely(h) && k < |h|
  {
    var s := Slot(window, h[k].point.time);
    Stays(window, h, k, s) && SlotLive(window, h, s, WindowStart(window, now))
  }

  /** The points among the first `n` added that are in a reading. */
  ghost function Counted(window: nat, h: seq<Arrival>, now: int, n: nat): seq<Point>
    requires window > 0 && Timely(h) && n <= |h|
  {
    if n == 0 then []
    else Counted(window, h, now, n - 1) + if Counts(window, h, now, n - 1) then [h[n - 1].point] else []
  }

  lemma CountMore(ps: seq<Point>, more: bool, q: Point, p: Point)
    ensures multiset(ps + if more then [q] else [])[p] == multiset(ps)[p] + if more && q == p then 1 else 0
  {
    assert multiset(ps + [q]) == multiset(ps) + multiset{q};
    assert ps + [] == ps;
  }

  lemma {:induction false} CountedInSlot(window: nat, h: seq<Arrival>, now: int, n: nat, p: Point)
    requires window > 0 && Timely(h) && n <= |h| && p.time >= 0
    ensures
      var s := Slot(window, p.time);
      multiset(Counted(window, h, now, n))[p]
      == if SlotLive(window, h, s, WindowStart(window, now)) then multiset(Staying(window, h, s, n))[p] else 0
  {
    if n > 0 {
      CountedInSlot(window, h, now, n - 1, p);
      hide SlotLive, Slot, Stays;
      var q := h[n - 1].point;
      CountMore(Counted(window, h, now, n - 1), Counts(window, h, now, n - 1), q, p);
      CountMore(Staying(window, h, Slot(window, p.time), n - 1), Stays(window, h, n - 1, Slot(window, p.time)), q, p);
    }
  }

  lemma {:induction false} CountedTimely(window: nat, h: seq<Arrival>, now: int, n: nat)
    requires window > 0 && Timely(h) && n <= |h|
    ensures forall p | p in Counted(window, h, now, n) :: p.time >= 0
  {
    if n > 0 {
      CountedTimely(window, h, now, n - 1);
      assert h[n - 1] in h;
    }
  }

  lemma {:induction false} CountedFrom(window: nat, h: seq<Arrival>, now: int, n: nat, p: Point) returns (k: nat)
    requires window > 0 && Timely(h) && n <= |h| && p in Counted(window, h, now, n)
    ensures k < n && Counts(window, h, now, k) && h[k].point == p
  {
    hide Counts;
    if p in Counted(window, h, now, n - 1) {
      k := CountedFrom(window, h, now, n - 1, p);
    } else {
      k := n - 1;
    }
  }

  lemma {:induction false} CountedHas(window: nat, h: seq<Arrival>, now: int, n: nat, k: nat)
    requires window > 0 && Timely(h) && k < n <= |h| && Counts(window, h, now, k)
    ensures h[k].point in Counted(window, h, now, n)
  {
    hide Counts;
    if k < n - 1 {
      CountedHas(window, h, now, n - 1, k);
    }
  }

  lemma ReadingCount(window: nat, h: seq<Arrival>, now: int, p: Point)
    requires window > 0 && Timely(h) && InOrder(h, now)
    ensures multiset(Reading(window, h, now))[p] == multiset(Counted(window, h, now, |h|))[p]
  {
    var tracked := TrackedAfter(window, h);
    TrackedKeeps(window, h, now);
    if p.time >= 0 {
      var s := Slot(window, p.time);
      hide Slot, TrackedAfter;
      FlatCount(tracked, WindowStart(window, now), p, s);
      CountedInSlot(window, h, now, |h|, p);
      LiveIsSlotLive(window, h, s, WindowStart(window, now));
      SlotTracksStaying(window, h, s);
    } else {
      hide TrackedAfter;
      FlatCount(tracked, WindowStart(window, now), p, -1);
      CountedTimely(window, h, now, |h|);
    }
  }

  /**
   A reading aggregates exactly these points, each as often as it was added: an accepted point is among them if and
   only if every point added to its slot since, and the reading itself, found a point of the slot in the window.
   */
  lemma ReadingIsCounted(window: nat, h: seq<Arrival>, now: int)
    requires window > 0 && Timely(h) && InOrder(h, now)
    ensures multiset(Reading(window, h, now)) == multiset(Counted(window, h, now, |h|))
  {
    forall p: Point ensures multiset(Reading(window, h, now))[p] == multiset(Counted(window, h, now, |h|))[p] {
      ReadingCount(window, h, now, p);
    }
  }

  lemma ReadingMember(window: nat, h: seq<Arrival>, now: int, p: Point)
    requires window > 0 && Timely(h) && InOrder(h, now)
    ensures p in Reading(window, h, now) <==> exists k | 0 <= k < |h| :: Counts(window, h, now, k) && h[k].point == p
  {
    ReadingCount(window, h, now, p);
    hide Counts, Reading;
    assert p in Reading(window, h, now) <==> p in multiset(Reading(window, h, now));
    assert p in Counted(window, h, now, |h|) <==> p in multiset(Counted(window, h, now, |h|));
    if p in Counted(window, h, now, |h|) {
      var k := CountedFrom(window, h, now, |h|, p);
    }
    if k :| 0 <= k < |h| && Counts(window, h, now, k) && h[k].point == p {
      CountedHas(window, h, now, |h|, k);
    }
  }

  // ---------- When a reading is exactly the window ----------

  /** A point that has left the window is dropped: its slot started again, or has no point in the window any more. */
  ghost predicate Dropped(window: nat, h: seq<Arrival>, now: int, k: nat)
    requires window > 0 && Timely(h) && k < |h|
  {
    var s := Slot(window, h[k].point.time);
    || (exists j | k < j < |h| :: Restarts(window, h, j, s))
    || !SlotLive(window, h, s, WindowStart(window, now))
  }

  lemma {:induction false} UntilIsOld(ps: seq<Point>, t: int)
    ensures Until(ps, t) == [] <==> forall p | p in ps :: p.time >= t
  {
    if ps != [] {
      UntilIsOld(ps[1..], t);
      assert forall p | p in ps :: p == ps[0] || p in ps[1..];
    }
  }

  /** No point from before the window is aggregated exactly when every accepted point that has left it is dropped. */
  lemma ReadingIsWindow(window: nat, h: seq<Arrival>, now: int)
    requires window > 0 && Timely(h) && InOrder(h, now)
    ensures
      var t := WindowStart(window, now);
      Until(Reading(window, h, now), t) == []
      <==> forall k | 0 <= k < |h| && Accepted(window, h[k]) && h[k].point.time < t :: Dropped(window, h, now, k)
  {
    var t := WindowStart(window, now);
    UntilIsOld(Reading(window, h, now), t);
    forall k | 0 <= k < |h|
      ensures Counts(window, h, now, k) <==> Accepted(window, h[k]) && !Dropped(window, h, now, k)
      ensures Counts(window, h, now, k) ==> h[k].point in Reading(window, h, now)
    {
      CountsUnlessDropped(window, h, now, k);
      ReadingMember(window, h, now, h[k].point);
    }
    hide Counts, Dropped, Accepted, Reading;
    forall p | p in Reading(window, h, now)
      ensures exists k | 0 <= k < |h| :: Counts(window, h, now, k) && h[k].point == p
    {
      ReadingMember(window, h, now, p);
    }
  }

  lemma CountsUnlessDropped(window: nat, h: seq<Arrival>, now: int, k: nat)
    requires window > 0 && Timely(h) && k < |h|
    ensures Counts(window, h, now, k) <==> Accepted(window, h[k]) && !Dropped(window, h, now, k)
  {
    hide Restarts, SlotLive;
  }

  /** Then a sum is the sum of the window. */
  lemma SumOfWindow(window: nat, h: seq<Arrival>, now: int)
    requires window > 0 && Timely(h) && InOrder(h, now)
    requires
      var t := WindowStart(window, now);
      forall k | 0 <= k < |h| && Accepted(window, h[k]) && h[k].point.time < t :: Dropped(window, h, now, k)
    ensures Summary(Sum, Reading(window, h, now)).value == Total(Since(Points(h), WindowStart(window, now)))
  {
    ReadingIsWindow(window, h, now);
    ReadingCovers(window, h, now);
    hide Reading, Dropped, Covers;
    ReadingSum(Reading(window, h, now), Points(h), WindowStart(window, now));
  }

  lemma {:induction false} PositiveTotal(ps: seq<Point>)
    requires forall p | p in ps :: p.value > 0.0
    ensures Total(ps) >= 0.0 && (Total(ps) == 0.0 <==> ps == [])
  {
    if ps != [] {
      PositiveTotal(ps[1..]);
    }
  }

  lemma PositiveSum(flat: seq<Point>, added: seq<Point>, t: int)
    requires Covers(flat, added, t) && forall p | p in added :: p.value > 0.0
    ensures Summary(Sum, flat).value == Total(Since(added, t)) <==> Until(flat, t) == []
  {
    ReadingSum(flat, added, t);
    hide Covers, Summary;
    PositiveTotal(Until(flat, t));
  }

  /** And when all values are positive, as counts are, it is the sum of the window only then. */
  lemma SumIsWindow(window: nat, h: seq<Arrival>, now: int)
    requires window > 0 && Timely(h) && InOrder(h, now)
    requires forall a | a in h :: a.point.value > 0.0
    ensures
      var t := WindowStart(window, now);
      Summary(Sum, Reading(window, h, now)).value == Total(Since(Points(h), t))
      <==> forall k | 0 <= k < |h| && Accepted(window, h[k]) && h[k].point.time < t :: Dropped(window, h, now, k)
  {
    ReadingIsWindow(window, h, now);
    ReadingCovers(window, h, now);
    assert forall p | p in Points(h) :: p.value > 0.0;
    hide Reading, Dropped, Covers, Accepted, Summary, Since, Until, Points;
    PositiveSum(Reading(window, h, now), Points(h), WindowStart(window, now));
  }

  // ---------- Points that never leave ----------

  /** A point of value 1 each time a whole window has passed. */
  function Beats(window: nat, n: nat): seq<Arrival> {
    seq(n, i => Arrival(i * (window * MINUTE), Point(1.0, i * (window * MINUTE))))
  }

  lemma MultipleOf(i: nat, n: nat)
    requires n > 0
    ensures i * n % n == 0 && i * n / n == i
  {
    Rounding.QuotientIs(i * n, n, i);
  }

  lemma BeatSlot(window: nat, i: nat)
    requires window > 0
    ensures i * (window * MINUTE) >= 0 && Slot(window, i * (window * MINUTE)) == 0
  {
    var m := i * window;
    assert i * (window * MINUTE) == m * MINUTE;
    assert m * MINUTE / MINUTE == m;
    MultipleOf(i, window);
  }

  lemma Multiples(i: int, j: int, step: nat)
    requires step > 0
    ensures i * step <= j * step <==> i <= j
    ensures (i - 1) * step == i * step - step
  {
    if i <= j {
      Rounding.MulMonotone(i, j, step);
    } else {
      Rounding.MulStrict(j, i, step);
    }
  }

  lemma BeatsTimely(window: nat, n: nat)
    requires window > 0
    ensures Timely(Beats(window, n)) && (n > 0 ==> InOrder(Beats(window, n), (n - 1) * (window * MINUTE)))
  {
    var h := Beats(window, n);
    forall i | 0 <= i < n ensures h[i].now == h[i].point.time == i * (window * MINUTE) >= 0 {
      BeatSlot(window, i);
    }
    forall i, j | 0 <= i <= j < n ensures i * (window * MINUTE) <= j * (window * MINUTE) {
      Multiples(i, j, window * MINUTE);
    }
  }

  /** No slot starts again: the newest point is exactly at the start of the window when the next one arrives. */
  lemma {:induction false} BeatsTracked(window: nat, n: nat)
    requires window > 0 && Timely(Beats(window, n))
    ensures TrackedAfter(window, Beats(window, n))[0] == Points(Beats(window, n))
    ensures forall s | 0 < s < window :: TrackedAfter(window, Beats(window, n))[s] == []
    ensures n > 0 ==> Newest(Points(Beats(window, n))) == (n - 1) * (window * MINUTE)
  {
    if n > 0 {
      var front, a := Beats(window, n - 1), Beats(window, n)[n - 1];
      BeatsTimely(window, n - 1);
      BeatsTracked(window, n - 1);
      assert Beats(window, n) == front + [a];
      TrackedAppend(window, front, a);
      BeatSlot(window, n - 1);
      BeatPoints(window, n);
      Multiples(n - 1, n - 1, window * MINUTE);
      hide TrackedAfter, Slot, Points, Beats;
      if n > 1 {
        NewestConcat(Points(front), [a.point]);
      }
      NewestOne(a.point);
    }
  }

  lemma BeatPoints(window: nat, n: nat)
    requires n > 0
    ensures
      var a := Beats(window, n)[n - 1];
      && a.now == a.point.time == (n - 1) * (window * MINUTE)
      && Points(Beats(window, n)) == Points(Beats(window, n - 1)) + [a.point]
      && (n == 1 ==> Points(Beats(window, n)) == [a.point])
      && (n > 1 ==> Points(Beats(window, n - 1)) != [])
  {
  }

  lemma NewestOne(p: Point)
    ensures Newest([p]) == p.time
  {
  }

  lemma {:induction false} FlatFirst(ts: Tracked, t: int)
    requires ts != [] && Live(ts[0], t) && forall s | 0 < s < |ts| :: ts[s] == []
    ensures Flat(ts, t) == ts[0]
  {
    FlatEmpty(ts[1..], t);
  }

  lemma {:induction false} FlatEmpty(ts: Tracked, t: int)
    requires forall s | 0 <= s < |ts| :: ts[s] == []
    ensures Flat(ts, t) == []
  {
    if ts != [] {
      FlatEmpty(ts[1..], t);
    }
  }

  lemma {:induction false} TotalOfBeats(window: nat, n: nat)
    ensures Total(Points(Beats(window, n))) == n as real
  {
    if n > 0 {
      TotalOfBeats(window, n - 1);
      var p := Beats(window, n)[n - 1].point;
      assert Points(Beats(window, n)) == Points(Beats(window, n - 1)) + [p];
      TotalConcat(Points(Beats(window, n - 1)), [p]);
      assert Total([p]) == 1.0;
    }
  }

  /**
   With one point a window, all points ever added are in every reading: a sum grows without bound, though no more
   than two of its points are in the window.
   */
  lemma OldPointsStay(window: nat, n: nat)
    requires window > 0 && n > 0
    ensures Timely(Beats(window, n)) && InOrder(Beats(window, n), (n - 1) * (window * MINUTE))
    ensures
      var h, now := Beats(window, n), (n - 1) * (window * MINUTE);
      && Reading(window, h, now) == Points(h)
      && Summary(Sum, Reading(window, h, now)).value == n as real
      && forall k | 0 <= k < n :: h[k].point.time >= WindowStart(window, now) <==> k >= n - 2
  {
    var h, step := Beats(window, n), window * MINUTE;
    var now := (n - 1) * step;
    BeatsTimely(window, n);
    BeatsTracked(window, n);
    Multiples(n - 1, n - 1, step);
    BeatPoints(window, n);
    forall k | 0 <= k < n ensures h[k].point.time >= WindowStart(window, now) <==> k >= n - 2 {
      Multiples(n - 2, k, step);
    }
    hide TrackedAfter, Beats;
    FlatFirst(TrackedAfter(window, h), WindowStart(window, now));
    FoldSum(Points(h));
    TotalOfBeats(window, n);
  }

  // ---------- Which point a replacing reading takes ----------

  lemma {:induction false} FoldEnds(ps: seq<Point>)
    requires ps != []
    ensures Fold(Replace, ps) == ps[|ps| - 1].value
    ensures Fold(Ignore, ps) == ps[0].value
  {
    FirstIsKept(ps);
  }

  lemma {:induction false} FirstIsKept(ps: seq<Point>)
    requires ps != []
    ensures Fold(Ignore, ps) == ps[0].value
  {
    if |ps| > 1 {
      FirstIsKept(ps[..|ps| - 1]);
    }
  }

  /** The position of the last point accepted into a slot, or -1. */
  function LastIn(window: nat, h: seq<Arrival>, s: nat): (k: int)
    requires window > 0 && Timely(h)
    ensures -1 <= k < |h|
    ensures k >= 0 ==> InSlot(window, h[k], s)
    ensures forall j | k < j < |h| :: !InSlot(window, h[j], s)
  {
    if h == [] then -1
    else
      var n := |h| - 1;
      assert forall a | a in h[..n] :: a in h;
      assert h[n] in h;
      if InSlot(window, h[n], s) then n else LastIn(window, h[..n], s)
  }

  /** The last point accepted into a slot is the last one it tracks. */
  lemma {:induction false} LastIsTracked(window: nat, h: seq<Arrival>, s: nat)
    requires window > 0 && Timely(h) && s < window
    ensures
      var ps := TrackedAfter(window, h)[s];
      if ps == [] then LastIn(window, h, s) == -1
      else LastIn(window, h, s) >= 0 && ps[|ps| - 1] == h[LastIn(window, h, s)].point
  {
    if h != [] {
      var n := |h| - 1;
      TimelyPrefix(h, n);
      assert h[n] in h && h == h[..n] + [h[n]];
      TrackedAppend(window, h[..n], h[n]);
      LastIsTracked(window, h[..n], s);
      hide TrackedAfter, Slot;
    }
  }

  lemma {:induction false} FlatEnd(ts: Tracked, t: int, s: nat)
    requires s < |ts| && Live(ts[s], t) && forall r | 0 <= r < s :: !Live(ts[r], t)
    ensures Flat(ts, t) != [] && Flat(ts, t)[|Flat(ts, t)| - 1] == ts[s][|ts[s]| - 1]
  {
    if s > 0 {
      FlatEnd(ts[1..], t, s - 1);
      assert Flat(ts, t) == Flat(ts[1..], t);
    }
  }

  /** With `Replace` a reading has the value of the last point accepted into the lowest slot with one in the window. */
  lemma ReplaceReadsLowestSlot(window: nat, h: seq<Arrival>, now: int, s: nat)
    requires window > 0 && Timely(h) && s < window && SlotLive(window, h, s, WindowStart(window, now))
    requires forall r: nat | r < s :: !SlotLive(window, h, r, WindowStart(window, now))
    ensures LastIn(window, h, s) >= 0
    ensures
      var flat := Reading(window, h, now);
      && flat != [] && flat[|flat| - 1] == h[LastIn(window, h, s)].point
      && Summary(Replace, flat).value == h[LastIn(window, h, s)].point.value
  {
    hide TrackedAfter, SlotLive, LastIn, Flat, Fold, Newest, InSlot;
    var tracked, t := TrackedAfter(window, h), WindowStart(window, now);
    forall r | 0 <= r <= s ensures Live(tracked[r], t) <==> SlotLive(window, h, r, t) {
      LiveIsSlotLive(window, h, r, t);
    }
    LastIsTracked(window, h, s);
    FlatEnd(tracked, t, s);
    FoldEnds(Flat(tracked, t));
  }

  // ---------- When that is the newest point ----------

  /**
   The newest accepted point is in the window, nothing was accepted into its slot after it, and no lower slot has a
   point in the window.
   */
  ghost predicate NewestArrivesLast(window: nat, h: seq<Arrival>, now: int)
    requires window > 0 && Timely(h)
  {
    exists k | 0 <= k < |h| :: IsNewest(window, h, now, k) && IsRead(window, h, now, k)
  }

  ghost predicate IsNewest(window: nat, h: seq<Arrival>, now: int, k: nat)
    requires k < |h|
  {
    && Accepted(window, h[k]) && h[k].point.time >= WindowStart(window, now)
    && forall j | 0 <= j < |h| && Accepted(window, h[j]) :: h[j].point.time <= h[k].point.time
  }

  ghost predicate IsRead(window: nat, h: seq<Arrival>, now: int, k: nat)
    requires window > 0 && Timely(h) && k < |h|
  {
    var s := Slot(window, h[k].point.time);
    LastIn(window, h, s) == k && forall r: nat | r < s :: !SlotLive(window, h, r, WindowStart(window, now))
  }

  lemma LowestLive(window: nat, h: seq<Arrival>, t: int, s: nat) returns (r: nat)
    requires window > 0 && Timely(h) && SlotLive(window, h, s, t)
    ensures r <= s && SlotLive(window, h, r, t) && forall q: nat | q < r :: !SlotLive(window, h, q, t)
  {
    hide SlotLive;
    r := s;
    if q: nat :| q < s && SlotLive(window, h, q, t) {
      r := LowestLive(window, h, t, q);
    }
  }

  /** The newest point of a reading is the newest accepted one. */
  lemma NewestOfReading(window: nat, h: seq<Arrival>, now: int) returns (k: nat)
    requires window > 0 && Timely(h) && InOrder(h, now) && Reading(window, h, now) != []
    ensures k < |h| && IsNewest(window, h, now, k) && h[k].point.time == Newest(Reading(window, h, now))
    ensures SlotLive(window, h, Slot(window, h[k].point.time), WindowStart(window, now))
  {
    var flat := Reading(window, h, now);
    ReadingCovers(window, h, now);
    hide Reading;
    var p := NewestIsLast(flat);
    ReadingMember(window, h, now, p);
    k :| 0 <= k < |h| && Counts(window, h, now, k) && h[k].point == p;
    CoversMembers(flat, Points(h), WindowStart(window, now));
    forall j | 0 <= j < |h| && Accepted(window, h[j]) ensures h[j].point.time <= p.time {
      assert Points(h)[j] == h[j].point;
      assert h[j].point in Points(h);
    }
  }

  /**
   The value of a `Replace` reading is that of the last point it aggregates, and this is the newest one exactly when
   the newest accepted point was accepted last into its slot and no lower slot has a point in the window.
   */
  lemma ReplaceReadsNewest(window: nat, h: seq<Arrival>, now: int)
    requires window > 0 && Timely(h) && InOrder(h, now) && Reading(window, h, now) != []
    ensures
      var flat := Reading(window, h, now);
      && Summary(Replace, flat).value == flat[|flat| - 1].value
      && (flat[|flat| - 1].time == Newest(flat) <==> NewestArrivesLast(window, h, now))
  {
    var t := WindowStart(window, now);
    hide SlotLive, Reading, Newest, Fold, IsNewest;
    var k := NewestOfReading(window, h, now);
    var s := LowestLive(window, h, t, Slot(window, h[k].point.time));
    ReplaceReadsLowestSlot(window, h, now, s);
    LowestIsNewest(window, h, now, k, s);
  }

  lemma LowestIsNewest(window: nat, h: seq<Arrival>, now: int, k: nat, s: nat)
    requires window > 0 && Timely(h) && k < |h| && IsNewest(window, h, now, k) && LastIn(window, h, s) >= 0
    requires SlotLive(window, h, s, WindowStart(window, now))
    requires forall r: nat | r < s :: !SlotLive(window, h, r, WindowStart(window, now))
    ensures h[LastIn(window, h, s)].point.time == h[k].point.time <==> NewestArrivesLast(window, h, now)
  {
    hide LastIn, SlotLive;
    var m := LastIn(window, h, s);
    if h[m].point.time == h[k].point.time {
      assert IsNewest(window, h, now, m) && IsRead(window, h, now, m);
    }
    if j :| 0 <= j < |h| && IsNewest(window, h, now, j) && IsRead(window, h, now, j) {
      AcceptedIsLive(window, h, WindowStart(window, now), j);
      assert Slot(window, h[j].point.time) == s;
    }
  }

  lemma AcceptedIsLive(window: nat, h: seq<Arrival>, t: int, j: nat)
    requires window > 0 && Timely(h) && j < |h| && Accepted(window, h[j]) && h[j].point.time >= t
    ensures SlotLive(window, h, Slot(window, h[j].point.time), t)
  {
    assert InSlot(window, h[j], Slot(window, h[j].point.time));
  }

  /** The same points added at the same times, but for their values. */
  ghost predicate SameTimes(g: seq<Arrival>, h: seq<Arrival>) {
    && |g| == |h|
    && forall i | 0 <= i < |h| :: g[i].now == h[i].now && g[i].point.time == h[i].point.time
  }

  /** A `Replace` reading has the value of a newest point. */
  ghost predicate HasNewestValue(window: nat, h: seq<Arrival>, now: int)
    requires window > 0 && Timely(h)
  {
    var flat := Reading(window, h, now);
    flat != [] && exists p | p in flat :: p.time == Newest(flat) && p.value == Summary(Replace, flat).value
  }

  lemma SameTimely(g: seq<Arrival>, h: seq<Arrival>, clock: int)
    requires SameTimes(g, h) && Timely(h) && InOrder(h, clock)
    ensures Timely(g) && InOrder(g, clock)
  {
    forall a | a in g ensures a.point.time >= 0 {
      var i :| 0 <= i < |g| && g[i] == a;
      assert h[i] in h;
    }
  }

  lemma {:induction false} SameLast(window: nat, g: seq<Arrival>, h: seq<Arrival>, s: nat)
    requires window > 0 && SameTimes(g, h) && Timely(g) && Timely(h)
    ensures LastIn(window, g, s) == LastIn(window, h, s)
  {
    if h != [] {
      var n := |h| - 1;
      TimelyPrefix(g, n);
      TimelyPrefix(h, n);
      assert g[n].now == h[n].now && g[n].point.time == h[n].point.time;
      SameLast(window, g[..n], h[..n], s);
      hide Slot;
    }
  }

  lemma SameLive(window: nat, g: seq<Arrival>, h: seq<Arrival>, s: nat, t: int)
    requires window > 0 && SameTimes(g, h) && Timely(g) && Timely(h)
    ensures SlotLive(window, g, s, t) <==> SlotLive(window, h, s, t)
  {
    hide Slot;
    if k :| 0 <= k < |g| && InSlot(window, g[k], s) && g[k].point.time >= t {
      assert InSlot(window, h[k], s) && h[k].point.time >= t;
    }
    if k :| 0 <= k < |h| && InSlot(window, h[k], s) && h[k].point.time >= t {
      assert InSlot(window, g[k], s) && g[k].point.time >= t;
    }
  }

  lemma SameArrivesLast(window: nat, g: seq<Arrival>, h: seq<Arrival>, now: int)
    requires window > 0 && SameTimes(g, h) && Timely(g) && Timely(h) && NewestArrivesLast(window, g, now)
    ensures NewestArrivesLast(window, h, now)
  {
    var k :| 0 <= k < |g| && IsNewest(window, g, now, k) && IsRead(window, g, now, k);
    var s := Slot(window, g[k].point.time);
    var t := WindowStart(window, now);
    SameLast(window, g, h, s);
    forall r: nat ensures SlotLive(window, g, r, t) <==> SlotLive(window, h, r, t) {
      SameLive(window, g, h, r, t);
    }
    hide SlotLive, LastIn;
    assert IsNewest(window, h, now, k) by {
      forall j | 0 <= j < |h| && Accepted(window, h[j]) ensures h[j].point.time <= h[k].point.time {
        assert Accepted(window, g[j]);
      }
    }
    assert IsRead(window, h, now, k);
  }

  /** Every point with its time as its value. */
  function Stamped(h: seq<Arrival>): seq<Arrival> {
    seq(|h|, i requires 0 <= i < |h| => h[i].(point := Point(h[i].point.time as real, h[i].point.time)))
  }

  lemma NotEmpty(window: nat, g: seq<Arrival>, h: seq<Arrival>, now: int)
    requires window > 0 && SameTimes(g, h) && Timely(g) && Timely(h) && InOrder(h, now) && InOrder(g, now)
    requires Reading(window, h, now) != []
    ensures Reading(window, g, now) != []
  {
    hide Reading, SlotLive;
    var k := NewestOfReading(window, h, now);
    var s := Slot(window, h[k].point.time);
    SameLive(window, g, h, s, WindowStart(window, now));
    var r := LowestLive(window, g, WindowStart(window, now), s);
    ReplaceReadsLowestSlot(window, g, now, r);
  }

  /**
   A `Replace` reading has the value of the newest point, whatever the values are, exactly when the newest accepted
   point was accepted last into its slot and no lower slot has a point in the window.
   */
  lemma ReplaceHasNewestValue(window: nat, h: seq<Arrival>, now: int)
    requires window > 0 && Timely(h) && InOrder(h, now) && Reading(window, h, now) != []
    ensures (forall g | SameTimes(g, h) :: Timely(g) && HasNewestValue(window, g, now))
            <==> NewestArrivesLast(window, h, now)
  {
    hide Reading, NewestArrivesLast, Timely, InOrder;
    forall g | SameTimes(g, h)
      ensures Timely(g)
      ensures NewestArrivesLast(window, h, now) ==> HasNewestValue(window, g, now)
    {
      SameTimely(g, h, now);
      NotEmpty(window, g, h, now);
      ReplaceReadsNewest(window, g, now);
      if NewestArrivesLast(window, h, now) {
        SameArrivesLast(window, h, g, now);
        var flat := Reading(window, g, now);
        assert flat[|flat| - 1] in flat;
      }
    }
    var g := Stamped(h);
    assert SameTimes(g, h);
    SameTimely(g, h, now);
    if HasNewestValue(window, g, now) {
      StampedReading(window, g, now);
      SameArrivesLast(window, g, h, now);
    }
  }

  lemma StampedReading(window: nat, g: seq<Arrival>, now: int)
    requires window > 0 && Timely(g) && InOrder(g, now) && HasNewestValue(window, g, now)
    requires forall a | a in g :: a.point.value == a.point.time as real
    ensures NewestArrivesLast(window, g, now)
  {
    hide NewestArrivesLast;
    var flat := Reading(window, g, now);
    ReplaceReadsNewest(window, g, now);
    ReadingCovers(window, g, now);
    CoversMembers(flat, Points(g), WindowStart(window, now));
    hide Reading, Covers;
    var p :| p in flat && p.time == Newest(flat) && p.value == Summary(Replace, flat).value;
    assert p in Points(g) && flat[|flat| - 1] in flat;
    assert p.value == p.time as real;
    assert flat[|flat| - 1] in Points(g);
  }

  /** In a window of two minutes, the point of minute 2 is in the lower slot and hides the one of minute 3. */
  lemma OlderReplacesNewer(a: real, b: real)
    ensures
      var older, newer := Point(a, 120_000_000_000), Point(b, 180_000_000_000);
      var h := [Arrival(120_000_000_000, older), Arrival(180_000_000_000, newer)];
      && Timely(h) && InOrder(h, 180_000_000_000)
      && Summary(Replace, Reading(2, h, 180_000_000_000)) == Point(a, 180_000_000_000)
      && !NewestArrivesLast(2, h, 180_000_000_000)
  {
    var older, newer := Point(a, 2 * MINUTE), Point(b, 3 * MINUTE);
    var first, second := Arrival(2 * MINUTE, older), Arrival(3 * MINUTE, newer);
    var h := [first, second];
    var t := WindowStart(2, 3 * MINUTE);
    var tracked := TrackedTwo(first, second);
    hide TrackedAfter, Slot;
    assert tracked[1..] == [[newer]];
    assert Live([newer], t) && Live([older], t);
    assert Flat([[newer]], t) == [] + [newer] == [newer];
    assert Flat(tracked, t) == [newer] + [older];
    hide Flat;
    SummaryConcat(Replace, [newer], [older]);
    assert InOrder(h, 3 * MINUTE);
    ReplaceReadsNewest(2, h, 3 * MINUTE);
    assert ([newer] + [older])[1] == older;
  }

  lemma TrackedTwo(first: Arrival, second: Arrival) returns (tracked: Tracked)
    requires first.now == first.point.time == 2 * MINUTE && second.now == second.point.time == 3 * MINUTE
    ensures Timely([first, second]) && tracked == [[first.point], [second.point]]
    ensures TrackedAfter(2, [first, second]) == tracked
  {
    assert Slot(2, 2 * MINUTE) == 0 && Slot(2, 3 * MINUTE) == 1;
    TrackedAppend(2, [], first);
    assert [] + [first] == [first];
    assert TrackedAfter(2, [first]) == [[first.point], []];
    TrackedAppend(2, [first], second);
    assert [first] + [second] == [first, second];
    tracked := [[first.point], [second.point]];
  }
}
