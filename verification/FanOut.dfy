/** The critical sections of the fan-out as methods over its fields, each of them a run of the steps of FanOutSteps. */
module FanOut {
  import opened Options
  import opened FanOutSteps

  // ---------- What each critical section does as a whole ----------

  function WithOutput<T>(s: State<T>, bounded: bool): State<T> {
    var ch := |s.channels|;
    var made := Channel([], s.inputGone, if s.inputGone then Gone(Begun(s), Begun(s)) else Live(Begun(s)));
    var watcher := if bounded && !s.inputGone then [Watch(ch)] else [];
    s.(channels := s.channels + [made],
       out := if s.inputGone then s.out else s.out + {ch},
       calls := s.calls + [Returned(ch)] + watcher)
  }

  function ClosedAt<T>(c: Channel<T>, n: nat): Channel<T> {
    c.(closed := true, life := if c.life.Made? then Gone(n, n) else Gone(c.life.joined, n))
  }

  function WithoutOutput<T>(s: State<T>, target: Option<nat>): State<T>
    requires target.Some? && target.value in s.out ==> target.value < |s.channels|
  {
    var t := s.(calls := s.calls + [Closed(target)]);
    if target.Some? && target.value in s.out then
      t.(out := s.out - {target.value},
         channels := s.channels[target.value := ClosedAt(s.channels[target.value], Begun(s))])
    else t
  }

  function SentToAll<T>(channels: seq<Channel<T>>, to: set<nat>, v: T): (r: seq<Channel<T>>)
    ensures |r| == |channels|
  {
    seq(|channels|, i requires 0 <= i < |channels| =>
      if i in to then channels[i].(sent := channels[i].sent + [v]) else channels[i])
  }

  lemma SentToEach<T>(channels: seq<Channel<T>>, to: set<nat>, v: T)
    ensures forall ch | 0 <= ch < |channels| ::
              && SentToAll(channels, to, v)[ch].closed == channels[ch].closed
              && SentToAll(channels, to, v)[ch].sent == channels[ch].sent + if ch in to then [v] else []
  {
  }

  function Broadcasted<T>(s: State<T>, v: T): State<T> {
    s.(taken := s.taken + [v], channels := SentToAll(s.channels, s.out, v))
  }

  function ClosedAll<T>(channels: seq<Channel<T>>, to: set<nat>, n: nat): (r: seq<Channel<T>>)
    ensures |r| == |channels|
  {
    seq(|channels|, i requires 0 <= i < |channels| => if i in to then ClosedAt(channels[i], n) else channels[i])
  }

  lemma ClosedEach<T>(channels: seq<Channel<T>>, to: set<nat>, n: nat)
    ensures forall ch | 0 <= ch < |channels| ::
              && ClosedAll(channels, to, n)[ch].sent == channels[ch].sent
              && (ClosedAll(channels, to, n)[ch].closed <==> channels[ch].closed || ch in to)
  {
  }

  function Shut<T>(s: State<T>): State<T> {
    s.(routine := Ended, inputGone := true, out := {}, channels := ClosedAll(s.channels, s.out, |s.taken|))
  }

  // ---------- Each of them is a run of small steps ----------

  lemma OutputIsRun<T(!new)>(s: State<T>, bounded: bool)
    requires Reachable(s) && s.mutex == Free
    ensures Reachable(WithOutput(s, bounded))
  {
    hide Inv, Reachable;
    var id := |s.calls|;
    ReachableStep(s, CallOutput(bounded));
    var s1 := Apply(s, CallOutput(bounded));
    ReachableStep(s1, CallLocks(id));
    var s2 := Apply(s1, CallLocks(id));
    assert s2 == s.(calls := s.calls + [Registering(bounded)], mutex := ByCall(id));
    MakeIsRun(s, s2, bounded);
  }

  lemma MakeIsRun<T(!new)>(s: State<T>, s2: State<T>, bounded: bool)
    requires Reachable(s2) && s.mutex == Free
    requires s2 == s.(calls := s.calls + [Registering(bounded)], mutex := ByCall(|s.calls|))
    ensures Reachable(WithOutput(s, bounded))
  {
    hide Inv, Reachable;
    var id, ch := |s.calls|, |s.channels|;
    ReachableStep(s2, Make(id));
    var s3 := Apply(s2, Make(id));
    if s.inputGone {
      ReachableStep(s3, CallUnlocks(id));
      assert Apply(s3, CallUnlocks(id)) == WithOutput(s, bounded);
    } else {
      assert s3 == s2.(calls := s.calls + [Opening(ch, bounded)], channels := s.channels + [Channel([], false, Made)]);
      InsertIsRun(s, s3, bounded);
    }
  }

  lemma InsertIsRun<T(!new)>(s: State<T>, s3: State<T>, bounded: bool)
    requires Reachable(s3) && s.mutex == Free && !s.inputGone
    requires s3 == s.(mutex := ByCall(|s.calls|), calls := s.calls + [Opening(|s.channels|, bounded)],
                      channels := s.channels + [Channel([], false, Made)])
    ensures Reachable(WithOutput(s, bounded))
  {
    hide Inv, Reachable;
    var id, ch := |s.calls|, |s.channels|;
    ReachableStep(s3, Spawn(id));
    var s4 := Apply(s3, Spawn(id));
    ReachableStep(s4, Insert(id));
    var s5 := Apply(s4, Insert(id));
    ReachableStep(s5, CallUnlocks(id));
    assert Apply(s5, CallUnlocks(id)) == WithOutput(s, bounded);
  }

  lemma CloseIsRun<T(!new)>(s: State<T>, target: Option<nat>)
    requires Reachable(s) && s.mutex == Free && Enabled(s, CallClose(target))
    ensures target.Some? && target.value in s.out ==> target.value < |s.channels|
    ensures Reachable(WithoutOutput(s, target))
    ensures target.Some? ==> IsGone(WithoutOutput(s, target), target.value)
  {
    NotCrashed(s);
    hide Inv, Reachable;
    var id := |s.calls|;
    ReachableStep(s, CallClose(target));
    var s1 := Apply(s, CallClose(target));
    ReachableStep(s1, CallLocks(id));
    var s2 := Apply(s1, CallLocks(id));
    assert s2 == s.(calls := s.calls + [Removing(target)], mutex := ByCall(id));
    DeleteIsRun(s, s2, target);
    ClosedIsGone(WithoutOutput(s, target), id);
  }

  lemma ClosedIsGone<T(!new)>(s: State<T>, id: nat)
    requires Reachable(s) && id < |s.calls| && s.calls[id].Closed?
    ensures s.calls[id].target.Some? ==> IsGone(s, s.calls[id].target.value)
  {
    RunIsSafe(s);
    assert CallOk(s, id);
  }

  lemma DeleteIsRun<T(!new)>(s: State<T>, s2: State<T>, target: Option<nat>)
    requires Reachable(s2) && s.mutex == Free && !s.crashed
    requires s2 == s.(calls := s.calls + [Removing(target)], mutex := ByCall(|s.calls|))
    requires target.Some? && target.value in s.out ==> target.value < |s.channels|
    ensures Reachable(WithoutOutput(s, target))
  {
    hide Inv, Reachable;
    var id := |s.calls|;
    ReachableStep(s2, Delete(id));
    var s3 := Apply(s2, Delete(id));
    NotCrashed(s3);
    ReachableStep(s3, CallUnlocks(id));
    assert Apply(s3, CallUnlocks(id)) == WithoutOutput(s, target);
  }

  class FanOut<T(!new)> {
    var mutex: Mutex
    var routine: Routine<T>
    var calls: seq<Call>
    var channels: seq<Channel<T>>
    var out: set<nat>
    var inputGone: bool
    var taken: seq<T>

    function View(): State<T>
      reads this
    {
      State(mutex, routine, calls, channels, out, inputGone, taken, false)
    }

    ghost predicate Valid()
      reads this
    {
      mutex == Free && Reachable(View())
    }

    constructor ()
      ensures Valid() && View() == Start()
    {
      mutex, routine, calls, channels, out, inputGone, taken := Free, Receiving, [], [], {}, false, [];
      new;
      assert Allowed(Start<T>(), []) && After(Start<T>(), []) == View();
    }

    /** The new output is open from now on, or closed at once when the input has already ended. */
    method OutputContext(bounded: bool) returns (ch: nat)
      requires Valid()
      modifies this
      ensures Valid() && View() == WithOutput(old(View()), bounded)
      ensures ch == |old(channels)| && channels == old(channels) + [channels[ch]]
      ensures channels[ch].sent == [] && (channels[ch].closed <==> old(inputGone))
      ensures out == if old(inputGone) then old(out) else old(out) + {ch}
      ensures calls == old(calls) + [Returned(ch)] + if bounded && !old(inputGone) then [Watch(ch)] else []
    {
      OutputIsRun(View(), bounded);
      hide Reachable, Inv;
      mutex := ByCall(|calls|);
      ch := |channels|;
      channels := channels + [Channel([], false, Made)];
      if inputGone {
        channels := channels[ch := ClosedAt(channels[ch], Begun(View()))];
        calls := calls + [Returned(ch)];
      } else {
        ghost var before := calls;
        if bounded {
          calls := calls + [Returned(ch), Watch(ch)];
        } else {
          calls := calls + [Returned(ch)];
        }
        out := out + {ch};
        channels := channels[ch := channels[ch].(life := Live(Begun(View())))];
        assert calls == before + [Returned(ch)] + (if bounded then [Watch(ch)] else []);
      }
      mutex := Free;
    }

    /** Only an output that is still registered is closed, and only once. */
    method Close(target: Option<nat>)
      requires Valid() && Enabled(View(), CallClose(target))
      modifies this
      ensures target.Some? && target.value in old(out) ==> target.value < |old(channels)|
      ensures Valid() && View() == WithoutOutput(old(View()), target)
      ensures target.Some? ==> out == old(out) - {target.value} && IsGone(View(), target.value)
      ensures |channels| == |old(channels)| && calls == old(calls) + [Closed(target)]
      ensures forall ch | 0 <= ch < |channels| ::
                if target == Some(ch) then channels[ch].sent == old(channels)[ch].sent
                else channels[ch] == old(channels)[ch]
    {
      NotCrashed(View());
      CloseIsRun(View(), target);
      hide Reachable, Inv;
      mutex := ByCall(|calls|);
      calls := calls + [Closed(target)];
      var rest := out;
      while rest != {}
        invariant rest <= out && out == old(out) && channels == old(channels)
        invariant target.Some? && target.value in out ==> target.value in rest
        invariant unchanged(`mutex) || mutex == ByCall(|old(calls)|)
        invariant calls == old(calls) + [Closed(target)] && unchanged(`routine, `inputGone, `taken)
        decreases rest
      {
        var ch :| ch in rest;
        if target == Some(ch) {
          out := out - {ch};
          channels := channels[ch := ClosedAt(channels[ch], Begun(View()))];
          break;
        }
        rest := rest - {ch};
      }
      mutex := Free;
    }

    /** Every registered output gets the value, and nothing else changes. */
    method Broadcast(v: T)
      requires Valid() && routine.Receiving?
      modifies this
      ensures Valid() && View() == Broadcasted(old(View()), v)
      ensures taken == old(taken) + [v] && unchanged(`out, `calls) && |channels| == |old(channels)|
      ensures forall ch | 0 <= ch < |channels| ::
                && channels[ch].closed == old(channels)[ch].closed
                && channels[ch].sent == old(channels)[ch].sent + if ch in out then [v] else []
    {
      hide Reachable, Inv;
      ReachableStep(View(), Receive(v));
      taken, routine := taken + [v], Locking(v);
      ReachableStep(View(), RoutineLocks);
      mutex, routine := ByRoutine, Sending(v, out);
      while routine.todo != {}
        invariant Reachable(View()) && mutex == ByRoutine && routine.Sending? && routine.value == v
        invariant routine.todo <= out && unchanged(`out, `calls, `inputGone) && taken == old(taken) + [v]
        invariant |channels| == |old(channels)|
        invariant channels == SentToAll(old(channels), out - routine.todo, v)
        decreases routine.todo
      {
        var ch :| ch in routine.todo;
        NotCrashed(View());
        ReachableStep(View(), Send(ch));
        NotCrashed(Apply(View(), Send(ch)));
        channels := channels[ch := channels[ch].(sent := channels[ch].sent + [v])];
        routine := Sending(v, routine.todo - {ch});
      }
      ReachableStep(View(), RoutineUnlocks);
      mutex, routine := Free, Receiving;
      assert out - {} == out;
      SentToEach(old(channels), out, v);
      hide SentToAll;
    }

    /** The end of the input closes every output that is still registered. */
    method Shutdown()
      requires Valid() && routine.Receiving?
      modifies this
      ensures Valid() && View() == Shut(old(View()))
      ensures routine.Ended? && inputGone && out == {} && |channels| == |old(channels)|
      ensures forall ch | 0 <= ch < |channels| ::
                && channels[ch].sent == old(channels)[ch].sent
                && (channels[ch].closed <==> old(channels)[ch].closed || ch in old(out))
    {
      hide Reachable, Inv;
      ReachableStep(View(), InputClosed);
      routine := Stopping;
      ReachableStep(View(), RoutineLocks);
      mutex, routine := ByRoutine, Closing(out);
      while routine.todo != {}
        invariant Reachable(View()) && mutex == ByRoutine && routine.Closing?
        invariant routine.todo <= out && unchanged(`out, `calls, `inputGone, `taken)
        invariant |channels| == |old(channels)|
        invariant channels == ClosedAll(old(channels), out - routine.todo, |taken|)
        decreases routine.todo
      {
        var ch :| ch in routine.todo;
        NotCrashed(View());
        ReachableStep(View(), CloseOne(ch));
        NotCrashed(Apply(View(), CloseOne(ch)));
        channels := channels[ch := ClosedAt(channels[ch], |taken|)];
        routine := Closing(routine.todo - {ch});
      }
      ReachableStep(View(), RoutineEnds);
      ClosedEach(old(channels), old(out), |taken|);
      assert out - {} == out;
      hide ClosedAll;
      mutex, routine, inputGone, out := Free, Ended, true, {};
    }
  }
}
