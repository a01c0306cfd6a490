/** The methods of the fan-in over its fields, each of them a run of the steps of FanInSteps. */
module FanIn {
  import opened FanInSteps

  /** The state once `n` more inputs were added. */
  function WithInputs<T>(s: State<T>, n: nat): State<T> {
    s.(wg := s.wg + n, feeders := s.feeders + seq(n, _ => Feeder([], 0, true, Reading)))
  }

  class FanIn<T(!new)> {
    var mutex: Mutex
    var closed: bool
    var outClosed: bool
    var closes: nat
    var wg: nat
    var once: bool
    var waiter: Waiter
    var feeders: seq<Feeder<T>>
    var output: seq<(nat, T)>

    function View(): State<T>
      reads this
    {
      State(mutex, closed, outClosed, closes, wg, once, waiter, feeders, output, false)
    }

    ghost predicate Valid()
      reads this
    {
      mutex == Free && Reachable(View())
    }

    constructor ()
      ensures Valid() && View() == Start()
    {
      mutex, closed, outClosed, closes, wg, once, waiter := Free, false, false, 0, 0, false, Idle;
      feeders, output := [], [];
      new;
      assert Allowed(Start<T>(), []) && After(Start<T>(), []) == View();
    }

    /** Adds `n` inputs, or panics when the fan-in is closed. */
    method Input(n: nat) returns (panics: bool)
      requires Valid()
      modifies this
      ensures Valid()
      ensures panics == old(closed)
      ensures View() == if old(closed) then old(View()) else WithInputs(old(View()), n)
      ensures !panics ==>
                && wg == old(wg) + n && |feeders| == |old(feeders)| + n && old(feeders) <= feeders
                && forall i | |old(feeders)| <= i < |feeders| :: feeders[i] == Feeder([], 0, true, Reading)
    {
      hide Reachable;
      if closed {
        return true;
      }
      ReachableStep(View(), InputBegins(n));
      mutex := ByInput(n);
      for i := 0 to n
        invariant Reachable(View()) && mutex == ByInput(n - i) && !closed
        invariant View() == WithInputs(old(View()), i).(mutex := ByInput(n - i))
      {
        ReachableStep(View(), Add);
        wg := wg + 1;
        feeders := feeders + [Feeder([], 0, true, Reading)];
        mutex := ByInput(n - i - 1);
      }
      ReachableStep(View(), InputEnds);
      mutex := Free;
      return false;
    }

    /** Closes the output the first time, and never again. */
    method Close()
      requires Valid()
      modifies this
      ensures Valid()
      ensures closed && outClosed && closes == 1
      ensures View() == old(View()).(closed := true, outClosed := true, closes := 1)
    {
      RunMerges(View());
      ReachableStep(View(), FanInSteps.Close);
      hide Reachable, Inv;
      if closed {
        return;
      }
      outClosed := true;
      closes := closes + 1;
      closed := true;
    }

    /** Starts the closing goroutine the first time, and does nothing afterwards. */
    method AutoClose()
      requires Valid()
      modifies this
      ensures Valid()
      ensures once && waiter != Idle
      ensures View() == if old(once) then old(View()) else old(View()).(once := true, waiter := Waiting)
    {
      RunMerges(View());
      ReachableStep(View(), FanInSteps.AutoClose);
      hide Reachable, Inv;
      if !once {
        once := true;
        waiter := Waiting;
      }
    }

    /** The next value of input `i` is read and sent. */
    method PassOn(i: nat)
      requires Valid() && !outClosed
      requires i < |feeders| && feeders[i].at.Reading? && feeders[i].read < |feeders[i].produced|
      modifies `feeders, `output
      ensures Valid()
      ensures feeders == old(feeders)[i := old(feeders)[i].(read := old(feeders)[i].read + 1)]
      ensures output == old(output) + [(i, old(feeders)[i].produced[old(feeders)[i].read])]
    {
      hide Reachable;
      ReachableStep(View(), Read(i));
      var f := feeders[i];
      feeders := feeders[i := f.(read := f.read + 1, at := Sending)];
      ReachableStep(View(), Send(i));
      output := output + [(i, f.produced[f.read])];
      feeders := feeders[i := f.(read := f.read + 1)];
    }

    /** The goroutine of an input that is closed and empty leaves the wait group. */
    method Leaves(i: nat)
      requires Valid() && i < |feeders| && feeders[i].at.Reading?
      requires !feeders[i].open && feeders[i].read == |feeders[i].produced|
      modifies `feeders, `wg
      ensures Valid()
      ensures feeders == old(feeders)[i := old(feeders)[i].(at := Gone)] && wg == old(wg) - 1
    {
      hide Reachable;
      var f := feeders[i];
      ReachableStep(View(), Drain(i));
      feeders := feeders[i := f.(at := Finished)];
      Counted(View(), i);
      ReachableStep(View(), Leave(i));
      feeders := feeders[i := f.(at := Gone)];
      wg := wg - 1;
    }

    /**
     The goroutine of input `i`, run until its channel is empty: everything left in the channel is sent, in order.
     When the channel is closed the goroutine then leaves the wait group, and otherwise it waits for the next value.
     */
    method FanInRoutine(i: nat)
      requires Valid() && !outClosed && i < |feeders| && feeders[i].at.Reading?
      modifies `feeders, `output, `wg
      ensures Valid()
      ensures
        var f := old(feeders)[i];
        feeders == old(feeders)[i := f.(read := |f.produced|, at := if f.open then Reading else Gone)]
      ensures wg == if old(feeders)[i].open then old(wg) else old(wg) - 1
      ensures old(output) <= output
      ensures forall k | |old(output)| <= k < |output| :: output[k].0 == i
      ensures From(output, i) == old(feeders)[i].produced
    {
      Counted(View(), i);
      hide Reachable, From;
      ghost var f := feeders[i];
      while feeders[i].read < |feeders[i].produced|
        invariant Valid() && wg == old(wg) && |feeders| == |old(feeders)|
        invariant f.read <= feeders[i].read <= |f.produced|
        invariant feeders == old(feeders)[i := f.(read := feeders[i].read)]
        invariant old(output) <= output
        invariant forall k | |old(output)| <= k < |output| :: output[k].0 == i
        decreases |feeders[i].produced| - feeders[i].read
      {
        PassOn(i);
      }
      if !feeders[i].open {
        Leaves(i);
      }
      Counted(View(), i);
      assert f.produced[..|f.produced|] == f.produced;
    }
  }

  /** A goroutine that has not left is counted in the wait group, and what it passed on is in the output. */
  lemma Counted<T(!new)>(s: State<T>, i: nat)
    requires Reachable(s) && i < |s.feeders|
    ensures FeederOk(s, i)
    ensures s.feeders[i].at != Gone ==> s.wg > 0
  {
    RunMerges(s);
    assert FeederOk(s, i);
    SumAtLeast(Live(), s.feeders, i);
  }
}
