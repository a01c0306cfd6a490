/** Several input channels merged into one output: the goroutines as steps, and what every run keeps. */
module FanInSteps {
  /** Where the goroutine of an input is. While it is sending, the value is the last one it read. */
  datatype Place = Reading | Sending | Finished | Gone

  /** An input channel and its goroutine: all that was put into the channel, and how much of it was read. */
  datatype Feeder<T> = Feeder(produced: seq<T>, read: nat, open: bool, at: Place)

  datatype Mutex = Free | ByInput(left: nat)

  /** The goroutine started by `AutoClose`. */
  datatype Waiter = Idle | Waiting | Woken | Done

  datatype State<T> = State(
    mutex: Mutex,
    closed: bool,
    outClosed: bool,
    closes: nat,
    wg: nat,
    once: bool,
    waiter: Waiter,
    feeders: seq<Feeder<T>>,
    output: seq<(nat, T)>,
    crashed: bool)

  datatype Event<T> =
    | InputBegins(n: nat)
    | Add
    | InputEnds
    | Produce(i: nat, value: T)
    | EndInput(i: nat)
    | Read(i: nat)
    | Send(i: nat)
    | Drain(i: nat)
    | Leave(i: nat)
    | Close
    | AutoClose
    | Wake
    | WaiterCloses

  function Start<T>(): State<T> {
    State(Free, false, false, 0, 0, false, Idle, [], [], false)
  }

  predicate Enabled<T>(s: State<T>, e: Event<T>) {
    match e
    case InputBegins(_) => s.mutex == Free
    case Add => s.mutex.ByInput? && s.mutex.left > 0
    case InputEnds => s.mutex == ByInput(0)
    case Produce(i, _) => i < |s.feeders| && s.feeders[i].open
    case EndInput(i) => i < |s.feeders| && s.feeders[i].open
    case Read(i) => i < |s.feeders| && s.feeders[i].at.Reading? && s.feeders[i].read < |s.feeders[i].produced|
    case Send(i) => i < |s.feeders| && s.feeders[i].at.Sending? && 0 < s.feeders[i].read <= |s.feeders[i].produced|
    case Drain(i) =>
      && i < |s.feeders| && s.feeders[i].at.Reading?
      && !s.feeders[i].open && s.feeders[i].read == |s.feeders[i].produced|
    case Leave(i) => i < |s.feeders| && s.feeders[i].at.Finished?
    case Close => s.mutex == Free
    case AutoClose => true
    case Wake => s.waiter == Waiting && s.wg == 0
    case WaiterCloses => s.waiter == Woken && s.mutex == Free
  }

  function CloseOutput<T>(s: State<T>): State<T> {
    if s.closed then s
    else if s.outClosed then s.(crashed := true)
    else s.(closed := true, outClosed := true, closes := s.closes + 1)
  }

  function Apply<T>(s: State<T>, e: Event<T>): State<T>
    requires Enabled(s, e)
  {
    match e
    case InputBegins(n) => if s.closed then s else s.(mutex := ByInput(n))
    case Add =>
      s.(mutex := ByInput(s.mutex.left - 1), wg := s.wg + 1, feeders := s.feeders + [Feeder([], 0, true, Reading)])
    case InputEnds => s.(mutex := Free)
    case Produce(i, v) => With(s, i, s.feeders[i].(produced := s.feeders[i].produced + [v]))
    case EndInput(i) => With(s, i, s.feeders[i].(open := false))
    case Read(i) => With(s, i, s.feeders[i].(read := s.feeders[i].read + 1, at := Sending))
    case Send(i) =>
      if s.outClosed then s.(crashed := true)
      else
        var f := s.feeders[i];
        With(s, i, f.(at := Reading)).(output := s.output + [(i, f.produced[f.read - 1])])
    case Drain(i) => With(s, i, s.feeders[i].(at := Finished))
    case Leave(i) =>
      if s.wg == 0 then s.(crashed := true) else With(s, i, s.feeders[i].(at := Gone)).(wg := s.wg - 1)
    case Close => CloseOutput(s)
    case AutoClose => if s.once then s else s.(once := true, waiter := Waiting)
    case Wake => s.(waiter := Woken)
    case WaiterCloses => CloseOutput(s).(waiter := Done)
  }

  function With<T>(s: State<T>, i: nat, f: Feeder<T>): State<T>
    requires i < |s.feeders|
  {
    s.(feeders := s.feeders[i := f])
  }

  // ---------- Sums over the inputs ----------

  function Sum<T>(w: Feeder<T> -> nat, fs: seq<Feeder<T>>): nat {
    if fs == [] then 0 else w(fs[0]) + Sum(w, fs[1..])
  }

  lemma {:induction false} SumUpdate<T>(w: Feeder<T> -> nat, fs: seq<Feeder<T>>, i: nat, f: Feeder<T>)
    requires i < |fs|
    ensures Sum(w, fs[i := f]) + w(fs[i]) == Sum(w, fs) + w(f)
  {
    if i == 0 {
      assert fs[i := f][1..] == fs[1..];
    } else {
      assert fs[i := f][1..] == fs[1..][i - 1 := f];
      SumUpdate(w, fs[1..], i - 1, f);
    }
  }

  lemma {:induction false} SumAppend<T>(w: Feeder<T> -> nat, fs: seq<Feeder<T>>, f: Feeder<T>)
    ensures Sum(w, fs + [f]) == Sum(w, fs) + w(f)
  {
    if fs == [] {
      assert fs + [f] == [f];
    } else {
      assert (fs + [f])[1..] == fs[1..] + [f];
      SumAppend(w, fs[1..], f);
    }
  }

  lemma {:induction false} SumAtLeast<T>(w: Feeder<T> -> nat, fs: seq<Feeder<T>>, i: nat)
    requires i < |fs|
    ensures w(fs[i]) <= Sum(w, fs)
  {
    if i > 0 {
      SumAtLeast(w, fs[1..], i - 1);
    }
  }

  lemma {:induction false} SumZero<T>(w: Feeder<T> -> nat, fs: seq<Feeder<T>>)
    requires forall i | 0 <= i < |fs| :: w(fs[i]) == 0
    ensures Sum(w, fs) == 0
  {
    if fs != [] {
      SumZero(w, fs[1..]);
    }
  }

  /** An input whose goroutine has not left the wait group. */
  function Live<T>(): Feeder<T> -> nat {
    (f: Feeder<T>) => if f.at.Gone? then 0 else 1
  }

  // ---------- What every reachable state satisfies ----------

  /** What the output has received from one input, in order. */
  function From<T>(output: seq<(nat, T)>, i: nat): seq<T> {
    if output == [] then []
    else
      var last := output[|output| - 1];
      From(output[..|output| - 1], i) + if last.0 == i then [last.1] else []
  }

  /** How much of an input has been passed on: all that was read but for a value in flight. */
  function Passed<T>(f: Feeder<T>): int {
    if f.at.Sending? then f.read - 1 else f.read
  }

  /** The output has exactly what was passed on from the input, in the order in which it was put in. */
  ghost predicate FeederOk<T>(s: State<T>, i: nat)
    requires i < |s.feeders|
  {
    var f := s.feeders[i];
    && 0 <= Passed(f) && f.read <= |f.produced|
    && From(s.output, i) == f.produced[..Passed(f)]
    && (f.at.Finished? || f.at.Gone? ==> !f.open && f.read == |f.produced|)
  }

  ghost predicate Merged<T>(s: State<T>) {
    && (forall i | 0 <= i < |s.feeders| :: FeederOk(s, i))
    && (forall k | 0 <= k < |s.output| :: s.output[k].0 < |s.feeders|)
  }

  ghost predicate Inv<T>(s: State<T>) {
    && Merged(s)
    && s.wg == Sum(Live(), s.feeders)
    && (s.outClosed <==> s.closed)
    && s.closes == (if s.closed then 1 else 0)
    && (s.closed ==> s.mutex == Free)
    && (s.waiter == Idle <==> !s.once)
    && (s.waiter == Done ==> s.closed)
  }

  lemma StepKeepsInv<T>(s: State<T>, e: Event<T>)
    requires Inv(s) && Enabled(s, e)
    ensures Inv(Apply(s, e))
    ensures !s.crashed && Apply(s, e).crashed ==> e.Send? && s.closed
  {
    StepKeepsMerged(s, e);
    var t := Apply(s, e);
    assert t.wg == Sum(Live(), t.feeders) by {
      StepKeepsCount(s, e);
    }
    if e.Leave? {
      SumAtLeast(Live(), s.feeders, e.i);
    }
    hide Merged;
  }

  lemma StepKeepsCount<T>(s: State<T>, e: Event<T>)
    requires Enabled(s, e) && s.wg == Sum(Live(), s.feeders)
    ensures Apply(s, e).wg == Sum(Live(), Apply(s, e).feeders)
  {
    var t := Apply(s, e);
    match e
    case Add => SumAppend(Live(), s.feeders, Feeder([], 0, true, Reading));
    case Produce(i, _) => SumUpdate(Live(), s.feeders, i, t.feeders[i]);
    case EndInput(i) => SumUpdate(Live(), s.feeders, i, t.feeders[i]);
    case Read(i) => SumUpdate(Live(), s.feeders, i, t.feeders[i]);
    case Send(i) => SumUpdate(Live(), s.feeders, i, t.feeders[i]);
    case Drain(i) => SumUpdate(Live(), s.feeders, i, t.feeders[i]);
    case Leave(i) => SumUpdate(Live(), s.feeders, i, t.feeders[i]);
    case _ =>
  }

  lemma StepKeepsMerged<T>(s: State<T>, e: Event<T>)
    requires Merged(s) && Enabled(s, e)
    ensures Merged(Apply(s, e))
  {
    var t := Apply(s, e);
    forall i | 0 <= i < |t.feeders| ensures FeederOk(t, i) {
      if i < |s.feeders| {
        assert FeederOk(s, i);
        FeederKept(s, e, i);
      } else {
        NothingFrom(s.output, i);
      }
    }
  }

  lemma FeederKept<T>(s: State<T>, e: Event<T>, i: nat)
    requires Enabled(s, e) && i < |s.feeders| && FeederOk(s, i)
    ensures i < |Apply(s, e).feeders| && FeederOk(Apply(s, e), i)
  {
    if e.Send? {
      SendKept(s, e, i);
    } else {
      hide From;
      assert Apply(s, e).output == s.output;
    }
  }

  lemma SendKept<T>(s: State<T>, e: Event<T>, i: nat)
    requires e.Send? && Enabled(s, e) && i < |s.feeders| && FeederOk(s, i)
    ensures i < |Apply(s, e).feeders| && FeederOk(Apply(s, e), i)
  {
    hide From;
    if !s.outClosed {
      var f := s.feeders[e.i];
      FromAppend(s.output, (e.i, f.produced[f.read - 1]), i);
      if e.i == i {
        assert f.produced[..f.read] == f.produced[..f.read - 1] + [f.produced[f.read - 1]];
      }
    }
  }

  lemma FromAppend<T>(output: seq<(nat, T)>, x: (nat, T), i: nat)
    ensures From(output + [x], i) == From(output, i) + if x.0 == i then [x.1] else []
  {
    assert (output + [x])[..|output|] == output;
  }

  lemma {:induction false} NothingFrom<T>(output: seq<(nat, T)>, i: nat)
    requires forall k | 0 <= k < |output| :: output[k].0 != i
    ensures From(output, i) == []
  {
    if output != [] {
      NothingFrom(output[..|output| - 1], i);
    }
  }

  // ---------- Whole runs ----------

  predicate Allowed<T>(s: State<T>, events: seq<Event<T>>)
    decreases |events|
  {
    events == [] || (Enabled(s, events[0]) && Allowed(Apply(s, events[0]), events[1..]))
  }

  function After<T>(s: State<T>, events: seq<Event<T>>): State<T>
    requires Allowed(s, events)
    decreases |events|
  {
    if events == [] then s else After(Apply(s, events[0]), events[1..])
  }

  ghost predicate Reachable<T(!new)>(s: State<T>) {
    exists events :: Allowed(Start(), events) && After(Start(), events) == s
  }

  lemma {:induction false} RunKeepsInv<T>(s: State<T>, events: seq<Event<T>>)
    requires Inv(s) && Allowed(s, events)
    ensures Inv(After(s, events))
    decreases |events|
  {
    if events != [] {
      StepKeepsInv(s, events[0]);
      RunKeepsInv(Apply(s, events[0]), events[1..]);
    }
  }

  lemma {:induction false} RunAppend<T>(s: State<T>, a: seq<Event<T>>, b: seq<Event<T>>)
    ensures Allowed(s, a + b) <==> Allowed(s, a) && Allowed(After(s, a), b)
    ensures Allowed(s, a + b) ==> After(s, a + b) == After(After(s, a), b)
    decreases |a|
  {
    if a == [] {
      assert a + b == b;
    } else {
      assert (a + b)[1..] == a[1..] + b;
      if Enabled(s, a[0]) {
        RunAppend(Apply(s, a[0]), a[1..], b);
      }
    }
  }

  lemma StartInv<T>()
    ensures Inv(Start<T>())
  {
  }

  lemma ReachableStep<T(!new)>(s: State<T>, e: Event<T>)
    requires Reachable(s) && Enabled(s, e)
    ensures Reachable(Apply(s, e))
  {
    var events :| Allowed(Start(), events) && After(Start(), events) == s;
    RunAppend(Start(), events, [e]);
    assert Allowed(s, [e]) && After(s, [e]) == Apply(s, e) by {
      assert [e][1..] == [];
    }
    assert Reachable(Apply(s, e)) by {
      assert Allowed(Start(), events + [e]) && After(Start(), events + [e]) == Apply(s, e);
    }
  }

  /**
   However the methods are called, the output is an interleaving that keeps the order of every input, with
   nothing lost or repeated, and it is closed at most once.
   */
  lemma RunMerges<T(!new)>(s: State<T>)
    requires Reachable(s)
    ensures Inv(s)
    ensures forall i | 0 <= i < |s.feeders| ::
      && 0 <= Passed(s.feeders[i]) <= |s.feeders[i].produced|
      && From(s.output, i) == s.feeders[i].produced[..Passed(s.feeders[i])]
    ensures forall k | 0 <= k < |s.output| :: s.output[k].0 < |s.feeders|
    ensures s.closes <= 1
  {
    var events :| Allowed(Start(), events) && After(Start(), events) == s;
    StartInv<T>();
    RunKeepsInv(Start(), events);
    forall i | 0 <= i < |s.feeders|
      ensures 0 <= Passed(s.feeders[i]) <= |s.feeders[i].produced|
      ensures From(s.output, i) == s.feeders[i].produced[..Passed(s.feeders[i])]
    {
      assert FeederOk(s, i);
    }
  }

  // ---------- What the inputs were ----------

  /** The values that were put into input `i`. */
  function Produced<T>(events: seq<Event<T>>, i: nat): seq<T> {
    if events == [] then [] else ProducedBy(events[0], i) + Produced(events[1..], i)
  }

  function ProducedBy<T>(e: Event<T>, i: nat): seq<T> {
    if e.Produce? && e.i == i then [e.value] else []
  }

  function ProducedIn<T>(s: State<T>, i: nat): seq<T> {
    if i < |s.feeders| then s.feeders[i].produced else []
  }

  /** The values of an input are those put into it, nothing less and nothing more. */
  lemma {:induction false} InputIsProduced<T>(s: State<T>, events: seq<Event<T>>, i: nat)
    requires Allowed(s, events)
    ensures ProducedIn(After(s, events), i) == ProducedIn(s, i) + Produced(events, i)
    decreases |events|
  {
    if events != [] {
      StepProduces(s, events[0], i);
      hide Enabled, Apply, ProducedIn, ProducedBy;
      InputIsProduced(Apply(s, events[0]), events[1..], i);
    }
  }

  lemma StepProduces<T>(s: State<T>, e: Event<T>, i: nat)
    requires Enabled(s, e)
    ensures ProducedIn(Apply(s, e), i) == ProducedIn(s, i) + ProducedBy(e, i)
  {
  }

  // ---------- Closing only when everything is drained ----------

  /** No input is added once `AutoClose` was called, and `Close` is called only when the wait group is empty. */
  predicate Disciplined<T>(s: State<T>, e: Event<T>) {
    match e
    case InputBegins(_) => !s.once
    case AutoClose => s.mutex == Free
    case Close => s.closed || s.wg == 0
    case _ => true
  }

  predicate AllDisciplined<T>(s: State<T>, events: seq<Event<T>>)
    requires Allowed(s, events)
    decreases |events|
  {
    events == [] || (Disciplined(s, events[0]) && AllDisciplined(Apply(s, events[0]), events[1..]))
  }

  ghost predicate Orderly<T>(s: State<T>) {
    && Inv(s)
    && !s.crashed
    && (s.once ==> s.mutex == Free)
    && (s.waiter == Woken ==> s.wg == 0)
    && (s.closed ==> s.wg == 0)
  }

  lemma StepKeepsOrder<T>(s: State<T>, e: Event<T>)
    requires Orderly(s) && Enabled(s, e) && Disciplined(s, e)
    ensures Orderly(Apply(s, e))
  {
    StepKeepsInv(s, e);
    if e.Send? {
      SumAtLeast(Live(), s.feeders, e.i);
    }
    hide Inv;
  }

  lemma {:induction false} RunKeepsOrder<T>(s: State<T>, events: seq<Event<T>>)
    requires Orderly(s) && Allowed(s, events) && AllDisciplined(s, events)
    ensures Orderly(After(s, events))
    decreases |events|
  {
    if events != [] {
      StepKeepsOrder(s, events[0]);
      RunKeepsOrder(Apply(s, events[0]), events[1..]);
    }
  }

  /** In a disciplined run nothing panics, and a closed output has everything that was ever put into any input. */
  lemma ClosedIsDrained<T>(events: seq<Event<T>>)
    requires Allowed(Start<T>(), events) && AllDisciplined(Start<T>(), events)
    ensures
      var s := After(Start<T>(), events);
      && !s.crashed
      && (s.closed ==> forall i | 0 <= i < |s.feeders| ::
            !s.feeders[i].open && From(s.output, i) == s.feeders[i].produced)
  {
    StartInv<T>();
    RunKeepsOrder(Start(), events);
    var s := After(Start<T>(), events);
    if s.closed {
      forall i | 0 <= i < |s.feeders|
        ensures !s.feeders[i].open && From(s.output, i) == s.feeders[i].produced
      {
        SumAtLeast(Live(), s.feeders, i);
        assert FeederOk(s, i);
        assert s.feeders[i].produced[..|s.feeders[i].produced|] == s.feeders[i].produced;
      }
    }
  }

  // ---------- What goes wrong otherwise ----------

  /** An input from which a value may still be sent. */
  predicate MaySend<T>(f: Feeder<T>) {
    f.at.Sending? || (f.at.Reading? && (f.open || f.read < |f.produced|))
  }

  /** A closed fan-in can still panic, in some continuation, exactly when some input may still send. */
  lemma ClosedCrash<T(!new)>(s: State<T>, v: T)
    requires Reachable(s) && s.closed && !s.crashed
    ensures (exists events :: Allowed(s, events) && After(s, events).crashed)
            <==> exists i | 0 <= i < |s.feeders| :: MaySend(s.feeders[i])
  {
    RunMerges(s);
    if i :| 0 <= i < |s.feeders| && MaySend(s.feeders[i]) {
      var events := CrashingRun(s, i, v);
    }
    if events :| Allowed(s, events) && After(s, events).crashed {
      if forall i | 0 <= i < |s.feeders| :: !MaySend(s.feeders[i]) {
        SilentStays(s, events);
      }
    }
  }

  lemma {:induction false} CrashingRun<T>(s: State<T>, i: nat, v: T) returns (events: seq<Event<T>>)
    requires Inv(s) && s.closed && i < |s.feeders| && MaySend(s.feeders[i])
    ensures Allowed(s, events) && After(s, events).crashed
    decreases if s.feeders[i].at.Sending? then 0 else if s.feeders[i].read < |s.feeders[i].produced| then 1 else 2
  {
    assert FeederOk(s, i);
    var f := s.feeders[i];
    var e := if f.at.Sending? then Send(i) else if f.read < |f.produced| then Read(i) else Produce(i, v);
    var rest := [];
    if !f.at.Sending? {
      StepKeepsInv(s, e);
      rest := CrashingRun(Apply(s, e), i, v);
    }
    events := [e] + rest;
    assert events[1..] == rest;
  }

  lemma {:induction false} SilentStays<T>(s: State<T>, events: seq<Event<T>>)
    requires Inv(s) && s.closed && !s.crashed && Allowed(s, events)
    requires forall i | 0 <= i < |s.feeders| :: !MaySend(s.feeders[i])
    ensures !After(s, events).crashed
    decreases |events|
  {
    if events != [] {
      var t := Apply(s, events[0]);
      StepKeepsInv(s, events[0]);
      assert t.closed && !t.crashed && forall i | 0 <= i < |t.feeders| :: !MaySend(t.feeders[i]) by {
        SilentStep(s, events[0]);
      }
      SilentStays(t, events[1..]);
    }
  }

  lemma SilentStep<T>(s: State<T>, e: Event<T>)
    requires Inv(s) && s.closed && !s.crashed && Enabled(s, e)
    requires forall i | 0 <= i < |s.feeders| :: !MaySend(s.feeders[i])
    ensures
      var t := Apply(s, e);
      t.closed && !t.crashed && forall i | 0 <= i < |t.feeders| :: !MaySend(t.feeders[i])
  {
    StepKeepsInv(s, e);
    if e.Produce? || e.EndInput? || e.Read? || e.Send? || e.Drain? || e.Leave? {
      assert FeederOk(s, e.i);
      assert !MaySend(s.feeders[e.i]);
    }
    var t := Apply(s, e);
    forall i | 0 <= i < |t.feeders| ensures !MaySend(t.feeders[i]) {
      assert !MaySend(s.feeders[i]);
    }
  }

  lemma Extend<T>(s: State<T>, e: Event<T>, rest: seq<Event<T>>)
    requires Enabled(s, e) && Allowed(Apply(s, e), rest)
    ensures Allowed(s, [e] + rest) && After(s, [e] + rest) == After(Apply(s, e), rest)
  {
    assert ([e] + rest)[1..] == rest;
  }

  /** Closing while some input may still send can panic. */
  lemma CloseTooEarly<T>(s: State<T>, i: nat, v: T) returns (events: seq<Event<T>>)
    requires Inv(s) && !s.closed && s.mutex == Free && i < |s.feeders| && MaySend(s.feeders[i])
    ensures Allowed(s, [Close] + events) && After(s, [Close] + events).crashed
  {
    StepKeepsInv(s, Close);
    events := CrashingRun(Apply(s, Close), i, v);
    Extend(s, Close, events);
  }

  /** That all input channels are closed is not enough for `Close`: the last value may still be in flight. */
  lemma ClosedInputsAreNotEnough<T(!new)>(v: T) returns (s: State<T>)
    ensures Reachable(s) && !s.closed && s.mutex == Free
    ensures |s.feeders| == 1 && !s.feeders[0].open && MaySend(s.feeders[0])
  {
    s := Start();
    assert Reachable(s) by {
      assert Allowed(s, []) && After(s, []) == s;
    }
    s := Taken(s, InputBegins(1));
    s := Taken(s, Add);
    s := Taken(s, InputEnds);
    s := Taken(s, Produce(0, v));
    s := Taken(s, EndInput(0));
    s := Taken(s, Read(0));
  }

  lemma Taken<T(!new)>(s: State<T>, e: Event<T>) returns (t: State<T>)
    requires Reachable(s) && Enabled(s, e)
    ensures Reachable(t) && t == Apply(s, e)
  {
    ReachableStep(s, e);
    t := Apply(s, e);
  }

  /** An input added after `AutoClose`, when the other inputs are done, can be cut off by the closing goroutine. */
  lemma LateInputPanics<T>(s: State<T>, v: T) returns (events: seq<Event<T>>)
    requires Inv(s) && s.once && !s.closed && s.mutex == Free && s.wg == 0
    ensures Allowed(s, events) && After(s, events).crashed
    ensures InputBegins(1) in events && forall e | e in events :: !e.Close?
  {
    if s.waiter == Waiting {
      StepKeepsInv(s, Wake);
      var rest := LateInputWoken(Apply(s, Wake), v);
      Extend(s, Wake, rest);
      events := [Wake] + rest;
    } else {
      events := LateInputWoken(s, v);
    }
  }

  lemma LateInputWoken<T>(s: State<T>, v: T) returns (events: seq<Event<T>>)
    requires Inv(s) && s.waiter == Woken && !s.closed && s.mutex == Free
    ensures Allowed(s, events) && After(s, events).crashed
    ensures InputBegins(1) in events && forall e | e in events :: !e.Close?
  {
    var s1 := Apply(s, InputBegins(1));
    StepKeepsInv(s, InputBegins(1));
    var s2 := Apply(s1, Add);
    StepKeepsInv(s1, Add);
    var s3 := Apply(s2, InputEnds);
    StepKeepsInv(s2, InputEnds);
    var s4 := Apply(s3, WaiterCloses);
    StepKeepsInv(s3, WaiterCloses);
    hide Inv, Allowed, After;
    var rest := LateSend(s4, |s.feeders|, v);
    Extend(s3, WaiterCloses, rest);
    Extend(s2, InputEnds, [WaiterCloses] + rest);
    Extend(s1, Add, [InputEnds] + ([WaiterCloses] + rest));
    Extend(s, InputBegins(1), [Add] + ([InputEnds] + ([WaiterCloses] + rest)));
    events := [InputBegins(1)] + ([Add] + ([InputEnds] + ([WaiterCloses] + rest)));
  }

  lemma LateSend<T>(s: State<T>, i: nat, v: T) returns (events: seq<Event<T>>)
    requires Inv(s) && s.closed && i < |s.feeders| && s.feeders[i] == Feeder([], 0, true, Reading)
    ensures Allowed(s, events) && After(s, events).crashed
    ensures forall e | e in events :: !e.Close?
  {
    var s1 := Apply(s, Produce(i, v));
    var s2 := Apply(s1, Read(i));
    assert Allowed(s2, []) && Allowed(Apply(s2, Send(i)), []);
    Extend(s2, Send(i), []);
    Extend(s1, Read(i), [Send(i)] + []);
    Extend(s, Produce(i, v), [Read(i)] + ([Send(i)] + []));
    events := [Produce(i, v)] + ([Read(i)] + ([Send(i)] + []));
  }

  // ---------- The output is closed in the end ----------

  function Remaining<T>(): Feeder<T> -> nat {
    (f: Feeder<T>) =>
      (if f.read < |f.produced| then 2 * (|f.produced| - f.read) else 0)
      + match f.at case Reading => 2 case Sending => 3 case Finished => 1 case Gone => 0
  }

  /** How many steps the goroutines can still take when no input is open. */
  function Work<T>(s: State<T>): nat {
    Sum(Remaining(), s.feeders) + match s.waiter case Waiting => 2 case Woken => 1 case _ => 0
  }

  /** A step of one of the goroutines, as opposed to a call or a value put into an input. */
  predicate Internal<T>(e: Event<T>) {
    e.Read? || e.Send? || e.Drain? || e.Leave? || e.Wake? || e.WaiterCloses?
  }

  /** `AutoClose` was called and every input channel is closed. */
  ghost predicate Ending<T>(s: State<T>) {
    Orderly(s) && s.once && forall i | 0 <= i < |s.feeders| :: !s.feeders[i].open
  }

  /** Whatever step a goroutine takes, fewer are left. */
  lemma InternalStepsEnd<T>(s: State<T>, e: Event<T>)
    requires Ending(s) && Internal(e) && Enabled(s, e)
    ensures Ending(Apply(s, e)) && Work(Apply(s, e)) < Work(s)
  {
    StepKeepsOrder(s, e);
    var t := Apply(s, e);
    hide Inv;
    if e.Read? || e.Send? || e.Drain? || e.Leave? {
      SumUpdate(Remaining(), s.feeders, e.i, t.feeders[e.i]);
    }
  }

  /** And as long as the output is not closed, some goroutine has a step to take. */
  lemma SomeStepIsLeft<T>(s: State<T>) returns (e: Event<T>)
    requires Ending(s) && !s.closed
    ensures Internal(e) && Enabled(s, e)
  {
    if i :| 0 <= i < |s.feeders| && s.feeders[i].at != Gone {
      assert FeederOk(s, i);
      var f := s.feeders[i];
      e := if f.at.Sending? then Send(i)
           else if f.at.Finished? then Leave(i)
           else if f.read < |f.produced| then Read(i)
           else Drain(i);
    } else {
      SumZero(Live(), s.feeders);
      e := if s.waiter == Waiting then Wake else WaiterCloses;
    }
  }

  /** So `AutoClose` closes the output after finitely many steps, and then nothing is missing from it. */
  lemma {:induction false} AutoCloseCompletes<T>(s: State<T>) returns (events: seq<Event<T>>)
    requires Ending(s)
    ensures Allowed(s, events) && (forall e | e in events :: Internal(e)) && After(s, events).closed
    decreases Work(s)
  {
    if s.closed {
      events := [];
    } else {
      var e := SomeStepIsLeft(s);
      InternalStepsEnd(s, e);
      var rest := AutoCloseCompletes(Apply(s, e));
      Extend(s, e, rest);
      events := [e] + rest;
    }
  }
}
