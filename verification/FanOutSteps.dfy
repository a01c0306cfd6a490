/** One input channel broadcast to outputs that come and go: the goroutines as steps, and what every run keeps. */
module FanOutSteps {
  import opened Options

  /** An output before it is registered, while it is registered, and after it is removed, with the number of
      values whose broadcast had begun when it was registered and when it was removed. */
  datatype Life = Made | Live(joined: nat) | Gone(joined: nat, left: nat)

  datatype Channel<T> = Channel(sent: seq<T>, closed: bool, life: Life)

  /** Where the broadcasting goroutine is. `todo` holds the outputs its current loop has not visited yet. */
  datatype Routine<T> =
    | Receiving
    | Locking(value: T)
    | Sending(value: T, todo: set<nat>)
    | Stopping
    | Closing(todo: set<nat>)
    | Ended

  /** Where a call is: of `OutputContext`, of `Close`, or of the goroutine that waits for a context. */
  datatype Call =
    | Register(bounded: bool)
    | Registering(bounded: bool)
    | Opening(ch: nat, bounded: bool)
    | Inserting(ch: nat)
    | Registered(ch: nat)
    | Returned(ch: nat)
    | Watch(ch: nat)
    | Remove(target: Option<nat>)
    | Removing(target: Option<nat>)
    | Removed(target: Option<nat>)
    | Closed(target: Option<nat>)

  datatype Mutex = Free | ByRoutine | ByCall(id: nat)

  datatype State<T> = State(
    mutex: Mutex,
    routine: Routine<T>,
    calls: seq<Call>,
    channels: seq<Channel<T>>,
    out: set<nat>,
    inputGone: bool,
    taken: seq<T>,
    crashed: bool)

  datatype Event<T> =
    | Receive(value: T)
    | InputClosed
    | RoutineLocks
    | Send(ch: nat)
    | RoutineUnlocks
    | CloseOne(ch: nat)
    | RoutineEnds
    | CallOutput(bounded: bool)
    | CallClose(target: Option<nat>)
    | CallLocks(id: nat)
    | Make(id: nat)
    | Spawn(id: nat)
    | Insert(id: nat)
    | Delete(id: nat)
    | CallUnlocks(id: nat)
    | Cancelled(id: nat)

  function Start<T>(): State<T> {
    State(Free, Receiving, [], [], {}, false, [], false)
  }

  /** How many values have had their broadcast begun: all received, but for one still waiting for the mutex. */
  function Begun<T>(s: State<T>): nat {
    if s.routine.Locking? && s.taken != [] then |s.taken| - 1 else |s.taken|
  }

  /** Calls that own the mutex. */
  predicate Holds(call: Call) {
    call.Registering? || call.Opening? || call.Inserting? || call.Registered? || call.Removing? || call.Removed?
  }

  predicate Enabled<T>(s: State<T>, e: Event<T>) {
    match e
    case Receive(_) => s.routine.Receiving?
    case InputClosed => s.routine.Receiving?
    case RoutineLocks => s.mutex == Free && (s.routine.Locking? || s.routine.Stopping?)
    case Send(ch) => s.routine.Sending? && ch in s.routine.todo && ch < |s.channels|
    case RoutineUnlocks => s.routine.Sending? && s.routine.todo == {}
    case CloseOne(ch) => s.routine.Closing? && ch in s.routine.todo && ch < |s.channels|
    case RoutineEnds => s.routine.Closing? && s.routine.todo == {}
    case CallOutput(_) => true
    case CallClose(target) => target.Some? ==> exists i | 0 <= i < |s.calls| :: s.calls[i] == Returned(target.value)
    case CallLocks(id) => s.mutex == Free && id < |s.calls| && (s.calls[id].Register? || s.calls[id].Remove?)
    case Make(id) => id < |s.calls| && s.calls[id].Registering?
    case Spawn(id) => id < |s.calls| && s.calls[id].Opening?
    case Insert(id) => id < |s.calls| && s.calls[id].Inserting? && s.calls[id].ch < |s.channels|
    case Delete(id) =>
      && id < |s.calls| && s.calls[id].Removing?
      && (s.calls[id].target.Some? && s.calls[id].target.value in s.out ==> s.calls[id].target.value < |s.channels|)
    case CallUnlocks(id) => id < |s.calls| && (s.calls[id].Registered? || s.calls[id].Removed?)
    case Cancelled(id) => id < |s.calls| && s.calls[id].Watch?
  }

  /** Closing a closed channel panics. */
  function CloseChannel<T>(s: State<T>, ch: nat): State<T>
    requires ch < |s.channels|
  {
    var c := s.channels[ch];
    if c.closed then s.(crashed := true)
    else
      var joined := if c.life.Made? then Begun(s) else c.life.joined;
      s.(channels := s.channels[ch := c.(closed := true, life := Gone(joined, Begun(s)))])
  }

  /** Sending to a closed channel panics. */
  function SendTo<T>(s: State<T>, ch: nat, v: T): State<T>
    requires ch < |s.channels|
  {
    var c := s.channels[ch];
    if c.closed then s.(crashed := true) else s.(channels := s.channels[ch := c.(sent := c.sent + [v])])
  }

  function Move<T>(s: State<T>, id: nat, call: Call): State<T>
    requires id < |s.calls|
  {
    s.(calls := s.calls[id := call])
  }

  function Apply<T>(s: State<T>, e: Event<T>): State<T>
    requires Enabled(s, e)
  {
    match e
    case Receive(v) => s.(taken := s.taken + [v], routine := Locking(v))
    case InputClosed => s.(routine := Stopping)
    case RoutineLocks =>
      s.(mutex := ByRoutine,
         routine := if s.routine.Locking? then Sending(s.routine.value, s.out) else Closing(s.out))
    case Send(ch) =>
      SendTo(s, ch, s.routine.value).(routine := Sending(s.routine.value, s.routine.todo - {ch}))
    case RoutineUnlocks => s.(mutex := Free, routine := Receiving)
    case CloseOne(ch) => CloseChannel(s, ch).(routine := Closing(s.routine.todo - {ch}))
    case RoutineEnds => s.(mutex := Free, routine := Ended, inputGone := true, out := {})
    case CallOutput(bounded) => s.(calls := s.calls + [Register(bounded)])
    case CallClose(target) => s.(calls := s.calls + [Remove(target)])
    case CallLocks(id) =>
      Move(s, id, if s.calls[id].Register? then Registering(s.calls[id].bounded) else Removing(s.calls[id].target))
      .(mutex := ByCall(id))
    case Make(id) =>
      var ch := |s.channels|;
      var made := s.(channels := s.channels + [Channel([], false, Made)]);
      if s.inputGone then Move(CloseChannel(made, ch), id, Registered(ch))
      else Move(made, id, Opening(ch, s.calls[id].bounded))
    case Spawn(id) =>
      var ch := s.calls[id].ch;
      var moved := Move(s, id, Inserting(ch));
      if s.calls[id].bounded then moved.(calls := moved.calls + [Watch(ch)]) else moved
    case Insert(id) =>
      var ch := s.calls[id].ch;
      Move(s, id, Registered(ch))
      .(out := s.out + {ch}, channels := s.channels[ch := s.channels[ch].(life := Live(Begun(s)))])
    case Delete(id) =>
      var target := s.calls[id].target;
      var moved := Move(s, id, Removed(target));
      if target.Some? && target.value in s.out then
        CloseChannel(moved, target.value).(out := s.out - {target.value})
      else moved
    case CallUnlocks(id) =>
      var call := s.calls[id];
      Move(s, id, if call.Registered? then Returned(call.ch) else Closed(call.target)).(mutex := Free)
    case Cancelled(id) => Move(s, id, Remove(Some(s.calls[id].ch)))
  }

  // ---------- What every reachable state satisfies ----------

  /** The outputs that still get values. */
  function Open<T>(s: State<T>): set<nat> {
    if s.routine.Closing? then s.routine.todo else s.out
  }

  /** How far an open output has been served: the value being broadcast may still be pending for it. */
  function Served<T>(s: State<T>, ch: nat): int {
    if s.routine.Sending? && ch in s.routine.todo then Begun(s) - 1 else Begun(s)
  }

  predicate Opens(call: Call, ch: nat) {
    (call.Opening? || call.Inserting?) && call.ch == ch
  }

  /** An output has received exactly one contiguous run of the input. */
  ghost predicate Delivered<T>(s: State<T>, ch: nat)
    requires ch < |s.channels|
  {
    var c := s.channels[ch];
    match c.life
    case Made => !c.closed && c.sent == []
    case Live(joined) => !c.closed && joined <= Served(s, ch) <= |s.taken| && c.sent == s.taken[joined..Served(s, ch)]
    case Gone(joined, left) => c.closed && joined <= left <= Begun(s) && c.sent == s.taken[joined..left]
  }

  ghost predicate ChannelOk<T>(s: State<T>, ch: nat)
    requires ch < |s.channels|
  {
    && Delivered(s, ch)
    && (ch in Open(s) <==> s.channels[ch].life.Live?)
    && (s.channels[ch].life.Made? ==>
          s.mutex.ByCall? && s.mutex.id < |s.calls| && Opens(s.calls[s.mutex.id], ch))
  }

  /** What a call knows about the output it is about. */
  predicate Knows<T>(s: State<T>, call: Call) {
    match call
    case Register(_) => true
    case Registering(_) => true
    case Opening(ch, _) => ch < |s.channels| && s.channels[ch].life.Made? && !s.routine.Ended?
    case Inserting(ch) => ch < |s.channels| && s.channels[ch].life.Made? && !s.routine.Ended?
    case Registered(ch) => ch < |s.channels| && !s.channels[ch].life.Made?
    case Returned(ch) => ch < |s.channels| && !s.channels[ch].life.Made?
    case Watch(ch) => ch < |s.channels|
    case Remove(target) => target.Some? ==> target.value < |s.channels|
    case Removing(target) => target.Some? ==> target.value < |s.channels|
    case Removed(target) => target.Some? ==> IsGone(s, target.value)
    case Closed(target) => target.Some? ==> IsGone(s, target.value)
  }

  /** An output that is closed and no longer registered. */
  predicate IsGone<T>(s: State<T>, ch: nat) {
    ch < |s.channels| && s.channels[ch].closed && ch !in s.out
  }

  predicate CallOk<T>(s: State<T>, id: nat)
    requires id < |s.calls|
  {
    (Holds(s.calls[id]) <==> s.mutex == ByCall(id)) && Knows(s, s.calls[id])
  }

  ghost predicate RoutineOk<T>(s: State<T>) {
    && (s.mutex == ByRoutine <==> s.routine.Sending? || s.routine.Closing?)
    && (s.mutex.ByCall? ==> s.mutex.id < |s.calls|)
    && (s.inputGone <==> s.routine.Ended?)
    && (s.routine.Ended? ==> s.out == {})
    && (s.routine.Sending? ==> s.routine.todo <= s.out && |s.taken| > 0 && s.taken[|s.taken| - 1] == s.routine.value)
    && (s.routine.Closing? ==> s.routine.todo <= s.out)
    && (s.routine.Locking? ==> |s.taken| > 0 && s.taken[|s.taken| - 1] == s.routine.value)
    && (forall ch | ch in s.out :: ch < |s.channels|)
  }

  ghost predicate Inv<T>(s: State<T>) {
    && !s.crashed
    && RoutineOk(s)
    && (forall ch | 0 <= ch < |s.channels| :: ChannelOk(s, ch))
    && (forall id | 0 <= id < |s.calls| :: CallOk(s, id))
  }

  /** The call that takes a step that needs the mutex owns it. */
  predicate ByOwner<T>(s: State<T>, e: Event<T>) {
    match e
    case Make(id) => s.mutex == ByCall(id)
    case Spawn(id) => s.mutex == ByCall(id)
    case Insert(id) => s.mutex == ByCall(id)
    case Delete(id) => s.mutex == ByCall(id)
    case CallUnlocks(id) => s.mutex == ByCall(id)
    case Send(_) => s.mutex == ByRoutine
    case RoutineUnlocks => s.mutex == ByRoutine
    case CloseOne(_) => s.mutex == ByRoutine
    case RoutineEnds => s.mutex == ByRoutine
    case _ => true
  }

  lemma OwnerSteps<T>(s: State<T>, e: Event<T>)
    requires Inv(s) && Enabled(s, e)
    ensures ByOwner(s, e)
  {
    match e
    case Make(id) => assert CallOk(s, id);
    case Spawn(id) => assert CallOk(s, id);
    case Insert(id) => assert CallOk(s, id);
    case Delete(id) => assert CallOk(s, id);
    case CallUnlocks(id) => assert CallOk(s, id);
    case _ =>
  }

  lemma RoutineKept<T>(s: State<T>, e: Event<T>)
    requires Inv(s) && Enabled(s, e) && ByOwner(s, e)
    ensures RoutineOk(Apply(s, e)) && !Apply(s, e).crashed
  {
    match e
    case Send(ch) => assert ChannelOk(s, ch);
    case CloseOne(ch) => assert ChannelOk(s, ch);
    case Insert(id) => assert CallOk(s, id);
    case Delete(id) =>
      var target := s.calls[id].target;
      if target.Some? && target.value in s.out {
        assert ChannelOk(s, target.value);
      }
    case _ =>
  }

  lemma StepKeepsInv<T>(s: State<T>, e: Event<T>)
    requires Inv(s) && Enabled(s, e)
    ensures Inv(Apply(s, e))
  {
    OwnerSteps(s, e);
    RoutineKept(s, e);
    var t := Apply(s, e);
    forall ch | 0 <= ch < |t.channels| ensures ChannelOk(t, ch) {
      ChannelKept(s, e, ch);
    }
    forall id | 0 <= id < |t.calls| ensures CallOk(t, id) {
      CallKept(s, e, id);
    }
  }

  lemma ChannelKept<T>(s: State<T>, e: Event<T>, ch: nat)
    requires Inv(s) && Enabled(s, e) && ByOwner(s, e) && ch < |Apply(s, e).channels|
    ensures ChannelOk(Apply(s, e), ch)
  {
    if e.Make? {
      MakeKept(s, e, ch);
    } else if e.Receive? || e.InputClosed? || e.RoutineLocks? || e.RoutineUnlocks? || e.RoutineEnds? {
      RoutineStepKept(s, e, ch);
    } else if e.Send? {
      SendKept(s, e, ch);
    } else if e.CloseOne? {
      CloseOneKept(s, e, ch);
    } else if e.Insert? {
      InsertKept(s, e, ch);
    } else if e.Delete? {
      DeleteKept(s, e, ch);
    } else {
      CallStepKept(s, e, ch);
    }
  }

  lemma MakeKept<T>(s: State<T>, e: Event<T>, ch: nat)
    requires Inv(s) && Enabled(s, e) && ByOwner(s, e) && e.Make? && ch < |Apply(s, e).channels|
    ensures ChannelOk(Apply(s, e), ch)
  {
    assert CallOk(s, e.id);
    if ch < |s.channels| {
      assert ChannelOk(s, ch);
    }
  }

  lemma RoutineStepKept<T>(s: State<T>, e: Event<T>, ch: nat)
    requires Inv(s) && Enabled(s, e) && ByOwner(s, e) && ch < |s.channels|
    requires e.Receive? || e.InputClosed? || e.RoutineLocks? || e.RoutineUnlocks? || e.RoutineEnds?
    ensures ChannelOk(Apply(s, e), ch)
  {
    hide CallOk, Knows;
    assert ChannelOk(s, ch);
    var t := Apply(s, e);
    assert s.taken <= t.taken;
    if s.channels[ch].life.Live? {
      assert Served(t, ch) == Served(s, ch);
      SamePrefix(s.taken, t.taken, s.channels[ch].life.joined, Served(s, ch));
    } else if s.channels[ch].life.Gone? {
      SamePrefix(s.taken, t.taken, s.channels[ch].life.joined, s.channels[ch].life.left);
    }
  }

  lemma SamePrefix<T>(a: seq<T>, b: seq<T>, lo: int, hi: int)
    requires a <= b && 0 <= lo <= hi <= |a|
    ensures a[lo..hi] == b[lo..hi]
  {
    assert a == b[..|a|];
  }

  lemma SendKept<T>(s: State<T>, e: Event<T>, ch: nat)
    requires Inv(s) && Enabled(s, e) && ByOwner(s, e) && e.Send? && ch < |s.channels|
    ensures ChannelOk(Apply(s, e), ch)
  {
    hide CallOk, Knows;
    assert ChannelOk(s, ch);
    var t, n := Apply(s, e), Begun(s);
    assert Begun(t) == n && t.taken == s.taken;
    if ch == e.ch {
      var joined := s.channels[ch].life.joined;
      assert s.taken[joined..n] == s.taken[joined..n - 1] + [s.routine.value];
    } else {
      assert t.channels[ch] == s.channels[ch] && Served(t, ch) == Served(s, ch);
    }
  }

  lemma CloseOneKept<T>(s: State<T>, e: Event<T>, ch: nat)
    requires Inv(s) && Enabled(s, e) && ByOwner(s, e) && e.CloseOne? && ch < |s.channels|
    ensures ChannelOk(Apply(s, e), ch)
  {
    hide CallOk, Knows;
    assert ChannelOk(s, ch);
  }

  lemma InsertKept<T>(s: State<T>, e: Event<T>, ch: nat)
    requires Inv(s) && Enabled(s, e) && ByOwner(s, e) && e.Insert? && ch < |s.channels|
    ensures ChannelOk(Apply(s, e), ch)
  {
    assert ChannelOk(s, ch);
    assert CallOk(s, e.id);
    var t := Apply(s, e);
    var made := s.calls[e.id].ch;
    assert !s.routine.Closing? && !s.routine.Sending? && t.routine == s.routine;
    assert Open(s) == s.out && Open(t) == s.out + {made};
    assert t.taken == s.taken && Begun(t) == Begun(s);
    if ch == made {
      assert t.channels[ch] == Channel([], false, Live(Begun(s)));
      assert Served(t, ch) == Begun(s);
      assert t.taken[Begun(s)..Begun(s)] == [];
    } else {
      assert !Opens(s.calls[s.mutex.id], ch);
      assert t.channels[ch] == s.channels[ch] && !s.channels[ch].life.Made?;
      assert Served(t, ch) == Served(s, ch);
      assert Delivered(t, ch);
    }
  }

  lemma DeleteKept<T>(s: State<T>, e: Event<T>, ch: nat)
    requires Inv(s) && Enabled(s, e) && ByOwner(s, e) && e.Delete? && ch < |s.channels|
    ensures ChannelOk(Apply(s, e), ch)
  {
    assert ChannelOk(s, ch);
    assert CallOk(s, e.id);
  }

  lemma CallStepKept<T>(s: State<T>, e: Event<T>, ch: nat)
    requires Inv(s) && Enabled(s, e) && ByOwner(s, e) && ch < |s.channels|
    requires e.CallOutput? || e.CallClose? || e.CallLocks? || e.Spawn? || e.CallUnlocks? || e.Cancelled?
    ensures ChannelOk(Apply(s, e), ch)
  {
    assert ChannelOk(s, ch);
    if e.Spawn? || e.CallUnlocks? {
      assert CallOk(s, e.id);
    }
  }

  /** A closed output gets nothing more and is not closed again; an open one only gets more. */
  lemma ChannelsGrow<T>(s: State<T>, e: Event<T>, ch: nat)
    requires Inv(s) && Enabled(s, e) && ch < |s.channels|
    ensures
      var t := Apply(s, e);
      && ch < |t.channels|
      && (s.channels[ch].closed ==> t.channels[ch] == s.channels[ch])
      && (IsGone(s, ch) ==> IsGone(t, ch))
      && s.channels[ch].sent <= t.channels[ch].sent
      && (t.channels[ch].life.Made? ==> s.channels[ch].life.Made?)
      && (!s.channels[ch].life.Made? ==> t.channels[ch].life.joined == s.channels[ch].life.joined)
      && (s.channels[ch].life.Made? && !e.Insert? ==> t.channels[ch].life.Made?)
  {
    assert ChannelOk(s, ch);
    if e.Insert? || e.Delete? {
      assert CallOk(s, e.id);
    }
  }

  lemma KnowsStays<T>(s: State<T>, e: Event<T>, call: Call)
    requires Inv(s) && Enabled(s, e) && ByOwner(s, e) && Knows(s, call)
    requires call.Opening? || call.Inserting? ==> !e.Insert? && s.mutex.ByCall?
    ensures Knows(Apply(s, e), call)
  {
    match call
    case Register(_) =>
    case Registering(_) =>
    case Opening(ch, _) => ChannelsGrow(s, e, ch);
    case Inserting(ch) => ChannelsGrow(s, e, ch);
    case Registered(ch) => ChannelsGrow(s, e, ch);
    case Returned(ch) => ChannelsGrow(s, e, ch);
    case Watch(ch) => ChannelsGrow(s, e, ch);
    case Remove(target) => if target.Some? { ChannelsGrow(s, e, target.value); }
    case Removing(target) => if target.Some? { ChannelsGrow(s, e, target.value); }
    case Removed(target) => if target.Some? { ChannelsGrow(s, e, target.value); }
    case Closed(target) => if target.Some? { ChannelsGrow(s, e, target.value); }
  }

  /** The call that takes the step. */
  predicate Steps<T>(s: State<T>, e: Event<T>, id: nat) {
    match e
    case CallLocks(i) => i == id
    case Make(i) => i == id
    case Spawn(i) => i == id
    case Insert(i) => i == id
    case Delete(i) => i == id
    case CallUnlocks(i) => i == id
    case Cancelled(i) => i == id
    case _ => false
  }

  lemma CallKept<T>(s: State<T>, e: Event<T>, id: nat)
    requires Inv(s) && Enabled(s, e) && ByOwner(s, e) && id < |Apply(s, e).calls|
    ensures CallOk(Apply(s, e), id)
  {
    if id < |s.calls| {
      assert CallOk(s, id);
      if Steps(s, e, id) {
        StepperKept(s, e, id);
      } else {
        OthersKept(s, e, id);
      }
    } else {
      NewCallOk(s, e, id);
    }
  }

  lemma OthersKept<T>(s: State<T>, e: Event<T>, id: nat)
    requires Inv(s) && Enabled(s, e) && ByOwner(s, e) && id < |s.calls| && CallOk(s, id) && !Steps(s, e, id)
    ensures id < |Apply(s, e).calls| && CallOk(Apply(s, e), id)
  {
    assert Holds(s.calls[id]) ==> !e.Insert?;
    KnowsStays(s, e, s.calls[id]);
    hide Knows;
    assert Apply(s, e).calls[id] == s.calls[id];
  }

  lemma StepperKept<T>(s: State<T>, e: Event<T>, id: nat)
    requires Inv(s) && Enabled(s, e) && ByOwner(s, e) && id < |s.calls| && CallOk(s, id) && Steps(s, e, id)
    ensures id < |Apply(s, e).calls| && CallOk(Apply(s, e), id)
  {
    if e.Delete? && s.calls[id].target.Some? {
      assert ChannelOk(s, s.calls[id].target.value);
    }
  }

  lemma NewCallOk<T>(s: State<T>, e: Event<T>, id: nat)
    requires Inv(s) && Enabled(s, e) && ByOwner(s, e) && |s.calls| <= id < |Apply(s, e).calls|
    ensures CallOk(Apply(s, e), id)
  {
    if e.Spawn? {
      assert CallOk(s, e.id);
    } else if e.CallClose? && e.target.Some? {
      var i :| 0 <= i < |s.calls| && s.calls[i] == Returned(e.target.value);
      assert CallOk(s, i);
    }
  }

  // ---------- Whole runs ----------

  predicate Allowed<T>(s: State<T>, events: seq<Event<T>>)
    decreases |events|
  {
    events == [] || (Enabled(s, events[0]) && Allowed(Apply(s, events[0]), events[1..]))
  }

  function After<T>(s: State<T>, events: seq<Event<T>>): State<T>
    requires Allowed(s, events)
    decreases |events|
  {
    if events == [] then s else After(Apply(s, events[0]), events[1..])
  }

  ghost predicate Reachable<T(!new)>(s: State<T>) {
    exists events :: Allowed(Start(), events) && After(Start(), events) == s
  }

  lemma {:induction false} RunKeepsInv<T>(s: State<T>, events: seq<Event<T>>)
    requires Inv(s) && Allowed(s, events)
    ensures Inv(After(s, events))
    decreases |events|
  {
    if events != [] {
      StepKeepsInv(s, events[0]);
      RunKeepsInv(Apply(s, events[0]), events[1..]);
    }
  }

  /** In no run is a channel closed twice or sent to once closed, and every output has one contiguous run. */
  lemma RunIsSafe<T(!new)>(s: State<T>)
    requires Reachable(s)
    ensures !s.crashed && Inv(s)
    ensures forall ch | 0 <= ch < |s.channels| :: Delivered(s, ch)
  {
    var events :| Allowed(Start(), events) && After(Start(), events) == s;
    RunKeepsInv(Start(), events);
    forall ch | 0 <= ch < |s.channels| ensures Delivered(s, ch) {
      assert ChannelOk(s, ch);
    }
  }

  lemma {:induction false} RunAppend<T>(s: State<T>, a: seq<Event<T>>, b: seq<Event<T>>)
    ensures Allowed(s, a + b) <==> Allowed(s, a) && Allowed(After(s, a), b)
    ensures Allowed(s, a + b) ==> After(s, a + b) == After(After(s, a), b)
    decreases |a|
  {
    if a == [] {
      assert a + b == b;
    } else {
      assert (a + b)[1..] == a[1..] + b;
      if Enabled(s, a[0]) {
        RunAppend(Apply(s, a[0]), a[1..], b);
      }
    }
  }

  /** Values are only ever added at the end of the input that was read, and a closed output is final. */
  lemma {:induction false} RunGrows<T>(s: State<T>, events: seq<Event<T>>, ch: nat)
    requires Inv(s) && Allowed(s, events) && ch < |s.channels|
    ensures
      var t := After(s, events);
      && ch < |t.channels|
      && s.taken <= t.taken
      && s.channels[ch].sent <= t.channels[ch].sent
      && (s.channels[ch].closed ==> t.channels[ch] == s.channels[ch])
      && (!s.channels[ch].life.Made? ==>
            !t.channels[ch].life.Made? && t.channels[ch].life.joined == s.channels[ch].life.joined)
    decreases |events|
  {
    if events != [] {
      ChannelsGrow(s, events[0], ch);
      StepKeepsInv(s, events[0]);
      RunGrows(Apply(s, events[0]), events[1..], ch);
      hide Inv, Enabled;
    }
  }

  lemma ReachableStep<T(!new)>(s: State<T>, e: Event<T>)
    requires Reachable(s) && Enabled(s, e)
    ensures Reachable(Apply(s, e)) && Inv(Apply(s, e))
  {
    var events :| Allowed(Start(), events) && After(Start(), events) == s;
    RunAppend(Start(), events, [e]);
    assert Allowed(s, [e]) && After(s, [e]) == Apply(s, e) by {
      assert [e][1..] == [];
    }
    assert Reachable(Apply(s, e)) by {
      assert Allowed(Start(), events + [e]) && After(Start(), events + [e]) == Apply(s, e);
    }
    RunIsSafe(Apply(s, e));
  }

  /** Where an output stops: with what it had by then, and no value whose broadcast begins later. */
  lemma Removal<T>(s: State<T>, e: Event<T>, ch: nat)
    requires Inv(s) && Enabled(s, e) && ch < |s.channels|
    requires s.channels[ch].life.Live?
    ensures ch < |Apply(s, e).channels|
    ensures
      var c := Apply(s, e).channels[ch];
      !c.life.Live? ==>
        c.closed && c.life == Gone(s.channels[ch].life.joined, Begun(s)) && c.sent == s.channels[ch].sent
  {
    assert ChannelOk(s, ch);
    OwnerSteps(s, e);
    if e.Insert? || e.Delete? || e.Make? {
      assert CallOk(s, e.id);
    }
  }

  lemma RunFromJoin<T>(s: State<T>, ch: nat, middle: seq<Event<T>>, removal: Event<T>, after: seq<Event<T>>)
    requires Inv(s) && ch < |s.channels| && s.channels[ch].life.Live?
    requires
      && Allowed(s, middle)
      && var last := After(s, middle);
      && Enabled(last, removal)
      && var gone := Apply(last, removal);
      && Allowed(gone, after)
      && ch < |last.channels| && last.channels[ch].life.Live?
      && ch < |gone.channels| && !gone.channels[ch].life.Live?
    ensures
      var last := After(s, middle);
      var end := After(Apply(last, removal), after);
      var joined := s.channels[ch].life.joined;
      && ch < |end.channels|
      && end.channels[ch].closed
      && joined <= Begun(last) <= |end.taken|
      && end.channels[ch].sent == end.taken[joined..Begun(last)]
  {
    var last := After(s, middle);
    RunKeepsInv(s, middle);
    RunGrows(s, middle, ch);
    var gone := Apply(last, removal);
    StepKeepsInv(last, removal);
    Removal(last, removal, ch);
    RunGrows(gone, after, ch);
    assert ChannelOk(gone, ch);
    hide Inv, Enabled, ChannelOk;
  }

  /**
   An output that one step registers and a later step removes ends up closed, whatever happens after that, with
   exactly the values whose broadcast began between the two.
   */
  lemma OneContiguousRun<T(!new)>(
    first: State<T>, id: nat, middle: seq<Event<T>>, removal: Event<T>, after: seq<Event<T>>)
    requires Reachable(first) && Enabled(first, Insert(id))
    requires
      var second := Apply(first, Insert(id));
      && Allowed(second, middle)
      && var last := After(second, middle);
      && Enabled(last, removal)
      && var gone := Apply(last, removal);
      && Allowed(gone, after)
      && var ch := first.calls[id].ch;
      && ch < |last.channels| && last.channels[ch].life.Live?
      && ch < |gone.channels| && !gone.channels[ch].life.Live?
    ensures
      var ch := first.calls[id].ch;
      var last := After(Apply(first, Insert(id)), middle);
      var end := After(Apply(last, removal), after);
      && ch < |end.channels|
      && end.channels[ch].closed
      && Begun(first) <= Begun(last) <= |end.taken|
      && end.channels[ch].sent == end.taken[Begun(first)..Begun(last)]
  {
    RunIsSafe(first);
    var ch := first.calls[id].ch;
    var second := Apply(first, Insert(id));
    StepKeepsInv(first, Insert(id));
    assert second.channels[ch].life == Live(Begun(first));
    RunFromJoin(second, ch, middle, removal, after);
  }

  /** An output that is still registered has what was broadcast since, but for a value still on its way to it. */
  lemma StillOpen<T(!new)>(first: State<T>, id: nat, middle: seq<Event<T>>)
    requires Reachable(first) && Enabled(first, Insert(id))
    requires
      var second := Apply(first, Insert(id));
      && Allowed(second, middle)
      && var last := After(second, middle);
      && var ch := first.calls[id].ch;
      && ch < |last.channels| && last.channels[ch].life.Live?
    ensures
      var ch := first.calls[id].ch;
      var last := After(Apply(first, Insert(id)), middle);
      && !last.channels[ch].closed
      && Begun(first) <= Served(last, ch) <= |last.taken|
      && last.channels[ch].sent == last.taken[Begun(first)..Served(last, ch)]
  {
    RunIsSafe(first);
    var ch := first.calls[id].ch;
    var second := Apply(first, Insert(id));
    StepKeepsInv(first, Insert(id));
    RunKeepsInv(second, middle);
    RunGrows(second, middle, ch);
    assert ChannelOk(After(second, middle), ch);
    assert second.channels[ch].life == Live(Begun(first));
  }

  /** Once a call of `Close` returns, or the goroutine watching a context is done, the output is closed for good. */
  lemma CloseIsFinal<T(!new)>(s: State<T>, id: nat, later: seq<Event<T>>)
    requires Reachable(s) && id < |s.calls| && s.calls[id].Closed? && s.calls[id].target.Some?
    requires Allowed(s, later)
    ensures
      var ch := s.calls[id].target.value;
      && ch < |s.channels| && s.channels[ch].closed
      && ch < |After(s, later).channels| && After(s, later).channels[ch] == s.channels[ch]
  {
    RunIsSafe(s);
    assert CallOk(s, id);
    RunGrows(s, later, s.calls[id].target.value);
  }

  // ---------- A cancelled context closes its output ----------

  /** The goroutine that watches the context of an output, in each of its places. */
  predicate Watches(call: Call, ch: nat) {
    || call == Watch(ch)
    || call == Remove(Some(ch))
    || call == Removing(Some(ch))
    || call == Removed(Some(ch))
    || call == Closed(Some(ch))
  }

  /** It goes on to close that output and no other. */
  lemma WatcherSteps<T>(s: State<T>, e: Event<T>, id: nat, ch: nat)
    requires Enabled(s, e) && id < |s.calls| && Watches(s.calls[id], ch)
    ensures id < |Apply(s, e).calls| && Watches(Apply(s, e).calls[id], ch)
  {
    var t := Apply(s, e);
    if Steps(s, e, id) {
      assert e.Cancelled? || e.CallLocks? || e.Delete? || e.CallUnlocks?;
    } else {
      hide Watches;
      assert t.calls[id] == s.calls[id];
    }
  }

  lemma {:induction false} WatcherRuns<T>(s: State<T>, events: seq<Event<T>>, id: nat, ch: nat)
    requires Allowed(s, events) && id < |s.calls| && Watches(s.calls[id], ch)
    ensures id < |After(s, events).calls| && Watches(After(s, events).calls[id], ch)
    decreases |events|
  {
    if events != [] {
      WatcherSteps(s, events[0], id, ch);
      WatcherRuns(Apply(s, events[0]), events[1..], id, ch);
    }
  }

  /**
   In every run from a state in which a goroutine watches the context of an output: if the goroutine has finished in
   the end, this output is closed and no longer registered, and nothing later changes it.
   */
  lemma WatcherCloses<T(!new)>(s: State<T>, events: seq<Event<T>>, later: seq<Event<T>>, id: nat, ch: nat)
    requires Reachable(s) && id < |s.calls| && s.calls[id] == Watch(ch)
    requires Allowed(s, events) && Allowed(After(s, events), later)
    requires id < |After(s, events).calls| && After(s, events).calls[id].Closed?
    ensures
      var t, u := After(s, events), After(After(s, events), later);
      && ch < |t.channels| && t.channels[ch].closed && ch !in t.out
      && ch < |u.channels| && u.channels[ch] == t.channels[ch] && ch !in u.out
  {
    RunIsSafe(s);
    RunKeepsInv(s, events);
    WatcherRuns(s, events, id, ch);
    var t := After(s, events);
    assert CallOk(t, id);
    RunGrows(t, later, ch);
    GoneStays(t, later, ch);
  }

  lemma {:induction false} GoneStays<T>(s: State<T>, events: seq<Event<T>>, ch: nat)
    requires Inv(s) && Allowed(s, events) && IsGone(s, ch)
    ensures IsGone(After(s, events), ch)
    decreases |events|
  {
    if events != [] {
      ChannelsGrow(s, events[0], ch);
      StepKeepsInv(s, events[0]);
      GoneStays(Apply(s, events[0]), events[1..], ch);
    }
  }

  /** Once the context is cancelled and the mutex is free, the goroutine's own next steps close the output. */
  lemma CancelledCloses<T(!new)>(s: State<T>, id: nat, ch: nat)
    requires Reachable(s) && s.mutex == Free && id < |s.calls| && s.calls[id] == Watch(ch)
    ensures Allowed(s, [Cancelled(id), CallLocks(id), Delete(id), CallUnlocks(id)])
    ensures
      var t := After(s, [Cancelled(id), CallLocks(id), Delete(id), CallUnlocks(id)]);
      && t.mutex == Free && id < |t.calls| && t.calls[id] == Closed(Some(ch))
      && ch < |t.channels| && t.channels[ch].closed && ch !in t.out
  {
    hide Inv, Reachable, Enabled, Apply;
    var s1, s2, s3 := LocksToDelete(s, id, ch);
    var s4 := DeletesAndUnlocks(s3, id, ch);
    var c3: seq<Event<T>> := [CallUnlocks(id)];
    var c2: seq<Event<T>> := [Delete(id), CallUnlocks(id)];
    var c1: seq<Event<T>> := [CallLocks(id), Delete(id), CallUnlocks(id)];
    var c0: seq<Event<T>> := [Cancelled(id), CallLocks(id), Delete(id), CallUnlocks(id)];
    assert c3[1..] == [] && c2[1..] == c3 && c1[1..] == c2 && c0[1..] == c1;
    assert Allowed(s3, c3) && After(s3, c3) == s4;
    assert Allowed(s2, c2) && After(s2, c2) == s4;
    assert Allowed(s1, c1) && After(s1, c1) == s4;
  }

  lemma LocksToDelete<T(!new)>(s: State<T>, id: nat, ch: nat) returns (s1: State<T>, s2: State<T>, s3: State<T>)
    requires Reachable(s) && s.mutex == Free && id < |s.calls| && s.calls[id] == Watch(ch)
    ensures Enabled(s, Cancelled(id)) && s1 == Apply(s, Cancelled(id))
    ensures Enabled(s1, CallLocks(id)) && s2 == Apply(s1, CallLocks(id))
    ensures Enabled(s2, Delete(id)) && s3 == Apply(s2, Delete(id))
    ensures Reachable(s3) && id < |s3.calls| && s3.calls[id] == Removed(Some(ch))
  {
    hide Inv, Reachable;
    ReachableStep(s, Cancelled(id));
    s1 := Apply(s, Cancelled(id));
    assert id < |s1.calls| && s1.calls[id] == Remove(Some(ch));
    ReachableStep(s1, CallLocks(id));
    s2 := Apply(s1, CallLocks(id));
    assert id < |s2.calls| && s2.calls[id] == Removing(Some(ch));
    NotCrashed(s2);
    ReachableStep(s2, Delete(id));
    s3 := Apply(s2, Delete(id));
  }

  lemma NotCrashed<T(!new)>(s: State<T>)
    requires Reachable(s)
    ensures !s.crashed
    ensures forall ch | ch in s.out :: ch < |s.channels|
  {
    RunIsSafe(s);
  }

  lemma DeletesAndUnlocks<T(!new)>(s3: State<T>, id: nat, ch: nat) returns (s4: State<T>)
    requires Reachable(s3) && id < |s3.calls| && s3.calls[id] == Removed(Some(ch))
    ensures Enabled(s3, CallUnlocks(id)) && s4 == Apply(s3, CallUnlocks(id))
    ensures s4.mutex == Free && id < |s4.calls| && s4.calls[id] == Closed(Some(ch)) && IsGone(s4, ch)
  {
    RunIsSafe(s3);
    assert CallOk(s3, id);
    hide Inv, Reachable;
    s4 := Apply(s3, CallUnlocks(id));
  }

  /** Every output opened with a context gets such a goroutine before it is registered. */
  lemma BoundedIsWatched<T>(s: State<T>, e: Event<T>, id: nat)
    requires Enabled(s, e) && id < |s.calls| && s.calls[id].Opening? && id < |Apply(s, e).calls|
    requires Apply(s, e).calls[id] != s.calls[id]
    ensures Apply(s, e).calls[id] == Inserting(s.calls[id].ch)
    ensures s.calls[id].bounded ==> Watch(s.calls[id].ch) in Apply(s, e).calls
  {
    assert e == Spawn(id);
  }

  // ---------- What the input was ----------

  /** The values that were received from the input channel. */
  function Received<T>(events: seq<Event<T>>): seq<T> {
    if events == [] then []
    else (if events[0].Receive? then [events[0].value] else []) + Received(events[1..])
  }

  /** The input is what was received, nothing less and nothing more. */
  lemma {:induction false} TakenIsReceived<T>(s: State<T>, events: seq<Event<T>>)
    requires Allowed(s, events)
    ensures After(s, events).taken == s.taken + Received(events)
    decreases |events|
  {
    if events != [] {
      TakesOne(s, events[0]);
      hide Enabled, Apply;
      TakenIsReceived(Apply(s, events[0]), events[1..]);
    }
  }

  lemma TakesOne<T>(s: State<T>, e: Event<T>)
    requires Enabled(s, e)
    ensures Apply(s, e).taken == s.taken + if e.Receive? then [e.value] else []
  {
  }

  /** When the broadcasting goroutine is done, every output it did not find removed is closed too. */
  lemma EndClosesAll<T(!new)>(s: State<T>)
    requires Reachable(s) && s.routine.Ended?
    ensures forall ch | 0 <= ch < |s.channels| && !s.channels[ch].closed :: s.mutex.ByCall? && s.channels[ch].life.Made?
  {
    RunIsSafe(s);
    forall ch | 0 <= ch < |s.channels| && !s.channels[ch].closed
      ensures s.mutex.ByCall? && s.channels[ch].life.Made?
    {
      assert ChannelOk(s, ch);
    }
  }

  // ---------- The mutex is always released ----------

  function CallWork(call: Call): nat {
    match call
    case Registering(_) => 4
    case Opening(_, _) => 3
    case Inserting(_) => 2
    case Registered(_) => 1
    case Removing(_) => 2
    case Removed(_) => 1
    case _ => 0
  }

  /** How many steps the owner of the mutex needs at most until it unlocks it. */
  function Work<T>(s: State<T>): nat {
    match s.mutex
    case Free => 0
    case ByRoutine =>
      if s.routine.Sending? || s.routine.Closing? then |s.routine.todo| + 1 else 0
    case ByCall(id) => if id < |s.calls| then CallWork(s.calls[id]) else 0
  }

  /** The owner of the mutex always has a next step, given that consumers receive, and it brings the release closer. */
  lemma OwnerAdvances<T(!new)>(s: State<T>) returns (e: Event<T>)
    requires Reachable(s) && s.mutex != Free
    ensures Enabled(s, e)
    ensures Work(Apply(s, e)) < Work(s)
    ensures Apply(s, e).mutex == s.mutex || Apply(s, e).mutex == Free
  {
    RunIsSafe(s);
    if s.mutex.ByCall? {
      e := CallAdvances(s);
    } else {
      e := RoutineAdvances(s);
    }
  }

  lemma CallAdvances<T>(s: State<T>) returns (e: Event<T>)
    requires Inv(s) && s.mutex.ByCall?
    ensures Enabled(s, e)
    ensures Work(Apply(s, e)) < Work(s)
    ensures Apply(s, e).mutex == s.mutex || Apply(s, e).mutex == Free
  {
    var id := s.mutex.id;
    assert CallOk(s, id);
    match s.calls[id]
    case Registering(_) => e := Make(id);
    case Opening(_, _) => e := Spawn(id);
    case Inserting(_) => e := Insert(id);
    case Removing(_) => e := Delete(id);
    case _ => e := CallUnlocks(id);
  }

  lemma RoutineAdvances<T>(s: State<T>) returns (e: Event<T>)
    requires Inv(s) && s.mutex.ByRoutine?
    ensures Enabled(s, e)
    ensures Work(Apply(s, e)) < Work(s)
    ensures Apply(s, e).mutex == s.mutex || Apply(s, e).mutex == Free
  {
    if s.routine.todo == {} {
      e := if s.routine.Sending? then RoutineUnlocks else RoutineEnds;
    } else {
      var ch :| ch in s.routine.todo;
      assert ch in s.out;
      e := if s.routine.Sending? then Send(ch) else CloseOne(ch);
    }
  }

  /** A step that is not the awaited send leaves the goroutine waiting, and lets no other call finish. */
  lemma StalledStep<T>(s: State<T>, e: Event<T>, ch: nat, id: nat)
    requires Inv(s) && Enabled(s, e) && e != Send(ch)
    requires s.routine.Sending? && ch in s.routine.todo && id < |s.calls| && !s.calls[id].Closed?
    ensures
      var t := Apply(s, e);
      && t.mutex == ByRoutine && t.routine.Sending? && ch in t.routine.todo
      && id < |t.calls| && !t.calls[id].Closed?
  {
    OwnerSteps(s, e);
  }

  /**
   When the consumer of an output stops receiving while a value is broadcast, the mutex is never released again:
   no pending call of `Close` returns and no cancelled context closes its output, whatever else happens.
   */
  lemma {:induction false} StalledConsumer<T>(s: State<T>, events: seq<Event<T>>, ch: nat, id: nat)
    requires Inv(s) && Allowed(s, events) && Send(ch) !in events
    requires s.routine.Sending? && ch in s.routine.todo && id < |s.calls| && !s.calls[id].Closed?
    ensures
      var t := After(s, events);
      && t.mutex == ByRoutine && t.routine.Sending? && ch in t.routine.todo
      && id < |t.calls| && !t.calls[id].Closed?
    decreases |events|
  {
    if events != [] {
      StalledStep(s, events[0], ch, id);
      StepKeepsInv(s, events[0]);
      StalledConsumer(Apply(s, events[0]), events[1..], ch, id);
    }
  }
}
