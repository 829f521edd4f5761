/**
  The replication loop's state machine.  The loop keeps a liveness timeout and the time
  of the last heartbeat seen; each input (a gossip message, or a periodic tick) moves it
  to a new state and asks for one effect: apply a peer's write to the store, publish a
  heartbeat, terminate, or nothing.

  `Step` is the decision for one input.  `Replay` folds it over a finite sequence of
  inputs into a `Trace` (final state, the time of termination if any, the heartbeats
  published and the namespaces written), which is what the driving loop in
  `DirectoryService` is proved to follow.
 */
module Replication {
  import opened Wrappers
  import opened Formatting
  import opened Signature

  const Minute: int := 60 * Second
  /** The first timeout is longer: a fresh node may need time to find its peers. */
  const StartupTimeout: int := 15 * Minute
  /** The timeout once a heartbeat has been seen. */
  const HeartbeatTimeout: int := 3 * Minute
  /** A payload with this name is a heartbeat, whatever the message context. */
  const HeartbeatName: string := "p2p.heartbeat"
  const AddContext: string := "Directory.Add"
  const RemoveContext: string := "Directory.Remove"

  /** A message published on the gossip room. */
  datatype Event = Event(context: string, payload: DirectoryEntry)

  datatype LoopState = LoopState(timeoutDelay: int, lastHeartbeat: int)

  /** The timeout is always one of the two configured values. */
  predicate ValidTimeout(s: LoopState)
  {
    s.timeoutDelay == StartupTimeout || s.timeoutDelay == HeartbeatTimeout
  }

  /**
    One input of the loop: a gossip message whose payload did or did not parse (with the
    time it arrived), or a tick of the periodic timer.
   */
  datatype Input =
    | Message(context: string, payload: Option<DirectoryEntry>, now: int)
    | Tick(now: int)

  datatype Effect =
    | NoEffect
    | StoreAdd(entry: DirectoryEntry)
    | StoreRemove(entry: DirectoryEntry)
    | PublishHeartbeat(event: Event)
    | Terminate

  predicate IsHeartbeat(p: DirectoryEntry)
  {
    p.name == HeartbeatName
  }

  /** A parsed heartbeat message. */
  predicate HeartbeatInput(input: Input)
  {
    input.Message? && input.payload.Some? && IsHeartbeat(input.payload.value)
  }

  /** A parsed, non-heartbeat message: the only inputs that write to the store. */
  predicate WriteInput(input: Input, context: string)
  {
    input.Message? && input.context == context && input.payload.Some? && !IsHeartbeat(input.payload.value)
  }

  /**
    Starting the loop needs a bootstrap address, a room, a store and a gossip session;
    the loop then starts with the long timeout and the start time as last heartbeat.
   */
  function Start(bootstrap: string, room: string, hasStore: bool, hasP2P: bool, now: int): (r: Option<LoopState>)
    ensures r.Some? <==> |bootstrap| > 0 && |room| > 0 && hasStore && hasP2P
    ensures r.Some? ==> ValidTimeout(r.value)
    ensures r.Some? ==> r.value.timeoutDelay == StartupTimeout && r.value.lastHeartbeat == now
  {
    if |bootstrap| == 0 then None
    else if |room| == 0 then None
    else if !hasStore then None
    else if !hasP2P then None
    else Some(LoopState(StartupTimeout, now))
  }

  /** The heartbeat a node publishes on a tick: its Unix time in whole seconds, short mode. */
  function HeartbeatEvent(now: int): (e: Event)
    ensures e.context == AddContext && IsHeartbeat(e.payload) && e.payload.mode == "short"
    ensures ParseInt(e.payload.entry) == Some(now / Second)
  {
    ParseIntToString(now / Second);
    Event(AddContext, DirectoryEntry(HeartbeatName, IntToString(now / Second), "short", "", "", "", 0))
  }

  /** One iteration of the loop body. */
  function Step(s: LoopState, input: Input): (r: (LoopState, Effect))
    // the timeout only ever shrinks, and stays one of the two values
    ensures ValidTimeout(s) ==> ValidTimeout(r.0) && r.0.timeoutDelay <= s.timeoutDelay
    // only a heartbeat changes the state, and it does nothing else
    ensures r.0 != s ==> HeartbeatInput(input)
    ensures HeartbeatInput(input) ==> r == (LoopState(HeartbeatTimeout, input.now), NoEffect)
    // a store write happens exactly for a parsed peer write of the matching context
    ensures r.1.StoreAdd? <==> WriteInput(input, AddContext)
    ensures r.1.StoreRemove? <==> WriteInput(input, RemoveContext)
    ensures r.1.StoreAdd? || r.1.StoreRemove? ==> r.1.entry == input.payload.value
    // a tick terminates exactly after too long a silence, and publishes a heartbeat otherwise
    ensures r.1 == Terminate <==> input.Tick? && input.now - s.lastHeartbeat > s.timeoutDelay
    ensures r.1.PublishHeartbeat? <==> input.Tick? && input.now - s.lastHeartbeat <= s.timeoutDelay
    ensures r.1.PublishHeartbeat? ==> r.1.event == HeartbeatEvent(input.now)
  {
    match input
    case Message(context, payload, now) =>
      if payload.None? then (s, NoEffect)
      else if IsHeartbeat(payload.value) then (LoopState(HeartbeatTimeout, now), NoEffect)
      else if context == AddContext then (s, StoreAdd(payload.value))
      else if context == RemoveContext then (s, StoreRemove(payload.value))
      else (s, NoEffect)
    case Tick(now) =>
      if now - s.lastHeartbeat > s.timeoutDelay then (s, Terminate)
      else (s, PublishHeartbeat(HeartbeatEvent(now)))
  }

  /**
    What a run has done so far: the loop state, the time it terminated (if it did), the
    heartbeats it published and the namespaces that peer writes addressed.
   */
  datatype Trace = Trace(state: LoopState, stoppedAt: Option<int>, published: seq<Event>, touched: set<string>)

  /**
    Extends a trace by one input; nothing happens once the loop has terminated.  Each
    input adds at most one published message, a heartbeat for the input's time, and at
    most one written namespace, the one its payload names; the loop terminates only on a
    tick, at the tick's time.
   */
  function Apply(t: Trace, input: Input): (r: Trace)
    ensures t.stoppedAt.Some? ==> r == t
    ensures r.published == t.published || r.published == t.published + [HeartbeatEvent(input.now)]
    ensures r.touched == t.touched || (input.Message? && input.payload.Some? && r.touched == t.touched + {input.payload.value.name})
    ensures t.stoppedAt.None? ==> r.touched == t.touched + WrittenBy(input)
    ensures t.stoppedAt.None? && r.stoppedAt.Some? ==> input.Tick? && r.stoppedAt == Some(input.now)
  {
    if t.stoppedAt.Some? then t
    else
      var (s', effect) := Step(t.state, input);
      match effect
      case NoEffect => t.(state := s')
      case StoreAdd(p) => t.(state := s', touched := t.touched + {p.name})
      case StoreRemove(p) => t.(state := s', touched := t.touched + {p.name})
      case PublishHeartbeat(e) => t.(state := s', published := t.published + [e])
      case Terminate => t.(state := s', stoppedAt := Some(input.now))
  }

  /** The namespace a parsed peer write addresses; none for any other input. */
  function WrittenBy(input: Input): set<string>
  {
    if WriteInput(input, AddContext) || WriteInput(input, RemoveContext) then {input.payload.value.name} else {}
  }

  /** The namespaces that the peer writes among `inputs` address. */
  function WrittenNames(inputs: seq<Input>): set<string>
  {
    set j | 0 <= j < |inputs| && (WriteInput(inputs[j], AddContext) || WriteInput(inputs[j], RemoveContext))
      :: inputs[j].payload.value.name
  }

  lemma WrittenNamesExtend(inputs: seq<Input>)
    requires |inputs| > 0
    ensures WrittenNames(inputs[..|inputs| - 1]) <= WrittenNames(inputs)
    ensures var last := inputs[|inputs| - 1];
      WriteInput(last, AddContext) || WriteInput(last, RemoveContext) ==>
        last.payload.value.name in WrittenNames(inputs)
  {
    var init := inputs[..|inputs| - 1];
    forall k | k in WrittenNames(init)
      ensures k in WrittenNames(inputs)
    {
      var j :| 0 <= j < |init| && (WriteInput(init[j], AddContext) || WriteInput(init[j], RemoveContext))
        && init[j].payload.value.name == k;
      assert inputs[j] == init[j];
    }
  }

  /** The trace of running the loop from `s` over `inputs`: at most one message published per input. */
  function Replay(s: LoopState, inputs: seq<Input>): (r: Trace)
    ensures |r.published| <= |inputs|
    decreases |inputs|
  {
    if |inputs| == 0 then Trace(s, None, [], {})
    else Apply(Replay(s, inputs[..|inputs| - 1]), inputs[|inputs| - 1])
  }

  /** Only the namespaces that peer writes address are ever written. */
  lemma {:induction false} TouchesOnlyWrittenNames(s: LoopState, inputs: seq<Input>)
    ensures Replay(s, inputs).touched <= WrittenNames(inputs)
    decreases |inputs|
  {
    if |inputs| > 0 {
      TouchesOnlyWrittenNames(s, inputs[..|inputs| - 1]);
      WrittenNamesExtend(inputs);
    }
  }

  lemma ReplayExtend(s: LoopState, inputs: seq<Input>, i: nat)
    requires i < |inputs|
    ensures Replay(s, inputs[..i + 1]) == Apply(Replay(s, inputs[..i]), inputs[i])
  {
    assert inputs[..i + 1][..i] == inputs[..i];
  }

  /** After termination, later inputs change nothing. */
  lemma {:induction false} StoppedStaysStopped(s: LoopState, inputs: seq<Input>, i: nat)
    requires i <= |inputs|
    requires Replay(s, inputs[..i]).stoppedAt.Some?
    ensures Replay(s, inputs) == Replay(s, inputs[..i])
    decreases |inputs|
  {
    if i == |inputs| {
      assert inputs[..i] == inputs;
    } else {
      var init := inputs[..|inputs| - 1];
      assert init[..i] == inputs[..i];
      StoppedStaysStopped(s, init, i);
    }
  }

  /** The timeout stays one of the two values and never grows. */
  lemma {:induction false} TimeoutNeverGrows(s: LoopState, inputs: seq<Input>)
    requires ValidTimeout(s)
    ensures ValidTimeout(Replay(s, inputs).state)
    ensures Replay(s, inputs).state.timeoutDelay <= s.timeoutDelay
    decreases |inputs|
  {
    if |inputs| > 0 {
      TimeoutNeverGrows(s, inputs[..|inputs| - 1]);
    }
  }

  /** Once a heartbeat has been processed, the timeout is the short one for good. */
  lemma {:induction false} HeartbeatShortensForGood(s: LoopState, inputs: seq<Input>, i: nat)
    requires ValidTimeout(s)
    requires i < |inputs| && HeartbeatInput(inputs[i])
    requires Replay(s, inputs[..i]).stoppedAt.None?
    ensures Replay(s, inputs).state.timeoutDelay == HeartbeatTimeout
    decreases |inputs|
  {
    if |inputs| == i + 1 {
      assert inputs[..i + 1] == inputs;
      ReplayExtend(s, inputs, i);
    } else {
      var init := inputs[..|inputs| - 1];
      assert init[..i] == inputs[..i];
      HeartbeatShortensForGood(s, init, i);
      TimeoutNeverGrows(s, init);
    }
  }

  /**
    The loop terminates only on a tick that comes more than the current timeout after
    the last heartbeat, hence only after more than three minutes without one.
   */
  lemma {:induction false} StopsOnlyAfterSilence(s: LoopState, inputs: seq<Input>)
    requires ValidTimeout(s)
    ensures var t := Replay(s, inputs);
      t.stoppedAt.Some? ==>
        t.stoppedAt.value - t.state.lastHeartbeat > t.state.timeoutDelay >= HeartbeatTimeout
    decreases |inputs|
  {
    if |inputs| > 0 {
      StopsOnlyAfterSilence(s, inputs[..|inputs| - 1]);
      TimeoutNeverGrows(s, inputs[..|inputs| - 1]);
    }
  }

  /** A tick after too long a silence terminates the loop at that tick. */
  lemma SilenceStops(s: LoopState, inputs: seq<Input>, i: nat)
    requires i < |inputs| && inputs[i].Tick?
    requires Replay(s, inputs[..i]).stoppedAt.None?
    requires inputs[i].now - Replay(s, inputs[..i]).state.lastHeartbeat
           > Replay(s, inputs[..i]).state.timeoutDelay
    ensures Replay(s, inputs).stoppedAt == Some(inputs[i].now)
  {
    ReplayExtend(s, inputs, i);
    StoppedStaysStopped(s, inputs, i + 1);
  }

  /** Heartbeats never write to the store: their namespace is never touched. */
  lemma {:induction false} HeartbeatsNeverTouchStore(s: LoopState, inputs: seq<Input>)
    ensures HeartbeatName !in Replay(s, inputs).touched
    decreases |inputs|
  {
    if |inputs| > 0 {
      HeartbeatsNeverTouchStore(s, inputs[..|inputs| - 1]);
    }
  }

  /** Every message in `p` is a short-mode heartbeat under the Add context. */
  predicate OnlyHeartbeats(p: seq<Event>)
  {
    forall k :: 0 <= k < |p| ==>
      p[k].context == AddContext && IsHeartbeat(p[k].payload) && p[k].payload.mode == "short"
  }

  /** The loop itself publishes nothing but heartbeats. */
  lemma {:induction false} PublishesOnlyHeartbeats(s: LoopState, inputs: seq<Input>)
    ensures OnlyHeartbeats(Replay(s, inputs).published)
    decreases |inputs|
  {
    if |inputs| > 0 {
      var t := Replay(s, inputs[..|inputs| - 1]);
      PublishesOnlyHeartbeats(s, inputs[..|inputs| - 1]);
      var e := HeartbeatEvent(inputs[|inputs| - 1].now);
      assert Replay(s, inputs).published == t.published || Replay(s, inputs).published == t.published + [e];
    }
  }
}
