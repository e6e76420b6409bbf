/** The shared WebSocket manager: module variables driven by interleaved callbacks. Every callback is
    one atomic step; the browser's sockets, timeouts, intervals and fetches are part of the state. */
module AgentSocket {
  import opened Wrappers
  import opened Sequences

  const RING_SIZE := 100
  const INITIAL_BACKOFF := 1000
  const MAX_BACKOFF := 30_000

  datatype ReadyState = Connecting | Open | Closing | Closed

  /** `delivered`: the browser has dispatched the close event, after which it dispatches nothing more. */
  datatype Socket = Socket(ready: ReadyState, hasOnClose: bool, delivered: bool)

  datatype AgentEvent = AgentEvent(kind: string, message: string, ts: int)

  datatype State = State(
    urlSet: bool,
    // module variables
    ws: Option<nat>,
    wsConsumers: int,
    reconnectTimer: Option<nat>,
    pollingInterval: Option<nat>,
    backoff: int,
    connected: bool,
    error: Option<string>,
    ring: seq<AgentEvent>,
    // the browser
    sockets: seq<Socket>,
    timeouts: set<nat>,
    intervals: set<nat>,
    nextHandle: nat,
    fetches: nat)

  /** The manager only ever refers to a socket it made. */
  predicate Refers(s: State) {
    s.ws.Some? ==> s.ws.value < |s.sockets|
  }

  function Init(urlSet: bool): (s: State)
    ensures Refers(s)
  {
    State(urlSet, None, 0, None, None, INITIAL_BACKOFF, false, None, [], [], {}, {}, 0, 0)
  }

  // ---- what each callback does -----------------------------------------------------------------

  function StartPolling(s: State): State {
    if s.pollingInterval.Some? then s
    else s.(pollingInterval := Some(s.nextHandle), intervals := s.intervals + {s.nextHandle}, nextHandle := s.nextHandle + 1)
  }

  function StopPolling(s: State): State {
    if s.pollingInterval.None? then s
    else s.(pollingInterval := None, intervals := s.intervals - {s.pollingInterval.value})
  }

  function ScheduleReconnect(s: State): State {
    if s.reconnectTimer.Some? then s
    else s.(reconnectTimer := Some(s.nextHandle), timeouts := s.timeouts + {s.nextHandle}, nextHandle := s.nextHandle + 1,
            backoff := if s.backoff * 2 < MAX_BACKOFF then s.backoff * 2 else MAX_BACKOFF)
  }

  predicate Live(k: Socket) {
    k.ready == Connecting || k.ready == Open
  }

  /** `constructed`: the WebSocket constructor did not throw. */
  function Connect(s: State, constructed: bool): (t: State)
    requires Refers(s)
    ensures Refers(t)
  {
    if s.ws.Some? && Live(s.sockets[s.ws.value]) then s
    else if !constructed then StartPolling(s.(error := Some("WebSocket connection failed"), connected := false))
    else s.(ws := Some(|s.sockets|), sockets := s.sockets + [Socket(Connecting, true, false)])
  }

  /** `close()` on a socket: nothing changes once it is closing or closed. */
  function CloseSocket(k: Socket): Socket {
    if Live(k) then k.(ready := Closing) else k
  }

  function Mount(s: State, constructed: bool): (t: State)
    requires Refers(s)
    ensures Refers(t)
  {
    var t := s.(wsConsumers := s.wsConsumers + 1);
    if t.wsConsumers != 1 then t
    else if t.urlSet then Connect(t, constructed)
    else StartPolling(t.(error := Some("NEXT_PUBLIC_OPENCLAW_URL not set")))
  }

  function Unmount(s: State): (t: State)
    requires Refers(s)
    ensures Refers(t)
  {
    if s.wsConsumers > 1 then s.(wsConsumers := s.wsConsumers - 1)
    else
      StopPolling(s.(
        wsConsumers := 0,
        ws := None,
        sockets := if s.ws.None? then s.sockets
                   else s.sockets[s.ws.value := CloseSocket(s.sockets[s.ws.value]).(hasOnClose := false)],
        reconnectTimer := None,
        timeouts := if s.reconnectTimer.None? then s.timeouts else s.timeouts - {s.reconnectTimer.value},
        backoff := INITIAL_BACKOFF))
  }

  function OnOpen(s: State): State {
    StopPolling(s.(backoff := INITIAL_BACKOFF, connected := true, error := None))
  }

  function OnClose(s: State): State {
    var t := s.(connected := false);
    if t.wsConsumers > 0 then ScheduleReconnect(StartPolling(t)) else t
  }

  /** Whichever socket failed, the handler closes the current one. */
  function OnError(s: State): (t: State)
    requires Refers(s)
    ensures Refers(t)
  {
    s.(error := Some("WebSocket error"), connected := false,
       sockets := if s.ws.None? then s.sockets else s.sockets[s.ws.value := CloseSocket(s.sockets[s.ws.value])])
  }

  function PushEvent(ring: seq<AgentEvent>, e: AgentEvent): seq<AgentEvent> {
    (if |ring| >= RING_SIZE then ring[1..] else ring) + [e]
  }

  // ---- steps and runs --------------------------------------------------------------------------

  datatype Event =
    | MountHook(constructed: bool)
    | UnmountHook
    | TimeoutFires(handle: nat, constructed: bool)
    | IntervalTicks(handle: nat)
    | FetchSettles(ok: bool)
    | SocketOpens(id: nat)
    | PeerCloses(id: nat)       // the closing handshake starts on the other side
    | ConnectionDies(id: nat)   // closed, but the close event is still queued
    | SocketFails(id: nat)      // the error event
    | CloseDelivered(id: nat)   // the close event
    | MessageArrives(id: nat, event: Option<AgentEvent>)  // None: not a known message shape

  /** What the browser can do next; in particular a socket opens only out of Connecting, so never
      after close() was called on it, and nothing follows a socket's close event. */
  predicate Enabled(s: State, e: Event) {
    match e
    case MountHook(_) => true
    case UnmountHook => true
    case TimeoutFires(h, _) => h in s.timeouts
    case IntervalTicks(h) => h in s.intervals
    case FetchSettles(_) => s.fetches > 0
    case SocketOpens(id) => id < |s.sockets| && s.sockets[id].ready == Connecting
    case PeerCloses(id) => id < |s.sockets| && Live(s.sockets[id])
    case ConnectionDies(id) => id < |s.sockets| && s.sockets[id].ready != Closed
    case SocketFails(id) => id < |s.sockets| && !s.sockets[id].delivered
    case CloseDelivered(id) => id < |s.sockets| && !s.sockets[id].delivered
    case MessageArrives(id, _) => id < |s.sockets| && !s.sockets[id].delivered
  }

  /** An event that cannot happen leaves the state alone, so every event sequence is a run. */
  function Step(s: State, e: Event): (t: State)
    requires Refers(s)
    ensures Refers(t)
  {
    if !Enabled(s, e) then s
    else
      match e
      case MountHook(constructed) => Mount(s, constructed)
      case UnmountHook => Unmount(s)
      case TimeoutFires(h, constructed) => Connect(s.(timeouts := s.timeouts - {h}, reconnectTimer := None), constructed)
      case IntervalTicks(_) => s.(fetches := s.fetches + 1)
      case FetchSettles(ok) =>
        var t := s.(fetches := s.fetches - 1);
        if ok then t.(connected := false, error := None) else t
      case SocketOpens(id) => OnOpen(s.(sockets := s.sockets[id := s.sockets[id].(ready := Open)]))
      case PeerCloses(id) => s.(sockets := s.sockets[id := s.sockets[id].(ready := Closing)])
      case ConnectionDies(id) => s.(sockets := s.sockets[id := s.sockets[id].(ready := Closed)])
      case SocketFails(_) => OnError(s)
      case CloseDelivered(id) =>
        var t := s.(sockets := s.sockets[id := s.sockets[id].(ready := Closed, delivered := true)]);
        if s.sockets[id].hasOnClose then OnClose(t) else t
      case MessageArrives(_, event) => if event.Some? then s.(ring := PushEvent(s.ring, event.value)) else s
  }

  function Run(s: State, events: seq<Event>): (t: State)
    requires Refers(s)
    ensures Refers(t)
  {
    if events == [] then s else Step(Run(s, events[..|events| - 1]), events[|events| - 1])
  }

  // ---- the invariant ---------------------------------------------------------------------------

  function AsSet(h: Option<nat>): set<nat> {
    if h.None? then {} else {h.value}
  }

  /** The armed handles are exactly the remembered ones. */
  predicate HandlesTracked(s: State) {
    s.intervals == AsSet(s.pollingInterval) && s.timeouts == AsSet(s.reconnectTimer) &&
    (s.pollingInterval.Some? ==> s.pollingInterval.value < s.nextHandle) &&
    (s.reconnectTimer.Some? ==> s.reconnectTimer.value < s.nextHandle)
  }

  /** Only the current socket can be connecting or open, and it still has its close handler. */
  predicate OneLiveSocket(s: State) {
    (forall i | 0 <= i < |s.sockets| && Live(s.sockets[i]) :: s.ws == Some(i)) &&
    (forall i | 0 <= i < |s.sockets| && s.sockets[i].delivered :: s.sockets[i].ready == Closed) &&
    (s.ws.Some? ==> s.ws.value < |s.sockets| && s.sockets[s.ws.value].hasOnClose)
  }

  predicate IdleWhenUnused(s: State) {
    s.wsConsumers >= 0 &&
    (s.wsConsumers == 0 ==> s.ws.None? && s.reconnectTimer.None? && s.pollingInterval.None? && s.backoff == INITIAL_BACKOFF)
  }

  predicate NothingWithoutUrl(s: State) {
    !s.urlSet ==> s.sockets == [] && s.reconnectTimer.None? && !s.connected
  }

  /** The current socket has not yet delivered its close event. */
  predicate Attached(s: State)
    requires Refers(s)
  {
    s.ws.Some? && !s.sockets[s.ws.value].delivered
  }

  predicate BackoffDelay(delay: int) {
    delay in {1000, 2000, 4000, 8000, 16_000, 30_000}
  }

  predicate Inv(s: State) {
    Refers(s) && HandlesTracked(s) && OneLiveSocket(s) && IdleWhenUnused(s) && NothingWithoutUrl(s) &&
    (s.pollingInterval.Some? ==> !s.connected) &&
    (s.wsConsumers > 0 ==> Attached(s) || s.pollingInterval.Some?) &&
    BackoffDelay(s.backoff)
  }

  lemma ConnectKeepsInv(s: State, constructed: bool)
    requires Refers(s) && HandlesTracked(s) && OneLiveSocket(s) && NothingWithoutUrl(s) && s.urlSet && s.wsConsumers > 0
    requires s.pollingInterval.Some? ==> !s.connected
    requires BackoffDelay(s.backoff)
    ensures Inv(Connect(s, constructed))
  {
  }

  lemma SocketStepKeepsInv(s: State, e: Event)
    requires Inv(s) && Enabled(s, e)
    requires e.SocketOpens? || e.PeerCloses? || e.ConnectionDies? || e.SocketFails?
    ensures Inv(Step(s, e))
  {
  }

  /** The close handler makes up for the socket that just went away. */
  lemma HandledCloseKeepsInv(t: State)
    requires Refers(t) && HandlesTracked(t) && OneLiveSocket(t) && IdleWhenUnused(t) && NothingWithoutUrl(t) && BackoffDelay(t.backoff)
    requires t.pollingInterval.Some? ==> !t.connected
    requires t.urlSet
    ensures Inv(OnClose(t))
  {
  }

  lemma CloseKeepsInv(s: State, id: nat)
    requires Inv(s) && Enabled(s, CloseDelivered(id))
    ensures Inv(Step(s, CloseDelivered(id)))
  {
    var t := s.(sockets := s.sockets[id := s.sockets[id].(ready := Closed, delivered := true)]);
    assert OneLiveSocket(t);
    if s.sockets[id].hasOnClose { HandledCloseKeepsInv(t); }
  }

  lemma UnmountKeepsInv(s: State)
    requires Inv(s)
    ensures Inv(Unmount(s))
  {
  }

  lemma MountKeepsInv(s: State, constructed: bool)
    requires Inv(s)
    ensures Inv(Mount(s, constructed))
  {
    if s.wsConsumers == 0 && s.urlSet { ConnectKeepsInv(s.(wsConsumers := 1), constructed); }
  }

  lemma StepKeepsInv(s: State, e: Event)
    requires Inv(s)
    ensures Inv(Step(s, e))
  {
    if Enabled(s, e) {
      match e
      case MountHook(constructed) => MountKeepsInv(s, constructed);
      case UnmountHook => UnmountKeepsInv(s);
      case TimeoutFires(h, constructed) =>
        ConnectKeepsInv(s.(timeouts := s.timeouts - {h}, reconnectTimer := None), constructed);
      case CloseDelivered(id) => CloseKeepsInv(s, id);
      case IntervalTicks(_) =>
      case FetchSettles(_) =>
      case MessageArrives(_, _) =>
      case _ => SocketStepKeepsInv(s, e);
    }
  }

  lemma {:induction false} RunKeepsInv(urlSet: bool, events: seq<Event>)
    ensures Inv(Run(Init(urlSet), events))
  {
    if events != [] {
      RunKeepsInv(urlSet, events[..|events| - 1]);
      StepKeepsInv(Run(Init(urlSet), events[..|events| - 1]), events[|events| - 1]);
    }
  }

  lemma SubsetOfAsSet(h: Option<nat>)
    ensures |AsSet(h)| <= 1
  {
  }

  /** Safety over every interleaving of hooks, timers, polls and sockets current or stale. */
  lemma EveryInterleaving(urlSet: bool, events: seq<Event>)
    ensures var s := Run(Init(urlSet), events);
            && (s.wsConsumers == 0 ==>
                  s.ws == None && s.timeouts == {} && s.intervals == {} && s.backoff == 1000 &&
                  forall i | 0 <= i < |s.sockets| :: !Live(s.sockets[i]))
            && |s.timeouts| <= 1 && |s.intervals| <= 1
            && (s.intervals != {} ==> !s.connected)
            && (forall i, j | 0 <= i < |s.sockets| && 0 <= j < |s.sockets| && Live(s.sockets[i]) && Live(s.sockets[j]) :: i == j)
            && (s.wsConsumers > 0 ==> Attached(s) || s.intervals != {})
            && 1000 <= s.backoff <= 30_000
  {
    RunKeepsInv(urlSet, events);
    var s := Run(Init(urlSet), events);
    SubsetOfAsSet(s.reconnectTimer);
    SubsetOfAsSet(s.pollingInterval);
  }

  // ---- recovery --------------------------------------------------------------------------------

  /** Only the current socket can still announce its end to the manager, and a reconnect is only
      pending once it has. */
  predicate Linked(s: State)
    requires Refers(s)
  {
    (forall i | 0 <= i < |s.sockets| && s.sockets[i].hasOnClose && !s.sockets[i].delivered :: s.ws == Some(i)) &&
    (s.reconnectTimer.Some? ==> s.ws.Some? && s.sockets[s.ws.value].delivered)
  }

  lemma CloseKeepsLinked(s: State, id: nat)
    requires Inv(s) && Linked(s) && Enabled(s, CloseDelivered(id))
    ensures Linked(Step(s, CloseDelivered(id)))
  {
  }

  lemma ConnectKeepsLinked(s: State, constructed: bool)
    requires Refers(s) && s.reconnectTimer.None?
    requires forall i | 0 <= i < |s.sockets| && s.sockets[i].hasOnClose && !s.sockets[i].delivered :: s.ws == Some(i) && Live(s.sockets[i])
    ensures Linked(Connect(s, constructed))
  {
  }

  lemma StepKeepsLinked(s: State, e: Event)
    requires Inv(s) && Linked(s)
    ensures Linked(Step(s, e))
  {
    if Enabled(s, e) {
      match e
      case MountHook(constructed) =>
        if s.wsConsumers == 0 { ConnectKeepsLinked(s.(wsConsumers := 1), constructed); }
      case TimeoutFires(h, constructed) =>
        ConnectKeepsLinked(s.(timeouts := s.timeouts - {h}, reconnectTimer := None), constructed);
      case CloseDelivered(id) => CloseKeepsLinked(s, id);
      case UnmountHook => UnmountKeepsLinked(s);
      case _ =>
    }
  }

  lemma UnmountKeepsLinked(s: State)
    requires Inv(s) && Linked(s)
    ensures Linked(Unmount(s))
  {
  }

  lemma {:induction false} RunKeepsLinked(urlSet: bool, events: seq<Event>)
    ensures Linked(Run(Init(urlSet), events))
  {
    if events != [] {
      var init := events[..|events| - 1];
      RunKeepsLinked(urlSet, init);
      RunKeepsInv(urlSet, init);
      StepKeepsLinked(Run(Init(urlSet), init), events[|events| - 1]);
    }
  }

  /** The last consumer leaves. */
  predicate TearsDown(s: State, e: Event) {
    e == UnmountHook && s.wsConsumers <= 1
  }

  /** The event makes the manager call the WebSocket constructor. */
  predicate Attempts(s: State, e: Event)
    requires Refers(s)
  {
    && !(s.ws.Some? && Live(s.sockets[s.ws.value]))
    && ((e.MountHook? && s.wsConsumers == 0 && s.urlSet) || (e.TimeoutFires? && Enabled(s, e)))
  }

  /** The last call of the constructor since somebody listens threw. */
  predicate Threw(urlSet: bool, events: seq<Event>) {
    if events == [] then false
    else
      var init, e := events[..|events| - 1], events[|events| - 1];
      var s := Run(Init(urlSet), init);
      if Attempts(s, e) then !e.constructed
      else Threw(urlSet, init) && !TearsDown(s, e)
  }

  /** A socket is attached or a reconnect is pending. */
  predicate Recovering(s: State)
    requires Refers(s)
  {
    Attached(s) || s.reconnectTimer.Some?
  }

  predicate Listening(s: State) {
    s.wsConsumers > 0 && s.urlSet
  }

  /** An attempt starts or strands the manager, whatever it was before. */
  lemma AttemptDecides(s: State, e: Event)
    requires Inv(s) && Linked(s) && Attempts(s, e)
    ensures Listening(Step(s, e)) && (Recovering(Step(s, e)) <==> e.constructed)
  {
  }

  /** Nothing else does, while somebody listens. */
  lemma OthersKeepRecovering(s: State, e: Event)
    requires Inv(s) && Linked(s) && !Attempts(s, e) && Listening(Step(s, e))
    ensures Listening(s) && !TearsDown(s, e) && (Recovering(Step(s, e)) <==> Recovering(s))
  {
    if e.CloseDelivered? && Enabled(s, e) { CloseKeepsRecovering(s, e.id); }
  }

  lemma CloseKeepsRecovering(s: State, id: nat)
    requires Inv(s) && Linked(s) && Enabled(s, CloseDelivered(id)) && Listening(s)
    ensures Recovering(Step(s, CloseDelivered(id))) <==> Recovering(s)
  {
  }

  /** In every interleaving the manager keeps trying exactly when the last constructor call succeeded:
      then, while somebody listens, a socket is attached or a reconnect is pending. */
  lemma {:induction false} NeverGivesUp(urlSet: bool, events: seq<Event>)
    ensures var s := Run(Init(urlSet), events);
            Listening(s) ==> (Recovering(s) <==> !Threw(urlSet, events))
  {
    if events != [] {
      var init, e := events[..|events| - 1], events[|events| - 1];
      var s := Run(Init(urlSet), init);
      NeverGivesUp(urlSet, init);
      RunKeepsInv(urlSet, init);
      RunKeepsLinked(urlSet, init);
      if Attempts(s, e) {
        AttemptDecides(s, e);
      } else if Listening(Step(s, e)) {
        OthersKeepRecovering(s, e);
      }
    }
  }

  /** Somebody listens and nothing is left that would ever try to connect. */
  predicate Stranded(s: State)
    requires Refers(s)
  {
    Listening(s) && !Recovering(s)
  }

  lemma StepKeepsStranded(s: State, e: Event)
    requires Inv(s) && Linked(s) && Stranded(s) && !TearsDown(s, e)
    ensures Stranded(Step(s, e)) && |Step(s, e).sockets| == |s.sockets|
  {
    assert !Attempts(s, e);
    assert Listening(Step(s, e));
    OthersKeepRecovering(s, e);
  }

  /** The consumers never drop to zero on the way. */
  predicate Occupied(s: State, events: seq<Event>)
    requires Refers(s)
  {
    events == [] ||
    (Occupied(s, events[..|events| - 1]) && !TearsDown(Run(s, events[..|events| - 1]), events[|events| - 1]))
  }

  /** Whenever a constructor call throws, at a mount or at a reconnect, no event before the last consumer
      leaves makes a socket or arms a timer again, further mounts included; only polling goes on. */
  lemma {:induction false} ThrowStrands(urlSet: bool, before: seq<Event>, after: seq<Event>)
    requires Listening(Run(Init(urlSet), before)) && Threw(urlSet, before)
    requires Occupied(Run(Init(urlSet), before), after)
    ensures var s, t := Run(Init(urlSet), before), Run(Run(Init(urlSet), before), after);
            Inv(t) && Linked(t) && Stranded(t) && |t.sockets| == |s.sockets| && t.timeouts == {} && t.intervals != {}
  {
    var s := Run(Init(urlSet), before);
    NeverGivesUp(urlSet, before);
    RunKeepsInv(urlSet, before);
    RunKeepsLinked(urlSet, before);
    if after != [] {
      var init, e := after[..|after| - 1], after[|after| - 1];
      ThrowStrands(urlSet, before, init);
      StepKeepsStranded(Run(s, init), e);
      StepKeepsInv(Run(s, init), e);
      StepKeepsLinked(Run(s, init), e);
    }
  }

  // ---- the connected flag ----------------------------------------------------------------------

  /** The sockets that have opened. */
  function Opened(urlSet: bool, events: seq<Event>): set<nat> {
    if events == [] then {}
    else
      var init, e := events[..|events| - 1], events[|events| - 1];
      if e.SocketOpens? && Enabled(Run(Init(urlSet), init), e) then Opened(urlSet, init) + {e.id} else Opened(urlSet, init)
  }

  /** The last consumer left with the flag up, and since then no socket has opened and the flag has not
      fallen. */
  predicate Carried(urlSet: bool, events: seq<Event>) {
    if events == [] then false
    else
      var init, e := events[..|events| - 1], events[|events| - 1];
      var s := Run(Init(urlSet), init);
      s.connected && Step(s, e).connected &&
      (TearsDown(s, e) || (Carried(urlSet, init) && !(e.SocketOpens? && Enabled(s, e))))
  }

  /** The current socket is in use: it has opened and has not delivered its close event. */
  predicate InUse(s: State, used: set<nat>)
    requires Refers(s)
  {
    Attached(s) && s.ws.value in used
  }

  predicate FlagOk(s: State, used: set<nat>, carried: bool)
    requires Refers(s)
  {
    && (s.connected ==> (InUse(s, used) <==> !carried))
    && (forall i | i in used :: i < |s.sockets| && s.sockets[i].ready != Connecting)
  }

  lemma StepKeepsFlagOk(s: State, e: Event, used: set<nat>, carried: bool)
    requires Inv(s) && Linked(s) && FlagOk(s, used, carried)
    ensures var opens := e.SocketOpens? && Enabled(s, e);
            FlagOk(Step(s, e), if opens then used + {e.id} else used,
                   s.connected && Step(s, e).connected && (TearsDown(s, e) || (carried && !opens)))
  {
    if Enabled(s, e) {
      match e
      case MountHook(constructed) =>
        if s.wsConsumers == 0 { ConnectKeepsFlagOk(s, s.(wsConsumers := 1), constructed, used, carried); }
      case TimeoutFires(h, constructed) =>
        ConnectKeepsFlagOk(s, s.(timeouts := s.timeouts - {h}, reconnectTimer := None), constructed, used, carried);
      case CloseDelivered(id) => CloseKeepsFlagOk(s, id, used, carried);
      case SocketOpens(id) => OpenKeepsFlagOk(s, id, used);
      case UnmountHook => UnmountKeepsFlagOk(s, used, carried);
      case SocketFails(_) =>
      case _ => QuietKeepsFlagOk(s, e, used, carried);
    }
  }

  /** The last consumer carries the flag away from its socket. */
  lemma UnmountKeepsFlagOk(s: State, used: set<nat>, carried: bool)
    requires Inv(s) && FlagOk(s, used, carried)
    ensures FlagOk(Unmount(s), used, s.connected && (s.wsConsumers <= 1 || carried))
    ensures Unmount(s).connected == s.connected
  {
  }

  lemma QuietKeepsFlagOk(s: State, e: Event, used: set<nat>, carried: bool)
    requires Refers(s) && FlagOk(s, used, carried) && Enabled(s, e)
    requires e.IntervalTicks? || e.FetchSettles? || e.PeerCloses? || e.ConnectionDies? || e.MessageArrives?
    ensures FlagOk(Step(s, e), used, s.connected && Step(s, e).connected && carried)
  {
  }

  lemma ConnectKeepsFlagOk(s: State, t: State, constructed: bool, used: set<nat>, carried: bool)
    requires Refers(s) && Refers(t) && FlagOk(s, used, carried) && !(Attached(s) && s.ws.value in used)
    requires t.connected == s.connected && t.ws == s.ws && t.sockets == s.sockets
    ensures FlagOk(Connect(t, constructed), used, Connect(t, constructed).connected && carried)
  {
  }

  lemma CloseKeepsFlagOk(s: State, id: nat, used: set<nat>, carried: bool)
    requires Inv(s) && Linked(s) && FlagOk(s, used, carried) && Enabled(s, CloseDelivered(id))
    ensures FlagOk(Step(s, CloseDelivered(id)), used, Step(s, CloseDelivered(id)).connected && carried)
  {
  }

  lemma OpenKeepsFlagOk(s: State, id: nat, used: set<nat>)
    requires Inv(s) && forall i | i in used :: i < |s.sockets| && s.sockets[i].ready != Connecting
    requires Enabled(s, SocketOpens(id))
    ensures FlagOk(Step(s, SocketOpens(id)), used + {id}, false)
  {
  }

  lemma {:induction false} RunKeepsFlagOk(urlSet: bool, events: seq<Event>)
    ensures FlagOk(Run(Init(urlSet), events), Opened(urlSet, events), Carried(urlSet, events))
  {
    if events != [] {
      var init, e := events[..|events| - 1], events[|events| - 1];
      RunKeepsFlagOk(urlSet, init);
      RunKeepsInv(urlSet, init);
      RunKeepsLinked(urlSet, init);
      StepKeepsFlagOk(Run(Init(urlSet), init), e, Opened(urlSet, init), Carried(urlSet, init));
    }
  }

  /** In every interleaving the connected flag, when up, is right about the current socket exactly when
      it was not carried over from before the last consumer left. */
  lemma ConnectedIsTrue(urlSet: bool, events: seq<Event>)
    ensures var s := Run(Init(urlSet), events);
            s.connected ==> (InUse(s, Opened(urlSet, events)) <==> !Carried(urlSet, events))
  {
    RunKeepsFlagOk(urlSet, events);
  }

  /** Such a run: after an unmount and a remount the flag still says connected while the only live
      socket is connecting. */
  lemma ConnectedFlagIsStale()
    ensures var s := Run(Init(true), [MountHook(true), SocketOpens(0), UnmountHook, MountHook(true)]);
            s.connected && s.ws == Some(1) && s.sockets[1].ready == Connecting && s.sockets[0].ready == Closing
  {
    var events := [MountHook(true), SocketOpens(0), UnmountHook, MountHook(true)];
    assert events[..3] == [MountHook(true), SocketOpens(0), UnmountHook];
    assert events[..3][..2] == [MountHook(true), SocketOpens(0)];
    assert [MountHook(true), SocketOpens(0)][..1] == [MountHook(true)];
    assert [MountHook(true)][..0] == [];
    assert Run(Init(true), [MountHook(true)]) == Step(Init(true), MountHook(true));
  }

  // ---- the delay -------------------------------------------------------------------------------

  /** The n-th consecutive reconnect waits 1, 2, 4, 8, 16, 30, 30, ... seconds. */
  function Backoff(n: nat): (delay: int)
    ensures BackoffDelay(delay)
  {
    match n
    case 0 => 1000
    case 1 => 2000
    case 2 => 4000
    case 3 => 8000
    case 4 => 16_000
    case _ => 30_000
  }

  /** The event arms the reconnect timer. */
  predicate Schedules(s: State, e: Event) {
    e.CloseDelivered? && Enabled(s, e) && s.sockets[e.id].hasOnClose && s.wsConsumers > 0 && s.reconnectTimer.None?
  }

  /** How many reconnects were scheduled since a socket last opened or the last consumer left. */
  function Scheduled(urlSet: bool, events: seq<Event>): nat {
    if events == [] then 0
    else
      var init, e := events[..|events| - 1], events[|events| - 1];
      var s := Run(Init(urlSet), init);
      if (e.SocketOpens? && Enabled(s, e)) || TearsDown(s, e) then 0
      else Scheduled(urlSet, init) + (if Schedules(s, e) then 1 else 0)
  }

  lemma BackoffDoubles(n: nat)
    ensures Backoff(n + 1) == if Backoff(n) * 2 < MAX_BACKOFF then Backoff(n) * 2 else MAX_BACKOFF
  {
  }

  /** The delay goes back to one second, doubles up to thirty, or stays. */
  lemma StepDelays(s: State, e: Event)
    requires Refers(s)
    ensures Step(s, e).backoff ==
            if (e.SocketOpens? && Enabled(s, e)) || TearsDown(s, e) then INITIAL_BACKOFF
            else if !Schedules(s, e) then s.backoff
            else if s.backoff * 2 < MAX_BACKOFF then s.backoff * 2 else MAX_BACKOFF
  {
  }

  lemma StepBacksOff(s: State, e: Event, n: nat)
    requires Refers(s) && s.backoff == Backoff(n)
    ensures Step(s, e).backoff ==
            Backoff(if (e.SocketOpens? && Enabled(s, e)) || TearsDown(s, e) then 0 else if Schedules(s, e) then n + 1 else n)
  {
    BackoffDoubles(n);
    StepDelays(s, e);
  }

  /** In every interleaving the next delay is that of the series at the number of reconnects scheduled
      since a socket last opened or everybody left. */
  lemma {:induction false} DelayFollowsSeries(urlSet: bool, events: seq<Event>)
    ensures Run(Init(urlSet), events).backoff == Backoff(Scheduled(urlSet, events))
  {
    if events != [] {
      var init, e := events[..|events| - 1], events[|events| - 1];
      DelayFollowsSeries(urlSet, init);
      StepBacksOff(Run(Init(urlSet), init), e, Scheduled(urlSet, init));
    }
  }

  /** A mounted consumer whose first `n` sockets all closed without opening. */
  function Outage(n: nat): seq<Event> {
    if n == 0 then [MountHook(true)] else Outage(n - 1) + [CloseDelivered(n - 1), TimeoutFires(n, true)]
  }

  predicate AfterOutage(s: State, n: nat) {
    s.urlSet && s.wsConsumers == 1 && s.ws == Some(n) && |s.sockets| == n + 1 && s.sockets[n] == Socket(Connecting, true, false) &&
    s.reconnectTimer.None? && s.timeouts == {} && s.backoff == Backoff(n) &&
    (if n == 0 then s.pollingInterval.None? && s.nextHandle == 0 else s.pollingInterval.Some? && s.nextHandle == n + 1)
  }

  lemma RunAppend(s: State, events: seq<Event>, a: Event, b: Event)
    requires Refers(s)
    ensures Run(s, events + [a, b]) == Step(Step(Run(s, events), a), b)
  {
    var all := events + [a, b];
    assert all[..|all| - 1] == events + [a] && (events + [a])[..|events|] == events;
  }

  lemma OutageStep(s: State, n: nat)
    requires Refers(s) && AfterOutage(s, n) && HandlesTracked(s)
    ensures var t := Step(s, CloseDelivered(n));
            t.timeouts == {n + 1} && t.intervals != {} && t.backoff == Backoff(n + 1) &&
            AfterOutage(Step(t, TimeoutFires(n + 1, true)), n + 1)
  {
  }

  lemma OutageStarts(mount: Event)
    requires mount == MountHook(true)
    ensures AfterOutage(Run(Init(true), [mount]), 0)
  {
    assert [mount][..0] == [];
    assert Run(Init(true), [mount]) == Step(Init(true), mount);
  }

  lemma {:induction false} OutageRuns(n: nat)
    ensures AfterOutage(Run(Init(true), Outage(n)), n) && HandlesTracked(Run(Init(true), Outage(n)))
  {
    RunKeepsInv(true, Outage(n));
    if n == 0 {
      OutageStarts(MountHook(true));
    } else {
      OutageRuns(n - 1);
      OutageExtends(n - 1, Outage(n - 1));
    }
  }

  lemma OutageExtends(n: nat, events: seq<Event>)
    requires AfterOutage(Run(Init(true), events), n) && HandlesTracked(Run(Init(true), events))
    ensures AfterOutage(Run(Init(true), events + [CloseDelivered(n), TimeoutFires(n + 1, true)]), n + 1)
  {
    OutageStep(Run(Init(true), events), n);
    RunAppend(Init(true), events, CloseDelivered(n), TimeoutFires(n + 1, true));
  }

  /** When the next socket of an outage closes, one timer is armed, polling runs, and the delay after
      that one is the next of the series. */
  lemma OutageBacksOff(n: nat)
    ensures var s := Run(Init(true), Outage(n));
            var t := Step(s, CloseDelivered(n));
            s.backoff == Backoff(n) && s.ws == Some(n) && s.timeouts == {} &&
            t.timeouts == {n + 1} && t.intervals != {} && t.backoff == Backoff(n + 1)
  {
    OutageRuns(n);
    OutageStep(Run(Init(true), Outage(n)), n);
  }

  // ---- the ring buffer -------------------------------------------------------------------------

  /** What a step adds to the ring buffer. */
  function Received(s: State, e: Event): seq<AgentEvent> {
    if e.MessageArrives? && Enabled(s, e) && e.event.Some? then [e.event.value] else []
  }

  /** Every accepted event of a run, oldest first. */
  function Accepted(s: State, events: seq<Event>): seq<AgentEvent>
    requires Refers(s)
  {
    if events == [] then []
    else
      var init, e := events[..|events| - 1], events[|events| - 1];
      Accepted(s, init) + Received(Run(s, init), e)
  }

  lemma StepUpdatesRing(s: State, e: Event, log: seq<AgentEvent>)
    requires Refers(s) && s.ring == LastOf(log, RING_SIZE)
    ensures Step(s, e).ring == LastOf(log + Received(s, e), RING_SIZE)
  {
    if Received(s, e) == [] {
      StepKeepsRing(s, e);
      assert log + [] == log;
    } else {
      PushKeepsLast(log, e.event.value);
    }
  }

  lemma PushKeepsLast(log: seq<AgentEvent>, e: AgentEvent)
    ensures PushEvent(LastOf(log, RING_SIZE), e) == LastOf(log + [e], RING_SIZE)
  {
  }

  lemma StepKeepsRing(s: State, e: Event)
    requires Refers(s) && Received(s, e) == []
    ensures Step(s, e).ring == s.ring
  {
  }

  /** The ring buffer holds exactly the last hundred events received, in order. */
  lemma {:induction false} RingIsRecent(urlSet: bool, events: seq<Event>)
    ensures Run(Init(urlSet), events).ring == LastOf(Accepted(Init(urlSet), events), RING_SIZE)
  {
    if events != [] {
      var init, e := events[..|events| - 1], events[|events| - 1];
      RingIsRecent(urlSet, init);
      StepUpdatesRing(Run(Init(urlSet), init), e, Accepted(Init(urlSet), init));
    }
  }

  // ---- the module itself -----------------------------------------------------------------------

  /** The module-level variables and the callbacks that update them, over the browser's state. */
  class SocketManager {
    const urlSet: bool
    var ws: Option<nat>
    var wsConsumers: int
    var reconnectTimer: Option<nat>
    var pollingInterval: Option<nat>
    var backoff: int
    var ringConnected: bool
    var ringError: Option<string>
    var ringBuffer: seq<AgentEvent>
    var sockets: seq<Socket>
    var timeouts: set<nat>
    var intervals: set<nat>
    var nextHandle: nat
    var fetches: nat

    ghost function View(): State
      reads this
    {
      State(urlSet, ws, wsConsumers, reconnectTimer, pollingInterval, backoff, ringConnected, ringError, ringBuffer,
            sockets, timeouts, intervals, nextHandle, fetches)
    }

    ghost predicate Valid()
      reads this
    {
      Inv(View())
    }

    constructor (urlSet: bool)
      ensures View() == Init(urlSet) && Valid()
    {
      this.urlSet := urlSet;
      ws, wsConsumers, reconnectTimer, pollingInterval, backoff := None, 0, None, None, INITIAL_BACKOFF;
      ringConnected, ringError, ringBuffer := false, None, [];
      sockets, timeouts, intervals, nextHandle, fetches := [], {}, {}, 0, 0;
    }

    method Arm() returns (handle: nat)
      modifies this`nextHandle
      ensures handle == old(nextHandle) && nextHandle == handle + 1
    {
      handle := nextHandle;
      nextHandle := nextHandle + 1;
    }

    method StartPollingFallback()
      modifies this
      ensures View() == StartPolling(old(View()))
    {
      if pollingInterval != None { return; }
      var handle := Arm();
      intervals := intervals + {handle};
      pollingInterval := Some(handle);
    }

    method StopPollingFallback()
      modifies this
      ensures View() == StopPolling(old(View()))
    {
      if pollingInterval != None {
        intervals := intervals - {pollingInterval.value};
        pollingInterval := None;
      }
    }

    method Reconnect()
      modifies this
      ensures View() == ScheduleReconnect(old(View()))
    {
      if reconnectTimer != None { return; }
      var handle := Arm();
      timeouts := timeouts + {handle};
      reconnectTimer := Some(handle);
      backoff := backoff * 2;
      if backoff > MAX_BACKOFF { backoff := MAX_BACKOFF; }
    }

    method ConnectWs(constructed: bool)
      requires Refers(View())
      modifies this
      ensures View() == Connect(old(View()), constructed)
    {
      if ws.Some? && (sockets[ws.value].ready == Connecting || sockets[ws.value].ready == Open) { return; }
      if !constructed {
        ringError := Some("WebSocket connection failed");
        ringConnected := false;
        StartPollingFallback();
        return;
      }
      sockets := sockets + [Socket(Connecting, false, false)];
      ws := Some(|sockets| - 1);
      sockets := sockets[ws.value := sockets[ws.value].(hasOnClose := true)];
    }

    method CloseCurrent()
      requires Refers(View()) && ws.Some?
      modifies this`sockets
      ensures sockets == old(sockets)[ws.value := CloseSocket(old(sockets)[ws.value])]
    {
      if sockets[ws.value].ready == Connecting || sockets[ws.value].ready == Open {
        sockets := sockets[ws.value := sockets[ws.value].(ready := Closing)];
      }
    }

    /** Drop the close handler, then close. */
    method DetachCurrent()
      requires Refers(View()) && ws.Some?
      modifies this`sockets
      ensures sockets == old(sockets)[ws.value := CloseSocket(old(sockets)[ws.value]).(hasOnClose := false)]
    {
      sockets := sockets[ws.value := sockets[ws.value].(hasOnClose := false)];
      CloseCurrent();
    }

    method MountWs(constructed: bool)
      requires Valid()
      modifies this
      ensures Valid() && View() == Mount(old(View()), constructed)
    {
      StepKeepsInv(View(), MountHook(constructed));
      wsConsumers := wsConsumers + 1;
      if wsConsumers == 1 {
        if urlSet {
          ConnectWs(constructed);
        } else {
          ringError := Some("NEXT_PUBLIC_OPENCLAW_URL not set");
          StartPollingFallback();
        }
      }
    }

    method UnmountWs()
      requires Valid()
      modifies this
      ensures Valid() && View() == Unmount(old(View()))
    {
      StepKeepsInv(View(), UnmountHook);
      wsConsumers := wsConsumers - 1;
      if wsConsumers <= 0 {
        wsConsumers := 0;
        TearDown();
      }
    }

    /** What the last consumer takes with it. */
    method TearDown()
      requires Refers(View()) && wsConsumers == 0
      modifies this
      ensures View() == Unmount(old(View()))
    {
      if ws.Some? {
        DetachCurrent();
        ws := None;
      }
      if reconnectTimer.Some? {
        timeouts := timeouts - {reconnectTimer.value};
        reconnectTimer := None;
      }
      StopPollingFallback();
      backoff := INITIAL_BACKOFF;
    }

    /** The reconnect callback; firing disarms it. */
    method TimerCallback(handle: nat, constructed: bool)
      requires Valid() && handle in timeouts
      modifies this
      ensures Valid() && View() == Step(old(View()), TimeoutFires(handle, constructed))
    {
      StepKeepsInv(View(), TimeoutFires(handle, constructed));
      timeouts := timeouts - {handle};
      reconnectTimer := None;
      ConnectWs(constructed);
    }

    method OpenHandler(id: nat)
      requires Valid() && Enabled(View(), SocketOpens(id))
      modifies this
      ensures Valid() && View() == Step(old(View()), SocketOpens(id))
    {
      StepKeepsInv(View(), SocketOpens(id));
      sockets := sockets[id := sockets[id].(ready := Open)];
      backoff := INITIAL_BACKOFF;
      ringConnected := true;
      ringError := None;
      StopPollingFallback();
    }

    method CloseHandler(id: nat)
      requires Valid() && Enabled(View(), CloseDelivered(id))
      modifies this
      ensures Valid() && View() == Step(old(View()), CloseDelivered(id))
    {
      StepKeepsInv(View(), CloseDelivered(id));
      sockets := sockets[id := sockets[id].(ready := Closed, delivered := true)];
      if sockets[id].hasOnClose {
        ringConnected := false;
        if wsConsumers > 0 {
          StartPollingFallback();
          Reconnect();
        }
      }
    }

    method ErrorHandler(id: nat)
      requires Valid() && Enabled(View(), SocketFails(id))
      modifies this
      ensures Valid() && View() == Step(old(View()), SocketFails(id))
    {
      StepKeepsInv(View(), SocketFails(id));
      ringError := Some("WebSocket error");
      ringConnected := false;
      if ws.Some? {
        CloseCurrent();
      }
    }

    method MessageHandler(id: nat, event: Option<AgentEvent>)
      requires Valid() && Enabled(View(), MessageArrives(id, event))
      modifies this
      ensures Valid() && View() == Step(old(View()), MessageArrives(id, event))
    {
      StepKeepsInv(View(), MessageArrives(id, event));
      if event == None { return; }
      if |ringBuffer| >= RING_SIZE {
        ringBuffer := ringBuffer[1..];
      }
      ringBuffer := ringBuffer + [event.value];
    }

    method PollCompletes(ok: bool)
      requires Valid() && fetches > 0
      modifies this
      ensures Valid() && View() == Step(old(View()), FetchSettles(ok))
    {
      StepKeepsInv(View(), FetchSettles(ok));
      fetches := fetches - 1;
      if ok {
        ringConnected := false;
        ringError := None;
      }
    }
  }
}
