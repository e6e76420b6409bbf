/** The sliding-window rate limiter of the gate layer: per-client request lists pruned as they are
    read, with one-minute blocks, against a specification over the full request log. */
module Gate {
  const MINUTE := 60.0
  const BURST_SPAN := 5.0

  datatype Limits = Limits(perMinute: int, burst: int)

  /** The value of one client's state. */
  datatype Client = Client(requests: seq<real>, blockedUntil: real)

  const NewClient := Client([], 0.0)

  /** `[t for t in times if now - t < span]` */
  function Since(times: seq<real>, now: real, span: real): seq<real> {
    if times == [] then []
    else
      var earlier, t := Since(times[..|times| - 1], now, span), times[|times| - 1];
      if now - t < span then earlier + [t] else earlier
  }

  function Check(c: Client, now: real, limits: Limits): (Client, bool) {
    if now < c.blockedUntil then (c, false)
    else
      var kept := Since(c.requests, now, MINUTE);
      if |Since(kept, now, BURST_SPAN)| >= limits.burst || |kept| >= limits.perMinute
      then (Client(kept, now + MINUTE), false)
      else (Client(kept + [now], c.blockedUntil), true)
  }

  // ---- the gate --------------------------------------------------------------------------------

  class RateLimitState {
    var requests: seq<real>
    var blockedUntil: real

    constructor ()
      ensures Value() == NewClient
    {
      requests, blockedUntil := [], 0.0;
    }

    ghost function Value(): Client
      reads this
    {
      Client(requests, blockedUntil)
    }
  }

  class GateLayer {
    const limits: Limits
    var clients: map<string, RateLimitState>

    ghost predicate Valid()
      reads this
    {
      forall a, b | a in clients && b in clients && a != b :: clients[a] != clients[b]
    }

    ghost function View(): map<string, Client>
      reads this, clients.Values
    {
      map ip | ip in clients :: clients[ip].Value()
    }

    constructor (limits: Limits)
      ensures Valid() && View() == map[] && this.limits == limits
    {
      this.limits := limits;
      clients := map[];
    }

    method CheckRateLimit(ip: string, now: real) returns (allowed: bool)
      requires Valid()
      modifies this, clients.Values
      ensures Valid() && fresh(clients.Values - old(clients.Values))
      ensures (View(), allowed) == CheckClient(old(View()), ip, now, limits)
    {
      ghost var before := View();
      if ip !in clients {
        var created := new RateLimitState();
        clients := clients[ip := created];
      }
      var state := clients[ip];
      assert state in clients.Values;
      assert state.Value() == Lookup(before, ip);
      allowed := CheckState(state, now);
      assert View() == before[ip := state.Value()];
    }

    /** The body of the check on the client's own record. */
    method CheckState(state: RateLimitState, now: real) returns (allowed: bool)
      modifies state
      ensures (state.Value(), allowed) == Check(old(state.Value()), now, limits)
    {
      if now < state.blockedUntil {
        return false;
      }
      state.requests := Since(state.requests, now, MINUTE);
      var recent := Since(state.requests, now, BURST_SPAN);
      if |recent| >= limits.burst {
        state.blockedUntil := now + MINUTE;
        return false;
      }
      if |state.requests| >= limits.perMinute {
        state.blockedUntil := now + MINUTE;
        return false;
      }
      state.requests := state.requests + [now];
      return true;
    }
  }

  /** What the gate knows of a client: `defaultdict` hands out a new record. */
  function Lookup(clients: map<string, Client>, ip: string): Client {
    if ip in clients then clients[ip] else NewClient
  }

  function CheckClient(clients: map<string, Client>, ip: string, now: real, limits: Limits): (map<string, Client>, bool) {
    var (c, allowed) := Check(Lookup(clients, ip), now, limits);
    (clients[ip := c], allowed)
  }

  // ---- the specification: the full log ---------------------------------------------------------

  datatype Outcome = Admitted | Tripped | Refused
  datatype Entry = Entry(time: real, outcome: Outcome)

  /** The times of all requests ever admitted. */
  function AdmittedTimes(log: seq<Entry>): seq<real> {
    if log == [] then []
    else
      var earlier, e := AdmittedTimes(log[..|log| - 1]), log[|log| - 1];
      if e.outcome == Admitted then earlier + [e.time] else earlier
  }

  predicate Blocking(log: seq<Entry>, now: real) {
    exists i :: 0 <= i < |log| && log[i].outcome == Tripped && now < log[i].time + MINUTE
  }

  function Decide(log: seq<Entry>, now: real, limits: Limits): Outcome {
    if Blocking(log, now) then Refused
    else if |Since(AdmittedTimes(log), now, BURST_SPAN)| >= limits.burst ||
            |Since(AdmittedTimes(log), now, MINUTE)| >= limits.perMinute then Tripped
    else Admitted
  }

  function Log(times: seq<real>, limits: Limits): (log: seq<Entry>)
    ensures |log| == |times|
  {
    if times == [] then []
    else
      var log, now := Log(times[..|times| - 1], limits), times[|times| - 1];
      log + [Entry(now, Decide(log, now, limits))]
  }

  /** One client's record after a run of requests. */
  function Served(times: seq<real>, limits: Limits): Client {
    if times == [] then NewClient
    else Check(Served(times[..|times| - 1], limits), times[|times| - 1], limits).0
  }

  /** A clock that starts at the epoch or later and does not run backwards. */
  predicate Clock(times: seq<real>) {
    (forall i | 0 <= i < |times| :: times[i] >= 0.0) && forall i, j | 0 <= i < j < |times| :: times[i] <= times[j]
  }

  lemma {:induction false} SinceSince(times: seq<real>, earlier: real, wider: real, now: real, span: real)
    requires earlier <= now && span <= wider
    ensures Since(Since(times, earlier, wider), now, span) == Since(times, now, span)
  {
    if times != [] {
      var init, t := times[..|times| - 1], times[|times| - 1];
      SinceSince(init, earlier, wider, now, span);
      SinceAppend(Since(init, earlier, wider), t, now, span);
    }
  }

  lemma SinceAppend(times: seq<real>, t: real, now: real, span: real)
    ensures Since(times + [t], now, span) == if now - t < span then Since(times, now, span) + [t] else Since(times, now, span)
  {
    assert (times + [t])[..|times|] == times;
  }

  /** The pruned record carries exactly what the full log says about every later moment. */
  ghost predicate Agrees(c: Client, log: seq<Entry>, last: real) {
    Since(c.requests, last, MINUTE) == Since(AdmittedTimes(log), last, MINUTE) &&
    (forall i | 0 <= i < |log| && log[i].outcome == Tripped :: log[i].time + MINUTE <= c.blockedUntil) &&
    (c.blockedUntil == 0.0 || exists i :: 0 <= i < |log| && log[i].outcome == Tripped && log[i].time + MINUTE == c.blockedUntil)
  }

  lemma StepAgrees(c: Client, log: seq<Entry>, last: real, now: real, limits: Limits)
    requires Agrees(c, log, last) && last <= now && 0.0 <= now
    requires forall i | 0 <= i < |log| :: log[i].time <= now
    ensures Check(c, now, limits).1 <==> Decide(log, now, limits) == Admitted
    ensures now < c.blockedUntil <==> Blocking(log, now)
    ensures Agrees(Check(c, now, limits).0, log + [Entry(now, Decide(log, now, limits))], now)
  {
    var e := Entry(now, Decide(log, now, limits));
    var admitted, kept := AdmittedTimes(log), Since(c.requests, now, MINUTE);
    SinceSince(c.requests, last, MINUTE, now, MINUTE);
    SinceSince(admitted, last, MINUTE, now, MINUTE);
    SinceSince(admitted, now, MINUTE, now, BURST_SPAN);
    SinceSince(c.requests, now, MINUTE, now, MINUTE);
    SinceAppend(kept, now, now, MINUTE);
    SinceAppend(admitted, now, now, MINUTE);
    assert kept == Since(admitted, now, MINUTE);
    assert now < c.blockedUntil <==> Blocking(log, now);
    assert (log + [e])[..|log|] == log;
    assert AdmittedTimes(log + [e]) == if e.outcome == Admitted then admitted + [now] else admitted;
    assert forall i | 0 <= i < |log| :: (log + [e])[i] == log[i];
    if e.outcome == Tripped { assert (log + [e])[|log|] == e; }
    if c.blockedUntil != 0.0 {
      var i :| 0 <= i < |log| && log[i].outcome == Tripped && log[i].time + MINUTE == c.blockedUntil;
      assert (log + [e])[i] == log[i];
    }
  }

  lemma {:induction false} LogTimes(times: seq<real>, limits: Limits)
    ensures forall i | 0 <= i < |times| :: Log(times, limits)[i].time == times[i]
    ensures forall n | 0 <= n <= |times| :: Log(times, limits)[..n] == Log(times[..n], limits)
  {
    if times != [] {
      var init := times[..|times| - 1];
      LogTimes(init, limits);
      forall n | 0 <= n <= |times| ensures Log(times, limits)[..n] == Log(times[..n], limits) {
        if n < |times| {
          assert times[..n] == init[..n];
          assert Log(times, limits)[..n] == Log(init, limits)[..n];
        } else {
          assert times[..n] == times;
        }
      }
    }
  }

  lemma {:induction false} ServedAgrees(times: seq<real>, limits: Limits)
    requires Clock(times)
    ensures Agrees(Served(times, limits), Log(times, limits), if times == [] then 0.0 else times[|times| - 1])
  {
    if times != [] {
      var init, now := times[..|times| - 1], times[|times| - 1];
      ServedAgrees(init, limits);
      LogTimes(init, limits);
      StepAgrees(Served(init, limits), Log(init, limits), if init == [] then 0.0 else init[|init| - 1], now, limits);
    }
  }

  /** Pruning never shows: the limiter admits a request exactly when the full log would. */
  lemma PrunedDecidesAsLog(times: seq<real>, now: real, limits: Limits)
    requires Clock(times + [now])
    ensures Check(Served(times, limits), now, limits).1 <==> Decide(Log(times, limits), now, limits) == Admitted
    ensures now < Served(times, limits).blockedUntil <==> Blocking(Log(times, limits), now)
  {
    var all := times + [now];
    assert all[|times|] == now && forall i | 0 <= i < |times| :: all[i] == times[i];
    ServedAgrees(times, limits);
    LogTimes(times, limits);
    StepAgrees(Served(times, limits), Log(times, limits), if times == [] then 0.0 else times[|times| - 1], now, limits);
  }

  // ---- how much a client gets through ----------------------------------------------------------

  /** Admitted requests in the half-open interval [from, until). */
  function AdmittedIn(log: seq<Entry>, from: real, until: real): nat {
    if log == [] then 0
    else
      var e := log[|log| - 1];
      AdmittedIn(log[..|log| - 1], from, until) + if e.outcome == Admitted && from <= e.time < until then 1 else 0
  }

  function AtLeastZero(n: int): nat { if n < 0 then 0 else n }

  lemma {:induction false} IntervalWithinSpan(log: seq<Entry>, from: real, now: real, span: real)
    requires now < from + span
    ensures AdmittedIn(log, from, from + span) <= |Since(AdmittedTimes(log), now, span)|
  {
    if log != [] {
      var init, e := log[..|log| - 1], log[|log| - 1];
      IntervalWithinSpan(init, from, now, span);
      SinceAppend(AdmittedTimes(init), e.time, now, span);
    }
  }

  /** In the log no half-open minute admits more than the per-minute limit, no half-open five seconds more than
      the burst limit, wherever the interval starts. */
  lemma {:induction false} LogAdmissionBound(times: seq<real>, limits: Limits, from: real)
    ensures AdmittedIn(Log(times, limits), from, from + MINUTE) <= AtLeastZero(limits.perMinute)
    ensures AdmittedIn(Log(times, limits), from, from + BURST_SPAN) <= AtLeastZero(limits.burst)
  {
    if times != [] {
      var init, now := times[..|times| - 1], times[|times| - 1];
      LogAdmissionBound(init, limits, from);
      var log := Log(init, limits);
      assert Log(times, limits)[..|init|] == log;
      if now < from + MINUTE { IntervalWithinSpan(log, from, now, MINUTE); }
      if now < from + BURST_SPAN { IntervalWithinSpan(log, from, now, BURST_SPAN); }
    }
  }

  lemma {:induction false} SinceShrinks(times: seq<real>, now: real, span: real)
    ensures |Since(times, now, span)| <= |times|
  {
    if times != [] { SinceShrinks(times[..|times| - 1], now, span); }
  }

  /** The record never grows beyond the per-minute limit. */
  lemma {:induction false} RecordIsBounded(times: seq<real>, limits: Limits)
    ensures |Served(times, limits).requests| <= AtLeastZero(limits.perMinute)
  {
    if times != [] {
      var init, now := times[..|times| - 1], times[|times| - 1];
      RecordIsBounded(init, limits);
      SinceShrinks(Served(init, limits).requests, now, MINUTE);
    }
  }

  // ---- blocks ----------------------------------------------------------------------------------

  lemma {:induction false} NothingRecent(log: seq<Entry>, now: real, span: real)
    requires forall i | 0 <= i < |log| && log[i].outcome == Admitted :: log[i].time + span <= now
    ensures Since(AdmittedTimes(log), now, span) == []
  {
    if log != [] {
      var init, e := log[..|log| - 1], log[|log| - 1];
      NothingRecent(init, now, span);
      SinceAppend(AdmittedTimes(init), e.time, now, span);
    }
  }

  /** The entry of a request is the decision over the log before it. */
  lemma EntryIsDecision(times: seq<real>, limits: Limits, i: nat)
    requires i < |times|
    ensures Log(times, limits)[i] == Entry(times[i], Decide(Log(times, limits)[..i], times[i], limits))
  {
    LogTimes(times, limits);
    assert Log(times, limits)[..i + 1] == Log(times[..i + 1], limits);
    assert times[..i + 1][..i] == times[..i];
    assert Log(times, limits)[i] == Log(times, limits)[..i + 1][i];
  }

  /** In the log a trip refuses everything for the next minute. */
  lemma LogBlockLasts(times: seq<real>, limits: Limits, i: nat, j: nat)
    requires i < j < |times| && Log(times, limits)[i].outcome == Tripped
    requires times[j] < times[i] + MINUTE
    ensures Log(times, limits)[j].outcome == Refused
  {
    LogTimes(times, limits);
    EntryIsDecision(times, limits, j);
    assert Log(times, limits)[..j][i] == Log(times, limits)[i];
  }

  /** In the log the first request at or after the end of a block is decided by the limits alone. */
  lemma LogFirstAfterBlock(times: seq<real>, limits: Limits, i: nat, j: nat)
    requires Clock(times) && i < j < |times| && Log(times, limits)[i].outcome == Tripped
    requires times[i] + MINUTE <= times[j]
    requires forall k | i < k < j :: times[k] < times[i] + MINUTE
    ensures Log(times, limits)[j].outcome == Admitted <==> limits.perMinute >= 1 && limits.burst >= 1
    ensures Log(times, limits)[j].outcome == Tripped <==> limits.perMinute < 1 || limits.burst < 1
  {
    var before, now := Log(times, limits)[..j], times[j];
    EntryIsDecision(times, limits, j);
    QuietBefore(times, limits, i, j);
    NothingRecent(before, now, MINUTE);
    SinceSince(AdmittedTimes(before), now, MINUTE, now, BURST_SPAN);
    assert Since([], now, BURST_SPAN) == [];
  }

  /** Before the first request after a block, everything admitted or tripped is a minute old. */
  lemma QuietBefore(times: seq<real>, limits: Limits, i: nat, j: nat)
    requires Clock(times) && i < j < |times| && Log(times, limits)[i].outcome == Tripped
    requires times[i] + MINUTE <= times[j]
    requires forall k | i < k < j :: times[k] < times[i] + MINUTE
    ensures var before := Log(times, limits)[..j];
            !Blocking(before, times[j]) &&
            forall k | 0 <= k < j && before[k].outcome != Refused :: before[k].time + MINUTE <= times[j]
  {
    var before := Log(times, limits)[..j];
    LogTimes(times, limits);
    EntryIsDecision(times, limits, i);
    forall k | 0 <= k < j && before[k].outcome != Refused ensures before[k].time + MINUTE <= times[j] {
      if i < k { LogBlockLasts(times, limits, i, k); }
    }
  }

  /** The gate lets the i-th request of a client through. */
  predicate Admits(times: seq<real>, limits: Limits, i: nat)
    requires i < |times|
  {
    Check(Served(times[..i], limits), times[i], limits).1
  }

  /** The i-th request of a client, not blocked itself, starts a block. */
  predicate Trips(times: seq<real>, limits: Limits, i: nat)
    requires i < |times|
  {
    times[i] >= Served(times[..i], limits).blockedUntil && !Admits(times, limits, i)
  }

  lemma LogTellsDecision(times: seq<real>, limits: Limits, i: nat)
    requires Clock(times) && i < |times|
    ensures Admits(times, limits, i) <==> Log(times, limits)[i].outcome == Admitted
    ensures Trips(times, limits, i) <==> Log(times, limits)[i].outcome == Tripped
  {
    EntryIsDecision(times, limits, i);
    LogTimes(times, limits);
    assert times[..i] + [times[i]] == times[..i + 1];
    PrunedDecidesAsLog(times[..i], times[i], limits);
  }

  /** A request that trips a limit blocks the client for the next minute, and requests during a block
      do not extend it. */
  lemma BlockLastsAMinute(times: seq<real>, limits: Limits, i: nat, j: nat)
    requires Clock(times) && i < j < |times| && Trips(times, limits, i)
    requires times[j] < times[i] + MINUTE
    ensures !Admits(times, limits, j) && !Trips(times, limits, j)
  {
    LogTellsDecision(times, limits, i);
    LogTellsDecision(times, limits, j);
    LogBlockLasts(times, limits, i, j);
  }

  /** The first request at or after the end of a block is admitted exactly when both limits are at
      least one; with a limit below one it trips again, so nothing is ever admitted. */
  lemma FirstAfterBlock(times: seq<real>, limits: Limits, i: nat, j: nat)
    requires Clock(times) && i < j < |times| && Trips(times, limits, i)
    requires times[i] + MINUTE <= times[j]
    requires forall k | i < k < j :: times[k] < times[i] + MINUTE
    ensures Admits(times, limits, j) <==> limits.perMinute >= 1 && limits.burst >= 1
    ensures Trips(times, limits, j) <==> limits.perMinute < 1 || limits.burst < 1
  {
    LogTellsDecision(times, limits, i);
    LogTellsDecision(times, limits, j);
    LogFirstAfterBlock(times, limits, i, j);
  }

  // ---- many clients ----------------------------------------------------------------------------

  datatype Request = Request(ip: string, time: real)

  function TimesOf(requests: seq<Request>, ip: string): seq<real> {
    if requests == [] then []
    else
      var earlier, r := TimesOf(requests[..|requests| - 1], ip), requests[|requests| - 1];
      if r.ip == ip then earlier + [r.time] else earlier
  }

  function RunGate(requests: seq<Request>, limits: Limits): map<string, Client> {
    if requests == [] then map[]
    else
      var r := requests[|requests| - 1];
      CheckClient(RunGate(requests[..|requests| - 1], limits), r.ip, r.time, limits).0
  }

  predicate GateClock(requests: seq<Request>) {
    (forall i | 0 <= i < |requests| :: requests[i].time >= 0.0) &&
    forall i, j | 0 <= i < j < |requests| :: requests[i].time <= requests[j].time
  }

  lemma {:induction false} ClientsAreIndependent(requests: seq<Request>, ip: string, limits: Limits)
    ensures Lookup(RunGate(requests, limits), ip) == Served(TimesOf(requests, ip), limits)
  {
    if requests != [] {
      var init, r := requests[..|requests| - 1], requests[|requests| - 1];
      ClientsAreIndependent(init, ip, limits);
      ClientsAreIndependent(init, r.ip, limits);
      if r.ip == ip {
        assert TimesOf(requests, ip)[..|TimesOf(init, ip)|] == TimesOf(init, ip);
      }
    }
  }

  lemma {:induction false} TimesOfClock(requests: seq<Request>, ip: string, bound: real)
    requires GateClock(requests) && forall i | 0 <= i < |requests| :: requests[i].time <= bound
    ensures Clock(TimesOf(requests, ip))
    ensures forall i | 0 <= i < |TimesOf(requests, ip)| :: TimesOf(requests, ip)[i] <= bound
  {
    if requests != [] {
      var init, r := requests[..|requests| - 1], requests[|requests| - 1];
      TimesOfClock(init, ip, r.time);
    }
  }

  /** In any interleaving of clients, each request is decided by that client's own full log alone. */
  lemma GateDecidesPerClient(requests: seq<Request>, r: Request, limits: Limits)
    requires GateClock(requests + [r])
    ensures CheckClient(RunGate(requests, limits), r.ip, r.time, limits).1 <==>
            Decide(Log(TimesOf(requests, r.ip), limits), r.time, limits) == Admitted
  {
    var all := requests + [r];
    assert all[|requests|] == r && forall i | 0 <= i < |requests| :: all[i] == requests[i];
    ClientsAreIndependent(requests, r.ip, limits);
    TimesOfClock(requests, r.ip, r.time);
    PrunedDecidesAsLog(TimesOf(requests, r.ip), r.time, limits);
  }

  /** The requests of one client that the gate let through in the half-open interval [from, until). */
  function AdmittedTo(requests: seq<Request>, ip: string, limits: Limits, from: real, until: real): nat {
    if requests == [] then 0
    else
      var init, r := requests[..|requests| - 1], requests[|requests| - 1];
      AdmittedTo(init, ip, limits, from, until) +
      if r.ip == ip && from <= r.time < until && CheckClient(RunGate(init, limits), ip, r.time, limits).1 then 1 else 0
  }

  lemma {:induction false} LogCountsAdmitted(requests: seq<Request>, ip: string, limits: Limits, from: real, until: real)
    requires GateClock(requests)
    ensures AdmittedTo(requests, ip, limits, from, until) == AdmittedIn(Log(TimesOf(requests, ip), limits), from, until)
  {
    if requests != [] {
      var init, r := requests[..|requests| - 1], requests[|requests| - 1];
      assert init + [r] == requests;
      LogCountsAdmitted(init, ip, limits, from, until);
      CountStep(init, r, ip, limits, from, until);
    }
  }

  lemma CountStep(init: seq<Request>, r: Request, ip: string, limits: Limits, from: real, until: real)
    requires GateClock(init + [r])
    requires AdmittedTo(init, ip, limits, from, until) == AdmittedIn(Log(TimesOf(init, ip), limits), from, until)
    ensures AdmittedTo(init + [r], ip, limits, from, until) == AdmittedIn(Log(TimesOf(init + [r], ip), limits), from, until)
  {
    RequestPush(init, r, ip, limits, from, until);
    if r.ip == ip {
      GateDecidesPerClient(init, r, limits);
      LogPush(TimesOf(init, ip), r.time, limits, from, until);
    }
  }

  lemma RequestPush(init: seq<Request>, r: Request, ip: string, limits: Limits, from: real, until: real)
    ensures TimesOf(init + [r], ip) == if r.ip == ip then TimesOf(init, ip) + [r.time] else TimesOf(init, ip)
    ensures AdmittedTo(init + [r], ip, limits, from, until) == AdmittedTo(init, ip, limits, from, until) +
            if r.ip == ip && from <= r.time < until && CheckClient(RunGate(init, limits), ip, r.time, limits).1 then 1 else 0
  {
    assert (init + [r])[..|init|] == init;
  }

  lemma LogPush(times: seq<real>, now: real, limits: Limits, from: real, until: real)
    ensures AdmittedIn(Log(times + [now], limits), from, until) == AdmittedIn(Log(times, limits), from, until) +
            if Decide(Log(times, limits), now, limits) == Admitted && from <= now < until then 1 else 0
  {
    assert (times + [now])[..|times|] == times;
    var log := Log(times, limits);
    assert Log(times + [now], limits)[..|log|] == log;
  }

  /** Over any run of the gate, other clients included, the requests of one client admitted number at
      most the per-minute limit in every half-open minute and at most the burst limit in every half-open
      five seconds, wherever the interval starts. */
  lemma AdmissionBound(requests: seq<Request>, ip: string, limits: Limits, from: real)
    requires GateClock(requests)
    ensures AdmittedTo(requests, ip, limits, from, from + MINUTE) <= AtLeastZero(limits.perMinute)
    ensures AdmittedTo(requests, ip, limits, from, from + BURST_SPAN) <= AtLeastZero(limits.burst)
  {
    LogCountsAdmitted(requests, ip, limits, from, from + MINUTE);
    LogCountsAdmitted(requests, ip, limits, from, from + BURST_SPAN);
    LogAdmissionBound(TimesOf(requests, ip), limits, from);
  }
}
