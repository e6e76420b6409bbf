/** The dashboard proxy's fixed-window rate limiter with throttled pruning of stale buckets. */
module ProxyLimiter {
  const WINDOW_MS := 60_000

  datatype Tier = Sensitive | Standard

  function LimitOf(tier: Tier): (n: nat)
    ensures n >= 1
  {
    match tier
    case Sensitive => 20
    case Standard => 200
  }

  function TierName(tier: Tier): string {
    match tier
    case Sensitive => "sensitive"
    case Standard => "standard"
  }

  function KeyOf(tier: Tier, ip: string): string {
    TierName(tier) + ":" + ip
  }

  /** Distinct tiers or addresses never share a bucket. */
  lemma KeyInjective(t1: Tier, ip1: string, t2: Tier, ip2: string)
    ensures KeyOf(t1, ip1) == KeyOf(t2, ip2) <==> t1 == t2 && ip1 == ip2
  {
    assert KeyOf(t1, ip1)[1] == TierName(t1)[1] && KeyOf(t2, ip2)[1] == TierName(t2)[1];
    var n := |TierName(t1)| + 1;
    assert KeyOf(t1, ip1)[n..] == ip1;
    assert KeyOf(t2, ip2)[|TierName(t2)| + 1..] == ip2;
  }

  datatype Window = Window(count: int, windowStart: int)

  predicate Expired(w: Window, now: int) {
    now - w.windowStart >= WINDOW_MS
  }

  function Hit(buckets: map<string, Window>, key: string, now: int): (w: Window) {
    if key !in buckets || Expired(buckets[key], now) then Window(1, now)
    else Window(buckets[key].count + 1, buckets[key].windowStart)
  }

  /** A fresh window admits its first request without looking at the limit. */
  function Admits(buckets: map<string, Window>, key: string, now: int, limit: int): bool {
    key !in buckets || Expired(buckets[key], now) || Hit(buckets, key, now).count <= limit
  }

  function Fresh(buckets: map<string, Window>, now: int): map<string, Window> {
    map key | key in buckets && !Expired(buckets[key], now) :: buckets[key]
  }

  // ---- the limiter -----------------------------------------------------------------------------

  class Bucket {
    var count: int
    var windowStart: int

    constructor (count: int, windowStart: int)
      ensures this.count == count && this.windowStart == windowStart
    {
      this.count, this.windowStart := count, windowStart;
    }
  }

  class RateLimiter {
    var buckets: map<string, Bucket>
    var lastPrune: int

    ghost predicate Valid()
      reads this
    {
      forall a, b | a in buckets && b in buckets && a != b :: buckets[a] != buckets[b]
    }

    ghost function View(): map<string, Window>
      reads this, buckets.Values
    {
      map key | key in buckets :: Window(buckets[key].count, buckets[key].windowStart)
    }

    constructor ()
      ensures Valid() && View() == map[] && lastPrune == 0
    {
      buckets, lastPrune := map[], 0;
    }

    method RateLimit(ip: string, tier: Tier, now: int) returns (admitted: bool)
      requires Valid()
      modifies this`buckets, buckets.Values
      ensures Valid() && fresh(buckets.Values - old(buckets.Values))
      ensures admitted == Admits(old(View()), KeyOf(tier, ip), now, LimitOf(tier))
      ensures View() == old(View())[KeyOf(tier, ip) := Hit(old(View()), KeyOf(tier, ip), now)]
    {
      var key := KeyOf(tier, ip);
      if key !in buckets || now - buckets[key].windowStart >= WINDOW_MS {
        var created := new Bucket(1, now);
        assert forall k | k in buckets :: buckets[k] in old(buckets.Values);
        buckets := buckets[key := created];
        return true;
      }
      var bucket := buckets[key];
      assert bucket in buckets.Values;
      bucket.count := bucket.count + 1;
      return bucket.count <= LimitOf(tier);
    }

    /** The deletion loop. */
    method DropExpired(now: int)
      modifies this`buckets
      ensures buckets == map k | k in old(buckets) && now - old(buckets)[k].windowStart < WINDOW_MS :: old(buckets)[k]
    {
      var keys := buckets.Keys;
      while keys != {}
        invariant keys <= buckets.Keys <= old(buckets).Keys
        invariant forall k | k in buckets :: buckets[k] == old(buckets)[k]
        invariant forall k | k in old(buckets) && k !in keys ::
                    k in buckets <==> now - old(buckets)[k].windowStart < WINDOW_MS
        decreases keys
      {
        var key :| key in keys;
        if now - buckets[key].windowStart >= WINDOW_MS {
          buckets := buckets - {key};
        }
        keys := keys - {key};
      }
    }

    method PruneRateBuckets(now: int)
      requires Valid()
      modifies this
      ensures Valid() && buckets.Values <= old(buckets.Values)
      ensures View() == if now - old(lastPrune) < WINDOW_MS then old(View()) else Fresh(old(View()), now)
      ensures lastPrune == if now - old(lastPrune) < WINDOW_MS then old(lastPrune) else now
    {
      if now - lastPrune < WINDOW_MS {
        return;
      }
      lastPrune := now;
      DropExpired(now);
    }
  }

  // ---- runs ------------------------------------------------------------------------------------

  datatype Event = Prune(now: int) | Request(tier: Tier, ip: string, now: int)

  datatype State = State(buckets: map<string, Window>, lastPrune: int)

  const Start := State(map[], 0)

  function Step(s: State, e: Event): State {
    match e
    case Prune(now) =>
      if now - s.lastPrune < WINDOW_MS then s else State(Fresh(s.buckets, now), now)
    case Request(tier, ip, now) =>
      var key := KeyOf(tier, ip);
      s.(buckets := s.buckets[key := Hit(s.buckets, key, now)])
  }

  function Run(events: seq<Event>): State {
    if events == [] then Start else Step(Run(events[..|events| - 1]), events[|events| - 1])
  }

  /** The same run if nothing were ever deleted. */
  function Unpruned(events: seq<Event>): map<string, Window> {
    if events == [] then map[]
    else
      var buckets, e := Unpruned(events[..|events| - 1]), events[|events| - 1];
      if e.Prune? then buckets
      else buckets[KeyOf(e.tier, e.ip) := Hit(buckets, KeyOf(e.tier, e.ip), e.now)]
  }

  predicate Clock(events: seq<Event>) {
    forall i, j | 0 <= i < j < |events| :: events[i].now <= events[j].now
  }

  /** A bucket that pruning removed had expired, and stays expired. */
  ghost predicate SameAt(pruned: map<string, Window>, full: map<string, Window>, now: int) {
    forall key :: if key in pruned then key in full && full[key] == pruned[key]
                  else key in full ==> Expired(full[key], now)
  }

  lemma {:induction false} PruningIsInvisible(events: seq<Event>, now: int)
    requires Clock(events) && (events != [] ==> events[|events| - 1].now <= now)
    ensures SameAt(Run(events).buckets, Unpruned(events), now)
  {
    if events != [] {
      var init, e := events[..|events| - 1], events[|events| - 1];
      if init != [] { assert init[|init| - 1] == events[|init| - 1]; }
      PruningIsInvisible(init, e.now);
    }
  }

  // ---- one key's requests ----------------------------------------------------------------------

  function TimesOf(events: seq<Event>, tier: Tier, ip: string): seq<int> {
    if events == [] then []
    else
      var earlier, e := TimesOf(events[..|events| - 1], tier, ip), events[|events| - 1];
      if e.Request? && e.tier == tier && e.ip == ip then earlier + [e.now] else earlier
  }

  /** Where the window of the last request began. */
  function WindowIndex(times: seq<int>): (i: nat)
    requires times != []
    ensures i < |times|
  {
    var n := |times| - 1;
    if n == 0 || times[n] - times[WindowIndex(times[..n])] >= WINDOW_MS then n else WindowIndex(times[..n])
  }

  /** The last request is admitted when it is among the first `limit` of its window. */
  predicate Admitted(times: seq<int>, limit: nat)
    requires times != []
  {
    |times| - WindowIndex(times) <= limit
  }

  lemma {:induction false} UnprunedBucket(events: seq<Event>, tier: Tier, ip: string)
    ensures var times, buckets := TimesOf(events, tier, ip), Unpruned(events);
            (KeyOf(tier, ip) in buckets <==> times != []) &&
            (times != [] ==> buckets[KeyOf(tier, ip)] == Window(|times| - WindowIndex(times), times[WindowIndex(times)]))
  {
    if events != [] {
      var init, e := events[..|events| - 1], events[|events| - 1];
      UnprunedBucket(init, tier, ip);
      if e.Request? {
        KeyInjective(e.tier, e.ip, tier, ip);
        var times := TimesOf(init, tier, ip);
        assert (times + [e.now])[..|times|] == times;
      }
    }
  }

  /** Over any run with a non-decreasing clock the limiter, pruning included, admits a request exactly
      when it is among the first LIMIT requests of its tier and address in its window. */
  lemma DecidesByWindow(events: seq<Event>, tier: Tier, ip: string, now: int)
    requires Clock(events + [Request(tier, ip, now)])
    ensures Admits(Run(events).buckets, KeyOf(tier, ip), now, LimitOf(tier)) <==>
            Admitted(TimesOf(events, tier, ip) + [now], LimitOf(tier))
  {
    var all := events + [Request(tier, ip, now)];
    assert all[|events|].now == now && forall i | 0 <= i < |events| :: all[i] == events[i];
    PruningIsInvisible(events, now);
    UnprunedBucket(events, tier, ip);
    var times := TimesOf(events, tier, ip);
    assert (times + [now])[..|times|] == times;
    assert KeyOf(tier, ip) in Run(events).buckets || KeyOf(tier, ip) !in Run(events).buckets;
  }

  // ---- how much gets through -------------------------------------------------------------------

  predicate Ordered(times: seq<int>) {
    forall i, j | 0 <= i < j < |times| :: times[i] <= times[j]
  }

  /** Admitted requests in the half-open interval of one window length from `from`. */
  function AdmittedIn(times: seq<int>, limit: nat, from: int): nat {
    if times == [] then 0
    else
      AdmittedIn(times[..|times| - 1], limit, from) +
      if Admitted(times, limit) && from <= times[|times| - 1] < from + WINDOW_MS then 1 else 0
  }

  function Capped(n: int, limit: nat): int {
    if n < limit then n else limit
  }

  lemma {:induction false} IntervalBoundByWindow(times: seq<int>, limit: nat, from: int)
    requires Ordered(times) && limit >= 1 && times != []
    ensures var w, a := WindowIndex(times), AdmittedIn(times, limit, from);
            (times[|times| - 1] < from ==> a == 0) &&
            (times[w] < from ==> a <= Capped(|times| - w, limit) - 1) &&
            (times[w] >= from ==> a <= 2 * limit - 1) &&
            (from <= times[w] < from + WINDOW_MS ==> a <= limit - 1 + Capped(|times| - w, limit))
  {
    var init, now := times[..|times| - 1], times[|times| - 1];
    if init != [] {
      IntervalBoundByWindow(init, limit, from);
      assert init[|init| - 1] == times[|init| - 1] <= now;
    } else {
      assert AdmittedIn(init, limit, from) == 0;
    }
  }

  /** Wherever a one-minute interval starts, it admits fewer than two limits per tier and address. */
  lemma IntervalBound(times: seq<int>, limit: nat, from: int)
    requires Ordered(times) && limit >= 1
    ensures AdmittedIn(times, limit, from) <= 2 * limit - 1
  {
    if times != [] { IntervalBoundByWindow(times, limit, from); }
  }

  lemma {:induction false} TimesOrdered(events: seq<Event>, tier: Tier, ip: string, bound: int)
    requires Clock(events) && forall i | 0 <= i < |events| :: events[i].now <= bound
    ensures Ordered(TimesOf(events, tier, ip))
    ensures forall i | 0 <= i < |TimesOf(events, tier, ip)| :: TimesOf(events, tier, ip)[i] <= bound
  {
    if events != [] {
      var init, e := events[..|events| - 1], events[|events| - 1];
      TimesOrdered(init, tier, ip, e.now);
    }
  }

  /** The requests of one tier and address that the limiter itself let through, pruning included, in the
      half-open interval of one window length from `from`. */
  function Passed(events: seq<Event>, tier: Tier, ip: string, from: int): nat {
    if events == [] then 0
    else
      var init, e := events[..|events| - 1], events[|events| - 1];
      Passed(init, tier, ip, from) +
      if e == Request(tier, ip, e.now) && from <= e.now < from + WINDOW_MS &&
         Admits(Run(init).buckets, KeyOf(tier, ip), e.now, LimitOf(tier)) then 1 else 0
  }

  lemma {:induction false} PassedIsAdmitted(events: seq<Event>, tier: Tier, ip: string, from: int)
    requires Clock(events)
    ensures Passed(events, tier, ip, from) == AdmittedIn(TimesOf(events, tier, ip), LimitOf(tier), from)
  {
    if events != [] {
      var init, e := events[..|events| - 1], events[|events| - 1];
      PassedIsAdmitted(init, tier, ip, from);
      assert init + [e] == events;
      EventPush(init, e, tier, ip, from);
      if e == Request(tier, ip, e.now) {
        DecidesByWindow(init, tier, ip, e.now);
        TimePush(TimesOf(init, tier, ip), e.now, LimitOf(tier), from);
      }
    }
  }

  lemma EventPush(init: seq<Event>, e: Event, tier: Tier, ip: string, from: int)
    ensures TimesOf(init + [e], tier, ip) ==
            if e == Request(tier, ip, e.now) then TimesOf(init, tier, ip) + [e.now] else TimesOf(init, tier, ip)
    ensures Passed(init + [e], tier, ip, from) == Passed(init, tier, ip, from) +
            if e == Request(tier, ip, e.now) && from <= e.now < from + WINDOW_MS &&
               Admits(Run(init).buckets, KeyOf(tier, ip), e.now, LimitOf(tier)) then 1 else 0
  {
    assert (init + [e])[..|init|] == init;
  }

  lemma TimePush(times: seq<int>, now: int, limit: nat, from: int)
    ensures AdmittedIn(times + [now], limit, from) == AdmittedIn(times, limit, from) +
            if Admitted(times + [now], limit) && from <= now < from + WINDOW_MS then 1 else 0
  {
    assert (times + [now])[..|times|] == times;
  }

  /** Over any run of the limiter with a non-decreasing clock, wherever a one-minute interval starts, it
      admits fewer than two limits per tier and address. */
  lemma RunBound(events: seq<Event>, tier: Tier, ip: string, from: int)
    requires Clock(events)
    ensures Passed(events, tier, ip, from) <= 2 * LimitOf(tier) - 1
  {
    PassedIsAdmitted(events, tier, ip, from);
    if events != [] { TimesOrdered(events, tier, ip, events[|events| - 1].now); }
    IntervalBound(TimesOf(events, tier, ip), LimitOf(tier), from);
  }

  function Repeat(n: nat, t: int): seq<int> {
    seq(n, _ => t)
  }

  /** One early request, the rest of its window at the last millisecond, the next window at once. */
  function Surge(limit: nat, n: nat): (times: seq<int>)
    requires 1 <= limit && n <= limit
  {
    [0] + Repeat(limit - 1, WINDOW_MS - 1) + Repeat(n, WINDOW_MS)
  }

  lemma {:induction false} FirstWindow(n: nat, limit: nat)
    requires n < limit
    ensures var times := [0] + Repeat(n, WINDOW_MS - 1);
            WindowIndex(times) == 0 && AdmittedIn(times, limit, 1) == n
  {
    var times := [0] + Repeat(n, WINDOW_MS - 1);
    if n > 0 {
      FirstWindow(n - 1, limit);
      assert times[..n] == [0] + Repeat(n - 1, WINDOW_MS - 1);
    }
  }

  lemma SurgeIsOrdered(limit: nat, n: nat)
    requires 1 <= limit && n <= limit
    ensures Ordered(Surge(limit, n))
  {
  }

  lemma {:induction false} SurgePasses(limit: nat, n: nat)
    requires 1 <= limit && n <= limit
    ensures Ordered(Surge(limit, n)) && AdmittedIn(Surge(limit, n), limit, 1) == limit - 1 + n
    ensures WindowIndex(Surge(limit, n)) == if n == 0 then 0 else limit
  {
    SurgeIsOrdered(limit, n);
    var times := Surge(limit, n);
    if n == 0 {
      FirstWindow(limit - 1, limit);
      assert times == [0] + Repeat(limit - 1, WINDOW_MS - 1);
    } else {
      SurgePasses(limit, n - 1);
      assert times[..|times| - 1] == Surge(limit, n - 1);
      assert times[limit] == WINDOW_MS && Surge(limit, n - 1)[0] == 0;
    }
  }

  /** One client's requests at these times. */
  function Requests(times: seq<int>, tier: Tier, ip: string): (events: seq<Event>)
    ensures |events| == |times| && forall i | 0 <= i < |times| :: events[i] == Request(tier, ip, times[i])
  {
    seq(|times|, i requires 0 <= i < |times| => Request(tier, ip, times[i]))
  }

  lemma {:induction false} TimesOfRequests(times: seq<int>, tier: Tier, ip: string)
    ensures TimesOf(Requests(times, tier, ip), tier, ip) == times
  {
    if times != [] {
      var init := times[..|times| - 1];
      TimesOfRequests(init, tier, ip);
      assert Requests(times, tier, ip)[..|init|] == Requests(init, tier, ip);
      assert times == init + [times[|times| - 1]];
    }
  }

  /** The bound is reached: for every tier and address there is a run of the limiter that lets
      2 * LIMIT - 1 requests through between milliseconds 1 and 60000. */
  lemma BoundIsTight(tier: Tier, ip: string) returns (events: seq<Event>)
    ensures Clock(events) && Passed(events, tier, ip, 1) == 2 * LimitOf(tier) - 1
  {
    var times := Surge(LimitOf(tier), LimitOf(tier));
    events := Requests(times, tier, ip);
    SurgePasses(LimitOf(tier), LimitOf(tier));
    TimesOfRequests(times, tier, ip);
    PassedIsAdmitted(events, tier, ip, 1);
  }
}
