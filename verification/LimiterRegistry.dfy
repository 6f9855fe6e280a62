/** The registry that creates one token bucket per client and sweeps out idle ones
    (astrbot/dashboard/server.py, class _RateLimiterRegistry, and its use by _apply_auth_rate_limit).
    The registry is compared with one that never evicts: sweeping is unobservable exactly when an
    idle hour refills a whole burst. */
module LimiterRegistry {
  import opened TokenBucket

  const ENTRY_TTL: real := 3600.0
  const SWEEP_INTERVAL: real := 1800.0

  /** Readings of the monotonic clock made while one request is served, in the order they are made. */
  datatype Request = Request(key: string, sweepAt: real, refillClock: real, accessClock: real, acquireAt: real)

  datatype State = State(limiters: map<string, Bucket>, lastEviction: real)

  datatype Limits = Limits(capacity: int, rate: real)

  /** The limits taken from the configuration; non-positive settings fall back to one per second, burst 3. */
  function ConfiguredLimits(averageInterval: real, maxBurst: int): (limits: Limits)
    ensures limits.capacity >= 1 && limits.rate > 0.0
    ensures limits.capacity == maxBurst || (limits.capacity == 3 && maxBurst <= 0)
    ensures limits.rate * averageInterval == 1.0 || (limits.rate == 1.0 && averageInterval <= 0.0)
  {
    var interval := if averageInterval <= 0.0 then 1.0 else averageInterval;
    Limits(if maxBurst <= 0 then 3 else maxBurst, 1.0 / interval)
  }

  // ----- value-level behaviour

  function Stale(limiters: map<string, Bucket>, now: real): set<string> {
    set k | k in limiters && limiters[k].lastAccessed < now - ENTRY_TTL
  }

  function Evict(s: State, now: real): State {
    if now - s.lastEviction < SWEEP_INTERVAL then s
    else State(s.limiters - Stale(s.limiters, now), now)
  }

  function WithEntry(limiters: map<string, Bucket>, r: Request, limits: Limits): map<string, Bucket> {
    if r.key in limiters then limiters
    else limiters[r.key := NewBucket(limits.capacity, limits.rate, r.refillClock, r.accessClock)]
  }

  function LookUp(s: State, r: Request, limits: Limits): (t: State)
    ensures r.key in t.limiters
  {
    var swept := Evict(s, r.sweepAt);
    State(WithEntry(swept.limiters, r, limits), swept.lastEviction)
  }

  predicate ServeGrants(s: State, r: Request, limits: Limits) {
    Grants(LookUp(s, r, limits).limiters[r.key], r.acquireAt)
  }

  function Serve(s: State, r: Request, limits: Limits): State {
    var t := LookUp(s, r, limits);
    t.(limiters := t.limiters[r.key := AfterAcquire(t.limiters[r.key], r.acquireAt)])
  }

  /** The grant/deny answers to a sequence of requests. */
  function Answers(s: State, rs: seq<Request>, limits: Limits): (answers: seq<bool>)
    ensures |answers| == |rs|
    decreases rs
  {
    if rs == [] then []
    else [ServeGrants(s, rs[0], limits)] + Answers(Serve(s, rs[0], limits), rs[1..], limits)
  }

  function RunAll(s: State, rs: seq<Request>, limits: Limits): State
    decreases rs
  {
    if rs == [] then s else RunAll(Serve(s, rs[0], limits), rs[1..], limits)
  }

  /** A run goes on from the state the requests before have left. */
  lemma {:induction false} AnswersGoOn(s: State, rs: seq<Request>, more: seq<Request>, limits: Limits)
    ensures Answers(s, rs + more, limits) == Answers(s, rs, limits) + Answers(RunAll(s, rs, limits), more, limits)
    decreases rs
  {
    if rs == [] {
      assert rs + more == more;
    } else {
      assert (rs + more)[1..] == rs[1..] + more;
      AnswersGoOn(Serve(s, rs[0], limits), rs[1..], more, limits);
    }
  }

  // ----- the reference: a registry that never evicts

  predicate KeepGrants(m: map<string, Bucket>, r: Request, limits: Limits) {
    Grants(WithEntry(m, r, limits)[r.key], r.acquireAt)
  }

  function Keep(m: map<string, Bucket>, r: Request, limits: Limits): map<string, Bucket> {
    var t := WithEntry(m, r, limits);
    t[r.key := AfterAcquire(t[r.key], r.acquireAt)]
  }

  function KeepAnswers(m: map<string, Bucket>, rs: seq<Request>, limits: Limits): (answers: seq<bool>)
    ensures |answers| == |rs|
    decreases rs
  {
    if rs == [] then []
    else [KeepGrants(m, rs[0], limits)] + KeepAnswers(Keep(m, rs[0], limits), rs[1..], limits)
  }

  // ----- the mutable registry

  class RateLimiterRegistry {
    var limiters: map<string, AuthRateLimiter>
    var lastEviction: real

    /** No two clients share a limiter object. */
    ghost predicate Valid()
      reads this
    {
      forall j, k :: j in limiters && k in limiters && j != k ==> limiters[j] != limiters[k]
    }

    ghost function Value(): State
      reads this, limiters.Values
    {
      State(map k | k in limiters :: limiters[k].Value(), lastEviction)
    }

    constructor (now: real)
      ensures Valid() && Value() == State(map[], now)
    {
      limiters := map[];
      lastEviction := now;
    }

    method EvictExpired(now: real)
      requires Valid()
      modifies this
      ensures Valid() && Value() == Evict(old(Value()), now)
      ensures limiters.Values <= old(limiters.Values)
      ensures now - old(lastEviction) < 1800.0 ==> limiters == old(limiters) && lastEviction == old(lastEviction)
      ensures now - old(lastEviction) >= 1800.0 ==> lastEviction == now
      ensures now - old(lastEviction) >= 1800.0 ==>
        forall k :: k in limiters <==> k in old(limiters) && old(limiters)[k].lastAccessed >= now - 3600.0
      ensures forall k :: k in limiters ==> k in old(limiters) && limiters[k] == old(limiters)[k]
    {
      if now - lastEviction < SWEEP_INTERVAL {
        return;
      }
      lastEviction := now;
      var cutoff := now - ENTRY_TTL;
      var stale := set k | k in limiters && limiters[k].lastAccessed < cutoff;
      assert stale == Stale(old(Value()).limiters, now);
      limiters := limiters - stale;
      assert Value().limiters == old(Value()).limiters - stale;
    }

    method GetOrCreate(r: Request, limits: Limits) returns (limiter: AuthRateLimiter)
      requires Valid()
      modifies this
      ensures Valid() && Value() == LookUp(old(Value()), r, limits)
      ensures r.key in limiters && limiters[r.key] == limiter
      ensures limiter in old(limiters.Values) || fresh(limiter)
    {
      EvictExpired(r.sweepAt);
      if r.key in limiters {
        limiter := limiters[r.key];
      } else {
        limiter := new AuthRateLimiter(limits.capacity, limits.rate, r.refillClock, r.accessClock);
        limiters := limiters[r.key := limiter];
      }
      assert Value().limiters == LookUp(old(Value()), r, limits).limiters;
    }

    /** One rate-limited request. Nothing suspends between the lookup and the acquisition. */
    method HandleRequest(r: Request, limits: Limits) returns (granted: bool)
      requires Valid()
      modifies this, limiters.Values
      ensures Valid()
      ensures granted == ServeGrants(old(Value()), r, limits)
      ensures Value() == Serve(old(Value()), r, limits)
    {
      var limiter := GetOrCreate(r, limits);
      granted := limiter.Acquire(r.acquireAt);
      assert Value().limiters == Serve(old(Value()), r, limits).limiters;
    }
  }

  // ----- runs

  /** The clock never runs backwards, within a request and from one request to the next. */
  ghost predicate Ordered(from: real, rs: seq<Request>)
    decreases rs
  {
    rs == [] || (from <= rs[0].sweepAt <= rs[0].refillClock <= rs[0].accessClock <= rs[0].acquireAt
                 && Ordered(rs[0].acquireAt, rs[1..]))
  }

  ghost predicate ValidLimits(limits: Limits) { limits.capacity >= 1 && limits.rate > 0.0 }

  /** A bucket of the never-evicting registry at time `now`. */
  ghost predicate Steady(b: Bucket, limits: Limits, now: real) {
    Sound(b) && b.capacity == limits.capacity && b.rate == limits.rate
    && b.lastRefill == b.lastAccessed <= now
  }

  /** The evicting registry holds the same buckets, except some that are full again by now. */
  ghost predicate Simulates(s: State, m: map<string, Bucket>, limits: Limits, now: real) {
    && (forall k :: k in m ==> Steady(m[k], limits, now))
    && (forall k :: k in s.limiters ==> k in m && s.limiters[k] == m[k])
    && (forall k :: k in m && k !in s.limiters ==> Level(m[k], now) == limits.capacity as real)
  }

  lemma LevelMonotone(b: Bucket, t: real, u: real)
    requires b.rate > 0.0 && t <= u
    ensures Level(b, t) <= Level(b, u) <= b.capacity as real
  {
    GainMonotone(t - b.lastRefill, u - b.lastRefill, b.rate);
  }

  lemma SimulatesLater(s: State, m: map<string, Bucket>, limits: Limits, t: real, u: real)
    requires Simulates(s, m, limits, t) && t <= u
    ensures Simulates(s, m, limits, u)
  {
    forall k | k in m && k !in s.limiters
      ensures Level(m[k], u) == limits.capacity as real
    {
      LevelMonotone(m[k], t, u);
    }
  }

  /** A swept bucket is a full bucket. */
  lemma EvictSimulates(s: State, m: map<string, Bucket>, limits: Limits, now: real)
    requires Simulates(s, m, limits, now)
    requires ValidLimits(limits) && Gain(ENTRY_TTL, limits.rate) >= limits.capacity as real
    ensures Simulates(Evict(s, now), m, limits, now)
  {
    forall k | k in m && k !in Evict(s, now).limiters
      ensures Level(m[k], now) == limits.capacity as real
    {
      if k in s.limiters {
        GainMonotone(ENTRY_TTL, now - m[k].lastRefill, limits.rate);
      }
    }
  }

  lemma ServeSimulates(s: State, m: map<string, Bucket>, r: Request, limits: Limits)
    requires ValidLimits(limits) && Gain(ENTRY_TTL, limits.rate) >= limits.capacity as real
    requires Simulates(s, m, limits, r.sweepAt)
    requires r.sweepAt <= r.refillClock <= r.accessClock <= r.acquireAt
    ensures ServeGrants(s, r, limits) == KeepGrants(m, r, limits)
    ensures Simulates(Serve(s, r, limits), Keep(m, r, limits), limits, r.acquireAt)
  {
    EvictSimulates(s, m, limits, r.sweepAt);
    var swept := Evict(s, r.sweepAt);
    SimulatesLater(swept, m, limits, r.sweepAt, r.acquireAt);
    var mine := LookUp(s, r, limits).limiters[r.key];
    var kept := WithEntry(m, r, limits)[r.key];
    if r.key in m {
      LevelInRange(kept, r.acquireAt);
    }
    if r.key !in swept.limiters {
      GainMonotone(0.0, r.acquireAt - r.refillClock, limits.rate);
    }
    assert Level(mine, r.acquireAt) == Level(kept, r.acquireAt);
    assert AfterAcquire(mine, r.acquireAt) == AfterAcquire(kept, r.acquireAt);
  }

  lemma {:induction false} AnswersAgree(s: State, m: map<string, Bucket>, rs: seq<Request>, limits: Limits, now: real)
    requires ValidLimits(limits) && Gain(ENTRY_TTL, limits.rate) >= limits.capacity as real
    requires Simulates(s, m, limits, now) && Ordered(now, rs)
    ensures Answers(s, rs, limits) == KeepAnswers(m, rs, limits)
    decreases rs
  {
    if rs != [] {
      SimulatesLater(s, m, limits, now, rs[0].sweepAt);
      ServeSimulates(s, m, rs[0], limits);
      AnswersAgree(Serve(s, rs[0], limits), Keep(m, rs[0], limits), rs[1..], limits, rs[0].acquireAt);
    }
  }

  // ----- when an idle hour does not refill a burst, eviction shows

  function BurstAt(key: string, t: real, n: nat): seq<Request> {
    seq(n, _ => Request(key, t, t, t, t))
  }

  function GrantedIn(answers: seq<bool>): nat {
    if answers == [] then 0 else (if answers[0] then 1 else 0) + GrantedIn(answers[1..])
  }

  lemma {:induction false} BurstOrdered(key: string, t: real, n: nat, rest: seq<Request>)
    requires Ordered(t, rest)
    ensures Ordered(t, BurstAt(key, t, n) + rest)
  {
    if n == 0 {
      assert BurstAt(key, t, n) + rest == rest;
    } else {
      BurstOrdered(key, t, n - 1, rest);
      var all := BurstAt(key, t, n) + rest;
      assert all[0] == Request(key, t, t, t, t) && all[1..] == BurstAt(key, t, n - 1) + rest;
    }
  }

  /** The bucket of a burst's client with `level` tokens at time t. */
  function Holding(limits: Limits, level: int, t: real): Bucket {
    Bucket(limits.capacity, limits.rate, level as real, t, t)
  }

  lemma AcquireAtOnce(limits: Limits, level: nat, t: real)
    requires 1 <= level <= limits.capacity
    ensures Grants(Holding(limits, level, t), t)
    ensures AfterAcquire(Holding(limits, level, t), t) == Holding(limits, level - 1, t)
  {
    assert Gain(t - t, limits.rate) == 0.0;
  }

  /** One request of a burst, in both registries. */
  lemma BurstStep(limits: Limits, key: string, level: nat, t: real)
    requires 1 <= level <= limits.capacity
    ensures var r, m := Request(key, t, t, t, t), map[key := Holding(limits, level, t)];
            && ServeGrants(State(m, t), r, limits) && KeepGrants(m, r, limits)
            && Serve(State(m, t), r, limits) == State(map[key := Holding(limits, level - 1, t)], t)
            && Keep(m, r, limits) == map[key := Holding(limits, level - 1, t)]
  {
    AcquireAtOnce(limits, level, t);
    var m := map[key := Holding(limits, level, t)];
    assert m[key := Holding(limits, level - 1, t)] == map[key := Holding(limits, level - 1, t)];
  }

  /** A burst that finds enough tokens is granted whole, in both registries. */
  lemma {:induction false} BurstDrains(limits: Limits, key: string, t: real, n: nat, rest: seq<Request>, level: nat)
    requires n <= level <= limits.capacity
    ensures Answers(State(map[key := Holding(limits, level, t)], t), BurstAt(key, t, n) + rest, limits)
         == seq(n, _ => true) + Answers(State(map[key := Holding(limits, level - n, t)], t), rest, limits)
    ensures KeepAnswers(map[key := Holding(limits, level, t)], BurstAt(key, t, n) + rest, limits)
         == seq(n, _ => true) + KeepAnswers(map[key := Holding(limits, level - n, t)], rest, limits)
    decreases n
  {
    hide Serve, ServeGrants, Keep, KeepGrants, Holding, Answers, KeepAnswers;
    if n == 0 {
      assert BurstAt(key, t, n) + rest == rest;
    } else {
      var first, later := Request(key, t, t, t, t), BurstAt(key, t, n - 1) + rest;
      assert BurstAt(key, t, n) + rest == [first] + later;
      BurstStep(limits, key, level, t);
      BurstDrains(limits, key, t, n - 1, rest, level - 1);
      FirstAnswer(State(map[key := Holding(limits, level, t)], t), first, later, limits);
      var yes, more := seq(n, _ => true), seq((n - 1) as nat, _ => true);
      assert yes == [true] + more;
      hide BurstAt;
    }
  }

  lemma FirstAnswer(s: State, r: Request, rs: seq<Request>, limits: Limits)
    ensures Answers(s, [r] + rs, limits) == [ServeGrants(s, r, limits)] + Answers(Serve(s, r, limits), rs, limits)
    ensures KeepAnswers(s.limiters, [r] + rs, limits) == [KeepGrants(s.limiters, r, limits)] + KeepAnswers(Keep(s.limiters, r, limits), rs, limits)
  {
    assert ([r] + rs)[1..] == rs;
    hide Serve, ServeGrants, Keep, KeepGrants;
  }

  /** A burst at one instant never gets more grants than the level at that instant. */
  lemma {:induction false} KeepBurstWithinLevel(m: map<string, Bucket>, key: string, t: real, n: nat, limits: Limits)
    requires key in m && m[key].rate > 0.0 && Level(m[key], t) >= 0.0
    ensures GrantedIn(KeepAnswers(m, BurstAt(key, t, n), limits)) as real <= Level(m[key], t)
  {
    if n > 0 {
      var r := Request(key, t, t, t, t);
      var next := Keep(m, r, limits);
      assert BurstAt(key, t, n)[1..] == BurstAt(key, t, n - 1);
      LevelMonotone(m[key], t, t);
      assert Level(next[key], t) == next[key].tokens by {
        GainMonotone(0.0, 0.0, m[key].rate);
      }
      KeepBurstWithinLevel(next, key, t, n - 1, limits);
    }
  }

  lemma {:induction false} GrantedInAllTrue(n: nat)
    ensures GrantedIn(seq(n, _ => true)) == n
  {
    if n > 0 {
      assert seq(n, _ => true)[1..] == seq((n - 1) as nat, _ => true);
      GrantedInAllTrue(n - 1);
    }
  }

  /** A wait longer than the entry lifetime, yet too short to refill a whole burst. */
  function BetweenHourAndRefill(limits: Limits): real
    requires limits.rate > 0.0
  {
    (ENTRY_TTL + limits.capacity as real / limits.rate) / 2.0
  }

  lemma WaitIsBetween(limits: Limits)
    requires ValidLimits(limits) && Gain(ENTRY_TTL, limits.rate) < limits.capacity as real
    ensures ENTRY_TTL < BetweenHourAndRefill(limits)
    ensures Gain(BetweenHourAndRefill(limits), limits.rate) < limits.capacity as real
  {
    var n := limits.capacity as real;
    assert (n / limits.rate) * limits.rate == n;
    if n / limits.rate <= ENTRY_TTL {
      GainMonotone(n / limits.rate, ENTRY_TTL, limits.rate);
      assert false;
    }
    assert BetweenHourAndRefill(limits) * limits.rate == (ENTRY_TTL * limits.rate + (n / limits.rate) * limits.rate) / 2.0;
  }

  /** Drain a bucket, wait just over an hour, ask for a whole burst again. */
  lemma EvictionShows(limits: Limits, start: real) returns (rs: seq<Request>)
    requires ValidLimits(limits) && Gain(ENTRY_TTL, limits.rate) < limits.capacity as real
    ensures Ordered(start, rs)
    ensures Answers(State(map[], start), rs, limits) == seq(|rs|, _ => true) != KeepAnswers(map[], rs, limits)
    ensures |rs| == 2 * limits.capacity
    ensures forall i :: 0 <= i < |rs| ==> rs[i].key == "client" && start <= rs[i].acquireAt <= start + BetweenHourAndRefill(limits)
  {
    var n := limits.capacity;
    var key := "client";
    var wait := BetweenHourAndRefill(limits);
    WaitIsBetween(limits);
    var later := start + wait;
    var burst := BurstAt(key, later, n);
    rs := BurstAt(key, start, n) + burst;
    BurstOrdered(key, later, n, []);
    assert burst + [] == burst;
    assert Ordered(start, burst);
    BurstOrdered(key, start, n, burst);

    EvictingAnswers(limits, start, later);
    KeepingAnswers(limits, start, later);
  }

  /** The evicting registry grants both bursts whole: the sweep forgot that the bucket was drained. */
  lemma EvictingAnswers(limits: Limits, start: real, later: real)
    requires ValidLimits(limits) && ENTRY_TTL < later - start
    ensures var n := limits.capacity;
            Answers(State(map[], start), BurstAt("client", start, n) + BurstAt("client", later, n), limits)
              == seq(2 * n, _ => true)
  {
    var n, key := limits.capacity, "client";
    var burst := BurstAt(key, later, n);
    var first, again := Request(key, start, start, start, start), Request(key, later, later, later, later);
    // the first request of each burst creates the bucket that the others find
    SameFromFull(State(map[], start), State(map[key := Holding(limits, n, start)], start), first, BurstAt(key, start, n) + burst, limits);
    BurstDrains(limits, key, start, n, burst, n);
    var drained := State(map[key := Holding(limits, n - n, start)], start);
    assert Evict(drained, later).limiters == map[];
    SameFromFull(drained, State(map[key := Holding(limits, n, later)], later), again, burst, limits);
    assert burst + [] == burst;
    BurstDrains(limits, key, later, n, [], n);
  }

  /** The other registry cannot grant the second burst whole. */
  lemma KeepingAnswers(limits: Limits, start: real, later: real)
    requires ValidLimits(limits) && start <= later && Gain(later - start, limits.rate) < limits.capacity as real
    ensures var n := limits.capacity;
            KeepAnswers(map[], BurstAt("client", start, n) + BurstAt("client", later, n), limits)
              != seq(2 * n, _ => true)
  {
    hide Gain;
    hide Keep, KeepGrants, KeepAnswers, GrantedIn;
    var n, key := limits.capacity, "client";
    var burst := BurstAt(key, later, n);
    KeepSameFromFull(map[], map[key := Holding(limits, n, start)], Request(key, start, start, start, start), BurstAt(key, start, n) + burst, limits);
    BurstDrains(limits, key, start, n, burst, n);
    GainMonotone(0.0, later - start, limits.rate);
    var drained := map[key := Holding(limits, n - n, start)];
    KeepBurstWithinLevel(drained, key, later, n, limits);
    GrantedInAllTrue(n);
    assert Level(drained[key], later) < n as real;
    assert KeepAnswers(drained, burst, limits) != seq(n, _ => true);
    assert KeepAnswers(map[], BurstAt(key, start, n) + burst, limits)[n..] == KeepAnswers(drained, burst, limits);
    assert seq(2 * n, _ => true)[n..] == seq(n, _ => true);
  }

  /** Two registries that the first request makes equal answer alike. */
  lemma SameFromFull(s: State, t: State, r: Request, rs: seq<Request>, limits: Limits)
    requires rs != [] && rs[0] == r
    requires LookUp(s, r, limits) == LookUp(t, r, limits)
    ensures Answers(s, rs, limits) == Answers(t, rs, limits)
  {
  }

  lemma KeepSameFromFull(m: map<string, Bucket>, t: map<string, Bucket>, r: Request, rs: seq<Request>, limits: Limits)
    requires rs != [] && rs[0] == r
    requires WithEntry(m, r, limits) == WithEntry(t, r, limits)
    ensures KeepAnswers(m, rs, limits) == KeepAnswers(t, rs, limits)
  {
  }

  /** Sweeping idle buckets is unobservable, on every interleaving of clients, if and only if an
      idle hour refills a whole burst. */
  lemma EvictionUnobservableExactly(limits: Limits, start: real)
    requires ValidLimits(limits)
    ensures (forall rs :: Ordered(start, rs) ==>
              Answers(State(map[], start), rs, limits) == KeepAnswers(map[], rs, limits))
       <==> Gain(ENTRY_TTL, limits.rate) >= limits.capacity as real
  {
    if Gain(ENTRY_TTL, limits.rate) >= limits.capacity as real {
      forall rs | Ordered(start, rs)
        ensures Answers(State(map[], start), rs, limits) == KeepAnswers(map[], rs, limits)
      {
        AnswersAgree(State(map[], start), map[], rs, limits, start);
      }
    } else {
      var rs := EvictionShows(limits, start);
    }
  }

  // ----- the rate bound through eviction and recreation

  /** Granted requests of one client whose acquisition falls in [start, end]. */
  function GrantedTo(key: string, rs: seq<Request>, answers: seq<bool>, start: real, end: real): nat
    requires |answers| == |rs|
  {
    if rs == [] then 0
    else GrantedTo(key, rs[1..], answers[1..], start, end) +
         (if rs[0].key == key && answers[0] && start <= rs[0].acquireAt <= end then 1 else 0)
  }

  predicate Counts(key: string, r: Request, answer: bool, start: real, end: real) {
    r.key == key && answer && start <= r.acquireAt <= end
  }

  /** What is counted: the places of those requests, each once. */
  lemma {:induction false} GrantedToIs(key: string, rs: seq<Request>, answers: seq<bool>, start: real, end: real)
    requires |answers| == |rs|
    ensures GrantedTo(key, rs, answers, start, end) == |set i: nat | i < |rs| && Counts(key, rs[i], answers[i], start, end)|
    decreases |rs|
  {
    if rs != [] {
      var n := |rs| - 1;
      GrantedToIs(key, rs[..n], answers[..n], start, end);
      GrantedToLast(key, rs, answers, start, end);
      hide Counts;
      var places := set i: nat | i < n && Counts(key, rs[..n][i], answers[..n][i], start, end);
      var more := set i: nat | i < |rs| && Counts(key, rs[i], answers[i], start, end);
      OnePlaceMore(places, n, more);
    }
  }

  lemma {:induction false} GrantedToLast(key: string, rs: seq<Request>, answers: seq<bool>, start: real, end: real)
    requires |answers| == |rs| > 0
    ensures var n := |rs| - 1;
      GrantedTo(key, rs, answers, start, end) ==
      GrantedTo(key, rs[..n], answers[..n], start, end) + (if Counts(key, rs[n], answers[n], start, end) then 1 else 0)
    decreases |rs|
  {
    var n := |rs| - 1;
    if n > 0 {
      GrantedToLast(key, rs[1..], answers[1..], start, end);
      assert rs[1..][..n - 1] == rs[..n][1..] && answers[1..][..n - 1] == answers[..n][1..];
    }
  }

  lemma {:induction false} KeepWindowBound(key: string, m: map<string, Bucket>, rs: seq<Request>, limits: Limits,
                                           now: real, start: real, end: real)
    requires ValidLimits(limits) && start <= end && Ordered(now, rs)
    requires key in m ==> Steady(m[key], limits, now)
    ensures GrantedTo(key, rs, KeepAnswers(m, rs, limits), start, end) as real
         <= limits.capacity as real + Gain(end - start, limits.rate)
    ensures key in m && start <= m[key].lastRefill <= end ==>
      GrantedTo(key, rs, KeepAnswers(m, rs, limits), start, end) as real
        <= m[key].tokens + Gain(end - m[key].lastRefill, limits.rate)
    ensures key in m && end < m[key].lastRefill ==> GrantedTo(key, rs, KeepAnswers(m, rs, limits), start, end) == 0
    decreases rs
  {
    hide Gain;
    GainMonotone(0.0, end - start, limits.rate);
    if key in m && m[key].lastRefill <= end {
      GainMonotone(0.0, end - m[key].lastRefill, limits.rate);
    }
    if rs != [] {
      var r := rs[0];
      var next := Keep(m, r, limits);
      if r.key == key {
        KeepStep(m, r, limits);
      }
      KeepWindowBound(key, next, rs[1..], limits, r.acquireAt, start, end);
      if r.key == key {
        hide Keep, KeepGrants;
        if key in m {
          GainSplit(m[key].lastRefill, r.acquireAt, end, limits.rate);
        }
        if start <= r.acquireAt <= end {
          GainMonotone(end - r.acquireAt, end - start, limits.rate);
        }
      }
    }
  }

  /** One acquisition leaves tokens and grants together within what the bucket held and accrued. */
  lemma KeepStep(m: map<string, Bucket>, r: Request, limits: Limits)
    requires ValidLimits(limits) && r.refillClock <= r.accessClock <= r.acquireAt
    requires r.key in m ==> Steady(m[r.key], limits, r.acquireAt)
    ensures Steady(Keep(m, r, limits)[r.key], limits, r.acquireAt)
    ensures Keep(m, r, limits)[r.key].lastRefill == r.acquireAt
    ensures var spent := Keep(m, r, limits)[r.key].tokens + (if KeepGrants(m, r, limits) then 1.0 else 0.0);
            && spent <= limits.capacity as real
            && (r.key in m ==> spent <= m[r.key].tokens + Gain(r.acquireAt - m[r.key].lastRefill, limits.rate))
    ensures forall k :: k != r.key ==> (k in m <==> k in Keep(m, r, limits))
    ensures forall k :: k in m && k != r.key ==> Keep(m, r, limits)[k] == m[k]
  {
    LevelInRange(WithEntry(m, r, limits)[r.key], r.acquireAt);
  }

  lemma {:induction false} AllGrantedTo(key: string, rs: seq<Request>, answers: seq<bool>, start: real, end: real)
    requires |answers| == |rs|
    requires forall i :: 0 <= i < |rs| ==> rs[i].key == key && answers[i] && start <= rs[i].acquireAt <= end
    ensures GrantedTo(key, rs, answers, start, end) == |rs|
  {
    if rs != [] {
      AllGrantedTo(key, rs[1..], answers[1..], start, end);
    }
  }

  /** Whether one client's grants in one window of one run fit capacity + elapsed * rate. */
  ghost predicate WithinRate(key: string, rs: seq<Request>, limits: Limits, boot: real, start: real, end: real) {
    GrantedTo(key, rs, Answers(State(map[], boot), rs, limits), start, end) as real
      <= limits.capacity as real + Gain(end - start, limits.rate)
  }

  /** The rate bound holds for every client, run and window, through eviction and recreation, if and
      only if an idle hour refills a whole burst. */
  lemma RateBoundExactly(limits: Limits, boot: real)
    requires ValidLimits(limits)
    ensures (forall key, rs, start, end | Ordered(boot, rs) && start <= end ::
              WithinRate(key, rs, limits, boot, start, end))
       <==> Gain(ENTRY_TTL, limits.rate) >= limits.capacity as real
  {
    if Gain(ENTRY_TTL, limits.rate) >= limits.capacity as real {
      forall key, rs, start, end | Ordered(boot, rs) && start <= end
        ensures WithinRate(key, rs, limits, boot, start, end)
      {
        AnswersAgree(State(map[], boot), map[], rs, limits, boot);
        KeepWindowBound(key, map[], rs, limits, boot, start, end);
      }
    } else {
      var rs := EvictionShows(limits, boot);
      var wait := BetweenHourAndRefill(limits);
      WaitIsBetween(limits);
      AllGrantedTo("client", rs, seq(|rs|, _ => true), boot, boot + wait);
      assert boot + wait - boot == wait;
      assert !WithinRate("client", rs, limits, boot, boot, boot + wait);
    }
  }

  // ----- how long an idle bucket can survive

  ghost predicate SweptRecently(s: State) {
    forall k :: k in s.limiters ==> s.limiters[k].lastAccessed >= s.lastEviction - ENTRY_TTL
  }

  lemma {:induction false} RunKeepsSweptRecently(s: State, rs: seq<Request>, limits: Limits, now: real)
    requires SweptRecently(s) && s.lastEviction <= now && Ordered(now, rs)
    ensures SweptRecently(RunAll(s, rs, limits))
    ensures RunAll(s, rs, limits).lastEviction <= (if rs == [] then now else rs[|rs| - 1].acquireAt)
    decreases rs
  {
    if rs != [] {
      RunKeepsSweptRecently(Serve(s, rs[0], limits), rs[1..], limits, rs[0].acquireAt);
    }
  }

  /** After the lookup of any request of any run, no bucket in the registry has been idle for
      5400 seconds or more. */
  lemma NoLongIdleSurvivor(rs: seq<Request>, r: Request, limits: Limits, boot: real, key: string)
    requires Ordered(boot, rs + [r])
    requires key in LookUp(RunAll(State(map[], boot), rs, limits), r, limits).limiters
    ensures r.sweepAt - LookUp(RunAll(State(map[], boot), rs, limits), r, limits).limiters[key].lastAccessed
          < ENTRY_TTL + SWEEP_INTERVAL
  {
    OrderedSplit(boot, rs, r);
    RunKeepsSweptRecently(State(map[], boot), rs, limits, boot);
  }

  lemma {:induction false} OrderedSplit(from: real, rs: seq<Request>, r: Request)
    requires Ordered(from, rs + [r])
    ensures Ordered(from, rs)
    ensures (if rs == [] then from else rs[|rs| - 1].acquireAt) <= r.sweepAt <= r.refillClock <= r.accessClock <= r.acquireAt
    decreases rs
  {
    if rs != [] {
      assert (rs + [r])[1..] == rs[1..] + [r];
      OrderedSplit(rs[0].acquireAt, rs[1..], r);
    }
  }
}
