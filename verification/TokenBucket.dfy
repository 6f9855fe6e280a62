/** The per-client token bucket of the dashboard's login endpoints
    (astrbot/dashboard/server.py, class _AuthRateLimiter): the mutable object, its value-level
    specification, and an exact characterisation of which calls are granted. Clock readings are
    parameters; tokens and times are reals. */
module TokenBucket {

  datatype Bucket = Bucket(capacity: int, rate: real, tokens: real, lastRefill: real, lastAccessed: real)

  function Min(x: real, y: real): real { if x <= y then x else y }

  function NewBucket(capacity: int, rate: real, refillClock: real, accessClock: real): Bucket {
    Bucket(capacity, rate, capacity as real, refillClock, accessClock)
  }

  /** Tokens that accrue over `elapsed` seconds. */
  function Gain(elapsed: real, rate: real): real { elapsed * rate }

  lemma GainSplit(x: real, y: real, z: real, rate: real)
    ensures Gain(z - x, rate) == Gain(z - y, rate) + Gain(y - x, rate)
  {
    assert (z - x) * rate == (z - y) * rate + (y - x) * rate;
  }

  lemma GainMonotone(x: real, y: real, rate: real)
    requires x <= y && rate >= 0.0
    ensures Gain(x, rate) <= Gain(y, rate) && Gain(0.0, rate) == 0.0
  {
    assert (y - x) * rate >= 0.0;
  }

  /** The token level a call at time `now` sees, before it takes a token. */
  function Level(b: Bucket, now: real): real {
    Min(b.capacity as real, b.tokens + Gain(now - b.lastRefill, b.rate))
  }

  function Grants(b: Bucket, now: real): bool { Level(b, now) >= 1.0 }

  function AfterAcquire(b: Bucket, now: real): Bucket {
    b.(tokens := if Grants(b, now) then Level(b, now) - 1.0 else Level(b, now),
       lastRefill := now, lastAccessed := now)
  }

  class AuthRateLimiter {
    const capacity: int
    const refillRate: real
    var tokens: real
    var lastRefill: real
    var lastAccessed: real

    ghost function Value(): Bucket
      reads this
    {
      Bucket(capacity, refillRate, tokens, lastRefill, lastAccessed)
    }

    constructor (capacity: int, refillRate: real, refillClock: real, accessClock: real)
      ensures Value() == NewBucket(capacity, refillRate, refillClock, accessClock)
    {
      this.capacity := capacity;
      this.refillRate := refillRate;
      tokens := capacity as real;
      lastRefill := refillClock;
      lastAccessed := accessClock;
    }

    method Acquire(now: real) returns (ok: bool)
      modifies this
      ensures ok == Grants(old(Value()), now)
      ensures Value() == AfterAcquire(old(Value()), now)
      ensures lastRefill == lastAccessed == now
      ensures var refilled := old(tokens) + (now - old(lastRefill)) * refillRate;
        var level := if refilled <= capacity as real then refilled else capacity as real;
        (ok <==> level >= 1.0) && tokens == if ok then level - 1.0 else level
    {
      var elapsed := now - lastRefill;
      tokens := Min(capacity as real, tokens + Gain(elapsed, refillRate));
      lastRefill := now;
      lastAccessed := now;
      if tokens >= 1.0 {
        tokens := tokens - 1.0;
        return true;
      }
      return false;
    }
  }

  // ----- runs of one bucket

  /** The bucket after calls at the given times, first call first. */
  function After(b: Bucket, times: seq<real>): Bucket {
    if times == [] then b
    else AfterAcquire(After(b, times[..|times| - 1]), times[|times| - 1])
  }

  /** Whether call number n of the run is granted. */
  predicate Granted(b: Bucket, times: seq<real>, n: nat)
    requires n < |times|
  {
    Grants(After(b, times[..n]), times[n])
  }

  /** How many of the calls from..to (exclusive) are granted. */
  function GrantCount(b: Bucket, times: seq<real>, from: nat, to: nat): nat
    requires from <= to <= |times|
  {
    if from == to then 0
    else GrantCount(b, times, from, to - 1) + (if Granted(b, times, to - 1) then 1 else 0)
  }

  ghost predicate NonDecreasing(times: seq<real>) {
    forall i, j :: 0 <= i <= j < |times| ==> times[i] <= times[j]
  }

  /** A bucket as the server creates it: at least one token of burst, a positive rate, full. */
  ghost predicate Fresh(b: Bucket) {
    b.capacity >= 1 && b.rate > 0.0 && b.tokens == b.capacity as real
  }

  ghost predicate Sound(b: Bucket) {
    b.capacity >= 1 && b.rate > 0.0 && 0.0 <= b.tokens <= b.capacity as real
  }

  ghost predicate RunFrom(b: Bucket, times: seq<real>) {
    NonDecreasing(times) && (times != [] ==> b.lastRefill <= times[0])
  }

  lemma {:induction false} LevelInRange(b: Bucket, now: real)
    requires Sound(b) && b.lastRefill <= now
    ensures 0.0 <= Level(b, now) <= b.capacity as real
  {
    hide Gain;
    GainMonotone(0.0, now - b.lastRefill, b.rate);
  }

  /** Tokens stay within [0, capacity] on every run. */
  lemma {:induction false} TokensInRange(b: Bucket, times: seq<real>)
    requires Sound(b) && RunFrom(b, times)
    ensures Sound(After(b, times))
    ensures After(b, times).capacity == b.capacity && After(b, times).rate == b.rate
    ensures times != [] ==> After(b, times).lastRefill == times[|times| - 1]
  {
    hide Gain;
    if times != [] {
      var n := |times| - 1;
      TokensInRange(b, times[..n]);
      LevelInRange(After(b, times[..n]), times[n]);
    }
  }

  lemma AfterStep(b: Bucket, times: seq<real>, n: nat)
    requires n < |times|
    ensures After(b, times[..n + 1]) == AfterAcquire(After(b, times[..n]), times[n])
  {
    assert times[..n + 1][..n] == times[..n];
  }

  /** What a window that opens at call i would still allow just before call n. */
  function Allowance(b: Bucket, times: seq<real>, i: nat, n: nat): real
    requires i <= n < |times|
  {
    b.capacity as real + Gain(times[n] - times[i], b.rate) - GrantCount(b, times, i, n) as real
  }

  /** The level is at most what any window still allows. */
  lemma {:induction false} LevelAtMostAllowance(b: Bucket, times: seq<real>, i: nat, n: nat)
    requires Sound(b) && RunFrom(b, times) && i <= n < |times|
    ensures Level(After(b, times[..n]), times[n]) <= Allowance(b, times, i, n)
    decreases n
  {
    hide Gain;
    TokensInRange(b, times[..n]);
    if i == n {
      GainSplit(times[n], times[n], times[n], b.rate);
    } else {
      LevelAtMostAllowance(b, times, i, n - 1);
      AfterStep(b, times, n - 1);
      GainSplit(times[i], times[n - 1], times[n], b.rate);
    }
  }

  /** For a bucket created full, the level is exactly what the tightest window still allows. */
  lemma {:induction false} LevelIsSomeAllowance(b: Bucket, times: seq<real>, n: nat) returns (i: nat)
    requires Fresh(b) && RunFrom(b, times) && n < |times|
    ensures i <= n && Level(After(b, times[..n]), times[n]) == Allowance(b, times, i, n)
    decreases n
  {
    hide Gain;
    TokensInRange(b, times[..n]);
    var before := After(b, times[..n]);
    if Level(before, times[n]) == b.capacity as real {
      i := n;
      GainSplit(times[n], times[n], times[n], b.rate);
    } else if n == 0 {
      GainMonotone(0.0, times[0] - b.lastRefill, b.rate);
      assert false;
    } else {
      i := LevelIsSomeAllowance(b, times, n - 1);
      AfterStep(b, times, n - 1);
      GainSplit(times[i], times[n - 1], times[n], b.rate);
    }
  }

  /** The limiter is exact: call n is granted if and only if granting it keeps every window of the
      run, wherever it opened, within capacity + elapsed * rate. It neither over- nor under-admits. */
  lemma {:induction false} GrantedExactly(b: Bucket, times: seq<real>, n: nat)
    requires Fresh(b) && RunFrom(b, times) && n < |times|
    ensures Granted(b, times, n) <==> forall i: nat | i <= n :: Allowance(b, times, i, n) >= 1.0
  {
    hide Gain;
    forall i: nat | i <= n
      ensures Level(After(b, times[..n]), times[n]) <= Allowance(b, times, i, n)
    {
      LevelAtMostAllowance(b, times, i, n);
    }
    var tightest := LevelIsSomeAllowance(b, times, n);
  }

  // ----- time windows

  /** How many calls made at a time in [start, end] are granted, among the first n calls. */
  function GrantsWithin(b: Bucket, times: seq<real>, n: nat, start: real, end: real): nat
    requires n <= |times|
  {
    if n == 0 then 0
    else GrantsWithin(b, times, n - 1, start, end) +
         (if start <= times[n - 1] <= end && Granted(b, times, n - 1) then 1 else 0)
  }

  /** What is counted: the places of the granted calls, each once. */
  lemma {:induction false} GrantCountIs(b: Bucket, times: seq<real>, from: nat, n: nat)
    requires from <= n <= |times|
    ensures GrantCount(b, times, from, n) == |set i: nat | from <= i < n && Granted(b, times, i)|
    decreases n
  {
    hide Granted;
    if from < n {
      GrantCountIs(b, times, from, n - 1);
      var places := set i: nat | from <= i < n - 1 && Granted(b, times, i);
      var more := set i: nat | from <= i < n && Granted(b, times, i);
      OnePlaceMore(places, n - 1, more);
    }
  }

  lemma {:induction false} GrantsWithinIs(b: Bucket, times: seq<real>, n: nat, start: real, end: real)
    requires n <= |times|
    ensures GrantsWithin(b, times, n, start, end) == |set i: nat | i < n && start <= times[i] <= end && Granted(b, times, i)|
    decreases n
  {
    hide Granted;
    if n > 0 {
      GrantsWithinIs(b, times, n - 1, start, end);
      var places := set i: nat | i < n - 1 && start <= times[i] <= end && Granted(b, times, i);
      var more := set i: nat | i < n && start <= times[i] <= end && Granted(b, times, i);
      OnePlaceMore(places, n - 1, more);
    }
  }

  lemma OnePlaceMore(places: set<nat>, p: nat, more: set<nat>)
    requires p !in places && forall i :: i in more && i != p <==> i in places
    ensures |more| == |places| + (if p in more then 1 else 0)
  {
    assert more == places + (if p in more then {p} else {});
  }

  /** After any call in the window: tokens left plus grants so far fit the bound. */
  lemma {:induction false} WindowPotential(b: Bucket, times: seq<real>, n: nat, start: real, end: real)
    requires Sound(b) && RunFrom(b, times) && n <= |times|
    requires n > 0 ==> times[n - 1] <= end
    ensures n == 0 || times[n - 1] < start ==> GrantsWithin(b, times, n, start, end) == 0
    ensures n > 0 && start <= times[n - 1] ==>
      After(b, times[..n]).tokens + GrantsWithin(b, times, n, start, end) as real
        <= b.capacity as real + Gain(times[n - 1] - start, b.rate)
    decreases n
  {
    hide Gain;
    if n > 0 {
      WindowPotential(b, times, n - 1, start, end);
      TokensInRange(b, times[..n - 1]);
      AfterStep(b, times, n - 1);
      if start <= times[n - 1] {
        GainMonotone(0.0, times[n - 1] - start, b.rate);
        if n > 1 && start <= times[n - 2] {
          GainSplit(start, times[n - 2], times[n - 1], b.rate);
        }
      }
    }
  }

  /** In every window [start, end] of every run at most capacity + (end - start) * rate calls succeed. */
  lemma {:induction false} WindowBound(b: Bucket, times: seq<real>, n: nat, start: real, end: real)
    requires Sound(b) && RunFrom(b, times) && n <= |times| && start <= end
    ensures GrantsWithin(b, times, n, start, end) as real <= b.capacity as real + Gain(end - start, b.rate)
    decreases n
  {
    hide Gain;
    GainMonotone(0.0, end - start, b.rate);
    if n > 0 {
      if times[n - 1] > end {
        WindowBound(b, times, n - 1, start, end);
      } else {
        WindowPotential(b, times, n, start, end);
        TokensInRange(b, times[..n]);
        GainMonotone(times[n - 1] - start, end - start, b.rate);
      }
    }
  }
}
