/** The in-memory token bucket, with and without eviction of idle buckets. */
module RateLimit {
  import opened Wrappers

  // Instants are nanoseconds on the process clock, which never runs backwards.
  const SECOND: int := 1_000_000_000
  const EVICT_INTERVAL: int := 300 * SECOND
  const IDLE_LIMIT: int := 600 * SECOND

  datatype Bucket = Bucket(tokens: real, last: int)

  /** `perMinute` tokens flow in each minute, and at most `burst` are kept. */
  datatype Config = Config(perMinute: nat, burst: nat)

  /** The tokens gained in a stretch of time. */
  function Gain(c: Config, elapsed: int): real {
    elapsed as real / SECOND as real * (c.perMinute as real / 60.0)
  }

  /** So many tokens a minute. */
  lemma GainPerMinute(c: Config, elapsed: int)
    ensures Gain(c, elapsed) == c.perMinute as real * (elapsed as real / 60_000_000_000.0)
  {
    var seconds, r := elapsed as real / SECOND as real, c.perMinute as real;
    assert elapsed as real / 60_000_000_000.0 == seconds / 60.0;
  }

  function Refill(c: Config, b: Bucket, now: int): real {
    var t := b.tokens + Gain(c, now - b.last);
    if t > c.burst as real then c.burst as real else t
  }

  datatype Outcome = Outcome(bucket: Bucket, allowed: bool)

  /** One call on one key's bucket; a new key starts full. */
  function Take(c: Config, b: Option<Bucket>, now: int): Outcome {
    match b
    case None => Outcome(Bucket(c.burst as real - 1.0, now), true)
    case Some(b) =>
      var t := Refill(c, b, now);
      if t >= 1.0 then Outcome(Bucket(t - 1.0, now), true) else Outcome(Bucket(t, now), false)
  }

  function Find(buckets: map<string, Bucket>, key: string): Option<Bucket> {
    if key in buckets then Some(buckets[key]) else None
  }

  /** The buckets used in the last ten minutes. */
  function Evicted(buckets: map<string, Bucket>, now: int): map<string, Bucket> {
    map key | key in buckets && buckets[key].last >= now - IDLE_LIMIT :: buckets[key]
  }

  datatype Limiter = Limiter(buckets: map<string, Bucket>, lastEvict: int)

  function Start(now: int): Limiter {
    Limiter(map[], now)
  }

  datatype Step = Step(next: Limiter, allowed: bool)

  /** One call; `sweeps` says whether idle buckets are swept at all. */
  function Allow(c: Config, l: Limiter, key: string, now: int, sweeps: bool): Step {
    var due := sweeps && now - l.lastEvict > EVICT_INTERVAL;
    var kept := if due then Evicted(l.buckets, now) else l.buckets;
    var r := Take(c, Find(kept, key), now);
    Step(Limiter(kept[key := r.bucket], if due then now else l.lastEvict), r.allowed)
  }

  // ---------- the limiter object ----------

  class RateLimiter {
    const config: Config
    var buckets: map<string, Bucket>
    var lastEvict: int

    ghost function Contents(): Limiter
      reads this
    {
      Limiter(buckets, lastEvict)
    }

    constructor (perMinute: nat, burst: nat, now: int)
      ensures config == Config(perMinute, burst) && Contents() == Start(now)
    {
      config := Config(perMinute, burst);
      buckets := map[];
      lastEvict := now;
    }

    /** Removes the buckets that were not used in the last ten minutes. */
    method EvictIdle(now: int)
      modifies this
      ensures buckets == Evicted(old(buckets), now) && lastEvict == old(lastEvict)
    {
      var cutoff := now - IDLE_LIMIT;
      var todo := buckets.Keys;
      ghost var was := buckets;
      while todo != {}
        invariant todo <= was.Keys && lastEvict == old(lastEvict)
        invariant forall k :: k in buckets <==> k in was && (k in todo || was[k].last >= cutoff)
        invariant forall k :: k in buckets ==> buckets[k] == was[k]
        decreases todo
      {
        var k :| k in todo;
        todo := todo - {k};
        if buckets[k].last < cutoff {
          buckets := buckets - {k};
        }
      }
      assert buckets == Evicted(was, now);
    }

    /** Reports whether an action for `key` may proceed, consuming one token if so. */
    method AllowKey(key: string, now: int) returns (allowed: bool)
      modifies this
      ensures Step(Contents(), allowed) == Allow(config, old(Contents()), key, now, true)
    {
      if now - lastEvict > EVICT_INTERVAL {
        EvictIdle(now);
        lastEvict := now;
      }
      if key !in buckets {
        buckets := buckets[key := Bucket(config.burst as real - 1.0, now)];
        return true;
      }
      var b := buckets[key];
      var tokens := b.tokens + Gain(config, now - b.last);
      if tokens > config.burst as real {
        tokens := config.burst as real;
      }
      if tokens >= 1.0 {
        buckets := buckets[key := Bucket(tokens - 1.0, now)];
        return true;
      }
      buckets := buckets[key := Bucket(tokens, now)];
      return false;
    }
  }

  // ---------- runs ----------

  datatype Call = Call(key: string, now: int)

  /** The answers to a sequence of calls. */
  function Answers(c: Config, l: Limiter, calls: seq<Call>, sweeps: bool): (r: seq<bool>)
    ensures |r| == |calls|
    decreases |calls|
  {
    if calls == [] then []
    else
      var s := Allow(c, l, calls[0].key, calls[0].now, sweeps);
      [s.allowed] + Answers(c, s.next, calls[1..], sweeps)
  }

  /** Time never runs backwards, from `from` on. */
  ghost predicate Monotone(from: int, calls: seq<Call>) {
    && (forall i :: 0 <= i < |calls| ==> from <= calls[i].now)
    && (forall i, j :: 0 <= i < j < |calls| ==> calls[i].now <= calls[j].now)
  }

  lemma MonotoneTail(from: int, calls: seq<Call>)
    requires Monotone(from, calls) && calls != []
    ensures Monotone(calls[0].now, calls[1..]) && from <= calls[0].now
  {
    forall i | 0 <= i < |calls| - 1 ensures calls[0].now <= calls[1..][i].now {
      assert calls[1..][i] == calls[i + 1];
    }
  }

  // ---------- eviction is invisible ----------

  /** A bucket is full again by the first instant at which it can be swept. */
  ghost predicate RefillsInTime(c: Config) {
    c.burst >= 1 && Gain(c, IDLE_LIMIT + 1) >= c.burst as real
  }

  /** So it is when ten minutes' worth of tokens reaches the burst. */
  lemma RefillsInTenMinutes(c: Config)
    requires c.burst >= 1 && 10 * c.perMinute >= c.burst
    ensures RefillsInTime(c)
  {
    GainInTenMinutes(c);
    GainMonotone(c, IDLE_LIMIT, IDLE_LIMIT + 1);
  }

  /** The limiter of the sign-in routes, then those of the content routes, in the order they are configured. */
  const CONFIGURED_LIMITS: seq<Config> :=
    [Config(20, 10),
     Config(30, 10), Config(60, 20), Config(60, 30), Config(30, 20), Config(600, 300), Config(30, 15),
     Config(30, 15), Config(20, 10), Config(20, 10), Config(30, 15), Config(20, 10)]

  lemma GainMonotone(c: Config, a: int, b: int)
    requires a <= b
    ensures Gain(c, a) <= Gain(c, b)
  {
    var x, y := a as real / SECOND as real, b as real / SECOND as real;
    assert x <= y;
    var r := c.perMinute as real / 60.0;
  }

  lemma GainSplit(c: Config, a: int, b: int)
    ensures Gain(c, a + b) == Gain(c, a) + Gain(c, b)
  {
    var r := c.perMinute as real / 60.0;
    var x, y := a as real / SECOND as real, b as real / SECOND as real;
    assert (a + b) as real / SECOND as real == x + y;
    assert (x + y) * r == x * r + y * r;
  }

  lemma GainInTenMinutes(c: Config)
    ensures Gain(c, IDLE_LIMIT) == 10.0 * c.perMinute as real
    ensures Gain(c, 0) == 0.0
  {
  }

  lemma IdleRefills(c: Config, b: Bucket, now: int)
    requires RefillsInTime(c) && b.tokens >= 0.0 && b.last < now - IDLE_LIMIT
    ensures Refill(c, b, now) == c.burst as real
    ensures Take(c, Some(b), now) == Take(c, None, now)
  {
    hide Gain;
    GainMonotone(c, IDLE_LIMIT + 1, now - b.last);
  }

  /**
   The limiter that sweeps has some of the buckets of the one that does not; a bucket only the
   latter has was idle for ten minutes by `now`.
   */
  ghost predicate Shadows(c: Config, swept: Limiter, full: Limiter, now: int) {
    && (forall k :: k in full.buckets ==> full.buckets[k].tokens >= 0.0 && full.buckets[k].last <= now)
    && (forall k :: k in swept.buckets ==> k in full.buckets && swept.buckets[k] == full.buckets[k])
    && (forall k :: k in full.buckets && k !in swept.buckets ==> full.buckets[k].last < now - IDLE_LIMIT)
  }

  lemma TakeKeepsTokens(c: Config, b: Option<Bucket>, now: int)
    requires c.burst >= 1 && (b.Some? ==> b.value.tokens >= 0.0 && b.value.last <= now)
    ensures Take(c, b, now).bucket.tokens >= 0.0 && Take(c, b, now).bucket.last == now
  {
    if b.Some? {
      GainMonotone(c, 0, now - b.value.last);
      GainInTenMinutes(c);
    }
  }

  lemma SameAnswer(c: Config, swept: Limiter, full: Limiter, key: string, then': int, now: int)
    requires RefillsInTime(c) && then' <= now && Shadows(c, swept, full, then')
    ensures
      var a, b := Allow(c, swept, key, now, true), Allow(c, full, key, now, false);
      a.allowed == b.allowed && Shadows(c, a.next, b.next, now)
  {
    hide Take, Gain, Refill;
    var due := now - swept.lastEvict > EVICT_INTERVAL;
    var kept := if due then Evicted(swept.buckets, now) else swept.buckets;
    TakeKeepsTokens(c, Find(full.buckets, key), now);
    if key in full.buckets && key !in kept {
      IdleRefills(c, full.buckets[key], now);
    }
  }

  lemma {:induction false} SweepInvisibleFrom(c: Config, swept: Limiter, full: Limiter, from: int, calls: seq<Call>)
    requires RefillsInTime(c) && Shadows(c, swept, full, from) && Monotone(from, calls)
    ensures Answers(c, swept, calls, true) == Answers(c, full, calls, false)
    decreases |calls|
  {
    hide Allow, Shadows, Monotone;
    if calls != [] {
      var call := calls[0];
      MonotoneTail(from, calls);
      SameAnswer(c, swept, full, call.key, from, call.now);
      var a, b := Allow(c, swept, call.key, call.now, true), Allow(c, full, call.key, call.now, false);
      SweepInvisibleFrom(c, a.next, b.next, call.now, calls[1..]);
    }
  }

  /** When buckets refill in time, a limiter that sweeps answers every sequence of calls like one that does not. */
  lemma {:induction false} SweepInvisible(c: Config, start: int, calls: seq<Call>)
    requires RefillsInTime(c) && Monotone(start, calls)
    ensures Answers(c, Start(start), calls, true) == Answers(c, Start(start), calls, false)
  {
    SweepInvisibleFrom(c, Start(start), Start(start), start, calls);
  }

  lemma {:induction false} ConfiguredSweepInvisible(i: nat, start: int, calls: seq<Call>)
    requires i < |CONFIGURED_LIMITS| && Monotone(start, calls)
    ensures
      var c := CONFIGURED_LIMITS[i];
      Answers(c, Start(start), calls, true) == Answers(c, Start(start), calls, false)
  {
    RefillsInTenMinutes(CONFIGURED_LIMITS[i]);
    SweepInvisible(CONFIGURED_LIMITS[i], start, calls);
  }

  // ---------- and visible when buckets do not refill in time ----------

  function After(c: Config, l: Limiter, calls: seq<Call>, sweeps: bool): Limiter
    decreases |calls|
  {
    if calls == [] then l
    else After(c, Allow(c, l, calls[0].key, calls[0].now, sweeps).next, calls[1..], sweeps)
  }

  lemma {:induction false} AnswersAppend(c: Config, l: Limiter, a: seq<Call>, b: seq<Call>, sweeps: bool)
    ensures Answers(c, l, a + b, sweeps) == Answers(c, l, a, sweeps) + Answers(c, After(c, l, a, sweeps), b, sweeps)
    decreases |a|
  {
    hide Allow;
    if a == [] {
      assert a + b == b;
    } else {
      AnswersAppend(c, Allow(c, l, a[0].key, a[0].now, sweeps).next, a[1..], b, sweeps);
      assert (a + b)[1..] == a[1..] + b;
    }
  }

  /** The tokens a call would find. */
  function Avail(c: Config, b: Option<Bucket>, now: int): real {
    match b
    case None => c.burst as real
    case Some(b) => Refill(c, b, now)
  }

  lemma TakeAvail(c: Config, b: Option<Bucket>, now: int)
    requires c.burst >= 1
    ensures Take(c, b, now).allowed == (Avail(c, b, now) >= 1.0)
    ensures Avail(c, Some(Take(c, b, now).bucket), now)
         == Avail(c, b, now) - if Take(c, b, now).allowed then 1.0 else 0.0
  {
    hide Gain;
    GainInTenMinutes(c);
  }

  function Burst(key: string, now: int, n: nat): seq<Call> {
    seq(n, _ => Call(key, now))
  }

  lemma BurstTail(key: string, now: int, n: nat)
    requires n > 0
    ensures Burst(key, now, n)[0] == Call(key, now) && Burst(key, now, n)[1..] == Burst(key, now, n - 1)
  {
  }

  /** The first call of a burst, and the state it leaves. */
  lemma {:induction false} BurstStep(c: Config, l: Limiter, key: string, now: int, n: nat, sweeps: bool)
    requires c.burst >= 1 && n > 0 && (sweeps ==> now - l.lastEvict <= EVICT_INTERVAL)
    ensures
      var s := Allow(c, l, key, now, sweeps);
      var t := Avail(c, Find(l.buckets, key), now);
      && s.allowed == (t >= 1.0) && s.next.lastEvict == l.lastEvict
      && Avail(c, Find(s.next.buckets, key), now) == t - (if s.allowed then 1.0 else 0.0)
      && Answers(c, l, Burst(key, now, n), sweeps) == [s.allowed] + Answers(c, s.next, Burst(key, now, n - 1), sweeps)
      && After(c, l, Burst(key, now, n), sweeps) == After(c, s.next, Burst(key, now, n - 1), sweeps)
  {
    hide Avail, Take;
    BurstTail(key, now, n);
    TakeAvail(c, Find(l.buckets, key), now);
  }

  /** A burst of calls is answered as far as the tokens go. */
  lemma {:induction false} BurstAllowed(c: Config, l: Limiter, key: string, now: int, n: nat, sweeps: bool)
    requires c.burst >= 1 && (sweeps ==> now - l.lastEvict <= EVICT_INTERVAL)
    requires Avail(c, Find(l.buckets, key), now) >= n as real
    ensures forall i :: 0 <= i < n ==> Answers(c, l, Burst(key, now, n), sweeps)[i]
    ensures Avail(c, Find(After(c, l, Burst(key, now, n), sweeps).buckets, key), now)
         == Avail(c, Find(l.buckets, key), now) - n as real
    decreases n
  {
    hide Avail, Allow;
    if n > 0 {
      BurstStep(c, l, key, now, n, sweeps);
      BurstAllowed(c, Allow(c, l, key, now, sweeps).next, key, now, n - 1, sweeps);
    }
  }

  lemma {:induction false} BurstRefused(c: Config, l: Limiter, key: string, now: int, n: nat, sweeps: bool)
    requires c.burst >= 1 && (sweeps ==> now - l.lastEvict <= EVICT_INTERVAL)
    requires n > 0 && Avail(c, Find(l.buckets, key), now) < n as real
    ensures exists i :: 0 <= i < n && !Answers(c, l, Burst(key, now, n), sweeps)[i]
    decreases n
  {
    hide Avail, Allow;
    var s := Allow(c, l, key, now, sweeps);
    BurstStep(c, l, key, now, n, sweeps);
    var answers := Answers(c, l, Burst(key, now, n), sweeps);
    if s.allowed {
      BurstRefused(c, s.next, key, now, n - 1, sweeps);
      var rest := Answers(c, s.next, Burst(key, now, n - 1), sweeps);
      var i :| 0 <= i < n - 1 && !rest[i];
      assert answers[i + 1] == rest[i];
    } else {
      assert !answers[0];
    }
  }

  /** A drained key, called again in a burst just after it can be swept. */
  function Probe(c: Config, key: string, start: int): seq<Call> {
    var n := if c.burst >= 1 then c.burst else 1;
    Burst(key, start, n) + Burst(key, start + IDLE_LIMIT + 1, n)
  }

  lemma ProbeMonotone(c: Config, key: string, start: int)
    ensures Monotone(start, Probe(c, key, start))
  {
  }

  lemma {:induction false} BurstBuckets(c: Config, l: Limiter, key: string, now: int, n: nat, sweeps: bool)
    requires sweeps ==> now - l.lastEvict <= EVICT_INTERVAL
    requires forall k :: k in l.buckets ==> k == key && l.buckets[k].last == now
    ensures
      var e := After(c, l, Burst(key, now, n), sweeps);
      && e.lastEvict == l.lastEvict
      && (forall k :: k in e.buckets ==> k == key && e.buckets[k].last == now)
      && (n > 0 ==> key in e.buckets)
    decreases n
  {
    if n > 0 {
      BurstTail(key, now, n);
      var s := Allow(c, l, key, now, sweeps);
      BurstBuckets(c, s.next, key, now, n - 1, sweeps);
      if n == 1 {
        assert Burst(key, now, 0) == [];
      }
    }
  }

  /** A limiter whose only bucket is swept goes on like a new one. */
  lemma {:induction false} SweptIsNew(c: Config, l: Limiter, calls: seq<Call>)
    requires calls != [] && calls[0].now - l.lastEvict > EVICT_INTERVAL
    requires forall k :: k in l.buckets ==> l.buckets[k].last < calls[0].now - IDLE_LIMIT
    ensures Answers(c, l, calls, true) == Answers(c, Start(calls[0].now), calls, true)
  {
    assert Evicted(l.buckets, calls[0].now) == map[];
  }

  lemma {:induction false} ProbeTells(c: Config, key: string, start: int)
    requires c.burst >= 1 && !RefillsInTime(c)
    ensures Answers(c, Start(start), Probe(c, key, start), true)
         != Answers(c, Start(start), Probe(c, key, start), false)
  {
    hide Answers, After, Gain;
    var n, later := c.burst, start + IDLE_LIMIT + 1;
    var l := Start(start);
    var first, second := Burst(key, start, n), Burst(key, later, n);
    AnswersAppend(c, l, first, second, true);
    AnswersAppend(c, l, first, second, false);
    BurstAllowed(c, l, key, start, n, false);
    BurstBuckets(c, l, key, start, n, true);
    BurstBuckets(c, l, key, start, n, false);
    SweptIsNew(c, After(c, l, first, true), second);
    BurstAllowed(c, Start(later), key, later, n, true);
    var full := After(c, l, first, false);
    DrainedRefills(c, full.buckets[key], start, later);
    BurstRefused(c, full, key, later, n, false);
    var i :| 0 <= i < n && !Answers(c, full, second, false)[i];
    assert Answers(c, l, first + second, true)[n + i];
    assert !Answers(c, l, first + second, false)[n + i];
  }

  lemma DrainedRefills(c: Config, b: Bucket, start: int, later: int)
    requires c.burst >= 1 && !RefillsInTime(c) && later == start + IDLE_LIMIT + 1
    requires b.last == start && Refill(c, b, start) == 0.0
    ensures Refill(c, b, later) < c.burst as real
  {
    hide Gain;
    GainInTenMinutes(c);
  }

  /** With no burst at all a new key still gets one call, so sweeping a key gives it another. */
  lemma {:induction false} NoBurstTells(c: Config, key: string, start: int)
    requires c.burst == 0
    ensures Answers(c, Start(start), Probe(c, key, start), true)
         != Answers(c, Start(start), Probe(c, key, start), false)
  {
    hide Answers, After, Gain;
    var later := start + IDLE_LIMIT + 1;
    var l := Start(start);
    var first, second := Burst(key, start, 1), Burst(key, later, 1);
    AnswersAppend(c, l, first, second, true);
    AnswersAppend(c, l, first, second, false);
    BurstBuckets(c, l, key, start, 1, true);
    BurstBuckets(c, l, key, start, 1, false);
    SweptIsNew(c, After(c, l, first, true), second);
    OneAnswer(c, Start(later), key, later, true);
    OneAnswer(c, After(c, l, first, false), key, later, false);
    assert Answers(c, l, first + second, true)[1];
    assert !Answers(c, l, first + second, false)[1];
  }

  lemma {:induction false} OneAnswer(c: Config, l: Limiter, key: string, now: int, sweeps: bool)
    ensures Answers(c, l, Burst(key, now, 1), sweeps) == [Allow(c, l, key, now, sweeps).allowed]
  {
    BurstTail(key, now, 1);
  }

  /** Eviction is invisible to every sequence of calls exactly when buckets refill in time. */
  lemma {:induction false} SweepInvisibleIff(c: Config, start: int)
    ensures (forall calls :: Monotone(start, calls) ==>
               Answers(c, Start(start), calls, true) == Answers(c, Start(start), calls, false))
       <==> RefillsInTime(c)
  {
    hide Answers, Monotone;
    if RefillsInTime(c) {
      forall calls | Monotone(start, calls)
        ensures Answers(c, Start(start), calls, true) == Answers(c, Start(start), calls, false)
      {
        SweepInvisible(c, start, calls);
      }
    } else {
      ProbeMonotone(c, "key", start);
      if c.burst >= 1 {
        ProbeTells(c, "key", start);
      } else {
        NoBurstTells(c, "key", start);
      }
    }
  }

  // ---------- the bound on any window ----------

  /** How many of the calls for `key` are allowed. */
  function AllowedFor(calls: seq<Call>, answers: seq<bool>, key: string): nat
    requires |calls| == |answers|
  {
    if calls == [] then 0
    else (if calls[0].key == key && answers[0] then 1 else 0) + AllowedFor(calls[1..], answers[1..], key)
  }

  lemma AvailGrows(c: Config, b: Option<Bucket>, from: int, now: int, end: int)
    requires from <= now <= end && (b.Some? ==> b.value.last <= from)
    ensures Avail(c, b, now) + Gain(c, end - now) <= Avail(c, b, from) + Gain(c, end - from)
  {
    hide Gain;
    GainSplit(c, now - from, end - now);
    GainMonotone(c, 0, now - from);
    GainInTenMinutes(c);
    if b.Some? {
      GainSplit(c, from - b.value.last, now - from);
    }
  }

  lemma {:induction false} BoundFrom(c: Config, l: Limiter, from: int, end: int, calls: seq<Call>, key: string)
    requires c.burst >= 1 && Monotone(from, calls) && from <= end
    requires forall i :: 0 <= i < |calls| ==> calls[i].now <= end
    requires key in l.buckets ==> l.buckets[key].last <= from && l.buckets[key].tokens >= 0.0
    ensures AllowedFor(calls, Answers(c, l, calls, false), key) as real
         <= Avail(c, Find(l.buckets, key), from) + Gain(c, end - from)
    decreases |calls|
  {
    hide Gain, Monotone, Avail, Take;
    var b := Find(l.buckets, key);
    if calls == [] {
      AvailPositive(c, b, from, end);
    } else {
      var call := calls[0];
      MonotoneTail(from, calls);
      var s := Allow(c, l, call.key, call.now, false);
      AvailGrows(c, b, from, call.now, end);
      TakeKeepsTokens(c, b, call.now);
      TakeAvail(c, b, call.now);
      BoundFrom(c, s.next, call.now, end, calls[1..], key);
      var answers := Answers(c, l, calls, false);
      assert answers[1..] == Answers(c, s.next, calls[1..], false);
    }
  }

  lemma AvailPositive(c: Config, b: Option<Bucket>, from: int, end: int)
    requires from <= end && (b.Some? ==> b.value.last <= from && b.value.tokens >= 0.0)
    ensures Avail(c, b, from) + Gain(c, end - from) >= 0.0
    ensures Avail(c, b, from) <= c.burst as real
  {
    hide Gain;
    GainInTenMinutes(c);
    GainMonotone(c, 0, end - from);
    if b.Some? {
      GainMonotone(c, 0, from - b.value.last);
    }
  }

  lemma {:induction false} AfterKeepsBucket(c: Config, l: Limiter, from: int, end: int, calls: seq<Call>, key: string)
    requires c.burst >= 1 && Monotone(from, calls) && from <= end
    requires forall i :: 0 <= i < |calls| ==> calls[i].now <= end
    requires key in l.buckets ==> l.buckets[key].last <= from && l.buckets[key].tokens >= 0.0
    ensures
      var e := After(c, l, calls, false);
      key in e.buckets ==> e.buckets[key].last <= end && e.buckets[key].tokens >= 0.0
    decreases |calls|
  {
    hide Monotone, Take;
    if calls != [] {
      var call := calls[0];
      MonotoneTail(from, calls);
      TakeKeepsTokens(c, Find(l.buckets, key), call.now);
      AfterKeepsBucket(c, Allow(c, l, call.key, call.now, false).next, call.now, end, calls[1..], key);
    }
  }

  /**
   In any stretch of a run, whatever calls other keys make, a key is allowed at most its burst and
   what flows in between the stretch's ends.
   */
  lemma {:induction false} WindowBound(c: Config, start: int, before: seq<Call>, window: seq<Call>, from: int,
      end: int, key: string)
    requires RefillsInTime(c) && start <= from <= end
    requires Monotone(start, before + window)
    requires forall i :: 0 <= i < |before| ==> before[i].now <= from
    requires forall i :: 0 <= i < |window| ==> from <= window[i].now <= end
    ensures
      var answers := Answers(c, Start(start), before + window, true);
      AllowedFor(window, answers[|before|..], key) as real
      <= c.burst as real + c.perMinute as real * ((end - from) as real / 60_000_000_000.0)
  {
    hide Gain, Answers, After, Avail, Allow;
    GainPerMinute(c, end - from);
    SweepInvisible(c, start, before + window);
    AnswersAppend(c, Start(start), before, window, false);
    assert Monotone(start, before) && Monotone(from, window) by {
      forall i | 0 <= i < |before| ensures (before + window)[i] == before[i] {
      }
      forall i | 0 <= i < |window| ensures (before + window)[|before| + i] == window[i] {
      }
    }
    var l := After(c, Start(start), before, false);
    AfterKeepsBucket(c, Start(start), start, from, before, key);
    BoundFrom(c, l, from, end, window, key);
    AvailPositive(c, Find(l.buckets, key), from, end);
    var answers := Answers(c, Start(start), before + window, true);
    assert answers[|before|..] == Answers(c, l, window, false);
  }

  // ---------- and is allowed that much ----------

  /** A key seen for the first time is allowed its burst at once, and no more. */
  lemma {:induction false} FirstBurst(c: Config, l: Limiter, key: string, now: int)
    requires c.burst >= 1 && now - l.lastEvict <= EVICT_INTERVAL && key !in l.buckets
    ensures
      var answers := Answers(c, l, Burst(key, now, c.burst + 1), true);
      (forall i :: 0 <= i < c.burst ==> answers[i]) && !answers[c.burst]
  {
    hide Allow, After, Answers;
    BurstAllowed(c, l, key, now, c.burst, true);
    BurstRefused(c, l, key, now, c.burst + 1, true);
    BurstLast(key, now, c.burst);
    var first, last := Burst(key, now, c.burst), [Call(key, now)];
    AnswersAppend(c, l, first, last, true);
    var answers := Answers(c, l, Burst(key, now, c.burst + 1), true);
    var j :| 0 <= j < c.burst + 1 && !answers[j];
    assert forall i :: 0 <= i < c.burst ==> answers[i] == Answers(c, l, first, true)[i];
  }

  lemma {:induction false} BurstLast(key: string, now: int, n: nat)
    ensures |Burst(key, now, n)| == n && Burst(key, now, n + 1) == Burst(key, now, n) + [Call(key, now)]
  {
    forall i | 0 <= i < n ensures Burst(key, now, n)[i] == Call(key, now) {
    }
  }

  /** A refused call costs nothing: the next one finds what it would have found without it. */
  lemma RefusalFree(c: Config, b: Bucket, t1: int, t2: int)
    requires c.burst >= 1 && t1 <= t2 && !Take(c, Some(b), t1).allowed
    ensures Take(c, Some(Take(c, Some(b), t1).bucket), t2) == Take(c, Some(b), t2)
  {
    hide Gain;
    GainPerMinute(c, t1 - b.last);
    GainPerMinute(c, t2 - t1);
    GainPerMinute(c, t2 - b.last);
    var x, y := (t1 - b.last) as real / 60_000_000_000.0, (t2 - t1) as real / 60_000_000_000.0;
    assert (t2 - b.last) as real / 60_000_000_000.0 == x + y;
    assert c.perMinute as real * (x + y) == c.perMinute as real * x + c.perMinute as real * y;
  }

  /** A key that has waited until a token has flowed in is allowed, whatever it was answered before. */
  lemma WaitAllows(c: Config, l: Limiter, key: string, now: int, sweeps: bool)
    requires c.burst >= 1
    requires key in l.buckets ==>
               l.buckets[key].tokens >= 0.0
                   && c.perMinute as real * ((now - l.buckets[key].last) as real / 60_000_000_000.0) >= 1.0
    ensures Allow(c, l, key, now, sweeps).allowed
  {
    hide Gain;
    if key in l.buckets {
      GainPerMinute(c, now - l.buckets[key].last);
    }
  }

  /** No run leaves a bucket with less than no tokens. */
  lemma {:induction false} NeverNegative(c: Config, l: Limiter, calls: seq<Call>, from: int, sweeps: bool, key: string)
    requires c.burst >= 1 && Monotone(from, calls)
    requires forall k :: k in l.buckets ==> l.buckets[k].tokens >= 0.0 && l.buckets[k].last <= from
    ensures
      var e := After(c, l, calls, sweeps);
      key in e.buckets ==> e.buckets[key].tokens >= 0.0
    decreases |calls|
  {
    hide Monotone, Gain;
    if calls != [] {
      var call := calls[0];
      MonotoneTail(from, calls);
      forall b: Bucket | b.last <= call.now ensures Gain(c, call.now - b.last) >= 0.0 {
        GainMonotone(c, 0, call.now - b.last);
        GainPerMinute(c, 0);
      }
      NeverNegative(c, Allow(c, l, call.key, call.now, sweeps).next, calls[1..], call.now, sweeps, key);
    }
  }
}
