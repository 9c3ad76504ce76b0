/** `TokenBucketLimiter` and the `rate_limit` dependency as the program runs them: buckets are objects
    updated in place, the ordered dictionary is a key order beside a map. */
module RateLimit {
  import opened TokenBucket
  import opened LimiterRuns
  import opened LruOrder

  datatype Result<T, E> = Ok(value: T) | Err(error: E)

  /** `popitem` on an empty dictionary raises `KeyError`; the constructor lets `max_buckets <= 0` through. */
  datatype Outcome = Acquired(decision: Decision) | KeyError

  datatype ConfigError = CapacityNotPositive | RefillNotPositive | ZeroPeriod

  const DEFAULT_MAX_BUCKETS := 10_000

  class BucketState {
    var tokens: real
    var lastRefill: real

    constructor (tokens: real, lastRefill: real)
      ensures this.tokens == tokens && this.lastRefill == lastRefill
    {
      this.tokens, this.lastRefill := tokens, lastRefill;
    }

    ghost function Value(): Bucket
      reads this
    {
      Bucket(tokens, lastRefill)
    }

    method Refill(config: Config, now: real)
      modifies this
      ensures Value() == Refilled(config, old(Value()), now)
    {
      var elapsed := now - lastRefill;
      tokens := Min(config.capacity as real, tokens + Earned(config, elapsed));
      lastRefill := now;
    }

    /** Take a token out of the bucket if it holds one. */
    method Spend(config: Config) returns (d: Decision)
      requires config.refill > 0.0
      modifies this
      ensures (Value(), d) == TokenBucket.Spend(config, old(Value()))
    {
      if tokens >= 1.0 {
        tokens := tokens - 1.0;
        return Decision(true, 0.0);
      }
      var deficit := 1.0 - tokens;
      return Decision(false, deficit / config.refill);
    }
  }

  class TokenBucketLimiter {
    const config: Config
    var order: seq<string>
    var buckets: map<string, BucketState>

    /** The table as a value: what the theorems about runs speak of. */
    ghost var Contents: Table

    ghost predicate Valid()
      reads this, buckets.Values
    {
      && config.capacity > 0 && config.refill > 0.0
      && NoDup(order) && (|order| == 0 || |order| <= config.maxBuckets)
      && (forall k :: k in order <==> k in buckets)
      && (forall k, k' :: k in buckets && k' in buckets && k != k' ==> buckets[k] != buckets[k'])
      && Contents.keys == order && Contents.buckets.Keys == buckets.Keys
      && forall k :: k in buckets ==> Contents.buckets[k] == buckets[k].Value()
    }

    constructor (config: Config)
      requires config.capacity > 0 && config.refill > 0.0
      ensures Valid() && this.config == config && Contents == EMPTY && fresh(buckets.Values)
    {
      this.config := config;
      order, buckets := [], map[];
      Contents := EMPTY;
    }

    /** `__init__`: the two checks, in order, before anything is built. */
    static method Create(capacity: int, refill: real, maxBuckets: int)
      returns (r: Result<TokenBucketLimiter, ConfigError>)
      ensures r.Err? <==> capacity <= 0 || refill <= 0.0
      ensures r.Err? ==> r.error == if capacity <= 0 then CapacityNotPositive else RefillNotPositive
      ensures r.Ok? ==> r.value.Valid() && r.value.Contents == EMPTY && fresh(r.value) && fresh(r.value.buckets.Values)
      ensures r.Ok? ==> r.value.config == Config(capacity, refill, maxBuckets)
    {
      if capacity <= 0 {
        return Err(CapacityNotPositive);
      }
      if refill <= 0.0 {
        return Err(RefillNotPositive);
      }
      var limiter := new TokenBucketLimiter(Config(capacity, refill, maxBuckets));
      return Ok(limiter);
    }

    /** Evict the least recently used keys until one more fits; `ok` is false when `popitem` raises. */
    method MakeRoom() returns (ok: bool)
      requires Valid()
      modifies this
      ensures Valid() && forall k :: k in buckets ==> k in old(buckets) && buckets[k] == old(buckets)[k]
      ensures ok <==> config.maxBuckets >= 1
      ensures ok ==> |order| < config.maxBuckets && Contents == Evicted(config, old(Contents))
      ensures !ok ==> Contents == old(Contents) == EMPTY
    {
      hide NoDup, Evicted, LastN;
      ghost var n: nat := 0;
      while |order| >= config.maxBuckets
        invariant n <= |old(order)|
        invariant n > 0 ==> config.maxBuckets >= 1 && |order| >= config.maxBuckets - 1
        invariant Valid() && forall k :: k in buckets ==> k in old(buckets) && buckets[k] == old(buckets)[k]
        invariant order == old(order)[n..] && Contents.buckets == Restricted(old(Contents).buckets, order)
        decreases |order|
      {
        if |order| == 0 {
          return false;
        }
        PopOldest();
        n := n + 1;
      }
      ok := true;
      EvictedByCount(config, old(Contents), n);
    }

    /** `popitem(last=False)`. */
    method PopOldest()
      requires Valid() && order != []
      modifies this
      ensures Valid() && order == old(order)[1..] && buckets == old(buckets) - {old(order)[0]}
      ensures Contents == Table(order, old(Contents).buckets - {old(order)[0]})
    {
      hide NoDup, BucketState.Value;
      var oldest := order[0];
      WithoutOldest(order);
      buckets, order, Contents := buckets - {oldest}, order[1..], Table(order[1..], Contents.buckets - {oldest});
      assert old(Contents).buckets.Keys == old(buckets).Keys;
    }

    /** A full bucket for a key that has none, once there is room. */
    method Insert(key: string, now: real) returns (state: BucketState)
      requires Valid() && key !in buckets && |order| < config.maxBuckets
      modifies this
      ensures Valid() && fresh(state) && buckets == old(buckets)[key := state]
      ensures Contents == WithFull(config, old(Contents), key, now)
    {
      state := new BucketState(config.capacity as real, now);
      buckets, order, Contents := buckets[key := state], order + [key],
        Table(order + [key], Contents.buckets[key := Full(config, now)]);
    }

    /** A resident key becomes the most recent, and its bucket is refilled in place. */
    method Refill(key: string, now: real) returns (state: BucketState)
      requires Valid() && key in buckets
      modifies this, buckets.Values
      ensures Valid() && buckets == old(buckets) && state == buckets[key]
      ensures Contents == RefilledTable(config, old(Contents), key, now)
    {
      hide NoDup, Refilled, MoveToEnd;
      state := buckets[key];
      MoveToEndShape(order, key);
      MoveToEndMembers(order, key);
      order := MoveToEnd(order, key);
      state.Refill(config, now);
      Contents := Table(order, Contents.buckets[key := state.Value()]);
    }

    method Spend(key: string, state: BucketState) returns (d: Decision)
      requires Valid() && key in buckets && buckets[key] == state
      modifies this`Contents, state
      ensures Valid()
      ensures (Contents, d) == SpendAt(config, old(Contents), key)
    {
      hide TokenBucket.Spend;
      d := state.Spend(config);
      Contents := Table(order, Contents.buckets[key := state.Value()]);
    }

    /** `acquire`, one atomic step under the limiter's lock. */
    method Acquire(key: string, now: real) returns (r: Outcome)
      requires Valid()
      modifies this, buckets.Values
      ensures Valid()
      ensures forall k :: k in buckets ==> fresh(buckets[k]) || (k in old(buckets) && buckets[k] == old(buckets)[k])
      ensures config.maxBuckets >= 1 ==>
                var (t, d) := TokenBucket.Acquire(config, old(Contents), key, now);
                Contents == t && r == Acquired(d)
      ensures config.maxBuckets < 1 ==> r == KeyError && Contents == old(Contents)
    {
      hide NoDup, Evicted, RefilledTable, WithFull, SpendAt, TokenBucket.Acquire;
      AcquireInStages(config, Contents, key, now);
      var state: BucketState;
      if key !in buckets {
        var ok := MakeRoom();
        if !ok {
          return KeyError;
        }
        state := Insert(key, now);
      } else {
        assert key in order;
        state := Refill(key, now);
      }
      var d := Spend(key, state);
      r := Acquired(d);
    }
  }

  ghost function SpendAt(cfg: Config, t: Table, key: string): (Table, Decision)
    requires cfg.refill > 0.0 && key in t.buckets
  {
    var (b, d) := Spend(cfg, t.buckets[key]);
    (Table(t.keys, t.buckets[key := b]), d)
  }

  ghost function RefilledTable(cfg: Config, t: Table, key: string, now: real): (r: Table)
    requires key in t.buckets
    ensures key in r.buckets
  {
    Table(MoveToEnd(t.keys, key), t.buckets[key := Refilled(cfg, t.buckets[key], now)])
  }

  ghost function WithFull(cfg: Config, t: Table, key: string, now: real): (r: Table)
    ensures key in r.buckets
  {
    Table(t.keys + [key], t.buckets[key := Full(cfg, now)])
  }

  /** The specified step is its stages one after the other: find or make the bucket, then spend. */
  lemma AcquireInStages(cfg: Config, t: Table, key: string, now: real)
    requires cfg.refill > 0.0
    ensures cfg.maxBuckets >= 1 ==>
              TokenBucket.Acquire(cfg, t, key, now) ==
              SpendAt(cfg, if key in t.buckets then RefilledTable(cfg, t, key, now)
                           else WithFull(cfg, Evicted(cfg, t), key, now), key)
  {
    hide Earned, Min, Evicted;
    if cfg.maxBuckets >= 1 {
      var room := Evicted(cfg, t).buckets;
      var full := Full(cfg, now);
      assert room[key := full][key := Spend(cfg, full).0] == room[key := Spend(cfg, full).0];
      if key in t.buckets {
        var b := Refilled(cfg, t.buckets[key], now);
        assert t.buckets[key := b][key := Spend(cfg, b).0] == t.buckets[key := Spend(cfg, b).0];
      }
    }
  }

  ghost function Restricted(m: map<string, Bucket>, keys: seq<string>): map<string, Bucket> {
    map k | k in m && k in keys :: m[k]
  }

  /** Dropping the `n` oldest keys, when that is just enough, is the specified eviction. */
  lemma EvictedByCount(cfg: Config, t: Table, n: nat)
    requires cfg.maxBuckets >= 1 && n <= |t.keys| && |t.keys| - n < cfg.maxBuckets
    requires n > 0 ==> |t.keys| - n >= cfg.maxBuckets - 1
    ensures Evicted(cfg, t) == Table(t.keys[n..], Restricted(t.buckets, t.keys[n..]))
  {
  }

  lemma WithoutOldest(s: seq<string>)
    requires NoDup(s) && s != []
    ensures NoDup(s[1..]) && forall k :: k in s[1..] <==> k in s && k != s[0]
  {
    assert s == [s[0]] + s[1..];
  }

  lemma MoveToEndMembers(s: seq<string>, k: string)
    requires NoDup(s)
    ensures forall x :: x in MoveToEnd(s, k) <==> x in s || x == k
  {
    MoveToEndShape(s, k);
    forall x ensures x in MoveToEnd(s, k) <==> x in s || x == k {
      assert x in KeySet(MoveToEnd(s, k)) <==> x in MoveToEnd(s, k);
      assert x in KeySet(s) <==> x in s;
    }
  }

  // ---------------------------------------------------------------------------
  // The dependency.

  /** `int(x)` on a float: truncation toward zero. */
  function Trunc(x: real): int {
    if x >= 0.0 then x.Floor else -((-x).Floor)
  }

  function RetrySeconds(wait: real): int {
    var s := Trunc(wait) + 1;
    if s >= 1 then s else 1
  }

  function KeyFor(name: string, tenant: string, user: string): string {
    name + ":" + tenant + ":" + user
  }

  datatype Response = Pass | TooManyRequests(retryAfter: int)

  /** What `rate_limit(name, ...)` returns; without a limiter it is the no-op. */
  class Dependency {
    const name: string
    const limiter: TokenBucketLimiter?

    ghost predicate Valid()
      reads this, limiter, if limiter == null then {} else limiter.buckets.Values
    {
      limiter != null ==> limiter.Valid() && limiter.config.maxBuckets == 10_000
    }

    constructor (name: string, limiter: TokenBucketLimiter?)
      ensures this.name == name && this.limiter == limiter
    {
      this.name, this.limiter := name, limiter;
    }

    /** Each call builds a limiter of its own: dependencies with the same name share nothing. */
    static method RateLimit(name: string, calls: int, period: real) returns (r: Result<Dependency, ConfigError>)
      ensures r.Err? <==> calls > 0 && period <= 0.0
      ensures r.Err? ==> r.error == if period == 0.0 then ZeroPeriod else RefillNotPositive
      ensures r.Ok? ==> r.value.Valid() && r.value.name == name && (r.value.limiter == null <==> calls <= 0)
      ensures r.Ok? && calls > 0 ==>
                && fresh(r.value.limiter) && r.value.limiter.Contents == EMPTY
                && r.value.limiter.config == Config(calls, calls as real / period, 10_000)
    {
      if calls <= 0 {
        var noop := new Dependency(name, null);
        return Ok(noop);
      }
      if period == 0.0 {
        return Err(ZeroPeriod);
      }
      RateSign(calls, period);
      var limiter := TokenBucketLimiter.Create(calls, calls as real / period, DEFAULT_MAX_BUCKETS);
      if limiter.Err? {
        return Err(limiter.error);
      }
      var dep := new Dependency(name, limiter.value);
      return Ok(dep);
    }

    /** A request is refused exactly when the bucket of `name:tenant:user` is, and then `Retry-After` is a
        whole number of seconds in `(wait, wait + 1]` (section 10.2.3 of RFC 9110). */
    method Enforce(tenant: string, user: string, now: real) returns (r: Response)
      requires Valid()
      modifies limiter, if limiter == null then {} else limiter.buckets.Values
      ensures Valid()
      ensures limiter == null ==> r == Pass
      ensures limiter != null ==>
                var key := KeyFor(name, tenant, user);
                var (t, d) := TokenBucket.Acquire(limiter.config, old(limiter.Contents), key, now);
                && limiter.Contents == t
                && (r.Pass? <==> d.allowed)
                && (r.TooManyRequests? ==> r.retryAfter >= 1 && r.retryAfter == RetrySeconds(d.wait))
    {
      if limiter == null {
        return Pass;
      }
      var outcome := limiter.Acquire(KeyFor(name, tenant, user), now);
      if outcome.decision.allowed {
        return Pass;
      }
      return TooManyRequests(RetrySeconds(outcome.decision.wait));
    }
  }

  lemma RateSign(calls: int, period: real)
    requires calls > 0 && period != 0.0
    ensures calls as real / period > 0.0 <==> period > 0.0
  {
    var q := calls as real / period;
    assert q * period == calls as real;
  }

  /** The default bound: the limiter of a dependency keeps the buckets of the last 10,000 users, and while there
      are no more than that many, each request is decided as by a bucket of the user's own. */
  lemma UsersKept(calls: int, period: real, h: seq<Call>, i: nat)
    requires calls > 0 && period > 0.0 && Timely(h) && i <= |h|
    ensures var cfg := Config(calls, calls as real / period, DEFAULT_MAX_BUCKETS);
            && ValidConfig(cfg)
            && |TableAt(cfg, h, i).keys| == (if |KeysOf(h[..i])| <= 10_000 then |KeysOf(h[..i])| else 10_000)
            && (i < |h| && |KeysOf(h)| <= 10_000 ==>
                  DecisionAt(cfg, h, i) == SoloSpend(cfg, SoloAt(cfg, h, h[i].key, i), h[i].now).1)
  {
    RateSign(calls, period);
    var cfg := Config(calls, calls as real / period, DEFAULT_MAX_BUCKETS);
    hide NoDup, KeysOf, SoloSpend, DecisionAt, TableAt, ByLastUse;
    ResidentOrder(cfg, h, i);
    RecencyByLastUse(h[..i]);
    NoDupSize(Recency(h[..i]));
    KeysByLastUse(h[..i], Recency(h[..i]));
    if i < |h| && |KeysOf(h)| <= 10_000 {
      BoundedRefinesUnbounded(cfg, h, i);
    }
  }

  lemma KeysByLastUse(h: seq<Call>, s: seq<string>)
    requires ByLastUse(h, s)
    ensures KeySet(s) == KeysOf(h)
  {
  }

  /** `Retry-After` lies in `(wait, wait + 1]`, and waiting that long is enough: if only denials of the key
      came between, the next call of it is admitted, whatever else happened to the table. */
  lemma RetryAfterSuffices(cfg: Config, h: seq<Call>, i: nat, j: nat)
    requires ValidConfig(cfg) && Timely(h) && i < j < |h| && h[i].key == h[j].key
    requires OnlyDenials(cfg, h, h[i].key, i, j)
    ensures var s := RetrySeconds(DecisionAt(cfg, h, i).wait);
            && DecisionAt(cfg, h, i).wait < s as real <= DecisionAt(cfg, h, i).wait + 1.0
            && (h[j].now >= h[i].now + s as real ==> DecisionAt(cfg, h, j).allowed)
  {
    ExactRetry(cfg, h, h[i].key, i, j);
  }

  /** And it asks for less than a second too much: while the key is not evicted, every call of it more than
      a second earlier is denied, with nothing assumed of the calls between. */
  lemma RetryAfterIsTight(cfg: Config, h: seq<Call>, i: nat, j: nat)
    requires ValidConfig(cfg) && Timely(h) && i < j < |h| && !DecisionAt(cfg, h, i).allowed
    requires Evictions(cfg, h, h[i].key, i, j) == 0
    requires h[j].now < h[i].now + RetrySeconds(DecisionAt(cfg, h, i).wait) as real - 1.0
    ensures OnlyDenials(cfg, h, h[i].key, i, j + 1)
  {
    WaitIsPositive(cfg, h, i);
    DeniedUntil(cfg, h, h[i].key, i, j);
  }

  // ---------------------------------------------------------------------------
  // Which users share a bucket.

  /** Two tenants can share a bucket, for some pair of users, exactly when one is the other followed by
      a colon and more. */
  lemma TenantsCollide(name: string, t1: string, t2: string)
    requires t1 != t2
    ensures (exists u1, u2 :: KeyFor(name, t1, u1) == KeyFor(name, t2, u2)) <==> t1 + ":" <= t2 || t2 + ":" <= t1
  {
    if t1 + ":" <= t2 {
      var u := t2[|t1| + 1..];
      assert KeyFor(name, t1, u + ":") == KeyFor(name, t2, "");
    }
    if t2 + ":" <= t1 {
      var u := t1[|t2| + 1..];
      assert KeyFor(name, t1, "") == KeyFor(name, t2, u + ":");
    }
    forall u1, u2 | KeyFor(name, t1, u1) == KeyFor(name, t2, u2) ensures t1 + ":" <= t2 || t2 + ":" <= t1 {
      SameKey(name, t1, u1, t2, u2);
    }
  }

  lemma SameKey(name: string, t1: string, u1: string, t2: string, u2: string)
    requires KeyFor(name, t1, u1) == KeyFor(name, t2, u2)
    ensures (t1 == t2 && u1 == u2) || t1 + ":" <= t2 || t2 + ":" <= t1
  {
    var n := |name + ":"|;
    assert KeyFor(name, t1, u1)[n..] == t1 + ":" + u1;
    assert KeyFor(name, t2, u2)[n..] == t2 + ":" + u2;
    var s := t1 + ":" + u1;
    assert t1 + ":" == s[..|t1| + 1] && t2 + ":" == s[..|t2| + 1];
    assert u1 == s[|t1| + 1..] && u2 == s[|t2| + 1..];
    if |t1| < |t2| {
      assert t2 == s[..|t2|];
    } else if |t2| < |t1| {
      assert t1 == s[..|t1|];
    } else {
      assert t1 == s[..|t1|] && t2 == s[..|t2|];
    }
  }

  /** Users of colon-free tenants never share a bucket. */
  lemma UsersIsolated(name: string, t1: string, u1: string, t2: string, u2: string)
    requires ':' !in t1 && ':' !in t2
    ensures KeyFor(name, t1, u1) == KeyFor(name, t2, u2) <==> t1 == t2 && u1 == u2
  {
    if KeyFor(name, t1, u1) == KeyFor(name, t2, u2) {
      SameKey(name, t1, u1, t2, u2);
      assert ':' in t1 + ":" && (t1 + ":")[|t1|] == ':';
      assert ':' in t2 + ":" && (t2 + ":")[|t2|] == ':';
    }
  }
}
