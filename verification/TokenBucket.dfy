/** The token bucket of `TokenBucketLimiter.acquire` and its LRU-bounded table, as functions on values.

    Time is a `real` read from a clock that never goes back; every call of `acquire` is one atomic
    step, because the method body runs under the limiter's lock. */
module TokenBucket {

  /** A validated limiter configuration: the constructor rejects anything else. */
  datatype Config = Config(capacity: int, refill: real, maxBuckets: int)

  ghost predicate ValidConfig(cfg: Config) {
    cfg.capacity > 0 && cfg.refill > 0.0 && cfg.maxBuckets >= 1
  }

  datatype Bucket = Bucket(tokens: real, lastRefill: real)

  datatype Decision = Decision(allowed: bool, wait: real)

  /** The table: keys from least to most recently used, and the bucket of each key. */
  datatype Table = Table(keys: seq<string>, buckets: map<string, Bucket>)

  const EMPTY := Table([], map[])

  function Min(a: real, b: real): real {
    if a <= b then a else b
  }

  /** The tokens earned in `span` seconds. */
  function Earned(cfg: Config, span: real): real {
    span * cfg.refill
  }

  function Full(cfg: Config, now: real): Bucket {
    Bucket(cfg.capacity as real, now)
  }

  function Refilled(cfg: Config, b: Bucket, now: real): Bucket {
    Bucket(Min(cfg.capacity as real, b.tokens + Earned(cfg, now - b.lastRefill)), now)
  }

  /** Take a token when there is one; otherwise say how long until there is. */
  function Spend(cfg: Config, b: Bucket): (Bucket, Decision)
    requires cfg.refill > 0.0
  {
    if b.tokens >= 1.0
    then (b.(tokens := b.tokens - 1.0), Decision(true, 0.0))
    else (b, Decision(false, (1.0 - b.tokens) / cfg.refill))
  }

  function Without(s: seq<string>, k: string): (r: seq<string>) {
    if s == [] then [] else (if s[0] == k then [] else [s[0]]) + Without(s[1..], k)
  }

  function MoveToEnd(s: seq<string>, k: string): seq<string> {
    Without(s, k) + [k]
  }

  function LastN(s: seq<string>, n: nat): seq<string> {
    if |s| <= n then s else s[|s| - n..]
  }

  function KeySet(s: seq<string>): set<string> {
    set k | k in s
  }

  /** The table once the oldest keys have made room for one more. */
  function Evicted(cfg: Config, t: Table): Table
    requires cfg.maxBuckets >= 1
  {
    var kept := LastN(t.keys, cfg.maxBuckets - 1);
    Table(kept, map k | k in t.buckets && k in kept :: t.buckets[k])
  }

  function Acquire(cfg: Config, t: Table, key: string, now: real): (Table, Decision)
    requires cfg.refill > 0.0 && cfg.maxBuckets >= 1
  {
    if key in t.buckets then
      var (b, d) := Spend(cfg, Refilled(cfg, t.buckets[key], now));
      (Table(MoveToEnd(t.keys, key), t.buckets[key := b]), d)
    else
      var room := Evicted(cfg, t);
      var (b, d) := Spend(cfg, Full(cfg, now));
      (Table(room.keys + [key], room.buckets[key := b]), d)
  }

  ghost predicate NoDup(s: seq<string>) {
    forall i, j :: 0 <= i < j < |s| ==> s[i] != s[j]
  }

  /** The table invariant at a moment `now` not before any refill. */
  ghost predicate ValidTable(cfg: Config, t: Table, now: real) {
    && NoDup(t.keys)
    && KeySet(t.keys) == t.buckets.Keys
    && |t.keys| <= cfg.maxBuckets
    && forall k :: k in t.buckets ==>
         0.0 <= t.buckets[k].tokens <= cfg.capacity as real && t.buckets[k].lastRefill <= now
  }

  lemma {:induction false} WithoutSplit(a: seq<string>, k: string, b: seq<string>)
    requires k !in a && k !in b
    ensures Without(a + [k] + b, k) == a + b
    ensures Without(a, k) == a
  {
    if a == [] {
      assert [k] + b == a + [k] + b;
      assert ([k] + b)[1..] == b;
      if b != [] {
        WithoutSplit([], k, b[1..]);
        WithoutAbsent(b, k);
      }
    } else {
      var s := a + [k] + b;
      assert s[1..] == a[1..] + [k] + b;
      WithoutSplit(a[1..], k, b);
    }
  }

  lemma {:induction false} WithoutAbsent(s: seq<string>, k: string)
    requires k !in s
    ensures Without(s, k) == s
  {
    if s != [] {
      WithoutAbsent(s[1..], k);
    }
  }

  lemma SplitAt(s: seq<string>, k: string) returns (p: nat)
    requires NoDup(s) && k in s
    ensures p < |s| && s[p] == k && s == s[..p] + [k] + s[p + 1..]
    ensures k !in s[..p] && k !in s[p + 1..]
    ensures Without(s, k) == s[..p] + s[p + 1..]
  {
    p :| 0 <= p < |s| && s[p] == k;
    assert s == s[..p] + [k] + s[p + 1..];
    WithoutSplit(s[..p], k, s[p + 1..]);
  }

  lemma MoveToEndShape(s: seq<string>, k: string)
    requires NoDup(s)
    ensures NoDup(MoveToEnd(s, k))
    ensures KeySet(MoveToEnd(s, k)) == KeySet(s) + {k}
    ensures |MoveToEnd(s, k)| == |s| + (if k in s then 0 else 1)
  {
    if k in s {
      var p := SplitAt(s, k);
      assert forall x :: x in s <==> x in s[..p] || x == k || x in s[p + 1..];
    } else {
      WithoutAbsent(s, k);
    }
  }

  lemma EarnedSum(cfg: Config, a: real, b: real)
    requires cfg.refill > 0.0 && b >= 0.0
    ensures Earned(cfg, a + b) == Earned(cfg, a) + Earned(cfg, b)
    ensures Earned(cfg, b) >= 0.0 && (b > 0.0 ==> Earned(cfg, b) > 0.0)
  {
  }

  /** Every call keeps the table invariant: `0 <= tokens <= capacity`, never more than
      `maxBuckets` keys, and the order lists exactly the resident keys once each. */
  lemma AcquireKeepsTable(cfg: Config, t: Table, key: string, before: real, now: real)
    requires ValidConfig(cfg) && ValidTable(cfg, t, before) && before <= now
    ensures ValidTable(cfg, Acquire(cfg, t, key, now).0, now)
    ensures key in Acquire(cfg, t, key, now).0.buckets
  {
    if key in t.buckets {
      ResidentKeepsTable(cfg, t, key, before, now);
    } else {
      NewKeepsTable(cfg, t, key, before, now);
    }
  }

  lemma ResidentKeepsTable(cfg: Config, t: Table, key: string, before: real, now: real)
    requires ValidConfig(cfg) && ValidTable(cfg, t, before) && before <= now && key in t.buckets
    ensures ValidTable(cfg, Acquire(cfg, t, key, now).0, now)
  {
    hide Earned, NoDup, MoveToEnd;
    assert key in t.keys by { assert key in KeySet(t.keys); }
    MoveToEndShape(t.keys, key);
    EarnedSum(cfg, 0.0, now - t.buckets[key].lastRefill);
  }

  /** Eviction leaves a table with room for one more. */
  lemma EvictedKeepsTable(cfg: Config, t: Table, now: real)
    requires ValidConfig(cfg) && ValidTable(cfg, t, now)
    ensures ValidTable(cfg, Evicted(cfg, t), now) && |Evicted(cfg, t).keys| < cfg.maxBuckets
    ensures Evicted(cfg, t).buckets.Keys <= t.buckets.Keys
  {
    var kept := LastN(t.keys, cfg.maxBuckets - 1);
    assert forall k :: k in kept ==> k in KeySet(t.keys);
  }

  lemma NewKeepsTable(cfg: Config, t: Table, key: string, before: real, now: real)
    requires ValidConfig(cfg) && ValidTable(cfg, t, before) && before <= now && key !in t.buckets
    ensures ValidTable(cfg, Acquire(cfg, t, key, now).0, now)
  {
    EvictedKeepsTable(cfg, t, before);
    hide Evicted;
    var room := Evicted(cfg, t);
    assert key !in KeySet(room.keys);
    assert KeySet(room.keys + [key]) == KeySet(room.keys) + {key};
  }
}
