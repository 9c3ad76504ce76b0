/** Whole runs of one limiter: what any sequence of `acquire` calls can do. */
module LimiterRuns {
  import opened TokenBucket

  datatype Call = Call(key: string, now: real)

  /** The clock is monotonic. */
  ghost predicate Timely(h: seq<Call>) {
    forall i, j :: 0 <= i < j < |h| ==> h[i].now <= h[j].now
  }

  function TableAt(cfg: Config, h: seq<Call>, i: nat): Table
    requires ValidConfig(cfg) && i <= |h|
  {
    if i == 0 then EMPTY else Acquire(cfg, TableAt(cfg, h, i - 1), h[i - 1].key, h[i - 1].now).0
  }

  function DecisionAt(cfg: Config, h: seq<Call>, i: nat): Decision
    requires ValidConfig(cfg) && i < |h|
  {
    Acquire(cfg, TableAt(cfg, h, i), h[i].key, h[i].now).1
  }

  /** The number of calls of `k` admitted by steps `i` to `j - 1`. */
  function Admitted(cfg: Config, h: seq<Call>, k: string, i: nat, j: nat): nat
    requires ValidConfig(cfg) && i <= j <= |h|
    decreases j
  {
    if i == j then 0
    else Admitted(cfg, h, k, i, j - 1) + (if h[j - 1].key == k && DecisionAt(cfg, h, j - 1).allowed then 1 else 0)
  }

  predicate Evicts(cfg: Config, h: seq<Call>, k: string, i: nat)
    requires ValidConfig(cfg) && i < |h|
  {
    k in TableAt(cfg, h, i).buckets && k !in TableAt(cfg, h, i + 1).buckets
  }

  /** The number of times `k` is evicted by steps `i` to `j - 1`. */
  function Evictions(cfg: Config, h: seq<Call>, k: string, i: nat, j: nat): nat
    requires ValidConfig(cfg) && i <= j <= |h|
    decreases j
  {
    if i == j then 0 else Evictions(cfg, h, k, i, j - 1) + (if Evicts(cfg, h, k, j - 1) then 1 else 0)
  }

  function LastTime(h: seq<Call>, i: nat, floor: real): real
    requires i <= |h|
  {
    if i == 0 then floor else h[i - 1].now
  }

  /** The table invariant holds after every step of every run. */
  lemma {:induction false} TableInvariant(cfg: Config, h: seq<Call>, i: nat, now: real)
    requires ValidConfig(cfg) && Timely(h) && i <= |h|
    requires i > 0 ==> h[i - 1].now <= now
    ensures ValidTable(cfg, TableAt(cfg, h, i), now)
  {
    if i > 0 {
      TableInvariant(cfg, h, i - 1, h[i - 1].now);
      AcquireKeepsTable(cfg, TableAt(cfg, h, i - 1), h[i - 1].key, h[i - 1].now, h[i - 1].now);
    }
  }

  // ---------------------------------------------------------------------------
  // Potential: the tokens a key could spend at a moment.

  /** A key without a bucket is worth a full one, because its next call creates it full. */
  function Potential(cfg: Config, t: Table, k: string, now: real): real {
    if k in t.buckets then Refilled(cfg, t.buckets[k], now).tokens else cfg.capacity as real
  }

  /** Refilling composes: stopping at `t1` on the way to `t2` earns the same tokens. */
  lemma RefillComposes(cfg: Config, b: Bucket, t1: real, t2: real)
    requires cfg.refill > 0.0 && b.lastRefill <= t1 <= t2
    ensures Refilled(cfg, Refilled(cfg, b, t1), t2) == Refilled(cfg, b, t2)
  {
    hide Earned;
    EarnedSum(cfg, t1 - b.lastRefill, t2 - t1);
    assert (t1 - b.lastRefill) + (t2 - t1) == t2 - b.lastRefill;
  }

  /** As time passes the potential only grows, by at most `refill` a second. */
  lemma PotentialGrows(cfg: Config, t: Table, k: string, t1: real, t2: real)
    requires ValidConfig(cfg) && ValidTable(cfg, t, t1) && t1 <= t2
    ensures Potential(cfg, t, k, t1) <= Potential(cfg, t, k, t2) <= Potential(cfg, t, k, t1) + Earned(cfg, t2 - t1)
    ensures 0.0 <= Potential(cfg, t, k, t1) <= cfg.capacity as real
  {
    hide Earned;
    EarnedSum(cfg, 0.0, t2 - t1);
    if k in t.buckets {
      var b := t.buckets[k];
      EarnedSum(cfg, t1 - b.lastRefill, t2 - t1);
      assert (t1 - b.lastRefill) + (t2 - t1) == t2 - b.lastRefill;
      EarnedSum(cfg, 0.0, t1 - b.lastRefill);
    }
  }

  /** A call by `k` is admitted exactly when its potential is a whole token. */
  lemma AdmitsByPotential(cfg: Config, t: Table, k: string, now: real)
    requires ValidConfig(cfg) && ValidTable(cfg, t, now)
    ensures Acquire(cfg, t, k, now).1.allowed <==> Potential(cfg, t, k, now) >= 1.0
    ensures !Acquire(cfg, t, k, now).1.allowed ==>
              k in t.buckets && Acquire(cfg, t, k, now).1.wait == (1.0 - Potential(cfg, t, k, now)) / cfg.refill
  {
    hide Earned;
  }

  /** What one call does to the potential of `k`, at the moment of the call: an admission of `k`
      costs exactly one token, an eviction of `k` restores the full bucket, nothing else changes it. */
  lemma PotentialStep(cfg: Config, t: Table, key: string, now: real, k: string)
    requires ValidConfig(cfg) && ValidTable(cfg, t, now)
    ensures var (t', d) := Acquire(cfg, t, key, now);
            Potential(cfg, t', k, now) ==
              if k in t.buckets && k !in t'.buckets then cfg.capacity as real
              else if k == key && d.allowed then Potential(cfg, t, k, now) - 1.0
              else Potential(cfg, t, k, now)
    ensures key in Acquire(cfg, t, key, now).0.buckets
  {
    EarnedNothing(cfg);
    hide Earned;
    if k == key && key in t.buckets {
      EarnedSum(cfg, 0.0, now - t.buckets[key].lastRefill);
    }
  }

  lemma EarnedNothing(cfg: Config)
    ensures Earned(cfg, 0.0) == 0.0
  {
  }

  function Allowance(cfg: Config, evictions: nat, span: real): real {
    (1.0 + evictions as real) * cfg.capacity as real + Earned(cfg, span)
  }

  lemma AllowanceGrows(cfg: Config, e: nat, a: real, b: real)
    requires cfg.refill > 0.0 && b >= 0.0
    ensures Allowance(cfg, e, a + b) == Allowance(cfg, e, a) + Earned(cfg, b)
    ensures Allowance(cfg, e + 1, a) == Allowance(cfg, e, a) + cfg.capacity as real
    ensures Allowance(cfg, 0, 0.0) == cfg.capacity as real
  {
    EarnedSum(cfg, a, b);
    EarnedNothing(cfg);
    assert 1.0 + (e + 1) as real == (1.0 + e as real) + 1.0;
  }

  lemma {:induction false} WindowPotential(cfg: Config, h: seq<Call>, k: string, i: nat, j: nat)
    requires ValidConfig(cfg) && Timely(h) && i < j <= |h|
    ensures Admitted(cfg, h, k, i, j) as real + Potential(cfg, TableAt(cfg, h, j), k, h[j - 1].now)
            <= Allowance(cfg, Evictions(cfg, h, k, i, j), h[j - 1].now - h[i].now)
    decreases j
  {
    hide Earned, Allowance, Acquire, Potential;
    var t, now := TableAt(cfg, h, j - 1), h[j - 1].now;
    TableInvariant(cfg, h, j - 1, now);
    PotentialStep(cfg, t, h[j - 1].key, now, k);
    PotentialGrows(cfg, t, k, now, now);
    if i < j - 1 {
      var before := h[j - 2].now;
      WindowPotential(cfg, h, k, i, j - 1);
      TableInvariant(cfg, h, j - 1, before);
      PotentialGrows(cfg, t, k, before, now);
      AllowanceGrows(cfg, Evictions(cfg, h, k, i, j - 1), before - h[i].now, now - before);
      AllowanceGrows(cfg, Evictions(cfg, h, k, i, j - 1), now - h[i].now, 0.0);
      assert (before - h[i].now) + (now - before) == now - h[i].now;
    } else {
      assert Admitted(cfg, h, k, i, i) == 0 && Evictions(cfg, h, k, i, i) == 0;
      AllowanceGrows(cfg, 0, 0.0, 0.0);
    }
  }

  /** Window bound: however the other keys behave, the calls of `k` admitted by steps `i` to `j - 1` are
      at most `(1 + evictions) * capacity + refill * span`. */
  lemma WindowBound(cfg: Config, h: seq<Call>, k: string, i: nat, j: nat)
    requires ValidConfig(cfg) && Timely(h) && i < j <= |h|
    ensures Admitted(cfg, h, k, i, j) as real <= Allowance(cfg, Evictions(cfg, h, k, i, j), h[j - 1].now - h[i].now)
  {
    hide Earned, Allowance, Potential;
    WindowPotential(cfg, h, k, i, j);
    TableInvariant(cfg, h, j, h[j - 1].now);
    PotentialGrows(cfg, TableAt(cfg, h, j), k, h[j - 1].now, h[j - 1].now);
  }

  /** With `rate_limit(name, calls, period)`, a key that is not evicted is admitted at most
      `2 * calls` times in any window no longer than `period`. */
  lemma PeriodBound(cfg: Config, calls: int, period: real, h: seq<Call>, k: string, i: nat, j: nat)
    requires ValidConfig(cfg) && Timely(h) && i < j <= |h|
    requires period > 0.0 && cfg.capacity == calls && cfg.refill == calls as real / period
    requires Evictions(cfg, h, k, i, j) == 0 && h[j - 1].now - h[i].now <= period
    ensures Admitted(cfg, h, k, i, j) <= 2 * calls
  {
    hide Earned, Allowance, Admitted, Evictions;
    var span := h[j - 1].now - h[i].now;
    WindowBound(cfg, h, k, i, j);
    EarnedPeriod(cfg, calls, period);
    AllowanceGrows(cfg, 0, 0.0, 0.0);
    assert h[i].now <= h[j - 1].now;
    AllowanceGrows(cfg, 0, 0.0, span);
    EarnedSum(cfg, span, period - span);
    assert 0.0 + span == span && span + (period - span) == period;
  }

  lemma EarnedPeriod(cfg: Config, calls: int, period: real)
    requires period > 0.0 && cfg.refill == calls as real / period
    ensures Earned(cfg, period) == calls as real
  {
  }

  // ---------------------------------------------------------------------------
  // Retry times.

  ghost predicate OnlyDenials(cfg: Config, h: seq<Call>, k: string, i: nat, j: nat)
    requires ValidConfig(cfg) && j <= |h|
  {
    forall m :: i <= m < j && h[m].key == k ==> !DecisionAt(cfg, h, m).allowed
  }

  /** Denied calls cost nothing and evictions only help: between denials the potential of `k` follows
      the clock alone, and is the full bucket if `k` was evicted on the way. */
  lemma {:induction false} PollingIsFree(cfg: Config, h: seq<Call>, k: string, i: nat, j: nat, now: real)
    requires ValidConfig(cfg) && Timely(h) && i < j <= |h| && h[j - 1].now <= now
    requires OnlyDenials(cfg, h, k, i, j)
    ensures var p, p0 := Potential(cfg, TableAt(cfg, h, j), k, now), Potential(cfg, TableAt(cfg, h, i), k, now);
            p >= p0 && (Evictions(cfg, h, k, i, j) == 0 ==> p == p0)
    decreases j
  {
    hide Acquire, Potential;
    var t, last := TableAt(cfg, h, j - 1), h[j - 1];
    if i < j - 1 {
      PollingIsFree(cfg, h, k, i, j - 1, now);
    } else {
      assert Evictions(cfg, h, k, i, i) == 0;
    }
    TableInvariant(cfg, h, j - 1, last.now);
    TableInvariant(cfg, h, j - 1, now);
    assert last.key == k ==> !DecisionAt(cfg, h, j - 1).allowed;
    PollStep(cfg, t, last.key, last.now, k, now);
    PotentialGrows(cfg, t, k, now, now);
  }

  /** One step that does not admit `k`, seen from a later moment. */
  lemma PollStep(cfg: Config, t: Table, key: string, now: real, k: string, later: real)
    requires ValidConfig(cfg) && ValidTable(cfg, t, now) && now <= later
    requires key == k ==> !Acquire(cfg, t, key, now).1.allowed
    ensures var t' := Acquire(cfg, t, key, now).0;
            Potential(cfg, t', k, later) ==
              if k in t.buckets && k !in t'.buckets then cfg.capacity as real else Potential(cfg, t, k, later)
  {
    hide Earned;
    if key == k && k in t.buckets {
      RefillComposes(cfg, t.buckets[k], now, later);
    }
  }

  lemma DivMul(x: real, y: real, r: real)
    requires r > 0.0
    ensures x < y / r <==> x * r < y
    ensures y > 0.0 ==> y / r > 0.0
  {
    var q := y / r;
    assert q * r == y;
    if x < q {
      assert (q - x) * r > 0.0;
    } else {
      assert (x - q) * r >= 0.0;
    }
  }

  /** Exact retry time, the far side: after a denial at step `i` with wait `w`, and with only denials of `k`
      since, the next call of `k` at step `j` is admitted whenever it comes at or after `now + w`, however
      many polls and evictions lie between; and if `k` was not evicted it is admitted only then. */
  lemma ExactRetry(cfg: Config, h: seq<Call>, k: string, i: nat, j: nat)
    requires ValidConfig(cfg) && Timely(h) && i < j < |h|
    requires h[i].key == k && h[j].key == k && OnlyDenials(cfg, h, k, i, j)
    ensures DecisionAt(cfg, h, i).wait > 0.0
    ensures h[j].now >= h[i].now + DecisionAt(cfg, h, i).wait ==> DecisionAt(cfg, h, j).allowed
    ensures Evictions(cfg, h, k, i, j) == 0 ==>
              (DecisionAt(cfg, h, j).allowed <==> h[j].now >= h[i].now + DecisionAt(cfg, h, i).wait)
  {
    var t, t0, now := TableAt(cfg, h, i), h[i].now, h[j].now;
    assert !DecisionAt(cfg, h, i).allowed;
    TableInvariant(cfg, h, i, t0);
    TableInvariant(cfg, h, j, now);
    AdmitsByPotential(cfg, t, k, t0);
    AdmitsByPotential(cfg, TableAt(cfg, h, j), k, now);
    PollingIsFree(cfg, h, k, i, j, now);
    PotentialReaches(cfg, t, k, t0, now);
  }

  lemma WaitIsPositive(cfg: Config, h: seq<Call>, i: nat)
    requires ValidConfig(cfg) && Timely(h) && i < |h| && !DecisionAt(cfg, h, i).allowed
    ensures DecisionAt(cfg, h, i).wait > 0.0
  {
    var t, now, k := TableAt(cfg, h, i), h[i].now, h[i].key;
    TableInvariant(cfg, h, i, now);
    AdmitsByPotential(cfg, t, k, now);
    PotentialReaches(cfg, t, k, now, now);
  }

  lemma {:induction false} EvictionsSoFar(cfg: Config, h: seq<Call>, k: string, i: nat, m: nat, j: nat)
    requires ValidConfig(cfg) && i <= m <= j <= |h| && Evictions(cfg, h, k, i, j) == 0
    ensures Evictions(cfg, h, k, i, m) == 0
    decreases j
  {
    if m < j {
      EvictionsSoFar(cfg, h, k, i, m, j - 1);
    }
  }

  /** Exact retry time, the near side: after a denial at step `i` with wait `w`, and while `k` is not
      evicted, every call of `k` before `now + w` is denied, with nothing assumed of the calls between. */
  lemma {:induction false} DeniedUntil(cfg: Config, h: seq<Call>, k: string, i: nat, j: nat)
    requires ValidConfig(cfg) && Timely(h) && i < j < |h|
    requires h[i].key == k && !DecisionAt(cfg, h, i).allowed && Evictions(cfg, h, k, i, j) == 0
    requires h[j].now < h[i].now + DecisionAt(cfg, h, i).wait
    ensures OnlyDenials(cfg, h, k, i, j + 1)
    decreases j
  {
    hide Evictions, DecisionAt;
    if i < j - 1 {
      EvictionsSoFar(cfg, h, k, i, j - 1, j);
      assert h[j - 1].now <= h[j].now;
      DeniedUntil(cfg, h, k, i, j - 1);
    }
    assert OnlyDenials(cfg, h, k, i, j);
    if h[j].key == k {
      ExactRetry(cfg, h, k, i, j);
    }
  }

  /** Exact retry time, both sides: while `k` is not evicted, the first call of `k` at or after `now + w` is
      admitted, with nothing assumed of the decisions before it. */
  lemma FirstRetryAdmitted(cfg: Config, h: seq<Call>, k: string, i: nat, j: nat)
    requires ValidConfig(cfg) && Timely(h) && i < j < |h|
    requires h[i].key == k && !DecisionAt(cfg, h, i).allowed && Evictions(cfg, h, k, i, j) == 0
    requires h[j].key == k && h[j].now >= h[i].now + DecisionAt(cfg, h, i).wait
    requires forall m :: i < m < j && h[m].key == k ==> h[m].now < h[i].now + DecisionAt(cfg, h, i).wait
    ensures DecisionAt(cfg, h, j).allowed && OnlyDenials(cfg, h, k, i, j)
  {
    hide Evictions, DecisionAt;
    forall m | i <= m < j && h[m].key == k ensures !DecisionAt(cfg, h, m).allowed {
      if i < m {
        EvictionsSoFar(cfg, h, k, i, m, j);
        DeniedUntil(cfg, h, k, i, m);
      }
    }
    ExactRetry(cfg, h, k, i, j);
  }

  /** The potential of a resident key falls short of a token at `t2` exactly when `t2` is before the
      wait computed at `t1` is over. */
  lemma PotentialReaches(cfg: Config, t: Table, k: string, t1: real, t2: real)
    requires ValidConfig(cfg) && ValidTable(cfg, t, t1) && t1 <= t2
    requires k in t.buckets && Potential(cfg, t, k, t1) < 1.0
    ensures (1.0 - Potential(cfg, t, k, t1)) / cfg.refill > 0.0
    ensures Potential(cfg, t, k, t2) < 1.0 <==> t2 < t1 + (1.0 - Potential(cfg, t, k, t1)) / cfg.refill
  {
    var level := Potential(cfg, t, k, t1);
    DivMul(t2 - t1, 1.0 - level, cfg.refill);
    assert Earned(cfg, t2 - t1) == (t2 - t1) * cfg.refill;
    hide Earned;
    RefillComposes(cfg, t.buckets[k], t1, t2);
  }

  // ---------------------------------------------------------------------------
  // Greedy optimality.

  /** A rival policy for the calls of one key. Its bucket has the same capacity and refill, is full
      at the first call and is never evicted; `taken` counts what it has admitted. */
  datatype Rival = Rival(started: bool, bucket: Bucket, taken: nat)

  function RivalRefilled(cfg: Config, r: Rival, now: real): Bucket {
    if r.started then Refilled(cfg, r.bucket, now) else Full(cfg, now)
  }

  /** The rival after step `i`, where `take[i]` is its choice whether to admit that step. */
  function RivalAt(cfg: Config, h: seq<Call>, k: string, take: seq<bool>, i: nat): Rival
    requires i <= |h| == |take|
  {
    if i == 0 then Rival(false, Bucket(0.0, 0.0), 0)
    else
      var r := RivalAt(cfg, h, k, take, i - 1);
      var b := RivalRefilled(cfg, r, h[i - 1].now);
      if h[i - 1].key != k then r
      else if take[i - 1] then Rival(true, b.(tokens := b.tokens - 1.0), r.taken + 1)
      else Rival(true, b, r.taken)
  }

  /** The rival admits only with a whole token in its own bucket. */
  ghost predicate Honest(cfg: Config, h: seq<Call>, k: string, take: seq<bool>)
    requires |h| == |take|
  {
    forall i :: 0 <= i < |h| && h[i].key == k && take[i] ==>
                  RivalRefilled(cfg, RivalAt(cfg, h, k, take, i), h[i].now).tokens >= 1.0
  }

  /** The rival is never ahead by more tokens than the limiter is ahead by admissions. */
  lemma {:induction false} RivalBehind(cfg: Config, h: seq<Call>, k: string, take: seq<bool>, i: nat, now: real)
    requires ValidConfig(cfg) && Timely(h) && i <= |h| == |take| && Honest(cfg, h, k, take)
    requires i > 0 ==> h[i - 1].now <= now
    ensures var r := RivalAt(cfg, h, k, take, i);
            var lead := Admitted(cfg, h, k, 0, i) - r.taken;
            && lead >= 0
            && RivalRefilled(cfg, r, now).tokens <= Potential(cfg, TableAt(cfg, h, i), k, now) + lead as real
            && RivalRefilled(cfg, r, now).tokens <= cfg.capacity as real
            && (r.started ==> r.bucket.lastRefill <= now)
  {
    hide Acquire, Earned, ValidTable;
    if i > 0 {
      hide Potential;
      var t, last := TableAt(cfg, h, i - 1), h[i - 1];
      RivalBehind(cfg, h, k, take, i - 1, last.now);
      TableInvariant(cfg, h, i - 1, last.now);
      TableInvariant(cfg, h, i, last.now);
      AdmitsByPotential(cfg, t, last.key, last.now);
      PotentialStep(cfg, t, last.key, last.now, k);
      PotentialGrows(cfg, t, k, last.now, last.now);
      if last.key == k {
        RivalGap(cfg, h, k, take, i, now);
      } else {
        RivalBehind(cfg, h, k, take, i - 1, now);
        PollStep(cfg, t, last.key, last.now, k, now);
        TableInvariant(cfg, h, i - 1, now);
        PotentialGrows(cfg, t, k, now, now);
      }
    }
  }

  /** Time keeps the gap: refilling both buckets, each cut off at the capacity, never widens it. */
  lemma RivalGap(cfg: Config, h: seq<Call>, k: string, take: seq<bool>, i: nat, now: real)
    requires ValidConfig(cfg) && Timely(h) && 0 < i <= |h| == |take|
    requires h[i - 1].key == k && h[i - 1].now <= now
    requires var r := RivalAt(cfg, h, k, take, i);
             && r.started && r.bucket.lastRefill == h[i - 1].now
             && r.taken <= Admitted(cfg, h, k, 0, i)
             && r.bucket.tokens <= Potential(cfg, TableAt(cfg, h, i), k, h[i - 1].now)
                                   + (Admitted(cfg, h, k, 0, i) - r.taken) as real
    ensures var r := RivalAt(cfg, h, k, take, i);
            && RivalRefilled(cfg, r, now).tokens
               <= Potential(cfg, TableAt(cfg, h, i), k, now) + (Admitted(cfg, h, k, 0, i) - r.taken) as real
            && RivalRefilled(cfg, r, now).tokens <= cfg.capacity as real
  {
    var t, t0 := TableAt(cfg, h, i), h[i - 1].now;
    TableInvariant(cfg, h, i - 1, t0);
    PotentialStep(cfg, TableAt(cfg, h, i - 1), k, t0, k);
    TableInvariant(cfg, h, i, t0);
    assert k in t.buckets;
    hide Earned;
    EarnedSum(cfg, 0.0, now - t0);
    RefillComposes(cfg, t.buckets[k], t0, now);
  }

  /** Greedy optimality: over any run, with any other keys and any evictions, no honest policy admits
      more calls of `k` than `acquire` does. */
  lemma GreedyOptimal(cfg: Config, h: seq<Call>, k: string, take: seq<bool>, i: nat)
    requires ValidConfig(cfg) && Timely(h) && i <= |h| == |take| && Honest(cfg, h, k, take)
    ensures RivalAt(cfg, h, k, take, i).taken <= Admitted(cfg, h, k, 0, i)
  {
    RivalBehind(cfg, h, k, take, i, LastTime(h, i, 0.0));
  }
}
