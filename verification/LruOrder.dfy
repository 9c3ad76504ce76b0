/** What the LRU bound keeps: which keys are resident after any run, in which order, and when the
    bounded table answers like one bucket per key with no bound at all. */
module LruOrder {
  import opened TokenBucket
  import opened LimiterRuns

  function KeysOf(h: seq<Call>): set<string> {
    set c | c in h :: c.key
  }

  /** The position of the last call of `k`, or -1. */
  function LastUse(h: seq<Call>, k: string): (i: int)
    ensures -1 <= i < |h|
    ensures i >= 0 ==> h[i].key == k
    ensures forall j :: i < j < |h| ==> h[j].key != k
  {
    if h == [] then -1
    else if h[|h| - 1].key == k then |h| - 1
    else LastUse(h[..|h| - 1], k)
  }

  /** Every distinct key of the run, in order of last use. */
  ghost predicate ByLastUse(h: seq<Call>, s: seq<string>) {
    && KeySet(s) == KeysOf(h)
    && forall i, j :: 0 <= i < j < |s| ==> LastUse(h, s[i]) < LastUse(h, s[j])
  }

  /** The distinct keys used after the last use of `k`. */
  function UsedSince(h: seq<Call>, k: string): set<string> {
    KeysOf(h[LastUse(h, k) + 1..])
  }

  function Recency(h: seq<Call>): seq<string> {
    if h == [] then [] else MoveToEnd(Recency(h[..|h| - 1]), h[|h| - 1].key)
  }

  lemma KeyUsed(h: seq<Call>, k: string)
    ensures k in KeysOf(h) <==> LastUse(h, k) >= 0
  {
    if LastUse(h, k) >= 0 {
      assert h[LastUse(h, k)] in h;
    }
  }

  lemma {:induction false} RecencyByLastUse(h: seq<Call>)
    ensures ByLastUse(h, Recency(h)) && NoDup(Recency(h))
  {
    if h != [] {
      var g, k := h[..|h| - 1], h[|h| - 1].key;
      RecencyByLastUse(g);
      MoveToEndShape(Recency(g), k);
      NewestLast(h, g, Recency(g), k);
    }
  }

  /** The last call makes its key the most recent. */
  lemma NewestLast(h: seq<Call>, g: seq<Call>, s: seq<string>, k: string)
    requires h != [] && g == h[..|h| - 1] && h[|h| - 1].key == k && ByLastUse(g, s) && NoDup(s)
    ensures ByLastUse(h, MoveToEnd(s, k))
  {
    MoveToEndShape(s, k);
    assert KeysOf(h) == KeysOf(g) + {k} by {
      assert h == g + [h[|h| - 1]];
    }
    if k in s {
      var p := SplitAt(s, k);
      hide NoDup;
      OrderAfterMove(h, g, s, k, p);
    } else {
      WithoutAbsent(s, k);
      hide NoDup;
      assert forall i :: 0 <= i < |s| ==> s[i] in s;
      OrderWithLast(h, g, s, k);
    }
  }

  lemma OrderAfterMove(h: seq<Call>, g: seq<Call>, s: seq<string>, k: string, p: nat)
    requires h != [] && g == h[..|h| - 1] && h[|h| - 1].key == k && ByLastUse(g, s)
    requires p < |s| && s[p] == k && k !in s[..p] && k !in s[p + 1..]
    ensures var r := s[..p] + s[p + 1..] + [k];
            forall i, j :: 0 <= i < j < |r| ==> LastUse(h, r[i]) < LastUse(h, r[j])
  {
    var w := s[..p] + s[p + 1..];
    hide ByLastUse, KeysOf;
    forall i, j | 0 <= i < j < |w| ensures LastUse(g, w[i]) < LastUse(g, w[j]) {
      SkippedIndex(s, p, i);
      SkippedIndex(s, p, j);
      InOrder(g, s, if i < p then i else i + 1, if j < p then j else j + 1);
    }
    forall i | 0 <= i < |w| ensures w[i] != k {
      assert w[i] in s[..p] || w[i] in s[p + 1..];
    }
    OrderWithLast(h, g, w, k);
  }

  lemma OrderWithLast(h: seq<Call>, g: seq<Call>, w: seq<string>, k: string)
    requires h != [] && g == h[..|h| - 1] && h[|h| - 1].key == k && (forall i :: 0 <= i < |w| ==> w[i] != k)
    requires forall i, j :: 0 <= i < j < |w| ==> LastUse(g, w[i]) < LastUse(g, w[j])
    ensures forall i, j :: 0 <= i < j < |w + [k]| ==> LastUse(h, (w + [k])[i]) < LastUse(h, (w + [k])[j])
  {
    assert forall i :: 0 <= i < |w| ==> LastUse(h, w[i]) == LastUse(g, w[i]) < |g|;
    assert LastUse(h, k) == |g|;
  }

  lemma SkippedIndex(s: seq<string>, p: nat, i: nat)
    requires p < |s| && i < |s| - 1
    ensures (s[..p] + s[p + 1..])[i] == s[if i < p then i else i + 1]
  {
  }

  lemma InOrder(h: seq<Call>, s: seq<string>, i: nat, j: nat)
    requires ByLastUse(h, s) && i < j < |s|
    ensures LastUse(h, s[i]) < LastUse(h, s[j])
  {
  }

  /** Moving a key to the end and then keeping the last `n`, or keeping the last `n` first: the
      eviction loop never loses a key that the bound still has room for. */
  lemma LastNAfterUse(s: seq<string>, k: string, n: nat)
    requires NoDup(s) && n >= 1
    ensures LastN(MoveToEnd(s, k), n) ==
              if k in LastN(s, n) then MoveToEnd(LastN(s, n), k) else LastN(LastN(s, n), n - 1) + [k]
  {
    var kept := LastN(s, n);
    var gone := s[..|s| - |kept|];
    assert s == gone + kept;
    if k in kept {
      KeepsMoved(gone, kept, k, n);
    } else {
      KeepsNewest(gone, kept, k, n);
    }
  }

  lemma KeepsMoved(gone: seq<string>, kept: seq<string>, k: string, n: nat)
    requires NoDup(gone + kept) && |kept| <= n && (|kept| < n ==> gone == []) && k in kept
    ensures LastN(MoveToEnd(gone + kept, k), n) == MoveToEnd(kept, k)
  {
    AbsentBefore(gone, kept, k);
    MoveToEndShape(kept, k);
    hide NoDup;
    WithoutConcat(gone, kept, k);
    WithoutAbsent(gone, k);
    assert MoveToEnd(gone + kept, k) == gone + MoveToEnd(kept, k);
    LastNOfConcat(gone, MoveToEnd(kept, k), n);
  }

  lemma AbsentBefore(a: seq<string>, b: seq<string>, k: string)
    requires NoDup(a + b) && k in b
    ensures k !in a && NoDup(b)
  {
    var j :| 0 <= j < |b| && b[j] == k;
    assert forall i :: 0 <= i < |a| ==> (a + b)[i] == a[i];
    assert forall i :: 0 <= i < |b| ==> (a + b)[|a| + i] == b[i];
  }

  lemma KeepsNewest(gone: seq<string>, kept: seq<string>, k: string, n: nat)
    requires n >= 1 && |kept| <= n && (|kept| < n ==> gone == []) && k !in kept
    ensures LastN(MoveToEnd(gone + kept, k), n) == LastN(kept, n - 1) + [k]
  {
    WithoutConcat(gone, kept, k);
    WithoutAbsent(kept, k);
    var a := Without(gone, k);
    if |kept| == n {
      assert a + kept + [k] == (a + kept[..1]) + (kept[1..] + [k]);
      LastNOfConcat(a + kept[..1], kept[1..] + [k], n);
    } else {
      assert a + kept + [k] == kept + [k];
    }
  }

  lemma LastNOfConcat(a: seq<string>, b: seq<string>, n: nat)
    requires |b| == n || (a == [] && |b| <= n)
    ensures LastN(a + b, n) == b
  {
  }

  lemma {:induction false} WithoutConcat(a: seq<string>, b: seq<string>, k: string)
    ensures Without(a + b, k) == Without(a, k) + Without(b, k)
  {
    if a == [] {
      assert a + b == b;
    } else {
      assert (a + b)[1..] == a[1..] + b;
      WithoutConcat(a[1..], b, k);
    }
  }

  /** The order after one call. */
  lemma KeysAfter(cfg: Config, t: Table, key: string, now: real)
    requires ValidConfig(cfg) && ValidTable(cfg, t, now)
    ensures Acquire(cfg, t, key, now).0.keys ==
            if key in t.keys then MoveToEnd(t.keys, key) else LastN(t.keys, cfg.maxBuckets - 1) + [key]
  {
    hide Earned, NoDup;
    assert key in t.keys <==> key in KeySet(t.keys);
  }

  /** One call keeps the resident keys the last ones of a list without repeats. */
  lemma StepOrder(cfg: Config, t: Table, s: seq<string>, key: string, now: real)
    requires ValidConfig(cfg) && ValidTable(cfg, t, now) && NoDup(s) && t.keys == LastN(s, cfg.maxBuckets)
    ensures Acquire(cfg, t, key, now).0.keys == LastN(MoveToEnd(s, key), cfg.maxBuckets)
  {
    hide Acquire, ValidTable, NoDup, LastN, MoveToEnd;
    KeysAfter(cfg, t, key, now);
    LastNAfterUse(s, key, cfg.maxBuckets);
  }

  /** LRU functional correctness: after any run the resident keys are exactly the last `maxBuckets`
      distinct keys, in order of last use. */
  lemma {:induction false} ResidentOrder(cfg: Config, h: seq<Call>, i: nat)
    requires ValidConfig(cfg) && Timely(h) && i <= |h|
    ensures TableAt(cfg, h, i).keys == LastN(Recency(h[..i]), cfg.maxBuckets)
  {
    hide Acquire, ValidTable, NoDup, MoveToEnd, ByLastUse;
    if i > 0 {
      hide LastN;
      ResidentOrder(cfg, h, i - 1);
      assert h[..i][..i - 1] == h[..i - 1];
      RecencyByLastUse(h[..i - 1]);
      TableInvariant(cfg, h, i - 1, h[i - 1].now);
      StepOrder(cfg, TableAt(cfg, h, i - 1), Recency(h[..i - 1]), h[i - 1].key, h[i - 1].now);
    }
  }

  /** A key is resident exactly when it has been used and fewer than `maxBuckets` distinct other keys
      have been used since its last use. */
  lemma Survives(cfg: Config, h: seq<Call>, i: nat, k: string)
    requires ValidConfig(cfg) && Timely(h) && i <= |h|
    ensures k in TableAt(cfg, h, i).buckets <==>
            k in KeysOf(h[..i]) && |UsedSince(h[..i], k)| < cfg.maxBuckets
  {
    var g := h[..i];
    var s := Recency(g);
    ResidentOrder(cfg, h, i);
    RecencyByLastUse(g);
    TableInvariant(cfg, h, i, LastTime(h, i, 0.0));
    assert k in TableAt(cfg, h, i).keys <==> k in KeySet(TableAt(cfg, h, i).keys);
    assert k in s <==> k in KeySet(s);
    if k in s {
      var p := SplitAt(s, k);
      TailIsUsedSince(g, s, p);
      NoDupSize(s[p + 1..]);
    }
  }

  lemma TailIsUsedSince(h: seq<Call>, s: seq<string>, p: nat)
    requires ByLastUse(h, s) && p < |s|
    ensures KeySet(s[p + 1..]) == UsedSince(h, s[p])
  {
    var from := LastUse(h, s[p]) + 1;
    forall x ensures x in KeySet(s[p + 1..]) <==> x in KeysOf(h[from..]) {
      KeyUsed(h, x);
      assert x in KeySet(s) <==> x in s;
      if x in s[p + 1..] {
        var q :| p < q < |s| && s[q] == x;
        assert h[from..][LastUse(h, x) - from].key == x;
      }
      if x in KeysOf(h[from..]) {
        var j :| 0 <= j < |h[from..]| && h[from..][j].key == x;
        assert h[from + j].key == x;
        assert LastUse(h, x) >= from;
        var q :| 0 <= q < |s| && s[q] == x;
        assert s[p + 1..][q - p - 1] == x;
      }
    }
  }

  lemma {:induction false} NoDupSize(s: seq<string>)
    requires NoDup(s)
    ensures |KeySet(s)| == |s|
  {
    if s != [] {
      NoDupSize(s[1..]);
      assert KeySet(s) == KeySet(s[1..]) + {s[0]};
      assert s[0] !in s[1..];
    }
  }

  // ---------------------------------------------------------------------------
  // Refinement of one unbounded bucket per key.

  datatype Solo = Unused | Used(bucket: Bucket)

  /** A bucket that serves `k` alone, for ever. */
  function SoloSpend(cfg: Config, s: Solo, now: real): (Bucket, Decision)
    requires ValidConfig(cfg)
  {
    Spend(cfg, if s.Used? then Refilled(cfg, s.bucket, now) else Full(cfg, now))
  }

  function SoloAt(cfg: Config, h: seq<Call>, k: string, i: nat): Solo
    requires ValidConfig(cfg) && i <= |h|
  {
    if i == 0 then Unused
    else if h[i - 1].key != k then SoloAt(cfg, h, k, i - 1)
    else Used(SoloSpend(cfg, SoloAt(cfg, h, k, i - 1), h[i - 1].now).0)
  }

  /** While `k` is not evicted its bucket is the one it would have alone: the table isolates keys. */
  lemma {:induction false} Isolation(cfg: Config, h: seq<Call>, k: string, i: nat)
    requires ValidConfig(cfg) && Timely(h) && i <= |h| && Evictions(cfg, h, k, 0, i) == 0
    ensures SoloAt(cfg, h, k, i) ==
            if k in TableAt(cfg, h, i).buckets then Used(TableAt(cfg, h, i).buckets[k]) else Unused
  {
    if i > 0 {
      Isolation(cfg, h, k, i - 1);
      TableInvariant(cfg, h, i - 1, h[i - 1].now);
    }
  }

  /** No key is evicted by a run with at most `maxBuckets` distinct keys. */
  lemma {:induction false} FewKeysNoEviction(cfg: Config, h: seq<Call>, k: string, i: nat)
    requires ValidConfig(cfg) && Timely(h) && i <= |h| && |KeysOf(h)| <= cfg.maxBuckets
    ensures Evictions(cfg, h, k, 0, i) == 0
  {
    hide Acquire;
    if i > 0 {
      FewKeysNoEviction(cfg, h, k, i - 1);
      Survives(cfg, h, i - 1, k);
      Survives(cfg, h, i, k);
      if k in KeysOf(h[..i - 1]) {
        FewUsedSince(h, k, i);
      }
    }
  }

  lemma FewUsedSince(h: seq<Call>, k: string, i: nat)
    requires 0 < i <= |h| && k in KeysOf(h[..i - 1])
    ensures k in KeysOf(h[..i]) && |UsedSince(h[..i], k)| < |KeysOf(h)|
  {
    var g := h[..i];
    var c :| c in h[..i - 1] && c.key == k;
    assert c in g && c in h;
    var rest := g[LastUse(g, k) + 1..];
    forall x | x in UsedSince(g, k) ensures x in KeysOf(h) - {k} {
      var j :| 0 <= j < |rest| && rest[j].key == x;
      assert rest[j] == g[LastUse(g, k) + 1 + j] && rest[j] in h;
    }
    SubsetSize(UsedSince(g, k), KeysOf(h) - {k});
  }

  lemma SubsetSize(a: set<string>, b: set<string>)
    requires a <= b
    ensures |a| <= |b|
  {
    assert |a| + |b - a| == |b| by {
      assert a + (b - a) == b;
    }
  }

  /** The bounded limiter refines independent unbounded buckets: with at most `maxBuckets` distinct
      keys every decision, wait included, is the one the key's own bucket would give. */
  lemma BoundedRefinesUnbounded(cfg: Config, h: seq<Call>, i: nat)
    requires ValidConfig(cfg) && Timely(h) && i < |h|
    requires |KeysOf(h)| <= cfg.maxBuckets || Evictions(cfg, h, h[i].key, 0, i) == 0
    ensures DecisionAt(cfg, h, i) == SoloSpend(cfg, SoloAt(cfg, h, h[i].key, i), h[i].now).1
  {
    if |KeysOf(h)| <= cfg.maxBuckets {
      FewKeysNoEviction(cfg, h, h[i].key, i);
    }
    Isolation(cfg, h, h[i].key, i);
  }
}
