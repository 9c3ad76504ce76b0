/** Which bearer tokens the substitution erases: those at which its scan begins a replacement. */
module RedactionScan {
  import opened Text
  import opened Redaction

  /** A stretch of text that the scan keeps, and the match after it that the scan replaces. */
  datatype Cut = Cut(kept: string, matched: string)

  datatype Scan = Scan(cuts: seq<Cut>, last: string)

  function Whole(cuts: seq<Cut>, last: string): string {
    if cuts == [] then last else cuts[0].kept + cuts[0].matched + Whole(cuts[1..], last)
  }

  function Masked(cuts: seq<Cut>, last: string): string {
    if cuts == [] then last else cuts[0].kept + REPLACEMENT + Masked(cuts[1..], last)
  }

  /** The cuts are those of a leftmost, greedy, non-overlapping scan. */
  ghost predicate IsScan(cuts: seq<Cut>, last: string) {
    if cuts == [] then !HasMatch(last)
    else FirstCut(cuts[0], Whole(cuts[1..], last)) && IsScan(cuts[1..], last)
  }

  ghost predicate FirstCut(c: Cut, rest: string) {
    var s := c.kept + c.matched + rest;
    && LongestMatch(s, |c.kept|, |c.kept + c.matched|)
    && forall m :: 0 <= m < |c.kept| ==> !MatchesAt(s, m)
  }

  /** The scan of a text. */
  function ScanOf(s: string): Scan
    decreases |s|
  {
    if s == [] then Scan([], [])
    else if Front(s, 0) then
      var r := ScanOf(s[MatchLength(s)..]);
      Scan([Cut([], s[..MatchLength(s)])] + r.cuts, r.last)
    else
      var r := ScanOf(s[1..]);
      if r.cuts == [] then Scan([], [s[0]] + r.last)
      else Scan([Cut([s[0]] + r.cuts[0].kept, r.cuts[0].matched)] + r.cuts[1..], r.last)
  }

  lemma Regroup(a: string, b: string, c: string, d: string)
    ensures a + b + c + d == a + (b + c + d)
  {
  }

  lemma LongestUnshifts(s: string, i: nat, j: nat)
    requires s != [] && LongestMatch(s[1..], i, j)
    ensures j + 1 <= |s| && LongestMatch(s, i + 1, j + 1)
  {
    var t, k := s[1..], i + 1;
    assert s[1..|s|] == t;
    SliceOfSlice(s, 1, |s|, i, j);
    assert s[k..j + 1] == t[i..j];
    forall m | j + 1 < m <= |s| ensures !Matches(s[k..m]) {
      SliceOfSlice(s, 1, |s|, i, m - 1);
    }
  }

  /** One more kept character in front. */
  lemma CutShifts(x: char, c: Cut, rest: string)
    requires FirstCut(c, rest) && !MatchesAt([x] + c.kept + c.matched + rest, 0)
    ensures FirstCut(Cut([x] + c.kept, c.matched), rest)
  {
    var t := c.kept + c.matched + rest;
    var s := [x] + c.kept + c.matched + rest;
    Regroup([x], c.kept, c.matched, rest);
    assert s[1..] == t;
    LongestUnshifts(s, |c.kept|, |c.kept + c.matched|);
    hide LongestMatch;
    forall m | 0 <= m < |c.kept| + 1 ensures !MatchesAt(s, m) {
      if m > 0 {
        MatchesAtTail(s, m - 1);
      }
    }
  }

  lemma {:induction false} ScanOfIsScan(s: string)
    ensures Whole(ScanOf(s).cuts, ScanOf(s).last) == s && IsScan(ScanOf(s).cuts, ScanOf(s).last)
    decreases |s|
  {
    if s == [] {
      NoMatchInShort([]);
    } else if Front(s, 0) {
      var n := MatchLength(s);
      var r := ScanOf(s[n..]);
      ScanOfIsScan(s[n..]);
      FrontIsMatch(s);
      MatchedScan(s, n, r);
    } else {
      var r := ScanOf(s[1..]);
      ScanOfIsScan(s[1..]);
      FrontMeansMatch(s);
      if r.cuts == [] {
        assert s == [s[0]] + r.last;
        NoMatchInFront(s);
      } else {
        ShiftedScan(s, r);
      }
    }
  }

  lemma MatchedScan(s: string, n: nat, r: Scan)
    requires LongestMatch(s, 0, n) && Whole(r.cuts, r.last) == s[n..] && IsScan(r.cuts, r.last)
    ensures n <= |s|
    ensures var cuts := [Cut([], s[..n])] + r.cuts; Whole(cuts, r.last) == s && IsScan(cuts, r.last)
  {
    var cuts := [Cut([], s[..n])] + r.cuts;
    assert cuts[1..] == r.cuts;
    assert [] + s[..n] + s[n..] == s;
    hide LongestMatch, HasMatch, MatchesAt;
  }

  lemma ShiftedScan(s: string, r: Scan)
    requires s != [] && r.cuts != [] && !MatchesAt(s, 0)
    requires Whole(r.cuts, r.last) == s[1..] && IsScan(r.cuts, r.last)
    ensures var cuts := [Cut([s[0]] + r.cuts[0].kept, r.cuts[0].matched)] + r.cuts[1..];
            Whole(cuts, r.last) == s && IsScan(cuts, r.last)
  {
    var c, tail := r.cuts[0], r.cuts[1..];
    var rest := Whole(tail, r.last);
    var cuts := [Cut([s[0]] + c.kept, c.matched)] + tail;
    assert cuts[1..] == tail;
    Regroup([s[0]], c.kept, c.matched, rest);
    assert s == [s[0]] + s[1..];
    CutShifts(s[0], c, rest);
    hide FirstCut, MatchesAt;
  }

  lemma NoMatchInShort(s: string)
    requires |s| < 8
    ensures !HasMatch(s)
  {
  }

  lemma NoMatchInFront(s: string)
    requires s != [] && !MatchesAt(s, 0) && !HasMatch(s[1..])
    ensures !HasMatch(s)
  {
    forall i | 0 <= i <= |s| ensures !MatchesAt(s, i) {
      if i > 0 {
        MatchesAtTail(s, i - 1);
        assert !MatchesAt(s[1..], i - 1);
      }
    }
  }

  /** The output is the scan with each match masked. */
  lemma {:induction false} ScanRedacts(cuts: seq<Cut>, last: string)
    requires IsScan(cuts, last)
    ensures Redact(Whole(cuts, last)) == Masked(cuts, last)
    decreases |cuts|
  {
    if cuts == [] {
      NoMatchUnchanged(last);
    } else {
      var c, rest := cuts[0], Whole(cuts[1..], last);
      var s := c.kept + c.matched + rest;
      ScanRedacts(cuts[1..], last);
      LeftmostLongest(s, |c.kept|, |c.kept + c.matched|);
      assert s[..|c.kept|] == c.kept && s[|c.kept + c.matched|..] == rest;
      hide IsScan, Redact, LongestMatch, MatchesAt;
    }
  }

  // ---------------------------------------------------------------------------
  // The output is independent of the erased tokens.

  /** The reader cannot tell two matches apart from what stands before them: every match begins with the
      letter b, which no stage of the pattern but the first and the token class accepts. */
  lemma {:induction false} SeamBlind(u: string, x: string, y: string, k: nat)
    requires k <= 7 && (u != [] || k > 0)
    requires x != [] && y != [] && ToLower(x[0]) == 'b' && ToLower(y[0]) == 'b'
    ensures Front(u + x, k) == Front(u + y, k)
    decreases |u|
  {
    if u == [] {
      assert u + x == x && u + y == y;
      assert IsTokenChar(x[0]) && IsTokenChar(y[0]) && !IsSpace(x[0]) && !IsSpace(y[0]);
    } else {
      assert (u + x)[1..] == u[1..] + x && (u + y)[1..] == u[1..] + y;
      SeamBlind(u[1..], x, y, if k < 7 then k + 1 else 7);
    }
  }

  lemma MatchBegins(w: string)
    requires Matches(w)
    ensures |w| >= 8 && ToLower(w[0]) == 'b' && IsTokenChar(w[0])
  {
    var i :| |WORD| < i < |w| && MatchesAs(w, i);
    assert Lower(w[..|WORD|])[0] == ToLower(w[0]);
  }

  lemma AfterGreedy(c: Cut, rest: string)
    requires FirstCut(c, rest)
    ensures Matches(c.matched) && (rest == [] || !IsTokenChar(rest[0]))
  {
    var s := c.kept + c.matched + rest;
    var i, j := |c.kept|, |c.kept + c.matched|;
    assert s[i..j] == c.matched;
    if rest != [] && IsTokenChar(rest[0]) {
      var p :| |WORD| < p < |c.matched| && MatchesAs(c.matched, p);
      var w := s[i..j + 1];
      assert w == c.matched + [rest[0]];
      assert w[..|WORD|] == c.matched[..|WORD|];
      assert MatchesAs(w, p);
    }
  }

  /** Another match in the place of the one replaced is replaced too. */
  lemma CutSwaps(kept: string, m1: string, rest1: string, m2: string, rest2: string)
    requires FirstCut(Cut(kept, m1), rest1) && Matches(m2) && (rest2 == [] || !IsTokenChar(rest2[0]))
    ensures FirstCut(Cut(kept, m2), rest2)
  {
    AfterGreedy(Cut(kept, m1), rest1);
    MatchBegins(m1);
    MatchBegins(m2);
    var s1, s2 := kept + m1 + rest1, kept + m2 + rest2;
    GreedyEnds(kept, m2, rest2);
    hide Matches, MatchesAt, LongestMatch, IsTokenChar;
    forall m | 0 <= m < |kept| ensures !MatchesAt(s2, m) {
      assert !MatchesAt(s1, m);
      assert s1 == kept + (m1 + rest1) && s2 == kept + (m2 + rest2);
      NothingEarlier(kept, m1 + rest1, m2 + rest2, m);
    }
  }

  lemma NothingEarlier(kept: string, x: string, y: string, m: nat)
    requires x != [] && y != [] && ToLower(x[0]) == 'b' && ToLower(y[0]) == 'b' && m < |kept|
    ensures MatchesAt(kept + x, m) <==> MatchesAt(kept + y, m)
  {
    SeamBlind(kept[m..], x, y, 0);
    assert (kept + x)[m..] == kept[m..] + x && (kept + y)[m..] == kept[m..] + y;
    MatchesAtSuffix(kept + x, m);
    MatchesAtSuffix(kept + y, m);
  }

  lemma GreedyEnds(kept: string, matched: string, rest: string)
    requires Matches(matched) && (rest == [] || !IsTokenChar(rest[0]))
    ensures LongestMatch(kept + matched + rest, |kept|, |kept + matched|)
  {
    var s := kept + matched + rest;
    var i, j := |kept|, |kept + matched|;
    var q :| |WORD| < q < |matched| && MatchesAs(matched, q);
    assert s[i..j] == matched;
    forall m | j < m <= |s| ensures !Matches(s[i..m]) {
      var t := s[i..];
      assert t[..|matched|] == matched && t[|matched|] == rest[0];
      assert t[0..m - i] == s[i..m];
      LongerIsNoMatch(t, q, |matched|, m - i);
    }
  }

  ghost predicate SameKept(a: seq<Cut>, b: seq<Cut>) {
    |a| == |b| && forall i :: 0 <= i < |a| ==> a[i].kept == b[i].kept
  }

  /** Between two matches some text is kept, or the first would have read on. */
  lemma KeptBetween(c: Cut, rest: string)
    requires Matches(c.matched) && var s := c.kept + c.matched + rest; s == [] || !IsTokenChar(s[0])
    ensures c.kept != []
  {
    MatchBegins(c.matched);
    var first := (c.kept + c.matched + rest)[0];
    assert first == (c.kept + c.matched)[0];
  }

  /** Exchanging every replaced match for any other match leaves a scan. */
  lemma {:induction false} ScanSwaps(a: seq<Cut>, b: seq<Cut>, last: string)
    requires IsScan(a, last) && SameKept(a, b) && forall i :: 0 <= i < |b| ==> Matches(b[i].matched)
    ensures IsScan(b, last)
    decreases |a|
  {
    if a != [] {
      var rest1, rest2 := Whole(a[1..], last), Whole(b[1..], last);
      ScanSwaps(a[1..], b[1..], last);
      AfterGreedy(a[0], rest1);
      if a[1..] != [] {
        var c, d := a[1..][0], b[1..][0];
        AfterGreedy(c, Whole(a[1..][1..], last));
        KeptBetween(c, Whole(a[1..][1..], last));
        assert c.kept == d.kept == b[1].kept;
        assert rest2[0] == d.kept[0] == rest1[0];
      }
      CutSwaps(a[0].kept, a[0].matched, rest1, b[0].matched, rest2);
      assert b[0] == Cut(a[0].kept, b[0].matched);
    }
  }

  /** Tokens erased: two texts whose scans keep the same stretches have the same output, whatever matches
      stand between them, at any number of places. */
  lemma TokensErased(a: seq<Cut>, b: seq<Cut>, last: string)
    requires IsScan(a, last) && SameKept(a, b) && forall i :: 0 <= i < |b| ==> Matches(b[i].matched)
    ensures Redact(Whole(a, last)) == Redact(Whole(b, last)) == Masked(a, last)
  {
    ScanSwaps(a, b, last);
    ScanRedacts(a, last);
    ScanRedacts(b, last);
    SameMask(a, b, last);
  }

  lemma {:induction false} SameMask(a: seq<Cut>, b: seq<Cut>, last: string)
    requires SameKept(a, b)
    ensures Masked(a, last) == Masked(b, last)
    decreases |a|
  {
    if a != [] {
      SameMask(a[1..], b[1..], last);
    }
  }

  // ---------------------------------------------------------------------------
  // Which matches the scan begins at.

  /** Position `p` is the first of a replaced match. */
  predicate StartsCut(cuts: seq<Cut>, p: nat) {
    cuts != [] &&
    var n := |cuts[0].kept + cuts[0].matched|;
    (p == |cuts[0].kept| || (p >= n && StartsCut(cuts[1..], p - n)))
  }

  /** Position `p` is inside a replaced match. */
  predicate InCut(cuts: seq<Cut>, p: nat) {
    cuts != [] &&
    var n := |cuts[0].kept + cuts[0].matched|;
    (|cuts[0].kept| <= p < n || (p >= n && InCut(cuts[1..], p - n)))
  }

  /** One match begins inside another. */
  ghost predicate Overlap(s: string) {
    exists q, p, j :: OverlapAt(s, q, p, j)
  }

  ghost predicate OverlapAt(s: string, q: int, p: int, j: int) {
    0 <= q < p < j <= |s| && Matches(s[q..j]) && MatchesAt(s, p)
  }

  lemma SuffixMatch(s: string, n: nat, p: nat)
    requires n <= p <= |s|
    ensures MatchesAt(s, p) <==> MatchesAt(s[n..], p - n)
  {
    MatchesAtSuffix(s, p);
    MatchesAtSuffix(s[n..], p - n);
    assert s[n..][p - n..] == s[p..];
  }

  lemma AfterCut(cuts: seq<Cut>, last: string)
    requires cuts != []
    ensures var n := |cuts[0].kept + cuts[0].matched|;
            n <= |Whole(cuts, last)| && Whole(cuts, last)[n..] == Whole(cuts[1..], last)
  {
  }

  /** Every match begins inside a replaced one. */
  lemma {:induction false} MatchesAreCut(cuts: seq<Cut>, last: string, p: nat)
    requires IsScan(cuts, last) && p <= |Whole(cuts, last)| && MatchesAt(Whole(cuts, last), p)
    ensures InCut(cuts, p)
    decreases |cuts|
  {
    if cuts != [] {
      var s, n := Whole(cuts, last), |cuts[0].kept + cuts[0].matched|;
      AfterCut(cuts, last);
      if p >= n {
        SuffixMatch(s, n, p);
        MatchesAreCut(cuts[1..], last, p - n);
      }
    }
  }

  /** A position inside a replaced match, other than its first, shows an overlap when a match begins there. */
  lemma {:induction false} InsideOverlaps(cuts: seq<Cut>, last: string, p: nat)
    requires IsScan(cuts, last) && InCut(cuts, p) && !StartsCut(cuts, p)
    requires p <= |Whole(cuts, last)| && MatchesAt(Whole(cuts, last), p)
    ensures Overlap(Whole(cuts, last))
    decreases |cuts|
  {
    var s, n := Whole(cuts, last), |cuts[0].kept + cuts[0].matched|;
    AfterCut(cuts, last);
    if p < n {
      assert OverlapAt(s, |cuts[0].kept|, p, n);
    } else {
      SuffixMatch(s, n, p);
      InsideOverlaps(cuts[1..], last, p - n);
      OverlapUnshifts(s, n);
    }
  }

  lemma OverlapUnshifts(s: string, n: nat)
    requires n <= |s| && Overlap(s[n..])
    ensures Overlap(s)
  {
    var t := s[n..];
    var q, p, j :| OverlapAt(t, q, p, j);
    SuffixMatch(s, n, n + p);
    SliceOfSlice(s, n, |s|, q, j);
    assert s[n..|s|] == t;
    assert OverlapAt(s, n + q, n + p, n + j);
  }

  /** No replaced match begins inside a match that is itself replaced from its start. */
  lemma {:induction false} StartsApart(cuts: seq<Cut>, last: string, q: nat, p: nat, j: nat)
    requires IsScan(cuts, last) && StartsCut(cuts, q)
    requires q < p < j <= |Whole(cuts, last)| && Matches(Whole(cuts, last)[q..j])
    ensures !StartsCut(cuts, p)
    decreases |cuts|
  {
    var s, n := Whole(cuts, last), |cuts[0].kept + cuts[0].matched|;
    AfterCut(cuts, last);
    if q == |cuts[0].kept| {
      assert j <= n;
    } else {
      SliceOfSlice(s, n, |s|, q - n, j - n);
      assert s[n..|s|] == s[n..];
      StartsApart(cuts[1..], last, q - n, p - n, j - n);
    }
  }

  /** Every bearer token is erased, exactly: the scan begins a replacement at every match of a text if and
      only if no match begins inside another. */
  lemma EveryTokenErasedExactly(s: string)
    ensures (forall p: nat :: p <= |s| && MatchesAt(s, p) ==> StartsCut(ScanOf(s).cuts, p)) <==> !Overlap(s)
  {
    var cuts, last := ScanOf(s).cuts, ScanOf(s).last;
    ScanOfIsScan(s);
    if !Overlap(s) {
      forall p: nat | p <= |s| && MatchesAt(s, p) ensures StartsCut(cuts, p) {
        MatchesAreCut(cuts, last, p);
        if !StartsCut(cuts, p) {
          InsideOverlaps(cuts, last, p);
        }
      }
    } else {
      var q, p, j :| OverlapAt(s, q, p, j);
      assert MatchesAt(s, q);
      if StartsCut(cuts, q) {
        StartsApart(cuts, last, q, p, j);
      }
    }
  }

  /** An overlap prints a token: when the word itself is read as the token of the word before it, what
      follows is kept. */
  lemma DoubledWordShowsToken(c: char)
    requires IsTokenChar(c)
    ensures Matches("Bearer " + [c]) && Redact("Bearer Bearer " + [c]) == "Bearer **** " + [c]
  {
    var w, v := "Bearer " + [c], "Bearer Bearer";
    WordMatches(w);
    WordMatches(v);
    hide Redact, Matches, LongestMatch, MatchesAt;
    var after := " " + [c];
    NoMatchInShort(after);
    NoMatchUnchanged(after);
    GreedyEnds("", v, after);
    var s := "" + v + after;
    LeftmostLongest(s, 0, |v|);
    assert s[|v|..] == after && s[..0] == "";
    assert s == "Bearer Bearer " + [c];
    assert "" + REPLACEMENT + after == "Bearer **** " + [c];
  }

  lemma WordMatches(s: string)
    requires |s| > 7 && s[..6] == "Bearer" && s[6] == ' ' && forall x :: 7 <= x < |s| ==> IsTokenChar(s[x])
    ensures Matches(s)
  {
    hide IsTokenChar;
    assert Lower("Bearer") == "bearer";
    assert MatchesAs(s, 7);
  }
}
