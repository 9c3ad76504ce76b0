/** The bearer-token scrubber of `_RedactingFormatter`: the substitution of
    `Bearer\s+[A-Za-z0-9._\-+/=~]+`, case ignored, by `Bearer ****`. */
module Redaction {
  import opened Text

  const WORD := "bearer"
  const REPLACEMENT := "Bearer ****"

  /** The token class. With case ignored, Python's `[A-Za-z]` also matches four letters whose case
      variants are ASCII: dotted capital I, dotless i, long s and the Kelvin sign. */
  predicate IsTokenChar(c: char) {
    || 'A' <= c <= 'Z' || 'a' <= c <= 'z' || '0' <= c <= '9'
    || c in "._-+/=~" || c in "\U{130}\U{131}\U{17F}\U{212A}"
  }

  // ---------------------------------------------------------------------------
  // What the pattern means.

  /** `w` is a match: the word, then whitespace, then token characters. */
  ghost predicate Matches(w: string) {
    exists i :: |WORD| < i < |w| && MatchesAs(w, i)
  }

  ghost predicate MatchesAs(w: string, i: nat)
    requires |WORD| < i < |w|
  {
    && Lower(w[..|WORD|]) == WORD
    && (forall x :: |WORD| <= x < i ==> IsSpace(w[x]))
    && (forall x :: i <= x < |w| ==> IsTokenChar(w[x]))
  }

  /** Some match begins at `s[i]`. */
  ghost predicate MatchesAt(s: string, i: nat) {
    exists j :: i <= j <= |s| && Matches(s[i..j])
  }

  ghost predicate HasMatch(s: string) {
    exists i :: 0 <= i <= |s| && MatchesAt(s, i)
  }

  // ---------------------------------------------------------------------------
  // The substitution: leftmost, greedy, not overlapping.

  /** Does a match begin at the front of `s`, when the first `k` stages of the pattern (the six letters,
      then the first whitespace) are already read? */
  predicate Front(s: string, k: nat)
    requires k <= 7
    decreases |s|
  {
    s != [] &&
    if k < 6 then ToLower(s[0]) == WORD[k] && Front(s[1..], k + 1)
    else if k == 6 then IsSpace(s[0]) && Front(s[1..], 7)
    else IsTokenChar(s[0]) || (IsSpace(s[0]) && Front(s[1..], 7))
  }

  function Run(s: string, p: char -> bool): (n: nat)
    ensures n <= |s| && (forall x :: 0 <= x < n ==> p(s[x])) && (n < |s| ==> !p(s[n]))
  {
    if s != [] && p(s[0]) then 1 + Run(s[1..], p) else 0
  }

  /** The length of the greedy match at the front: the word, all the whitespace, all the token characters. */
  function MatchLength(s: string): (n: nat)
    requires Front(s, 0)
    ensures |WORD| <= n <= |s|
  {
    FrontLetters(s, 0);
    var spaces := Run(s[|WORD|..], IsSpace);
    |WORD| + spaces + Run(s[|WORD| + spaces..], IsTokenChar)
  }

  function Redact(s: string): string
    decreases |s|
  {
    if s == [] then []
    else if Front(s, 0) then REPLACEMENT + Redact(s[MatchLength(s)..])
    else [s[0]] + Redact(s[1..])
  }

  lemma {:induction false} FrontLetters(s: string, k: nat)
    requires k <= 6 && Front(s, k)
    ensures |s| >= 6 - k + 2
    ensures forall x :: k <= x < 6 ==> ToLower(s[x - k]) == WORD[x]
    ensures Front(s[6 - k..], 6)
    decreases 6 - k
  {
    if k < 6 {
      FrontLetters(s[1..], k + 1);
      assert s[1..][5 - k..] == s[6 - k..];
    }
  }

  /** Spaces and token characters are different, so the pattern never backtracks. */
  lemma SpaceIsNotToken(c: char)
    ensures !(IsSpace(c) && IsTokenChar(c))
  {
  }

  // ---------------------------------------------------------------------------
  // `Front` and `MatchLength` are what the pattern means.

  lemma {:induction false} FrontSpaces(s: string)
    ensures Front(s, 7) <==> Run(s, IsSpace) < |s| && IsTokenChar(s[Run(s, IsSpace)])
    decreases |s|
  {
    if s != [] {
      SpaceIsNotToken(s[0]);
      if IsSpace(s[0]) {
        FrontSpaces(s[1..]);
      }
    }
  }

  /** No longer piece from `i` on is a match. */
  ghost predicate LongestMatch(s: string, i: nat, j: nat) {
    i <= j <= |s| && Matches(s[i..j]) && forall m :: j < m <= |s| ==> !Matches(s[i..m])
  }

  lemma SpacesRead(s: string)
    requires Front(s, 6)
    ensures var n := Run(s, IsSpace); 1 <= n < |s| && IsTokenChar(s[n])
  {
    FrontSpaces(s[1..]);
    hide IsSpace, IsTokenChar;
    var n := Run(s[1..], IsSpace);
    assert s[1..][n] == s[1 + n];
  }

  /** The greedy match is a match: the word, at least one space up to `i`, at least one token character. */
  lemma GreedyIsMatch(s: string) returns (i: nat)
    requires Front(s, 0)
    ensures |WORD| < i < MatchLength(s) && MatchesAs(s[..MatchLength(s)], i)
    ensures MatchLength(s) < |s| ==> !IsTokenChar(s[MatchLength(s)])
  {
    hide Front, IsSpace, IsTokenChar;
    FrontLetters(s, 0);
    var rest := s[|WORD|..];
    SpacesRead(rest);
    i := |WORD| + Run(rest, IsSpace);
    var toks := s[i..];
    assert toks[0] == rest[i - |WORD|];
    assert forall x :: |WORD| <= x < i ==> s[x] == rest[x - |WORD|];
    assert forall x :: i <= x < |s| ==> s[x] == toks[x - i];
    var w := s[..MatchLength(s)];
    assert Lower(w[..|WORD|]) == WORD by {
      assert w[..|WORD|] == s[..|WORD|];
    }
  }

  /** The greedy match is the longest. */
  lemma FrontIsMatch(s: string)
    requires Front(s, 0)
    ensures LongestMatch(s, 0, MatchLength(s))
  {
    var i := GreedyIsMatch(s);
    var n := MatchLength(s);
    var w := s[..n];
    assert s[0..n] == w && Matches(w);
    forall m | n < m <= |s| ensures !Matches(s[0..m]) {
      LongerIsNoMatch(s, i, n, m);
    }
  }

  lemma LongerIsNoMatch(s: string, i: nat, n: nat, m: nat)
    requires |WORD| < i < n < m <= |s| && MatchesAs(s[..n], i) && !IsTokenChar(s[n])
    ensures !Matches(s[0..m])
  {
    var v, w := s[0..m], s[..n];
    forall p | |WORD| < p < m ensures !MatchesAs(v, p) {
      assert v[n] == s[n] && v[i] == w[i];
      SpaceIsNotToken(v[i]);
    }
  }

  lemma MatchIsFront(s: string, j: nat)
    requires j <= |s| && Matches(s[..j])
    ensures Front(s, 0)
  {
    var w := s[..j];
    var i :| |WORD| < i < |w| && MatchesAs(w, i);
    var rest := s[|WORD|..];
    assert forall x :: |WORD| <= x < i ==> IsSpace(w[x]) && w[x] == rest[x - |WORD|];
    assert IsTokenChar(w[i]) && w[i] == rest[i - |WORD|];
    SpacesThenToken(rest, i - |WORD|);
    assert Front(rest, 6);
    forall x | 0 <= x < 6 ensures ToLower(s[x]) == WORD[x] {
      assert Lower(w[..|WORD|])[x] == ToLower(s[x]);
    }
    LettersThenFront(s, 0);
  }

  lemma {:induction false} SpacesThenToken(s: string, n: nat)
    requires n < |s| && (forall x :: 0 <= x < n ==> IsSpace(s[x])) && IsTokenChar(s[n])
    ensures Front(s, 7) && (n > 0 ==> Front(s, 6))
    decreases n
  {
    if n > 0 {
      SpacesThenToken(s[1..], n - 1);
    }
  }

  lemma {:induction false} LettersThenFront(s: string, k: nat)
    requires k <= 6 <= |s| + k && (forall x :: k <= x < 6 ==> ToLower(s[x - k]) == WORD[x]) && Front(s[6 - k..], 6)
    ensures Front(s, k)
    decreases 6 - k
  {
    if k < 6 {
      assert s[1..][6 - (k + 1)..] == s[6 - k..];
      LettersThenFront(s[1..], k + 1);
    } else {
      assert s[0..] == s;
    }
  }

  lemma FrontMeansMatch(s: string)
    ensures Front(s, 0) <==> MatchesAt(s, 0)
  {
    if Front(s, 0) {
      FrontIsMatch(s);
    }
    if MatchesAt(s, 0) {
      var j :| 0 <= j <= |s| && Matches(s[0..j]);
      assert s[0..j] == s[..j];
      MatchIsFront(s, j);
    }
  }

  lemma MatchesAtSuffix(s: string, i: nat)
    requires i <= |s|
    ensures MatchesAt(s, i) <==> Front(s[i..], 0)
  {
    FrontMeansMatch(s[i..]);
    if MatchesAt(s, i) {
      var j :| i <= j <= |s| && Matches(s[i..j]);
      assert s[i..][0..j - i] == s[i..j];
    }
    if MatchesAt(s[i..], 0) {
      var j :| 0 <= j <= |s[i..]| && Matches(s[i..][0..j]);
      assert s[i..][0..j] == s[i..i + j];
    }
  }

  // ---------------------------------------------------------------------------
  // What the substitution does.

  /** The substitution is the leftmost one: text up to the first match is kept, the longest match there
      is replaced, and the rest is treated the same way. */
  lemma {:induction false} LeftmostLongest(s: string, i: nat, j: nat)
    requires LongestMatch(s, i, j)
    requires forall m :: 0 <= m < i ==> !MatchesAt(s, m)
    ensures Redact(s) == s[..i] + REPLACEMENT + Redact(s[j..])
    decreases i
  {
    hide MatchesAt, LongestMatch, Redact;
    if i == 0 {
      FrontReplaced(s, j);
      assert s[..0] == [];
    } else {
      LeftmostShifts(s, i, j);
      var t := s[1..];
      LeftmostLongest(t, i - 1, j - 1);
      SuffixOfSuffix(s, j);
      KeptBefore(s, i, Redact(t), REPLACEMENT, Redact(s[j..]));
    }
  }

  lemma LeftmostShifts(s: string, i: nat, j: nat)
    requires 0 < i && LongestMatch(s, i, j) && forall m :: 0 <= m < i ==> !MatchesAt(s, m)
    ensures i <= j <= |s| && LongestMatch(s[1..], i - 1, j - 1) && forall m :: 0 <= m < i - 1 ==> !MatchesAt(s[1..], m)
    ensures Redact(s) == [s[0]] + Redact(s[1..])
  {
    assert !MatchesAt(s, 0);
    FrontKept(s);
    LongestShifts(s, i, j);
    forall m | 0 <= m < i - 1 ensures !MatchesAt(s[1..], m) {
      assert !MatchesAt(s, m + 1);
      MatchesAtTail(s, m);
    }
  }

  lemma KeptBefore(s: string, i: nat, out: string, mid: string, tail: string)
    requires 0 < i <= |s| && out == s[1..][..i - 1] + mid + tail
    ensures [s[0]] + out == s[..i] + mid + tail
  {
    assert s[..i] == [s[0]] + s[1..][..i - 1];
  }

  lemma SuffixOfSuffix(s: string, j: nat)
    requires 0 < j <= |s|
    ensures s[1..][j - 1..] == s[j..]
  {
  }

  lemma FrontReplaced(s: string, j: nat)
    requires LongestMatch(s, 0, j)
    ensures Redact(s) == REPLACEMENT + Redact(s[j..])
  {
    assert s[0..j] == s[..j];
    MatchIsFront(s, j);
    FrontIsMatch(s);
    assert j == MatchLength(s);
  }

  lemma FrontKept(s: string)
    requires s != [] && !MatchesAt(s, 0)
    ensures Redact(s) == [s[0]] + Redact(s[1..])
  {
    FrontMeansMatch(s);
  }

  lemma LongestShifts(s: string, i: nat, j: nat)
    requires 0 < i && LongestMatch(s, i, j)
    ensures j > 0 && LongestMatch(s[1..], i - 1, j - 1)
  {
    var t, p := s[1..], i - 1;
    assert t[p..j - 1] == s[i..j];
    forall m | j - 1 < m <= |t| ensures !Matches(t[p..m]) {
      assert t[p..m] == s[i..m + 1];
    }
  }

  lemma MatchesAtTail(s: string, i: nat)
    requires i < |s|
    ensures MatchesAt(s[1..], i) <==> MatchesAt(s, i + 1)
  {
    MatchesAtSuffix(s[1..], i);
    MatchesAtSuffix(s, i + 1);
    assert s[1..][i..] == s[i + 1..];
  }

  /** The asterisks end the match that the replacement begins. */
  lemma ReplacementIsNoMatch(rest: string)
    ensures !Front(REPLACEMENT + rest, 0)
  {
    var out := REPLACEMENT + rest;
    var stars := out[6..][1..];
    assert stars[0] == out[7] == '*' && !IsTokenChar('*') && !IsSpace('*');
    assert out[6..][0] == ' ' && !Front(stars, 7);
    assert !Front(out[6..], 6);
    if Front(out, 0) {
      FrontLetters(out, 0);
    }
  }

  /** Reading the output from any inner stage of the pattern, one never gets further than in the input:
      the replacement begins like the match it stands for, and its asterisks end every match. */
  lemma {:induction false} NothingCompleted(s: string, k: nat)
    requires k <= 7 && Front(Redact(s), k)
    ensures k > 0 && Front(s, k)
    decreases |s|
  {
    if Front(s, 0) {
      var out := Redact(s);
      assert out[0] == 'B' && ToLower(out[0]) == 'b';
      FrontLetters(s, 0);
      assert ToLower(s[0]) == 'b';
      ReplacementIsNoMatch(Redact(s[MatchLength(s)..]));
    } else {
      assert Redact(s) == [s[0]] + Redact(s[1..]);
      assert Redact(s)[1..] == Redact(s[1..]);
      if k < 6 {
        NothingCompleted(s[1..], k + 1);
      } else if k == 6 || !IsTokenChar(s[0]) {
        NothingCompleted(s[1..], 7);
      }
    }
  }

  /** What is left of the output from any position on is no match: after dropping a character of the
      output one is inside a replacement or at the output for a later part of the input. */
  lemma {:induction false} NoFrontAnywhere(s: string, i: nat)
    requires i <= |Redact(s)|
    ensures !Front(Redact(s)[i..], 0)
    decreases |s|
  {
    var out := Redact(s);
    if i == 0 {
      assert out[0..] == out;
      if Front(out, 0) {
        NothingCompleted(s, 0);
      }
    } else if Front(s, 0) {
      var rest := s[MatchLength(s)..];
      if i < |REPLACEMENT| {
        InsideReplacement(Redact(rest), i);
      } else {
        NoFrontAnywhere(rest, i - |REPLACEMENT|);
        assert out[i..] == Redact(rest)[i - |REPLACEMENT|..];
      }
    } else {
      NoFrontAnywhere(s[1..], i - 1);
      assert out[i..] == Redact(s[1..])[i - 1..];
    }
  }

  lemma InsideReplacement(rest: string, i: nat)
    requires 0 < i < |REPLACEMENT|
    ensures !Front((REPLACEMENT + rest)[i..], 0)
  {
    assert (REPLACEMENT + rest)[i..][0] == REPLACEMENT[i];
    assert forall x :: 1 <= x < |REPLACEMENT| ==> ToLower(REPLACEMENT[x]) != 'b';
  }

  /** Redaction is complete: the output holds no match, not even across the seams. */
  lemma RedactionComplete(s: string)
    ensures !HasMatch(Redact(s))
  {
    var out := Redact(s);
    forall i | 0 <= i <= |out| ensures !MatchesAt(out, i) {
      NoFrontAnywhere(s, i);
      MatchesAtSuffix(out, i);
    }
  }

  lemma {:induction false} NoMatchUnchanged(s: string)
    requires !HasMatch(s)
    ensures Redact(s) == s
    decreases |s|
  {
    if s != [] {
      FrontMeansMatch(s);
      assert !MatchesAt(s, 0);
      forall i | 0 <= i <= |s[1..]| ensures !MatchesAt(s[1..], i) {
        MatchesAtTail(s, i);
        assert !MatchesAt(s, i + 1);
      }
      NoMatchUnchanged(s[1..]);
    }
  }

  /** A string is left alone exactly when it holds no bearer token, and redacting twice is redacting once. */
  lemma RedactionIdempotent(s: string)
    ensures Redact(s) == s <==> !HasMatch(s)
    ensures Redact(Redact(s)) == Redact(s)
  {
    RedactionComplete(s);
    NoMatchUnchanged(Redact(s));
    if !HasMatch(s) {
      NoMatchUnchanged(s);
    }
  }
}
