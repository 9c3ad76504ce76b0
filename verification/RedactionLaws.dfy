/** What the bearer pattern reads, with its letters, its whitespace and its token characters written out. */
module RedactionLaws {
  import opened Text
  import opened TextLaws
  import opened Redaction
  import opened RedactionScan

  const ALPHABET := "ABCDEFGHIJKLMNOPQRSTUVWXYZ" + "abcdefghijklmnopqrstuvwxyz" + "0123456789" + "._-+/=~"

  /** The letters outside ASCII whose case variants are ASCII letters. */
  const VARIANTS := "\U{130}\U{131}\U{17F}\U{212A}"

  /** Any of the 64 spellings of the word. */
  predicate IsBearer(w: string) {
    |w| == 6 && w[0] in "Bb" && w[1] in "Ee" && w[2] in "Aa" && w[3] in "Rr" && w[4] in "Ee" && w[5] in "Rr"
  }

  predicate IsToken(s: string) {
    s != "" && forall c :: c in s ==> c in ALPHABET || c in VARIANTS
  }

  lemma AlphabetExactly(c: char)
    ensures IsTokenChar(c) <==> c in ALPHABET || c in VARIANTS
  {
    UpperLetterExactly(c);
    LowerLetterExactly(c);
    DigitExactly(c);
    assert ALPHABET == UPPER_LETTERS + LOWER_LETTERS + "0123456789" + "._-+/=~";
    hide UPPER_LETTERS, LOWER_LETTERS, ALPHABET;
  }

  lemma BearerExactly(w: string)
    requires |w| == 6
    ensures Lower(w) == WORD <==> IsBearer(w)
  {
    var l := Lower(w);
    assert l == WORD <==> l[0] == 'b' && l[1] == 'e' && l[2] == 'a' && l[3] == 'r' && l[4] == 'e' && l[5] == 'r';
    LetterCases(w[0]);
    LetterCases(w[1]);
    LetterCases(w[2]);
    LetterCases(w[3]);
    LetterCases(w[4]);
    LetterCases(w[5]);
    hide Lower, ToLower, WORD;
  }

  lemma LetterCases(c: char)
    ensures ToLower(c) == 'b' <==> c in "Bb"
    ensures ToLower(c) == 'e' <==> c in "Ee"
    ensures ToLower(c) == 'a' <==> c in "Aa"
    ensures ToLower(c) == 'r' <==> c in "Rr"
  {
  }

  /** A match is a spelling of the word, whitespace, and a token. */
  ghost predicate IsMatch(w: string) {
    exists i :: 6 < i < |w| && IsBearer(w[..6]) && AllSpace(w[6..i]) && IsToken(w[i..])
  }

  lemma MatchAt(w: string, i: nat)
    requires 6 < i < |w|
    ensures MatchesAs(w, i) <==> IsBearer(w[..6]) && AllSpace(w[6..i]) && IsToken(w[i..])
  {
    BearerExactly(w[..6]);
    forall x | 6 <= x < i ensures IsSpace(w[x]) <==> w[6..i][x - 6] in WHITESPACE {
      SpacesExactly(w[x]);
    }
    forall x | i <= x < |w| ensures IsTokenChar(w[x]) <==> w[i..][x - i] in ALPHABET || w[i..][x - i] in VARIANTS {
      AlphabetExactly(w[x]);
    }
    hide IsSpace, IsTokenChar, WHITESPACE, ALPHABET, VARIANTS, Lower, IsBearer;
    Everywhere(w, i);
  }

  lemma Everywhere(w: string, i: nat)
    requires 6 < i < |w|
    requires forall x :: 6 <= x < i ==> (IsSpace(w[x]) <==> w[6..i][x - 6] in WHITESPACE)
    requires forall x :: i <= x < |w| ==>
               (IsTokenChar(w[x]) <==> w[i..][x - i] in ALPHABET || w[i..][x - i] in VARIANTS)
    ensures (forall x :: 6 <= x < i ==> IsSpace(w[x])) <==> AllSpace(w[6..i])
    ensures (forall x :: i <= x < |w| ==> IsTokenChar(w[x])) <==> IsToken(w[i..])
  {
    hide IsSpace, IsTokenChar, WHITESPACE, ALPHABET, VARIANTS;
    assert forall x :: 6 <= x < i ==> w[6..i][x - 6] == w[x] && w[x] in w[6..i];
    assert forall x :: i <= x < |w| ==> w[i..][x - i] == w[x] && w[x] in w[i..];
  }

  /** The pattern, exactly. */
  lemma MatchesExactly(w: string)
    ensures Matches(w) <==> IsMatch(w)
  {
    forall i | 6 < i < |w| ensures MatchesAs(w, i) <==> IsBearer(w[..6]) && AllSpace(w[6..i]) && IsToken(w[i..]) {
      MatchAt(w, i);
    }
  }

  /** A bearer token is erased whole: whatever the spelling of the word and the whitespace after it, the
      token goes, up to the first character that is no token character. */
  lemma BearerErased(word: string, gap: string, token: string, rest: string)
    requires IsBearer(word) && gap != "" && AllSpace(gap) && IsToken(token)
    requires rest == "" || (rest[0] !in ALPHABET && rest[0] !in VARIANTS)
    ensures Redact(word + gap + token + rest) == "Bearer ****" + Redact(rest)
  {
    var w := word + gap + token;
    var i := |word + gap|;
    assert w[..6] == word && w[6..i] == gap && w[i..] == token;
    MatchesExactly(w);
    assert IsMatch(w);
    if rest != "" {
      AlphabetExactly(rest[0]);
    }
    var s := "" + w + rest;
    hide Redact, Matches, LongestMatch, MatchesAt, IsTokenChar, IsMatch, WHITESPACE, ALPHABET, VARIANTS;
    GreedyEnds("", w, rest);
    LeftmostLongest(s, 0, |"" + w|);
    assert s[|w|..] == rest && s[..0] == "" && s == word + gap + token + rest && "" + w == w;
    assert REPLACEMENT == "Bearer ****";
    assert "" + REPLACEMENT + Redact(rest) == "Bearer ****" + Redact(rest);
  }
}
