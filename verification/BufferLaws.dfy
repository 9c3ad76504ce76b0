/** What the handoff texts lose, and when two texts share a prefix, with the preambles, the quotes, the bracket
    and the hundred characters written out. */
module BufferLaws {
  import opened Text
  import opened TextLaws
  import opened StreamBuffer

  // ---------------------------------------------------------------------------
  // Preambles and quotes.

  predicate IsPreamble(p: string) {
    || p == "here is the handoff message:"
    || p == "here is a brief handoff message:"
    || p == "here is a brief handoff message that summarises"
    || p == "handoff message:"
  }

  /** `s` begins with `p`, in any case. */
  predicate Begins(s: string, p: string) {
    |p| <= |s| && Lower(s[..|p|]) == p
  }

  /** `r` is the trimmed text `s` without its preamble, if it has one. */
  ghost predicate WithoutPreamble(s: string, r: string) {
    || (exists p :: IsPreamble(p) && Begins(s, p) && Core(s[|p|..], r))
    || (r == s && forall p :: IsPreamble(p) ==> !Begins(s, p))
  }

  /** `r` is `s` without one pair of quotes around it; a lone quote counts as a pair. */
  ghost predicate WithoutQuotes(s: string, r: string) {
    if |s| >= 2 && s[0] == '"' && s[|s| - 1] == '"' then Core(s[1..|s| - 1], r)
    else r == if s == "\"" then "" else s
  }

  lemma PreamblesExactly(p: string)
    ensures IsPreamble(p) <==> p in Preambles()
  {
    var l := Preambles();
    assert l[0] in l && l[1] in l && l[2] in l && l[3] in l;
  }

  lemma BeginsExactly(s: string, p: string)
    ensures Begins(s, p) <==> p <= Lower(s)
  {
    if |p| <= |s| {
      assert Lower(s)[..|p|] == Lower(s[..|p|]);
    }
  }

  lemma {:induction false} NoPreamble(s: string, from: nat)
    requires forall i :: from <= i < |Preambles()| ==> !(Preambles()[i] <= Lower(s))
    ensures StripPreamble(s, from) == s
    decreases |Preambles()| - from
  {
    hide Preambles;
    if from < |Preambles()| {
      NoPreamble(s, from + 1);
    }
  }

  lemma PreambleExactly(s: string, r: string)
    ensures StripPreamble(s, 0) == r <==> WithoutPreamble(s, r)
  {
    hide Preambles, IsPreamble, Core;
    forall p ensures IsPreamble(p) && Begins(s, p) <==> p in Preambles() && p <= Lower(s) {
      PreamblesExactly(p);
      BeginsExactly(s, p);
    }
    if i: nat :| i < |Preambles()| && Preambles()[i] <= Lower(s) {
      var p := Preambles()[i];
      assert p in Preambles();
      PreambleOrderImmaterial(s, i);
      forall q | IsPreamble(q) && Begins(s, q) ensures q == p {
        var j :| 0 <= j < |Preambles()| && Preambles()[j] == q;
      }
      hide StripPreamble, Begins;
      StripExactly(s[|p|..], r);
    } else {
      NoPreamble(s, 0);
      forall p | IsPreamble(p) ensures !Begins(s, p) {
        PreamblesExactly(p);
        var j :| 0 <= j < |Preambles()| && Preambles()[j] == p;
      }
    }
  }

  lemma QuotesExactly(s: string, r: string)
    ensures StripQuotes(s) == r <==> WithoutQuotes(s, r)
  {
    if |s| >= 2 && s[0] == '"' && s[|s| - 1] == '"' {
      StripExactly(s[1..|s| - 1], r);
    }
  }

  /** `clean_handoff`, exactly: the text without outer whitespace, without the preamble that it begins with,
      and without one pair of quotes around the rest. */
  lemma CleanExactly(text: string, r: string)
    ensures CleanHandoff(text) == r <==>
            exists s, p :: Core(text, s) && WithoutPreamble(s, p) && WithoutQuotes(p, r)
  {
    var s := Strip(text);
    var p := StripPreamble(s, 0);
    StripExactly(text, s);
    PreambleExactly(s, p);
    QuotesExactly(p, r);
    hide Core, WithoutPreamble, WithoutQuotes, Strip, StripPreamble, StripQuotes;
    if s', p' :| Core(text, s') && WithoutPreamble(s', p') && WithoutQuotes(p', r) {
      StripExactly(text, s');
      PreambleExactly(s, p');
    }
  }

  // ---------------------------------------------------------------------------
  // The bracket.

  predicate BracketAt(s: string, i: nat) {
    i + 1 < |s| && s[i] == ']' && s[i + 1] == ' '
  }

  /** `r` is what follows the first `"] "` of `s`, or all of `s` when it holds none. */
  ghost predicate AfterFirst(s: string, r: string) {
    || (exists i: nat :: BracketAt(s, i) && (forall j: nat :: j < i ==> !BracketAt(s, j)) && r == s[i + 2..])
    || (r == s && forall i: nat :: !BracketAt(s, i))
  }

  lemma {:induction false} BracketFrom(s: string, from: nat) returns (i: nat)
    requires from <= |s| && forall j: nat :: j < from ==> !BracketAt(s, j)
    ensures forall j: nat :: j < i ==> !BracketAt(s, j)
    ensures if i + 1 < |s| then BracketAt(s, i) && AfterBracketFrom(s, from) == s[i + 2..]
            else AfterBracketFrom(s, from) == s && forall j: nat :: !BracketAt(s, j)
    decreases |s| - from
  {
    i := from;
    if from + 2 <= |s| {
      assert s[from..from + 2] == "] " <==> BracketAt(s, from) by {
        assert s[from..from + 2] == [s[from], s[from + 1]];
      }
      if !BracketAt(s, from) {
        i := BracketFrom(s, from + 1);
      }
    }
  }

  /** The split of an inline handoff, exactly. */
  lemma AfterBracketExactly(s: string, r: string)
    ensures AfterBracket(s) == r <==> AfterFirst(s, r)
  {
    var i := BracketFrom(s, 0);
    hide BracketAt, AfterBracketFrom;
    assert i + 1 < |s| ==> BracketAt(s, i);
  }

  // ---------------------------------------------------------------------------
  // Prefixes.

  /** Two texts that the dedup set cannot tell apart: they are equal, or agree on their first hundred
      characters. */
  predicate SameStart(a: string, b: string) {
    a == b || (|a| >= 100 && |b| >= 100 && a[..100] == b[..100])
  }

  lemma SameStartExactly(a: string, b: string)
    ensures Key(a) == Key(b) <==> SameStart(a, b)
  {
    if |a| <= 100 {
      assert |a| == 100 ==> a[..100] == a;
    }
    if |b| <= 100 {
      assert |b| == 100 ==> b[..100] == b;
    }
  }
}
