/** `SupervisorTokenBuffer`: supervisor chunks wait here until the next event tells whether they were a
    handoff or the final answer. */
module StreamBuffer {
  import opened Text

  /** The buffer as a value. */
  datatype Buffer = Buffer(chunks: seq<string>, emitted: set<string>, handoffs: set<string>)

  const PREFIX := 100

  function Preambles(): seq<string> {
    [
      "here is the handoff message:",
      "here is a brief handoff message:",
      "here is a brief handoff message that summarises",
      "handoff message:"
    ]
  }

  function Key(content: string): string {
    Take(content, PREFIX)
  }

  predicate AlreadyEmitted(b: Buffer, content: string) {
    Key(content) in b.emitted
  }

  predicate WouldDuplicate(b: Buffer, content: string) {
    b.chunks != [] && (content <= Join(b.chunks) || content == b.chunks[|b.chunks| - 1])
  }

  /** Drop the first preamble of the list that the text starts with, whatever its case. */
  function StripPreamble(s: string, from: nat): string
    decreases |Preambles()| - from
  {
    if from >= |Preambles()| then s
    else if Preambles()[from] <= Lower(s) then Strip(s[|Preambles()[from]|..])
    else StripPreamble(s, from + 1)
  }

  function StripQuotes(s: string): string {
    if s != [] && s[0] == '"' && s[|s| - 1] == '"' then Strip(if |s| == 1 then "" else s[1..|s| - 1]) else s
  }

  function CleanHandoff(text: string): string {
    StripQuotes(StripPreamble(Strip(text), 0))
  }

  /** Record a handoff text unless it is empty or was seen before. */
  function Record(b: Buffer, text: string): (Buffer, Option<string>) {
    if text == "" || text in b.handoffs then (b, None)
    else (b.(emitted := b.emitted + {Key(text)}, handoffs := b.handoffs + {text}), Some(text))
  }

  function DiscardAsHandoff(b: Buffer): (Buffer, Option<string>) {
    var combined := Strip(Join(b.chunks));
    if combined == "" then (b.(chunks := []), None) else Record(b.(chunks := []), CleanHandoff(combined))
  }

  /** The text after the first `"] "`, or all of it. */
  function AfterBracket(content: string): string {
    AfterBracketFrom(content, 0)
  }

  function AfterBracketFrom(content: string, i: nat): string
    requires i <= |content|
    decreases |content| - i
  {
    if i + 2 > |content| then content
    else if content[i..i + 2] == "] " then content[i + 2..]
    else AfterBracketFrom(content, i + 1)
  }

  function RecordInlineHandoff(b: Buffer, content: string): (Buffer, Option<string>) {
    Record(b.(chunks := []), CleanHandoff(AfterBracket(content)))
  }

  class SupervisorTokenBuffer {
    var chunks: seq<string>
    var emittedPrefixes: set<string>
    var seenHandoffs: set<string>

    ghost function Value(): Buffer
      reads this
    {
      Buffer(chunks, emittedPrefixes, seenHandoffs)
    }

    constructor ()
      ensures Value() == Buffer([], {}, {})
    {
      chunks, emittedPrefixes, seenHandoffs := [], {}, {};
    }

    method Append(chunk: string)
      modifies this`chunks
      ensures Value() == old(Value()).(chunks := old(chunks) + [chunk])
    {
      chunks := chunks + [chunk];
    }

    method Clear()
      modifies this`chunks
      ensures Value() == old(Value()).(chunks := [])
    {
      chunks := [];
    }

    method HasBeenEmitted(content: string) returns (r: bool)
      ensures r == AlreadyEmitted(Value(), content)
    {
      r := Take(content, PREFIX) in emittedPrefixes;
    }

    /** The three tests of the source, in its order. */
    method IsDuplicate(content: string) returns (r: bool)
      ensures r == WouldDuplicate(Value(), content)
    {
      if chunks == [] {
        return false;
      }
      var combined := Join(chunks);
      if content == combined || content <= combined {
        return true;
      }
      return content == chunks[|chunks| - 1];
    }

    method Remember(cleaned: string) returns (ev: Option<string>)
      modifies this`emittedPrefixes, this`seenHandoffs
      ensures (Value(), ev) == Record(old(Value()), cleaned)
    {
      if cleaned == "" || cleaned in seenHandoffs {
        return None;
      }
      seenHandoffs := seenHandoffs + {cleaned};
      emittedPrefixes := emittedPrefixes + {Take(cleaned, PREFIX)};
      return Some(cleaned);
    }

    method Discard() returns (ev: Option<string>)
      modifies this
      ensures (Value(), ev) == DiscardAsHandoff(old(Value()))
    {
      var combined := Strip(Join(chunks));
      chunks := [];
      if combined == "" {
        return None;
      }
      var cleaned := Clean(combined);
      ev := Remember(cleaned);
    }

    method RecordInline(content: string) returns (ev: Option<string>)
      modifies this
      ensures (Value(), ev) == RecordInlineHandoff(old(Value()), content)
    {
      chunks := [];
      var cleaned := Clean(AfterBracket(content));
      ev := Remember(cleaned);
    }
  }

  /** `clean_handoff`, with its loop over the preambles. */
  method Clean(text: string) returns (cleaned: string)
    ensures cleaned == CleanHandoff(text)
  {
    hide Preambles, StripQuotes;
    cleaned := Strip(text);
    var lower := Lower(cleaned);
    var i := 0;
    while i < |Preambles()|
      invariant i <= |Preambles()|
      invariant cleaned == Strip(text) && lower == Lower(cleaned)
      invariant StripPreamble(Strip(text), 0) == StripPreamble(Strip(text), i)
    {
      if Preambles()[i] <= lower {
        cleaned := Strip(cleaned[|Preambles()[i]|..]);
        break;
      }
      i := i + 1;
    }
    cleaned := Unquote(cleaned);
  }

  method Unquote(s: string) returns (r: string)
    ensures r == StripQuotes(s)
  {
    r := s;
    if s != [] && s[0] == '"' && s[|s| - 1] == '"' {
      r := Strip(if |s| == 1 then "" else s[1..|s| - 1]);
    }
  }

  // ---------------------------------------------------------------------------
  // What a handoff text looks like.

  lemma {:induction false} StripPreambleShape(s: string, from: nat)
    requires Trimmed(s)
    ensures Trimmed(StripPreamble(s, from)) && IsPiece(StripPreamble(s, from), s)
    decreases |Preambles()| - from
  {
    hide Preambles;
    if from >= |Preambles()| {
      SlicePiece(s, 0, |s|);
      assert s == s[0..|s|];
    } else if Preambles()[from] <= Lower(s) {
      var rest := s[|Preambles()[from]|..];
      SlicePiece(s, |Preambles()[from]|, |s|);
      StripTrims(rest);
      PieceOfPiece(Strip(rest), rest, s);
    } else {
      StripPreambleShape(s, from + 1);
    }
  }

  /** A cleaned handoff has no outer whitespace and is a contiguous piece of its source text. */
  lemma CleanShape(text: string)
    ensures Trimmed(CleanHandoff(text)) && IsPiece(CleanHandoff(text), text)
  {
    var s := Strip(text);
    StripTrims(text);
    StripPreambleShape(s, 0);
    var p := StripPreamble(s, 0);
    PieceOfPiece(p, s, text);
    if p != [] && p[0] == '"' && p[|p| - 1] == '"' && |p| > 1 {
      SlicePiece(p, 1, |p| - 1);
      StripTrims(p[1..|p| - 1]);
      PieceOfPiece(Strip(p[1..|p| - 1]), p[1..|p| - 1], p);
      PieceOfPiece(CleanHandoff(text), p, text);
    } else if p != [] && p[0] == '"' && p[|p| - 1] == '"' {
      SlicePiece(text, 0, 0);
    }
  }

  /** No preamble starts another one, so at most one applies to a text and their order is immaterial:
      whichever matching preamble is dropped, the result is that of `clean_handoff`. */
  lemma PreambleOrderImmaterial(s: string, i: nat)
    requires i < |Preambles()| && Preambles()[i] <= Lower(s)
    ensures StripPreamble(s, 0) == Strip(s[|Preambles()[i]|..])
    ensures forall j :: 0 <= j < |Preambles()| && Preambles()[j] <= Lower(s) ==> j == i
  {
    hide Preambles;
    forall j | 0 <= j < |Preambles()| && Preambles()[j] <= Lower(s) ensures j == i {
      PrefixesCompare(Preambles()[i], Preambles()[j], Lower(s));
      if Preambles()[i] <= Preambles()[j] {
        PreamblesPrefixFree(i, j);
      } else {
        PreamblesPrefixFree(j, i);
      }
    }
    FirstMatch(s, 0, i);
  }

  lemma {:induction false} FirstMatch(s: string, from: nat, i: nat)
    requires from <= i < |Preambles()| && Preambles()[i] <= Lower(s)
    requires forall j :: 0 <= j < |Preambles()| && Preambles()[j] <= Lower(s) ==> j == i
    ensures StripPreamble(s, from) == Strip(s[|Preambles()[i]|..])
    decreases i - from
  {
    hide Preambles;
    if from < i {
      FirstMatch(s, from + 1, i);
    }
  }

  lemma PrefixesCompare(a: string, b: string, s: string)
    requires a <= s && b <= s
    ensures a <= b || b <= a
  {
  }

  lemma PreamblesPrefixFree(i: nat, j: nat)
    requires i < |Preambles()| && j < |Preambles()| && Preambles()[i] <= Preambles()[j]
    ensures i == j
  {
    assert Preambles()[0][8] == 't' && Preambles()[1][8] == 'a' && Preambles()[2][8] == 'a';
    assert Preambles()[1][31] == ':' && Preambles()[2][31] == ' ';
    assert Preambles()[3][1] == 'a' && Preambles()[0][1] == 'e' && Preambles()[1][1] == 'e' && Preambles()[2][1] == 'e';
    var a, b := Preambles()[i], Preambles()[j];
    assert a[1] == b[1];
    if i != 3 {
      assert a[8] == b[8];
      if i != 0 {
        assert a[31] == b[31];
      }
    }
  }

  lemma {:induction false} AfterBracketPiece(content: string, i: nat)
    requires i <= |content|
    ensures IsPiece(AfterBracketFrom(content, i), content)
    decreases |content| - i
  {
    if i + 2 > |content| {
      SlicePiece(content, 0, |content|);
      assert content == content[0..|content|];
    } else if content[i..i + 2] == "] " {
      SlicePiece(content, i + 2, |content|);
    } else {
      AfterBracketPiece(content, i + 1);
    }
  }

  /** What a boundary does: the chunks are gone, and at most one handoff comes out, which is new,
      non-empty, trimmed and a piece of its source. */
  lemma DiscardShape(b: Buffer)
    ensures var (b', ev) := DiscardAsHandoff(b);
            && (b', ev) == Record(b.(chunks := []), CleanHandoff(Join(b.chunks)))
            && (ev.Some? ==>
                  && ev.value != "" && ev.value !in b.handoffs
                  && Trimmed(ev.value) && IsPiece(ev.value, Join(b.chunks)))
  {
    var all := Join(b.chunks);
    CleanShape(all);
    StripTrims(all);
    if Strip(all) == "" {
      assert CleanHandoff(all) == "";
    } else {
      assert CleanHandoff(Strip(all)) == CleanHandoff(all);
    }
  }

  lemma InlineShape(b: Buffer, content: string)
    ensures var (b', ev) := RecordInlineHandoff(b, content);
            ev.Some? ==> ev.value != "" && ev.value !in b.handoffs && Trimmed(ev.value) && IsPiece(ev.value, content)
  {
    CleanShape(AfterBracket(content));
    AfterBracketPiece(content, 0);
    PieceOfPiece(CleanHandoff(AfterBracket(content)), AfterBracket(content), content);
  }
}
