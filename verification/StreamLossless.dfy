/** When the answer of a run is the whole text that the supervisor sent. */
module StreamLossless {
  import opened Text
  import opened StreamBuffer
  import opened Streaming
  import opened StreamSafety
  import opened StreamTheorems
  import opened StreamRefinement
  import opened StreamEchoes
  import opened StreamReadings
  import opened BufferLaws

  // ---------------------------------------------------------------------------
  // What was sent, and what is kept of it.

  /** A supervisor message with text of its own: not empty, and no inline handoff. */
  predicate Says(f: Frame) {
    && f.Message? && f.node == "supervisor" && f.content.Words? && f.content.text != ""
    && !("[Supervisor \U{2192}" <= f.content.text)
  }

  /** The tests that drop such a message whatever was sent before it: it looks like JSON, begins like a
      handoff without being one, or carries tool calls. */
  ghost predicate Refused(f: Frame)
    requires Says(f)
  {
    LooksLikeJson(f.content.text) || "[Supervisor" <= f.content.text || f.toolCalls
  }

  /** Everything that the supervisor said in the frames. */
  function SaidTexts(frames: seq<Frame>): seq<string> {
    if frames == [] then []
    else (if Says(frames[0]) then [frames[0].content.text] else []) + SaidTexts(frames[1..])
  }

  ghost predicate NothingRefused(frames: seq<Frame>) {
    forall f :: f in frames && Says(f) ==> !Refused(f)
  }

  /** The texts of the supervisor chunks among the frames. */
  function ChunkTexts(frames: seq<Frame>): seq<string> {
    if frames == [] then []
    else
      var k := Classify(frames[0]);
      (if k.Chunk? then [k.text] else []) + ChunkTexts(frames[1..])
  }

  /** Chunk `i` does not begin the text before it again, repeat its predecessor, or share its first
      hundred characters with a handoff. */
  ghost predicate RepeatsNothing(texts: seq<string>, i: nat, handoffs: set<string>)
    requires i < |texts|
  {
    && (forall h :: h in handoffs ==> !SameStart(h, texts[i]))
    && (i > 0 ==> !(texts[i] <= Join(texts[..i])) && texts[i] != texts[i - 1])
  }

  ghost predicate NeverRepeats(texts: seq<string>, handoffs: set<string>) {
    forall i :: 0 <= i < |texts| ==> RepeatsNothing(texts, i, handoffs)
  }

  /** The chunks that count among `texts`, after those of `segment`, once an agent has spoken. */
  function KeptTexts(texts: seq<string>, segment: seq<string>, handoffs: set<string>): seq<string> {
    if texts == [] then segment
    else
      var next := if Genuine(segment, handoffs, true, texts[0]) then segment + [texts[0]] else segment;
      KeptTexts(texts[1..], next, handoffs)
  }

  predicate AllGenuine(texts: seq<string>, segment: seq<string>, handoffs: set<string>) {
    texts == [] ||
    (Genuine(segment, handoffs, true, texts[0]) && AllGenuine(texts[1..], segment + [texts[0]], handoffs))
  }

  lemma {:induction false} KeptIsKeptTexts(frames: seq<Frame>, segment: seq<string>, handoffs: set<string>,
                                           agentsDone: bool)
    ensures Kept(frames, segment, handoffs, agentsDone) ==
            if agentsDone then KeptTexts(ChunkTexts(frames), segment, handoffs) else segment
    ensures "" !in ChunkTexts(frames)
    decreases |frames|
  {
    if frames != [] {
      ChunkNonEmpty(frames[0]);
      var k := Classify(frames[0]);
      var counts := k.Chunk? && Genuine(segment, handoffs, agentsDone, k.text);
      KeptIsKeptTexts(frames[1..], if counts then segment + [k.text] else segment, handoffs, agentsDone);
      if k.Chunk? {
        assert ChunkTexts(frames)[0] == k.text && ChunkTexts(frames)[1..] == ChunkTexts(frames[1..]);
      } else {
        assert ChunkTexts(frames) == ChunkTexts(frames[1..]);
      }
      assert !agentsDone ==> !counts;
      hide Classify, Genuine;
    }
  }

  /** A dropped chunk is lost for good: the kept text is never longer than the text sent, and as long
      only if every chunk counted. */
  lemma {:induction false} KeptLength(texts: seq<string>, segment: seq<string>, handoffs: set<string>)
    requires "" !in texts
    ensures |Join(KeptTexts(texts, segment, handoffs))| <= |Join(segment)| + |Join(texts)|
    ensures |Join(KeptTexts(texts, segment, handoffs))| == |Join(segment)| + |Join(texts)| <==>
            AllGenuine(texts, segment, handoffs)
    ensures AllGenuine(texts, segment, handoffs) ==> KeptTexts(texts, segment, handoffs) == segment + texts
    decreases |texts|
  {
    hide Genuine;
    if texts == [] {
      assert segment + texts == segment;
    } else {
      assert texts[0] in texts;
      JoinAppend(segment, texts[0]);
      if Genuine(segment, handoffs, true, texts[0]) {
        KeptLength(texts[1..], segment + [texts[0]], handoffs);
        assert segment + [texts[0]] + texts[1..] == segment + texts;
      } else {
        KeptLength(texts[1..], segment, handoffs);
      }
    }
  }

  lemma {:induction false} GenuineByIndex(texts: seq<string>, n: nat, handoffs: set<string>)
    requires n <= |texts|
    ensures AllGenuine(texts[n..], texts[..n], handoffs) <==>
            forall i :: n <= i < |texts| ==> Genuine(texts[..i], handoffs, true, texts[i])
    decreases |texts| - n
  {
    hide Genuine;
    if n < |texts| {
      GenuineByIndex(texts, n + 1, handoffs);
      assert texts[n..][1..] == texts[n + 1..] && texts[..n] + [texts[n]] == texts[..n + 1];
    }
  }

  lemma GenuineRepeatsNothing(texts: seq<string>, i: nat, handoffs: set<string>)
    requires i < |texts|
    ensures RepeatsNothing(texts, i, handoffs) <==> Genuine(texts[..i], handoffs, true, texts[i])
  {
    hide Join, Key, SameStart;
    forall h ensures Key(h) == Key(texts[i]) <==> SameStart(h, texts[i]) {
      SameStartExactly(h, texts[i]);
    }
  }

  lemma NeverRepeatsIsGenuine(texts: seq<string>, handoffs: set<string>)
    ensures NeverRepeats(texts, handoffs) <==> AllGenuine(texts, [], handoffs)
  {
    GenuineByIndex(texts, 0, handoffs);
    assert texts[0..] == texts && texts[..0] == [];
    hide RepeatsNothing, Genuine;
    forall i | 0 <= i < |texts|
      ensures RepeatsNothing(texts, i, handoffs) <==> Genuine(texts[..i], handoffs, true, texts[i])
    {
      GenuineRepeatsNothing(texts, i, handoffs);
    }
  }

  /** The kept text is the text of the chunks, for any frames: there was no chunk, or an agent had spoken
      and no chunk repeats what came before it. */
  lemma ChunksKept(frames: seq<Frame>, handoffs: set<string>, agentsDone: bool)
    ensures var sent, kept := ChunkTexts(frames), Kept(frames, [], handoffs, agentsDone);
            && |Join(kept)| <= |Join(sent)|
            && (Join(kept) == Join(sent) <==> sent == [] || (agentsDone && NeverRepeats(sent, handoffs)))
            && (agentsDone && NeverRepeats(sent, handoffs) ==> kept == sent)
  {
    var sent := ChunkTexts(frames);
    KeptIsKeptTexts(frames, [], handoffs, agentsDone);
    KeptLength(sent, [], handoffs);
    NeverRepeatsIsGenuine(sent, handoffs);
    JoinNonEmpty(sent);
    hide NeverRepeats, Kept, ChunkTexts, AllGenuine;
    assert sent == [] ==> KeptTexts(sent, [], handoffs) == [];
    hide KeptTexts;
    assert [] + sent == sent;
    assert Join([]) == "";
  }

  lemma SaidKind(f: Frame)
    ensures Says(f) ==> Classify(f) == if Refused(f) then Ignored else Chunk(f.content.text)
    ensures Classify(f).Chunk? ==> Says(f)
  {
    SupervisorNode();
    if Says(f) {
      JsonExactly(f.content.text);
    }
    hide Strip, LooksLikeJson;
  }

  /** A refused message is lost for good: the chunks are never longer than what was said, as long only if
      nothing was refused, and then they are all that was said. */
  lemma {:induction false} SaidLength(frames: seq<Frame>)
    ensures |Join(ChunkTexts(frames))| <= |Join(SaidTexts(frames))|
    ensures |Join(ChunkTexts(frames))| == |Join(SaidTexts(frames))| <==> NothingRefused(frames)
    ensures NothingRefused(frames) ==> ChunkTexts(frames) == SaidTexts(frames)
    decreases |frames|
  {
    if frames == [] {
      assert NothingRefused(frames);
    } else {
      var f, rest := frames[0], frames[1..];
      SaidLength(rest);
      RefusedFirst(frames);
      hide Classify, Refused, NothingRefused;
      TextsFirst(frames);
      hide ChunkTexts, SaidTexts;
      if Says(f) {
        JoinFirst(f.content.text, SaidTexts(rest));
        JoinFirst(f.content.text, ChunkTexts(rest));
        hide Join;
      }
    }
  }

  lemma TextsFirst(frames: seq<Frame>)
    requires frames != []
    ensures var f, rest := frames[0], frames[1..];
            && SaidTexts(frames) == (if Says(f) then [f.content.text] + SaidTexts(rest) else SaidTexts(rest))
            && ChunkTexts(frames) ==
               if Says(f) && !Refused(f) then [f.content.text] + ChunkTexts(rest) else ChunkTexts(rest)
  {
    SaidKind(frames[0]);
    hide Classify, Refused;
    assert [] + SaidTexts(frames[1..]) == SaidTexts(frames[1..]);
    assert [] + ChunkTexts(frames[1..]) == ChunkTexts(frames[1..]);
  }

  lemma RefusedFirst(frames: seq<Frame>)
    requires frames != []
    ensures NothingRefused(frames) <==> (Says(frames[0]) ==> !Refused(frames[0])) && NothingRefused(frames[1..])
  {
    hide Refused;
    assert forall x :: x in frames <==> x == frames[0] || x in frames[1..];
  }

  lemma JoinFirst(text: string, rest: seq<string>)
    ensures Join([text] + rest) == text + Join(rest)
  {
    assert ([text] + rest)[1..] == rest;
  }

  /** The kept text is all that the supervisor said, for any frames: nothing was said, or an agent had
      spoken, nothing was refused and nothing repeats what came before it. */
  lemma KeptExactly(frames: seq<Frame>, handoffs: set<string>, agentsDone: bool)
    ensures var said, kept := SaidTexts(frames), Kept(frames, [], handoffs, agentsDone);
            && (Join(kept) == Join(said) <==>
                said == [] || (agentsDone && NothingRefused(frames) && NeverRepeats(said, handoffs)))
            && (agentsDone && NothingRefused(frames) && NeverRepeats(said, handoffs) ==> kept == said)
  {
    ChunksKept(frames, handoffs, agentsDone);
    SaidLength(frames);
    assert SaidTexts(frames) == [] ==> Join(SaidTexts(frames)) == "";
    hide NeverRepeats, Kept, ChunkTexts, SaidTexts, NothingRefused, Join;
  }

  /** No chunk counts at all: no agent has spoken, or every chunk begins like a handoff. */
  ghost predicate Unheard(sent: seq<string>, handoffs: set<string>, agentsDone: bool) {
    agentsDone ==> forall text :: text in sent ==> exists h :: h in handoffs && SameStart(h, text)
  }

  lemma {:induction false} KeptGrows(texts: seq<string>, segment: seq<string>, handoffs: set<string>)
    ensures segment <= KeptTexts(texts, segment, handoffs)
    decreases |texts|
  {
    hide Genuine;
    if texts != [] {
      var next := if Genuine(segment, handoffs, true, texts[0]) then segment + [texts[0]] else segment;
      KeptGrows(texts[1..], next, handoffs);
    }
  }

  lemma {:induction false} NothingKept(texts: seq<string>, handoffs: set<string>)
    ensures KeptTexts(texts, [], handoffs) == [] <==> Unheard(texts, handoffs, true)
    decreases |texts|
  {
    if texts != [] {
      var rest := texts[1..];
      assert texts == [texts[0]] + rest;
      forall h ensures Key(h) == Key(texts[0]) <==> SameStart(h, texts[0]) {
        SameStartExactly(h, texts[0]);
      }
      hide Key, SameStart;
      if Genuine([], handoffs, true, texts[0]) {
        KeptGrows(rest, [] + [texts[0]], handoffs);
        assert texts[0] in texts;
      } else {
        NothingKept(rest, handoffs);
        assert forall t :: t in texts <==> t == texts[0] || t in rest;
      }
    }
  }

  // ---------------------------------------------------------------------------
  // The run.

  /** The handoffs that a run without faults announces, computed from its frames. */
  ghost function Announced(frames: seq<Frame>): set<string> {
    HandoffsIn(Offline(frames, [], {}, false, ""))
  }

  lemma {:induction false} VisibleHandoffs(t: seq<Sse>)
    ensures HandoffsIn(Visible(t)) == HandoffsIn(t)
  {
    if t != [] {
      var init, e := t[..|t| - 1], t[|t| - 1];
      assert t == init + [e];
      VisibleHandoffs(init);
      SetsAppend(init, e);
      SetsAppend(Visible(init), e);
      assert Visible(init) + [] == Visible(init);
    }
  }

  /** The answer, from the frames alone. */
  lemma AnswerFromFrames(frames: seq<Frame>, fault: Fault, message: string, working: nat)
    ensures var t := Stream(frames, NEVER, fault, message, working).trace;
            var kept := Kept(Tail(frames), [], Announced(frames), SawAgent(frames));
            var final := LastFinal(frames, "");
            && HandoffsIn(t) == Announced(frames)
            && Answers(t, if kept != [] then kept else if final != "" then [final] else [],
                       if kept != [] then Join(kept) else if final != "" then final else PLACEHOLDER)
  {
    AnswerIsTail(frames, fault, message, working);
    OnlineEqualsOffline(frames, fault, message, working);
    VisibleHandoffs(Stream(frames, NEVER, fault, message, working).trace);
    hide Stream, Offline, Kept, Tail, SawAgent, LastFinal, Tokens, HandoffsIn;
  }

  /** Lossless streaming, exactly: in a run without faults the tokens are all that the supervisor said after
      the last boundary if and only if none of it was refused and none repeats what came before it; and when
      no chunk counts at all, if and only if the last `final_response` happens to be that text. */
  lemma LosslessExactly(frames: seq<Frame>, fault: Fault, message: string, working: nat)
    ensures var t := Stream(frames, NEVER, fault, message, working).trace;
            var tail := Tail(frames);
            Join(Tokens(t)) == Join(SaidTexts(tail)) <==>
              if Unheard(ChunkTexts(tail), Announced(frames), SawAgent(frames))
              then LastFinal(frames, "") == Join(SaidTexts(tail))
              else NothingRefused(tail) && NeverRepeats(SaidTexts(tail), Announced(frames))
  {
    var handoffs, saw, final := Announced(frames), SawAgent(frames), LastFinal(frames, "");
    var tail := Tail(frames);
    AnswerFromFrames(frames, fault, message, working);
    KeptExactly(tail, handoffs, saw);
    KeptIsKeptTexts(tail, [], handoffs, saw);
    NothingKept(ChunkTexts(tail), handoffs);
    UnheardCases(ChunkTexts(tail), handoffs, saw);
    if SaidTexts(tail) == [] {
      SaidLength(tail);
      JoinNonEmpty(ChunkTexts(tail));
    }
    hide Stream, Announced, SawAgent, LastFinal, ChunkTexts, SaidTexts, Tail, Kept, KeptTexts, NeverRepeats,
      NothingRefused, Unheard, Tokens;
    assert Join([final]) == final + "" == final;
  }

  lemma UnheardCases(sent: seq<string>, handoffs: set<string>, agentsDone: bool)
    ensures Unheard(sent, handoffs, agentsDone) <==> !agentsDone || Unheard(sent, handoffs, true)
    ensures sent == [] ==> Unheard(sent, handoffs, agentsDone)
  {
  }

  // ---------------------------------------------------------------------------
  // Echoes between the chunks.

  /** Chunks that repeat nothing, with any echoes and any frames without text between them: the buffer ends
      with exactly those chunks, and the flush shows them. */
  lemma ChunksSurviveEchoes(st: State, frames: seq<Frame>, keep: seq<bool>)
    requires InLoop(st) && st.agentsDone && st.buffer.chunks == []
    requires |keep| == |frames| && LeavesOutEchoes(st, frames, keep)
    requires NextBoundary(Selected(frames, keep)) == |Selected(frames, keep)|
    requires NeverRepeats(ChunkTexts(Selected(frames, keep)), st.buffer.handoffs)
    ensures var sent := ChunkTexts(Selected(frames, keep));
            && Fold(st, frames).buffer.chunks == sent
            && (sent != [] ==> Ending(Fold(st, frames), NEVER).st.parts == sent)
  {
    var g := Selected(frames, keep);
    EchoesChangeNothing(st, frames, keep);
    FoldTail(st, g);
    TailOfTail(g);
    ChunksKept(g, st.buffer.handoffs, true);
    FoldKeeps(st, g);
    EndingKeeps(Fold(st, g), NEVER);
    FlushNeverRaised(Fold(st, g), 0, NEVER);
    hide InLoop, Fold, LeavesOutEchoes, Selected, NeverRepeats, Kept, ChunkTexts, Flush;
  }

  /** A whole run with echoes anywhere: if the frames without them lose nothing, the tokens are exactly the
      chunks after the last boundary. */
  lemma EchoedAnswerIsWhole(frames: seq<Frame>, keep: seq<bool>, fault: Fault, message: string, working: nat)
    requires |keep| == |frames| && LeavesOutEchoes(START, frames, keep)
    requires var g := Selected(frames, keep);
             SawAgent(g) && ChunkTexts(Tail(g)) != [] && NeverRepeats(ChunkTexts(Tail(g)), Announced(g))
    ensures Tokens(Stream(frames, NEVER, fault, message, working).trace) == ChunkTexts(Tail(Selected(frames, keep)))
  {
    var g := Selected(frames, keep);
    EchoesInvisible(frames, keep, fault, message, working);
    AnswerFromFrames(g, fault, message, working);
    ChunksKept(Tail(g), Announced(g), true);
    hide Stream, Announced, SawAgent, LastFinal, ChunkTexts, Tail, Kept, NeverRepeats, Tokens, LeavesOutEchoes;
  }
}
