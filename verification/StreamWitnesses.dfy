/** Runs on which the stream does less than its documentation says. */
module StreamWitnesses {
  import opened Text
  import opened StreamBuffer
  import opened Streaming
  import opened StreamSafety
  import opened StreamTheorems
  import opened StreamRefinement
  import opened StreamEchoes
  import opened StreamLossless
  import opened StreamReadings
  import opened TextLaws
  import opened StreamFaults

  /** A supervisor message. */
  function Say(text: string): Frame {
    Message("supervisor", Words(text), false)
  }

  /** A first message of an agent that is no reply. */
  const AGENT := Message("x_agent", NotText, false)

  lemma AgentKind()
    ensures Classify(AGENT) == FromAgent("x", NotText, false)
  {
    var n := AGENT.node;
    assert n[2..][0] == 'a' && "_mini"[0] == '_' && !EndsWith(n, "_mini");
    assert |n| < |"_aggregator"| && n[1..] == "_agent" && n[..1] == "x";
  }

  lemma SayKind(text: string)
    requires text != "" && !IsSpace(text[0]) && text[0] != '{' && (text[0] == '[' ==> |text| < |BRACKETED|)
    ensures Classify(Say(text)) == Chunk(text)
  {
    SupervisorNode();
    assert LStrip(text) == text;
    RStripPiece(text);
    assert BRACKETED[0] == '[' && INLINE[0] == '[' && |BRACKETED| < |INLINE|;
  }

  /** The agent frame at the start of a run: nothing waits, so nothing is handed off. */
  lemma AgentFirst(countdown: int)
    requires countdown > 0 || countdown == NEVER
    ensures var e := Step(START, AGENT, countdown);
            && e == Exec(START.(seen := {"x"}, agentsDone := true, trace := [Started("x")]),
                         if countdown > 0 then countdown - 1 else countdown, false)
  {
    AgentKind();
    assert Join([]) == "" && Strip("") == "";
    hide Classify;
  }

  lemma FirstChunk(st: State, text: string, countdown: int)
    requires st.agentsDone && st.buffer == Buffer([], {}, {}) && Classify(Say(text)) == Chunk(text)
    ensures Step(st, Say(text), countdown) == Exec(st.(buffer := Buffer([text], {}, {})), countdown, false)
  {
    hide Classify, Key;
    assert [] + [text] == [text];
  }

  lemma {:induction false} NoBoundary(frames: seq<Frame>)
    requires forall f :: f in frames ==> !IsBoundary(f)
    ensures NextBoundary(frames) == |frames|
    decreases |frames|
  {
    hide IsBoundary;
    if frames != [] {
      assert frames[0] in frames;
      NoBoundary(frames[1..]);
    }
  }

  lemma {:induction false} OnlyTokens(texts: seq<string>)
    ensures forall e :: e in AsTokens(texts) ==> e.Token?
  {
    if texts != [] {
      OnlyTokens(texts[1..]);
    }
  }

  /** Frames without a boundary announce nothing. */
  lemma QuietAnnouncesNothing(frames: seq<Frame>, agentsDone: bool)
    requires NextBoundary(frames) == |frames|
    ensures HandoffsIn(Offline(frames, [], {}, agentsDone, "")) == {}
  {
    hide Kept, LastFinal;
    assert frames[..|frames|] == frames;
    var kept, final := Kept(frames, [], {}, agentsDone), LastFinal(frames, "");
    OnlyTokens(if kept != [] then kept else if final != "" then [final] else []);
  }

  lemma AgentAnnouncesNothing(chunks: seq<Frame>)
    requires NextBoundary(chunks) == |chunks|
    ensures Announced([AGENT] + chunks) == {}
  {
    AgentKind();
    var run := [AGENT] + chunks;
    assert run[1..] == chunks;
    hide Classify, Offline;
    CleanShape("");
    assert CleanHandoff("") == "" && Join([]) == "";
    OfflineBoundary(run, [], {}, false, "");
    QuietAnnouncesNothing(chunks, true);
  }

  /** After an agent frame at the start, the chunks that follow without another boundary are the tail. */
  lemma AgentThenChunks(chunks: seq<Frame>)
    requires NextBoundary(chunks) == |chunks|
    ensures Tail([AGENT] + chunks) == chunks && SawAgent([AGENT] + chunks)
  {
    AgentKind();
    var run := [AGENT] + chunks;
    assert run[1..] == chunks;
    hide Classify;
    TailSkips(run);
    TailOfTail(chunks);
  }

  /** What such a run answers. */
  lemma AgentAnswer(run: seq<Frame>, chunks: seq<Frame>, fault: Fault, message: string, working: nat)
    requires run == [AGENT] + chunks && forall f :: f in chunks ==> !IsBoundary(f)
    ensures var kept := KeptTexts(ChunkTexts(chunks), [], {});
            var t := Stream(run, NEVER, fault, message, working).trace;
            && Tail(run) == chunks
            && (kept != [] ==> Answers(t, kept, Join(kept)))
  {
    NoBoundary(chunks);
    AgentThenChunks(chunks);
    AgentAnnouncesNothing(chunks);
    AnswerFromFrames(run, fault, message, working);
    KeptIsKeptTexts(chunks, [], {}, true);
    hide Stream, Announced, SawAgent, LastFinal, ChunkTexts, Tail, Kept, KeptTexts, Answers, Classify;
  }

  /** A repeated chunk is lost: an agent frame and the chunks "a", "b", "a" answer "ab". */
  lemma RepeatedChunkIsLost(fault: Fault, message: string, working: nat)
    ensures var run := [AGENT, Say("a"), Say("b"), Say("a")];
            var t := Stream(run, NEVER, fault, message, working).trace;
            && SaidTexts(Tail(run)) == ["a", "b", "a"] && NothingRefused(Tail(run))
            && Answers(t, ["a", "b"], "ab")
  {
    var run, chunks := [AGENT, Say("a"), Say("b"), Say("a")], [Say("a"), Say("b"), Say("a")];
    assert run == [AGENT] + chunks;
    SaidThrice(chunks);
    hide Classify, Refused, ChunkTexts, SaidTexts, KeptTexts, Stream, Tail, Answers, Join, Say, AGENT, IsBoundary;
    AgentAnswer(run, chunks, fault, message, working);
    RepeatDropped();
  }

  lemma SaidThrice(chunks: seq<Frame>)
    requires chunks == [Say("a"), Say("b"), Say("a")]
    ensures NothingRefused(chunks) && (forall f :: f in chunks ==> !IsBoundary(f))
    ensures SaidTexts(chunks) == ChunkTexts(chunks) == ["a", "b", "a"]
  {
    var a, b := Say("a"), Say("b");
    SayKind("a");
    SayKind("b");
    SaidKind(a);
    SaidKind(b);
    hide Classify, Refused;
    assert NothingRefused(chunks);
    SaidLength(chunks);
    assert chunks[1..] == [b, a] && [b, a][1..] == [a] && [a][1..] == [];
    assert Says(a) && Says(b);
    assert SaidTexts([a]) == ["a"] + SaidTexts([a][1..]) == ["a"];
    assert SaidTexts([b, a]) == ["b"] + SaidTexts([b, a][1..]) == ["b", "a"];
  }

  lemma RepeatDropped()
    ensures KeptTexts(["a", "b", "a"], [], {}) == ["a", "b"] && Join(["a", "b"]) == "ab"
  {
    assert Join(["a"]) == "a" && Join(["a", "b"]) == "a" + Join(["b"]) == "ab";
    assert ["a", "b", "a"][1..] == ["b", "a"] && ["b", "a"][1..] == ["a"];
    assert !("b" <= "a") by { assert "b"[0] != "a"[0]; }
    assert KeptTexts(["a"], ["a", "b"], {}) == ["a", "b"];
    assert KeptTexts(["b", "a"], ["a"], {}) == ["a", "b"];
    assert [] + ["a"] == ["a"];
  }

  /** A chunk sent before any agent has spoken is lost although it repeats nothing: the run of "a" alone
      answers with the placeholder. */
  lemma UnheardChunkIsLost(fault: Fault, message: string, working: nat)
    ensures var run := [Say("a")];
            var t := Stream(run, NEVER, fault, message, working).trace;
            && SaidTexts(Tail(run)) == ["a"] && NothingRefused(run) && NeverRepeats(["a"], HandoffsIn(t))
            && Answers(t, [], PLACEHOLDER)
  {
    var run := [Say("a")];
    SaidOnce(run);
    hide NothingRefused, SaidTexts, KeptTexts, ChunkTexts, Kept, Stream, Tail, Answers, Say, SawAgent, LastFinal;
    TailOfTail(run);
    AnswerFromFrames(run, fault, message, working);
    KeptIsKeptTexts(run, [], Announced(run), false);
    QuietAnnouncesNothing(run, false);
    assert Announced(run) == {};
    hide Announced, HandoffsIn;
    OneKept();
  }

  lemma SaidOnce(run: seq<Frame>)
    requires run == [Say("a")]
    ensures SaidTexts(run) == ["a"] && NothingRefused(run) && !SawAgent(run) && LastFinal(run, "") == ""
    ensures NextBoundary(run) == |run|
  {
    SayKind("a");
    SaidKind(Say("a"));
    hide Classify, Refused;
    LoneChunk(Say("a"), "a");
  }

  lemma LoneChunk(f: Frame, text: string)
    requires Classify(f) == Chunk(text) && Says(f) && !Refused(f) && f.content.text == text
    ensures SaidTexts([f]) == [text] && NothingRefused([f]) && !SawAgent([f]) && LastFinal([f], "") == ""
    ensures NextBoundary([f]) == 1
  {
    hide Classify, Refused, Says;
    assert [f][1..] == [];
    assert SaidTexts([f]) == [text] + SaidTexts([f][1..]) == [text];
  }

  /** A chunk that begins with a brace is lost although it repeats nothing: an agent frame and the chunks
      "a", "{" answer "a". */
  lemma BraceIsLost(fault: Fault, message: string, working: nat)
    ensures var run := [AGENT, Say("a"), Say("{")];
            var t := Stream(run, NEVER, fault, message, working).trace;
            && SaidTexts(Tail(run)) == ["a", "{"] && NeverRepeats(["a", "{"], Announced(run))
            && Answers(t, ["a"], "a")
  {
    var run, chunks := [AGENT, Say("a"), Say("{")], [Say("a"), Say("{")];
    assert run == [AGENT] + chunks;
    SaidBrace(chunks);
    hide Classify, Refused, ChunkTexts, SaidTexts, KeptTexts, Stream, Tail, Answers, Join, Say, AGENT, IsBoundary,
      NeverRepeats, Announced;
    NoBoundary(chunks);
    AgentAnnouncesNothing(chunks);
    AgentAnswer(run, chunks, fault, message, working);
    OneKept();
  }

  lemma BraceRefused()
    ensures Says(Say("{")) && Refused(Say("{"))
  {
    var text := "{";
    assert text[0] == '{' && text[..0] == "";
    assert LooksLikeJson(text) by {
      assert AllSpace(text[..0]);
    }
    assert INLINE[0] == '[';
  }

  lemma SaidBrace(chunks: seq<Frame>)
    requires chunks == [Say("a"), Say("{")]
    ensures forall f :: f in chunks ==> !IsBoundary(f)
    ensures SaidTexts(chunks) == ["a", "{"] && ChunkTexts(chunks) == ["a"]
  {
    var a, b := Say("a"), Say("{");
    SayKind("a");
    BraceRefused();
    SaidKind(a);
    SaidKind(b);
    assert Says(a) && a.content.text == "a" && b.content.text == "{";
    hide Classify, Refused, Says, Say;
    assert chunks[1..] == [b] && [b][1..] == [];
    assert SaidTexts([b]) == ["{"] + SaidTexts([b][1..]) == ["{"];
    assert ChunkTexts([b]) == [] + ChunkTexts([b][1..]) == [];
    assert ChunkTexts(chunks) == ["a"] + ChunkTexts([b]);
  }

  lemma OneKept()
    ensures KeptTexts(["a"], [], {}) == ["a"] && Join(["a"]) == "a"
    ensures NeverRepeats(["a"], {}) && NeverRepeats(["a", "{"], {})
  {
    assert ["a"][1..] == [] && [] + ["a"] == ["a"];
    assert Join(["a"]) == "a";
    var two := ["a", "{"];
    assert two[..1] == ["a"];
    assert !("{" <= "a") by { assert "{"[0] != "a"[0]; }
  }

  /** A timeout while the graph runs loses what is buffered: here the chunk "a" waits, an undisturbed run
      would show it, and the client gets the placeholder. */
  lemma BufferLostToTimeout(message: string, working: nat)
    ensures var run := [AGENT, Say("a")];
            var e := Drive(START, run, 3);
            var t := Stream(run, 3, Timeout, message, working).trace;
            && e.raised && e.st.buffer.chunks == ["a"]
            && Answers(t, [], PLACEHOLDER)
            && Tokens(Stream(run, NEVER, Timeout, message, working).trace) == ["a"]
  {
    var run := [AGENT, Say("a")];
    SayKind("a");
    hide Classify;
    AgentFirst(2);
    AgentFirst(NEVER);
    var st := START.(seen := {"x"}, agentsDone := true, trace := [Started("x")]);
    FirstChunk(st, "a", 0);
    FirstChunk(st, "a", NEVER);
    assert run[1..] == [Say("a")] && [Say("a")][1..] == [];
    var st' := st.(buffer := Buffer(["a"], {}, {}));
    assert After(START, AGENT) == st && After(st, Say("a")) == st';
    StopHere(st, st');
    hide Step, After;
    assert Drive(START, run, 3) == Drive(st, run[1..], 1);
    assert Fold(START, run) == Fold(st, run[1..]) == Fold(st', []) == st';
    LostAtThree(run, message, working);
    UndisturbedShowsIt(message, working);
  }

  lemma LostAtThree(run: seq<Frame>, message: string, working: nat)
    requires |run| == 2 && |Fold(START, run).trace| == 1
    ensures Answers(Stream(run, 3, Timeout, message, working).trace, [], PLACEHOLDER)
  {
    hide Fold, Ending, Drive, Stream, Answers;
    DriveIsFold(START, run);
    EndingOnTheWay(Fold(START, run), NEVER);
    PartialAnswerExactly(run, 3, Timeout, message, working);
  }

  lemma StopHere(st: State, st': State)
    requires Step(st, Say("a"), 0) == Exec(st', 0, false)
    ensures Drive(st, [Say("a")], 1) == Exec(st', 0, true)
  {
    hide Step;
    assert [Say("a")][1..] == [];
    assert Drive(st', [], 0) == Exec(st', 0, true);
  }

  lemma UndisturbedShowsIt(message: string, working: nat)
    ensures Tokens(Stream([AGENT, Say("a")], NEVER, Timeout, message, working).trace) == ["a"]
  {
    var chunks := [Say("a")];
    SayKind("a");
    hide Classify;
    AgentAnswer([AGENT] + chunks, chunks, Timeout, message, working);
    assert chunks[1..] == [];
    assert ChunkTexts(chunks) == ["a"] + ChunkTexts([]) == ["a"];
    OneKept();
    assert [AGENT] + chunks == [AGENT, Say("a")];
    hide Stream, ChunkTexts, Tail, KeptTexts, Tokens;
  }

  /** The text of an inline handoff without its first bracket. */
  const REST := INLINE[1..] + " x"

  lemma TwoPieces()
    ensures Fold(START, [AGENT, Say("["), Say(REST)]) ==
            START.(seen := {"x"}, agentsDone := true, trace := [Started("x")], buffer := Buffer(["[", REST], {}, {}))
  {
    var run := [AGENT, Say("["), Say(REST)];
    assert REST[0] == 'S';
    SayKind("[");
    SayKind(REST);
    hide Classify, REST;
    AgentFirst(NEVER);
    var st1 := START.(seen := {"x"}, agentsDone := true, trace := [Started("x")]);
    FirstChunk(st1, "[", NEVER);
    assert After(START, AGENT) == st1 && After(st1, Say("[")) == st1.(buffer := Buffer(["["], {}, {}));
    var st2 := st1.(buffer := Buffer(["["], {}, {}));
    SecondChunk(st2);
    var st3 := st1.(buffer := Buffer(["[", REST], {}, {}));
    hide After, Step;
    assert run[1..] == [Say("["), Say(REST)] && run[1..][1..] == [Say(REST)] && run[1..][1..][1..] == [];
    assert Fold(st2, [Say(REST)]) == Fold(st3, []) == st3;
    assert Fold(st1, [Say("["), Say(REST)]) == Fold(st2, [Say(REST)]);
  }

  lemma SecondChunk(st: State)
    requires st.agentsDone && st.buffer == Buffer(["["], {}, {})
    ensures After(st, Say(REST)) == st.(buffer := Buffer(["[", REST], {}, {}))
  {
    assert REST[0] == 'S';
    SayKind(REST);
    hide Classify, Key;
    assert Join(["["]) == "[" && ["["] + [REST] == ["[", REST];
    assert !(REST <= "[") && REST != "[";
  }

  /** The assembled message of a handoff that arrived in pieces is an echo, and empties the buffer: this
      state is reached by an agent frame and the two pieces. */
  lemma InlineEchoReached()
    ensures var st := Fold(START, [AGENT, Say("["), Say(REST)]);
            var echo := Say("[" + REST);
            && InLoop(st) && st.buffer.chunks == ["[", REST] && Echo(st, echo) && INLINE <= echo.content.text
            && After(st, echo).buffer.chunks == []
  {
    TwoPieces();
    StartInLoop();
    FoldKeeps(START, [AGENT, Say("["), Say(REST)]);
    var st := Fold(START, [AGENT, Say("["), Say(REST)]);
    hide Fold, InLoop;
    JoinAppend(["["], REST);
    assert ["["] + [REST] == ["[", REST] && Join(["["]) == "[" + "";
    assert INLINE == "[" + INLINE[1..] && INLINE <= "[" + REST;
    EchoClears(st, "[" + REST);
  }

  lemma EchoClears(st: State, text: string)
    requires Echo(st, Say(text)) && INLINE <= text
    ensures After(st, Say(text)).buffer.chunks == []
  {
    SupervisorNode();
    InlineIsNotJson(text);
    assert Classify(Say(text)) == InlineHandoff(text);
  }
}
