/** The online classifier agrees with one that looks ahead, and what its duplicate tests cost. */
module StreamRefinement {
  import opened Text
  import opened StreamBuffer
  import opened Streaming
  import opened StreamSafety
  import opened StreamTheorems

  /** A countdown that never strikes. */
  const NEVER := -1

  function After(st: State, f: Frame): State {
    Step(st, f, NEVER).st
  }

  /** The state after a run of frames without faults. */
  function Fold(st: State, frames: seq<Frame>): State
    decreases |frames|
  {
    if frames == [] then st else Fold(After(st, frames[0]), frames[1..])
  }

  lemma {:induction false} DriveIsFold(st: State, frames: seq<Frame>)
    ensures Drive(st, frames, NEVER) == Ending(Fold(st, frames), NEVER)
    decreases |frames|
  {
    if frames != [] {
      hide Step;
      StepNeverRaised(st, frames[0], NEVER);
      DriveIsFold(After(st, frames[0]), frames[1..]);
    }
  }

  lemma {:induction false} FoldKeeps(st: State, frames: seq<Frame>)
    requires InLoop(st)
    ensures InLoop(Fold(st, frames))
    decreases |frames|
  {
    if frames != [] {
      hide InLoop, Step;
      StepKeeps(st, frames[0], NEVER);
      FoldKeeps(After(st, frames[0]), frames[1..]);
    }
  }

  // ---------------------------------------------------------------------------
  // The look-ahead classifier.

  predicate IsBoundary(f: Frame) {
    Classify(f).FromAgent? || Classify(f).InlineHandoff?
  }

  /** The index of the first boundary, or the length. */
  function NextBoundary(frames: seq<Frame>): (b: nat)
    ensures b <= |frames| && (b < |frames| ==> IsBoundary(frames[b]))
  {
    if frames == [] || IsBoundary(frames[0]) then 0 else 1 + NextBoundary(frames[1..])
  }

  /** A chunk counts when an agent has spoken, no handoff shares its prefix, and it neither repeats the
      chunk before it nor begins the text of its segment again. */
  predicate Genuine(segment: seq<string>, handoffs: set<string>, agentsDone: bool, text: string) {
    && agentsDone
    && (forall h :: h in handoffs ==> Key(h) != Key(text))
    && (segment != [] ==> !(text <= Join(segment)) && text != segment[|segment| - 1])
  }

  /** The chunks of a stretch of frames that count, after those of `segment`. */
  function Kept(frames: seq<Frame>, segment: seq<string>, handoffs: set<string>, agentsDone: bool): seq<string> {
    if frames == [] then segment
    else
      var k := Classify(frames[0]);
      Kept(frames[1..],
           if k.Chunk? && Genuine(segment, handoffs, agentsDone, k.text) then segment + [k.text] else segment,
           handoffs, agentsDone)
  }

  function LastFinal(frames: seq<Frame>, default: string): string {
    if frames == [] then default
    else LastFinal(frames[1..], if Classify(frames[0]).FinalResponse? then Classify(frames[0]).text else default)
  }

  function AsTokens(texts: seq<string>): seq<Sse> {
    if texts == [] then [] else [Token(texts[0])] + AsTokens(texts[1..])
  }

  /** Look ahead to the next boundary: the chunks before it are its handoff, and without one they are the
      answer, for which the last `final_response` stands in when there are none. */
  function Offline(frames: seq<Frame>, segment: seq<string>, handoffs: set<string>,
                   agentsDone: bool, direct: string): seq<Sse>
    decreases |frames|
  {
    var b := NextBoundary(frames);
    var kept := Kept(frames[..b], segment, handoffs, agentsDone);
    var final := LastFinal(frames[..b], direct);
    if b == |frames| then
      AsTokens(if kept != [] then kept else if final != "" then [final] else [])
    else
      var k := Classify(frames[b]);
      var text := BoundaryText(kept, k);
      var isNew := text != "" && text !in handoffs;
      (if isNew then [Handoff(text)] else [])
      + Offline(frames[b + 1..], [], if isNew then handoffs + {text} else handoffs, agentsDone || k.FromAgent?, final)
  }

  /** The frames of a trace that carry supervisor text. */
  function Visible(t: seq<Sse>): seq<Sse> {
    if t == [] then []
    else Visible(t[..|t| - 1]) + (if t[|t| - 1].Handoff? || t[|t| - 1].Token? then [t[|t| - 1]] else [])
  }

  lemma VisibleAppend(t: seq<Sse>, e: Sse)
    ensures Visible(t + [e]) == Visible(t) + (if e.Handoff? || e.Token? then [e] else [])
  {
    assert (t + [e])[..|t|] == t;
  }

  // ---------------------------------------------------------------------------
  // Online equals offline.

  /** One frame that is no boundary, seen by the look-ahead classifier. */
  lemma OfflineSkips(frames: seq<Frame>, segment: seq<string>, handoffs: set<string>, agentsDone: bool, direct: string)
    requires frames != [] && !IsBoundary(frames[0])
    ensures var k := Classify(frames[0]);
            Offline(frames, segment, handoffs, agentsDone, direct) ==
            Offline(frames[1..],
                    if k.Chunk? && Genuine(segment, handoffs, agentsDone, k.text) then segment + [k.text] else segment,
                    handoffs, agentsDone, if k.FinalResponse? then k.text else direct)
  {
    hide Classify, Genuine, BoundaryText;
    var b := NextBoundary(frames);
    assert frames[..b][0] == frames[0] && frames[..b][1..] == frames[1..][..b - 1];
    assert b < |frames| ==> frames[1..][b - 1] == frames[b] && frames[1..][b..] == frames[b + 1..];
  }

  /** A boundary at hand, seen by the look-ahead classifier. */
  lemma OfflineBoundary(frames: seq<Frame>, segment: seq<string>, handoffs: set<string>,
                        agentsDone: bool, direct: string)
    requires frames != [] && IsBoundary(frames[0])
    ensures var k := Classify(frames[0]);
            var text := BoundaryText(segment, k);
            var isNew := text != "" && text !in handoffs;
            Offline(frames, segment, handoffs, agentsDone, direct) ==
            (if isNew then [Handoff(text)] else [])
            + Offline(frames[1..], [], if isNew then handoffs + {text} else handoffs,
                      agentsDone || k.FromAgent?, direct)
  {
    hide Classify, BoundaryText;
    assert NextBoundary(frames) == 0 && frames[..0] == [];
  }

  lemma QuietStep(st: State, f: Frame)
    requires InLoop(st) && !IsBoundary(f)
    ensures var k, st' := Classify(f), After(st, f);
            && st'.buffer == st.buffer.(chunks :=
                 if k.Chunk? && Genuine(st.buffer.chunks, st.buffer.handoffs, st.agentsDone, k.text)
                 then st.buffer.chunks + [k.text] else st.buffer.chunks)
            && st'.agentsDone == st.agentsDone && st'.direct == (if k.FinalResponse? then k.text else st.direct)
            && Visible(st'.trace) == Visible(st.trace)
  {
    var k := Classify(f);
    hide Classify, GoodTrace, StartedIn, RepliedIn, HandoffsIn, Tokens, Key, Join;
    if k.Relay? {
      VisibleAppend(st.trace, Mini(k.name, k.data));
    }
  }

  function BoundaryText(segment: seq<string>, k: Kind): string
    requires k.FromAgent? || k.InlineHandoff?
  {
    CleanHandoff(if k.FromAgent? then Join(segment) else AfterBracket(k.text))
  }

  /** A boundary of kind `k` empties the segment and lets its text out at most once. */
  ghost predicate Releases(st: State, k: Kind, st': State)
    requires k.FromAgent? || k.InlineHandoff?
  {
    var text := BoundaryText(st.buffer.chunks, k);
    var isNew := text != "" && text !in st.buffer.handoffs;
    && st'.buffer.chunks == [] && st'.direct == st.direct
    && st'.buffer.handoffs == (if isNew then st.buffer.handoffs + {text} else st.buffer.handoffs)
    && st'.agentsDone == (st.agentsDone || k.FromAgent?)
    && Visible(st'.trace) == Visible(st.trace) + (if isNew then [Handoff(text)] else [])
  }

  lemma BoundaryStep(st: State, f: Frame)
    requires IsBoundary(f)
    ensures Releases(st, Classify(f), After(st, f))
  {
    var k := Classify(f);
    hide Classify, Releases, OnAgent, OnInline;
    match k
    case FromAgent(agent, content, toolCalls) => AgentReleases(st, agent, content, toolCalls);
    case InlineHandoff(text) => InlineReleases(st, text);
  }

  lemma InlineReleases(st: State, text: string)
    ensures Releases(st, InlineHandoff(text), OnInline(st, text, NEVER).st)
  {
    hide Visible;
    VisibleAppend(st.trace, Handoff(BoundaryText([], InlineHandoff(text))));
    hide CleanHandoff, AfterBracket, Key, Visible;
  }

  lemma HandoffReleases(st: State)
    ensures var e, text := HandoffStage(st, NEVER), CleanHandoff(Join(st.buffer.chunks));
            var isNew := text != "" && text !in st.buffer.handoffs;
            && !e.raised && e.countdown == NEVER
            && e.st.buffer.chunks == [] && e.st.direct == st.direct && e.st.agentsDone == st.agentsDone
            && e.st.buffer.handoffs == (if isNew then st.buffer.handoffs + {text} else st.buffer.handoffs)
            && Visible(e.st.trace) == Visible(st.trace) + (if isNew then [Handoff(text)] else [])
  {
    DiscardShape(st.buffer);
    VisibleAppend(st.trace, Handoff(CleanHandoff(Join(st.buffer.chunks))));
    hide CleanHandoff, DiscardAsHandoff, Join, Key, Visible, Trimmed;
  }

  lemma AgentReleases(st: State, agent: string, content: Content, toolCalls: bool)
    ensures Releases(st, FromAgent(agent, content, toolCalls), OnAgent(st, agent, content, toolCalls, NEVER).st)
  {
    hide HandoffStage, StartedStage, ReplyStage, CleanHandoff, Join, Visible;
    HandoffReleases(st);
    var e1 := HandoffStage(st, NEVER);
    StartedUnseen(e1.st, agent);
    var e2 := StartedStage(e1.st, agent, NEVER);
    ReplyUnseen(e2.st, agent, content, toolCalls);
  }

  /** A stage that shows no supervisor text and leaves the buffer alone. */
  ghost predicate Unseen(st: State, e: Exec) {
    && !e.raised && e.countdown == NEVER && e.st.buffer == st.buffer && e.st.direct == st.direct
    && e.st.agentsDone == st.agentsDone && Visible(e.st.trace) == Visible(st.trace)
  }

  lemma StartedUnseen(st: State, agent: string)
    ensures Unseen(st, StartedStage(st, agent, NEVER))
  {
    VisibleAppend(st.trace, Started(agent));
    hide Visible;
  }

  lemma ReplyUnseen(st: State, agent: string, content: Content, toolCalls: bool)
    ensures Unseen(st, ReplyStage(st, agent, content, toolCalls, NEVER))
  {
    var r := Reply(agent, content, toolCalls);
    if r.Some? {
      VisibleAppend(st.trace, AgentDone(agent, Preview(r.value)));
    }
    hide Reply, Preview, Visible;
  }

  lemma {:induction false} FlushVisible(st: State, i: nat)
    requires Invariant(st) && i <= |st.buffer.chunks|
    ensures Visible(Flush(st, i, NEVER).st.trace) == Visible(st.trace) + AsTokens(st.buffer.chunks[i..])
    decreases |st.buffer.chunks| - i
  {
    if i < |st.buffer.chunks| {
      var chunk := st.buffer.chunks[i];
      var e := YieldToken(st, chunk, NEVER);
      assert e.st.trace == st.trace + [Token(chunk)] && !e.raised && e.countdown == NEVER;
      FlushNext(st, i, NEVER);
      TokenKeeps(st, chunk, NEVER);
      VisibleAppend(st.trace, Token(chunk));
      hide Invariant, Flush, Visible, YieldToken, AsTokens;
      FlushVisible(e.st, i + 1);
      AsTokensFirst(chunk, st.buffer.chunks[i + 1..]);
    } else {
      assert AsTokens(st.buffer.chunks[i..]) == [];
    }
  }

  lemma AsTokensFirst(text: string, rest: seq<string>)
    ensures AsTokens([text] + rest) == [Token(text)] + AsTokens(rest)
  {
    assert ([text] + rest)[1..] == rest;
  }

  lemma EndingVisible(st: State)
    requires InLoop(st)
    ensures var c := st.buffer.chunks;
            Visible(Ending(st, NEVER).st.trace) ==
            Visible(st.trace) + AsTokens(if c != [] then c else if st.direct != "" then [st.direct] else [])
  {
    FlushVisible(st, 0);
    FlushLosesNothing(st, 0, NEVER);
    FlushNeverRaised(st, 0, NEVER);
    var c := st.buffer.chunks;
    assert c[0..] == c;
    hide Invariant, Flush, Visible;
    var e := Flush(st, 0, NEVER);
    if e.st.parts == [] && e.st.direct != "" {
      VisibleAppend(e.st.trace, Token(e.st.direct));
      assert AsTokens([st.direct]) == [Token(st.direct)];
    }
  }

  /** What the look-ahead classifier still has to say, from a state of the online one. */
  function Remaining(st: State, frames: seq<Frame>): seq<Sse> {
    Offline(frames, st.buffer.chunks, st.buffer.handoffs, st.agentsDone, st.direct)
  }

  /** What was shown and what remains add up to the same before and after every frame. */
  lemma StepOffline(st: State, frames: seq<Frame>)
    requires InLoop(st) && frames != []
    ensures Visible(st.trace) + Remaining(st, frames) ==
            Visible(After(st, frames[0]).trace) + Remaining(After(st, frames[0]), frames[1..])
  {
    hide InLoop, After, BoundaryText, Genuine, Classify, Visible, Offline;
    if IsBoundary(frames[0]) {
      BoundaryStep(st, frames[0]);
      OfflineBoundary(frames, st.buffer.chunks, st.buffer.handoffs, st.agentsDone, st.direct);
    } else {
      QuietStep(st, frames[0]);
      OfflineSkips(frames, st.buffer.chunks, st.buffer.handoffs, st.agentsDone, st.direct);
    }
  }

  lemma {:induction false} FoldOffline(st: State, frames: seq<Frame>)
    requires InLoop(st)
    ensures Visible(Ending(Fold(st, frames), NEVER).st.trace) == Visible(st.trace) + Remaining(st, frames)
    decreases |frames|
  {
    if frames == [] {
      EndingVisible(st);
    } else {
      StepKeeps(st, frames[0], NEVER);
      StepOffline(st, frames);
      FoldOffline(After(st, frames[0]), frames[1..]);
      hide InLoop, Step, Ending, Remaining, Visible;
    }
  }

  /** Online equals offline: in a run without faults the handoff and token frames are exactly those of
      the classifier that looks ahead to the next boundary before it decides. */
  lemma OnlineEqualsOffline(frames: seq<Frame>, fault: Fault, message: string, working: nat)
    ensures Visible(Stream(frames, NEVER, fault, message, working).trace) == Offline(frames, [], {}, false, "")
  {
    StartInLoop();
    DriveIsFold(START, frames);
    NeverRaised(START, frames, NEVER);
    FoldOffline(START, frames);
    var e := Drive(START, frames, NEVER);
    hide Drive, Offline, Fold, Ending;
    var d := DoneFrame(e.st, SortedNames(e.st.seen), false, false, Some(false));
    VisibleAppend(e.st.trace, d);
  }

  // ---------------------------------------------------------------------------
  // The answer.

  /** The frames after the last boundary. */
  function Tail(frames: seq<Frame>): seq<Frame>
    decreases |frames|
  {
    var b := NextBoundary(frames);
    if b == |frames| then frames else Tail(frames[b + 1..])
  }

  predicate SawAgent(frames: seq<Frame>) {
    frames != [] && (Classify(frames[0]).FromAgent? || SawAgent(frames[1..]))
  }

  lemma TailSkips(frames: seq<Frame>)
    requires frames != []
    ensures Tail(frames) == if NextBoundary(frames) == |frames| then frames else Tail(frames[1..])
    ensures !IsBoundary(frames[0]) ==> NextBoundary(frames) == 1 + NextBoundary(frames[1..])
  {
    hide IsBoundary;
    var b := NextBoundary(frames);
    if IsBoundary(frames[0]) {
      assert b == 0;
    } else if b < |frames| {
      assert b == 1 + NextBoundary(frames[1..]);
      assert frames[1..][b..] == frames[b + 1..];
    }
  }

  /** The buffer after a run holds the genuine chunks of the tail. */
  lemma {:induction false} FoldTail(st: State, frames: seq<Frame>)
    requires InLoop(st)
    ensures var st' := Fold(st, frames);
            var quiet := NextBoundary(frames) == |frames|;
            && st'.buffer.chunks ==
               Kept(Tail(frames), if quiet then st.buffer.chunks else [], st'.buffer.handoffs, st'.agentsDone)
            && st'.direct == LastFinal(frames, st.direct)
            && st'.agentsDone == (st.agentsDone || SawAgent(frames))
            && (quiet ==> st'.buffer.handoffs == st.buffer.handoffs && st'.agentsDone == st.agentsDone)
    decreases |frames|
  {
    if frames != [] {
      var st1 := After(st, frames[0]);
      TailSkips(frames);
      StepKeeps(st, frames[0], NEVER);
      FoldTail(st1, frames[1..]);
      hide InLoop, After, BoundaryText, Genuine, Classify, Visible, Tail;
      if IsBoundary(frames[0]) {
        BoundaryStep(st, frames[0]);
        TailOfTail(frames[1..]);
      } else {
        QuietStep(st, frames[0]);
      }
    }
  }

  lemma TailOfTail(frames: seq<Frame>)
    ensures NextBoundary(frames) == |frames| ==> Tail(frames) == frames
  {
  }

  /** The answer of a run without faults: the tokens are exactly the genuine supervisor chunks after the
      last agent frame or inline handoff, in order; without any, the last non-empty `final_response`; and
      the response is their join, or the placeholder. */
  lemma AnswerIsTail(frames: seq<Frame>, fault: Fault, message: string, working: nat)
    ensures var t := Stream(frames, NEVER, fault, message, working).trace;
            var kept := Kept(Tail(frames), [], HandoffsIn(t), SawAgent(frames));
            var final := LastFinal(frames, "");
            Answers(t, if kept != [] then kept else if final != "" then [final] else [],
                    if kept != [] then Join(kept) else if final != "" then final else PLACEHOLDER)
  {
    var st := FaultFreeEnd(frames);
    ResponseOf(st);
    hide Drive, Kept, Tail, SawAgent, LastFinal, Tokens, HandoffsIn, Invariant, Response;
    var d := DoneFrame(st, SortedNames(st.seen), false, false, Some(false));
    AnswerFrames(st, d);
    assert Stream(frames, NEVER, fault, message, working).trace == st.trace + [d];
    var final := LastFinal(frames, "");
    assert Join([final]) == final + "" == final;
  }

  /** Where a run without faults leaves the generator. */
  lemma FaultFreeEnd(frames: seq<Frame>) returns (st: State)
    ensures Drive(START, frames, NEVER).st == st && !Drive(START, frames, NEVER).raised && Invariant(st)
    ensures var kept := Kept(Tail(frames), [], st.buffer.handoffs, SawAgent(frames));
            st.parts == if kept != [] then kept else if LastFinal(frames, "") != "" then [LastFinal(frames, "")] else []
  {
    StartInLoop();
    DriveIsFold(START, frames);
    NeverRaised(START, frames, NEVER);
    FoldKeeps(START, frames);
    FoldTail(START, frames);
    EndingKeeps(Fold(START, frames), NEVER);
    st := Drive(START, frames, NEVER).st;
    hide Ending, Drive, Kept, Tail, SawAgent, LastFinal, Invariant, Fold, NextBoundary;
  }

  lemma AnswerFrames(st: State, d: Sse)
    requires Invariant(st) && d.Done?
    ensures Tokens(st.trace + [d]) == st.parts && HandoffsIn(st.trace + [d]) == st.buffer.handoffs
  {
    hide CleanBuffer, GoodTrace, StartedIn, RepliedIn, HandoffsIn, Tokens;
    TokensAppend(st.trace, d);
    SetsAppend(st.trace, d);
  }
}
