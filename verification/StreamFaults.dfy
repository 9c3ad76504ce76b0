/** What a fault takes away: how a faulted run compares with the same run left alone. */
module StreamFaults {
  import opened Text
  import opened StreamBuffer
  import opened Streaming
  import opened StreamSafety
  import opened StreamTheorems
  import opened StreamRefinement

  /** `early` has `countdown` points to pass; left alone, from the trace `t` on, it gets to `late` and passes
      `waits` waits for a graph frame and one point for every frame it sends. It is stopped on the way exactly
      when the countdown runs out before those, and otherwise gets there with the rest of its countdown. */
  ghost predicate OnTheWay(t: seq<Sse>, waits: nat, late: State, early: Exec, countdown: int) {
    var points := waits + |late.trace| - |t|;
    && t <= late.trace && early.st.trace <= late.trace
    && (early.raised <==> 0 <= countdown < points)
    && (!early.raised ==>
          early.st == late && early.countdown == if countdown < 0 then countdown else countdown - points)
  }

  // ---------------------------------------------------------------------------
  // The frames a client has seen when a fault strikes.

  lemma StageOnTheWay(st: State, agent: string, content: Content, toolCalls: bool, countdown: int)
    ensures OnTheWay(st.trace, 0, HandoffStage(st, NEVER).st, HandoffStage(st, countdown), countdown)
    ensures OnTheWay(st.trace, 0, StartedStage(st, agent, NEVER).st, StartedStage(st, agent, countdown), countdown)
    ensures OnTheWay(st.trace, 0, ReplyStage(st, agent, content, toolCalls, NEVER).st,
                     ReplyStage(st, agent, content, toolCalls, countdown), countdown)
    ensures !HandoffStage(st, NEVER).raised && HandoffStage(st, NEVER).countdown == NEVER
    ensures !StartedStage(st, agent, NEVER).raised && StartedStage(st, agent, NEVER).countdown == NEVER
    ensures !ReplyStage(st, agent, content, toolCalls, NEVER).raised
  {
    hide DiscardAsHandoff, Reply, Preview;
  }

  /** One stretch after another. */
  lemma Onwards(t: seq<Sse>, w1: nat, mid: State, e1: Exec, w2: nat, late: State, e2: Exec, countdown: int)
    requires OnTheWay(t, w1, mid, e1, countdown) && OnTheWay(mid.trace, w2, late, e2, e1.countdown)
    ensures OnTheWay(t, w1 + w2, late, if e1.raised then e1 else e2, countdown)
  {
  }

  lemma AgentOnTheWay(st: State, agent: string, content: Content, toolCalls: bool, countdown: int)
    ensures OnTheWay(st.trace, 0, OnAgent(st, agent, content, toolCalls, NEVER).st,
                     OnAgent(st, agent, content, toolCalls, countdown), countdown)
  {
    StageOnTheWay(st, agent, content, toolCalls, countdown);
    var f1, e1 := HandoffStage(st, NEVER).st, HandoffStage(st, countdown);
    StageOnTheWay(f1, agent, content, toolCalls, e1.countdown);
    var f2, e2 := StartedStage(f1, agent, NEVER).st, StartedStage(f1, agent, e1.countdown);
    StageOnTheWay(f2, agent, content, toolCalls, e2.countdown);
    var f3, e3 := ReplyStage(f2, agent, content, toolCalls, NEVER).st,
                  ReplyStage(f2, agent, content, toolCalls, e2.countdown);
    hide HandoffStage, StartedStage, ReplyStage;
    Onwards(f1.trace, 0, f2, e2, 0, f3, e3, e1.countdown);
    Onwards(st.trace, 0, f1, e1, 0, f3, if e2.raised then e2 else e3, countdown);
  }

  lemma StepOnTheWay(st: State, f: Frame, countdown: int)
    ensures OnTheWay(st.trace, 0, After(st, f), Step(st, f, countdown), countdown)
  {
    hide OnAgent, RecordInlineHandoff, OnChunk, Classify;
    var k := Classify(f);
    if k.FromAgent? {
      AgentOnTheWay(st, k.agent, k.content, k.toolCalls, countdown);
    } else if k.Chunk? {
      assert OnChunk(st, k.text).trace == st.trace by { ChunkQuiet(st, k.text); }
    }
  }

  lemma ChunkQuiet(st: State, text: string)
    ensures OnChunk(st, text).trace == st.trace
  {
  }

  lemma {:induction false} FlushOnTheWay(st: State, i: nat, countdown: int)
    requires i <= |st.buffer.chunks|
    ensures OnTheWay(st.trace, 0, Flush(st, i, NEVER).st, Flush(st, i, countdown), countdown)
    ensures Flush(st, i, countdown).raised ==> |Flush(st, i, countdown).st.parts| == |st.parts| + countdown + 1
    ensures |Flush(st, i, NEVER).st.parts| - |st.parts| == |Flush(st, i, NEVER).st.trace| - |st.trace|
    decreases |st.buffer.chunks| - i
  {
    hide AlreadyEmitted;
    if i < |st.buffer.chunks| {
      if AlreadyEmitted(st.buffer, st.buffer.chunks[i]) {
        FlushOnTheWay(st, i + 1, countdown);
      } else {
        var e := YieldToken(st, st.buffer.chunks[i], countdown);
        FlushOnTheWay(e.st, i + 1, e.countdown);
        assert |e.st.parts| == |st.parts| + 1 && st.trace <= e.st.trace;
        hide Flush;
      }
    }
  }

  lemma EndingOnTheWay(st: State, countdown: int)
    ensures OnTheWay(st.trace, 0, Ending(st, NEVER).st, Ending(st, countdown), countdown)
    ensures Ending(st, countdown).raised ==> |Ending(st, countdown).st.parts| == |st.parts| + countdown + 1
  {
    FlushOnTheWay(st, 0, countdown);
    FlushNeverRaised(st, 0, NEVER);
    hide Flush;
  }

  /** The frame loop alone, up to the end of the graph. */
  function ReadFrames(st: State, frames: seq<Frame>, countdown: int): Exec
    decreases |frames|
  {
    var e := Suspend(st, countdown);
    if e.raised || frames == [] then e
    else
      var e' := Step(e.st, frames[0], e.countdown);
      if e'.raised then e' else ReadFrames(e'.st, frames[1..], e'.countdown)
  }

  lemma {:induction false} LoopOnTheWay(st: State, frames: seq<Frame>, countdown: int)
    ensures OnTheWay(st.trace, |frames| + 1, Fold(st, frames), ReadFrames(st, frames, countdown), countdown)
    decreases |frames|
  {
    var e := Suspend(st, countdown);
    if frames != [] {
      var st' := After(st, frames[0]);
      var e' := Step(st, frames[0], e.countdown);
      StepOnTheWay(st, frames[0], e.countdown);
      LoopOnTheWay(st', frames[1..], e'.countdown);
      var l := ReadFrames(st', frames[1..], e'.countdown);
      hide Step, After;
      Onwards(st.trace, 0, st', e', |frames|, Fold(st, frames), l, e.countdown);
      Onwards(st.trace, 1, st, e, |frames|, Fold(st, frames), if e'.raised then e' else l, countdown);
    }
  }

  lemma {:induction false} LoopKeeps(st: State, frames: seq<Frame>, countdown: int)
    requires InLoop(st)
    ensures InLoop(ReadFrames(st, frames, countdown).st)
    decreases |frames|
  {
    var e := Suspend(st, countdown);
    hide Step, InLoop;
    if !e.raised && frames != [] {
      StepKeeps(st, frames[0], e.countdown);
      var e' := Step(st, frames[0], e.countdown);
      if !e'.raised {
        LoopKeeps(e'.st, frames[1..], e'.countdown);
      }
    }
  }

  lemma {:induction false} DriveIsLoopThenEnding(st: State, frames: seq<Frame>, countdown: int)
    ensures var e := ReadFrames(st, frames, countdown);
            Drive(st, frames, countdown) == if e.raised then e else Ending(e.st, e.countdown)
    decreases |frames|
  {
    var e := Suspend(st, countdown);
    if !e.raised && frames != [] {
      var e' := Step(st, frames[0], e.countdown);
      if !e'.raised {
        DriveIsLoopThenEnding(e'.st, frames[1..], e'.countdown);
      }
      hide Step, Ending;
    }
  }

  /** A fault only cuts off: what was sent before it is a prefix of what the run would have sent. It strikes
      exactly when its countdown is no larger than the graph frames and the frames that the run sends. */
  lemma FaultCutsOff(st: State, frames: seq<Frame>, countdown: int)
    ensures OnTheWay(st.trace, |frames| + 1, Drive(st, frames, NEVER).st, Drive(st, frames, countdown), countdown)
  {
    DriveIsFold(st, frames);
    DriveIsLoopThenEnding(st, frames, countdown);
    LoopOnTheWay(st, frames, countdown);
    var e, mid := ReadFrames(st, frames, countdown), Fold(st, frames);
    EndingOnTheWay(mid, e.countdown);
    hide Drive, Ending, ReadFrames, Fold;
    Onwards(st.trace, |frames| + 1, mid, e, 0, Ending(mid, NEVER).st, Ending(mid, e.countdown), countdown);
  }

  // ---------------------------------------------------------------------------
  // When a partial answer exists.

  /** How many tokens a fault finds sent: none until its countdown outlasts the graph frames and the frames
      sent for them, and one for every point after that. */
  function SentBy(frames: seq<Frame>, countdown: int): nat {
    var loop := |frames| + |Fold(START, frames).trace|;
    if countdown > loop then countdown - loop else 0
  }

  lemma TokensAtFault(frames: seq<Frame>, countdown: int)
    requires 0 <= countdown <= |frames| + |Drive(START, frames, NEVER).st.trace|
    ensures var e := Drive(START, frames, countdown);
            && e.raised && Invariant(e.st) && |e.st.parts| == SentBy(frames, countdown)
  {
    FaultCutsOff(START, frames, countdown);
    StartInLoop();
    DriveKeeps(START, frames, countdown);
    DriveIsLoopThenEnding(START, frames, countdown);
    LoopOnTheWay(START, frames, countdown);
    LoopKeeps(START, frames, countdown);
    var l := ReadFrames(START, frames, countdown);
    EndingOnTheWay(l.st, l.countdown);
    hide Invariant, Drive, Ending, ReadFrames, Fold;
  }

  lemma {:induction false} TokensPrefix(t: seq<Sse>, late: seq<Sse>)
    requires t <= late
    ensures Tokens(t) <= Tokens(late)
    decreases |late|
  {
    if t != late {
      TokensPrefix(t, late[..|late| - 1]);
      assert Tokens(late[..|late| - 1]) <= Tokens(late);
    }
  }

  /** The tokens at the fault are the first ones of the undisturbed run. */
  lemma PartsAtFault(frames: seq<Frame>, countdown: int)
    requires 0 <= countdown <= |frames| + |Drive(START, frames, NEVER).st.trace|
    ensures var e, late := Drive(START, frames, countdown), Drive(START, frames, NEVER);
            && e.raised && !late.raised && Invariant(e.st) && Invariant(late.st)
            && SentBy(frames, countdown) <= |late.st.parts|
            && e.st.parts == late.st.parts[..SentBy(frames, countdown)]
  {
    TokensAtFault(frames, countdown);
    FaultCutsOff(START, frames, countdown);
    NeverRaised(START, frames, NEVER);
    StartInLoop();
    DriveKeeps(START, frames, NEVER);
    var e, late := Drive(START, frames, countdown), Drive(START, frames, NEVER);
    hide Drive, SentBy, CleanBuffer, GoodTrace, StartedIn, RepliedIn, HandoffsIn, Tokens;
    TokensPrefix(e.st.trace, late.st.trace);
  }

  lemma Concluded(e: Exec, fault: Fault, message: string, working: nat)
    requires Invariant(e.st)
    ensures Tokens(e.st.trace) == e.st.parts
    ensures var f := Conclude(e, fault, message, working);
            && Tokens(f.trace) == e.st.parts
            && (if e.raised && fault == Cancellation && e.st.parts == [] then !HasDone(f.trace) && f.rows == []
                else Answers(f.trace, e.st.parts, if e.st.parts == [] then PLACEHOLDER else Join(e.st.parts)))
  {
    var tail, rows := ConcludeCases(e, fault, message, working);
    Closing(e.st, tail);
    NoDoneYet(e.st);
    ResponseOf(e.st);
    hide Invariant, GoodTrace, Tokens, StartedIn, RepliedIn, Conclude, Response, SortedNames;
    var f := Conclude(e, fault, message, working);
    if tail == [] {
      assert f.trace == e.st.trace;
      assert f.rows == [];
    } else {
      assert f.trace[|f.trace| - 1] == tail[|tail| - 1];
    }
  }

  /** A partial answer, exactly: a fault shows the first tokens of the undisturbed run, as many as points of
      its countdown were left when the graph had ended. A timeout or error while the graph runs therefore
      answers with the placeholder, whatever waits in the buffer, and a cancellation then stores nothing. */
  lemma PartialAnswerExactly(frames: seq<Frame>, countdown: int, fault: Fault, message: string, working: nat)
    requires 0 <= countdown <= |frames| + |Drive(START, frames, NEVER).st.trace|
    ensures var f := Stream(frames, countdown, fault, message, working);
            var whole := Tokens(Stream(frames, NEVER, fault, message, working).trace);
            var n := SentBy(frames, countdown);
            && n <= |whole| && Tokens(f.trace) == whole[..n]
            && (if n == 0 && fault == Cancellation then !HasDone(f.trace) && f.rows == []
                else Answers(f.trace, whole[..n], if n == 0 then PLACEHOLDER else Join(whole[..n])))
  {
    PartsAtFault(frames, countdown);
    hide Drive, SentBy, Invariant, Tokens, Conclude, Answers;
    Concluded(Drive(START, frames, countdown), fault, message, working);
    Concluded(Drive(START, frames, NEVER), fault, message, working);
  }

  // ---------------------------------------------------------------------------
  // Where handoffs come from.

  /** `text` is what the boundary frame `b` discards, cleaned: the text waiting in the buffer when it arrives,
      or its own; and it is a piece of that. */
  ghost predicate FromBoundary(st: State, frames: seq<Frame>, b: nat, text: string) {
    && b < |frames| && IsBoundary(frames[b])
    && var k, waiting := Classify(frames[b]), Fold(st, frames[..b]).buffer.chunks;
       text == BoundaryText(waiting, k) && IsPiece(text, if k.InlineHandoff? then k.text else Join(waiting))
  }

  lemma BoundaryPiece(segment: seq<string>, k: Kind)
    requires k.FromAgent? || k.InlineHandoff?
    ensures IsPiece(BoundaryText(segment, k), if k.InlineHandoff? then k.text else Join(segment))
  {
    hide CleanHandoff, IsPiece, Join, AfterBracketFrom;
    if k.FromAgent? {
      CleanShape(Join(segment));
    } else {
      CleanShape(AfterBracket(k.text));
      AfterBracketPiece(k.text, 0);
      PieceOfPiece(CleanHandoff(AfterBracket(k.text)), AfterBracket(k.text), k.text);
    }
  }

  lemma StepHandoffs(st: State, frames: seq<Frame>, text: string)
    requires InLoop(st) && frames != []
    requires text in After(st, frames[0]).buffer.handoffs && text !in st.buffer.handoffs
    ensures FromBoundary(st, frames, 0, text)
  {
    hide InLoop, After, Classify, BoundaryText, IsPiece, Genuine, Visible, Join;
    assert frames[..0] == [];
    if IsBoundary(frames[0]) {
      BoundaryStep(st, frames[0]);
      BoundaryPiece(st.buffer.chunks, Classify(frames[0]));
    } else {
      QuietStep(st, frames[0]);
      assert false;
    }
  }

  lemma LaterBoundary(st: State, frames: seq<Frame>, b: nat, text: string)
    requires frames != [] && FromBoundary(After(st, frames[0]), frames[1..], b, text)
    ensures FromBoundary(st, frames, b + 1, text)
  {
    hide After, Classify, BoundaryText, IsPiece, Join;
    assert frames[..b + 1][1..] == frames[1..][..b];
  }

  lemma {:induction false} FoldHandoffs(st: State, frames: seq<Frame>, text: string)
    requires InLoop(st) && text in Fold(st, frames).buffer.handoffs && text !in st.buffer.handoffs
    ensures exists b :: FromBoundary(st, frames, b, text)
    decreases |frames|
  {
    if frames != [] {
      var st' := After(st, frames[0]);
      StepKeeps(st, frames[0], NEVER);
      hide InLoop, Step, FromBoundary;
      if text in st'.buffer.handoffs {
        StepHandoffs(st, frames, text);
      } else {
        FoldHandoffs(st', frames[1..], text);
        var b :| FromBoundary(st', frames[1..], b, text);
        LaterBoundary(st, frames, b, text);
      }
    }
  }

  /** The last frames of a run are no handoffs. */
  lemma SentBeforeTheEnd(e: Exec, fault: Fault, message: string, working: nat, text: string)
    requires Handoff(text) in Conclude(e, fault, message, working).trace
    ensures Handoff(text) in e.st.trace
  {
    var tail, rows := ConcludeCases(e, fault, message, working);
    hide Conclude, Response, SortedNames;
    assert Handoff(text) !in tail;
  }

  lemma RecordedHandoff(st: State, t: seq<Sse>, text: string)
    requires Invariant(st) && t <= st.trace && Handoff(text) in t
    ensures text in st.buffer.handoffs
  {
    hide CleanBuffer, GoodTrace, StartedIn, RepliedIn, Tokens;
    assert Handoff(text) in st.trace;
    assert text in HandoffsIn(st.trace);
  }

  /** Every handoff that any run sends, faults included, is the cleaned text that some boundary frame of the
      run discards, and so a piece of what the supervisor said. */
  lemma HandoffSources(frames: seq<Frame>, countdown: int, fault: Fault, message: string, working: nat, text: string)
    requires Handoff(text) in Stream(frames, countdown, fault, message, working).trace
    ensures exists b :: FromBoundary(START, frames, b, text)
  {
    var e, late := Drive(START, frames, countdown), Drive(START, frames, NEVER);
    SentBeforeTheEnd(e, fault, message, working, text);
    FaultCutsOff(START, frames, countdown);
    DriveIsFold(START, frames);
    StartInLoop();
    FoldKeeps(START, frames);
    EndingKeeps(Fold(START, frames), NEVER);
    hide Drive, Fold, Ending, Conclude, FromBoundary, Invariant;
    RecordedHandoff(late.st, e.st.trace, text);
    FoldHandoffs(START, frames, text);
  }
}
