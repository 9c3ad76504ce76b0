/** What a client and the storage see of a whole request, under any fault. */
module StreamTheorems {
  import opened Text
  import opened StreamBuffer
  import opened Streaming
  import opened StreamSafety

  ghost predicate HasDone(t: seq<Sse>) {
    t != [] && t[|t| - 1].Done?
  }

  /** The client is shown these tokens, and a done frame with this response. */
  ghost predicate Answers(t: seq<Sse>, tokens: seq<string>, response: string) {
    HasDone(t) && Tokens(t) == tokens && t[|t| - 1].response == response
  }

  /** Appending what a handler or the normal path adds after the tokens. */
  lemma Closing(st: State, tail: seq<Sse>)
    requires Invariant(st)
    requires tail == [] || (|tail| == 1 && tail[0].Done?) || (|tail| == 2 && tail[0].Error? && tail[1].Done?)
    ensures var t := st.trace + tail;
            GoodTrace(t) && Tokens(t) == st.parts && StartedIn(t) == st.seen && RepliedIn(t) == st.results.Keys
  {
    hide CleanBuffer, GoodTrace, StartedIn, RepliedIn, HandoffsIn, Tokens;
    if tail != [] {
      var e := tail[0];
      SetsAppend(st.trace, e);
      TokensAppend(st.trace, e);
      GoodAppend(st.trace, e);
      var t := st.trace + [e];
      if |tail| == 1 {
        assert st.trace + tail == t;
      } else {
        assert forall x :: x in t ==> x in st.trace || x == e;
        SetsAppend(t, tail[1]);
        TokensAppend(t, tail[1]);
        GoodAppend(t, tail[1]);
        assert st.trace + tail == t + [tail[1]];
      }
    } else {
      assert st.trace + tail == st.trace;
    }
  }

  lemma NoDoneYet(st: State)
    requires Invariant(st)
    ensures !HasDone(st.trace)
  {
    hide CleanBuffer, GoodTrace, StartedIn, RepliedIn, HandoffsIn, Tokens;
    if st.trace != [] {
      assert st.trace[|st.trace| - 1] in st.trace;
    }
  }

  lemma ResponseOf(st: State)
    requires Invariant(st)
    ensures Response(st.parts) == if st.parts == [] then PLACEHOLDER else Join(st.parts)
  {
    hide CleanBuffer, GoodTrace, StartedIn, RepliedIn, HandoffsIn, Tokens;
    JoinNonEmpty(st.parts);
  }

  /** What the done frame says, read off the trace. */
  ghost predicate DoneAgrees(t: seq<Sse>)
    requires HasDone(t)
  {
    var d := t[|t| - 1];
    && d.response == (if Tokens(t) == [] then "No response generated." else Join(Tokens(t)))
    && StrictlySorted(d.agentsUsed) && Members(d.agentsUsed) == StartedIn(t)
    && d.agentResults.Keys == RepliedIn(t)
  }

  /** The frames a request ends with, and the messages it then tries to store. */
  lemma ConcludeCases(e: Exec, fault: Fault, message: string, working: nat)
    returns (tail: seq<Sse>, rows: seq<Row>)
    ensures var f := Conclude(e, fault, message, working);
            && f.trace == e.st.trace + tail && f.rows == Stored(rows, working)
            && (f.reraised <==> e.raised && fault == Cancellation)
            && (tail == [] <==> f.reraised && e.st.parts == [])
            && (tail == [] ==> rows == [])
    ensures tail == [] || (|tail| == 1 && tail[0].Done?) || (|tail| == 2 && tail[0].Error? && tail[1].Done?)
    ensures tail != [] ==>
              var d := tail[|tail| - 1];
              && d.response == Response(e.st.parts) && d.agentsUsed == SortedNames(e.st.seen)
              && d.agentResults == e.st.results
              && (d.cancelled <==> e.raised && fault == Cancellation) && (d.timedOut <==> e.raised && fault == Timeout)
              && d.error == (if d.cancelled then None else Some(e.raised && fault == Failure))
              && (|tail| == 2 <==> e.raised && fault != Cancellation)
              && (|tail| == 2 ==> tail[0] == Error(fault == Timeout))
              && rows == [UserRow(message)]
                         + (if d.error == Some(true) then [] else [AssistantRow(d.response, d.agentsUsed, d.cancelled)])
  {
    var st, names := e.st, SortedNames(e.st.seen);
    hide Response, SortedNames;
    if !e.raised {
      tail := [DoneFrame(st, names, false, false, Some(false))];
    } else {
      match fault
      case Cancellation => tail := if st.parts == [] then [] else [DoneFrame(st, names, false, true, None)];
      case Timeout => tail := [Error(true), DoneFrame(st, names, true, false, Some(false))];
      case Failure => tail := [Error(false), DoneFrame(st, names, false, false, Some(true))];
    }
    if tail == [] {
      rows := [];
      assert st.trace + tail == st.trace;
    } else {
      var d := tail[|tail| - 1];
      var answer := AssistantRow(d.response, d.agentsUsed, d.cancelled);
      rows := [UserRow(message)] + (if d.error == Some(true) then [] else [answer]);
    }
  }

  /** What the end of a request tells about the fault, if one struck: a timeout and an error are announced by
      an error frame of their own, the done frame has the flag of the fault and no other, and only a
      cancellation is raised again. */
  ghost predicate TellsFault(f: Final, struck: bool, fault: Fault) {
    && (f.reraised <==> struck && fault == Cancellation)
    && (forall b :: Error(b) in f.trace <==> struck && fault != Cancellation && b == (fault == Timeout))
    && (HasDone(f.trace) ==>
          var d := f.trace[|f.trace| - 1];
          && (d.timedOut <==> struck && fault == Timeout) && (d.cancelled <==> struck && fault == Cancellation)
          && d.error == if d.cancelled then None else Some(struck && fault == Failure))
  }

  lemma NoErrorYet(st: State)
    requires Invariant(st)
    ensures forall b :: Error(b) !in st.trace
  {
    hide CleanBuffer, GoodTrace, StartedIn, RepliedIn, HandoffsIn, Tokens;
    assert forall b :: Rank(Error(b)) == 2;
  }

  /** Appending a tail to a trace without errors. */
  lemma ErrorsInTail(t: seq<Sse>, tail: seq<Sse>, b: bool)
    requires forall x :: Error(x) !in t
    requires tail == [] || (|tail| == 1 && tail[0].Done?) || (|tail| == 2 && tail[0].Error? && tail[1].Done?)
    ensures Error(b) in t + tail <==> |tail| == 2 && tail[0] == Error(b)
  {
  }

  lemma ConcludeTells(e: Exec, fault: Fault, message: string, working: nat)
    requires Invariant(e.st)
    ensures TellsFault(Conclude(e, fault, message, working), e.raised, fault)
  {
    var tail, rows := ConcludeCases(e, fault, message, working);
    NoDoneYet(e.st);
    NoErrorYet(e.st);
    hide Conclude, Invariant, Response, SortedNames;
    var t := Conclude(e, fault, message, working).trace;
    assert t == e.st.trace + tail;
    forall b ensures Error(b) in t <==> e.raised && fault != Cancellation && b == (fault == Timeout) {
      ErrorsInTail(e.st.trace, tail, b);
    }
    if tail == [] {
      assert t == e.st.trace;
    } else {
      assert t[|t| - 1] == tail[|tail| - 1];
    }
  }

  /** Trace grammar under faults: wherever a fault strikes, the frames sent are
      `(status | handoff | mini-event)* token* error? done?`; each agent starts and is done at most once,
      in that order; no handoff text is sent twice; and `done` is missing exactly when the request was
      cancelled before any token. Its response is the join of the tokens, or the placeholder exactly
      when there were none, and its agents are the started ones, sorted; the error frame and the flags are
      those of the fault that struck. */
  lemma TraceGrammar(frames: seq<Frame>, countdown: int, fault: Fault, message: string, working: nat)
    ensures var f := Stream(frames, countdown, fault, message, working);
            && GoodTrace(f.trace)
            && (HasDone(f.trace) <==> !(f.reraised && Tokens(f.trace) == []))
            && (HasDone(f.trace) ==> DoneAgrees(f.trace))
            && TellsFault(f, Drive(START, frames, countdown).raised, fault)
  {
    StartInLoop();
    DriveKeeps(START, frames, countdown);
    var e := Drive(START, frames, countdown);
    ConcludeTells(e, fault, message, working);
    var tail, rows := ConcludeCases(e, fault, message, working);
    hide Conclude, Invariant, GoodTrace, Drive, Tokens, StartedIn, RepliedIn, TellsFault;
    Closing(e.st, tail);
    NoDoneYet(e.st);
    ResponseOf(e.st);
    var t := Stream(frames, countdown, fault, message, working).trace;
    if tail == [] {
      assert t == e.st.trace;
    } else {
      assert t[|t| - 1] == tail[|tail| - 1];
    }
  }

  /** The messages that the trace calls for: the user's, and the answer unless the run failed. */
  ghost function Owed(t: seq<Sse>, message: string): seq<Row> {
    if !HasDone(t) then []
    else
      var d := t[|t| - 1];
      [UserRow(message)] + (if d.error == Some(true) then [] else [AssistantRow(d.response, d.agentsUsed, d.cancelled)])
  }

  /** Persistence agrees with the trace: storage holds a prefix of what the trace calls for, all of it
      when no call fails; so an assistant row is never there without its user row before it, and its
      text is the response that the client was shown. */
  lemma PersistenceAgrees(frames: seq<Frame>, countdown: int, fault: Fault, message: string, working: nat)
    ensures var f := Stream(frames, countdown, fault, message, working);
            && f.rows <= Owed(f.trace, message)
            && |f.rows| == (if working < |Owed(f.trace, message)| then working else |Owed(f.trace, message)|)
            && forall i :: 0 <= i < |f.rows| && f.rows[i].AssistantRow? ==>
                 && i == 1 && f.rows[0] == UserRow(message)
                 && HasDone(f.trace) && f.rows[1].text == f.trace[|f.trace| - 1].response
  {
    StartInLoop();
    DriveKeeps(START, frames, countdown);
    var e := Drive(START, frames, countdown);
    var tail, rows := ConcludeCases(e, fault, message, working);
    NoDoneYet(e.st);
    hide Conclude, Invariant, Drive;
    var t := Stream(frames, countdown, fault, message, working).trace;
    if tail == [] {
      assert t == e.st.trace;
    } else {
      assert t[|t| - 1] == tail[|tail| - 1];
    }
    assert rows == Owed(t, message);
  }

  // ---------------------------------------------------------------------------
  // Agent results.

  /** The first reply of the agent that counts, in frame order. */
  function FirstReply(frames: seq<Frame>, agent: string): Option<string> {
    if frames == [] then None
    else
      var k := Classify(frames[0]);
      if k.FromAgent? && k.agent == agent && Reply(agent, k.content, k.toolCalls).Some?
      then Reply(agent, k.content, k.toolCalls)
      else FirstReply(frames[1..], agent)
  }

  /** The results so far, given the first replies that the frames held. */
  ghost predicate ResultsFrom(before: map<string, string>, frames: seq<Frame>, after: map<string, string>, all: bool) {
    forall a ::
      && (a in before ==> a in after && after[a] == before[a])
      && (a in after && a !in before ==> FirstReply(frames, a) == Some(after[a]))
      && (all && FirstReply(frames, a).Some? ==> a in after)
  }

  /** What one frame adds to the results: nothing, or its own reply. */
  ghost predicate ResultsStep(before: map<string, string>, f: Frame, after: map<string, string>, done: bool) {
    var k := Classify(f);
    if !k.FromAgent? then after == before
    else
      var r := Reply(k.agent, k.content, k.toolCalls);
      || (after == before && (done ==> r.None? || k.agent in before))
      || (r.Some? && k.agent !in before && after == before[k.agent := r.value])
  }

  lemma StepResults(st: State, f: Frame, countdown: int)
    ensures var e := Step(st, f, countdown);
            ResultsStep(st.results, f, e.st.results, !e.raised)
  {
    hide Classify, Reply, OnAgent, RecordInlineHandoff;
    var k := Classify(f);
    if k.FromAgent? {
      AgentResults(st, k.agent, k.content, k.toolCalls, countdown);
    }
  }

  lemma AgentResults(st: State, agent: string, content: Content, toolCalls: bool, countdown: int)
    ensures var e, r := OnAgent(st, agent, content, toolCalls, countdown), Reply(agent, content, toolCalls);
            || (e.st.results == st.results && (!e.raised ==> r.None? || agent in st.results))
            || (r.Some? && agent !in st.results && e.st.results == st.results[agent := r.value])
  {
    hide Reply, HandoffStage, StartedStage;
    StageResults(st, agent, countdown);
    StageResults(HandoffStage(st, countdown).st, agent, HandoffStage(st, countdown).countdown);
  }

  lemma StageResults(st: State, agent: string, countdown: int)
    ensures HandoffStage(st, countdown).st.results == st.results
    ensures StartedStage(st, agent, countdown).st.results == st.results
  {
    hide DiscardAsHandoff;
  }

  lemma ResultsCompose(before: map<string, string>, frames: seq<Frame>, mid: map<string, string>,
                       after: map<string, string>, all: bool)
    requires frames != [] && ResultsStep(before, frames[0], mid, true) && ResultsFrom(mid, frames[1..], after, all)
    ensures ResultsFrom(before, frames, after, all)
  {
    hide Classify, Reply;
  }

  lemma ResultsStop(before: map<string, string>, frames: seq<Frame>, after: map<string, string>)
    requires frames != [] && ResultsStep(before, frames[0], after, false)
    ensures ResultsFrom(before, frames, after, false)
  {
    hide Classify, Reply;
  }

  lemma {:induction false} FlushResults(st: State, i: nat, countdown: int)
    requires i <= |st.buffer.chunks|
    ensures Flush(st, i, countdown).st.results == st.results
    decreases |st.buffer.chunks| - i
  {
    if i < |st.buffer.chunks| {
      if AlreadyEmitted(st.buffer, st.buffer.chunks[i]) {
        FlushResults(st, i + 1, countdown);
      } else {
        var e := YieldToken(st, st.buffer.chunks[i], countdown);
        if !e.raised {
          FlushResults(e.st, i + 1, e.countdown);
        }
      }
    }
  }

  lemma {:induction false} DriveResults(st: State, frames: seq<Frame>, countdown: int)
    ensures var e := Drive(st, frames, countdown);
            ResultsFrom(st.results, frames, e.st.results, !e.raised)
    decreases |frames|
  {
    var e := Suspend(st, countdown);
    hide Step, FirstReply, ResultsStep;
    if !e.raised && frames == [] {
      FlushResults(e.st, 0, e.countdown);
      EmptyResults(st.results);
    } else if !e.raised {
      StepResults(e.st, frames[0], e.countdown);
      var e' := Step(e.st, frames[0], e.countdown);
      hide ResultsFrom;
      if e'.raised {
        ResultsStop(st.results, frames, e'.st.results);
      } else {
        DriveResults(e'.st, frames[1..], e'.countdown);
        var e'' := Drive(e'.st, frames[1..], e'.countdown);
        ResultsCompose(st.results, frames, e'.st.results, e''.st.results, !e''.raised);
      }
    }
  }

  lemma EmptyResults(results: map<string, string>)
    ensures forall all :: ResultsFrom(results, [], results, all)
  {
  }

  /** `agent_results` holds, for each agent reported done, its first reply that counts; when no fault
      strikes, every agent with such a reply is in it; and all of them are among `agents_used`. */
  lemma ResultsAreFirstReplies(frames: seq<Frame>, countdown: int, fault: Fault, message: string, working: nat)
    ensures var t := Stream(frames, countdown, fault, message, working).trace;
            HasDone(t) ==>
              var d := t[|t| - 1];
              && (forall a :: a in d.agentResults ==>
                    FirstReply(frames, a) == Some(d.agentResults[a]) && a in d.agentsUsed)
              && (countdown < 0 ==> forall a :: FirstReply(frames, a).Some? ==> a in d.agentResults)
  {
    StartInLoop();
    DriveKeeps(START, frames, countdown);
    DriveResults(START, frames, countdown);
    NeverRaised(START, frames, countdown);
    var e := Drive(START, frames, countdown);
    var tail, rows := ConcludeCases(e, fault, message, working);
    NoDoneYet(e.st);
    RepliesStarted(e.st);
    hide Conclude, Invariant, Drive, FirstReply;
    var t := Stream(frames, countdown, fault, message, working).trace;
    if tail == [] {
      assert t == e.st.trace;
    } else {
      assert t[|t| - 1] == tail[|tail| - 1];
      assert forall a :: a in e.st.seen ==> a in Members(SortedNames(e.st.seen));
    }
  }

  lemma RepliesStarted(st: State)
    requires Invariant(st)
    ensures st.results.Keys <= st.seen
  {
    hide CleanBuffer, Grammatical, NoRepeats, GoodHandoffs, HandoffsIn, Tokens;
    forall a | a in st.results.Keys ensures a in st.seen {
      assert a in RepliedIn(st.trace);
      var j :| 0 <= j < |st.trace| && st.trace[j].AgentDone? && st.trace[j].agent == a;
      assert a in StartedIn(st.trace[..j]);
      var e :| e in st.trace[..j] && e.Started? && e.agent == a;
      assert e in st.trace;
    }
  }

  lemma {:induction false} FlushNeverRaised(st: State, i: nat, countdown: int)
    requires countdown < 0 && i <= |st.buffer.chunks|
    ensures !Flush(st, i, countdown).raised && Flush(st, i, countdown).countdown == countdown
    decreases |st.buffer.chunks| - i
  {
    if i < |st.buffer.chunks| {
      if AlreadyEmitted(st.buffer, st.buffer.chunks[i]) {
        FlushNeverRaised(st, i + 1, countdown);
      } else {
        FlushNeverRaised(YieldToken(st, st.buffer.chunks[i], countdown).st, i + 1, countdown);
      }
    }
  }

  lemma StepNeverRaised(st: State, f: Frame, countdown: int)
    requires countdown < 0
    ensures !Step(st, f, countdown).raised && Step(st, f, countdown).countdown == countdown
  {
    hide Classify, Reply, Preview, DiscardAsHandoff, RecordInlineHandoff;
  }

  /** A negative countdown is a run without faults. */
  lemma {:induction false} NeverRaised(st: State, frames: seq<Frame>, countdown: int)
    ensures countdown < 0 ==> !Drive(st, frames, countdown).raised
    decreases |frames|
  {
    if countdown < 0 {
      if frames == [] {
        FlushNeverRaised(st, 0, countdown);
      } else {
        hide Step;
        StepNeverRaised(st, frames[0], countdown);
        NeverRaised(Step(st, frames[0], countdown).st, frames[1..], countdown);
      }
    }
  }
}
