/** The frames of a run that carry no supervisor text: which mini-agent events, agent starts and agent replies
    the client sees, and in which order one graph frame sends what it sends. */
module StreamStatuses {
  import opened Text
  import opened StreamBuffer
  import opened Streaming
  import opened StreamSafety
  import opened StreamTheorems
  import opened StreamRefinement
  import opened StreamFaults

  // ---------------------------------------------------------------------------
  // What is expected, from the graph frames alone.

  /** The preview of a reply: its first two hundred characters and an ellipsis, or all of it. */
  function Shortened(reply: string): string {
    if |reply| <= 200 then reply else reply[..200] + "\U{2026}"
  }

  predicate FromAgentNode(f: Frame) {
    f.Message? && EndsWith(f.node, "_agent")
  }

  function AgentOf(f: Frame): string
    requires FromAgentNode(f)
  {
    f.node[..|f.node| - 6]
  }

  function Answer(f: Frame): Option<string>
    requires FromAgentNode(f)
  {
    Reply(AgentOf(f), f.content, f.toolCalls)
  }

  /** What a frame tells when the agents in `seen` have started and those in `done` have replied: a mini-agent
      event itself; the start of an agent with its first message; and a reply with the first one of its agent. */
  function Tells(f: Frame, seen: set<string>, done: set<string>): seq<Sse> {
    if f.MiniEvent? then [Mini(f.name, f.data)]
    else if !FromAgentNode(f) then []
    else
      (if AgentOf(f) in seen then [] else [Started(AgentOf(f))])
      + (if AgentOf(f) in done || Answer(f).None? then [] else [AgentDone(AgentOf(f), Shortened(Answer(f).value))])
  }

  function NowSeen(f: Frame, seen: set<string>): set<string> {
    if FromAgentNode(f) then seen + {AgentOf(f)} else seen
  }

  function NowDone(f: Frame, done: set<string>): set<string> {
    if FromAgentNode(f) && Answer(f).Some? then done + {AgentOf(f)} else done
  }

  function Expected(frames: seq<Frame>, seen: set<string>, done: set<string>): seq<Sse> {
    if frames == [] then []
    else Tells(frames[0], seen, done) + Expected(frames[1..], NowSeen(frames[0], seen), NowDone(frames[0], done))
  }

  predicate IsStatus(e: Sse) {
    e.Mini? || e.Started? || e.AgentDone?
  }

  function Statuses(t: seq<Sse>): seq<Sse> {
    if t == [] then [] else Statuses(t[..|t| - 1]) + (if IsStatus(t[|t| - 1]) then [t[|t| - 1]] else [])
  }

  lemma {:induction false} StatusesConcat(a: seq<Sse>, b: seq<Sse>)
    ensures Statuses(a + b) == Statuses(a) + Statuses(b)
    decreases |b|
  {
    if b == [] {
      assert a + b == a;
    } else {
      var n := |b| - 1;
      assert (a + b)[..|a| + n] == a + b[..n] && (a + b)[|a| + n] == b[n];
      StatusesConcat(a, b[..n]);
    }
  }

  lemma {:induction false} AllStatuses(t: seq<Sse>)
    ensures (forall e :: e in t ==> IsStatus(e)) ==> Statuses(t) == t
    ensures (forall e :: e in t ==> !IsStatus(e)) ==> Statuses(t) == []
  {
    if t != [] {
      var n := |t| - 1;
      AllStatuses(t[..n]);
      assert t[..n] + [t[n]] == t && t[n] in t && forall e :: e in t[..n] ==> e in t;
    }
  }

  lemma NoStatuses(t: seq<Sse>, tail: seq<Sse>)
    requires forall e :: e in tail ==> !IsStatus(e)
    ensures Statuses(t + tail) == Statuses(t)
  {
    StatusesConcat(t, tail);
    AllStatuses(tail);
    hide Statuses;
  }

  lemma OnlyStatuses(t: seq<Sse>, tail: seq<Sse>)
    requires forall e :: e in tail ==> IsStatus(e)
    ensures Statuses(t + tail) == Statuses(t) + tail
  {
    StatusesConcat(t, tail);
    AllStatuses(tail);
    hide Statuses;
  }

  // ---------------------------------------------------------------------------
  // One frame.

  /** The handoff that a boundary frame lets out. */
  function Released(st: State, f: Frame): seq<Sse> {
    if !IsBoundary(f) then []
    else
      var text := BoundaryText(st.buffer.chunks, Classify(f));
      if text != "" && text !in st.buffer.handoffs then [Handoff(text)] else []
  }

  lemma KindOfFrame(f: Frame)
    ensures f.MiniEvent? <==> Classify(f).Relay?
    ensures f.MiniEvent? ==> Classify(f) == Relay(f.name, f.data)
    ensures Classify(f).FromAgent? <==> FromAgentNode(f)
    ensures FromAgentNode(f) ==> Classify(f) == FromAgent(AgentOf(f), f.content, f.toolCalls)
  {
    if FromAgentNode(f) {
      AgentSuffix(f.node);
    }
    hide EndsWith, Strip;
  }

  lemma AgentSuffix(n: string)
    requires EndsWith(n, "_agent")
    ensures !EndsWith(n, "_mini") && !EndsWith(n, "_aggregator")
  {
    assert n[|n| - 6..][5] == n[|n| - 1] == 't';
    if |n| >= 11 {
      assert n[|n| - 11..][10] == n[|n| - 1];
    }
    assert n[|n| - 5..][4] == n[|n| - 1];
  }

  lemma AgentSends(st: State, f: Frame)
    requires FromAgentNode(f)
    ensures var e := OnAgent(st, AgentOf(f), f.content, f.toolCalls, NEVER);
            && e.st.trace == st.trace + Released(st, f) + Tells(f, st.seen, st.results.Keys)
            && e.st.seen == NowSeen(f, st.seen) && e.st.results.Keys == NowDone(f, st.results.Keys)
  {
    KindOfFrame(f);
    HandoffSends(st);
    var e1 := HandoffStage(st, NEVER);
    hide Classify, EndsWith, HandoffStage, Reply, CleanHandoff, Join, Preview;
    PreviewIsShortened(f);
    assert Classify(f).FromAgent? && Released(st, f) == LetOut(st);
    hide Released;
    assert e1.st.trace == st.trace + LetOut(st);
    StagesSend(e1.st, f);
    hide LetOut, OnAgent, Tells;
    assert OnAgent(st, AgentOf(f), f.content, f.toolCalls, NEVER) == AfterHandoff(e1.st, f) by {
      OnAgentStages(st, f);
    }
    assert st.trace + LetOut(st) + Tells(f, st.seen, st.results.Keys)
           == (st.trace + LetOut(st)) + Tells(f, st.seen, st.results.Keys);
  }

  function LetOut(st: State): seq<Sse> {
    var text := CleanHandoff(Join(st.buffer.chunks));
    if text != "" && text !in st.buffer.handoffs then [Handoff(text)] else []
  }

  lemma HandoffSends(st: State)
    ensures var e := HandoffStage(st, NEVER);
            && !e.raised && e.countdown == NEVER && e.st.trace == st.trace + LetOut(st)
            && e.st.seen == st.seen && e.st.results == st.results
  {
    DiscardShape(st.buffer);
    hide CleanHandoff, DiscardAsHandoff, Join, Key, Trimmed;
  }

  lemma PreviewIsShortened(f: Frame)
    requires FromAgentNode(f)
    ensures Answer(f).Some? ==> Preview(Answer(f).value) == Shortened(Answer(f).value)
  {
    hide Reply, EndsWith;
  }

  /** What follows the handoff of an agent frame. */
  function AfterHandoff(st: State, f: Frame): Exec
    requires FromAgentNode(f)
  {
    var e2 := StartedStage(st, AgentOf(f), NEVER);
    if e2.raised then e2 else
    var e3 := ReplyStage(e2.st, AgentOf(f), f.content, f.toolCalls, e2.countdown);
    if e3.raised then e3 else Exec(e3.st.(agentsDone := true), e3.countdown, false)
  }

  lemma OnAgentStages(st: State, f: Frame)
    requires FromAgentNode(f) && !HandoffStage(st, NEVER).raised && HandoffStage(st, NEVER).countdown == NEVER
    ensures OnAgent(st, AgentOf(f), f.content, f.toolCalls, NEVER) == AfterHandoff(HandoffStage(st, NEVER).st, f)
  {
    hide HandoffStage, StartedStage, ReplyStage, EndsWith;
  }

  lemma StagesSend(st: State, f: Frame)
    requires FromAgentNode(f)
    requires Answer(f).Some? ==> Preview(Answer(f).value) == Shortened(Answer(f).value)
    ensures var e := AfterHandoff(st, f);
            && e.st.trace == st.trace + Tells(f, st.seen, st.results.Keys)
            && e.st.seen == NowSeen(f, st.seen) && e.st.results.Keys == NowDone(f, st.results.Keys)
  {
    hide Reply, EndsWith, Preview, Shortened;
    assert st.trace + [] == st.trace;
  }

  /** One graph frame sends, in this order: the handoff that it discards, the start of its agent, its reply; or
      the mini-agent event that it is. */
  lemma StepSends(st: State, f: Frame)
    ensures var st' := After(st, f);
            && st'.trace == st.trace + Released(st, f) + Tells(f, st.seen, st.results.Keys)
            && st'.seen == NowSeen(f, st.seen) && st'.results.Keys == NowDone(f, st.results.Keys)
  {
    KindOfFrame(f);
    if FromAgentNode(f) {
      AgentSends(st, f);
      hide OnAgent, Classify, Released, Tells, NowSeen, NowDone;
    } else {
      hide Classify, OnAgent, EndsWith, CleanHandoff, AfterBracket, Key;
      OthersSend(st, f);
    }
  }

  lemma OthersSend(st: State, f: Frame)
    requires !FromAgentNode(f) && !Classify(f).FromAgent?
    requires f.MiniEvent? <==> Classify(f).Relay?
    requires f.MiniEvent? ==> Classify(f) == Relay(f.name, f.data)
    ensures var st' := After(st, f);
            && st'.trace == st.trace + Released(st, f) + Tells(f, st.seen, st.results.Keys)
            && st'.seen == st.seen && st'.results == st.results
  {
    hide Classify, EndsWith, CleanHandoff, AfterBracket, Key, Accepts;
    assert st.trace + [] + [] == st.trace;
  }

  // ---------------------------------------------------------------------------
  // A run.

  lemma TellsStatuses(f: Frame, seen: set<string>, done: set<string>)
    ensures forall e :: e in Tells(f, seen, done) ==> IsStatus(e)
  {
    hide Reply, EndsWith, Shortened;
  }

  lemma ReleasedIsNone(st: State, f: Frame)
    ensures forall e :: e in Released(st, f) ==> !IsStatus(e)
  {
    hide Classify, BoundaryText;
  }

  lemma StepStatuses(st: State, f: Frame)
    ensures Statuses(After(st, f).trace) == Statuses(st.trace) + Tells(f, st.seen, st.results.Keys)
  {
    StepSends(st, f);
    hide After, Tells, Released, Statuses, IsStatus;
    ReleasedIsNone(st, f);
    TellsStatuses(f, st.seen, st.results.Keys);
    NoStatuses(st.trace, Released(st, f));
    OnlyStatuses(st.trace + Released(st, f), Tells(f, st.seen, st.results.Keys));
  }

  lemma {:induction false} FoldStatuses(st: State, frames: seq<Frame>)
    ensures Statuses(Fold(st, frames).trace) == Statuses(st.trace) + Expected(frames, st.seen, st.results.Keys)
    decreases |frames|
  {
    hide After, Tells, NowSeen, NowDone, Statuses;
    if frames != [] {
      var f, st' := frames[0], After(st, frames[0]);
      StepSends(st, f);
      StepStatuses(st, f);
      FoldStatuses(st', frames[1..]);
    }
  }

  lemma {:induction false} FlushStatuses(st: State, i: nat)
    requires i <= |st.buffer.chunks|
    ensures Statuses(Flush(st, i, NEVER).st.trace) == Statuses(st.trace)
    decreases |st.buffer.chunks| - i
  {
    hide AlreadyEmitted;
    if i < |st.buffer.chunks| {
      if AlreadyEmitted(st.buffer, st.buffer.chunks[i]) {
        FlushStatuses(st, i + 1);
      } else {
        var e := YieldToken(st, st.buffer.chunks[i], NEVER);
        hide Statuses;
        FlushStatuses(e.st, i + 1);
        NoStatuses(st.trace, [Token(st.buffer.chunks[i])]);
        hide Flush;
      }
    }
  }

  lemma EndingStatuses(st: State)
    ensures Statuses(Ending(st, NEVER).st.trace) == Statuses(st.trace)
  {
    hide Flush, Statuses;
    FlushStatuses(st, 0);
    FlushNeverRaised(st, 0, NEVER);
    var e := Flush(st, 0, NEVER);
    NoStatuses(e.st.trace, [Token(e.st.direct)]);
  }

  lemma ConcludeStatuses(e: Exec, fault: Fault, message: string, working: nat)
    ensures Statuses(Conclude(e, fault, message, working).trace) == Statuses(e.st.trace)
  {
    hide Conclude, Response, SortedNames, Statuses;
    var tail, rows := ConcludeCases(e, fault, message, working);
    NoStatuses(e.st.trace, tail);
  }

  lemma {:induction false} StatusesPrefix(t: seq<Sse>, late: seq<Sse>)
    requires t <= late
    ensures Statuses(t) <= Statuses(late)
    decreases |late|
  {
    StatusesConcat(t, late[|t|..]);
    assert t + late[|t|..] == late;
  }

  /** The statuses of a run, exactly: without a fault the client sees every mini-agent event, the start of every
      agent at its first message and the first reply of every agent with its preview, in the order of the graph
      frames, and no other; a fault cuts that off. */
  lemma StatusesExactly(frames: seq<Frame>, countdown: int, fault: Fault, message: string, working: nat)
    ensures var t := Stream(frames, countdown, fault, message, working).trace;
            && Statuses(t) <= Expected(frames, {}, {})
            && (countdown < 0 ==> Statuses(t) == Expected(frames, {}, {}))
  {
    DriveIsFold(START, frames);
    FoldStatuses(START, frames);
    var e, late := Drive(START, frames, countdown), Drive(START, frames, NEVER);
    hide Fold, Ending, Expected;
    EndingStatuses(Fold(START, frames));
    assert Statuses(late.st.trace) == Expected(frames, {}, {}) by {
      assert Statuses(START.trace) == [] && START.results.Keys == {};
    }
    FaultCutsOff(START, frames, countdown);
    hide Drive, Statuses, Conclude;
    ConcludeStatuses(e, fault, message, working);
    StatusesPrefix(e.st.trace, late.st.trace);
  }

  // ---------------------------------------------------------------------------
  // Mini-agent events.

  function MinisOf(t: seq<Sse>): seq<Sse> {
    if t == [] then [] else MinisOf(t[..|t| - 1]) + (if t[|t| - 1].Mini? then [t[|t| - 1]] else [])
  }

  /** The mini-agent events among the graph frames. */
  function EventsOf(frames: seq<Frame>): seq<Sse> {
    if frames == [] then []
    else (if frames[0].MiniEvent? then [Mini(frames[0].name, frames[0].data)] else []) + EventsOf(frames[1..])
  }

  lemma {:induction false} MinisConcat(a: seq<Sse>, b: seq<Sse>)
    ensures MinisOf(a + b) == MinisOf(a) + MinisOf(b)
    decreases |b|
  {
    if b == [] {
      assert a + b == a;
    } else {
      var n := |b| - 1;
      assert (a + b)[..|a| + n] == a + b[..n] && (a + b)[|a| + n] == b[n];
      MinisConcat(a, b[..n]);
    }
  }

  lemma {:induction false} MinisOfStatuses(t: seq<Sse>)
    ensures MinisOf(Statuses(t)) == MinisOf(t)
  {
    if t != [] {
      var n := |t| - 1;
      MinisOfStatuses(t[..n]);
      MinisConcat(Statuses(t[..n]), if IsStatus(t[n]) then [t[n]] else []);
      assert [t[n]][..0] == [];
      assert MinisOf([t[n]]) == if t[n].Mini? then [t[n]] else [];
    }
  }

  lemma {:induction false} EventsExpected(frames: seq<Frame>, seen: set<string>, done: set<string>)
    ensures MinisOf(Expected(frames, seen, done)) == EventsOf(frames)
    decreases |frames|
  {
    if frames != [] {
      var f := frames[0];
      EventsExpected(frames[1..], NowSeen(f, seen), NowDone(f, done));
      MinisConcat(Tells(f, seen, done), Expected(frames[1..], NowSeen(f, seen), NowDone(f, done)));
      MinisTold(f, seen, done);
      hide Tells, NowSeen, NowDone, MinisOf;
    }
  }

  lemma MinisTold(f: Frame, seen: set<string>, done: set<string>)
    ensures MinisOf(Tells(f, seen, done)) == if f.MiniEvent? then [Mini(f.name, f.data)] else []
  {
    var t := Tells(f, seen, done);
    if f.MiniEvent? {
      assert t[..0] == [];
    } else {
      assert forall e :: e in t ==> !e.Mini? by {
        hide Reply, EndsWith, Shortened;
      }
      NoMinis(t);
    }
  }

  lemma {:induction false} NoMinis(t: seq<Sse>)
    requires forall e :: e in t ==> !e.Mini?
    ensures MinisOf(t) == []
  {
    if t != [] {
      assert t[|t| - 1] in t;
      NoMinis(t[..|t| - 1]);
    }
  }

  /** Every mini-agent event is relayed, in order and with its data, and nothing else is sent as one; a fault
      only cuts the list off. */
  lemma MinisRelayed(frames: seq<Frame>, countdown: int, fault: Fault, message: string, working: nat)
    ensures var t := Stream(frames, countdown, fault, message, working).trace;
            && MinisOf(t) <= EventsOf(frames) && (countdown < 0 ==> MinisOf(t) == EventsOf(frames))
  {
    StatusesExactly(frames, countdown, fault, message, working);
    var t := Stream(frames, countdown, fault, message, working).trace;
    var all := Expected(frames, {}, {});
    hide Stream, Expected, Statuses, MinisOf, EventsOf;
    MinisOfStatuses(t);
    EventsExpected(frames, {}, {});
    MinisConcat(Statuses(t), all[|Statuses(t)|..]);
    assert Statuses(t) + all[|Statuses(t)|..] == all;
  }

  // ---------------------------------------------------------------------------
  // Replies.

  lemma {:induction false} RepliesExpected(frames: seq<Frame>, seen: set<string>, done: set<string>,
                                           agent: string, preview: string)
    requires AgentDone(agent, preview) in Expected(frames, seen, done)
    ensures agent !in done && FirstReply(frames, agent).Some?
    ensures preview == Shortened(FirstReply(frames, agent).value)
    decreases |frames|
  {
    if frames != [] {
      var f := frames[0];
      KindOfFrame(f);
      hide Classify, Reply, EndsWith, Shortened;
      var rest := Expected(frames[1..], NowSeen(f, seen), NowDone(f, done));
      if AgentDone(agent, preview) in rest {
        RepliesExpected(frames[1..], NowSeen(f, seen), NowDone(f, done), agent, preview);
      } else {
        assert AgentDone(agent, preview) in Tells(f, seen, done);
      }
    }
  }

  /** The preview that a client is shown of an agent's reply is the beginning of the reply in `agent_results`. */
  lemma PreviewsOfResults(frames: seq<Frame>, countdown: int, fault: Fault, message: string, working: nat,
                          agent: string, preview: string)
    requires var t := Stream(frames, countdown, fault, message, working).trace;
             HasDone(t) && AgentDone(agent, preview) in t
    ensures var t := Stream(frames, countdown, fault, message, working).trace;
            var results := t[|t| - 1].agentResults;
            agent in results && preview == Shortened(results[agent])
  {
    var t := Stream(frames, countdown, fault, message, working).trace;
    ResultsAreFirstReplies(frames, countdown, fault, message, working);
    TraceGrammar(frames, countdown, fault, message, working);
    StatusesExactly(frames, countdown, fault, message, working);
    hide Stream, Expected, Statuses, GoodTrace, FirstReply, TellsFault, Shortened;
    StatusKept(t, AgentDone(agent, preview));
    assert AgentDone(agent, preview) in Expected(frames, {}, {});
    RepliesExpected(frames, {}, {}, agent, preview);
    assert agent in RepliedIn(t);
  }

  lemma {:induction false} StatusKept(t: seq<Sse>, e: Sse)
    requires e in t && IsStatus(e)
    ensures e in Statuses(t)
  {
    var n := |t| - 1;
    assert t[..n] + [t[n]] == t;
    if t[n] != e {
      StatusKept(t[..n], e);
    }
  }
}
