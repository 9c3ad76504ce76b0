/** What every run of the generator keeps, whatever fault strikes wherever. */
module StreamSafety {
  import opened Text
  import opened StreamBuffer
  import opened Streaming

  // ---------------------------------------------------------------------------
  // Readings of a trace.

  function Tokens(t: seq<Sse>): seq<string> {
    if t == [] then []
    else Tokens(t[..|t| - 1]) + (if t[|t| - 1].Token? then [t[|t| - 1].content] else [])
  }

  ghost function StartedIn(t: seq<Sse>): set<string> {
    set e | e in t && e.Started? :: e.agent
  }

  ghost function RepliedIn(t: seq<Sse>): set<string> {
    set e | e in t && e.AgentDone? :: e.agent
  }

  ghost function HandoffsIn(t: seq<Sse>): set<string> {
    set e | e in t && e.Handoff? :: e.content
  }

  /** The place of an event in `(status | handoff | mini-event)* token* error? done?`. */
  function Rank(e: Sse): nat {
    match e
    case Token(_) => 1
    case Error(_) => 2
    case Done(_, _, _, _, _, _) => 3
    case _ => 0
  }

  /** `(status | handoff | mini-event)* token* error? done?`. */
  ghost predicate Grammatical(t: seq<Sse>) {
    forall i, j :: 0 <= i < j < |t| ==> Rank(t[i]) <= Rank(t[j]) && (Rank(t[j]) >= 2 ==> Rank(t[i]) < Rank(t[j]))
  }

  /** Two events that must not both occur in a run. */
  predicate Clash(a: Sse, b: Sse) {
    || (a.Started? && b.Started? && a.agent == b.agent)
    || (a.AgentDone? && b.AgentDone? && a.agent == b.agent)
    || (a.Handoff? && b.Handoff? && a.content == b.content)
  }

  ghost predicate NoRepeats(t: seq<Sse>) {
    forall i, j :: 0 <= i < j < |t| ==> !Clash(t[i], t[j])
  }

  /** No agent is done before it has started. */
  ghost predicate StartsFirst(t: seq<Sse>) {
    forall j :: 0 <= j < |t| && t[j].AgentDone? ==> t[j].agent in StartedIn(t[..j])
  }

  ghost predicate GoodHandoffs(t: seq<Sse>) {
    forall e :: e in t && e.Handoff? ==> e.content != "" && Trimmed(e.content)
  }

  ghost predicate GoodTrace(t: seq<Sse>) {
    Grammatical(t) && NoRepeats(t) && StartsFirst(t) && GoodHandoffs(t)
  }

  // ---------------------------------------------------------------------------
  // The invariant.

  /** The dedup set holds exactly the prefixes of the handoffs, and no waiting chunk is in it. */
  ghost predicate CleanBuffer(b: Buffer) {
    && b.emitted == (set h | h in b.handoffs :: Key(h))
    && forall c :: c in b.chunks ==> c != "" && !AlreadyEmitted(b, c)
  }

  ghost predicate Invariant(st: State) {
    && CleanBuffer(st.buffer)
    && GoodTrace(st.trace)
    && (forall e :: e in st.trace ==> Rank(e) <= 1)
    && st.parts == Tokens(st.trace) && "" !in st.parts
    && st.seen == StartedIn(st.trace)
    && st.results.Keys == RepliedIn(st.trace)
    && st.buffer.handoffs == HandoffsIn(st.trace)
    && (st.buffer.chunks != [] ==> st.agentsDone)
  }

  /** While frames are still read, no token is out. */
  ghost predicate InLoop(st: State) {
    Invariant(st) && st.parts == []
  }

  lemma TokensAppend(t: seq<Sse>, e: Sse)
    ensures Tokens(t + [e]) == Tokens(t) + (if e.Token? then [e.content] else [])
  {
    assert (t + [e])[..|t|] == t;
  }

  lemma {:induction false} NoTokens(t: seq<Sse>)
    ensures Tokens(t) == [] <==> forall e :: e in t ==> !e.Token?
  {
    if t != [] {
      var n := |t| - 1;
      assert t == t[..n] + [t[n]];
      NoTokens(t[..n]);
    }
  }

  lemma SetsAppend(t: seq<Sse>, e: Sse)
    ensures StartedIn(t + [e]) == StartedIn(t) + (if e.Started? then {e.agent} else {})
    ensures RepliedIn(t + [e]) == RepliedIn(t) + (if e.AgentDone? then {e.agent} else {})
    ensures HandoffsIn(t + [e]) == HandoffsIn(t) + (if e.Handoff? then {e.content} else {})
  {
    var t' := t + [e];
    assert forall x :: x in t' <==> x in t || x == e;
    if e.Started? {
      assert e in t';
    }
    if e.AgentDone? {
      assert e in t';
    }
    if e.Handoff? {
      assert e in t';
    }
  }

  /** An event that is new, in its place and well formed keeps the trace good. */
  lemma GoodAppend(t: seq<Sse>, e: Sse)
    requires GoodTrace(t)
    requires forall x :: x in t ==> Rank(x) <= Rank(e) && (Rank(e) >= 2 ==> Rank(x) < Rank(e))
    requires e.Started? ==> e.agent !in StartedIn(t)
    requires e.AgentDone? ==> e.agent !in RepliedIn(t) && e.agent in StartedIn(t)
    requires e.Handoff? ==> e.content !in HandoffsIn(t) && e.content != "" && Trimmed(e.content)
    ensures GoodTrace(t + [e])
  {
    var t' := t + [e];
    forall i | 0 <= i < |t| ensures !Clash(t[i], e) {
      assert t[i] in t;
    }
    forall j | 0 <= j < |t'| && t'[j].AgentDone? ensures t'[j].agent in StartedIn(t'[..j]) {
      if j < |t| {
        assert t'[..j] == t[..j];
      } else {
        assert t'[..j] == t;
      }
    }
  }

  /** The one way an event enters the trace: it is new, in its place, and the state records it. */
  lemma EventKeeps(st: State, e: Sse, st': State)
    requires Invariant(st) && Rank(e) <= 1 && forall x :: x in st.trace ==> Rank(x) <= Rank(e)
    requires e.Started? ==> e.agent !in st.seen
    requires e.AgentDone? ==> e.agent !in st.results && e.agent in st.seen
    requires e.Handoff? ==> e.content !in st.buffer.handoffs && e.content != "" && Trimmed(e.content)
    requires e.Token? ==> e.content != ""
    requires st'.trace == st.trace + [e] && st'.agentsDone == st.agentsDone
    requires st'.parts == st.parts + (if e.Token? then [e.content] else [])
    requires st'.seen == st.seen + (if e.Started? then {e.agent} else {})
    requires st'.results.Keys == st.results.Keys + (if e.AgentDone? then {e.agent} else {})
    requires st'.buffer.handoffs == st.buffer.handoffs + (if e.Handoff? then {e.content} else {})
    requires CleanBuffer(st'.buffer) && (st'.buffer.chunks == st.buffer.chunks || st'.buffer.chunks == [])
    ensures Invariant(st')
  {
    hide CleanBuffer, GoodTrace, StartedIn, RepliedIn, HandoffsIn, Tokens, Trimmed;
    SetsAppend(st.trace, e);
    TokensAppend(st.trace, e);
    GoodAppend(st.trace, e);
  }

  /** While frames are read the trace has rank 0 only. */
  lemma LoopRank(st: State)
    requires InLoop(st)
    ensures forall e :: e in st.trace ==> Rank(e) == 0
  {
    hide CleanBuffer, GoodTrace, StartedIn, RepliedIn, HandoffsIn;
    NoTokens(st.trace);
  }

  // ---------------------------------------------------------------------------
  // Steps of the loop.

  /** A handoff that the buffer lets out is announced once and joins the dedup set. */
  lemma HandoffKeeps(st: State, text: string, countdown: int)
    requires InLoop(st) && Trimmed(text)
    ensures var (b, h) := Record(st.buffer.(chunks := []), text);
            InLoop(Yield(st.(buffer := b), HandoffEvent(h), countdown).st)
  {
    hide GoodTrace, StartedIn, RepliedIn, HandoffsIn, Tokens, Trimmed, Key;
    LoopRank(st);
    var (b, h) := Record(st.buffer.(chunks := []), text);
    if h.Some? {
      EventKeeps(st, Handoff(text), st.(buffer := b, trace := st.trace + [Handoff(text)]));
    }
  }

  lemma StartedKeeps(st: State, agent: string, countdown: int)
    requires InLoop(st)
    ensures InLoop(StartedStage(st, agent, countdown).st)
    ensures agent in StartedStage(st, agent, countdown).st.seen
  {
    hide CleanBuffer, GoodTrace, StartedIn, RepliedIn, HandoffsIn, Tokens;
    LoopRank(st);
    if agent !in st.seen {
      EventKeeps(st, Started(agent), st.(seen := st.seen + {agent}, trace := st.trace + [Started(agent)]));
    }
  }

  lemma ReplyKeeps(st: State, agent: string, content: Content, toolCalls: bool, countdown: int)
    requires InLoop(st) && agent in st.seen
    ensures InLoop(ReplyStage(st, agent, content, toolCalls, countdown).st)
  {
    hide CleanBuffer, GoodTrace, StartedIn, RepliedIn, HandoffsIn, Tokens, Reply, Preview;
    LoopRank(st);
    var reply := Reply(agent, content, toolCalls);
    if agent !in st.results && reply.Some? {
      var e := AgentDone(agent, Preview(reply.value));
      EventKeeps(st, e, st.(results := st.results[agent := reply.value], trace := st.trace + [e]));
    }
  }

  lemma AgentKeeps(st: State, agent: string, content: Content, toolCalls: bool, countdown: int)
    requires InLoop(st)
    ensures InLoop(OnAgent(st, agent, content, toolCalls, countdown).st)
  {
    hide Invariant, StartedStage, ReplyStage, Record, CleanHandoff;
    DiscardShape(st.buffer);
    CleanShape(Join(st.buffer.chunks));
    HandoffKeeps(st, CleanHandoff(Join(st.buffer.chunks)), countdown);
    hide DiscardAsHandoff, Trimmed, Join;
    var e1 := HandoffStage(st, countdown);
    if !e1.raised {
      StartedKeeps(e1.st, agent, e1.countdown);
      var e2 := StartedStage(e1.st, agent, e1.countdown);
      if !e2.raised {
        ReplyKeeps(e2.st, agent, content, toolCalls, e2.countdown);
        var e3 := ReplyStage(e2.st, agent, content, toolCalls, e2.countdown);
        AgentsDoneKeeps(e3.st);
      }
    }
  }

  lemma AgentsDoneKeeps(st: State)
    requires InLoop(st)
    ensures InLoop(st.(agentsDone := true))
  {
    hide CleanBuffer, GoodTrace, StartedIn, RepliedIn, HandoffsIn, Tokens;
  }

  lemma RelayKeeps(st: State, name: string, data: string, countdown: int)
    requires InLoop(st)
    ensures InLoop(Yield(st, Some(Mini(name, data)), countdown).st)
  {
    hide CleanBuffer, GoodTrace, StartedIn, RepliedIn, HandoffsIn, Tokens;
    LoopRank(st);
    EventKeeps(st, Mini(name, data), st.(trace := st.trace + [Mini(name, data)]));
  }

  /** A chunk is only buffered when its prefix is not in the dedup set, and the set only grows when the
      buffer is emptied. */
  lemma ChunkKeeps(st: State, text: string)
    requires InLoop(st) && text != ""
    ensures InLoop(OnChunk(st, text))
  {
    hide GoodTrace, StartedIn, RepliedIn, HandoffsIn, Tokens, WouldDuplicate;
  }

  lemma FinalResponseKeeps(st: State, text: string)
    requires InLoop(st)
    ensures InLoop(st.(direct := text))
  {
    hide CleanBuffer, GoodTrace, StartedIn, RepliedIn, HandoffsIn, Tokens;
  }

  lemma StepKeeps(st: State, f: Frame, countdown: int)
    requires InLoop(st)
    ensures InLoop(Step(st, f, countdown).st)
  {
    ChunkNonEmpty(f);
    hide Invariant, OnAgent, Classify, Record, CleanHandoff, AfterBracket, OnChunk, Trimmed;
    match Classify(f)
    case Ignored =>
    case FinalResponse(text) => FinalResponseKeeps(st, text);
    case Relay(name, data) => RelayKeeps(st, name, data, countdown);
    case FromAgent(agent, content, toolCalls) => AgentKeeps(st, agent, content, toolCalls, countdown);
    case InlineHandoff(text) =>
      CleanShape(AfterBracket(text));
      HandoffKeeps(st, CleanHandoff(AfterBracket(text)), countdown);
    case Chunk(text) => ChunkKeeps(st, text);
  }

  lemma ChunkNonEmpty(f: Frame)
    ensures Classify(f).Chunk? ==> Classify(f).text != "" && !(BRACKETED <= Classify(f).text)
    ensures Classify(f).InlineHandoff? ==> INLINE <= Classify(f).text
    ensures Classify(f).FinalResponse? ==> Classify(f).text != ""
  {
  }

  // ---------------------------------------------------------------------------
  // The end of the run.

  lemma TokenKeeps(st: State, text: string, countdown: int)
    requires Invariant(st) && text != ""
    ensures var e := YieldToken(st, text, countdown);
            Invariant(e.st) && e.st.parts == st.parts + [text] && e.st.buffer == st.buffer && e.st.direct == st.direct
  {
    hide CleanBuffer, GoodTrace, StartedIn, RepliedIn, HandoffsIn, Tokens;
    EventKeeps(st, Token(text), st.(parts := st.parts + [text], trace := st.trace + [Token(text)]));
  }

  lemma ClearKeeps(st: State)
    requires Invariant(st)
    ensures Invariant(st.(buffer := st.buffer.(chunks := [])))
  {
    hide GoodTrace, StartedIn, RepliedIn, HandoffsIn, Tokens;
  }

  lemma FlushNext(st: State, i: nat, countdown: int)
    requires Invariant(st) && i < |st.buffer.chunks|
    ensures st.buffer.chunks[i] != ""
    ensures var e := YieldToken(st, st.buffer.chunks[i], countdown);
            && Flush(st, i, countdown) == if e.raised then e else Flush(e.st, i + 1, e.countdown)
    ensures st.buffer.chunks[i..] == [st.buffer.chunks[i]] + st.buffer.chunks[i + 1..]
  {
    hide GoodTrace, StartedIn, RepliedIn, HandoffsIn, Tokens;
    assert st.buffer.chunks[i] in st.buffer.chunks;
  }

  /** Flush loses nothing: the skip of already emitted chunks is never taken, so a flush that is not
      interrupted turns every waiting chunk into a token, in order. */
  lemma {:induction false} FlushLosesNothing(st: State, i: nat, countdown: int)
    requires Invariant(st) && i <= |st.buffer.chunks|
    ensures var e := Flush(st, i, countdown);
            && Invariant(e.st) && e.st.direct == st.direct && e.st.buffer.handoffs == st.buffer.handoffs
            && (!e.raised ==> e.st.parts == st.parts + st.buffer.chunks[i..] && e.st.buffer.chunks == [])
    decreases |st.buffer.chunks| - i
  {
    if i < |st.buffer.chunks| {
      var chunk := st.buffer.chunks[i];
      FlushNext(st, i, countdown);
      TokenKeeps(st, chunk, countdown);
      hide Invariant, Flush, YieldToken;
      var e := YieldToken(st, chunk, countdown);
      if !e.raised {
        FlushLosesNothing(e.st, i + 1, e.countdown);
      }
    } else {
      ClearKeeps(st);
    }
  }

  lemma EndingKeeps(st: State, countdown: int)
    requires InLoop(st)
    ensures var e := Ending(st, countdown);
            && Invariant(e.st) && e.st.buffer.handoffs == st.buffer.handoffs
            && (!e.raised ==> e.st.parts == if st.buffer.chunks != [] then st.buffer.chunks
                                            else if st.direct != "" then [st.direct] else [])
  {
    FlushLosesNothing(st, 0, countdown);
    var e := Flush(st, 0, countdown);
    if !e.raised && e.st.parts == [] && e.st.direct != "" {
      TokenKeeps(e.st, e.st.direct, e.countdown);
    }
  }

  lemma {:induction false} DriveKeeps(st: State, frames: seq<Frame>, countdown: int)
    requires InLoop(st)
    ensures Invariant(Drive(st, frames, countdown).st)
    decreases |frames|
  {
    var e := Suspend(st, countdown);
    if !e.raised && frames == [] {
      EndingKeeps(e.st, e.countdown);
    } else if !e.raised {
      StepKeeps(e.st, frames[0], e.countdown);
      var e' := Step(e.st, frames[0], e.countdown);
      if !e'.raised {
        DriveKeeps(e'.st, frames[1..], e'.countdown);
      }
    }
  }

  lemma StartInLoop()
    ensures InLoop(START)
  {
  }

  lemma {:induction false} JoinNonEmpty(parts: seq<string>)
    requires "" !in parts
    ensures Join(parts) == "" <==> parts == []
  {
    if parts != [] {
      assert parts[0] in parts;
    }
  }
}
