/** The generator itself: its local variables as fields, its yields in order, its handlers. */
module StreamDriver {
  import opened Text
  import opened StreamBuffer
  import opened Streaming

  class SupervisorStream {
    const buffer: SupervisorTokenBuffer
    var seenAgents: set<string>
    var agentResults: map<string, string>
    var agentsDone: bool
    var fullResponseParts: seq<string>
    var directFinal: string
    var trace: seq<Sse>
    var rows: seq<Row>

    /** Suspension points left before the fault strikes; negative for never. */
    var countdown: int

    ghost function Value(): State
      reads this, buffer
    {
      State(buffer.Value(), seenAgents, agentResults, agentsDone, fullResponseParts, directFinal, trace)
    }

    constructor (countdown: int)
      ensures Value() == START && rows == [] && this.countdown == countdown && fresh(buffer)
    {
      buffer := new SupervisorTokenBuffer();
      seenAgents, agentResults, agentsDone := {}, map[], false;
      fullResponseParts, directFinal := [], "";
      trace, rows := [], [];
      this.countdown := countdown;
    }

    /** The generator is suspended: at an `await` on the graph, or at a `yield`. */
    method Pause() returns (raised: bool)
      modifies this`countdown
      ensures Exec(Value(), countdown, raised) == Suspend(Value(), old(countdown))
    {
      if countdown == 0 {
        return true;
      }
      if countdown > 0 {
        countdown := countdown - 1;
      }
      return false;
    }

    method YieldEvent(ev: Sse) returns (raised: bool)
      modifies this`trace, this`countdown
      ensures Exec(Value(), countdown, raised) == Yield(old(Value()), Some(ev), old(countdown))
    {
      trace := trace + [ev];
      raised := Pause();
    }

    method EmitHandoff(h: Option<string>) returns (raised: bool)
      modifies this`trace, this`countdown
      ensures Exec(Value(), countdown, raised) == Yield(old(Value()), HandoffEvent(h), old(countdown))
    {
      raised := false;
      if h.Some? {
        raised := YieldEvent(Handoff(h.value));
      }
    }

    method EmitToken(text: string) returns (raised: bool)
      modifies this`fullResponseParts, this`trace, this`countdown
      ensures Exec(Value(), countdown, raised) == YieldToken(old(Value()), text, old(countdown))
    {
      fullResponseParts := fullResponseParts + [text];
      raised := YieldEvent(Token(text));
    }

    method AnnounceAgent(agent: string) returns (raised: bool)
      modifies this`seenAgents, this`trace, this`countdown
      ensures Exec(Value(), countdown, raised) == StartedStage(old(Value()), agent, old(countdown))
    {
      raised := false;
      if agent !in seenAgents {
        seenAgents := seenAgents + {agent};
        raised := YieldEvent(Started(agent));
      }
    }

    /** `_maybe_emit_agent_done` and the yield of what it returns. */
    method MaybeEmitAgentDone(agent: string, content: Content, toolCalls: bool) returns (raised: bool)
      modifies this`agentResults, this`trace, this`countdown
      ensures Exec(Value(), countdown, raised) == ReplyStage(old(Value()), agent, content, toolCalls, old(countdown))
    {
      raised := false;
      if agent in agentResults || content.NotText? || content.text == "" || toolCalls {
        return;
      }
      var prefix := "[" + Title(agent, false) + " Agent]\n";
      var stripped := Strip(RemovePrefix(content.text, prefix));
      if |stripped| <= 50 || ' ' !in stripped {
        return;
      }
      agentResults := agentResults[agent := stripped];
      var preview := if |stripped| > 200 then stripped[..200] + "\U{2026}" else stripped;
      raised := YieldEvent(AgentDone(agent, preview));
    }

    method OnAgentMessage(agent: string, content: Content, toolCalls: bool) returns (raised: bool)
      modifies this, buffer
      ensures Exec(Value(), countdown, raised) == OnAgent(old(Value()), agent, content, toolCalls, old(countdown))
      ensures rows == old(rows)
    {
      hide DiscardAsHandoff, StartedStage, ReplyStage;
      var h := buffer.Discard();
      raised := EmitHandoff(h);
      if raised {
        return;
      }
      raised := AnnounceAgent(agent);
      if raised {
        return;
      }
      raised := MaybeEmitAgentDone(agent, content, toolCalls);
      if raised {
        return;
      }
      agentsDone := true;
    }

    method OnSupervisorText(text: string, toolCalls: bool) returns (raised: bool)
      requires text != ""
      modifies this, buffer
      ensures Exec(Value(), countdown, raised) ==
              Step(old(Value()), Message("supervisor", Words(text), toolCalls), old(countdown))
      ensures rows == old(rows)
    {
      hide RecordInlineHandoff, WouldDuplicate, AlreadyEmitted, Strip;
      SupervisorClass(text, toolCalls);
      raised := false;
      if "{" <= Strip(text) {
        return;
      }
      if BRACKETED <= text {
        if INLINE <= text {
          var h := buffer.RecordInline(text);
          raised := EmitHandoff(h);
        }
        return;
      }
      if !agentsDone || toolCalls {
        return;
      }
      var emitted := buffer.HasBeenEmitted(text);
      if !emitted {
        var duplicate := buffer.IsDuplicate(text);
        if !duplicate {
          buffer.Append(text);
        }
      }
    }

    /** The loop body. */
    method OnFrame(f: Frame) returns (raised: bool)
      modifies this, buffer
      ensures Exec(Value(), countdown, raised) == Step(old(Value()), f, old(countdown))
      ensures rows == old(rows)
    {
      hide OnAgent, OnInline, OnChunk, SupervisorText;
      raised := false;
      match f
      case Values(text) =>
        if text != "" {
          directFinal := text;
        }
      case MiniEvent(name, data) =>
        raised := YieldEvent(Mini(name, data));
      case Message(node, content, toolCalls) =>
        if EndsWith(node, "_mini") || EndsWith(node, "_aggregator") {
          return;
        }
        if EndsWith(node, "_agent") {
          raised := OnAgentMessage(node[..|node| - 6], content, toolCalls);
          return;
        }
        if node != "supervisor" || content.NotText? || content.text == "" {
          return;
        }
        raised := OnSupervisorText(content.text, toolCalls);
    }

    /** The loop over `flush_as_tokens`. */
    method FlushBuffer() returns (raised: bool)
      modifies this, buffer
      ensures Exec(Value(), countdown, raised) == Flush(old(Value()), 0, old(countdown))
      ensures rows == old(rows)
    {
      var i := 0;
      while i < |buffer.chunks|
        invariant i <= |buffer.chunks| && buffer.Value() == old(buffer.Value()) && rows == old(rows)
        invariant Flush(Value(), i, countdown) == Flush(old(Value()), 0, old(countdown))
      {
        var chunk := buffer.chunks[i];
        var emitted := buffer.HasBeenEmitted(chunk);
        if !emitted {
          raised := EmitToken(chunk);
          if raised {
            return;
          }
        }
        i := i + 1;
      }
      buffer.Clear();
      raised := false;
    }

    /** The `try` block. */
    method RunGraph(frames: seq<Frame>) returns (raised: bool)
      modifies this, buffer
      ensures Exec(Value(), countdown, raised) == Drive(old(Value()), frames, old(countdown))
      ensures rows == old(rows)
    {
      hide Step, Flush;
      var i := 0;
      while true
        invariant i <= |frames| && rows == old(rows)
        invariant Drive(Value(), frames[i..], countdown) == Drive(old(Value()), frames, old(countdown))
        decreases |frames| - i
      {
        raised := Pause();
        if raised {
          return;
        }
        if i == |frames| {
          break;
        }
        raised := OnFrame(frames[i]);
        if raised {
          return;
        }
        assert frames[i..][1..] == frames[i + 1..];
        i := i + 1;
      }
      raised := FlushBuffer();
      if !raised && fullResponseParts == [] && directFinal != "" {
        raised := EmitToken(directFinal);
      }
    }

    /** One `add_message` after another, until one raises. */
    method Persist(messages: seq<Row>, working: nat)
      modifies this`rows
      ensures rows == old(rows) + Stored(messages, working)
    {
      var i := 0;
      while i < |messages| && i < working
        invariant i <= |messages| && i <= working && rows == old(rows) + messages[..i]
      {
        rows := rows + [messages[i]];
        i := i + 1;
      }
    }

    method YieldDone(agentsUsed: seq<string>, timedOut: bool, cancelled: bool, error: Option<bool>)
      returns (response: string)
      requires agentsUsed == SortedNames(seenAgents)
      modifies this`trace
      ensures response == Response(fullResponseParts)
      ensures trace == old(trace) + [DoneFrame(old(Value()), agentsUsed, timedOut, cancelled, error)]
    {
      response := Join(fullResponseParts);
      if response == "" {
        response := PLACEHOLDER;
      }
      trace := trace + [Done(response, agentsUsed, agentResults, timedOut, cancelled, error)];
    }

    /** The whole generator, consumed to the end; `fault` is the exception the countdown raises. */
    method Run(frames: seq<Frame>, fault: Fault, message: string, working: nat) returns (reraised: bool)
      requires Value() == START && rows == []
      modifies this, buffer
      ensures Final(trace, rows, reraised) == Stream(frames, old(countdown), fault, message, working)
    {
      hide Drive, Stored, Response;
      var timedOut, errored := false, false;
      var raised := RunGraph(frames);
      ghost var st := Value();
      var agentsUsed := Sorted(seenAgents);
      SortedUnique(agentsUsed, SortedNames(seenAgents));
      if raised {
        match fault
        case Cancellation =>
          if fullResponseParts != [] {
            var response := YieldDone(agentsUsed, false, true, None);
            Persist([UserRow(message), AssistantRow(response, agentsUsed, true)], working);
          }
          return true;
        case Timeout =>
          timedOut := true;
          trace := trace + [Error(true)];
        case Failure =>
          trace := trace + [Error(false)];
          errored := true;
      }
      var response := YieldDone(agentsUsed, timedOut, false, Some(errored));
      var user, assistant := UserRow(message), AssistantRow(response, agentsUsed, false);
      Persist(if errored then [user] else [user, assistant], working);
      return false;
    }
  }

  lemma SupervisorClass(text: string, toolCalls: bool)
    requires text != ""
    ensures Classify(Message("supervisor", Words(text), toolCalls)) == SupervisorText(text, toolCalls)
    ensures INLINE <= text ==> BRACKETED <= text
  {
    var node := "supervisor";
    assert node[5..][0] == 'v' && node[4..][0] == 'r' && |node| < |"_aggregator"|;
    assert BRACKETED <= INLINE;
  }
}
