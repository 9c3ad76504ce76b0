/** `stream_supervisor_tokens` as a function: graph frames in, SSE frames and stored rows out, with a
    fault allowed at every point where the generator is suspended. */
module Streaming {
  import opened Text
  import opened StreamBuffer

  /** `msg.content`: text, or anything else. */
  datatype Content = NotText | Words(text: string)

  /** One item of `graph.astream`. `Values("")` is a values payload without a `final_response`;
      `MiniEvent` is a message that `extract_event` recognises, from whatever node. */
  datatype Frame =
    | Values(finalResponse: string)
    | MiniEvent(name: string, data: string)
    | Message(node: string, content: Content, toolCalls: bool)

  datatype Sse =
    | Mini(name: string, data: string)
    | Started(agent: string)
    | AgentDone(agent: string, preview: string)
    | Handoff(content: string)
    | Token(content: string)
    | Error(budgetExceeded: bool)
    | Done(response: string, agentsUsed: seq<string>, agentResults: map<string, string>,
           timedOut: bool, cancelled: bool, error: Option<bool>)

  datatype Row = UserRow(text: string) | AssistantRow(text: string, agentsUsed: seq<string>, cancelled: bool)

  const INLINE := "[Supervisor \U{2192}"
  const BRACKETED := "[Supervisor"
  const PLACEHOLDER := "No response generated."

  // ---------------------------------------------------------------------------
  // What a frame is.

  datatype Kind =
    | Ignored
    | FinalResponse(text: string)
    | Relay(name: string, data: string)
    | FromAgent(agent: string, content: Content, toolCalls: bool)
    | InlineHandoff(text: string)
    | Chunk(text: string)

  function Classify(f: Frame): Kind {
    match f
    case Values(text) => if text == "" then Ignored else FinalResponse(text)
    case MiniEvent(name, data) => Relay(name, data)
    case Message(node, content, toolCalls) =>
      if EndsWith(node, "_mini") || EndsWith(node, "_aggregator") then Ignored
      else if EndsWith(node, "_agent") then FromAgent(node[..|node| - 6], content, toolCalls)
      else if node != "supervisor" || content.NotText? || content.text == "" then Ignored
      else SupervisorText(content.text, toolCalls)
  }

  function SupervisorText(text: string, toolCalls: bool): Kind {
    if "{" <= Strip(text) then Ignored
    else if INLINE <= text then InlineHandoff(text)
    else if BRACKETED <= text || toolCalls then Ignored
    else Chunk(text)
  }

  /** `str.title` on ASCII letters: upper case after a non-letter, lower case after a letter. */
  function Title(s: string, afterLetter: bool): string {
    if s == [] then []
    else [if afterLetter then ToLower(s[0]) else ToUpper(s[0])] + Title(s[1..], IsLetter(s[0]))
  }

  predicate IsLetter(c: char) {
    'a' <= c <= 'z' || 'A' <= c <= 'Z'
  }

  function RemovePrefix(s: string, p: string): string {
    if p <= s then s[|p|..] else s
  }

  /** The substantial reply in an agent's message, if it holds one. */
  function Reply(agent: string, content: Content, toolCalls: bool): Option<string> {
    if content.NotText? || content.text == "" || toolCalls then None
    else
      var stripped := Strip(RemovePrefix(content.text, "[" + Title(agent, false) + " Agent]\n"));
      if |stripped| <= 50 || ' ' !in stripped then None else Some(stripped)
  }

  function Preview(reply: string): string {
    if |reply| > 200 then reply[..200] + "\U{2026}" else reply
  }

  // ---------------------------------------------------------------------------
  // The generator's state, and what one suspension point may do to it.

  datatype State = State(
    buffer: Buffer, seen: set<string>, results: map<string, string>, agentsDone: bool,
    parts: seq<string>, direct: string, trace: seq<Sse>)

  const START := State(Buffer([], {}, {}), {}, map[], false, [], "", [])

  /** `countdown` is the number of suspension points still to pass before a fault strikes; a negative
      one never strikes. `raised` says that it has. */
  datatype Exec = Exec(st: State, countdown: int, raised: bool)

  function Suspend(st: State, countdown: int): Exec {
    if countdown == 0 then Exec(st, 0, true)
    else Exec(st, if countdown > 0 then countdown - 1 else countdown, false)
  }

  /** Continue without a suspension, or yield `events` one at a time. */
  function Yield(st: State, ev: Option<Sse>, countdown: int): Exec {
    if ev.None? then Exec(st, countdown, false)
    else Suspend(st.(trace := st.trace + [ev.value]), countdown)
  }

  function HandoffEvent(h: Option<string>): Option<Sse> {
    if h.Some? then Some(Handoff(h.value)) else None
  }

  // The three stages of an agent frame.

  function HandoffStage(st: State, countdown: int): Exec {
    var (b, h) := DiscardAsHandoff(st.buffer);
    Yield(st.(buffer := b), HandoffEvent(h), countdown)
  }

  function StartedStage(st: State, agent: string, countdown: int): Exec {
    if agent in st.seen then Exec(st, countdown, false)
    else Yield(st.(seen := st.seen + {agent}), Some(Started(agent)), countdown)
  }

  function ReplyStage(st: State, agent: string, content: Content, toolCalls: bool, countdown: int): Exec {
    var reply := Reply(agent, content, toolCalls);
    if agent in st.results || reply.None? then Exec(st, countdown, false)
    else
      Yield(st.(results := st.results[agent := reply.value]),
            Some(AgentDone(agent, Preview(reply.value))), countdown)
  }

  function OnAgent(st: State, agent: string, content: Content, toolCalls: bool, countdown: int): Exec {
    var e1 := HandoffStage(st, countdown);
    if e1.raised then e1 else
    var e2 := StartedStage(e1.st, agent, e1.countdown);
    if e2.raised then e2 else
    var e3 := ReplyStage(e2.st, agent, content, toolCalls, e2.countdown);
    if e3.raised then e3 else Exec(e3.st.(agentsDone := true), e3.countdown, false)
  }

  predicate Accepts(st: State, text: string) {
    st.agentsDone && !AlreadyEmitted(st.buffer, text) && !WouldDuplicate(st.buffer, text)
  }

  function OnChunk(st: State, text: string): State {
    if Accepts(st, text) then st.(buffer := st.buffer.(chunks := st.buffer.chunks + [text])) else st
  }

  function OnInline(st: State, text: string, countdown: int): Exec {
    var (b, h) := RecordInlineHandoff(st.buffer, text);
    Yield(st.(buffer := b), HandoffEvent(h), countdown)
  }

  /** The loop body. */
  function Step(st: State, f: Frame, countdown: int): Exec {
    match Classify(f)
    case Ignored => Exec(st, countdown, false)
    case FinalResponse(text) => Exec(st.(direct := text), countdown, false)
    case Relay(name, data) => Yield(st, Some(Mini(name, data)), countdown)
    case FromAgent(agent, content, toolCalls) => OnAgent(st, agent, content, toolCalls, countdown)
    case InlineHandoff(text) => OnInline(st, text, countdown)
    case Chunk(text) => Exec(OnChunk(st, text), countdown, false)
  }

  function YieldToken(st: State, text: string, countdown: int): Exec {
    Yield(st.(parts := st.parts + [text]), Some(Token(text)), countdown)
  }

  /** `flush_as_tokens` from chunk `i` on. */
  function Flush(st: State, i: nat, countdown: int): Exec
    requires i <= |st.buffer.chunks|
    decreases |st.buffer.chunks| - i
  {
    if i == |st.buffer.chunks| then Exec(st.(buffer := st.buffer.(chunks := [])), countdown, false)
    else if AlreadyEmitted(st.buffer, st.buffer.chunks[i]) then Flush(st, i + 1, countdown)
    else
      var e := YieldToken(st, st.buffer.chunks[i], countdown);
      if e.raised then e else Flush(e.st, i + 1, e.countdown)
  }

  /** After the last frame: flush, then fall back on the final response. */
  function Ending(st: State, countdown: int): Exec {
    var e := Flush(st, 0, countdown);
    if e.raised || e.st.parts != [] || e.st.direct == "" then e
    else YieldToken(e.st, e.st.direct, e.countdown)
  }

  /** The `try` block from the point where it awaits the next frame. */
  function Drive(st: State, frames: seq<Frame>, countdown: int): Exec
    decreases |frames|
  {
    var e := Suspend(st, countdown);
    if e.raised then e
    else if frames == [] then Ending(e.st, e.countdown)
    else
      var e' := Step(e.st, frames[0], e.countdown);
      if e'.raised then e' else Drive(e'.st, frames[1..], e'.countdown)
  }

  // ---------------------------------------------------------------------------
  // The handlers, the done frame and persistence.

  datatype Fault = Cancellation | Timeout | Failure

  /** What the client saw, what storage holds, and whether the cancellation is raised again. */
  datatype Final = Final(trace: seq<Sse>, rows: seq<Row>, reraised: bool)

  ghost function SortedNames(names: set<string>): (s: seq<string>)
    ensures StrictlySorted(s) && Members(s) == names
  {
    SortedExists(names);
    var s :| StrictlySorted(s) && Members(s) == names;
    s
  }

  function Response(parts: seq<string>): string {
    if Join(parts) == "" then PLACEHOLDER else Join(parts)
  }

  function DoneFrame(st: State, agentsUsed: seq<string>, timedOut: bool, cancelled: bool, error: Option<bool>): Sse {
    Done(Response(st.parts), agentsUsed, st.results, timedOut, cancelled, error)
  }

  /** `add_message` in turn until one call raises: the first `working` calls succeed. */
  function Stored(rows: seq<Row>, working: nat): seq<Row> {
    if |rows| <= working then rows else rows[..working]
  }

  ghost function Conclude(e: Exec, fault: Fault, message: string, working: nat): Final {
    var st, names := e.st, SortedNames(e.st.seen);
    var user, assistant := UserRow(message), Response(st.parts);
    if !e.raised then
      Final(st.trace + [DoneFrame(st, names, false, false, Some(false))],
            Stored([user, AssistantRow(assistant, names, false)], working), false)
    else match fault
      case Cancellation =>
        if st.parts == [] then Final(st.trace, [], true)
        else Final(st.trace + [DoneFrame(st, names, false, true, None)],
                   Stored([user, AssistantRow(assistant, names, true)], working), true)
      case Timeout =>
        Final(st.trace + [Error(true), DoneFrame(st, names, true, false, Some(false))],
              Stored([user, AssistantRow(assistant, names, false)], working), false)
      case Failure =>
        Final(st.trace + [Error(false), DoneFrame(st, names, false, false, Some(true))], Stored([user], working), false)
  }

  /** A whole request: a fault of the given kind strikes after `countdown` suspension points of the
      `try` block, or never; storage accepts the first `working` messages. */
  ghost function Stream(frames: seq<Frame>, countdown: int, fault: Fault, message: string, working: nat): Final {
    Conclude(Drive(START, frames, countdown), fault, message, working)
  }
}
