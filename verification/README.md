# Verified models of orchid-api

Dafny models of five parts of orchid-api, with proofs about all of their inputs and all of their runs.

* **Rate limiter** (`TokenBucket`, `LimiterRuns`, `LruOrder`, `RateLimit`). A token bucket per key in a
  table bounded by least-recent use. `TokenBucket.Acquire` is one call as a function on values; the class
  `RateLimit.TokenBucketLimiter` is the program, with bucket objects updated in place and the eviction loop,
  proved equal to it. A run is any sequence of calls of any keys on a clock that never goes back. Arithmetic
  is over `real`.
* **Streaming endpoint** (`StreamBuffer`, `Streaming`, `StreamDriver` for the code; `StreamSafety`,
  `StreamTheorems`, `StreamFaults`, `StreamRefinement`, `StreamStatuses`, `StreamEchoes`, `StreamLossless`,
  `StreamWitnesses` for the theorems; `BufferLaws` and `StreamReadings` for the texts and frames they are about). Graph frames go in, SSE frames and stored messages come out. A fault (cancellation, timeout
  or error) may strike at every point where the generator is suspended inside its `try` block: at each `await`
  for the next frame, and at each `yield`. `countdown` is the number of such points that pass first; a negative
  one never strikes. A fault at a `yield` reaches the generator only if its consumer throws it in. A task that
  is cancelled or times out while the consumer is sending a frame does not enter these handlers, so a
  cancelled run with content is rare in practice; the theorems hold for it all the same.
  `StreamDriver.SupervisorStream.Run` is the generator with its loops and early exits, and equals the function
  `Streaming.Stream` that the theorems are about.
* **Log redaction** (`Redaction`, `RedactionScan`, `RedactionLaws`). The bearer pattern as a declarative predicate on strings,
  the leftmost greedy substitution, and the scan that it makes.
* **Gateway overrides** (`McpGateway`, `GatewayLaws`). The environment-name pattern, and the fold of overrides over the base.
* **OAuth dance** (`OAuthDance`, `OAuthProvenance`, `OAuthClients`, `Escaping`). The authorize and callback handlers as threads that interleave
  at every `await` over shared stores, also as the methods of `AuthRouter`; and the encoders of the OAuth pages.

`Text` holds the string operations. The laws (`TextLaws`, `BufferLaws`, `StreamReadings`, `RedactionLaws`,
`GatewayLaws`) say what the definitions mean without them: the constants of the program stand there written out,
and a definition that read another alphabet, marker or bound would break them. `hide` statements in proofs keep definitions out of the solver's way.

## Where the code and its own documentation differ

The models follow the code.

* The header of `rate_limit.py` says that limiters of one name share a bucket map held on the application
  context. Each `rate_limit(...)` call builds a limiter of its own (lines 107-110), and that is what
  `Dependency.RateLimit` does.
* The timeout message says "showing what we have so far", and the docstring of the generator says that a
  stopped run with content is stored. Tokens are flushed only after the graph has ended, so a timeout or error
  while the graph runs shows the placeholder whatever is buffered, and a cancellation then stores nothing.
  `PartialAnswerExactly` says from the inputs how many tokens a fault finds sent; `BufferLostToTimeout` is a run.
* The decision table of `_stream_buffer.py` says that an inline `[Supervisor →` message discards the buffered
  chunks as a handoff. `record_inline_handoff` drops them unseen (line 165).
* The duplicate tests that absorb the assembled message after its chunks also drop genuine chunks that repeat
  what came before: a run with the chunks `a`, `b`, `a` answers `ab` (`RepeatedChunkIsLost`). Chunks sent before
  any agent has spoken are dropped altogether (`UnheardChunkIsLost`). The tests for JSON, for a leading
  `[Supervisor` and for tool calls look at each chunk of a stream on its own, so `a`, `{` answers `a`
  (`BraceIsLost`). `LosslessExactly` says for all undisturbed runs exactly when the tokens are all that the
  supervisor said after the last boundary, where everything said counts, dropped or not.
* An echo that reads as an inline handoff is not absorbed, it empties the buffer: `EchoAbsorbed` is exact, and
  `InlineEchoReached` is a run that gets there.
* The formatter is said to drop `Bearer <token>` substrings. In `Bearer Bearer x` the second word is taken as the
  token of the first, and `x` is printed (`DoubledWordShowsToken`). `EveryTokenErasedExactly`: every match is
  replaced from its start if and only if no match begins inside another.
* The `$` of the environment pattern also matches before a final newline, so a name and the same name with a
  newline write the same cell, and then the order of the environment matters (`OrderMatters`).
  `OrderFreeExactly` is exact.
* The callback looks the client registration of its server up again. When two first users of a server are
  discovered at the same time the second registration replaces the first, and the first user's code is exchanged
  as a client that the authorization URL did not name (`ClientReplaced`). `SameClient` and `ClientExactly` say
  when that cannot happen.
* Limiter keys join tenant and user with colons, so tenants that contain colons can share buckets:
  `TenantsCollide` says exactly which.

## Model

| member | source | states |
|---|---|---|
| TokenBucket.AcquireKeepsTable | orchid_api/rate_limit.py:63-84 | every call keeps `0 <= tokens <= capacity`, at most `max_buckets` keys, and each resident key once in the order |
| RateLimit.TokenBucketLimiter.Create | orchid_api/rate_limit.py:46-61 | construction fails exactly for a non-positive capacity or refill, tested in that order; otherwise the table is empty |
| RateLimit.TokenBucketLimiter.MakeRoom | orchid_api/rate_limit.py:68-69 | the eviction loop drops the oldest keys until one more fits, and raises exactly when `max_buckets` is below one |
| RateLimit.TokenBucketLimiter.Acquire | orchid_api/rate_limit.py:63-84 | the method on bucket objects has the decision and the final table of the specified step; other buckets are untouched |
| RateLimit.Dependency.RateLimit | orchid_api/rate_limit.py:87-110 | a non-positive `calls` gives the no-op, a zero or negative period an error, otherwise a fresh limiter of `calls` at `calls / period` |
| RateLimit.Dependency.Enforce | orchid_api/rate_limit.py:112-122 | a request is refused exactly when the bucket of its key is, with the computed `Retry-After` |
| LimiterRuns.WindowBound | orchid_api/rate_limit.py:63-84 | over any run and window, a key's admissions are at most `(1 + its evictions) * capacity + refill * span` |
| LimiterRuns.PeriodBound | orchid_api/rate_limit.py:107-110 | a key that is not evicted is admitted at most `2 * calls` times in any `period` |
| LimiterRuns.PotentialStep | orchid_api/rate_limit.py:66-84 | conservation: one call costs its own key exactly one token if admitted, restores a key it evicts to full, and changes no other key |
| LimiterRuns.RefillComposes | orchid_api/rate_limit.py:74-76 | refilling in two steps earns what refilling once does |
| LimiterRuns.PollingIsFree | orchid_api/rate_limit.py:72-84 | between denials a key's tokens follow the clock alone, however often it polls; evictions only add |
| LimiterRuns.DeniedUntil | orchid_api/rate_limit.py:72-84 | after a denial with wait `w`, every attempt before `now + w` is denied while the key is not evicted, with nothing assumed of the attempts between |
| LimiterRuns.ExactRetry | orchid_api/rate_limit.py:82-84 | with only denials of the key since, the first attempt at or after `now + w` is admitted, whatever polls and evictions lie between |
| LimiterRuns.FirstRetryAdmitted | orchid_api/rate_limit.py:72-84 | while the key is not evicted, its first attempt at or after `now + w` is admitted, with nothing assumed of the decisions between |
| RateLimit.RetryAfterSuffices | orchid_api/rate_limit.py:115-121 | `Retry-After` is in `(w, w + 1]`, and an attempt that waits it out is admitted if the key was only denied in between |
| RateLimit.RetryAfterIsTight | orchid_api/rate_limit.py:115-121 | every attempt more than a second before `Retry-After` is over is denied while the key is not evicted |
| LimiterRuns.GreedyOptimal | orchid_api/rate_limit.py:78-84 | no policy that admits only with a whole token in its own equal bucket admits more calls of a key than `acquire` |
| LimiterRuns.RivalBehind | orchid_api/rate_limit.py:75-84 | the invariant behind it: a rival is never ahead by more tokens than the limiter is ahead by admissions |
| RateLimit.UsersKept | orchid_api/rate_limit.py:46-61 | the limiter of a dependency keeps the buckets of the last 10,000 users and no more; up to that many users are decided like unbounded buckets |
| LruOrder.ResidentOrder | orchid_api/rate_limit.py:66-73 | after any run the resident keys are the last `max_buckets` distinct keys used |
| LruOrder.RecencyByLastUse | orchid_api/rate_limit.py:71-73 | the order lists every distinct key once, by last use |
| LruOrder.Survives | orchid_api/rate_limit.py:67-73 | a key is resident exactly when it was used and fewer than `max_buckets` distinct other keys were used since |
| LruOrder.Isolation | orchid_api/rate_limit.py:63-84 | until a key is evicted its bucket is the one it would have with no other keys around |
| LruOrder.BoundedRefinesUnbounded | orchid_api/rate_limit.py:60-84 | with at most `max_buckets` distinct keys every decision is that of an unbounded bucket per key |
| RateLimit.TenantsCollide | orchid_api/rate_limit.py:113 | two tenants share a bucket for some users exactly when one is the other followed by a colon |
| RateLimit.UsersIsolated | orchid_api/rate_limit.py:113 | users of colon-free tenants never share a bucket |
| StreamBuffer.Clean | orchid_api/routers/_stream_buffer.py:40-50 | the loop over the preambles computes the specified cleaning |
| StreamBuffer.CleanShape | orchid_api/routers/_stream_buffer.py:40-50 | a cleaned handoff has no outer whitespace and is a contiguous piece of its source |
| BufferLaws.CleanExactly | orchid_api/routers/_stream_buffer.py:32-50 | what is removed: outer whitespace, one of the four preambles in any case, and one pair of quotes; nothing else |
| BufferLaws.AfterBracketExactly | orchid_api/routers/_stream_buffer.py:166 | the text of an inline handoff is what follows the first bracket and space, or all of it |
| BufferLaws.SameStartExactly | orchid_api/routers/_stream_buffer.py:103-115 | the dedup set confuses two texts exactly when they are equal or agree on their first hundred characters |
| StreamBuffer.PreambleOrderImmaterial | orchid_api/routers/_stream_buffer.py:32-47 | at most one preamble starts a text, so their order cannot matter |
| StreamBuffer.SupervisorTokenBuffer.IsDuplicate | orchid_api/routers/_stream_buffer.py:117-129 | a chunk is a duplicate exactly when the buffered text begins with it or it equals the last chunk |
| StreamBuffer.SupervisorTokenBuffer.Discard | orchid_api/routers/_stream_buffer.py:141-155 | the new buffer and the handoff let out |
| StreamBuffer.SupervisorTokenBuffer.RecordInline | orchid_api/routers/_stream_buffer.py:157-172 | the new buffer and the handoff let out |
| StreamBuffer.DiscardShape | orchid_api/routers/_stream_buffer.py:141-155 | a discarded buffer gives at most one handoff: new, non-empty, trimmed, a piece of the buffered text |
| StreamBuffer.InlineShape | orchid_api/routers/_stream_buffer.py:157-172 | an inline message gives at most one handoff: new, non-empty, trimmed, a piece of the message |
| StreamReadings.EventExactly | orchid_api/routers/_streaming.py:99-116 | mini-agent events are relayed and non-empty final responses kept, and only those |
| StreamReadings.AgentExactly | orchid_api/routers/_streaming.py:124-133 | the frames of an agent are those of the node of its name and `_agent` |
| StreamReadings.SupervisorExactly | orchid_api/routers/_streaming.py:143-164 | an inline handoff begins with `[Supervisor →`; any other supervisor text is a chunk unless it looks like JSON, begins with `[Supervisor` or carries tool calls |
| StreamReadings.ReplyExactly | orchid_api/routers/_streaming.py:337-349 | an agent message is a reply exactly when, without its label and outer whitespace, it has more than fifty characters with a space among them and no tool calls |
| StreamReadings.TitleExactly | orchid_api/routers/_streaming.py:344 | the label: a letter is upper case exactly when no letter stands before it |
| StreamDriver.SupervisorStream.MaybeEmitAgentDone | orchid_api/routers/_streaming.py:327-359 | the first substantial reply of an agent is stored and announced with its preview |
| StreamDriver.SupervisorStream.OnAgentMessage | orchid_api/routers/_streaming.py:127-141 | discard, started and done in that order, stopped by a fault at any of the yields |
| StreamDriver.SupervisorStream.OnSupervisorText | orchid_api/routers/_streaming.py:146-169 | the tests on supervisor text in the order of the source, and what each outcome does |
| StreamDriver.SupervisorStream.OnFrame | orchid_api/routers/_streaming.py:93-169 | one pass of the frame loop is the specified step, faults included |
| StreamDriver.SupervisorStream.FlushBuffer | orchid_api/routers/_stream_buffer.py:133-139 | the flush yields the waiting chunks one at a time, from the first, until it ends or a fault strikes |
| StreamDriver.SupervisorStream.RunGraph | orchid_api/routers/_streaming.py:91-178 | the whole `try` block, with the state it leaves at the fault |
| StreamDriver.SupervisorStream.Run | orchid_api/routers/_streaming.py:65-284 | the whole generator: its SSE frames, its stored messages, and whether the cancellation is raised again |
| StreamSafety.StepKeeps | orchid_api/routers/_streaming.py:93-169 | every frame, cut short anywhere, keeps the invariant: unique statuses and handoffs, dedup set equal to the prefixes of the handoffs sent, no waiting chunk in it |
| StreamSafety.FlushLosesNothing | orchid_api/routers/_stream_buffer.py:133-139 | the skip of already emitted chunks is never taken: an undisturbed flush turns every waiting chunk into a token, in order |
| StreamTheorems.TraceGrammar | orchid_api/routers/_streaming.py:91-275 | under any fault the frames are `(status or handoff or mini-event)* token* error? done?`, statuses and handoffs are unique, `done` is missing exactly when cancelled before any token, it agrees with the tokens and statuses sent, and the error frame and the flags `timed_out`, `cancelled` and `error` are those of the fault that struck |
| TextLaws.StripExactly | orchid_api/routers/_stream_buffer.py:42-49 | stripping removes exactly the whitespace at both ends, whitespace being the 29 characters of Unicode |
| TextLaws.LessExactly | orchid_api/routers/_streaming.py:261 | the order in which `agents_used` is sorted: by the first character that differs, a prefix first |
| StreamTheorems.PersistenceAgrees | orchid_api/routers/_streaming.py:186-284 | storage holds a prefix of user message then shown response, as the run's ending calls for, even if storage fails; never an answer without its question |
| StreamTheorems.ResultsAreFirstReplies | orchid_api/routers/_streaming.py:337-350 | `agent_results` holds each agent's first reply that counts, and its agents are among `agents_used` |
| StreamFaults.FaultCutsOff | orchid_api/routers/_streaming.py:91-178 | what was sent before a fault is a prefix of what the undisturbed run sends, and the fault strikes exactly when its countdown is no larger than the graph frames and the frames that run sends |
| StreamFaults.PartialAnswerExactly | orchid_api/routers/_streaming.py:171-284 | at a fault the tokens are the first ones of the undisturbed run: none while the countdown is at most the graph frames and the frames sent for them, and one more for every point beyond; the response is their join or the placeholder, and a cancellation without any stores nothing |
| StreamFaults.HandoffSources | orchid_api/routers/_stream_buffer.py:141-172 | every handoff that any run sends, faults included, is the cleaned text that some boundary frame discards, waiting in the buffer or its own, and a contiguous piece of it |
| StreamStatuses.MinisRelayed | orchid_api/routers/_streaming.py:112-116 | every mini-agent event of an undisturbed run is sent, in order, with its name and data, and no other; a fault leaves a prefix |
| StreamStatuses.StatusesExactly | orchid_api/routers/_streaming.py:106-141 | the events without supervisor text, exactly: mini-agent events, each agent's start at its first message, its first reply with its preview; a fault leaves a prefix |
| StreamStatuses.StepSends | orchid_api/routers/_streaming.py:127-141 | one graph frame sends its discarded handoff, then the start of its agent, then its reply |
| StreamStatuses.PreviewsOfResults | orchid_api/routers/_streaming.py:350-351 | the preview shown of an agent is the first two hundred characters of its entry in `agent_results`, with an ellipsis if there are more |
| StreamRefinement.OnlineEqualsOffline | orchid_api/routers/_streaming.py:93-178 | an undisturbed run shows exactly the handoffs and tokens of a classifier that looks ahead to the next boundary |
| StreamRefinement.AnswerIsTail | orchid_api/routers/_streaming.py:166-178 | the tokens are the genuine chunks after the last boundary, else the last `final_response`; the response is their join or the placeholder |
| StreamEchoes.EchoAbsorbed | orchid_api/routers/_stream_buffer.py:117-129 | an echo changes nothing if and only if it does not read as an inline handoff |
| StreamEchoes.EchoesInvisible | orchid_api/routers/_streaming.py:166-169 | adding any echoes anywhere leaves the whole outcome of a run as it is |
| StreamLossless.AnswerFromFrames | orchid_api/routers/_streaming.py:166-178 | the answer and the handoffs announced, computed from the frames alone |
| StreamLossless.LosslessExactly | orchid_api/routers/_streaming.py:160-178 | for every undisturbed run, the tokens are all that the supervisor said after the last boundary if and only if none of it was refused as JSON, bracketed or tool call and none repeats what came before it, or, when no chunk counts, the last `final_response` is that text |
| StreamLossless.KeptExactly | orchid_api/routers/_streaming.py:146-169 | for any frames, the text kept is all that the supervisor said if and only if nothing was said, or an agent had spoken, nothing was refused and nothing repeats |
| StreamLossless.ChunksKept | orchid_api/routers/_stream_buffer.py:113-129 | of the chunks alone: all of their text is kept if and only if there is none, or an agent had spoken and no chunk repeats |
| StreamLossless.ChunksSurviveEchoes | orchid_api/routers/_streaming.py:166-172 | chunks that repeat nothing, with any echoes and frames without text between them, end in the buffer as they are and are flushed |
| StreamLossless.EchoedAnswerIsWhole | orchid_api/routers/_streaming.py:166-172 | a run with echoes anywhere answers with exactly the chunks after the last boundary, when those repeat nothing |
| StreamWitnesses.RepeatedChunkIsLost | orchid_api/routers/_stream_buffer.py:126-129 | a run whose chunks `a`, `b`, `a` answer `ab` |
| StreamWitnesses.UnheardChunkIsLost | orchid_api/routers/_streaming.py:160-161 | a run whose only chunk, sent before any agent, is answered by the placeholder |
| StreamWitnesses.BraceIsLost | orchid_api/routers/_streaming.py:150-151 | a run that says `a`, `{` and repeats nothing answers `a` |
| StreamWitnesses.BufferLostToTimeout | orchid_api/routers/_streaming.py:171-178 | a run whose waiting chunk a timeout turns into the placeholder, though undisturbed it would be shown |
| StreamWitnesses.InlineEchoReached | orchid_api/routers/_stream_buffer.py:157-165 | a run whose handoff arrives in pieces, so that the assembled message is an echo and empties the buffer |
| RedactionLaws.MatchesExactly | orchid_api/main.py:65 | the pattern: a spelling of the word, whitespace, and characters of the written-out alphabet or its four case variants |
| RedactionLaws.BearerErased | orchid_api/main.py:65-68 | a bearer token is replaced whole, up to the first character outside the alphabet, and the rest is redacted in turn |
| Redaction.FrontMeansMatch | orchid_api/main.py:65 | the reader finds a match at a place exactly when some substring there matches the pattern |
| Redaction.LeftmostLongest | orchid_api/main.py:68 | the substitution keeps the text before the first match, replaces the longest match there, and continues after it |
| Redaction.RedactionComplete | orchid_api/main.py:65-68 | for every string the output holds no match, not even across seams |
| Redaction.RedactionIdempotent | orchid_api/main.py:65-68 | redacting twice is redacting once; a string is unchanged exactly when it holds no match |
| RedactionScan.ScanOfIsScan | orchid_api/main.py:68 | every text splits into kept stretches and the leftmost, longest, non-overlapping matches between them |
| RedactionScan.ScanRedacts | orchid_api/main.py:68 | the output is the kept stretches with the replacement between them |
| RedactionScan.TokensErased | orchid_api/main.py:65-68 | exchanging the matches that the scan replaces for any others, at any number of places, leaves the output as it is |
| RedactionScan.EveryTokenErasedExactly | orchid_api/main.py:54-68 | every match in a text is replaced from its start if and only if no match begins inside another |
| RedactionScan.DoubledWordShowsToken | orchid_api/main.py:54-68 | the token after a doubled word is printed |
| McpGateway.PatternParses | orchid_api/mcp_gateway.py:42-44 | whichever way a name matches the pattern is the way it is parsed |
| McpGateway.ParsedMatches | orchid_api/mcp_gateway.py:69-73 | only names that match the pattern are parsed |
| McpGateway.NameRoundTrip | orchid_api/mcp_gateway.py:42-44 | every tool over `[a-z0-9_]` and field has a name that parses back to it, and every parsed name is that name, up to a final newline |
| McpGateway.ResolveMcpGatewayConfig | orchid_api/mcp_gateway.py:52-88 | the loop over the environment and the prompts choice compute the specified configuration or error |
| GatewayLaws.PromptsFromFile | orchid_api/mcp_gateway.py:80-85 | the prompts of a named file replace those of the base, and a file that cannot be read is the error |
| GatewayLaws.PromptsFromBase | orchid_api/mcp_gateway.py:82-86 | with no file named, or an empty name, the prompts are those of the base |
| GatewayLaws.FieldFromEnv | orchid_api/mcp_gateway.py:68-78 | the variable named for a tool and a field sets it, for the tool in lower case; unset, the field is that of the base |
| GatewayLaws.ToolsFromEnv | orchid_api/mcp_gateway.py:64-78 | the tools of the result are those of the base and those that a variable names |
| McpGateway.OverlayCells | orchid_api/mcp_gateway.py:64-78 | each field of each tool is the last matching variable's value, else the base's; no other tool appears |
| McpGateway.ResolveIdempotent | orchid_api/mcp_gateway.py:52-88 | resolving a resolved configuration again changes nothing |
| McpGateway.OrderFreeExactly | orchid_api/mcp_gateway.py:68-78 | the tool overrides are independent of the order of the environment if and only if no matching name is set with and without a final newline to different values |
| McpGateway.ResultOrderFreeExactly | orchid_api/mcp_gateway.py:52-88 | the whole result is independent of that order if and only if the prompts file cannot be read or the same holds |
| McpGateway.OrderMatters | orchid_api/mcp_gateway.py:68-78 | an environment in which the variable listed last wins, for every tool and field |
| OAuthDance.ActKeeps | orchid_api/routers/_mcp_auth/callback.py:61-107 | every step of every handler keeps the invariant over stores, handlers and history |
| OAuthDance.DanceIsSafe | orchid_api/routers/_mcp_auth/callback.py:61-107 | over all interleavings each state leads to at most one exchange and one token, with the verifier of the returned challenge, at the token endpoint that its authorize step recorded if any, for the tenant, user and server of that step |
| OAuthDance.DanceCompletes | orchid_api/routers/_mcp_auth/callback.py:42-136 | a granted callback for a stored state saves the token for its owner, and the same callback again is refused and changes nothing |
| OAuthDance.AuthRouter.GetAuthorizeUrl | orchid_api/routers/_mcp_auth/authorize.py:38-140 | the handler run alone: its response and the stores it leaves, in every branch |
| OAuthDance.AuthRouter.OauthCallback | orchid_api/routers/_mcp_auth/callback.py:42-136 | the handler run alone: its response, the request it sends and the stores it leaves, in every branch, a malformed answer and a failing save included |
| OAuthDance.AuthorizeIsRun | orchid_api/routers/_mcp_auth/authorize.py:65-140 | an uninterrupted authorize step is one of the interleavings |
| OAuthDance.CallbackIsRun | orchid_api/routers/_mcp_auth/callback.py:53-136 | an uninterrupted callback is one of the interleavings |
| OAuthProvenance.EverythingHasASource | orchid_api/routers/_mcp_auth/authorize.py:51-140 | over all interleavings: each state is issued for a registered server to who asked, with a URL of the authorization endpoint, client and scopes of one registration found for it; each request follows a callback without error, with its code, and authenticates (header, body or neither) as a registration found asks; each saved token was granted for its state |
| OAuthClients.AuthorizeExactly | orchid_api/routers/_mcp_auth/authorize.py:51-140 | every outcome of the authorize step with its condition; no state is issued unless it redirects |
| OAuthClients.CallbackExactly | orchid_api/routers/_mcp_auth/callback.py:53-107 | every outcome of the callback with its condition: only a callback without error takes a state, a code is sent only when there is somewhere to send it, a token saved only when granted, with the scopes of the registration |
| OAuthClients.ClientExactly | orchid_api/routers/_mcp_auth/callback.py:66-90 | the request of a callback: its code, verifier and endpoint; it authenticates as the registration now stored asks, and so names the client of the URL if and only if that registration does |
| OAuthClients.SameClient | orchid_api/routers/_mcp_auth/authorize.py:65-130 | over all interleavings, while every discovery of a server finds the same client, each code is exchanged as the client that its URL named |
| OAuthClients.ClientReplaced | orchid_api/routers/_mcp_auth/authorize.py:65-103 | for any two registrations of different clients, an interleaving in which a code is exchanged as the wrong one |
| Escaping.HtmlRoundTrip | orchid_api/routers/_mcp_auth/_helpers.py:47-57 | escaped text holds no markup character, and the decoder of the five references it uses gives back the original |
| Escaping.CharRoundTrip | orchid_api/routers/_mcp_auth/_helpers.py:80 | every character as `json.dumps` writes it reads back, surrogate pairs included |
| Escaping.NoScriptEnd | orchid_api/routers/_mcp_auth/_helpers.py:80 | the replacement of `</` leaves none and creates none |
| Escaping.PayloadRoundTrip | orchid_api/routers/_mcp_auth/_helpers.py:74-88 | for every server name the payload is ASCII, holds no `</` and decodes as a JSON object with the type `mcp-auth-complete` and the name |
| Escaping.PayloadComment | orchid_api/routers/_mcp_auth/_helpers.py:77-80 | the payload holds `<!--` if and only if the server name does: only `</` is neutralised |

## Left out

* Float rounding: limiter times and tokens are real numbers.
* The lock of `acquire`: each call is one atomic step, which is what the lock provides.
* The text of the 429 detail message and of log lines, performance logging and metrics.
* `extract_event` and the messages of the graph library: a frame says whether it is a mini-agent event, and
  an event whose data overrides the `type` key of its own frame is not distinguished.
* A `final_response` that is truthy but not text.
* Faults inside the exception handlers and while messages are stored, and closing the generator at a `yield`
  (`GeneratorExit`), after which no handler runs. An exception raised between two suspension points, before the
  frame changed anything, is a fault at the preceding `await`.
* `auto_title_if_first_message` and the `auth_required` list of the done frame: a few lines each, and neither
  changes what is modelled.
* JSON encoding of SSE frames: frames are values.
* `mark_emitted` and `has_content` of the buffer: the generator does not use them.
* `flush_as_tokens` as a generator object: its loop stands at its only use, in `FlushBuffer`.
* Case mapping beyond ASCII in `clean_handoff`, `str.title` and the gateway names. It cannot matter for the
  preambles, whose letters have no other variants that lower-case to them in place, nor for gateway names.
* Idempotence of `clean_handoff`: it does not hold (a quoted text inside quotes is unquoted once a call), and
  nothing relies on it.
* Strings with lone surrogates: characters are Unicode scalar values.
* Reading and validating the prompts file: a function from the path to prompts or an error, that gives the same
  answer for the same path. Fields of a tool override other than title and description, and the failure of
  prompts that do not validate.
* SHA-256, base64, random draws, `urlencode` and HTTP: the challenge is an uninterpreted function of the
  verifier, verifiers are arbitrary, states are fresh, and URLs and requests are records.
* Inside discovery and client registration (`ensure_registration` is not part of this model): its outcome
  is a registration, stored for the server, or a failure; whether it looks for a stored one again is not modelled.
* Token expiry times and refresh tokens, and the warm-up after the callback, which cannot fail the request.
* How an HTML parser reads a script that holds `<!--`, which the payload repeats when the server name holds it,
  and character references other than the five that `html.escape` writes.
* Page layout around the escaped text, and the cut of an upstream error body to 1000 characters.
* The rest of the repository: routing, settings, lifecycle, storage, visibility, sharing, schedules, events.
