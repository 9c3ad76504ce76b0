/** The outbound OAuth dance: `get_authorize_url` and `oauth_callback` as threads that interleave at every
    `await`, over stores they share. The S256 transformation is a parameter, `s256`. */
module OAuthDance {
  import opened Text

  datatype Caller = Caller(tenant: string, user: string)

  datatype Registration = Registration(
    authorizationEndpoint: string, tokenEndpoint: string, clientId: string,
    clientSecret: string, basicAuth: bool, scopes: string)

  datatype Pending = Pending(server: string, caller: Caller, verifier: string, tokenEndpoint: string)

  /** The parameters of the URL that the authorize step returns. */
  datatype AuthorizeUrl = AuthorizeUrl(
    endpoint: string, clientId: string, scope: string, state: string, challenge: string)

  /** The POST to the token endpoint. */
  datatype Request = Request(
    endpoint: string, code: string, clientId: string, verifier: string,
    bodySecret: Option<string>, basicSecret: Option<string>)

  /** The upstream answer: a failure with the status of its page, a body that is not JSON or lacks the
      access token, or a token. */
  datatype Reply = Refused(status: int) | Malformed | Granted(accessToken: string)

  /** What becomes of the record: no token store, saved, or `save_token` raises before it saves. */
  datatype Saving = NoStore | Saved | SaveFails

  datatype TokenRecord = TokenRecord(server: string, caller: Caller, accessToken: string, scopes: string)

  datatype Response = Page(status: int) | Redirect(url: AuthorizeUrl) | Crash

  /** What the handlers share, with the history of what went out: for each state the authorize step that
      issued it and the URL it returned, the token requests sent, and the tokens saved. */
  datatype Stores = Stores(
    pending: map<string, Pending>, registrations: map<string, Registration>,
    issued: map<string, Issue>, requests: seq<(string, Request)>, tokens: seq<(string, TokenRecord)>)

  datatype Issue = Issue(server: string, caller: Caller, tokenEndpoint: string, url: AuthorizeUrl)

  /** Where a handler is: the `await` it is at, and the locals it still needs. */
  datatype Thread =
    | Authorizing(server: string, caller: Caller)
    | Discovering(server: string, caller: Caller)
    | Registered(server: string, caller: Caller, registration: Registration)
    | Returned(code: string, state: string)
    | Popped(code: string, state: string, entry: Pending)
    | Exchanging(code: string, state: string, entry: Pending, registration: Registration)
    | Awaiting(state: string, entry: Pending, scopes: string)
    | Exchanged(state: string, entry: Pending, scopes: string, accessToken: string)
    | Finished(response: Response)

  // ---------------------------------------------------------------------------
  // The parts of the handlers between two awaits.

  /** The checks of the authorize handler before its first await; `servers` is the registry, if any. */
  function BeginAuthorize(servers: Option<set<string>>, server: string, caller: Caller): Thread {
    if servers.None? || server !in servers.value then Finished(Page(404)) else Authorizing(server, caller)
  }

  function LookUp(s: Stores, t: Thread): Thread
    requires t.Authorizing?
  {
    if t.server in s.registrations then Registered(t.server, t.caller, s.registrations[t.server])
    else Discovering(t.server, t.caller)
  }

  function Discover(s: Stores, t: Thread, found: Option<Registration>): (Stores, Thread)
    requires t.Discovering?
  {
    match found
    case None => (s, Finished(Page(502)))
    case Some(r) => (s.(registrations := s.registrations[t.server := r]), Registered(t.server, t.caller, r))
  }

  /** Draw the verifier and the state, put the pending entry, return the URL. */
  function IssueState(s: Stores, t: Thread, verifier: string, state: string, s256: string -> string): (Stores, Thread)
    requires t.Registered?
  {
    var r := t.registration;
    if r.authorizationEndpoint == "" then (s, Finished(Page(500)))
    else
      var scope := if r.scopes == "" then "openid" else r.scopes;
      var url := AuthorizeUrl(r.authorizationEndpoint, r.clientId, scope, state, s256(verifier));
      (s.(pending := s.pending[state := Pending(t.server, t.caller, verifier, r.tokenEndpoint)],
          issued := s.issued[state := Issue(t.server, t.caller, r.tokenEndpoint, url)]),
       Finished(Redirect(url)))
  }

  /** The checks of the callback before its first await. */
  function BeginCallback(code: string, state: string, error: string): Thread {
    if error != "" || code == "" || state == "" then Finished(Page(400)) else Returned(code, state)
  }

  /** `state_store.pop`: read and remove in one step. */
  function PopState(s: Stores, t: Thread): (Stores, Thread)
    requires t.Returned?
  {
    if t.state !in s.pending then (s, Finished(Page(400)))
    else (s.(pending := s.pending - {t.state}), Popped(t.code, t.state, s.pending[t.state]))
  }

  function LookUpAgain(s: Stores, t: Thread): Thread
    requires t.Popped?
  {
    if t.entry.server !in s.registrations then Finished(Page(500))
    else
      var r := s.registrations[t.entry.server];
      if t.entry.tokenEndpoint == "" && r.tokenEndpoint == "" then Finished(Page(500))
      else Exchanging(t.code, t.state, t.entry, r)
  }

  function TokenRequest(code: string, entry: Pending, r: Registration): Request {
    Request(if entry.tokenEndpoint != "" then entry.tokenEndpoint else r.tokenEndpoint,
            code, r.clientId, entry.verifier,
            if r.clientSecret != "" && !r.basicAuth then Some(r.clientSecret) else None,
            if r.clientSecret != "" && r.basicAuth then Some(r.clientSecret) else None)
  }

  function SendRequest(s: Stores, t: Thread): (Stores, Thread)
    requires t.Exchanging?
  {
    (s.(requests := s.requests + [(t.state, TokenRequest(t.code, t.entry, t.registration))]),
     Awaiting(t.state, t.entry, t.registration.scopes))
  }

  function ReadReply(t: Thread, reply: Reply): Thread
    requires t.Awaiting?
  {
    match reply
    case Refused(status) => Finished(Page(status))
    case Malformed => Finished(Crash)
    case Granted(token) => Exchanged(t.state, t.entry, t.scopes, token)
  }

  /** Save the record if there is a token store; the success page comes unless that raises. */
  function SaveToken(s: Stores, t: Thread, saving: Saving): (Stores, Thread)
    requires t.Exchanged?
  {
    match saving
    case NoStore => (s, Finished(Page(200)))
    case SaveFails => (s, Finished(Crash))
    case Saved =>
      var record := TokenRecord(t.entry.server, t.entry.caller, t.accessToken, t.scopes);
      (s.(tokens := s.tokens + [(t.state, record)]), Finished(Page(200)))
  }

  // ---------------------------------------------------------------------------
  // All interleavings.

  /** Where a state is: a history variable that the handlers never read. */
  datatype Place = InStore | HeldBy(thread: nat) | SentBy(thread: nat) | Spent

  datatype World = World(stores: Stores, threads: map<nat, Thread>, places: map<string, Place>)

  const INITIAL := World(Stores(map[], map[], map[], [], []), map[], map[])

  /** One atomic step of one handler, with what it draws or is told from outside; or the loss of a
      pending entry. */
  datatype Action =
    | Authorize(id: nat, servers: Option<set<string>>, server: string, caller: Caller)
    | FindRegistration(id: nat)
    | RunDiscovery(id: nat, found: Option<Registration>)
    | PutState(id: nat, verifier: string, state: string)
    | Callback(id: nat, code: string, state: string, error: string)
    | Pop(id: nat)
    | FindAgain(id: nat)
    | Send(id: nat)
    | Receive(id: nat, reply: Reply)
    | Save(id: nat, saving: Saving)
    | Expire(state: string)

  /** When an action can happen. A new handler is a new thread, and the random state of an authorize step
      was never issued before; nothing else is assumed. */
  predicate Enabled(w: World, a: Action) {
    match a
    case Authorize(id, _, _, _) => id !in w.threads
    case Callback(id, _, _, _) => id !in w.threads
    case FindRegistration(id) => id in w.threads && w.threads[id].Authorizing?
    case RunDiscovery(id, _) => id in w.threads && w.threads[id].Discovering?
    case PutState(id, _, state) => id in w.threads && w.threads[id].Registered? && state !in w.stores.issued
    case Pop(id) => id in w.threads && w.threads[id].Returned?
    case FindAgain(id) => id in w.threads && w.threads[id].Popped?
    case Send(id) => id in w.threads && w.threads[id].Exchanging?
    case Receive(id, _) => id in w.threads && w.threads[id].Awaiting?
    case Save(id, _) => id in w.threads && w.threads[id].Exchanged?
    case Expire(_) => true
  }

  function With(w: World, id: nat, st: (Stores, Thread)): World {
    w.(stores := st.0, threads := w.threads[id := st.1])
  }

  function Act(w: World, a: Action, s256: string -> string): World
    requires Enabled(w, a)
  {
    match a
    case Authorize(id, servers, server, caller) => With(w, id, (w.stores, BeginAuthorize(servers, server, caller)))
    case FindRegistration(id) => With(w, id, (w.stores, LookUp(w.stores, w.threads[id])))
    case RunDiscovery(id, found) => With(w, id, Discover(w.stores, w.threads[id], found))
    case PutState(id, verifier, state) =>
      var w' := With(w, id, IssueState(w.stores, w.threads[id], verifier, state, s256));
      if state in w'.stores.issued then w'.(places := w.places[state := InStore]) else w'
    case Callback(id, code, state, error) => With(w, id, (w.stores, BeginCallback(code, state, error)))
    case Pop(id) =>
      var w' := With(w, id, PopState(w.stores, w.threads[id]));
      if w'.threads[id].Popped? then w'.(places := w.places[w'.threads[id].state := HeldBy(id)]) else w'
    case FindAgain(id) =>
      With(w, id, (w.stores, LookUpAgain(w.stores, w.threads[id])))
    case Send(id) =>
      With(w, id, SendRequest(w.stores, w.threads[id])).(places := w.places[w.threads[id].state := SentBy(id)])
    case Receive(id, reply) => With(w, id, (w.stores, ReadReply(w.threads[id], reply)))
    case Save(id, saving) =>
      With(w, id, SaveToken(w.stores, w.threads[id], saving)).(places := w.places[w.threads[id].state := Spent])
    case Expire(state) => w.(stores := w.stores.(pending := w.stores.pending - {state}))
  }

  ghost predicate Possible(w: World, run: seq<Action>, s256: string -> string)
    decreases |run|
  {
    run == [] || (Enabled(w, run[0]) && Possible(Act(w, run[0], s256), run[1..], s256))
  }

  function After(w: World, run: seq<Action>, s256: string -> string): World
    requires Possible(w, run, s256)
    decreases |run|
  {
    if run == [] then w else After(Act(w, run[0], s256), run[1..], s256)
  }

  // ---------------------------------------------------------------------------
  // The invariant.

  /** The entry is what the authorize step that issued the state stored. */
  ghost predicate Faithful(s: Stores, state: string, entry: Pending, s256: string -> string) {
    && state in s.issued
    && entry.server == s.issued[state].server && entry.caller == s.issued[state].caller
    && entry.tokenEndpoint == s.issued[state].tokenEndpoint
    && s256(entry.verifier) == s.issued[state].url.challenge && s.issued[state].url.state == state
  }

  ghost function Sent(s: Stores): set<string> {
    set i | 0 <= i < |s.requests| :: s.requests[i].0
  }

  ghost predicate GoodThread(w: World, id: nat, t: Thread, s256: string -> string) {
    match t
    case Popped(_, state, entry) =>
      state in w.places && w.places[state] == HeldBy(id) && Faithful(w.stores, state, entry, s256)
    case Exchanging(_, state, entry, _) =>
      state in w.places && w.places[state] == HeldBy(id) && Faithful(w.stores, state, entry, s256)
    case Awaiting(state, entry, _) =>
      && state in w.places && w.places[state] == SentBy(id)
      && state in Sent(w.stores) && Faithful(w.stores, state, entry, s256)
    case Exchanged(state, entry, _, _) =>
      && state in w.places && w.places[state] == SentBy(id)
      && state in Sent(w.stores) && Faithful(w.stores, state, entry, s256)
    case _ => true
  }

  ghost predicate GoodRequests(w: World, s256: string -> string) {
    && (forall i :: 0 <= i < |w.stores.requests| ==>
          var (state, r) := w.stores.requests[i];
          && state in w.places && (w.places[state].SentBy? || w.places[state].Spent?)
          && state in w.stores.issued && s256(r.verifier) == w.stores.issued[state].url.challenge
          && (w.stores.issued[state].tokenEndpoint == "" || r.endpoint == w.stores.issued[state].tokenEndpoint))
    && (forall i, j :: 0 <= i < j < |w.stores.requests| ==> w.stores.requests[i].0 != w.stores.requests[j].0)
  }

  ghost predicate GoodTokens(w: World) {
    && (forall i :: 0 <= i < |w.stores.tokens| ==>
          var (state, t) := w.stores.tokens[i];
          && state in w.places && w.places[state].Spent? && state in Sent(w.stores) && state in w.stores.issued
          && t.server == w.stores.issued[state].server && t.caller == w.stores.issued[state].caller)
    && (forall i, j :: 0 <= i < j < |w.stores.tokens| ==> w.stores.tokens[i].0 != w.stores.tokens[j].0)
  }

  ghost predicate Invariant(w: World, s256: string -> string) {
    && (forall state :: state in w.stores.pending ==>
          state in w.places && w.places[state] == InStore && Faithful(w.stores, state, w.stores.pending[state], s256))
    && (forall id :: id in w.threads ==> GoodThread(w, id, w.threads[id], s256))
    && w.places.Keys == w.stores.issued.Keys
    && GoodRequests(w, s256)
    && GoodTokens(w)
  }

  /** A step that touches neither the pending entries nor the history. */
  lemma QuietKeeps(w: World, id: nat, st: (Stores, Thread), s256: string -> string)
    requires Invariant(w, s256)
    requires st.0.pending == w.stores.pending && st.0.issued == w.stores.issued
    requires st.0.requests == w.stores.requests && st.0.tokens == w.stores.tokens
    requires GoodThread(w, id, st.1, s256)
    ensures Invariant(With(w, id, st), s256)
  {
    var w' := With(w, id, st);
    assert Sent(w'.stores) == Sent(w.stores);
    forall i | i in w'.threads ensures GoodThread(w', i, w'.threads[i], s256) {}
  }

  /** The requests and tokens of the past stay good while no state they concern moves. */
  lemma HistoryKeeps(w: World, w': World, s256: string -> string)
    requires GoodRequests(w, s256) && GoodTokens(w)
    requires w'.stores.requests == w.stores.requests && w'.stores.tokens == w.stores.tokens
    requires forall x :: x in w.stores.issued ==> x in w'.stores.issued && w'.stores.issued[x] == w.stores.issued[x]
    requires forall x :: x in w.places && (w.places[x].SentBy? || w.places[x].Spent?) ==>
               x in w'.places && w'.places[x] == w.places[x]
    ensures Sent(w'.stores) == Sent(w.stores) && GoodRequests(w', s256) && GoodTokens(w')
  {
    assert Sent(w'.stores) == Sent(w.stores);
  }

  /** A handler stays good while the state it holds does not move. */
  lemma ThreadKeeps(w: World, w': World, id: nat, t: Thread, s256: string -> string)
    requires GoodThread(w, id, t, s256) && Sent(w.stores) <= Sent(w'.stores)
    requires forall x :: x in w.stores.issued ==> x in w'.stores.issued && w'.stores.issued[x] == w.stores.issued[x]
    requires forall x :: x in w.places && (w.places[x] == HeldBy(id) || w.places[x] == SentBy(id)) ==>
               x in w'.places && w'.places[x] == w.places[x]
    ensures GoodThread(w', id, t, s256)
  {
  }

  /** Issuing a state changes one pending entry, one history entry and the handler that did it. */
  ghost predicate Issues(w: World, w': World, id: nat, state: string, s256: string -> string) {
    && w'.threads.Keys == w.threads.Keys && id in w'.threads && w'.threads[id].Finished?
    && (forall i :: i in w.threads && i != id ==> w'.threads[i] == w.threads[i])
    && w'.stores.requests == w.stores.requests && w'.stores.tokens == w.stores.tokens
    && w'.stores.pending.Keys == w.stores.pending.Keys + {state}
    && w'.stores.issued.Keys == w.stores.issued.Keys + {state}
    && w'.places == w.places[state := InStore]
    && (forall x :: x in w.stores.pending && x != state ==> w'.stores.pending[x] == w.stores.pending[x])
    && (forall x :: x in w.stores.issued && x != state ==> w'.stores.issued[x] == w.stores.issued[x])
    && Faithful(w'.stores, state, w'.stores.pending[state], s256)
  }

  lemma PutStateIssues(w: World, id: nat, verifier: string, state: string, s256: string -> string)
    requires Enabled(w, PutState(id, verifier, state)) && w.threads[id].registration.authorizationEndpoint != ""
    ensures Issues(w, Act(w, PutState(id, verifier, state), s256), id, state, s256)
  {
  }

  lemma IssuesKeepsThreads(w: World, w': World, id: nat, state: string, s256: string -> string)
    requires Invariant(w, s256) && Issues(w, w', id, state, s256) && state !in w.stores.issued
    ensures forall i :: i in w'.threads ==> GoodThread(w', i, w'.threads[i], s256)
  {
    assert state !in w.places;
    assert Sent(w'.stores) == Sent(w.stores);
    hide GoodRequests, GoodTokens, Sent, GoodThread, Faithful;
    forall i | i in w'.threads ensures GoodThread(w', i, w'.threads[i], s256) {
      if i != id {
        ThreadKeeps(w, w', i, w.threads[i], s256);
      } else {
        FinishedIsGood(w', id, s256);
      }
    }
  }

  lemma IssuesKeepsPending(w: World, w': World, id: nat, state: string, s256: string -> string)
    requires Invariant(w, s256) && Issues(w, w', id, state, s256) && state !in w.stores.issued
    ensures forall x :: x in w'.stores.pending ==>
              x in w'.places && w'.places[x] == InStore && Faithful(w'.stores, x, w'.stores.pending[x], s256)
    ensures w'.places.Keys == w'.stores.issued.Keys
  {
    hide GoodRequests, GoodTokens, GoodThread;
    forall x | x in w'.stores.pending
      ensures x in w'.places && w'.places[x] == InStore && Faithful(w'.stores, x, w'.stores.pending[x], s256)
    {
      if x != state {
        assert x in w.stores.pending && x in w.places && Faithful(w.stores, x, w.stores.pending[x], s256);
      }
    }
  }

  lemma IssuesKeepsHistory(w: World, w': World, id: nat, state: string, s256: string -> string)
    requires GoodRequests(w, s256) && GoodTokens(w)
    requires Issues(w, w', id, state, s256) && state !in w.stores.issued && state !in w.places
    ensures GoodRequests(w', s256) && GoodTokens(w')
  {
    hide GoodRequests, GoodTokens, Faithful;
    HistoryKeeps(w, w', s256);
  }

  lemma IssuesKeeps(w: World, w': World, id: nat, state: string, s256: string -> string)
    requires Invariant(w, s256) && Issues(w, w', id, state, s256) && state !in w.stores.issued
    ensures Invariant(w', s256)
  {
    hide GoodRequests, GoodTokens, GoodThread, Faithful, Issues;
    assert state !in w.places;
    IssuesKeepsHistory(w, w', id, state, s256);
    IssuesKeepsPending(w, w', id, state, s256);
    IssuesKeepsThreads(w, w', id, state, s256);
  }

  lemma PutStateKeeps(w: World, id: nat, verifier: string, state: string, s256: string -> string)
    requires Invariant(w, s256) && Enabled(w, PutState(id, verifier, state))
    ensures Invariant(Act(w, PutState(id, verifier, state), s256), s256)
  {
    var t := w.threads[id];
    if t.registration.authorizationEndpoint == "" {
      hide Invariant;
      QuietKeeps(w, id, IssueState(w.stores, t, verifier, state, s256), s256);
      assert state !in w.stores.issued;
    } else {
      PutStateIssues(w, id, verifier, state, s256);
      hide Invariant, Act, Issues;
      IssuesKeeps(w, Act(w, PutState(id, verifier, state), s256), id, state, s256);
    }
  }

  lemma FinishedIsGood(w: World, id: nat, s256: string -> string)
    requires id in w.threads && w.threads[id].Finished?
    ensures GoodThread(w, id, w.threads[id], s256)
  {
  }

  /** Handler `id` moves the state it works on to `place`. */
  ghost predicate Moves(w: World, w': World, id: nat, state: string, place: Place) {
    && w'.threads.Keys == w.threads.Keys && id in w'.threads
    && (forall i :: i in w.threads && i != id ==> w'.threads[i] == w.threads[i])
    && w'.stores.issued == w.stores.issued
    && w'.stores.pending == w.stores.pending - {state}
    && state in w.places && w.places[state] in {InStore, HeldBy(id), SentBy(id)}
    && w'.places == w.places[state := place]
  }

  lemma MovesKeeps(w: World, w': World, id: nat, state: string, place: Place, s256: string -> string)
    requires Invariant(w, s256) && Moves(w, w', id, state, place) && Sent(w.stores) <= Sent(w'.stores)
    requires GoodThread(w', id, w'.threads[id], s256) && GoodRequests(w', s256) && GoodTokens(w')
    ensures Invariant(w', s256)
  {
    hide GoodRequests, GoodTokens, Sent, GoodThread;
    forall i | i in w'.threads ensures GoodThread(w', i, w'.threads[i], s256) {
      if i != id {
        ThreadKeeps(w, w', i, w.threads[i], s256);
      }
    }
  }

  lemma PopKeeps(w: World, id: nat, s256: string -> string)
    requires Invariant(w, s256) && Enabled(w, Pop(id))
    ensures Invariant(Act(w, Pop(id), s256), s256)
  {
    var t := w.threads[id];
    if t.state in w.stores.pending {
      var w' := Act(w, Pop(id), s256);
      assert w' == World(w.stores.(pending := w.stores.pending - {t.state}),
                         w.threads[id := Popped(t.code, t.state, w.stores.pending[t.state])],
                         w.places[t.state := HeldBy(id)]);
      hide Act;
      assert Faithful(w.stores, t.state, w.stores.pending[t.state], s256) && w.places[t.state] == InStore;
      HistoryKeeps(w, w', s256);
      hide GoodRequests, GoodTokens, Sent;
      assert Moves(w, w', id, t.state, HeldBy(id));
      MovesKeeps(w, w', id, t.state, HeldBy(id), s256);
    } else {
      hide Invariant;
      QuietKeeps(w, id, PopState(w.stores, t), s256);
    }
  }

  lemma SendKeeps(w: World, id: nat, s256: string -> string)
    requires Invariant(w, s256) && Enabled(w, Send(id))
    ensures Invariant(Act(w, Send(id), s256), s256)
  {
    var t := w.threads[id];
    var w' := Act(w, Send(id), s256);
    var r := TokenRequest(t.code, t.entry, t.registration);
    assert w' == World(w.stores.(requests := w.stores.requests + [(t.state, r)]),
                       w.threads[id := Awaiting(t.state, t.entry, t.registration.scopes)],
                       w.places[t.state := SentBy(id)]);
    hide Act;
    assert GoodThread(w, id, t, s256);
    assert r.verifier == t.entry.verifier && (t.entry.tokenEndpoint == "" || r.endpoint == t.entry.tokenEndpoint);
    RequestKeeps(w, w', id, t.state, r, s256);
    hide GoodRequests, GoodTokens, Sent, TokenRequest;
    assert Moves(w, w', id, t.state, SentBy(id)) by {
      assert t.state !in w.stores.pending;
    }
    MovesKeeps(w, w', id, t.state, SentBy(id), s256);
  }

  lemma RequestKeeps(w: World, w': World, id: nat, state: string, r: Request, s256: string -> string)
    requires GoodRequests(w, s256) && GoodTokens(w)
    requires state in w.places && w.places[state] == HeldBy(id) && w'.places == w.places[state := SentBy(id)]
    requires state in w.stores.issued && s256(r.verifier) == w.stores.issued[state].url.challenge
    requires w.stores.issued[state].tokenEndpoint == "" || r.endpoint == w.stores.issued[state].tokenEndpoint
    requires w'.stores == w.stores.(requests := w.stores.requests + [(state, r)])
    ensures Sent(w.stores) <= Sent(w'.stores) && state in Sent(w'.stores)
    ensures GoodRequests(w', s256) && GoodTokens(w')
  {
    var n := |w.stores.requests|;
    assert w'.stores.requests[n].0 == state;
    forall x | x in Sent(w.stores) ensures x in Sent(w'.stores) {
      var i :| 0 <= i < n && w.stores.requests[i].0 == x;
      assert w'.stores.requests[i].0 == x;
    }
  }

  lemma SaveEffect(w: World, id: nat, saving: Saving, s256: string -> string)
    requires Enabled(w, Save(id, saving)) && GoodThread(w, id, w.threads[id], s256)
    requires w.threads[id].state !in w.stores.pending
    ensures var t, w' := w.threads[id], Act(w, Save(id, saving), s256);
            var record := TokenRecord(t.entry.server, t.entry.caller, t.accessToken, t.scopes);
            && w'.stores == w.stores.(tokens := w.stores.tokens + if saving.Saved? then [(t.state, record)] else [])
            && w'.places == w.places[t.state := Spent] && Moves(w, w', id, t.state, Spent)
            && GoodThread(w', id, w'.threads[id], s256)
  {
    assert w.stores.tokens + [] == w.stores.tokens;
  }

  lemma SaveKeeps(w: World, id: nat, saving: Saving, s256: string -> string)
    requires Invariant(w, s256) && Enabled(w, Save(id, saving))
    ensures Invariant(Act(w, Save(id, saving), s256), s256)
  {
    var t := w.threads[id];
    var record := TokenRecord(t.entry.server, t.entry.caller, t.accessToken, t.scopes);
    assert GoodThread(w, id, t, s256);
    assert t.state !in w.stores.pending;
    hide GoodRequests, GoodTokens, Moves, Sent;
    assert Faithful(w.stores, t.state, t.entry, s256) && t.state in Sent(w.stores) && w.places[t.state] == SentBy(id);
    assert GoodRequests(w, s256) && GoodTokens(w);
    SaveEffect(w, id, saving, s256);
    hide Act, GoodThread, Invariant;
    var w' := Act(w, Save(id, saving), s256);
    TokenKeeps(w, w', id, t.state, record, saving.Saved?, s256);
    MovesKeeps(w, w', id, t.state, Spent, s256);
  }

  lemma TokenKeeps(w: World, w': World, id: nat, state: string, record: TokenRecord, saved: bool,
                   s256: string -> string)
    requires GoodRequests(w, s256) && GoodTokens(w)
    requires state in w.places && w.places[state] == SentBy(id) && w'.places == w.places[state := Spent]
    requires state in Sent(w.stores) && state in w.stores.issued
    requires record.server == w.stores.issued[state].server && record.caller == w.stores.issued[state].caller
    requires w'.stores == w.stores.(tokens := w.stores.tokens + if saved then [(state, record)] else [])
    ensures Sent(w.stores) == Sent(w'.stores) && GoodRequests(w', s256) && GoodTokens(w')
  {
    assert Sent(w'.stores) == Sent(w.stores);
  }

  lemma ActKeeps(w: World, a: Action, s256: string -> string)
    requires Invariant(w, s256) && Enabled(w, a)
    ensures Invariant(Act(w, a, s256), s256)
  {
    match a
    case Authorize(id, servers, server, caller) =>
      hide Invariant;
      QuietKeeps(w, id, (w.stores, BeginAuthorize(servers, server, caller)), s256);
    case FindRegistration(id) =>
      hide Invariant;
      QuietKeeps(w, id, (w.stores, LookUp(w.stores, w.threads[id])), s256);
    case RunDiscovery(id, found) =>
      hide Invariant;
      QuietKeeps(w, id, Discover(w.stores, w.threads[id], found), s256);
    case PutState(id, verifier, state) => PutStateKeeps(w, id, verifier, state, s256);
    case Callback(id, code, state, error) =>
      hide Invariant;
      QuietKeeps(w, id, (w.stores, BeginCallback(code, state, error)), s256);
    case Pop(id) => PopKeeps(w, id, s256);
    case FindAgain(id) =>
      assert GoodThread(w, id, w.threads[id], s256);
      hide Invariant;
      QuietKeeps(w, id, (w.stores, LookUpAgain(w.stores, w.threads[id])), s256);
    case Send(id) => SendKeeps(w, id, s256);
    case Receive(id, reply) =>
      assert GoodThread(w, id, w.threads[id], s256);
      hide Invariant;
      QuietKeeps(w, id, (w.stores, ReadReply(w.threads[id], reply)), s256);
    case Save(id, saving) => SaveKeeps(w, id, saving, s256);
    case Expire(state) => ExpireKeeps(w, state, s256);
  }

  lemma ExpireKeeps(w: World, state: string, s256: string -> string)
    requires Invariant(w, s256)
    ensures Invariant(Act(w, Expire(state), s256), s256)
  {
    var w' := Act(w, Expire(state), s256);
    assert Sent(w'.stores) == Sent(w.stores);
    forall i | i in w'.threads ensures GoodThread(w', i, w'.threads[i], s256) {}
  }

  lemma {:induction false} RunKeeps(w: World, run: seq<Action>, s256: string -> string)
    requires Invariant(w, s256) && Possible(w, run, s256)
    ensures Invariant(After(w, run, s256), s256)
    decreases |run|
  {
    if run != [] {
      ActKeeps(w, run[0], s256);
      hide Invariant, Act;
      RunKeeps(Act(w, run[0], s256), run[1..], s256);
    }
  }

  /** However the handlers interleave: each state leads to at most one token request and at most one
      saved token; the verifier sent is the one whose challenge the authorize step returned with that
      state (sections 4.1 to 4.6 of RFC 7636), and it goes to the token endpoint that the authorize step
      recorded, when it had one; and every token saved belongs to the tenant, the user and the server of
      that authorize step. */
  lemma DanceIsSafe(run: seq<Action>, s256: string -> string)
    requires Possible(INITIAL, run, s256)
    ensures var s := After(INITIAL, run, s256).stores;
            && (forall i, j :: 0 <= i < j < |s.requests| ==> s.requests[i].0 != s.requests[j].0)
            && (forall i :: 0 <= i < |s.requests| ==>
                  var (state, r) := s.requests[i];
                  && state in s.issued && s256(r.verifier) == s.issued[state].url.challenge
                  && (s.issued[state].tokenEndpoint != "" ==> r.endpoint == s.issued[state].tokenEndpoint))
            && (forall i, j :: 0 <= i < j < |s.tokens| ==> s.tokens[i].0 != s.tokens[j].0)
            && (forall i :: 0 <= i < |s.tokens| ==>
                  var (state, t) := s.tokens[i];
                  && state in Sent(s) && state in s.issued
                  && t.caller == s.issued[state].caller && t.server == s.issued[state].server)
  {
    assert Invariant(INITIAL, s256);
    RunKeeps(INITIAL, run, s256);
    hide After, Possible, Faithful, GoodThread, Sent;
  }

  // ---------------------------------------------------------------------------
  // The handlers run without interruption.

  function AuthorizeAlone(s: Stores, servers: Option<set<string>>, server: string, caller: Caller,
                          found: Option<Registration>, verifier: string, state: string,
                          s256: string -> string): (Stores, Response)
  {
    var t0 := BeginAuthorize(servers, server, caller);
    if t0.Finished? then (s, t0.response) else FromLookUp(s, LookUp(s, t0), found, verifier, state, s256)
  }

  function FromLookUp(s: Stores, t: Thread, found: Option<Registration>, verifier: string, state: string,
                      s256: string -> string): (Stores, Response)
    requires t.Discovering? || t.Registered?
  {
    var (s', t') := if t.Discovering? then Discover(s, t, found) else (s, t);
    if t'.Finished? then (s', t'.response) else
    var (s'', done) := IssueState(s', t', verifier, state, s256);
    (s'', done.response)
  }

  function CallbackAlone(s: Stores, code: string, state: string, error: string,
                         reply: Reply, saving: Saving): (Stores, Response)
  {
    var t := BeginCallback(code, state, error);
    if t.Finished? then (s, t.response) else FromReturned(s, t, reply, saving)
  }

  function FromReturned(s: Stores, t: Thread, reply: Reply, saving: Saving): (Stores, Response)
    requires t.Returned?
  {
    var (s', t') := PopState(s, t);
    if t'.Finished? then (s', t'.response) else FromPopped(s', t', reply, saving)
  }

  function FromPopped(s: Stores, t: Thread, reply: Reply, saving: Saving): (Stores, Response)
    requires t.Popped?
  {
    var t' := LookUpAgain(s, t);
    if t'.Finished? then (s, t'.response) else FromExchanging(s, t', reply, saving)
  }

  function FromExchanging(s: Stores, t: Thread, reply: Reply, saving: Saving): (Stores, Response)
    requires t.Exchanging?
  {
    var (s', t') := SendRequest(s, t);
    var t'' := ReadReply(t', reply);
    if t''.Finished? then (s', t''.response)
    else
      var (s'', done) := SaveToken(s', t'', saving);
      (s'', done.response)
  }

  /** The stores as the program holds them, and the two handlers from start to finish. */
  class AuthRouter {
    var pending: map<string, Pending>
    var registrations: map<string, Registration>
    var tokens: seq<(string, TokenRecord)>
    var requests: seq<(string, Request)>
    ghost var issued: map<string, Issue>

    ghost function Value(): Stores
      reads this
    {
      Stores(pending, registrations, issued, requests, tokens)
    }

    method GetAuthorizeUrl(servers: Option<set<string>>, server: string, caller: Caller, found: Option<Registration>,
                           verifier: string, state: string, s256: string -> string) returns (r: Response)
      modifies this
      ensures (Value(), r) == AuthorizeAlone(old(Value()), servers, server, caller, found, verifier, state, s256)
    {
      if servers.None? {
        return Page(404);
      }
      if server !in servers.value {
        return Page(404);
      }
      var registration: Registration;
      if server in registrations {
        registration := registrations[server];
      } else {
        if found.None? {
          return Page(502);
        }
        registration := found.value;
        registrations := registrations[server := registration];
      }
      if registration.authorizationEndpoint == "" {
        return Page(500);
      }
      pending := pending[state := Pending(server, caller, verifier, registration.tokenEndpoint)];
      var scope := if registration.scopes == "" then "openid" else registration.scopes;
      var url := AuthorizeUrl(registration.authorizationEndpoint, registration.clientId, scope, state, s256(verifier));
      issued := issued[state := Issue(server, caller, registration.tokenEndpoint, url)];
      return Redirect(url);
    }

    method OauthCallback(code: string, state: string, error: string, reply: Reply, saving: Saving) returns (r: Response)
      modifies this
      ensures (Value(), r) == CallbackAlone(old(Value()), code, state, error, reply, saving)
    {
      if error != "" {
        return Page(400);
      }
      if code == "" || state == "" {
        return Page(400);
      }
      if state !in pending {
        return Page(400);
      }
      var entry := pending[state];
      pending := pending - {state};
      if entry.server !in registrations {
        return Page(500);
      }
      var registration := registrations[entry.server];
      var endpoint := if entry.tokenEndpoint != "" then entry.tokenEndpoint else registration.tokenEndpoint;
      if endpoint == "" {
        return Page(500);
      }
      var bodySecret, basicSecret := None, None;
      if registration.clientSecret != "" {
        if registration.basicAuth {
          basicSecret := Some(registration.clientSecret);
        } else {
          bodySecret := Some(registration.clientSecret);
        }
      }
      var request := Request(endpoint, code, registration.clientId, entry.verifier, bodySecret, basicSecret);
      requests := requests + [(state, request)];
      match reply
      case Refused(status) => return Page(status);
      case Malformed => return Crash;
      case Granted(token) =>
        var record := TokenRecord(entry.server, entry.caller, token, registration.scopes);
        match saving
        case NoStore => return Page(200);
        case SaveFails => return Crash;
        case Saved =>
          tokens := tokens + [(state, record)];
          return Page(200);
    }
  }

  /** The run leaves these stores and this response for handler `id`. */
  ghost predicate Leads(w: World, run: seq<Action>, s256: string -> string, id: nat, outcome: (Stores, Response)) {
    && Possible(w, run, s256)
    && After(w, run, s256).stores == outcome.0
    && id in After(w, run, s256).threads && After(w, run, s256).threads[id] == Finished(outcome.1)
  }

  /** A callback that nothing interrupts is one of the interleavings. */
  lemma CallbackIsRun(w: World, id: nat, code: string, state: string, error: string,
                      reply: Reply, saving: Saving, s256: string -> string)
    returns (run: seq<Action>)
    requires id !in w.threads
    ensures Leads(w, run, s256, id, CallbackAlone(w.stores, code, state, error, reply, saving))
  {
    var w1 := Act(w, Callback(id, code, state, error), s256);
    run := [];
    if w1.threads[id].Returned? {
      run := RunFromReturned(w1, id, reply, saving, s256);
    }
    hide FromReturned;
    run := Prepend(w, Callback(id, code, state, error), run, s256);
  }

  lemma RunFromReturned(w: World, id: nat, reply: Reply, saving: Saving, s256: string -> string)
    returns (run: seq<Action>)
    requires id in w.threads && w.threads[id].Returned?
    ensures Leads(w, run, s256, id, FromReturned(w.stores, w.threads[id], reply, saving))
  {
    var w1 := Act(w, Pop(id), s256);
    run := [];
    if w1.threads[id].Popped? {
      run := RunFromPopped(w1, id, reply, saving, s256);
    }
    hide FromPopped;
    run := Prepend(w, Pop(id), run, s256);
  }

  lemma RunFromPopped(w: World, id: nat, reply: Reply, saving: Saving, s256: string -> string)
    returns (run: seq<Action>)
    requires id in w.threads && w.threads[id].Popped?
    ensures Leads(w, run, s256, id, FromPopped(w.stores, w.threads[id], reply, saving))
  {
    var w1 := Act(w, FindAgain(id), s256);
    run := [];
    if w1.threads[id].Exchanging? {
      run := RunFromExchanging(w1, id, reply, saving, s256);
    }
    hide FromExchanging;
    run := Prepend(w, FindAgain(id), run, s256);
  }

  lemma RunFromExchanging(w: World, id: nat, reply: Reply, saving: Saving, s256: string -> string)
    returns (run: seq<Action>)
    requires id in w.threads && w.threads[id].Exchanging?
    ensures Leads(w, run, s256, id, FromExchanging(w.stores, w.threads[id], reply, saving))
  {
    var w1 := Act(w, Send(id), s256);
    var w2 := Act(w1, Receive(id, reply), s256);
    run := [];
    if w2.threads[id].Exchanged? {
      run := Prepend(w2, Save(id, saving), [], s256);
    }
    run := Prepend(w1, Receive(id, reply), run, s256);
    run := Prepend(w, Send(id), run, s256);
  }

  lemma Prepend(w: World, a: Action, rest: seq<Action>, s256: string -> string) returns (run: seq<Action>)
    requires Enabled(w, a) && Possible(Act(w, a, s256), rest, s256)
    ensures Possible(w, run, s256) && After(w, run, s256) == After(Act(w, a, s256), rest, s256)
  {
    run := [a] + rest;
    assert run[1..] == rest;
  }

  lemma RunFromLookUp(w: World, id: nat, found: Option<Registration>, verifier: string, state: string,
                      s256: string -> string)
    returns (run: seq<Action>)
    requires id in w.threads && (w.threads[id].Discovering? || w.threads[id].Registered?)
    requires state !in w.stores.issued
    ensures Leads(w, run, s256, id, FromLookUp(w.stores, w.threads[id], found, verifier, state, s256))
  {
    if w.threads[id].Discovering? {
      var w1 := Act(w, RunDiscovery(id, found), s256);
      run := [];
      if w1.threads[id].Registered? {
        run := Prepend(w1, PutState(id, verifier, state), [], s256);
      }
      run := Prepend(w, RunDiscovery(id, found), run, s256);
    } else {
      run := Prepend(w, PutState(id, verifier, state), [], s256);
    }
  }

  /** So is an authorize step that nothing interrupts, when its random state is new. */
  lemma AuthorizeIsRun(w: World, id: nat, servers: Option<set<string>>, server: string, caller: Caller,
                       found: Option<Registration>, verifier: string, state: string, s256: string -> string)
    returns (run: seq<Action>)
    requires id !in w.threads && state !in w.stores.issued
    ensures Leads(w, run, s256, id, AuthorizeAlone(w.stores, servers, server, caller, found, verifier, state, s256))
  {
    var w1 := Act(w, Authorize(id, servers, server, caller), s256);
    run := [];
    if w1.threads[id].Authorizing? {
      var w2 := Act(w1, FindRegistration(id), s256);
      run := RunFromLookUp(w2, id, found, verifier, state, s256);
      run := Prepend(w1, FindRegistration(id), run, s256);
    }
    hide FromLookUp;
    run := Prepend(w, Authorize(id, servers, server, caller), run, s256);
  }

  /** The dance completes: while the entry of an issued state is still stored, a callback with that state
      that is granted a token saves it for the user, tenant and server of the authorize step; and the same
      callback again is turned away and changes nothing. */
  lemma DanceCompletes(w: World, state: string, code: string, token: string, reply: Reply, saving: Saving,
                       s256: string -> string)
    requires Invariant(w, s256) && state in w.stores.pending && state != "" && code != ""
    requires var p := w.stores.pending[state];
             && p.server in w.stores.registrations
             && (p.tokenEndpoint != "" || w.stores.registrations[p.server].tokenEndpoint != "")
    ensures var (s, r) := CallbackAlone(w.stores, code, state, "", Granted(token), Saved);
            var issue := w.stores.issued[state];
            && r == Page(200) && |s.tokens| == |w.stores.tokens| + 1
            && s.tokens[|s.tokens| - 1].0 == state
            && s.tokens[|s.tokens| - 1].1.caller == issue.caller && s.tokens[|s.tokens| - 1].1.server == issue.server
            && s.tokens[|s.tokens| - 1].1.accessToken == token
            && CallbackAlone(s, code, state, "", reply, saving) == (s, Page(400))
  {
    assert Faithful(w.stores, state, w.stores.pending[state], s256);
  }
}
