/** Where everything in the dance comes from: what the handlers issue, send and save, traced back to what the
    run was told from outside. */
module OAuthProvenance {
  import opened Text
  import opened OAuthDance

  /** What a run was told: the servers asked for and registered, with who asked; the registrations that
      discovery found; the states and codes that callbacks without an error brought; and the tokens granted
      for a state. */
  datatype Told = Told(
    asked: set<(string, Caller)>, found: set<(string, Registration)>,
    called: set<(string, string)>, granted: set<(string, string)>)

  const NOTHING := Told({}, {}, {}, {})

  function ToldBy(w: World, a: Action): Told
    requires Enabled(w, a)
  {
    match a
    case Authorize(_, servers, server, caller) =>
      if servers.Some? && server in servers.value then NOTHING.(asked := {(server, caller)}) else NOTHING
    case RunDiscovery(id, found) =>
      if found.Some? then NOTHING.(found := {(w.threads[id].server, found.value)}) else NOTHING
    case Callback(_, code, state, error) =>
      if error == "" then NOTHING.(called := {(state, code)}) else NOTHING
    case Receive(id, reply) =>
      if reply.Granted? then NOTHING.(granted := {(w.threads[id].state, reply.accessToken)}) else NOTHING
    case _ => NOTHING
  }

  function ToldIn(w: World, run: seq<Action>, s256: string -> string): Told
    requires Possible(w, run, s256)
    decreases |run|
  {
    if run == [] then NOTHING
    else
      var a, b := ToldBy(w, run[0]), ToldIn(Act(w, run[0], s256), run[1..], s256);
      Told(a.asked + b.asked, a.found + b.found, a.called + b.called, a.granted + b.granted)
  }

  predicate Within(a: Told, b: Told) {
    a.asked <= b.asked && a.found <= b.found && a.called <= b.called && a.granted <= b.granted
  }

  // ---------------------------------------------------------------------------
  // What comes from what.

  /** The URL leads to the authorization endpoint of the registration, as its client, for its scopes. */
  ghost predicate LeadsTo(url: AuthorizeUrl, r: Registration) {
    && url.endpoint == r.authorizationEndpoint && r.authorizationEndpoint != "" && url.clientId == r.clientId
    && url.scope == if r.scopes != "" then r.scopes else "openid"
  }

  ghost predicate IssuedBy(told: Told, state: string, issue: Issue) {
    && (issue.server, issue.caller) in told.asked && issue.url.state == state
    && exists r :: (issue.server, r) in told.found && LeadsTo(issue.url, r) && issue.tokenEndpoint == r.tokenEndpoint
  }

  /** The request authenticates as the registration asks: with its secret in the header when it uses Basic
      authentication, in the body when it does not, and with none when it has none. */
  ghost predicate Authenticates(q: Request, r: Registration) {
    && q.clientId == r.clientId
    && (q.basicSecret.Some? <==> r.clientSecret != "" && r.basicAuth)
    && (q.bodySecret.Some? <==> r.clientSecret != "" && !r.basicAuth)
    && (q.basicSecret.Some? ==> q.basicSecret.value == r.clientSecret)
    && (q.bodySecret.Some? ==> q.bodySecret.value == r.clientSecret)
  }

  ghost predicate SentFor(told: Told, state: string, issue: Issue, q: Request) {
    && (state, q.code) in told.called && q.code != "" && state != ""
    && exists r :: (issue.server, r) in told.found && Authenticates(q, r)
              && q.endpoint == if issue.tokenEndpoint != "" then issue.tokenEndpoint else r.tokenEndpoint
  }

  ghost predicate SavedFor(told: Told, state: string, issue: Issue, t: TokenRecord) {
    && (state, t.accessToken) in told.granted && t.server == issue.server && t.caller == issue.caller
    && exists r :: (issue.server, r) in told.found && t.scopes == r.scopes
  }

  // ---------------------------------------------------------------------------
  // The invariant.

  ghost predicate Scopes(told: Told, server: string, scopes: string) {
    exists r :: (server, r) in told.found && scopes == r.scopes
  }

  ghost predicate TracedThread(told: Told, t: Thread) {
    match t
    case Authorizing(server, caller) => (server, caller) in told.asked
    case Discovering(server, caller) => (server, caller) in told.asked
    case Registered(server, caller, r) => (server, caller) in told.asked && (server, r) in told.found
    case Returned(code, state) => (state, code) in told.called && code != "" && state != ""
    case Popped(code, state, _) => (state, code) in told.called && code != "" && state != ""
    case Exchanging(code, state, entry, r) =>
      (state, code) in told.called && code != "" && state != "" && (entry.server, r) in told.found
    case Awaiting(_, entry, scopes) => Scopes(told, entry.server, scopes)
    case Exchanged(state, entry, scopes, token) =>
      Scopes(told, entry.server, scopes) && (state, token) in told.granted
    case Finished(_) => true
  }

  /** Everything stored, issued, sent and saved has its source. */
  ghost predicate TracedStores(told: Told, s: Stores) {
    && (forall server :: server in s.registrations ==> (server, s.registrations[server]) in told.found)
    && (forall x :: x in s.issued ==> IssuedBy(told, x, s.issued[x]))
    && (forall i :: 0 <= i < |s.requests| ==>
          s.requests[i].0 in s.issued && SentFor(told, s.requests[i].0, s.issued[s.requests[i].0], s.requests[i].1))
    && (forall i :: 0 <= i < |s.tokens| ==>
          s.tokens[i].0 in s.issued && SavedFor(told, s.tokens[i].0, s.issued[s.tokens[i].0], s.tokens[i].1))
  }

  ghost predicate Traced(told: Told, w: World) {
    TracedStores(told, w.stores) && forall id :: id in w.threads ==> TracedThread(told, w.threads[id])
  }

  lemma WithTraced(told: Told, w: World, w': World, id: nat, t: Thread)
    requires Traced(told, w) && w'.threads == w.threads[id := t]
    requires TracedStores(told, w'.stores) && TracedThread(told, t)
    ensures Traced(told, w')
  {
    hide TracedStores, TracedThread;
  }

  /** The steps that only move their handler on. */
  lemma QuietTraced(told: Told, w: World, a: Action, s256: string -> string)
    requires Traced(told, w) && Enabled(w, a) && Within(ToldBy(w, a), told)
    requires a.Authorize? || a.FindRegistration? || a.Callback? || a.Pop? || a.FindAgain? || a.Receive?
    ensures Traced(told, Act(w, a, s256))
  {
    var w' := Act(w, a, s256);
    assert a.id in w.threads ==> TracedThread(told, w.threads[a.id]);
    hide LeadsTo, IssuedBy, SentFor, SavedFor, Scopes;
    assert TracedStores(told, w'.stores);
    assert TracedThread(told, w'.threads[a.id]);
    hide TracedStores, TracedThread;
  }

  lemma DiscoveryTraced(told: Told, w: World, id: nat, found: Option<Registration>, s256: string -> string)
    requires Traced(told, w) && Enabled(w, RunDiscovery(id, found)) && Within(ToldBy(w, RunDiscovery(id, found)), told)
    ensures Traced(told, Act(w, RunDiscovery(id, found), s256))
  {
    var w' := Act(w, RunDiscovery(id, found), s256);
    assert TracedThread(told, w.threads[id]);
    hide LeadsTo, IssuedBy, SentFor, SavedFor, Scopes;
    WithTraced(told, w, w', id, w'.threads[id]);
  }

  /** The issued state is new, so one entry joins the history. */
  lemma PutStep(w: World, id: nat, verifier: string, state: string, s256: string -> string)
    requires Enabled(w, PutState(id, verifier, state))
    ensures var r, w' := w.threads[id].registration, Act(w, PutState(id, verifier, state), s256);
            && w'.threads == w.threads[id := w'.threads[id]] && w'.threads[id].Finished?
            && w'.stores.registrations == w.stores.registrations
            && w'.stores.requests == w.stores.requests && w'.stores.tokens == w.stores.tokens
            && (if r.authorizationEndpoint == "" then w'.stores.issued == w.stores.issued
                else state in w'.stores.issued && w'.stores.issued == w.stores.issued[state := w'.stores.issued[state]]
                     && var issue := w'.stores.issued[state];
                        && issue.server == w.threads[id].server && issue.caller == w.threads[id].caller
                        && issue.url.state == state && LeadsTo(issue.url, r) && issue.tokenEndpoint == r.tokenEndpoint)
  {
  }

  lemma AtThread(told: Told, w: World, id: nat, s256: string -> string)
    requires Traced(told, w) && Invariant(w, s256) && id in w.threads
    ensures TracedStores(told, w.stores) && TracedThread(told, w.threads[id])
    ensures w.threads[id].Exchanging? || w.threads[id].Exchanged? ==>
              Faithful(w.stores, w.threads[id].state, w.threads[id].entry, s256)
  {
    hide TracedStores, TracedThread, Faithful;
    assert GoodThread(w, id, w.threads[id], s256);
  }

  lemma IssueTraced(told: Told, s: Stores, s': Stores, t: Thread, state: string)
    requires TracedStores(told, s) && t.Registered? && TracedThread(told, t)
    requires s'.registrations == s.registrations && s'.requests == s.requests && s'.tokens == s.tokens
    requires state !in s.issued && state in s'.issued && s'.issued == s.issued[state := s'.issued[state]]
    requires var issue := s'.issued[state];
             && issue.server == t.server && issue.caller == t.caller && issue.url.state == state
             && LeadsTo(issue.url, t.registration) && issue.tokenEndpoint == t.registration.tokenEndpoint
    ensures TracedStores(told, s')
  {
    hide LeadsTo, SentFor, SavedFor;
    assert IssuedBy(told, state, s'.issued[state]);
    hide IssuedBy;
  }

  lemma PutTraced(told: Told, w: World, id: nat, verifier: string, state: string, s256: string -> string)
    requires Traced(told, w) && Enabled(w, PutState(id, verifier, state)) && Invariant(w, s256)
    ensures Traced(told, Act(w, PutState(id, verifier, state), s256))
  {
    hide Act, Invariant, Traced, TracedStores, TracedThread, LeadsTo;
    var w', t := Act(w, PutState(id, verifier, state), s256), w.threads[id];
    AtThread(told, w, id, s256);
    PutStep(w, id, verifier, state, s256);
    if t.registration.authorizationEndpoint != "" {
      IssueTraced(told, w.stores, w'.stores, t, state);
    } else {
      SameHistory(told, w.stores, w'.stores);
    }
    WithFinished(told, w, w', id);
  }

  lemma SameHistory(told: Told, s: Stores, s': Stores)
    requires TracedStores(told, s) && s'.registrations == s.registrations && s'.issued == s.issued
    requires s'.requests == s.requests && s'.tokens == s.tokens
    ensures TracedStores(told, s')
  {
    hide IssuedBy, SentFor, SavedFor;
  }

  lemma WithFinished(told: Told, w: World, w': World, id: nat)
    requires Traced(told, w) && id in w'.threads && w'.threads == w.threads[id := w'.threads[id]]
    requires TracedStores(told, w'.stores) && w'.threads[id].Finished?
    ensures Traced(told, w')
  {
    hide Traced, TracedStores;
    WithTraced(told, w, w', id, w'.threads[id]);
  }

  lemma SendStep(w: World, id: nat, s256: string -> string)
    requires Enabled(w, Send(id))
    ensures var t, w' := w.threads[id], Act(w, Send(id), s256);
            var q := TokenRequest(t.code, t.entry, t.registration);
            && w'.stores == w.stores.(requests := w.stores.requests + [(t.state, q)])
            && w'.threads == w.threads[id := Awaiting(t.state, t.entry, t.registration.scopes)]
  {
  }

  lemma RequestFor(told: Told, t: Thread, issue: Issue)
    requires t.Exchanging? && TracedThread(told, t)
    requires t.entry.server == issue.server && t.entry.tokenEndpoint == issue.tokenEndpoint
    ensures SentFor(told, t.state, issue, TokenRequest(t.code, t.entry, t.registration))
    ensures TracedThread(told, Awaiting(t.state, t.entry, t.registration.scopes))
  {
    var q := TokenRequest(t.code, t.entry, t.registration);
    assert Authenticates(q, t.registration);
  }

  lemma RequestTraced(told: Told, s: Stores, s': Stores, state: string, q: Request)
    requires TracedStores(told, s) && state in s.issued && SentFor(told, state, s.issued[state], q)
    requires s' == s.(requests := s.requests + [(state, q)])
    ensures TracedStores(told, s')
  {
    hide IssuedBy, SentFor, SavedFor;
  }

  lemma SendTraced(told: Told, w: World, id: nat, s256: string -> string)
    requires Traced(told, w) && Enabled(w, Send(id)) && Invariant(w, s256)
    ensures Traced(told, Act(w, Send(id), s256))
  {
    hide Act, Invariant, Traced, TracedStores, TracedThread, TokenRequest, SentFor;
    var w', t := Act(w, Send(id), s256), w.threads[id];
    AtThread(told, w, id, s256);
    SendStep(w, id, s256);
    RequestFor(told, t, w.stores.issued[t.state]);
    RequestTraced(told, w.stores, w'.stores, t.state, TokenRequest(t.code, t.entry, t.registration));
    WithTraced(told, w, w', id, Awaiting(t.state, t.entry, t.registration.scopes));
  }

  lemma SaveStep(w: World, id: nat, saving: Saving, s256: string -> string)
    requires Enabled(w, Save(id, saving))
    ensures var t, w' := w.threads[id], Act(w, Save(id, saving), s256);
            var record := TokenRecord(t.entry.server, t.entry.caller, t.accessToken, t.scopes);
            && w'.stores == w.stores.(tokens := w.stores.tokens + if saving.Saved? then [(t.state, record)] else [])
            && w'.threads == w.threads[id := w'.threads[id]] && w'.threads[id].Finished?
  {
    assert w.stores.tokens + [] == w.stores.tokens;
  }

  lemma TokenTraced(told: Told, s: Stores, s': Stores, t: Thread, saved: bool)
    requires TracedStores(told, s) && t.Exchanged? && TracedThread(told, t) && t.state in s.issued
    requires t.entry.server == s.issued[t.state].server && t.entry.caller == s.issued[t.state].caller
    requires var record := TokenRecord(t.entry.server, t.entry.caller, t.accessToken, t.scopes);
             s' == s.(tokens := s.tokens + if saved then [(t.state, record)] else [])
    ensures TracedStores(told, s')
  {
    var record := TokenRecord(t.entry.server, t.entry.caller, t.accessToken, t.scopes);
    assert SavedFor(told, t.state, s.issued[t.state], record);
    hide IssuedBy, SentFor, SavedFor;
  }

  lemma SaveTraced(told: Told, w: World, id: nat, saving: Saving, s256: string -> string)
    requires Traced(told, w) && Enabled(w, Save(id, saving)) && Invariant(w, s256)
    ensures Traced(told, Act(w, Save(id, saving), s256))
  {
    hide Act, Invariant, Traced, TracedStores, TracedThread;
    var w', t := Act(w, Save(id, saving), s256), w.threads[id];
    AtThread(told, w, id, s256);
    SaveStep(w, id, saving, s256);
    TokenTraced(told, w.stores, w'.stores, t, saving.Saved?);
    WithFinished(told, w, w', id);
  }

  lemma ActTraced(told: Told, w: World, a: Action, s256: string -> string)
    requires Traced(told, w) && Enabled(w, a) && Within(ToldBy(w, a), told) && Invariant(w, s256)
    ensures Traced(told, Act(w, a, s256))
  {
    hide Traced, Invariant, Within, ToldBy;
    match a
    case RunDiscovery(id, found) => DiscoveryTraced(told, w, id, found, s256);
    case PutState(id, verifier, state) => PutTraced(told, w, id, verifier, state, s256);
    case Send(id) => SendTraced(told, w, id, s256);
    case Save(id, saving) => SaveTraced(told, w, id, saving, s256);
    case Expire(state) => ExpireTraced(told, w, state, s256);
    case _ => QuietTraced(told, w, a, s256);
  }

  lemma ExpireTraced(told: Told, w: World, state: string, s256: string -> string)
    requires Traced(told, w)
    ensures Traced(told, Act(w, Expire(state), s256))
  {
    hide IssuedBy, SentFor, SavedFor, TracedThread;
  }

  lemma {:induction false} RunTraced(told: Told, w: World, run: seq<Action>, s256: string -> string)
    requires Traced(told, w) && Invariant(w, s256) && Possible(w, run, s256) && Within(ToldIn(w, run, s256), told)
    ensures Traced(told, After(w, run, s256))
    decreases |run|
  {
    if run != [] {
      hide Invariant, Act, Traced, ToldBy;
      ActKeeps(w, run[0], s256);
      ActTraced(told, w, run[0], s256);
      RunTraced(told, Act(w, run[0], s256), run[1..], s256);
    }
  }

  /** However the handlers interleave. Every state is issued for a registered server and the user who asked for
      it, with a URL that leads to the authorization endpoint, the client and the scopes of one registration
      that was found for that server. Every token request was called for by a callback without an error, with
      its code, and authenticates as a registration found for the server asks. Every token saved was granted
      for its state, and carries the scopes of a registration found for the server. */
  lemma EverythingHasASource(run: seq<Action>, s256: string -> string)
    requires Possible(INITIAL, run, s256)
    ensures TracedStores(ToldIn(INITIAL, run, s256), After(INITIAL, run, s256).stores)
  {
    assert Invariant(INITIAL, s256);
    RunTraced(ToldIn(INITIAL, run, s256), INITIAL, run, s256);
    hide After, Possible, ToldIn, TracedStores;
  }
}
