/** Each handler alone, in all of its outcomes; and as which client an authorization code is exchanged, since
    the callback looks the registration of the server up again and it may have been replaced. */
module OAuthClients {
  import opened Text
  import opened OAuthDance
  import opened OAuthProvenance

  // ---------------------------------------------------------------------------
  // Outcomes.

  /** The registration that the authorize step goes by: the stored one, or else the one it discovers. */
  function Known(s: Stores, server: string, found: Option<Registration>): Option<Registration> {
    if server in s.registrations then Some(s.registrations[server]) else found
  }

  /** The authorize step: it redirects exactly for a registered server whose registration has an authorization
      endpoint, and then the state is pending; otherwise no state is issued. */
  lemma AuthorizeExactly(s: Stores, servers: Option<set<string>>, server: string, caller: Caller,
                         found: Option<Registration>, verifier: string, state: string, s256: string -> string)
    ensures var (s', r) := AuthorizeAlone(s, servers, server, caller, found, verifier, state, s256);
            var listed, known := servers.Some? && server in servers.value, Known(s, server, found);
            && (!listed <==> r == Page(404))
            && (listed && known.None? <==> r == Page(502))
            && (listed && known.Some? && known.value.authorizationEndpoint == "" <==> r == Page(500))
            && (r.Redirect? <==> listed && known.Some? && known.value.authorizationEndpoint != "")
            && (r.Redirect? ==>
                  && LeadsTo(r.url, known.value) && r.url.state == state && r.url.challenge == s256(verifier)
                  && s'.pending == s.pending[state := Pending(server, caller, verifier, known.value.tokenEndpoint)])
            && (!r.Redirect? ==> s'.pending == s.pending && s'.issued == s.issued)
            && s'.registrations ==
               (if listed && known.Some? then s.registrations[server := known.value] else s.registrations)
            && s'.requests == s.requests && s'.tokens == s.tokens
  {
    if server in s.registrations {
      assert s.registrations[server := s.registrations[server]] == s.registrations;
    }
  }

  /** The callback is for a stored state: it brings no error, but a code and a state that is pending. */
  predicate Hits(s: Stores, code: string, state: string, error: string) {
    error == "" && code != "" && state != "" && state in s.pending
  }

  /** And there is somewhere to send the code to. */
  predicate Exchanges(s: Stores, code: string, state: string, error: string) {
    && Hits(s, code, state, error) && s.pending[state].server in s.registrations
    && (s.pending[state].tokenEndpoint != "" || s.registrations[s.pending[state].server].tokenEndpoint != "")
  }

  /** The callback: a stored state is taken out of the store whatever follows, and no other callback takes one;
      a code is exchanged exactly when there is somewhere to send it; and a token is saved exactly when one is
      granted and stored. */
  lemma CallbackExactly(s: Stores, code: string, state: string, error: string, reply: Reply, saving: Saving)
    ensures var (s', r) := CallbackAlone(s, code, state, error, reply, saving);
            && s'.pending == (if Hits(s, code, state, error) then s.pending - {state} else s.pending)
            && s'.registrations == s.registrations && s'.issued == s.issued
            && (!Hits(s, code, state, error) ==> r == Page(400))
            && (Hits(s, code, state, error) && !Exchanges(s, code, state, error) ==> r == Page(500))
            && (!Exchanges(s, code, state, error) ==> s'.requests == s.requests && s'.tokens == s.tokens)
    ensures Exchanges(s, code, state, error) ==>
              var (s', r) := CallbackAlone(s, code, state, error, reply, saving);
              var entry, now := s.pending[state], s.registrations[s.pending[state].server];
              && s'.requests == s.requests + [(state, TokenRequest(code, entry, now))]
              && s'.tokens == (if reply.Granted? && saving.Saved?
                               then s.tokens + [(state, TokenRecord(entry.server, entry.caller, reply.accessToken,
                                                                    now.scopes))]
                               else s.tokens)
              && (r == Page(200) <== reply.Granted? && !saving.SaveFails?)
              && (r == Crash <==> reply.Malformed? || (reply.Granted? && saving.SaveFails?))
              && (reply.Refused? ==> r == Page(reply.status))
  {
  }

  // ---------------------------------------------------------------------------
  // Clients.

  /** The token request of a callback, exactly: it authenticates as the registration now stored for the server
      asks, and so it is sent as the client of the URL if and only if that registration is still the client's. */
  lemma ClientExactly(w: World, state: string, code: string, reply: Reply, saving: Saving, s256: string -> string)
    requires Invariant(w, s256) && Exchanges(w.stores, code, state, "")
    ensures var s, issue := CallbackAlone(w.stores, code, state, "", reply, saving).0, w.stores.issued[state];
            issue.server in w.stores.registrations
            && var now := w.stores.registrations[issue.server];
               exists q :: s.requests == w.stores.requests + [(state, q)] && q.code == code
                 && s256(q.verifier) == issue.url.challenge && Authenticates(q, now)
                 && q.endpoint == (if issue.tokenEndpoint != "" then issue.tokenEndpoint else now.tokenEndpoint)
                 && (q.clientId == issue.url.clientId <==> now.clientId == issue.url.clientId)
  {
    var entry := w.stores.pending[state];
    assert Faithful(w.stores, state, entry, s256);
    var q := TokenRequest(code, entry, w.stores.registrations[entry.server]);
    CallbackExactly(w.stores, code, state, "", reply, saving);
    hide Invariant, CallbackAlone;
  }

  /** Every discovery of a server found the same client. */
  ghost predicate OneClient(found: set<(string, Registration)>) {
    forall f, g :: f in found && g in found && f.0 == g.0 ==> f.1.clientId == g.1.clientId
  }

  /** However the handlers interleave: while every discovery of a server finds the same client, each code is
      exchanged as the client that its URL named. */
  lemma SameClient(run: seq<Action>, s256: string -> string)
    requires Possible(INITIAL, run, s256) && OneClient(ToldIn(INITIAL, run, s256).found)
    ensures var s := After(INITIAL, run, s256).stores;
            forall i :: 0 <= i < |s.requests| ==>
              s.requests[i].0 in s.issued && s.requests[i].1.clientId == s.issued[s.requests[i].0].url.clientId
  {
    EverythingHasASource(run, s256);
    hide After, Possible, ToldIn, TracedStores;
    EachSameClient(ToldIn(INITIAL, run, s256), After(INITIAL, run, s256).stores);
  }

  lemma EachSameClient(told: Told, s: Stores)
    requires OneClient(told.found) && TracedStores(told, s)
    ensures forall i :: 0 <= i < |s.requests| ==>
              s.requests[i].0 in s.issued && s.requests[i].1.clientId == s.issued[s.requests[i].0].url.clientId
  {
    hide OneClient, IssuedBy, SentFor, SavedFor;
    forall i | 0 <= i < |s.requests|
      ensures s.requests[i].0 in s.issued && s.requests[i].1.clientId == s.issued[s.requests[i].0].url.clientId
    {
      OneSource(told, s.requests[i].0, s.issued[s.requests[i].0], s.requests[i].1);
    }
  }

  lemma OneSource(told: Told, state: string, issue: Issue, q: Request)
    requires OneClient(told.found) && IssuedBy(told, state, issue) && SentFor(told, state, issue, q)
    ensures q.clientId == issue.url.clientId
  {
    var r :| (issue.server, r) in told.found && LeadsTo(issue.url, r);
    var r' :| (issue.server, r') in told.found && Authenticates(q, r');
  }

  /** The one token request goes out for `state` as the client `sent`, the URL of `state` named `named`. */
  ghost predicate Swapped(s: Stores, state: string, caller: Caller, named: string, sent: string) {
    && |s.requests| == 1 && s.requests[0].0 == state && s.requests[0].1.clientId == sent
    && state in s.issued && s.issued[state].caller == caller && s.issued[state].url.clientId == named
  }

  lemma SecondReplaces(w: World, server: string, first: Caller, second: Caller, r1: Registration, r2: Registration,
                       verifier: string, state: string, code: string, s256: string -> string)
    returns (run: seq<Action>)
    requires r1.authorizationEndpoint != "" && r1.tokenEndpoint != "" && state != "" && code != ""
    requires w == World(INITIAL.stores, map[0 := Discovering(server, first), 1 := Discovering(server, second)], map[])
    ensures Possible(w, run, s256)
    ensures Swapped(After(w, run, s256).stores, state, first, r1.clientId, r2.clientId)
  {
    var w1 := Act(w, RunDiscovery(0, Some(r1)), s256);
    var w2 := Act(w1, PutState(0, verifier, state), s256);
    var w3 := Act(w2, RunDiscovery(1, Some(r2)), s256);
    run := CallbackIsRun(w3, 2, code, state, "", Refused(400), NoStore, s256);
    CallbackExactly(w3.stores, code, state, "", Refused(400), NoStore);
    hide CallbackAlone;
    run := Prepend(w2, RunDiscovery(1, Some(r2)), run, s256);
    run := Prepend(w1, PutState(0, verifier, state), run, s256);
    run := Prepend(w, RunDiscovery(0, Some(r1)), run, s256);
  }

  /** And not otherwise: two first users of a server who both look for its registration before either has
      stored one. The second discovery replaces the first, and the first user's code is exchanged as a client
      that the URL did not name. */
  lemma ClientReplaced(server: string, first: Caller, second: Caller, r1: Registration, r2: Registration,
                       verifier: string, state: string, code: string, s256: string -> string)
    returns (run: seq<Action>)
    requires r1.authorizationEndpoint != "" && r1.tokenEndpoint != "" && r1.clientId != r2.clientId
    requires state != "" && code != ""
    ensures Possible(INITIAL, run, s256)
    ensures Swapped(After(INITIAL, run, s256).stores, state, first, r1.clientId, r2.clientId)
  {
    var w0 := World(INITIAL.stores, map[0 := Discovering(server, first), 1 := Discovering(server, second)], map[]);
    run := SecondReplaces(w0, server, first, second, r1, r2, verifier, state, code, s256);
    var w1 := Act(INITIAL, Authorize(0, Some({server}), server, first), s256);
    var w2 := Act(w1, Authorize(1, Some({server}), server, second), s256);
    var w3 := Act(w2, FindRegistration(0), s256);
    assert Act(w3, FindRegistration(1), s256) == w0;
    run := Prepend(w3, FindRegistration(1), run, s256);
    run := Prepend(w2, FindRegistration(0), run, s256);
    run := Prepend(w1, Authorize(1, Some({server}), server, second), run, s256);
    run := Prepend(INITIAL, Authorize(0, Some({server}), server, first), run, s256);
  }
}
