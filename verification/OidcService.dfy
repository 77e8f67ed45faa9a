/** The login service as it runs one request: a one-time store of pending logins and a
    session that is cycled and filled (packages/oidc-client/src/client.rs,
    packages/session-context/src/service.rs). */
module OidcService {
  import opened Wrappers
  import opened OidcLogin
  import Redirect

  /** What the provider, the claims check and the session backend answer. */
  datatype World = World(
    storeFails: bool, exchange: (string, Option<string>) -> bool, subject: Option<string>, cycles: bool, inserts: bool)

  type Entries = map<string, Pending>

  // ----- the objects -----

  /** One-time store: what is taken is gone. */
  class PendingStore {
    var entries: Entries

    constructor ()
      ensures entries == map[]
    {
      entries := map[];
    }

    method Insert(token: string, pending: Pending)
      modifies this
      ensures entries == old(entries)[token := pending]
    {
      entries := entries[token := pending];
    }

    method Take(token: string) returns (taken: Option<Pending>)
      modifies this
      ensures taken == if token in old(entries) then Some(old(entries)[token]) else None
      ensures entries == old(entries) - {token}
    {
      if token !in entries { return None; }
      taken := Some(entries[token]);
      entries := entries - {token};
    }
  }

  class Session {
    var cycled: nat
    var context: Option<string>

    constructor ()
      ensures cycled == 0 && context == None
    {
      cycled, context := 0, None;
    }

    /** A new session id, so that one known before the login is worth nothing after it. */
    method CycleId(ok: bool)
      modifies this
      ensures context == old(context) && cycled == old(cycled) + if ok then 1 else 0
    {
      if ok { cycled := cycled + 1; }
    }

    method Insert(subject: string, ok: bool)
      modifies this
      ensures cycled == old(cycled) && context == if ok then Some(subject) else old(context)
    {
      if ok { context := Some(subject); }
    }
  }

  // ----- one callback -----

  /** What stops the callback before the session is established, if anything. */
  function Obstacle(entries: Entries, token: Option<string>, w: World): Option<Stage> {
    if token.None? then Some(MissingState)
    else if w.storeFails then Some(StoreFailed)
    else if token.value !in entries then Some(UnknownState)
    else
      var p := entries[token.value];
      if !w.exchange(p.nonce, p.verifier) then Some(TokenExchange)
      else if w.subject.None? then Some(ClaimsCheck)
      else if !w.cycles then Some(CycleFailed)
      else if !w.inserts then Some(InsertFailed)
      else None
  }

  function CallbackReply(c: Config, entries: Entries, token: Option<string>, w: World): Reply {
    var stage := Obstacle(entries, token, w);
    if stage.Some? then Failed(stage.value)
    else
      var target := Redirect.Resolve(c.redirect, entries[token.value].requested, c.syntax);
      if target.Ok? then Found(target.value) else Failed(RedirectInvalid)
  }

  function CallbackEntries(entries: Entries, token: Option<string>, w: World): Entries {
    if token.None? || w.storeFails then entries else entries - {token.value}
  }

  function CallbackSession(entries: Entries, token: Option<string>, w: World): Option<string> {
    if Obstacle(entries, token, w).Some? then None else w.subject
  }

  /** What a login stores; if that fails it is an error and nothing is stored. */
  method Login(store: PendingStore, token: string, pending: Pending, storeFails: bool) returns (ok: bool)
    modifies store
    ensures ok == !storeFails
    ensures store.entries == if ok then old(store.entries)[token := pending] else old(store.entries)
  {
    if storeFails { return false; }
    store.Insert(token, pending);
    return true;
  }

  method Callback(c: Config, store: PendingStore, session: Session, token: Option<string>, w: World)
    returns (reply: Reply)
    modifies store, session
    ensures reply == CallbackReply(c, old(store.entries), token, w)
    ensures store.entries == CallbackEntries(old(store.entries), token, w)
    ensures var who := CallbackSession(old(store.entries), token, w);
            session.context == if who.Some? then who else old(session.context)
    ensures var o := Obstacle(old(store.entries), token, w);
            session.cycled == old(session.cycled) + if o.None? || o.value.InsertFailed? then 1 else 0
  {
    if token.None? { return Failed(MissingState); }
    if w.storeFails { return Failed(StoreFailed); }
    var taken := store.Take(token.value);
    if taken.None? { return Failed(UnknownState); }
    var pending := taken.value;
    if !w.exchange(pending.nonce, pending.verifier) { return Failed(TokenExchange); }
    if w.subject.None? { return Failed(ClaimsCheck); }
    session.CycleId(w.cycles);
    if !w.cycles { return Failed(CycleFailed); }
    session.Insert(w.subject.value, w.inserts);
    if !w.inserts { return Failed(InsertFailed); }
    var target := Redirect.Resolve(c.redirect, pending.requested, c.syntax);
    if target.Err? { return Failed(RedirectInvalid); }
    return Found(target.value);
  }

  // ----- an uninterrupted callback is a run -----

  function EntriesOf(pending: map<string, Held>): Entries { map t | t in pending :: pending[t].pending }

  function NextEvent(w: World, f: Flight): Event
    requires !f.phase.Answered? && f.held.Some?
  {
    match f.phase
    case Took => Exchange(w.exchange(f.held.value.pending.nonce, f.held.value.pending.verifier))
    case Exchanged => CheckClaims(w.subject)
    case Checked(_) => Cycle(w.cycles)
    case Cycled(_) => Insert(w.inserts)
    case Established => Answer
  }

  function Rank(p: Phase): nat {
    match p
    case Took => 5
    case Exchanged => 4
    case Checked(_) => 3
    case Cycled(_) => 2
    case Established => 1
    case Answered(_) => 0
  }

  /** The steps that take a callback to its answer. */
  function Events(c: Config, f: Flight, w: World): seq<Event>
    requires f.phase.Answered? || f.held.Some?
    decreases Rank(f.phase)
  {
    if f.phase.Answered? then []
    else
      var e := NextEvent(w, f);
      [e] + Events(c, StepFlight(c, f, e), w)
  }

  function Drive(c: Config, f: Flight, w: World): Flight
    requires f.phase.Answered? || f.held.Some?
    decreases Rank(f.phase)
  {
    if f.phase.Answered? then f else Drive(c, StepFlight(c, f, NextEvent(w, f)), w)
  }

  function Labels(k: nat, events: seq<Event>): seq<Label> {
    seq(|events|, i requires 0 <= i < |events| => Progress(k, events[i]))
  }

  lemma {:induction false} DriveRuns(c: Config, s: State, k: nat, w: World)
    requires k < |s.flights| && (s.flights[k].phase.Answered? || s.flights[k].held.Some?)
    ensures var f := s.flights[k];
            Run(c, s, Labels(k, Events(c, f, w))) == Some(s.(flights := s.flights[k := Drive(c, f, w)]))
    decreases Rank(s.flights[k].phase)
  {
    var f := s.flights[k];
    if f.phase.Answered? {
      assert s.flights[k := f] == s.flights;
    } else {
      var e := NextEvent(w, f);
      var n := Next(c, s, Progress(k, e));
      DriveRuns(c, n, k, w);
      var labels := Labels(k, Events(c, f, w));
      assert labels[1..] == Labels(k, Events(c, n.flights[k], w));
      assert n.flights[k := Drive(c, f, w)] == s.flights[k := Drive(c, f, w)];
    }
  }

  /** Driving a callback that took its entry gives the reply and the session. */
  lemma DriveAnswers(c: Config, f: Flight, w: World)
    requires f.phase.Took? && f.held.Some? && f.token.Some? && f.session.None? && !w.storeFails
    ensures var entries: Entries := map[f.token.value := f.held.value.pending];
            var g := Drive(c, f, w);
            && g.phase == Answered(CallbackReply(c, entries, f.token, w))
            && g.session == CallbackSession(entries, f.token, w)
  {
    var f1 := StepFlight(c, f, NextEvent(w, f));
    if !f1.phase.Answered? {
      var f2 := StepFlight(c, f1, NextEvent(w, f1));
      if !f2.phase.Answered? {
        var f3 := StepFlight(c, f2, NextEvent(w, f2));
        if !f3.phase.Answered? {
          var f4 := StepFlight(c, f3, NextEvent(w, f3));
          if !f4.phase.Answered? {
            assert Drive(c, f4, w) == StepFlight(c, f4, Answer);
          }
          assert Drive(c, f3, w) == Drive(c, f4, w);
        }
        assert Drive(c, f2, w) == Drive(c, f3, w);
      }
      assert Drive(c, f1, w) == Drive(c, f2, w);
    }
    assert Drive(c, f, w) == Drive(c, f1, w);
  }

  /** The handler does what the steps of its callback do when nothing comes between. */
  lemma CallbackIsRun(c: Config, s: State, token: Option<string>, w: World)
    ensures var f := ArriveFlight(s, token, w.storeFails);
            var labels := [Arrive(token, w.storeFails)] + Labels(|s.flights|, Events(c, f, w));
            var entries := EntriesOf(s.pending);
            && Run(c, s, labels).Some?
            && var n := Run(c, s, labels).value;
            && |n.flights| == |s.flights| + 1 && n.logins == s.logins
            && n.flights[|s.flights|].phase == Answered(CallbackReply(c, entries, token, w))
            && n.flights[|s.flights|].session == CallbackSession(entries, token, w)
            && EntriesOf(n.pending) == CallbackEntries(entries, token, w)
  {
    var f := ArriveFlight(s, token, w.storeFails);
    var k := |s.flights|;
    var n := Next(c, s, Arrive(token, w.storeFails));
    var labels := [Arrive(token, w.storeFails)] + Labels(k, Events(c, f, w));
    assert labels[1..] == Labels(k, Events(c, f, w));
    DriveRuns(c, n, k, w);
    if f.held.Some? { DriveAnswers(c, f, w); }
  }

  lemma RefusedRedirectLeavesSession(c: Config, login: Login, subject: string) returns (labels: seq<Label>)
    requires login.pending.verifier.Some? <==> c.pkce
    requires Redirect.Resolve(c.redirect, login.pending.requested, c.syntax).Err?
    ensures Run(c, INITIAL, labels).Some?
    ensures var n := Run(c, INITIAL, labels).value;
            && n.logins == [login] && |n.flights| == 1
            && n.flights[0].phase == Answered(Failed(RedirectInvalid)) && n.flights[0].session == Some(subject)
  {
    var w := World(false, (nonce, verifier) => true, Some(subject), true, true);
    var s := Next(c, INITIAL, Start(login, false));
    var token := Some(login.token);
    CallbackIsRun(c, s, token, w);
    var rest := [Arrive(token, false)] + Labels(0, Events(c, ArriveFlight(s, token, false), w));
    labels := [Start(login, false)] + rest;
    assert labels[1..] == rest;
    assert EntriesOf(s.pending)[login.token] == login.pending;
  }

  /** In the run a callback of that login is answered with an error and yet has
      established a session. */
  ghost predicate ErrorWithSession(c: Config, login: Login, labels: seq<Label>, i: nat) {
    && Run(c, INITIAL, labels).Some?
    && var s := Run(c, INITIAL, labels).value;
    && i < |s.flights| && s.flights[i].phase.Answered? && s.flights[i].phase.reply.Failed?
    && s.flights[i].session.Some? && s.flights[i].held.Some?
    && s.flights[i].held.value.login < |s.logins| && s.logins[s.flights[i].held.value.login] == login
  }

  /** Some run answers a login's callback with an error and leaves a session if and only
      if the redirect that login asked for is refused: it is only checked afterwards. */
  lemma ErrorLeavesSessionIff(c: Config, login: Login)
    requires login.pending.verifier.Some? <==> c.pkce
    ensures (exists labels, i :: ErrorWithSession(c, login, labels, i)) <==>
              Redirect.Resolve(c.redirect, login.pending.requested, c.syntax).Err?
  {
    if Redirect.Resolve(c.redirect, login.pending.requested, c.syntax).Err? {
      var labels := RefusedRedirectLeavesSession(c, login, "");
      RunKeeps(c, INITIAL, labels);
      var s := Run(c, INITIAL, labels).value;
      assert FlightGood(c, s.logins, s.flights[0]);
      assert ErrorWithSession(c, login, labels, 0);
    }
    forall labels, i | ErrorWithSession(c, login, labels, i)
      ensures Redirect.Resolve(c.redirect, login.pending.requested, c.syntax).Err?
    {
      ErrorMeansRefused(c, login, labels, i);
    }
  }

  lemma ErrorMeansRefused(c: Config, login: Login, labels: seq<Label>, i: nat)
    requires ErrorWithSession(c, login, labels, i)
    ensures Redirect.Resolve(c.redirect, login.pending.requested, c.syntax).Err?
  {
    RunKeeps(c, INITIAL, labels);
    var s := Run(c, INITIAL, labels).value;
    assert FlightGood(c, s.logins, s.flights[i]);
  }
}
