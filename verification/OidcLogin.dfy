/** OIDC login and callback as steps that may interleave
    (`handle_code_authorize_*` and `handle_code_callback_*` in
    packages/oidc-client/src/client.rs, `login_diagnosed` and `callback_diagnosed` in
    packages/session-context/src/service.rs). */
module OidcLogin {
  import opened Wrappers
  import opened Sequences
  import Redirect

  /** What is kept between login and callback: the nonce, the PKCE verifier and the
      redirect the browser asked for. */
  datatype Pending = Pending(nonce: string, verifier: Option<string>, requested: Option<string>)

  /** A login and the state token it issued. */
  datatype Login = Login(token: string, pending: Pending)

  /** A stored entry; `login` is history, the number of the login that stored it. */
  datatype Held = Held(pending: Pending, login: nat)

  datatype Stage =
    | MissingState | StoreFailed | UnknownState | TokenExchange | ClaimsCheck
    | CycleFailed | InsertFailed | RedirectInvalid

  datatype Reply = Found(target: string) | Failed(stage: Stage)

  datatype Phase =
    | Took | Exchanged | Checked(subject: string) | Cycled(subject: string) | Established | Answered(reply: Reply)

  /** A callback request. `used` records the nonce and verifier given to the token
      exchange, `session` whom the session was established for, and `since` how many
      logins there had been when it arrived. */
  datatype Flight = Flight(
    token: Option<string>, held: Option<Held>, used: Option<(string, Option<string>)>,
    session: Option<string>, phase: Phase, since: nat)

  datatype State = State(logins: seq<Login>, pending: map<string, Held>, flights: seq<Flight>)

  datatype Config = Config(redirect: Redirect.Config, syntax: Redirect.Syntax, pkce: bool)

  /** What happens next to one callback; the environment decides the outcome. */
  datatype Event =
    | Exchange(ok: bool) | CheckClaims(subject: Option<string>) | Cycle(ok: bool) | Insert(ok: bool) | Answer

  datatype Label =
    | Start(login: Login, storeFails: bool) | Expire(expired: string)
    | Arrive(token: Option<string>, storeFails: bool) | Progress(k: nat, event: Event)

  // ----- steps -----

  predicate FlightEnabled(f: Flight, e: Event) {
    match e
    case Exchange(_) => f.phase.Took? && f.held.Some?
    case CheckClaims(_) => f.phase.Exchanged?
    case Cycle(_) => f.phase.Checked?
    case Insert(_) => f.phase.Cycled?
    case Answer => f.phase.Established? && f.held.Some?
  }

  function Fail(f: Flight, stage: Stage): Flight { f.(phase := Answered(Failed(stage))) }

  function StepFlight(c: Config, f: Flight, e: Event): Flight
    requires FlightEnabled(f, e)
  {
    match e
    case Exchange(ok) =>
      var g := f.(used := Some((f.held.value.pending.nonce, f.held.value.pending.verifier)));
      if ok then g.(phase := Exchanged) else Fail(g, TokenExchange)
    case CheckClaims(subject) =>
      if subject.Some? then f.(phase := Checked(subject.value)) else Fail(f, ClaimsCheck)
    case Cycle(ok) => if ok then f.(phase := Cycled(f.phase.subject)) else Fail(f, CycleFailed)
    case Insert(ok) =>
      if ok then f.(phase := Established, session := Some(f.phase.subject)) else Fail(f, InsertFailed)
    case Answer =>
      var target := Redirect.Resolve(c.redirect, f.held.value.pending.requested, c.syntax);
      if target.Ok? then f.(phase := Answered(Found(target.value))) else Fail(f, RedirectInvalid)
  }

  /** A callback arrives: the state parameter is looked up and removed in one step. */
  function ArriveFlight(s: State, token: Option<string>, storeFails: bool): Flight {
    var f := Flight(token, None, None, None, Took, |s.logins|);
    if token.None? then Fail(f, MissingState)
    else if storeFails then Fail(f, StoreFailed)
    else if token.value !in s.pending then Fail(f, UnknownState)
    else f.(held := Some(s.pending[token.value]))
  }

  function Without(pending: map<string, Held>, token: string): map<string, Held> {
    map t | t in pending && t != token :: pending[t]
  }

  predicate Enabled(c: Config, s: State, l: Label) {
    match l
    case Start(login, _) => login.pending.verifier.Some? <==> c.pkce
    case Expire(_) => true
    case Arrive(_, _) => true
    case Progress(k, e) => k < |s.flights| && FlightEnabled(s.flights[k], e)
  }

  function Next(c: Config, s: State, l: Label): State
    requires Enabled(c, s, l)
  {
    match l
    case Start(login, storeFails) =>
      // a login whose entry could not be stored is answered with an error, and its token never leaves
      if storeFails then s
      else s.(logins := s.logins + [login], pending := s.pending[login.token := Held(login.pending, |s.logins|)])
    case Expire(token) => s.(pending := Without(s.pending, token))
    case Arrive(token, storeFails) =>
      var f := ArriveFlight(s, token, storeFails);
      s.(pending := if f.held.Some? then Without(s.pending, token.value) else s.pending, flights := s.flights + [f])
    case Progress(k, e) => s.(flights := s.flights[k := StepFlight(c, s.flights[k], e)])
  }

  const INITIAL := State([], map[], [])

  /** Running the labels from `s`, or nothing if one of them is not enabled. */
  function Run(c: Config, s: State, labels: seq<Label>): Option<State>
    decreases |labels|
  {
    if labels == [] then Some(s)
    else if !Enabled(c, s, labels[0]) then None
    else Run(c, Next(c, s, labels[0]), labels[1..])
  }

  // ----- the invariant -----

  /** The entry is the one that login stored. */
  ghost predicate Stored(logins: seq<Login>, token: string, h: Held) {
    h.login < |logins| && logins[h.login] == Login(token, h.pending)
  }

  ghost predicate UsedItsLogin(f: Flight) {
    f.held.Some? && f.used == Some((f.held.value.pending.nonce, f.held.value.pending.verifier))
  }

  ghost predicate FlightGood(c: Config, logins: seq<Login>, f: Flight) {
    && f.since <= |logins|
    && (f.held.Some? ==> f.token.Some? && Stored(logins, f.token.value, f.held.value) && f.held.value.login < f.since)
    && (match f.phase
        case Took => f.held.Some? && f.session.None?
        case Established => UsedItsLogin(f) && f.session.Some?
        case Answered(Found(target)) =>
          && UsedItsLogin(f) && f.session.Some?
          && Redirect.Resolve(c.redirect, f.held.value.pending.requested, c.syntax) == Ok(target)
        case Answered(Failed(stage)) =>
          && (f.session.Some? <==> stage.RedirectInvalid?) && (f.session.Some? ==> UsedItsLogin(f))
          && (stage.RedirectInvalid? ==> Redirect.Resolve(c.redirect, f.held.value.pending.requested, c.syntax).Err?)
        case _ => UsedItsLogin(f) && f.session.None?)
  }

  ghost predicate PendingGood(s: State) {
    forall t :: t in s.pending ==> Stored(s.logins, t, s.pending[t])
  }

  /** A login's entry is held once: by one callback or by the store. */
  ghost predicate HeldOnce(s: State) {
    && (forall i, j :: 0 <= i < j < |s.flights| && s.flights[i].held.Some? && s.flights[j].held.Some? ==>
          s.flights[i].held.value.login != s.flights[j].held.value.login)
    && (forall i, t :: 0 <= i < |s.flights| && s.flights[i].held.Some? && t in s.pending ==>
          s.flights[i].held.value.login != s.pending[t].login)
  }

  ghost predicate Good(c: Config, s: State) {
    && PendingGood(s) && HeldOnce(s)
    && (forall i :: 0 <= i < |s.flights| ==> FlightGood(c, s.logins, s.flights[i]))
  }

  lemma StartKeeps(c: Config, s: State, login: Login)
    requires Good(c, s) && Enabled(c, s, Start(login, false))
    ensures Good(c, Next(c, s, Start(login, false)))
  {
    var n := Next(c, s, Start(login, false));
    forall i | 0 <= i < |n.flights| ensures FlightGood(c, n.logins, n.flights[i]) {
      assert FlightGood(c, s.logins, s.flights[i]);
    }
  }

  lemma ArriveKeeps(c: Config, s: State, token: Option<string>, storeFails: bool)
    requires Good(c, s)
    ensures Good(c, Next(c, s, Arrive(token, storeFails)))
  {
    var n := Next(c, s, Arrive(token, storeFails));
    var f := ArriveFlight(s, token, storeFails);
    assert FlightGood(c, s.logins, f);
    if f.held.Some? {
      forall t | t in n.pending ensures n.pending[t].login != f.held.value.login {
        assert Stored(s.logins, t, s.pending[t]) && Stored(s.logins, token.value, f.held.value);
      }
    }
  }

  lemma ProgressKeeps(c: Config, s: State, k: nat, e: Event)
    requires Good(c, s) && Enabled(c, s, Progress(k, e))
    ensures Good(c, Next(c, s, Progress(k, e)))
  {
    var f := s.flights[k];
    assert FlightGood(c, s.logins, f);
    assert StepFlight(c, f, e).held == f.held;
    assert FlightGood(c, s.logins, StepFlight(c, f, e));
  }

  lemma StepKeeps(c: Config, s: State, l: Label)
    requires Good(c, s) && Enabled(c, s, l)
    ensures Good(c, Next(c, s, l))
  {
    match l
    case Start(login, storeFails) => if !storeFails { StartKeeps(c, s, login); }
    case Expire(_) =>
    case Arrive(token, storeFails) => ArriveKeeps(c, s, token, storeFails);
    case Progress(k, e) => ProgressKeeps(c, s, k, e);
  }

  lemma {:induction false} RunKeeps(c: Config, s: State, labels: seq<Label>)
    requires Good(c, s) && Run(c, s, labels).Some?
    ensures Good(c, Run(c, s, labels).value)
    decreases |labels|
  {
    if labels != [] {
      StepKeeps(c, s, labels[0]);
      RunKeeps(c, Next(c, s, labels[0]), labels[1..]);
    }
  }

  // ----- guarantees over all runs -----

  function TokenOf(l: Login): string { l.token }

  /** No login is consumed by two callbacks; with fresh state tokens no token is. */
  lemma ConsumedAtMostOnce(c: Config, labels: seq<Label>, i: nat, j: nat)
    requires Run(c, INITIAL, labels).Some?
    requires var s := Run(c, INITIAL, labels).value;
             i < j < |s.flights| && s.flights[i].held.Some? && s.flights[j].held.Some?
    ensures var s := Run(c, INITIAL, labels).value;
            && s.flights[i].held.value.login != s.flights[j].held.value.login
            && (Distinct(Map(s.logins, TokenOf)) ==> s.flights[i].token != s.flights[j].token)
  {
    RunKeeps(c, INITIAL, labels);
    var s := Run(c, INITIAL, labels).value;
    assert FlightGood(c, s.logins, s.flights[i]) && FlightGood(c, s.logins, s.flights[j]);
    var a, b := s.flights[i].held.value.login, s.flights[j].held.value.login;
    var tokens := Map(s.logins, TokenOf);
    assert tokens[a] == s.logins[a].token && tokens[b] == s.logins[b].token;
  }

  /** A callback that redirects consumed a login made before it arrived, with the same
      state token, exchanged the code with that login's nonce and verifier, established
      a session, and sends the browser where that login asked, if that is sanctioned. */
  lemma SuccessMatchesLogin(c: Config, labels: seq<Label>, i: nat)
    requires Run(c, INITIAL, labels).Some?
    requires var s := Run(c, INITIAL, labels).value;
             i < |s.flights| && s.flights[i].phase.Answered? && s.flights[i].phase.reply.Found?
    ensures var s := Run(c, INITIAL, labels).value;
            var f := s.flights[i];
            && f.held.Some? && f.session.Some? && f.held.value.login < f.since <= |s.logins|
            && var login := s.logins[f.held.value.login];
            && f.token == Some(login.token)
            && f.used == Some((login.pending.nonce, login.pending.verifier))
            && Redirect.Resolve(c.redirect, login.pending.requested, c.syntax) == Ok(f.phase.reply.target)
            && Redirect.Sanctioned(c.redirect, f.phase.reply.target)
            && (Distinct(Map(s.logins, TokenOf)) ==>
                  forall k :: 0 <= k < |s.logins| && Some(s.logins[k].token) == f.token ==> k == f.held.value.login)
  {
    RunKeeps(c, INITIAL, labels);
    var s := Run(c, INITIAL, labels).value;
    var f := s.flights[i];
    assert FlightGood(c, s.logins, f);
    var l := f.held.value.login;
    Redirect.ResolvesExactlySanctioned(c.redirect, f.phase.reply.target, c.syntax);
    var tokens := Map(s.logins, TokenOf);
    forall k | 0 <= k < |s.logins| && Distinct(tokens) && s.logins[k].token == s.logins[l].token ensures k == l {
      assert tokens[k] == s.logins[k].token && tokens[l] == s.logins[l].token;
    }
  }

  /** A callback has established a session exactly when it redirects or fails only at
      the redirect, and it fails there only if the redirect its login asked for is
      refused; in both cases the login's nonce and verifier were used. */
  lemma SessionExactlyWhen(c: Config, labels: seq<Label>, i: nat)
    requires Run(c, INITIAL, labels).Some?
    requires var s := Run(c, INITIAL, labels).value; i < |s.flights| && s.flights[i].phase.Answered?
    ensures var f := Run(c, INITIAL, labels).value.flights[i];
            && (f.session.Some? <==> f.phase.reply.Found? || f.phase.reply == Failed(RedirectInvalid))
            && (f.session.Some? ==> UsedItsLogin(f))
            && (f.session.Some? ==>
                  (f.phase.reply.Failed? <==>
                    Redirect.Resolve(c.redirect, f.held.value.pending.requested, c.syntax).Err?))
  {
    RunKeeps(c, INITIAL, labels);
    var s := Run(c, INITIAL, labels).value;
    assert FlightGood(c, s.logins, s.flights[i]);
  }

  /** With fresh state tokens, a token that was consumed is refused from then on. */
  lemma ReplayRefused(c: Config, labels: seq<Label>, i: nat)
    requires Run(c, INITIAL, labels).Some?
    requires var s := Run(c, INITIAL, labels).value;
             i < |s.flights| && s.flights[i].held.Some? && Distinct(Map(s.logins, TokenOf))
    ensures var s := Run(c, INITIAL, labels).value;
            var n := Next(c, s, Arrive(s.flights[i].token, false));
            n.flights[|s.flights|].phase == Answered(Failed(UnknownState)) && n.pending == s.pending
  {
    RunKeeps(c, INITIAL, labels);
    var s := Run(c, INITIAL, labels).value;
    var f := s.flights[i];
    assert FlightGood(c, s.logins, f);
    var tokens := Map(s.logins, TokenOf);
    var a := f.held.value.login;
    assert tokens[a] == f.token.value;
    forall t | t in s.pending ensures t != f.token.value {
      assert Stored(s.logins, t, s.pending[t]);
      assert tokens[s.pending[t].login] == t;
    }
  }
}
