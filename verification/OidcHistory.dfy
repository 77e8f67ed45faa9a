/** What a login or a callback comes to, read off the events of the run alone
    (packages/oidc-client/src/client.rs, packages/session-context/src/service.rs). */
module OidcHistory {
  import opened Wrappers
  import opened OidcLogin

  /** A run ends with its last step. */
  lemma {:induction false} LastStep(c: Config, s: State, labels: seq<Label>) returns (mid: State)
    requires labels != [] && Run(c, s, labels).Some?
    ensures var init, l := labels[..|labels| - 1], labels[|labels| - 1];
      Run(c, s, init) == Some(mid) && Enabled(c, mid, l) && Run(c, s, labels) == Some(Next(c, mid, l))
    decreases |labels|
  {
    if |labels| == 1 {
      assert labels[..0] == [] && labels[1..] == [];
      mid := s;
    } else {
      mid := LastStep(c, Next(c, s, labels[0]), labels[1..]);
      assert labels[1..][..|labels| - 2] == labels[..|labels| - 1][1..];
    }
  }

  // ----- which state tokens can be redeemed -----

  /** Step `k` is a login that stored the token, and nothing since has stored it again,
      redeemed it or let it expire. */
  ghost predicate IssuedAt(labels: seq<Label>, t: string, k: int) {
    && 0 <= k < |labels| && labels[k].Start? && !labels[k].storeFails && labels[k].login.token == t
    && forall j :: k < j < |labels| ==> !Ends(labels[j], t)
  }

  /** The step stores the token anew, redeems it or lets it expire. */
  predicate Ends(l: Label, t: string) {
    || (l.Start? && !l.storeFails && l.login.token == t)
    || l == Expire(t) || l == Arrive(Some(t), false)
  }

  lemma IssuedStep(labels: seq<Label>, t: string)
    requires labels != []
    ensures var n := |labels| - 1;
      (exists k :: IssuedAt(labels, t, k)) <==>
        (labels[n].Start? && Ends(labels[n], t)) || (!Ends(labels[n], t) && exists k :: IssuedAt(labels[..n], t, k))
  {
    var n := |labels| - 1;
    var init := labels[..n];
    if labels[n].Start? && Ends(labels[n], t) { assert IssuedAt(labels, t, n); }
    if !Ends(labels[n], t) {
      if k :| IssuedAt(init, t, k) { assert IssuedAt(labels, t, k); }
    }
    if k :| IssuedAt(labels, t, k) {
      if k < n { assert IssuedAt(init, t, k); }
    }
  }

  /** A token can be redeemed exactly if a login stored it that nothing has ended since; what
      is stored is what that login put there. */
  lemma {:induction false} PendingIsIssued(c: Config, labels: seq<Label>, s: State, t: string)
    requires Run(c, INITIAL, labels) == Some(s)
    ensures t in s.pending <==> exists k :: IssuedAt(labels, t, k)
    ensures forall k :: IssuedAt(labels, t, k) ==> t in s.pending && s.pending[t].pending == labels[k].login.pending
    decreases |labels|
  {
    if labels != [] {
      var n := |labels| - 1;
      var mid := LastStep(c, INITIAL, labels);
      PendingIsIssued(c, labels[..n], mid, t);
      IssuedStep(labels, t);
      forall k | IssuedAt(labels, t, k) && k < n ensures IssuedAt(labels[..n], t, k) {}
    }
  }

  /** A callback gets past the lookup exactly with a token that can be redeemed, and what
      it then holds is what the login stored. */
  lemma CallbackFindsItsLogin(c: Config, labels: seq<Label>, s: State, token: Option<string>, storeFails: bool)
    requires Run(c, INITIAL, labels) == Some(s)
    ensures var n := Next(c, s, Arrive(token, storeFails));
      && |n.flights| == |s.flights| + 1
      && var f := n.flights[|s.flights|];
      && (f.held.Some? <==> token.Some? && !storeFails && exists k :: IssuedAt(labels, token.value, k))
      && (forall k :: f.held.Some? && IssuedAt(labels, token.value, k) ==>
            f.held.value.pending == labels[k].login.pending && f.phase == Took)
      && (f.held.None? ==>
            f.phase.Answered? && f.phase.reply ==
              Failed(if token.None? then MissingState else if storeFails then StoreFailed else UnknownState))
  {
    if token.Some? { PendingIsIssued(c, labels, s, token.value); }
  }

  // ----- what a callback is answered -----

  /** The events of one callback, in order. */
  function Story(labels: seq<Label>, k: nat): seq<Event> {
    if labels == [] then []
    else
      var l := labels[|labels| - 1];
      Story(labels[..|labels| - 1], k) + if l.Progress? && l.k == k then [l.event] else []
  }

  /** The events that establish a session for that subject. */
  function Signed(x: string): seq<Event> { [Exchange(true), CheckClaims(Some(x)), Cycle(true), Insert(true)] }

  /** The events and the state of a callback belong together: which events lead to which
      answer, and for whom there is a session. */
  ghost predicate Tale(c: Config, f: Flight, e: seq<Event>) {
    var resolved := if f.held.None? then None
                    else Some(Redirect.Resolve(c.redirect, f.held.value.pending.requested, c.syntax));
    match f.phase
    case Took => e == [] && f.session.None?
    case Exchanged => e == [Exchange(true)] && f.session.None?
    case Checked(x) => e == Signed(x)[..2] && f.session.None?
    case Cycled(x) => e == Signed(x)[..3] && f.session.None?
    case Established => f.session.Some? && e == Signed(f.session.value)
    case Answered(Found(target)) =>
      f.session.Some? && e == Signed(f.session.value) + [Answer] && resolved == Some(Ok(target))
    case Answered(Failed(RedirectInvalid)) =>
      f.session.Some? && e == Signed(f.session.value) + [Answer] && resolved.Some? && resolved.value.Err?
    case Answered(Failed(stage)) => f.session.None? && FailsAt(f, e, stage)
  }

  ghost predicate FailsAt(f: Flight, e: seq<Event>, stage: Stage) {
    match stage
    case MissingState => e == [] && f.token.None?
    case StoreFailed => e == [] && f.token.Some?
    case UnknownState => e == [] && f.token.Some?
    case TokenExchange => e == [Exchange(false)]
    case ClaimsCheck => e == [Exchange(true), CheckClaims(None)]
    case CycleFailed => exists x :: e == Signed(x)[..2] + [Cycle(false)]
    case InsertFailed => exists x :: e == Signed(x)[..3] + [Insert(false)]
    case RedirectInvalid => false
  }

  lemma TaleStep(c: Config, f: Flight, e: seq<Event>, event: Event)
    requires Tale(c, f, e) && FlightEnabled(f, event)
    ensures Tale(c, StepFlight(c, f, event), e + [event])
  {
    if event.Cycle? && !event.ok { assert e + [event] == Signed(f.phase.subject)[..2] + [Cycle(false)]; }
    if event.Insert? && !event.ok { assert e + [event] == Signed(f.phase.subject)[..3] + [Insert(false)]; }
  }

  lemma {:induction false} Tales(c: Config, labels: seq<Label>, s: State, k: nat)
    requires Run(c, INITIAL, labels) == Some(s)
    ensures if k < |s.flights| then Tale(c, s.flights[k], Story(labels, k)) else Story(labels, k) == []
    decreases |labels|
  {
    if labels != [] {
      var init, l := labels[..|labels| - 1], labels[|labels| - 1];
      var mid := LastStep(c, INITIAL, labels);
      Tales(c, init, mid, k);
      if l.Progress? && l.k == k { TaleStep(c, mid.flights[k], Story(init, k), l.event); }
    }
  }

  /** In every run, a session exists for a callback exactly after its code was exchanged, its
      claims named that subject, and its session was cycled and written; it is answered with
      a redirect exactly if then the target resolves. */
  lemma SessionExactlyFor(c: Config, labels: seq<Label>, s: State, k: nat, x: string)
    requires Run(c, INITIAL, labels) == Some(s) && k < |s.flights|
    ensures var e := Story(labels, k);
      && (s.flights[k].session == Some(x) <==> e == Signed(x) || e == Signed(x) + [Answer])
      && (s.flights[k].phase.Answered? && s.flights[k].phase.reply.Found? ==>
            s.flights[k].session.Some? && e == Signed(s.flights[k].session.value) + [Answer])
      && Tale(c, s.flights[k], e)
  {
    Tales(c, labels, s, k);
    TaleSession(c, s.flights[k], Story(labels, k), x);
  }

  lemma TaleSession(c: Config, f: Flight, e: seq<Event>, x: string)
    requires Tale(c, f, e)
    ensures f.session == Some(x) <==> e == Signed(x) || e == Signed(x) + [Answer]
  {
    if f.session.Some? {
      assert e[1] == CheckClaims(f.session);
    } else {
      assert |e| <= 4;
      assert |e| == 4 ==> e[3] == Insert(false);
    }
  }
}
