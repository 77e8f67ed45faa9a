/** The real-ip provider registry under concurrent refreshes
    (packages/realip/src/providers.rs). A refresh loads its provider, then reads
    the published state, and then publishes a changed copy of what it read;
    refreshes of different tasks interleave at these three points. */
module ProviderRegistry {
  import opened Wrappers
  import opened Sequences
  import opened RealIpChain

  type Snapshots = map<string, seq<Cidr>>

  // ----- the derived list of all networks -----

  /** An order in which a hash map may be iterated. */
  ghost predicate Enumerates(order: seq<string>, keys: set<string>) {
    Distinct(order) && forall n :: n in order <==> n in keys
  }

  /** `collect_all_cidrs`, for the given iteration order. */
  function Flatten(order: seq<string>, m: Snapshots): (r: seq<Cidr>)
    requires forall n :: n in order ==> n in m
    ensures forall x :: x in r <==> exists n :: n in order && x in m[n]
  {
    if order == [] then []
    else
      var init, last := order[..|order| - 1], order[|order| - 1];
      assert order == init + [last];
      var rest := Flatten(init, m);
      assert forall x :: x in rest + m[last] <==> x in rest || x in m[last];
      rest + m[last]
  }

  lemma {:induction false} FlattenConcat(a: seq<string>, b: seq<string>, m: Snapshots)
    requires forall n :: n in a + b ==> n in m
    requires (forall n :: n in a ==> n in m) && forall n :: n in b ==> n in m
    ensures Flatten(a + b, m) == Flatten(a, m) + Flatten(b, m)
  {
    if b == [] {
      assert a + b == a;
    } else {
      var init, last := b[..|b| - 1], b[|b| - 1];
      assert b == init + [last] && (a + b)[..|a + b| - 1] == a + init;
      FlattenConcat(a, init, m);
    }
  }

  lemma FlattenOne(n: string, m: Snapshots)
    requires n in m
    ensures Flatten([n], m) == m[n]
  {
    assert [n][..0] == [];
  }

  lemma FlattenRemove(b: seq<string>, i: nat, m: Snapshots)
    requires i < |b| && forall n :: n in b ==> n in m
    ensures forall n :: n in b[..i] + b[i + 1..] ==> n in m
    ensures multiset(Flatten(b, m)) == multiset(Flatten(b[..i] + b[i + 1..], m)) + multiset(m[b[i]])
  {
    var x, left, right := b[i], b[..i], b[i + 1..];
    assert b == left + ([x] + right);
    FlattenConcat(left, right, m);
    FlattenConcat([x], right, m);
    FlattenConcat(left, [x] + right, m);
    FlattenOne(x, m);
  }

  /** The list depends on the iteration order only up to reordering: it is always
      the multiset union of the per-provider lists. */
  lemma {:induction false} FlattenOrderIrrelevant(a: seq<string>, b: seq<string>, m: Snapshots)
    requires Distinct(a) && Distinct(b) && (forall n :: n in a <==> n in b) && forall n :: n in a ==> n in m
    ensures multiset(Flatten(a, m)) == multiset(Flatten(b, m))
  {
    if b != [] { assert b[0] in a; }
    if a != [] {
      var init, x := a[..|a| - 1], a[|a| - 1];
      assert a == init + [x];
      assert x in b;
      var i :| 0 <= i < |b| && b[i] == x;
      var b' := b[..i] + b[i + 1..];
      RemoveKeepsDistinct(b, i);
      FlattenRemove(b, i, m);
      forall n ensures n in init <==> n in b' {
        assert n in a <==> n in b;
      }
      FlattenOrderIrrelevant(init, b', m);
    }
  }

  lemma RemoveKeepsDistinct(b: seq<string>, i: nat)
    requires Distinct(b) && i < |b|
    ensures var b' := b[..i] + b[i + 1..]; Distinct(b') && b[i] !in b' && forall n :: n in b <==> n in b' || n == b[i]
  {
    var b' := b[..i] + b[i + 1..];
    assert forall k :: 0 <= k < |b'| ==> b'[k] == b[if k < i then k else k + 1];
    forall n | n in b ensures n in b' || n == b[i] {
      var k :| 0 <= k < |b| && b[k] == n;
      if k < i { assert b'[k] == n; } else if k > i { assert b'[k - 1] == n; }
    }
  }

  // ----- the step system -----

  datatype Policy = KeepLastGood | Clear
  datatype Change = Put(cidrs: seq<Cidr>) | Remove

  datatype Task = Pending(name: string, change: Change)
                | Read(name: string, change: Change, base: Snapshots)
                | Finished

  datatype State = State(
    byName: Snapshots,
    allCidrs: seq<Cidr>,
    tasks: map<nat, Task>,
    loads: seq<(string, seq<Cidr>)>,        // every successful load so far
    changes: seq<(string, Change)>)         // every publication so far

  datatype Label =
    | Load(t: nat, name: string, policy: Policy, output: Option<seq<Cidr>>)
    | ReadState(t: nat)
    | Publish(t: nat, order: seq<string>)

  function Apply(m: Snapshots, name: string, c: Change): Snapshots {
    match c
    case Put(cidrs) => m[name := cidrs]
    case Remove => m - {name}
  }

  /** `load_provider`: an empty list is a failure. */
  function LoadProvider(output: Option<seq<Cidr>>): (r: Option<seq<Cidr>>)
    ensures r.Some? ==> r.value != []
  {
    if output == Some([]) then None else output
  }

  ghost predicate Enabled(s: State, l: Label) {
    match l
    case Load(t, _, _, _) => t !in s.tasks
    case ReadState(t) => t in s.tasks && s.tasks[t].Pending?
    case Publish(t, order) =>
      && t in s.tasks && s.tasks[t].Read?
      && Enumerates(order, Apply(s.tasks[t].base, s.tasks[t].name, s.tasks[t].change).Keys)
  }

  ghost function After(s: State, l: Label): State
    requires Enabled(s, l)
  {
    match l
    case Load(t, name, policy, output) =>
      var loaded := LoadProvider(output);
      var task := if loaded.Some? then Pending(name, Put(loaded.value))
                  else if policy.Clear? then Pending(name, Remove) else Finished;
      s.(tasks := s.tasks[t := task], loads := if loaded.Some? then s.loads + [(name, loaded.value)] else s.loads)
    case ReadState(t) =>
      s.(tasks := s.tasks[t := Read(s.tasks[t].name, s.tasks[t].change, s.byName)])
    case Publish(t, order) =>
      var task := s.tasks[t];
      var next := Apply(task.base, task.name, task.change);
      s.(byName := next, allCidrs := Flatten(order, next), tasks := s.tasks[t := Finished],
         changes := s.changes + [(task.name, task.change)])
  }

  /** The registry as first built: every provider has been loaded. */
  ghost predicate Initial(s: State) {
    && s.tasks == map[] && s.changes == []
    && (forall n :: n in s.byName ==> s.byName[n] != [] && (n, s.byName[n]) in s.loads)
    && exists order :: Enumerates(order, s.byName.Keys) && s.allCidrs == Flatten(order, s.byName)
  }

  ghost function Exec(s: State, ls: seq<Label>): Option<State> {
    if ls == [] then Some(s)
    else
      var mid := Exec(s, ls[..|ls| - 1]);
      if mid.Some? && Enabled(mid.value, ls[|ls| - 1]) then Some(After(mid.value, ls[|ls| - 1])) else None
  }

  // ----- what holds under every interleaving -----

  /** Every list is a non-empty result of some load of its provider. */
  ghost predicate FromLoads(m: Snapshots, loads: seq<(string, seq<Cidr>)>) {
    forall n :: n in m ==> m[n] != [] && (n, m[n]) in loads
  }

  ghost predicate TaskFromLoads(task: Task, loads: seq<(string, seq<Cidr>)>) {
    && (!task.Finished? && task.change.Put? ==> task.change.cidrs != [] && (task.name, task.change.cidrs) in loads)
    && (task.Read? ==> FromLoads(task.base, loads))
  }

  ghost predicate Consistent(s: State) {
    && FromLoads(s.byName, s.loads)
    && (forall t :: t in s.tasks ==> TaskFromLoads(s.tasks[t], s.loads))
    && exists order :: Enumerates(order, s.byName.Keys) && s.allCidrs == Flatten(order, s.byName)
  }

  lemma ConsistentStep(s: State, l: Label)
    requires Consistent(s) && Enabled(s, l)
    ensures Consistent(After(s, l))
  {
    var s' := After(s, l);
    if l.Load? {
      assert forall x :: x in s.loads ==> x in s'.loads;
      if LoadProvider(l.output).Some? { assert (l.name, LoadProvider(l.output).value) in s'.loads; }
    } else if l.ReadState? {
      assert TaskFromLoads(s.tasks[l.t], s.loads);
    } else {
      assert TaskFromLoads(s.tasks[l.t], s.loads);
    }
  }

  lemma {:induction false} ConsistentRun(s0: State, ls: seq<Label>, s: State)
    requires Initial(s0) && Exec(s0, ls) == Some(s)
    ensures Consistent(s)
  {
    if ls != [] {
      var mid := Exec(s0, ls[..|ls| - 1]).value;
      ConsistentRun(s0, ls[..|ls| - 1], mid);
      ConsistentStep(mid, ls[|ls| - 1]);
    }
  }

  /** In every state any interleaving of refreshes publishes, the list of all
      networks is the multiset union of the providers' lists, so an address is
      trusted exactly if some provider's list contains it; and each list is a
      non-empty result of some load of that provider. */
  lemma PublishedStateConsistent(s0: State, ls: seq<Label>, s: State, order: seq<string>)
    requires Initial(s0) && Exec(s0, ls) == Some(s) && Enumerates(order, s.byName.Keys)
    ensures multiset(s.allCidrs) == multiset(Flatten(order, s.byName))
    ensures forall ip :: Trusted(s.allCidrs, ip) <==> exists n :: n in s.byName && Trusted(s.byName[n], ip)
    ensures forall n :: n in s.byName ==> s.byName[n] != [] && (n, s.byName[n]) in s.loads
  {
    ConsistentRun(s0, ls, s);
    var other :| Enumerates(other, s.byName.Keys) && s.allCidrs == Flatten(other, s.byName);
    FlattenOrderIrrelevant(other, order, s.byName);
    forall ip ensures Trusted(s.allCidrs, ip) <==> exists n :: n in s.byName && Trusted(s.byName[n], ip) {
      if Trusted(s.allCidrs, ip) {
        var x :| x in s.allCidrs && Contains(x, ip);
        var n :| n in other && x in s.byName[n];
        assert Trusted(s.byName[n], ip);
      }
      if n :| n in s.byName && Trusted(s.byName[n], ip) {
        var x :| x in s.byName[n] && Contains(x, ip);
        assert x in s.allCidrs;
      }
    }
  }

  // ----- refreshes one at a time -----

  /** One call of `refresh_provider`: what its provider put out, and the order in which
      the new map is enumerated if it publishes one. */
  datatype Refresh = Refresh(t: nat, name: string, policy: Policy, output: Option<seq<Cidr>>, order: seq<string>)

  /** It loaded something, or its failure clears the provider. */
  predicate Effective(r: Refresh) { LoadProvider(r.output).Some? || r.policy.Clear? }

  /** The steps of a whole refresh. */
  function Steps(r: Refresh): seq<Label> {
    [Load(r.t, r.name, r.policy, r.output)] + if Effective(r) then [ReadState(r.t), Publish(r.t, r.order)] else []
  }

  /** Whole refreshes, one after the other. */
  function StepsOf(rs: seq<Refresh>): seq<Label> {
    if rs == [] then [] else StepsOf(rs[..|rs| - 1]) + Steps(rs[|rs| - 1])
  }

  /** The last refresh of a provider that loaded something or cleared it. */
  function LastEffective(rs: seq<Refresh>, name: string): (r: Option<Refresh>)
    ensures r.Some? ==> r.value in rs && r.value.name == name && Effective(r.value)
  {
    if rs == [] then None
    else
      var last := rs[|rs| - 1];
      if last.name == name && Effective(last) then Some(last) else LastEffective(rs[..|rs| - 1], name)
  }

  lemma {:induction false} ExecConcat(s0: State, a: seq<Label>, b: seq<Label>)
    ensures Exec(s0, a + b) == if Exec(s0, a).None? then None else Exec(Exec(s0, a).value, b)
  {
    if b == [] {
      assert a + b == a;
    } else {
      assert (a + b)[..|a + b| - 1] == a + b[..|b| - 1];
      ExecConcat(s0, a, b[..|b| - 1]);
    }
  }

  lemma ExecOne(s: State, l: Label)
    ensures Exec(s, [l]) == if Enabled(s, l) then Some(After(s, l)) else None
  {
    assert [l][..0] == [];
  }

  /** A whole refresh applies its change, if any, to the state it finds. */
  lemma WholeRefresh(s: State, r: Refresh, n: State)
    requires Exec(s, Steps(r)) == Some(n)
    ensures n.byName ==
      if r.output.Some? && r.output.value != [] then s.byName[r.name := r.output.value]
      else if r.policy.Clear? then s.byName - {r.name}
      else s.byName
  {
    var l := Load(r.t, r.name, r.policy, r.output);
    ExecOne(s, l);
    if Effective(r) {
      var read, publish := ReadState(r.t), Publish(r.t, r.order);
      assert Steps(r) == ([l] + [read]) + [publish];
      ExecConcat(s, [l] + [read], [publish]);
      ExecConcat(s, [l], [read]);
      ExecOne(After(s, l), read);
      ExecOne(After(After(s, l), read), publish);
    } else {
      assert Steps(r) == [l];
    }
  }

  /** A refresh can always be carried through: whatever it loads, its steps are enabled one
      after the other, and it is then finished. */
  lemma WholeRefreshRuns(s: State, r: Refresh)
    requires r.t !in s.tasks
    requires r.output.Some? && r.output.value != [] ==> Enumerates(r.order, s.byName.Keys + {r.name})
    requires !(r.output.Some? && r.output.value != []) && r.policy.Clear? ==>
               Enumerates(r.order, s.byName.Keys - {r.name})
    ensures Exec(s, Steps(r)).Some? && Exec(s, Steps(r)).value.tasks == s.tasks[r.t := Finished]
  {
    var l := Load(r.t, r.name, r.policy, r.output);
    ExecOne(s, l);
    if Effective(r) {
      var read, publish := ReadState(r.t), Publish(r.t, r.order);
      var loaded := After(s, l);
      assert Steps(r) == ([l] + [read]) + [publish];
      ExecConcat(s, [l] + [read], [publish]);
      ExecConcat(s, [l], [read]);
      ExecOne(loaded, read);
      var change := loaded.tasks[r.t].change;
      assert Apply(s.byName, r.name, change).Keys ==
        if change.Put? then s.byName.Keys + {r.name} else s.byName.Keys - {r.name};
      ExecOne(After(loaded, read), publish);
    } else {
      assert Steps(r) == [l];
    }
  }

  /** Refreshed one at a time, each provider's list is the output of its latest
      effective load, and it is absent exactly if that load failed under the `Clear`
      policy (or it was never there). */
  lemma {:induction false} OneAtATime(s0: State, rs: seq<Refresh>, s: State, name: string)
    requires Exec(s0, StepsOf(rs)) == Some(s)
    ensures var last := LastEffective(rs, name);
      && (last.None? ==>
            (name in s.byName <==> name in s0.byName) && (name in s.byName ==> s.byName[name] == s0.byName[name]))
      && (last.Some? ==> (name in s.byName <==> last.value.output.Some? && last.value.output != Some([])))
      && (last.Some? && name in s.byName ==> Some(s.byName[name]) == last.value.output)
  {
    if rs != [] {
      var init, r := rs[..|rs| - 1], rs[|rs| - 1];
      ExecConcat(s0, StepsOf(init), Steps(r));
      var mid := Exec(s0, StepsOf(init)).value;
      OneAtATime(s0, init, mid, name);
      WholeRefresh(mid, r, s);
    }
  }

  /** Refresh `i` is the last of its provider that put out networks or clears on failure. */
  ghost predicate IsLastOf(rs: seq<Refresh>, name: string, i: int) {
    && 0 <= i < |rs| && rs[i].name == name && Tells(rs[i])
    && forall j :: i < j < |rs| && rs[j].name == name ==> !Tells(rs[j])
  }

  predicate Tells(r: Refresh) { (r.output.Some? && |r.output.value| > 0) || r.policy == Clear }

  lemma StillLast(rs: seq<Refresh>, name: string, i: int)
    requires rs != [] && IsLastOf(rs[..|rs| - 1], name, i)
    requires var r := rs[|rs| - 1]; r.name == name ==> !Tells(r)
    ensures IsLastOf(rs, name, i) && rs[i] == rs[..|rs| - 1][i]
  {
  }

  lemma {:induction false} LastEffectiveIs(rs: seq<Refresh>, name: string)
    ensures var r := LastEffective(rs, name);
      && (r.Some? ==> exists i :: IsLastOf(rs, name, i) && rs[i] == r.value)
      && (r.None? ==> forall i :: 0 <= i < |rs| && rs[i].name == name ==> !Tells(rs[i]))
  {
    if rs != [] {
      var n := |rs| - 1;
      if rs[n].name == name && Effective(rs[n]) {
        assert IsLastOf(rs, name, n);
      } else {
        LastEffectiveIs(rs[..n], name);
        if LastEffective(rs[..n], name).Some? {
          var i :| IsLastOf(rs[..n], name, i) && rs[..n][i] == LastEffective(rs[..n], name).value;
          StillLast(rs, name, i);
        }
      }
    }
  }

  /** Refreshed one at a time, a provider's list is what its last telling refresh put out,
      and absent exactly if that one put out nothing; without any it is as it was at first. */
  lemma LatestLoadStands(s0: State, rs: seq<Refresh>, s: State, name: string)
    requires Exec(s0, StepsOf(rs)) == Some(s)
    ensures forall i :: IsLastOf(rs, name, i) ==> HoldsOutput(s.byName, name, rs[i].output)
    ensures (forall i :: !IsLastOf(rs, name, i)) ==>
      (name in s.byName <==> name in s0.byName) && (name in s.byName ==> s.byName[name] == s0.byName[name])
  {
    OneAtATime(s0, rs, s, name);
    LastEffectiveIs(rs, name);
  }

  ghost predicate HoldsOutput(m: Snapshots, name: string, output: Option<seq<Cidr>>) {
    if output.None? || output.value == [] then name !in m else name in m && m[name] == output.value
  }

  // ----- when interleaved refreshes lose nothing -----

  /** The publications applied in order. */
  function Fold(m: Snapshots, changes: seq<(string, Change)>): Snapshots {
    if changes == [] then m
    else
      var (name, change) := changes[|changes| - 1];
      Apply(Fold(m, changes[..|changes| - 1]), name, change)
  }

  /** The two states differ at most in what they hold for `name`. */
  predicate AgreeElsewhere(a: Snapshots, b: Snapshots, name: string) { a - {name} == b - {name} }

  lemma ApplySame(a: Snapshots, b: Snapshots, name: string, c: Change)
    ensures Apply(a, name, c) == Apply(b, name, c) <==> AgreeElsewhere(a, b, name)
  {
    if Apply(a, name, c) == Apply(b, name, c) {
      assert Apply(a, name, c) - {name} == a - {name} && Apply(b, name, c) - {name} == b - {name};
    }
    if AgreeElsewhere(a, b, name) {
      forall n | n != name ensures (n in a <==> n in b) && (n in a ==> a[n] == b[n]) {
        assert (n in a - {name} <==> n in a) && (n in b - {name} <==> n in b);
        if n in a { assert (a - {name})[n] == (b - {name})[n]; }
      }
    }
  }

  /** In any state whatever, a publication leaves the state that all publications in
      order give exactly when the state it had read agrees with what they gave before
      it, off its own provider. */
  lemma PublishKeepsAllIff(m: Snapshots, s: State, t: nat, order: seq<string>)
    requires Enabled(s, Publish(t, order))
    ensures var n := After(s, Publish(t, order));
      n.byName == Fold(m, n.changes) <==> AgreeElsewhere(s.tasks[t].base, Fold(m, s.changes), s.tasks[t].name)
  {
    var n := After(s, Publish(t, order));
    assert n.changes[..|n.changes| - 1] == s.changes;
    ApplySame(s.tasks[t].base, Fold(m, s.changes), s.tasks[t].name, s.tasks[t].change);
  }

  /** The run publishes only on bases that agree, off the published provider, with the
      state at that moment. */
  ghost predicate BasesAgree(s0: State, ls: seq<Label>)
    requires Exec(s0, ls).Some?
  {
    ls != [] ==>
      var mid, l := Exec(s0, ls[..|ls| - 1]).value, ls[|ls| - 1];
      && BasesAgree(s0, ls[..|ls| - 1])
      && (l.Publish? ==> AgreeElsewhere(mid.tasks[l.t].base, mid.byName, mid.tasks[l.t].name))
  }

  /** The last publication about a provider, if any. */
  function LastChange(changes: seq<(string, Change)>, name: string): (r: Option<Change>)
    ensures r.Some? ==> (name, r.value) in changes
  {
    if changes == [] then None
    else if changes[|changes| - 1].0 == name then Some(changes[|changes| - 1].1)
    else LastChange(changes[..|changes| - 1], name)
  }

  /** For this provider `now` holds what its last publication says, and what `m` holds if
      there was none. */
  ghost predicate HoldsLast(m: Snapshots, changes: seq<(string, Change)>, now: Snapshots, name: string) {
    match LastChange(changes, name)
    case None => (name in now <==> name in m) && (name in now ==> now[name] == m[name])
    case Some(Put(cidrs)) => name in now && now[name] == cidrs
    case Some(Remove) => name !in now
  }

  lemma {:induction false} FoldHoldsLast(m: Snapshots, changes: seq<(string, Change)>, name: string)
    ensures HoldsLast(m, changes, Fold(m, changes), name)
  {
    if changes != [] { FoldHoldsLast(m, changes[..|changes| - 1], name); }
  }

  /** All publications in order give a state if and only if it holds, for every provider,
      the last publication about it. */
  lemma FoldIsLastChange(m: Snapshots, changes: seq<(string, Change)>, now: Snapshots)
    ensures now == Fold(m, changes) <==> forall name :: HoldsLast(m, changes, now, name)
  {
    forall name ensures HoldsLast(m, changes, Fold(m, changes), name) { FoldHoldsLast(m, changes, name); }
    if forall name :: HoldsLast(m, changes, now, name) {
      var f := Fold(m, changes);
      forall name ensures (name in now <==> name in f) && (name in now ==> now[name] == f[name]) {
        assert HoldsLast(m, changes, now, name) && HoldsLast(m, changes, f, name);
      }
    }
  }

  /** At every moment of the run every provider holds the last publication about it. */
  ghost predicate NeverLoses(s0: State, ls: seq<Label>)
    requires Exec(s0, ls).Some?
  {
    var s := Exec(s0, ls).value;
    (forall name :: HoldsLast(s0.byName, s.changes, s.byName, name)) && (ls != [] ==> NeverLoses(s0, ls[..|ls| - 1]))
  }

  /** No moment of a run has lost a publication exactly when every publication was made
      on a base that agreed with the state it replaced, off its own provider. */
  lemma {:induction false} NothingLostIff(s0: State, ls: seq<Label>)
    requires Initial(s0) && Exec(s0, ls).Some?
    ensures NeverLoses(s0, ls) <==> BasesAgree(s0, ls)
  {
    var s := Exec(s0, ls).value;
    FoldIsLastChange(s0.byName, s.changes, s.byName);
    if ls != [] {
      var mid, l := Exec(s0, ls[..|ls| - 1]).value, ls[|ls| - 1];
      NothingLostIff(s0, ls[..|ls| - 1]);
      FoldIsLastChange(s0.byName, mid.changes, mid.byName);
      if l.Publish? { PublishKeepsAllIff(s0.byName, mid, l.t, l.order); }
    }
  }

  // ----- refreshes that overlap -----

  ghost function OverlapBegins(a: string, xs: seq<Cidr>, b: string, ys: seq<Cidr>): seq<Label> {
    [Load(0, a, KeepLastGood, Some(xs)), Load(1, b, KeepLastGood, Some(ys)), ReadState(0), ReadState(1)]
  }

  /** Both refreshes have loaded and have read the same state. */
  ghost function BothRead(s0: State, a: string, xs: seq<Cidr>, b: string, ys: seq<Cidr>): State {
    s0.(tasks := map[0 := Read(a, Put(xs), s0.byName), 1 := Read(b, Put(ys), s0.byName)],
        loads := s0.loads + [(a, xs)] + [(b, ys)])
  }

  /** Both refreshes have loaded. */
  ghost function BothLoaded(s0: State, a: string, xs: seq<Cidr>, b: string, ys: seq<Cidr>): State {
    s0.(tasks := map[0 := Pending(a, Put(xs)), 1 := Pending(b, Put(ys))], loads := s0.loads + [(a, xs)] + [(b, ys)])
  }

  lemma BothLoadSteps(s0: State, a: string, xs: seq<Cidr>, b: string, ys: seq<Cidr>) returns (s1: State)
    requires s0.tasks == map[] && xs != [] && ys != []
    ensures var l1, l2 := Load(0, a, KeepLastGood, Some(xs)), Load(1, b, KeepLastGood, Some(ys));
      && Enabled(s0, l1) && After(s0, l1) == s1
      && Enabled(s1, l2) && After(s1, l2) == BothLoaded(s0, a, xs, b, ys)
  {
    s1 := s0.(tasks := map[0 := Pending(a, Put(xs))], loads := s0.loads + [(a, xs)]);
    assert After(s0, Load(0, a, KeepLastGood, Some(xs))) == s1;
  }

  lemma OverlapLoads(s0: State, a: string, xs: seq<Cidr>, b: string, ys: seq<Cidr>)
    requires Initial(s0) && xs != [] && ys != []
    ensures Exec(s0, OverlapBegins(a, xs, b, ys)[..2]) == Some(BothLoaded(s0, a, xs, b, ys))
  {
    var l1, l2 := Load(0, a, KeepLastGood, Some(xs)), Load(1, b, KeepLastGood, Some(ys));
    var s1 := BothLoadSteps(s0, a, xs, b, ys);
    ExecOne(s0, l1);
    Chain(s0, [l1], s1, l2);
    assert [l1] + [l2] == OverlapBegins(a, xs, b, ys)[..2];
  }

  lemma BothReadSteps(s0: State, a: string, xs: seq<Cidr>, b: string, ys: seq<Cidr>) returns (s3: State)
    requires Initial(s0)
    ensures var s2 := BothLoaded(s0, a, xs, b, ys);
      && Enabled(s2, ReadState(0)) && After(s2, ReadState(0)) == s3
      && Enabled(s3, ReadState(1)) && After(s3, ReadState(1)) == BothRead(s0, a, xs, b, ys)
  {
    var s2 := BothLoaded(s0, a, xs, b, ys);
    s3 := s2.(tasks := map[0 := Read(a, Put(xs), s0.byName), 1 := Pending(b, Put(ys))]);
    assert After(s2, ReadState(0)) == s3;
  }

  lemma OverlapReads(s0: State, a: string, xs: seq<Cidr>, b: string, ys: seq<Cidr>)
    requires Initial(s0) && xs != [] && ys != []
    ensures Exec(s0, OverlapBegins(a, xs, b, ys)) == Some(BothRead(s0, a, xs, b, ys))
  {
    var run := OverlapBegins(a, xs, b, ys);
    OverlapLoads(s0, a, xs, b, ys);
    var s3 := BothReadSteps(s0, a, xs, b, ys);
    Chain(s0, run[..2], BothLoaded(s0, a, xs, b, ys), ReadState(0));
    assert run[..2] + [ReadState(0)] == run[..3];
    Chain(s0, run[..3], s3, ReadState(1));
    assert run[..3] + [ReadState(1)] == run;
  }

  /** The first publishes; the second still has the state from before. */
  lemma OverlapPublishes(s0: State, a: string, xs: seq<Cidr>, b: string, ys: seq<Cidr>, o1: seq<string>)
    returns (s5: State)
    requires Initial(s0) && xs != [] && ys != [] && Enumerates(o1, s0.byName.Keys + {a})
    ensures Exec(s0, OverlapBegins(a, xs, b, ys) + [Publish(0, o1)]) == Some(s5)
    ensures s5.changes == [(a, Put(xs))] && 1 in s5.tasks && s5.tasks[1] == Read(b, Put(ys), s0.byName)
  {
    var s4, run := BothRead(s0, a, xs, b, ys), OverlapBegins(a, xs, b, ys);
    OverlapReads(s0, a, xs, b, ys);
    assert Apply(s0.byName, a, Put(xs)).Keys == s0.byName.Keys + {a};
    Chain(s0, run, s4, Publish(0, o1));
    s5 := After(s4, Publish(0, o1));
  }

  /** When both have read before either publishes, only the second remains: the first
      is lost unless they refresh the same provider or it changed nothing. */
  lemma OverlapLosesARefresh(s0: State, a: string, xs: seq<Cidr>, b: string, ys: seq<Cidr>, o1: seq<string>,
                             o2: seq<string>)
    requires Initial(s0) && xs != [] && ys != []
    requires Enumerates(o1, s0.byName.Keys + {a}) && Enumerates(o2, s0.byName.Keys + {b})
    ensures var end := Exec(s0, OverlapBegins(a, xs, b, ys) + [Publish(0, o1)] + [Publish(1, o2)]);
      && end.Some? && end.value.changes == [(a, Put(xs)), (b, Put(ys))]
      && end.value.byName == s0.byName[b := ys]
      && (end.value.byName == Fold(s0.byName, end.value.changes) <==>
            a == b || (a in s0.byName && s0.byName[a] == xs))
  {
    var s5 := OverlapPublishes(s0, a, xs, b, ys, o1);
    assert Apply(s0.byName, b, Put(ys)).Keys == s0.byName.Keys + {b};
    Chain(s0, OverlapBegins(a, xs, b, ys) + [Publish(0, o1)], s5, Publish(1, o2));
    PublishKeepsAllIff(s0.byName, s5, 1, o2);
    var f := Fold(s0.byName, s5.changes);
    assert s5.changes[..0] == [] && f == s0.byName[a := xs];
    AgreesUnlessChanged(s0.byName, a, xs, b);
  }

  lemma AgreesUnlessChanged(m: Snapshots, a: string, xs: seq<Cidr>, b: string)
    ensures AgreeElsewhere(m, m[a := xs], b) <==> a == b || (a in m && m[a] == xs)
  {
    if AgreeElsewhere(m, m[a := xs], b) && a != b {
      assert a in m[a := xs] - {b} && (m[a := xs] - {b})[a] == xs;
      assert a in m - {b};
    }
  }

  lemma Chain(s0: State, ls: seq<Label>, s: State, l: Label)
    requires Exec(s0, ls) == Some(s) && Enabled(s, l)
    ensures Exec(s0, ls + [l]) == Some(After(s, l))
  {
    assert (ls + [l])[..|ls|] == ls;
  }
}
