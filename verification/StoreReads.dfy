/** What opening a store and a whole reload pass leave in it, and why a call fails
    (packages/creds-manage/src/store.rs). */
module StoreReads {
  import opened Wrappers
  import opened CredsModels
  import opened CredsMutations
  import opened StoreProtocol

  // ----- opening and reloading -----

  /** A store that is opened holds what the file holds, with no marker and no lock taken. */
  lemma OpenReadsFile(c: Env, s: State, x: nat)
    requires Enabled(c, s, Open(x))
    ensures var n := After(c, s, Open(x));
      && x in n.stores && c.readBytes(s.disk) == Some(n.stores[x].cache) && n.stores[x].marker.None?
      && n.stores[x].ioLock.None? && n.stores[x].reload.Idle?
      && n == s.(stores := n.stores) && (forall y :: y in s.stores ==> y in n.stores && n.stores[y] == s.stores[y])
  {
  }

  /** What a whole pass leaves: it skips the content its own store has marked, keeps the
      snapshot if the file cannot be read, and else takes what the file holds. */
  function Reloaded(c: Env, disk: Bytes, st: Store): Store {
    if st.marker == Some(c.digest(disk)) then st.(marker := None)
    else if c.readBytes(disk).None? then st
    else st.(cache := c.readBytes(disk).value)
  }

  /** The state with store `x` replaced. */
  function With(s: State, x: nat, st: Store): State { s.(stores := s.stores[x := st]) }

  lemma ReloadStep(c: Env, s: State, x: nat, st: Store, l: Label)
    requires x in s.stores && IsReload(l) && l.x == x && !l.ReadDisk? && Enabled(c, With(s, x, st), l)
    ensures After(c, With(s, x, st), l) == With(s, x, NextReload(c, s.disk, st, l))
  {
    assert s.stores[x := st][x := NextReload(c, s.disk, st, l)] == s.stores[x := NextReload(c, s.disk, st, l)];
  }

  /** The pass has brought store `x` to `st` and touched nothing else. */
  ghost predicate Brought(c: Env, s: State, x: nat, ls: seq<Label>, st: Store) {
    && Exec(c, s, ls) == Some(With(s, x, st))
    && forall i :: 0 <= i < |ls| ==> IsReload(ls[i]) && ls[i].x == x
  }

  lemma PassReads(c: Env, s: State, x: nat)
    requires x in s.stores && s.stores[x].reload.Idle? && s.fileLock.None?
    ensures Brought(c, s, x, [ReadDisk(x)], s.stores[x].(reload := Raw(s.disk)))
  {
    Extend(c, s, [], s, ReadDisk(x));
    assert [] + [ReadDisk(x)] == [ReadDisk(x)];
  }

  lemma PassStep(c: Env, s: State, x: nat, st: Store, ls: seq<Label>, l: Label)
    requires x in s.stores && IsReload(l) && l.x == x && Brought(c, s, x, ls, st)
    requires !l.ReadDisk? && Enabled(c, With(s, x, st), l)
    ensures Brought(c, s, x, ls + [l], NextReload(c, s.disk, st, l))
  {
    ReloadStep(c, s, x, st, l);
    Extend(c, s, ls, With(s, x, st), l);
  }

  lemma SameContent(c: Env, disk: Bytes, d: DataFile)
    requires Lawful(c) && c.digest(c.render(d)) == c.digest(disk)
    ensures c.readBytes(disk) == Some(d)
  {
  }

  lemma PassChecks(c: Env, s: State, x: nat)
    requires x in s.stores && s.stores[x].reload.Idle? && s.fileLock.None?
    ensures var st := s.stores[x];
      Brought(c, s, x, [ReadDisk(x)] + [CheckMarker(x)],
              if st.marker == Some(c.digest(s.disk)) then st.(marker := None) else st.(reload := Unmarked(s.disk)))
  {
    PassReads(c, s, x);
    PassStep(c, s, x, s.stores[x].(reload := Raw(s.disk)), [ReadDisk(x)], CheckMarker(x));
  }

  lemma PassEnds(c: Env, s: State, x: nat, ls: seq<Label>, d: DataFile) returns (more: seq<Label>)
    requires Lawful(c) && x in s.stores && s.stores[x].reload.Idle? && c.readBytes(s.disk) == Some(d)
    requires Brought(c, s, x, ls, s.stores[x].(reload := Parsed(s.disk, d)))
    ensures Brought(c, s, x, more, s.stores[x].(cache := d))
  {
    var st := s.stores[x];
    PassStep(c, s, x, st.(reload := Parsed(s.disk, d)), ls, Compare(x));
    more := ls + [Compare(x)];
    if c.digest(c.render(st.cache)) == c.digest(s.disk) {
      SameContent(c, s.disk, st.cache);
    } else {
      PassStep(c, s, x, st.(reload := Differs(d)), more, Swap(x));
      more := more + [Swap(x)];
    }
  }

  /** A pass that nothing interrupts does exactly that, from any snapshot and marker. */
  lemma WholePass(c: Env, s: State, x: nat) returns (ls: seq<Label>)
    requires Lawful(c) && x in s.stores && s.stores[x].reload.Idle? && s.fileLock.None?
    ensures Brought(c, s, x, ls, Reloaded(c, s.disk, s.stores[x]))
  {
    var st, d := s.stores[x], c.readBytes(s.disk);
    ls := [ReadDisk(x)] + [CheckMarker(x)];
    PassChecks(c, s, x);
    if st.marker != Some(c.digest(s.disk)) {
      PassStep(c, s, x, st.(reload := Unmarked(s.disk)), ls, Parse(x));
      ls := ls + [Parse(x)];
      if d.Some? { ls := PassEnds(c, s, x, ls, d.value); }
    }
  }

  // ----- why a call fails -----

  /** Some content the file has held was loaded as `d`. */
  ghost predicate WasLoaded(c: Env, history: seq<Bytes>, d: DataFile) {
    exists b :: b in history && c.readText(b) == Some(d)
  }

  /** What a call has loaded the file has held, and a failed call has a reason. */
  ghost predicate Explained(c: Env, history: seq<Bytes>, ls: seq<Label>, t: nat, w: Writer) {
    match w.phase
    case Loaded(base) => WasLoaded(c, history, base)
    case Refused(Rejected(e)) =>
      || Validate(w.op) == Some(e)
      || exists d :: WasLoaded(c, history, d) && c.run(w.op, d).reply == Err(e)
    case Refused(Unreadable) => exists b :: b in history && c.readText(b).None?
    case Refused(IoFailed) => FailIo(t) in ls
    case _ => true
  }

  lemma ExplainedLater(c: Env, h: seq<Bytes>, h': seq<Bytes>, ls: seq<Label>, ls': seq<Label>, t: nat, w: Writer)
    requires Explained(c, h, ls, t, w) && (forall b :: b in h ==> b in h') && forall l :: l in ls ==> l in ls'
    ensures Explained(c, h', ls', t, w)
  {
    assert forall d :: WasLoaded(c, h, d) ==> WasLoaded(c, h', d);
  }

  lemma ExplainedStep(c: Env, s: State, ls: seq<Label>, l: Label)
    requires Enabled(c, s, l) && IsWriterStep(l) && !l.Invoke? && s.disk in s.history
    requires Explained(c, s.history, ls, l.t, s.writers[l.t])
    ensures Explained(c, s.history, ls + [l], l.t, NextWriter(c, s, l))
  {
    var w := s.writers[l.t];
    if l.FailIo? { assert FailIo(l.t) in ls + [l]; }
    if l.RunOp? && c.run(w.op, w.phase.base).reply.Err? { assert WasLoaded(c, s.history, w.phase.base); }
  }

  ghost predicate AllExplained(c: Env, s: State, ls: seq<Label>) {
    s.disk in s.history && forall t :: t in s.writers ==> Explained(c, s.history, ls, t, s.writers[t])
  }

  lemma AllExplainedStep(c: Env, s: State, ls: seq<Label>, l: Label)
    requires AllExplained(c, s, ls) && Enabled(c, s, l)
    ensures AllExplained(c, After(c, s, l), ls + [l])
  {
    var n := After(c, s, l);
    if IsWriterStep(l) && !l.Invoke? { ExplainedStep(c, s, ls, l); }
    forall t | t in n.writers ensures Explained(c, n.history, ls + [l], t, n.writers[t]) {
      if IsWriterStep(l) && l.t == t {
        if !l.Invoke? { ExplainedLater(c, s.history, n.history, ls + [l], ls + [l], t, n.writers[t]); }
      } else {
        ExplainedLater(c, s.history, n.history, ls, ls + [l], t, s.writers[t]);
      }
    }
  }

  /** In every run a failed call was refused for its arguments, by its mutator on data the
      file has held, because the file held something unreadable, or by a failing file system. */
  lemma {:induction false} FailureHasReason(c: Env, disk: Bytes, ls: seq<Label>, s: State)
    requires Reachable(c, disk, ls, s)
    ensures AllExplained(c, s, ls)
  {
    if ls != [] {
      var init, l := ls[..|ls| - 1], ls[|ls| - 1];
      var mid := Exec(c, Init(disk), init).value;
      FailureHasReason(c, disk, init, mid);
      AllExplainedStep(c, mid, init, l);
      assert ls == init + [l];
    }
  }
}
