/** Who holds the two locks of a mutator call, that calls always get on, and what a call
    has published when it answers (packages/creds-manage/src/store.rs). */
module StoreLocks {
  import opened Wrappers
  import opened CredsMutations
  import opened StoreProtocol
  import opened StoreLinearizable

  // ----- the in-process lock -----

  /** The phases between taking the store's lock and returning. */
  predicate InsideCall(p: Phase) {
    || p.HoldsIo? || p.HoldsFile? || p.Loaded? || p.Ready? || p.Written? || p.Unlocked? || p.Marked? || p.Published?
  }

  /** A call of store `x` that is still awaited and has entered its critical section. */
  predicate Inside(w: Writer, x: nat) { w.store == x && w.attached && InsideCall(w.phase) }

  ghost predicate IoInvariant(s: State) {
    && (forall t :: t in s.writers ==> s.writers[t].store in s.stores)
    && (forall t :: t in s.writers && s.writers[t].phase.Waiting? ==> s.writers[t].attached)
    && (forall x, t :: x in s.stores ==> (s.stores[x].ioLock == Some(t) <==> t in s.writers && Inside(s.writers[t], x)))
  }

  /** A call's own lock follows its phase. */
  lemma IoFollowsPhase(c: Env, s: State, l: Label)
    requires Enabled(c, s, l) && IsWriterStep(l) && !l.Invoke?
    requires var w := s.writers[l.t]; w.phase.Waiting? ==> w.attached
    requires var w := s.writers[l.t]; s.stores[w.store].ioLock == Some(l.t) <==> Inside(w, w.store)
    ensures var w, st := NextWriter(c, s, l), NextOwnStore(c, s, l);
            && (st.ioLock == Some(l.t) <==> Inside(w, w.store)) && (w.phase.Waiting? ==> w.attached)
    ensures var was, now := s.stores[s.writers[l.t].store].ioLock, NextOwnStore(c, s, l).ioLock;
            now == was || (was.None? && now == Some(l.t)) || (was == Some(l.t) && now.None?)
  {
  }

  lemma IoStep(c: Env, s: State, l: Label)
    requires IoInvariant(s) && Enabled(c, s, l)
    ensures IoInvariant(After(c, s, l))
  {
    if IsWriterStep(l) {
      if l.Invoke? {
        IoInvoke(c, s, l);
      } else {
        IoFollowsPhase(c, s, l);
        IoMoves(s, AfterWriter(c, s, l), l.t, NextWriter(c, s, l), NextOwnStore(c, s, l));
      }
    } else if l.Open? {
      IoOpen(c, s, l);
    } else if IsReload(l) {
      IoReload(c, s, l);
    }
  }

  lemma IoInvoke(c: Env, s: State, l: Label)
    requires IoInvariant(s) && Enabled(c, s, l) && l.Invoke?
    ensures IoInvariant(AfterWriter(c, s, l))
  {
  }

  /** Opening a store and reload passes have nothing to do with the lock. */
  lemma IoOpen(c: Env, s: State, l: Label)
    requires IoInvariant(s) && Enabled(c, s, l) && l.Open?
    ensures IoInvariant(After(c, s, l))
  {
    var n := After(c, s, l);
    forall x, t | x in n.stores ensures n.stores[x].ioLock == Some(t) <==> t in n.writers && Inside(n.writers[t], x) {
      if x in s.stores { assert n.stores[x].ioLock == s.stores[x].ioLock; }
    }
  }

  lemma IoReload(c: Env, s: State, l: Label)
    requires IoInvariant(s) && Enabled(c, s, l) && IsReload(l)
    ensures IoInvariant(After(c, s, l))
  {
    var n := After(c, s, l);
    forall x, t | x in n.stores ensures n.stores[x].ioLock == Some(t) <==> t in n.writers && Inside(n.writers[t], x) {
      assert n.stores[x].ioLock == s.stores[x].ioLock;
    }
  }

  lemma IoMoves(s: State, n: State, t: nat, w: Writer, st: Store)
    requires IoInvariant(s) && t in s.writers && w.store == s.writers[t].store
    requires n.writers == s.writers[t := w] && n.stores == s.stores[w.store := st]
    requires (st.ioLock == Some(t) <==> Inside(w, w.store)) && (w.phase.Waiting? ==> w.attached)
    requires var was := s.stores[w.store].ioLock;
             st.ioLock == was || (was.None? && st.ioLock == Some(t)) || (was == Some(t) && st.ioLock.None?)
    ensures IoInvariant(n)
  {
    forall x, u | x in n.stores ensures n.stores[x].ioLock == Some(u) <==> u in n.writers && Inside(n.writers[u], x) {
      assert s.stores[x].ioLock == Some(u) <==> u in s.writers && Inside(s.writers[u], x);
      assert s.stores[x].ioLock == Some(t) <==> Inside(s.writers[t], x);
    }
  }

  lemma {:induction false} IoHolds(c: Env, disk: Bytes, ls: seq<Label>, s: State)
    requires Reachable(c, disk, ls, s)
    ensures IoInvariant(s)
  {
    if ls != [] {
      var mid := Exec(c, Init(disk), ls[..|ls| - 1]).value;
      IoHolds(c, disk, ls[..|ls| - 1], mid);
      IoStep(c, mid, ls[|ls| - 1]);
    }
  }

  /** In every reachable state a call holds its store's lock exactly from entering its
      critical section until it returns or is dropped, and the file lock exactly from
      taking it until it has written or given up. */
  lemma LocksHeldExactly(c: Env, disk: Bytes, ls: seq<Label>, s: State, t: nat)
    requires Reachable(c, disk, ls, s) && t in s.writers
    ensures var w := s.writers[t];
      && w.store in s.stores
      && (forall x :: x in s.stores ==> (s.stores[x].ioLock == Some(t) <==> Inside(w, x)))
      && (s.fileLock == Some(t) <==> Holding(w.phase))
  {
    IoHolds(c, disk, ls, s);
    InvariantsHold(c, disk, ls, s);
  }

  /** A call that has ended, well or not, holds no lock. */
  lemma EndedCallHoldsNothing(c: Env, disk: Bytes, ls: seq<Label>, s: State, t: nat)
    requires Reachable(c, disk, ls, s) && t in s.writers && Ended(s.writers[t].phase)
    ensures s.fileLock != Some(t) && forall x :: x in s.stores ==> s.stores[x].ioLock != Some(t)
  {
    LocksHeldExactly(c, disk, ls, s, t);
  }

  /** A valid call that waits can enter exactly when no other call of its store is inside. */
  lemma EntersExactlyWhenFree(c: Env, disk: Bytes, ls: seq<Label>, s: State, t: nat)
    requires Reachable(c, disk, ls, s) && t in s.writers
    requires s.writers[t].phase.Waiting? && Validate(s.writers[t].op).None?
    ensures Enabled(c, s, LockIo(t)) <==> !exists u :: u in s.writers && Inside(s.writers[u], s.writers[t].store)
  {
    IoHolds(c, disk, ls, s);
    var x := s.writers[t].store;
    if s.stores[x].ioLock.Some? { assert Inside(s.writers[s.stores[x].ioLock.value], x); }
  }

  // ----- calls get on -----

  /** A step of a call other than being made, dropped or failing by itself. */
  predicate Progress(l: Label) { IsWriterStep(l) && !l.Invoke? && !l.Detach? && !l.FailIo? }

  /** Some call waits for ids that are not in use. */
  ghost predicate DrawsAgain(c: Env, s: State, t: nat) {
    t in s.writers && s.writers[t].phase.Loaded? && !c.drawsNew(s.writers[t].op, s.writers[t].phase.base)
  }

  /** The next step of a call that holds the file lock. */
  lemma HolderProceeds(c: Env, s: State, t: nat)
    requires t in s.writers && s.writers[t].store in s.stores && Holding(s.writers[t].phase)
    ensures DrawsAgain(c, s, t) || exists l :: Progress(l) && Enabled(c, s, l)
  {
    var p := s.writers[t].phase;
    var l := if p.HoldsFile? then Load(t) else if p.Loaded? then RunOp(t) else if p.Ready? then Write(t) else Unlock(t);
    if !DrawsAgain(c, s, t) { assert Progress(l) && Enabled(c, s, l); }
  }

  lemma InsideProceeds(c: Env, s: State, t: nat)
    requires LockInvariant(s) && t in s.writers && InsideCall(s.writers[t].phase)
    ensures (exists u :: DrawsAgain(c, s, u)) || exists l :: Progress(l) && Enabled(c, s, l)
  {
    var p := s.writers[t].phase;
    if Holding(p) {
      HolderProceeds(c, s, t);
    } else if p.HoldsIo? {
      if s.fileLock.Some? { HolderProceeds(c, s, s.fileLock.value); } else { assert Enabled(c, s, LockFile(t)); }
    } else {
      var l := if p.Unlocked? then Mark(t) else if p.Marked? then Publish(t) else Answer(t);
      assert Progress(l) && Enabled(c, s, l);
    }
  }

  /** No deadlock: while any call has not ended, some call can take its next step. */
  lemma CallsGetOn(c: Env, disk: Bytes, ls: seq<Label>, s: State, t: nat)
    requires Reachable(c, disk, ls, s) && t in s.writers && !Ended(s.writers[t].phase)
    ensures (exists u :: DrawsAgain(c, s, u)) || exists l :: Progress(l) && Enabled(c, s, l)
  {
    IoHolds(c, disk, ls, s);
    InvariantsHold(c, disk, ls, s);
    var w := s.writers[t];
    if InsideCall(w.phase) {
      InsideProceeds(c, s, t);
    } else if Validate(w.op).Some? {
      assert Enabled(c, s, Reject(t));
    } else if s.stores[w.store].ioLock.Some? {
      InsideProceeds(c, s, s.stores[w.store].ioLock.value);
    } else {
      assert Enabled(c, s, LockIo(t));
    }
  }

  /** The steps a call has left at most. */
  function StepsLeft(p: Phase): nat {
    match p
    case Waiting => 9
    case HoldsIo => 8
    case HoldsFile => 7
    case Loaded(_) => 6
    case Ready(_, _, _) => 5
    case Written(_, _, _) => 4
    case Unlocked(_, _, _) => 3
    case Marked(_, _, _) => 2
    case Published(_, _) => 1
    case _ => 0
  }

  /** And every step it takes is one of at most nine. */
  lemma EachStepAdvances(c: Env, disk: Bytes, logged: nat, w: Writer, l: Label)
    requires MayStep(c, w, l) && !l.Detach?
    ensures StepsLeft(NextPhase(c, disk, logged, w, l)) < StepsLeft(w.phase)
    ensures StepsLeft(w.phase) == 0 <==> Ended(w.phase)
  {
  }

  // ----- what is published -----

  /** What the file held after the commit at that position of the log. */
  ghost predicate CommitShown(c: Env, s: State, p: Phase) {
    p.Written? || p.Unlocked? || p.Marked? ==> p.at + 1 < |s.history| && s.history[p.at + 1] == c.render(p.data)
  }

  ghost predicate ShownInvariant(c: Env, s: State) {
    && |s.history| == |s.log| + 1
    && forall t :: t in s.writers ==> CommitShown(c, s, s.writers[t].phase)
  }

  lemma ShownPhase(c: Env, s: State, w: Writer, l: Label)
    requires MayStep(c, w, l) && !l.Write? && CommitShown(c, s, w.phase)
    ensures CommitShown(c, s, NextPhase(c, s.disk, |s.log|, w, l))
  {
  }

  lemma ShownStep(c: Env, s: State, l: Label)
    requires ShownInvariant(c, s) && Enabled(c, s, l)
    ensures ShownInvariant(c, After(c, s, l))
  {
    var n := After(c, s, l);
    if IsWriterStep(l) && !l.Invoke? && !l.Write? { ShownPhase(c, s, s.writers[l.t], l); }
    forall t | t in n.writers ensures CommitShown(c, n, n.writers[t].phase) {
      if t in s.writers { assert CommitShown(c, s, s.writers[t].phase); }
    }
  }

  lemma {:induction false} ShownHolds(c: Env, disk: Bytes, ls: seq<Label>, s: State)
    requires Reachable(c, disk, ls, s)
    ensures ShownInvariant(c, s)
  {
    if ls != [] {
      var mid := Exec(c, Init(disk), ls[..|ls| - 1]).value;
      ShownHolds(c, disk, ls[..|ls| - 1], mid);
      ShownStep(c, mid, ls[|ls| - 1]);
    }
  }

  /** A call marks its store with the hash of exactly the bytes it committed, and publishes
      there exactly the data they parse to; no other store is touched. */
  lemma CallPublishesItsCommit(c: Env, disk: Bytes, ls: seq<Label>, s: State, t: nat)
    requires Lawful(c) && Reachable(c, disk, ls, s) && t in s.writers
    ensures var w := s.writers[t];
      && (Enabled(c, s, Mark(t)) ==>
            && w.phase.at + 1 < |s.history|
            && var n := After(c, s, Mark(t));
            && n.stores == s.stores[w.store := s.stores[w.store].(marker := Some(c.digest(s.history[w.phase.at + 1])))]
            && n.disk == s.disk && n.log == s.log)
      && (Enabled(c, s, Publish(t)) ==>
            && w.phase.at + 1 < |s.history|
            && var n := After(c, s, Publish(t));
            && c.readBytes(s.history[w.phase.at + 1]) == Some(n.stores[w.store].cache)
            && n.stores == s.stores[w.store := s.stores[w.store].(cache := n.stores[w.store].cache)]
            && n.disk == s.disk && n.log == s.log)
  {
    ShownHolds(c, disk, ls, s);
    assert CommitShown(c, s, s.writers[t].phase);
  }

  /** What a call writes is what its closure made of the data the call had loaded. */
  lemma CommitIsWhatWasRun(c: Env, disk: Bytes, ls: seq<Label>, s: State, t: nat)
    requires Reachable(c, disk, ls, s) && Enabled(c, s, Write(t))
    ensures var w, n := s.writers[t], After(c, s, Write(t));
      && c.run(w.op, w.phase.base) == Outcome(w.phase.data, Ok(w.phase.reply))
      && n.disk == c.render(c.run(w.op, w.phase.base).data)
      && n.log == s.log + [ByWriter(t, w.op, w.phase.reply)] && n.stores == s.stores
  {
    InvariantsHold(c, disk, ls, s);
    assert WorkInvariant(c, s.disk, s.clobbered, s.writers[t]);
  }
}
