/** What readers and failed calls can rely on, and what an editor cannot. */
module StoreSafety {
  import opened Wrappers
  import opened CredsModels
  import opened CredsMutations
  import opened CredsIntegrity
  import opened StoreProtocol
  import opened StoreLinearizable

  // ----- every snapshot is integral -----

  ghost predicate BytesIntegral(c: Env, b: Bytes) {
    && (c.readText(b).Some? ==> Integral(c.readText(b).value))
    && (c.readBytes(b).Some? ==> Integral(c.readBytes(b).value))
  }

  ghost predicate PhaseIntegral(p: Phase) {
    && (InReadModifyWrite(p) ==> Integral(p.base))
    && (p.Ready? ==> Integral(p.data))
  }

  ghost predicate ContentIntegral(c: Env, s: State) {
    && s.disk in s.history
    && (forall b :: b in s.history ==> BytesIntegral(c, b))
    && (forall t :: t in s.writers ==> PhaseIntegral(s.writers[t].phase))
  }

  lemma IntegralPhaseStep(c: Env, s: State, w: Writer, l: Label)
    requires RunsMutators(c) && ContentIntegral(c, s) && MayStep(c, w, l) && PhaseIntegral(w.phase)
    ensures PhaseIntegral(NextPhase(c, s.disk, |s.log|, w, l))
  {
    if l.RunOp? {
      assert c.run(w.op, w.phase.base) == Apply(w.op, w.phase.base);
      if Apply(w.op, w.phase.base).reply.Ok? { MutationKeepsIntegrity(w.op, w.phase.base); }
    } else if l.Load? {
      assert BytesIntegral(c, s.disk);
    }
  }

  lemma IntegralStep(c: Env, s: State, l: Label)
    requires Lawful(c) && RunsMutators(c) && ContentIntegral(c, s) && Enabled(c, s, l)
    requires l.Edit? ==> BytesIntegral(c, l.bytes)
    ensures ContentIntegral(c, After(c, s, l))
  {
    if IsWriterStep(l) && !l.Invoke? {
      IntegralPhaseStep(c, s, s.writers[l.t], l);
      if l.Write? { assert BytesIntegral(c, c.render(s.writers[l.t].phase.data)); }
    }
  }

  lemma {:induction false} ContentStaysIntegral(c: Env, disk: Bytes, ls: seq<Label>, s: State)
    requires Lawful(c) && RunsMutators(c) && Reachable(c, disk, ls, s)
    requires BytesIntegral(c, disk)
    requires forall i :: 0 <= i < |ls| && ls[i].Edit? ==> BytesIntegral(c, ls[i].bytes)
    ensures ContentIntegral(c, s)
  {
    if ls != [] {
      var mid := Exec(c, Init(disk), ls[..|ls| - 1]).value;
      ContentStaysIntegral(c, disk, ls[..|ls| - 1], mid);
      IntegralStep(c, mid, ls[|ls| - 1]);
    }
  }

  /** If the file starts integral and editors only write integral content, every
      snapshot any reader can ever load, from any store, is integral. */
  lemma EverySnapshotIntegral(c: Env, disk: Bytes, ls: seq<Label>, s: State, x: nat)
    requires Lawful(c) && RunsMutators(c) && Reachable(c, disk, ls, s) && x in s.stores
    requires BytesIntegral(c, disk)
    requires forall i :: 0 <= i < |ls| && ls[i].Edit? ==> BytesIntegral(c, ls[i].bytes)
    ensures Integral(s.stores[x].cache)
  {
    ContentStaysIntegral(c, disk, ls, s);
    SnapshotsWereOnDisk(c, disk, ls, s, x);
    var b :| b in s.history && c.readBytes(b) == Some(s.stores[x].cache);
    assert BytesIntegral(c, b);
  }

  // ----- a failed call leaves no trace -----

  predicate Actor(l: Label, t: nat) { IsWriterStep(l) && l.t == t }

  /** The call is committed, and so can no longer fail. */
  predicate PastWrite(p: Phase) { HasReply(p) || (p.Dropped? && p.commit.Some?) }

  lemma PastWriteStays(c: Env, s: State, l: Label, t: nat)
    requires Enabled(c, s, l) && t in s.writers && PastWrite(s.writers[t].phase)
    ensures t in After(c, s, l).writers && PastWrite(After(c, s, l).writers[t].phase)
  {
    if IsWriterStep(l) && !l.Invoke? && l.t == t { KeepsPastWrite(c, s.disk, |s.log|, s.writers[t], l); }
  }

  lemma KeepsPastWrite(c: Env, disk: Bytes, logged: nat, w: Writer, l: Label)
    requires MayStep(c, w, l) && PastWrite(w.phase)
    ensures PastWrite(NextPhase(c, disk, logged, w, l))
  {
  }

  lemma {:induction false} PastWriteForever(c: Env, s: State, ls: seq<Label>, s': State, t: nat)
    requires Exec(c, s, ls) == Some(s') && t in s.writers && PastWrite(s.writers[t].phase)
    ensures t in s'.writers && PastWrite(s'.writers[t].phase)
  {
    if ls != [] {
      var mid := Exec(c, s, ls[..|ls| - 1]).value;
      PastWriteForever(c, s, ls[..|ls| - 1], mid, t);
      PastWriteStays(c, mid, ls[|ls| - 1], t);
    }
  }

  /** Everything but locks and writers' progress is the same. */
  ghost predicate SameData(s: State, s': State) {
    && s'.disk == s.disk && s'.history == s.history && s'.log == s.log && s'.clobbered == s.clobbered
    && s'.stores.Keys == s.stores.Keys
    && forall x :: x in s.stores ==> s'.stores[x] == s.stores[x].(ioLock := s'.stores[x].ioLock)
  }

  /** Every step a call took that in the end failed left the disk, every
      snapshot and every self-write marker as they were, even if its closure had
      already changed its private copy. */
  lemma FailedCallTouchesNothing(c: Env, s: State, l: Label, ls: seq<Label>, s': State, t: nat)
    requires Enabled(c, s, l) && Actor(l, t)
    requires Exec(c, After(c, s, l), ls) == Some(s')
    requires t in s'.writers && s'.writers[t].phase.Refused?
    ensures SameData(s, After(c, s, l))
  {
    var s1 := After(c, s, l);
    if PastWrite(s1.writers[t].phase) {
      PastWriteForever(c, s1, ls, s', t);
      assert false;
    }
    assert !l.Write? && !l.Mark? && !l.Publish?;
  }

  // ----- what an edit behind the lock costs -----

  /** A state with one store and one call, both numbered 0. */
  function Single(disk: Bytes, lock: Option<nat>, st: Store, w: Writer, log: seq<Commit>, history: seq<Bytes>,
                  clobbered: bool): State
  {
    State(disk, lock, map[0 := st], map[0 := w], log, history, clobbered)
  }

  lemma Overwrite<T>(a: T, b: T)
    ensures map[0 := a][0 := b] == map[0 := b]
  {
  }

  /** One step of the single call. */
  lemma CallStepOf(c: Env, disk: Bytes, lock: Option<nat>, st: Store, w: Writer, log: seq<Commit>, history: seq<Bytes>,
                   clobbered: bool, l: Label)
    requires IsWriterStep(l) && !l.Invoke? && !l.Write? && l.t == 0 && w.store == 0
    requires Enabled(c, Single(disk, lock, st, w, log, history, clobbered), l)
    ensures var s := Single(disk, lock, st, w, log, history, clobbered);
      After(c, s, l) ==
        Single(disk, NextFileLock(c, s, l), NextOwnStore(c, s, l), NextWriter(c, s, l), log, history, clobbered)
  {
    var s := Single(disk, lock, st, w, log, history, clobbered);
    Overwrite(st, NextOwnStore(c, s, l));
    Overwrite(w, NextWriter(c, s, l));
  }

  /** The single call writes the file. */
  lemma CallWrites(c: Env, disk: Bytes, lock: Option<nat>, st: Store, w: Writer, log: seq<Commit>, history: seq<Bytes>,
                   clobbered: bool)
    requires w.phase.Ready? && w.store == 0
    ensures var s := Single(disk, lock, st, w, log, history, clobbered);
      && Enabled(c, s, Write(0))
      && After(c, s, Write(0)) ==
           Single(c.render(w.phase.data), lock, st, w.(phase := Written(w.phase.data, w.phase.reply, |log|)),
                  log + [ByWriter(0, w.op, w.phase.reply)], history + [c.render(w.phase.data)], clobbered)
  {
    var s := Single(disk, lock, st, w, log, history, clobbered);
    Overwrite(st, st);
    Overwrite(w, w.(phase := Written(w.phase.data, w.phase.reply, |log|)));
    assert NextOwnStore(c, s, Write(0)) == st;
  }

  /** One step of the single store's reload pass. */
  lemma PassStepOf(c: Env, s: State, st: Store, l: Label)
    requires IsReload(l) && l.x == 0 && s.stores == map[0 := st] && Enabled(c, s, l)
    ensures After(c, s, l) == s.(stores := map[0 := NextReload(c, s.disk, st, l)])
  {
    Overwrite(st, NextReload(c, s.disk, st, l));
  }

  /** The single store is opened and the single call made. */
  lemma OpensAndInvokes(c: Env, d: DataFile, m: Mutation)
    requires Lawful(c)
    ensures var s0, disk := Init(c.render(d)), c.render(d);
      var s1 := s0.(stores := map[0 := Store(d, None, None, Idle)]);
      && Enabled(c, s0, Open(0)) && After(c, s0, Open(0)) == s1
      && Enabled(c, s1, Invoke(0, 0, m))
      && After(c, s1, Invoke(0, 0, m)) ==
           Single(disk, None, Store(d, None, None, Idle), Writer(0, m, 0, true, Waiting), [], [disk], false)
  {
  }

  ghost function ToLoaded(m: Mutation): seq<Label> {
    [Open(0), Invoke(0, 0, m), LockIo(0)] + [LockFile(0)] + [Load(0)]
  }

  /** A single store opened on `d`, a single call that has read the file. */
  lemma LoadedState(c: Env, d: DataFile, m: Mutation)
    requires Lawful(c) && Validate(m).None?
    ensures Exec(c, Init(c.render(d)), ToLoaded(m)) ==
      Some(Single(c.render(d), Some(0), Store(d, None, Some(0), Idle), Writer(0, m, 0, true, Loaded(d)), [],
          [c.render(d)], false))
  {
    var disk := c.render(d);
    var st, st' := Store(d, None, None, Idle), Store(d, None, Some(0), Idle);
    var s0 := Init(disk);
    var s1 := s0.(stores := map[0 := st]);
    var s2 := Single(disk, None, st, Writer(0, m, 0, true, Waiting), [], [disk], false);
    var s3 := Single(disk, None, st', Writer(0, m, 0, true, HoldsIo), [], [disk], false);
    OpensAndInvokes(c, d, m);
    CallStepOf(c, disk, None, st, Writer(0, m, 0, true, Waiting), [], [disk], false, LockIo(0));
    ThreeSteps(c, s0, Open(0), s1, Invoke(0, 0, m), s2, LockIo(0), s3);
    LocksAndLoads(c, disk, st', m, d);
    Extend(c, s0, [Open(0), Invoke(0, 0, m), LockIo(0)], s3, LockFile(0));
    Extend(c, s0, [Open(0), Invoke(0, 0, m), LockIo(0)] + [LockFile(0)], After(c, s3, LockFile(0)), Load(0));
  }

  lemma LocksAndLoads(c: Env, disk: Bytes, st: Store, m: Mutation, d: DataFile)
    requires c.readText(disk) == Some(d)
    ensures var s3 := Single(disk, None, st, Writer(0, m, 0, true, HoldsIo), [], [disk], false);
      var s4 := Single(disk, Some(0), st, Writer(0, m, 0, true, HoldsFile), [], [disk], false);
      && Enabled(c, s3, LockFile(0)) && After(c, s3, LockFile(0)) == s4
      && Enabled(c, s4, Load(0))
      && After(c, s4, Load(0)) == Single(disk, Some(0), st, Writer(0, m, 0, true, Loaded(d)), [], [disk], false)
  {
    CallStepOf(c, disk, None, st, Writer(0, m, 0, true, HoldsIo), [], [disk], false, LockFile(0));
    CallStepOf(c, disk, Some(0), st, Writer(0, m, 0, true, HoldsFile), [], [disk], false, Load(0));
  }

  /** The closure succeeds. */
  lemma Computes(c: Env, disk: Bytes, st: Store, d: DataFile, m: Mutation, log: seq<Commit>, history: seq<Bytes>,
                 clobbered: bool)
    requires c.run(m, d).reply.Ok? && c.drawsNew(m, d)
    ensures var s := Single(disk, Some(0), st, Writer(0, m, 0, true, Loaded(d)), log, history, clobbered);
      && Enabled(c, s, RunOp(0))
      && After(c, s, RunOp(0)) ==
           Single(disk, Some(0), st, Writer(0, m, 0, true, Ready(d, c.run(m, d).data, c.run(m, d).reply.value)), log,
               history, clobbered)
  {
    CallStepOf(c, disk, Some(0), st, Writer(0, m, 0, true, Loaded(d)), log, history, clobbered, RunOp(0));
  }

  ghost function ClobberingRun(m: Mutation, edit: Bytes): seq<Label> {
    ToLoaded(m) + [Edit(edit), RunOp(0), Write(0)]
  }

  ghost function ClobberedState(c: Env, d0: DataFile, d1: DataFile, m: Mutation): State
    requires c.run(m, d0).reply.Ok?
  {
    var d, r := c.run(m, d0).data, c.run(m, d0).reply.value;
    Single(c.render(d), Some(0), Store(d0, None, Some(0), Idle), Writer(0, m, 0, true, Written(d, r, 1)),
           [ByEditor(c.render(d1)), ByWriter(0, m, r)], [c.render(d0), c.render(d1), c.render(d)], true)
  }

  lemma EditsBetween(c: Env, disk: Bytes, st: Store, d: DataFile, m: Mutation, edit: Bytes)
    ensures After(c, Single(disk, Some(0), st, Writer(0, m, 0, true, Loaded(d)), [], [disk], false), Edit(edit))
         == Single(edit, Some(0), st, Writer(0, m, 0, true, Loaded(d)), [ByEditor(edit)], [disk, edit], true)
  {
    assert [] + [ByEditor(edit)] == [ByEditor(edit)] && [disk] + [edit] == [disk, edit];
  }

  lemma ClobberingTail(c: Env, d0: DataFile, d1: DataFile, m: Mutation)
    requires c.run(m, d0).reply.Ok? && c.drawsNew(m, d0)
    ensures var s5 := Single(c.render(d0), Some(0), Store(d0, None, Some(0), Idle), Writer(0, m, 0, true, Loaded(d0)),
                             [], [c.render(d0)], false);
      Exec(c, s5, [Edit(c.render(d1)), RunOp(0), Write(0)]) == Some(ClobberedState(c, d0, d1, m))
  {
    var disk, edit := c.render(d0), c.render(d1);
    var o, log, hist := c.run(m, d0), [ByEditor(edit)], [disk, edit];
    var st := Store(d0, None, Some(0), Idle);
    var w5, w7 := Writer(0, m, 0, true, Loaded(d0)), Writer(0, m, 0, true, Ready(d0, o.data, o.reply.value));
    Computes(c, edit, st, d0, m, log, hist, true);
    CallWrites(c, edit, Some(0), st, w7, log, hist, true);
    EditsBetween(c, disk, st, d0, m, edit);
    ThreeSteps(c, Single(disk, Some(0), st, w5, [], [disk], false), Edit(edit),
               Single(edit, Some(0), st, w5, log, hist, true),
               RunOp(0), Single(edit, Some(0), st, w7, log, hist, true), Write(0), ClobberedState(c, d0, d1, m));
  }

  lemma ClobberingRunReaches(c: Env, d0: DataFile, d1: DataFile, m: Mutation)
    requires Lawful(c) && Validate(m).None? && c.run(m, d0).reply.Ok? && c.drawsNew(m, d0)
    ensures Reachable(c, c.render(d0), ClobberingRun(m, c.render(d1)), ClobberedState(c, d0, d1, m))
  {
    var s5 := Single(c.render(d0), Some(0), Store(d0, None, Some(0), Idle), Writer(0, m, 0, true, Loaded(d0)),
                     [], [c.render(d0)], false);
    LoadedState(c, d0, m);
    ClobberingTail(c, d0, d1, m);
    ExecConcat(c, Init(c.render(d0)), ToLoaded(m), s5, [Edit(c.render(d1)), RunOp(0), Write(0)]);
  }

  /** An editor that replaces `d0` by `d1` between a writer's read and its commit
      loses the edit: the file ends up as the mutation of `d0`, which is what the
      log order gives only if the mutation does not tell `d0` from `d1`. */
  lemma EditBehindLockIsLost(c: Env, d0: DataFile, d1: DataFile, m: Mutation)
    requires Lawful(c) && Validate(m).None? && c.run(m, d0).reply.Ok? && c.drawsNew(m, d0)
    ensures var s := ClobberedState(c, d0, d1, m);
      && Reachable(c, c.render(d0), ClobberingRun(m, c.render(d1)), s)
      && s.disk == c.render(c.run(m, d0).data)
      && (s.disk == Fold(c, c.render(d0), s.log) <==> c.run(m, d0).data == c.run(m, d1).data)
  {
    ClobberingRunReaches(c, d0, d1, m);
    var s := ClobberedState(c, d0, d1, m);
    var disk, e := c.render(d0), ByEditor(c.render(d1));
    var w := ByWriter(0, m, c.run(m, d0).reply.value);
    FoldSnoc(c, disk, [], e);
    assert [] + [e] == [e];
    FoldSnoc(c, disk, [e], w);
    assert [e] + [w] == s.log;
    assert c.readText(c.render(c.run(m, d0).data)) == Some(c.run(m, d0).data);
    assert c.readText(c.render(c.run(m, d1).data)) == Some(c.run(m, d1).data);
  }
}
