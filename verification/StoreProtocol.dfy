/** The file-backed store as a step system (packages/creds-manage/src/store.rs):
    any number of stores on one path, each with its snapshot, self-write marker,
    in-process lock and reload task; any number of mutator calls in flight; and
    editors that replace the file behind the stores' back. Every step below is
    one access to shared state, so steps of different tasks interleave freely. */
module StoreProtocol {
  import opened Wrappers
  import opened CredsModels
  import opened CredsMutations

  type Bytes = seq<int>

  /** What the protocol is run with: parsing, printing and hashing of the file,
      and the mutation closures (`atomic_mutate_data_file` takes any closure).
      The mutators parse text (`parse_data_file`), the loader and the reload task
      parse bytes (`parse_data_file_bytes`); the two accept different inputs. */
  datatype Env = Env(
    readText: Bytes -> Option<DataFile>,
    readBytes: Bytes -> Option<DataFile>,
    render: DataFile -> Bytes,
    digest: Bytes -> Bytes,
    run: (Mutation, DataFile) -> Outcome,
    drawsNew: (Mutation, DataFile) -> bool)

  /** Printing then parsing gives the data back, and the hash has no collisions. */
  ghost predicate Lawful(c: Env) {
    && (forall d :: c.readText(c.render(d)) == Some(d) && c.readBytes(c.render(d)) == Some(d))
    && (forall a, b :: c.digest(a) == c.digest(b) ==> a == b)
  }

  /** The closures are the store's mutators, and the ids they draw are new. */
  ghost predicate RunsMutators(c: Env) {
    forall m, d :: c.run(m, d) == Apply(m, d) && (c.drawsNew(m, d) ==> FreshIds(m, d))
  }

  // ----- state -----

  /** Where a reload pass (`reload_if_external`) has got to. */
  datatype Reload =
    | Idle
    | Raw(raw: Bytes)                     // file read under the shared lock
    | Unmarked(raw: Bytes)                // it is not the marked self-write
    | Parsed(raw: Bytes, data: DataFile)
    | Differs(data: DataFile)             // and the snapshot is something else

  datatype Store = Store(cache: DataFile, marker: Option<Bytes>, ioLock: Option<nat>, reload: Reload)

  datatype Failure = Rejected(error: Error) | Unreadable | IoFailed

  /** Where a mutator call has got to. `at` is the position of its commit in the log. */
  datatype Phase =
    | Waiting
    | HoldsIo
    | HoldsFile
    | Loaded(base: DataFile)
    | Ready(base: DataFile, data: DataFile, reply: Reply)
    | Written(data: DataFile, reply: Reply, at: nat)
    | Unlocked(data: DataFile, reply: Reply, at: nat)
    | Marked(data: DataFile, reply: Reply, at: nat)
    | Published(reply: Reply, at: nat)
    | Answered(reply: Reply, at: nat, until: nat)
    | Refused(failure: Failure)
    | Dropped(commit: Option<nat>)

  /** `since` is the length of the log when the call was made. A call whose
      future is dropped is no longer attached, but its blocking job runs on. */
  datatype Writer = Writer(store: nat, op: Mutation, since: nat, attached: bool, phase: Phase)

  datatype Commit = ByWriter(writer: nat, op: Mutation, reply: Reply) | ByEditor(bytes: Bytes)

  datatype State = State(
    disk: Bytes,
    fileLock: Option<nat>,
    stores: map<nat, Store>,
    writers: map<nat, Writer>,
    log: seq<Commit>,        // commits and edits so far, in order
    history: seq<Bytes>,     // everything the file has ever held
    clobbered: bool)         // an edit fell between some writer's read and its commit

  function Init(disk: Bytes): State { State(disk, None, map[], map[], [], [disk], false) }

  // ----- steps -----

  datatype Label =
    | Open(x: nat) | Edit(bytes: Bytes)
    | Invoke(t: nat, x: nat, op: Mutation) | Reject(t: nat) | LockIo(t: nat) | LockFile(t: nat) | Load(t: nat)
    | RunOp(t: nat) | FailIo(t: nat) | Write(t: nat) | Unlock(t: nat) | Mark(t: nat) | Publish(t: nat)
    | Answer(t: nat) | Detach(t: nat)
    | ReadDisk(x: nat) | CheckMarker(x: nat) | Parse(x: nat) | Compare(x: nat) | Swap(x: nat)

  /** The steps of a mutator call. */
  predicate IsWriterStep(l: Label) {
    || l.Invoke? || l.Reject? || l.LockIo? || l.LockFile? || l.Load? || l.RunOp? || l.FailIo? || l.Write?
    || l.Unlock? || l.Mark? || l.Publish? || l.Answer? || l.Detach?
  }

  /** The steps of a reload pass. */
  predicate IsReload(l: Label) { l.ReadDisk? || l.CheckMarker? || l.Parse? || l.Compare? || l.Swap? }

  predicate InReadModifyWrite(p: Phase) { p.Loaded? || p.Ready? }

  /** A call that fails, or whose future was dropped, ends here. */
  function Fail(w: Writer, f: Failure): Phase { if w.attached then Refused(f) else Dropped(None) }

  predicate Ended(p: Phase) { p.Answered? || p.Refused? || p.Dropped? }

  // ----- a call's own progress -----

  ghost predicate MayStep(c: Env, w: Writer, l: Label) {
    match l
    case Reject(_) => w.phase.Waiting? && Validate(w.op).Some?
    case LockIo(_) => w.phase.Waiting? && Validate(w.op).None?
    case LockFile(_) => w.phase.HoldsIo?
    case Load(_) => w.phase.HoldsFile?
    case RunOp(_) => w.phase.Loaded? && c.drawsNew(w.op, w.phase.base)
    case FailIo(_) => w.phase.HoldsIo? || w.phase.HoldsFile? || w.phase.Loaded? || w.phase.Ready?
    case Write(_) => w.phase.Ready?
    case Unlock(_) => w.phase.Written?
    case Mark(_) => w.phase.Unlocked?
    case Publish(_) => w.phase.Marked?
    case Answer(_) => w.phase.Published?
    case Detach(_) =>
      w.attached && (w.phase.Waiting? || w.phase.HoldsIo? || w.phase.HoldsFile? || w.phase.Loaded? || w.phase.Ready?
                     || w.phase.Written? || w.phase.Unlocked?)
    case _ => false
  }

  ghost function NextPhase(c: Env, disk: Bytes, logged: nat, w: Writer, l: Label): Phase
    requires MayStep(c, w, l)
  {
    var p := w.phase;
    match l
    case Reject(_) => Fail(w, Rejected(Validate(w.op).value))
    case LockIo(_) => HoldsIo
    case LockFile(_) => HoldsFile
    case Load(_) =>
      var d := c.readText(disk);
      if d.None? then Fail(w, Unreadable) else Loaded(d.value)
    case RunOp(_) =>
      var o := c.run(w.op, p.base);
      if o.reply.Err? then Fail(w, Rejected(o.reply.error)) else Ready(p.base, o.data, o.reply.value)
    case FailIo(_) => Fail(w, IoFailed)
    case Write(_) => Written(p.data, p.reply, logged)
    case Unlock(_) => if w.attached then Unlocked(p.data, p.reply, p.at) else Dropped(Some(p.at))
    case Mark(_) => Marked(p.data, p.reply, p.at)
    case Publish(_) => Published(p.reply, p.at)
    case Answer(_) => Answered(p.reply, p.at, logged)
    case Detach(_) => if p.Waiting? then Dropped(None) else if p.Unlocked? then Dropped(Some(p.at)) else p
  }

  ghost function NextWriter(c: Env, s: State, l: Label): Writer
    requires Enabled(c, s, l) && IsWriterStep(l)
  {
    if l.Invoke? then Writer(l.x, l.op, |s.log|, true, Waiting)
    else
      var w := s.writers[l.t];
      w.(phase := NextPhase(c, s.disk, |s.log|, w, l), attached := w.attached && !l.Detach?)
  }

  // ----- its effect on what is shared -----

  /** The sidecar lock: taken, released after the write, or given up on failure. */
  ghost function NextFileLock(c: Env, s: State, l: Label): Option<nat>
    requires Enabled(c, s, l) && IsWriterStep(l)
  {
    if l.LockFile? then Some(l.t)
    else if s.fileLock == Some(l.t) && (l.Unlock? || Ended(NextWriter(c, s, l).phase)) then None
    else s.fileLock
  }

  /** The call's own store: its in-process lock, marker and snapshot. A call that
      ends, or whose future is dropped, gives up the in-process lock. */
  ghost function NextOwnStore(c: Env, s: State, l: Label): Store
    requires Enabled(c, s, l) && IsWriterStep(l) && !l.Invoke?
  {
    var w := s.writers[l.t];
    var st := s.stores[w.store];
    if l.LockIo? then st.(ioLock := Some(l.t))
    else if l.Mark? then st.(marker := Some(c.digest(c.render(w.phase.data))))
    else if l.Publish? then st.(cache := w.phase.data)
    else if st.ioLock == Some(l.t) && (l.Detach? || Ended(NextWriter(c, s, l).phase)) then st.(ioLock := None)
    else st
  }

  ghost predicate Enabled(c: Env, s: State, l: Label) {
    match l
    case Open(x) => x !in s.stores && s.fileLock.None? && c.readBytes(s.disk).Some?
    case Edit(_) => true
    case Invoke(t, x, _) => t !in s.writers && x in s.stores
    case ReadDisk(x) => x in s.stores && s.stores[x].reload.Idle? && s.fileLock.None?
    case CheckMarker(x) => x in s.stores && s.stores[x].reload.Raw?
    case Parse(x) => x in s.stores && s.stores[x].reload.Unmarked?
    case Compare(x) => x in s.stores && s.stores[x].reload.Parsed?
    case Swap(x) => x in s.stores && s.stores[x].reload.Differs?
    case _ =>
      && l.t in s.writers && s.writers[l.t].store in s.stores && MayStep(c, s.writers[l.t], l)
      && (l.LockIo? ==> s.stores[s.writers[l.t].store].ioLock.None?)
      && (l.LockFile? ==> s.fileLock.None?)
  }

  ghost function AfterWriter(c: Env, s: State, l: Label): State
    requires Enabled(c, s, l) && IsWriterStep(l)
  {
    var s1 := s.(
      writers := s.writers[l.t := NextWriter(c, s, l)],
      fileLock := NextFileLock(c, s, l),
      stores := if l.Invoke? then s.stores else s.stores[s.writers[l.t].store := NextOwnStore(c, s, l)]);
    if !l.Write? then s1
    else
      var w := s.writers[l.t];
      var bytes := c.render(w.phase.data);
      s1.(disk := bytes, log := s.log + [ByWriter(l.t, w.op, w.phase.reply)], history := s.history + [bytes])
  }

  /** A store after one step of its reload pass. */
  ghost function NextReload(c: Env, disk: Bytes, st: Store, l: Label): Store
    requires IsReload(l)
    requires (l.CheckMarker? ==> st.reload.Raw?) && (l.Parse? ==> st.reload.Unmarked?)
    requires (l.Compare? ==> st.reload.Parsed?) && (l.Swap? ==> st.reload.Differs?)
  {
    match l
    case ReadDisk(_) => st.(reload := Raw(disk))
    case CheckMarker(_) =>
      if st.marker == Some(c.digest(st.reload.raw)) then st.(marker := None, reload := Idle)
      else st.(reload := Unmarked(st.reload.raw))
    case Parse(_) =>
      var d := c.readBytes(st.reload.raw);
      st.(reload := if d.None? then Idle else Parsed(st.reload.raw, d.value))
    case Compare(_) =>
      st.(reload := if c.digest(c.render(st.cache)) == c.digest(st.reload.raw) then Idle else Differs(st.reload.data))
    case Swap(_) => st.(cache := st.reload.data, reload := Idle)
  }

  ghost function AfterEdit(s: State, bytes: Bytes): State {
    var clobbers := s.fileLock.Some? && s.fileLock.value in s.writers
      && InReadModifyWrite(s.writers[s.fileLock.value].phase);
    s.(disk := bytes, log := s.log + [ByEditor(bytes)], history := s.history + [bytes],
       clobbered := s.clobbered || clobbers)
  }

  ghost function After(c: Env, s: State, l: Label): State
    requires Enabled(c, s, l)
  {
    if IsWriterStep(l) then AfterWriter(c, s, l)
    else if l.Edit? then AfterEdit(s, l.bytes)
    else if l.Open? then s.(stores := s.stores[l.x := Store(c.readBytes(s.disk).value, None, None, Idle)])
    else s.(stores := s.stores[l.x := NextReload(c, s.disk, s.stores[l.x], l)])
  }

  /** The state after the given interleaving, if every step of it was possible. */
  ghost function Exec(c: Env, s: State, ls: seq<Label>): Option<State> {
    if ls == [] then Some(s)
    else
      var mid := Exec(c, s, ls[..|ls| - 1]);
      if mid.Some? && Enabled(c, mid.value, ls[|ls| - 1]) then Some(After(c, mid.value, ls[|ls| - 1])) else None
  }

  lemma Extend(c: Env, s0: State, ls: seq<Label>, s: State, l: Label)
    requires Exec(c, s0, ls) == Some(s) && Enabled(c, s, l)
    ensures Exec(c, s0, ls + [l]) == Some(After(c, s, l))
  {
    assert (ls + [l])[..|ls|] == ls;
  }

  lemma {:induction false} ExecConcat(c: Env, s: State, a: seq<Label>, mid: State, b: seq<Label>)
    requires Exec(c, s, a) == Some(mid)
    ensures Exec(c, s, a + b) == Exec(c, mid, b)
  {
    if b == [] {
      assert a + b == a;
    } else {
      assert (a + b)[..|a + b| - 1] == a + b[..|b| - 1];
      ExecConcat(c, s, a, mid, b[..|b| - 1]);
    }
  }

  lemma ThreeSteps(c: Env, s0: State, l1: Label, s1: State, l2: Label, s2: State, l3: Label, s3: State)
    requires Enabled(c, s0, l1) && After(c, s0, l1) == s1
    requires Enabled(c, s1, l2) && After(c, s1, l2) == s2
    requires Enabled(c, s2, l3) && After(c, s2, l3) == s3
    ensures Exec(c, s0, [l1, l2, l3]) == Some(s3)
  {
    Extend(c, s0, [], s0, l1);
    assert [] + [l1] == [l1];
    Extend(c, s0, [l1], s1, l2);
    assert [l1] + [l2] == [l1, l2];
    Extend(c, s0, [l1, l2], s2, l3);
    assert [l1, l2] + [l3] == [l1, l2, l3];
  }

  ghost predicate Reachable(c: Env, disk: Bytes, ls: seq<Label>, s: State) {
    Exec(c, Init(disk), ls) == Some(s)
  }

  // ----- every snapshot was on disk -----

  ghost predicate Seen(c: Env, history: seq<Bytes>, d: DataFile) {
    exists b :: b in history && c.readBytes(b) == Some(d)
  }

  ghost predicate ReloadSeen(c: Env, history: seq<Bytes>, r: Reload) {
    match r
    case Idle => true
    case Raw(raw) => raw in history
    case Unmarked(raw) => raw in history
    case Parsed(raw, d) => raw in history && c.readBytes(raw) == Some(d)
    case Differs(d) => Seen(c, history, d)
  }

  ghost predicate PhaseSeen(c: Env, history: seq<Bytes>, p: Phase) {
    p.Written? || p.Unlocked? || p.Marked? ==> c.render(p.data) in history
  }

  ghost predicate SnapshotInvariant(c: Env, s: State) {
    && s.disk in s.history
    && (forall x :: x in s.stores ==>
          Seen(c, s.history, s.stores[x].cache) && ReloadSeen(c, s.history, s.stores[x].reload))
    && (forall t :: t in s.writers ==> PhaseSeen(c, s.history, s.writers[t].phase))
  }

  lemma SeenLater(c: Env, s: State, b: Bytes)
    requires SnapshotInvariant(c, s)
    ensures forall x :: x in s.stores ==>
      Seen(c, s.history + [b], s.stores[x].cache) && ReloadSeen(c, s.history + [b], s.stores[x].reload)
    ensures forall t :: t in s.writers ==> PhaseSeen(c, s.history + [b], s.writers[t].phase)
  {
    forall d | Seen(c, s.history, d) ensures Seen(c, s.history + [b], d) {
      var b' :| b' in s.history && c.readBytes(b') == Some(d);
      assert b' in s.history + [b];
    }
  }

  /** A writer step that does not publish leaves every snapshot alone. */
  lemma OwnStoreSnapshot(c: Env, s: State, l: Label)
    requires Enabled(c, s, l) && IsWriterStep(l) && !l.Invoke?
    ensures var st, st' := s.stores[s.writers[l.t].store], NextOwnStore(c, s, l);
      && st'.reload == st.reload
      && st'.cache == if l.Publish? then s.writers[l.t].phase.data else st.cache
  {
  }

  lemma PhaseSeenStep(c: Env, s: State, l: Label)
    requires Enabled(c, s, l) && IsWriterStep(l)
    requires l.t in s.writers ==> PhaseSeen(c, s.history, s.writers[l.t].phase)
    ensures PhaseSeen(c, AfterWriter(c, s, l).history, NextWriter(c, s, l).phase)
  {
  }

  lemma SnapshotWriterStep(c: Env, s: State, l: Label)
    requires Lawful(c) && SnapshotInvariant(c, s) && Enabled(c, s, l) && IsWriterStep(l)
    ensures SnapshotInvariant(c, AfterWriter(c, s, l))
  {
    var s' := AfterWriter(c, s, l);
    PhaseSeenStep(c, s, l);
    if !l.Invoke? { OwnStoreSnapshot(c, s, l); }
    if l.Write? { SeenLater(c, s, c.render(s.writers[l.t].phase.data)); }
    if l.Publish? { assert Seen(c, s.history, s.writers[l.t].phase.data); }
    forall x | x in s'.stores
      ensures Seen(c, s'.history, s'.stores[x].cache) && ReloadSeen(c, s'.history, s'.stores[x].reload)
    {
      assert x in s.stores;
    }
  }

  lemma ReloadSeenStep(c: Env, s: State, l: Label)
    requires SnapshotInvariant(c, s) && Enabled(c, s, l) && IsReload(l)
    ensures var st := NextReload(c, s.disk, s.stores[l.x], l);
      Seen(c, s.history, st.cache) && ReloadSeen(c, s.history, st.reload)
  {
  }

  lemma SnapshotStep(c: Env, s: State, l: Label)
    requires Lawful(c) && SnapshotInvariant(c, s) && Enabled(c, s, l)
    ensures SnapshotInvariant(c, After(c, s, l))
  {
    if IsWriterStep(l) {
      SnapshotWriterStep(c, s, l);
    } else if l.Edit? {
      SeenLater(c, s, l.bytes);
    } else if IsReload(l) {
      ReloadSeenStep(c, s, l);
    }
  }

  lemma {:induction false} SnapshotRun(c: Env, disk: Bytes, ls: seq<Label>, s: State)
    requires Lawful(c) && Reachable(c, disk, ls, s)
    ensures SnapshotInvariant(c, s)
  {
    if ls != [] {
      var mid := Exec(c, Init(disk), ls[..|ls| - 1]).value;
      SnapshotRun(c, disk, ls[..|ls| - 1], mid);
      SnapshotStep(c, mid, ls[|ls| - 1]);
    }
  }

  /** Whatever the interleaving, the snapshot a reader loads from any store is
      the parse of bytes that the file has held. */
  lemma SnapshotsWereOnDisk(c: Env, disk: Bytes, ls: seq<Label>, s: State, x: nat)
    requires Lawful(c) && Reachable(c, disk, ls, s) && x in s.stores
    ensures exists b :: b in s.history && c.readBytes(b) == Some(s.stores[x].cache)
  {
    SnapshotRun(c, disk, ls, s);
    assert Seen(c, s.history, s.stores[x].cache);
  }
}
