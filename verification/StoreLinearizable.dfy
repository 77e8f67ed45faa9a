/** No lost updates: mutator calls, from however many stores, take effect one at
    a time, in the order of their commits, each exactly once or not at all. */
module StoreLinearizable {
  import opened Wrappers
  import opened CredsMutations
  import opened StoreProtocol

  // ----- the sequential meaning of a log -----

  /** The file after the commits of `log`, one after the other. */
  ghost function Fold(c: Env, disk: Bytes, log: seq<Commit>): Bytes {
    if log == [] then disk
    else
      var before := Fold(c, disk, log[..|log| - 1]);
      match log[|log| - 1]
      case ByEditor(bytes) => bytes
      case ByWriter(_, op, _) =>
        var d := c.readText(before);
        if d.None? then before else c.render(c.run(op, d.value).data)
  }

  /** Run alone on the file as it was then, each commit would have answered the same. */
  ghost predicate Legal(c: Env, disk: Bytes, log: seq<Commit>) {
    forall i :: 0 <= i < |log| && log[i].ByWriter? ==>
      var d := c.readText(Fold(c, disk, log[..i]));
      d.Some? && c.run(log[i].op, d.value).reply == Ok(log[i].reply)
  }

  // ----- invariants -----

  predicate Holding(p: Phase) { p.HoldsFile? || p.Loaded? || p.Ready? || p.Written? }

  ghost predicate LockInvariant(s: State) {
    && (forall t :: t in s.writers ==> s.writers[t].store in s.stores)
    && (forall t :: t in s.writers && Holding(s.writers[t].phase) ==> s.fileLock == Some(t))
    && (s.fileLock.Some? ==> s.fileLock.value in s.writers && Holding(s.writers[s.fileLock.value].phase))
  }

  /** What a writer has read and computed while it holds the file lock. */
  ghost predicate WorkInvariant(c: Env, disk: Bytes, clobbered: bool, w: Writer) {
    && (w.phase.Ready? ==> c.run(w.op, w.phase.base) == Outcome(w.phase.data, Ok(w.phase.reply)))
    && (InReadModifyWrite(w.phase) && !clobbered ==> c.readText(disk) == Some(w.phase.base))
  }

  ghost predicate LogInvariant(c: Env, disk: Bytes, s: State) {
    && (!s.clobbered ==> s.disk == Fold(c, disk, s.log) && Legal(c, disk, s.log))
    && forall t :: t in s.writers ==> WorkInvariant(c, s.disk, s.clobbered, s.writers[t])
  }

  function CommitOf(p: Phase): Option<nat> {
    match p
    case Written(_, _, at) => Some(at)
    case Unlocked(_, _, at) => Some(at)
    case Marked(_, _, at) => Some(at)
    case Published(_, at) => Some(at)
    case Answered(_, at, _) => Some(at)
    case Dropped(commit) => commit
    case _ => None
  }

  predicate HasReply(p: Phase) { p.Written? || p.Unlocked? || p.Marked? || p.Published? || p.Answered? }

  ghost predicate EntryInvariant(log: seq<Commit>, t: nat, w: Writer) {
    && w.since <= |log|
    && (CommitOf(w.phase).Some? ==>
          var i := CommitOf(w.phase).value;
          && w.since <= i < |log| && log[i].ByWriter? && log[i].writer == t && log[i].op == w.op
          && (HasReply(w.phase) ==> log[i].reply == w.phase.reply))
    && (w.phase.Answered? ==> w.phase.at < w.phase.until <= |log|)
  }

  /** Commits in the log and committed calls correspond one to one. */
  ghost predicate CallInvariant(s: State) {
    && (forall t :: t in s.writers ==> EntryInvariant(s.log, t, s.writers[t]))
    && (forall i :: 0 <= i < |s.log| && s.log[i].ByWriter? ==>
          s.log[i].writer in s.writers && CommitOf(s.writers[s.log[i].writer].phase) == Some(i))
  }

  // ----- preservation -----

  /** A step other than writing keeps the commit of its writer. */
  lemma KeepsCommit(c: Env, disk: Bytes, logged: nat, w: Writer, l: Label)
    requires MayStep(c, w, l) && !l.Write?
    ensures var p := NextPhase(c, disk, logged, w, l);
      && CommitOf(p) == CommitOf(w.phase)
      && (HasReply(p) ==> HasReply(w.phase) && p.reply == w.phase.reply)
      && (p.Answered? ==> p.until == logged)
  {
  }

  /** The file lock follows the phases that need it. */
  lemma LockFollowsPhase(c: Env, s: State, l: Label)
    requires Enabled(c, s, l) && IsWriterStep(l)
    requires l.t in s.writers ==> (Holding(s.writers[l.t].phase) <==> s.fileLock == Some(l.t))
    requires l.Invoke? ==> s.fileLock != Some(l.t)
    ensures Holding(NextWriter(c, s, l).phase) <==> NextFileLock(c, s, l) == Some(l.t)
    ensures NextFileLock(c, s, l) != Some(l.t) ==>
      NextFileLock(c, s, l) == if s.fileLock == Some(l.t) then None else s.fileLock
    ensures NextFileLock(c, s, l) == Some(l.t) ==> s.fileLock == Some(l.t) || s.fileLock.None?
  {
  }

  lemma LockWriterStep(c: Env, s: State, l: Label)
    requires LockInvariant(s) && Enabled(c, s, l) && IsWriterStep(l)
    ensures LockInvariant(AfterWriter(c, s, l))
  {
    LockFollowsPhase(c, s, l);
    var s' := AfterWriter(c, s, l);
    assert s'.stores.Keys == s.stores.Keys;
    assert s'.writers[l.t].store in s.stores;
  }

  lemma LockStep(c: Env, s: State, l: Label)
    requires LockInvariant(s) && Enabled(c, s, l)
    ensures LockInvariant(After(c, s, l))
  {
    if IsWriterStep(l) { LockWriterStep(c, s, l); }
  }

  /** The log as it is, one writer moved on. */
  lemma CallMoves(s: State, s': State, t: nat, w': Writer)
    requires CallInvariant(s) && s'.log == s.log && s'.writers == s.writers[t := w']
    requires EntryInvariant(s.log, t, w')
    requires t in s.writers ==> CommitOf(w'.phase) == CommitOf(s.writers[t].phase)
    ensures CallInvariant(s')
  {
  }

  /** The log one commit longer; if it is a writer's, that writer had none before. */
  lemma CallCommits(s: State, s': State, x: Commit)
    requires CallInvariant(s) && s'.log == s.log + [x]
    requires x.ByEditor? ==> s'.writers == s.writers
    requires x.ByWriter? ==>
      && x.writer in s.writers && CommitOf(s.writers[x.writer].phase).None?
      && x.writer in s'.writers && CommitOf(s'.writers[x.writer].phase) == Some(|s.log|)
      && s'.writers == s.writers[x.writer := s'.writers[x.writer]]
      && EntryInvariant(s'.log, x.writer, s'.writers[x.writer])
    ensures CallInvariant(s')
  {
    forall t | t in s'.writers ensures EntryInvariant(s'.log, t, s'.writers[t]) {
      if x.ByEditor? || t != x.writer { assert EntryInvariant(s.log, t, s.writers[t]); }
    }
  }

  lemma CallWriterStep(c: Env, s: State, l: Label)
    requires CallInvariant(s) && Enabled(c, s, l) && IsWriterStep(l)
    ensures CallInvariant(AfterWriter(c, s, l))
  {
    var s', w' := AfterWriter(c, s, l), NextWriter(c, s, l);
    if l.Invoke? {
      CallMoves(s, s', l.t, w');
    } else {
      var w := s.writers[l.t];
      assert EntryInvariant(s.log, l.t, w);
      if l.Write? {
        CallCommits(s, s', ByWriter(l.t, w.op, w.phase.reply));
      } else {
        KeepsCommit(c, s.disk, |s.log|, w, l);
        CallMoves(s, s', l.t, w');
      }
    }
  }

  lemma CallStep(c: Env, s: State, l: Label)
    requires CallInvariant(s) && Enabled(c, s, l)
    ensures CallInvariant(After(c, s, l))
  {
    if IsWriterStep(l) {
      CallWriterStep(c, s, l);
    } else if l.Edit? {
      CallCommits(s, AfterEdit(s, l.bytes), ByEditor(l.bytes));
    }
  }

  lemma FoldSnoc(c: Env, disk: Bytes, log: seq<Commit>, x: Commit)
    ensures (log + [x])[..|log|] == log
    ensures x.ByEditor? ==> Fold(c, disk, log + [x]) == x.bytes
    ensures x.ByWriter? ==>
      var d := c.readText(Fold(c, disk, log));
      Fold(c, disk, log + [x]) == if d.None? then Fold(c, disk, log) else c.render(c.run(x.op, d.value).data)
  {
    assert (log + [x])[..|log|] == log;
  }

  lemma LegalSnoc(c: Env, disk: Bytes, log: seq<Commit>, x: Commit)
    requires Legal(c, disk, log)
    requires x.ByWriter? ==>
      var d := c.readText(Fold(c, disk, log)); d.Some? && c.run(x.op, d.value).reply == Ok(x.reply)
    ensures Legal(c, disk, log + [x])
  {
    forall i | 0 <= i < |log + [x]| && (log + [x])[i].ByWriter?
      ensures var d := c.readText(Fold(c, disk, (log + [x])[..i]));
        d.Some? && c.run((log + [x])[i].op, d.value).reply == Ok((log + [x])[i].reply)
    {
      assert (log + [x])[..i] == log[..i];
      if i == |log| { assert log[..i] == log; }
    }
  }

  lemma WorkStep(c: Env, disk: Bytes, clobbered: bool, logged: nat, w: Writer, l: Label)
    requires MayStep(c, w, l) && !l.Write? && WorkInvariant(c, disk, clobbered, w)
    ensures forall attached :: WorkInvariant(c, disk, clobbered,
              w.(phase := NextPhase(c, disk, logged, w, l), attached := attached))
  {
  }

  lemma LogEdit(c: Env, disk: Bytes, s: State, bytes: Bytes)
    requires LockInvariant(s) && LogInvariant(c, disk, s)
    ensures LogInvariant(c, disk, AfterEdit(s, bytes))
  {
    var s' := AfterEdit(s, bytes);
    FoldSnoc(c, disk, s.log, ByEditor(bytes));
    if !s.clobbered { LegalSnoc(c, disk, s.log, ByEditor(bytes)); }
    forall t | t in s'.writers ensures WorkInvariant(c, s'.disk, s'.clobbered, s'.writers[t]) {
      assert WorkInvariant(c, s.disk, s.clobbered, s.writers[t]);
    }
  }

  lemma LogWrite(c: Env, disk: Bytes, s: State, t: nat)
    requires LockInvariant(s) && LogInvariant(c, disk, s) && Enabled(c, s, Write(t))
    ensures LogInvariant(c, disk, AfterWriter(c, s, Write(t)))
  {
    var s' := AfterWriter(c, s, Write(t));
    var w := s.writers[t];
    assert WorkInvariant(c, s.disk, s.clobbered, w);
    FoldSnoc(c, disk, s.log, ByWriter(t, w.op, w.phase.reply));
    if !s.clobbered { LegalSnoc(c, disk, s.log, ByWriter(t, w.op, w.phase.reply)); }
    forall u | u in s'.writers ensures WorkInvariant(c, s'.disk, s'.clobbered, s'.writers[u]) {
      if u != t { assert WorkInvariant(c, s.disk, s.clobbered, s.writers[u]); }
    }
  }

  lemma LogMoves(c: Env, disk: Bytes, s: State, l: Label)
    requires LogInvariant(c, disk, s) && Enabled(c, s, l) && IsWriterStep(l) && !l.Write?
    ensures LogInvariant(c, disk, AfterWriter(c, s, l))
  {
    var s' := AfterWriter(c, s, l);
    if !l.Invoke? { WorkStep(c, s.disk, s.clobbered, |s.log|, s.writers[l.t], l); }
    forall u | u in s'.writers ensures WorkInvariant(c, s'.disk, s'.clobbered, s'.writers[u]) {
      if u != l.t { assert WorkInvariant(c, s.disk, s.clobbered, s.writers[u]); }
    }
  }

  lemma LogStep(c: Env, disk: Bytes, s: State, l: Label)
    requires LockInvariant(s) && LogInvariant(c, disk, s) && Enabled(c, s, l)
    ensures LogInvariant(c, disk, After(c, s, l))
  {
    if l.Edit? {
      LogEdit(c, disk, s, l.bytes);
    } else if l.Write? {
      LogWrite(c, disk, s, l.t);
    } else if IsWriterStep(l) {
      LogMoves(c, disk, s, l);
    }
  }

  lemma {:induction false} InvariantsHold(c: Env, disk: Bytes, ls: seq<Label>, s: State)
    requires Reachable(c, disk, ls, s)
    ensures LockInvariant(s) && CallInvariant(s) && LogInvariant(c, disk, s)
  {
    if ls != [] {
      var mid := Exec(c, Init(disk), ls[..|ls| - 1]).value;
      InvariantsHold(c, disk, ls[..|ls| - 1], mid);
      LockStep(c, mid, ls[|ls| - 1]);
      CallStep(c, mid, ls[|ls| - 1]);
      LogStep(c, disk, mid, ls[|ls| - 1]);
    }
  }

  // ----- the theorems -----

  /** At any moment at most one call is between taking and releasing the file lock. */
  lemma WritersExclude(c: Env, disk: Bytes, ls: seq<Label>, s: State, t: nat, u: nat)
    requires Reachable(c, disk, ls, s)
    requires t in s.writers && u in s.writers && Holding(s.writers[t].phase) && Holding(s.writers[u].phase)
    ensures t == u
  {
    InvariantsHold(c, disk, ls, s);
  }

  /** The file is the initial content with all commits applied in log order, and every
      answer is the one that order gives. */
  ghost predicate Faithful(c: Env, disk: Bytes, s: State) {
    s.disk == Fold(c, disk, s.log) && Legal(c, disk, s.log)
  }

  /** No update is lost as long as no edit has fallen between a writer's read and its
      commit. */
  lemma NoLostUpdates(c: Env, disk: Bytes, ls: seq<Label>, s: State)
    requires Reachable(c, disk, ls, s) && !s.clobbered
    ensures Faithful(c, disk, s)
  {
    InvariantsHold(c, disk, ls, s);
  }

  lemma {:induction false} NotClobberedWithoutEdits(c: Env, disk: Bytes, ls: seq<Label>, s: State)
    requires Reachable(c, disk, ls, s) && forall i :: 0 <= i < |ls| ==> !ls[i].Edit?
    ensures !s.clobbered
  {
    if ls != [] { NotClobberedWithoutEdits(c, disk, ls[..|ls| - 1], Exec(c, Init(disk), ls[..|ls| - 1]).value); }
  }

  /** Among stores alone, however many there are and however their steps interleave, no
      update is ever lost. */
  lemma NoLostUpdatesAmongStores(c: Env, disk: Bytes, ls: seq<Label>, s: State)
    requires Reachable(c, disk, ls, s) && forall i :: 0 <= i < |ls| ==> !ls[i].Edit?
    ensures Faithful(c, disk, s)
  {
    NotClobberedWithoutEdits(c, disk, ls, s);
    NoLostUpdates(c, disk, ls, s);
  }

  /** On the file as it is when the call commits, its mutation does what it did on the
      file as the call had read it. */
  ghost predicate SameOutcome(c: Env, s: State, t: nat)
    requires t in s.writers && s.writers[t].phase.Ready?
  {
    var now := c.readText(s.disk);
    now.Some? && c.run(s.writers[t].op, now.value) == c.run(s.writers[t].op, s.writers[t].phase.base)
  }

  lemma LegalPrefix(c: Env, disk: Bytes, log: seq<Commit>, x: Commit)
    requires Legal(c, disk, log + [x])
    ensures x.ByWriter? ==>
      var d := c.readText(Fold(c, disk, log)); d.Some? && c.run(x.op, d.value).reply == Ok(x.reply)
  {
    assert (log + [x])[..|log|] == log && (log + [x])[|log|] == x;
  }

  /** In every reachable state, a commit on top of a faithful file leaves it faithful if
      and only if the mutation does not tell the file as it is from the file as it was
      read. */
  lemma CommitFaithfulIff(c: Env, disk: Bytes, ls: seq<Label>, s: State, t: nat)
    requires Lawful(c) && Reachable(c, disk, ls, s) && Faithful(c, disk, s) && Enabled(c, s, Write(t))
    ensures Faithful(c, disk, After(c, s, Write(t))) <==> SameOutcome(c, s, t)
  {
    InvariantsHold(c, disk, ls, s);
    var w := s.writers[t];
    assert WorkInvariant(c, s.disk, s.clobbered, w);
    var x := ByWriter(t, w.op, w.phase.reply);
    var n := After(c, s, Write(t));
    assert n.log == s.log + [x] && n.disk == c.render(w.phase.data);
    FoldSnoc(c, disk, s.log, x);
    if SameOutcome(c, s, t) { LegalSnoc(c, disk, s.log, x); }
    if Faithful(c, disk, n) {
      LegalPrefix(c, disk, s.log, x);
      var now := c.run(w.op, c.readText(s.disk).value);
      assert c.readText(c.render(now.data)) == Some(now.data) && c.readText(n.disk) == Some(w.phase.data);
    }
  }

  lemma OtherStepsFaithful(c: Env, disk: Bytes, s: State, l: Label)
    requires Faithful(c, disk, s) && Enabled(c, s, l) && !l.Write?
    ensures Faithful(c, disk, After(c, s, l))
  {
    if l.Edit? {
      FoldSnoc(c, disk, s.log, ByEditor(l.bytes));
      LegalSnoc(c, disk, s.log, ByEditor(l.bytes));
    }
  }

  /** The file is faithful at every moment of the run. */
  ghost predicate AlwaysFaithful(c: Env, disk: Bytes, ls: seq<Label>)
    requires Exec(c, Init(disk), ls).Some?
  {
    Faithful(c, disk, Exec(c, Init(disk), ls).value) && (ls != [] ==> AlwaysFaithful(c, disk, ls[..|ls| - 1]))
  }

  /** Every commit of the run finds a file that its mutation does not tell from the one
      its call had read. */
  ghost predicate CommitsAgree(c: Env, disk: Bytes, ls: seq<Label>)
    requires Exec(c, Init(disk), ls).Some?
  {
    ls != [] ==>
      var mid, l := Exec(c, Init(disk), ls[..|ls| - 1]).value, ls[|ls| - 1];
      CommitsAgree(c, disk, ls[..|ls| - 1]) && (l.Write? ==> SameOutcome(c, mid, l.t))
  }

  /** No moment of a run has lost an update if and only if every commit found a file that
      its mutation does not tell from the one its call had read. */
  lemma {:induction false} NothingLostIff(c: Env, disk: Bytes, ls: seq<Label>)
    requires Lawful(c) && Exec(c, Init(disk), ls).Some?
    ensures AlwaysFaithful(c, disk, ls) <==> CommitsAgree(c, disk, ls)
  {
    if ls != [] {
      var mid, l := Exec(c, Init(disk), ls[..|ls| - 1]).value, ls[|ls| - 1];
      NothingLostIff(c, disk, ls[..|ls| - 1]);
      if Faithful(c, disk, mid) {
        if l.Write? {
          CommitFaithfulIff(c, disk, ls[..|ls| - 1], mid, l.t);
        } else {
          OtherStepsFaithful(c, disk, mid, l);
        }
      }
    }
  }

  /** Every call that answered Ok has exactly one commit, made while the call was
      in progress and carrying its answer; a call that failed has none. */
  lemma ExactlyOnceOrNotAtAll(c: Env, disk: Bytes, ls: seq<Label>, s: State, t: nat)
    requires Reachable(c, disk, ls, s) && t in s.writers
    ensures var w := s.writers[t];
      && (w.phase.Answered? ==>
            && w.since <= w.phase.at < w.phase.until <= |s.log|
            && s.log[w.phase.at] == ByWriter(t, w.op, w.phase.reply)
            && forall i :: 0 <= i < |s.log| && s.log[i].ByWriter? && s.log[i].writer == t ==> i == w.phase.at)
      && (w.phase.Refused? ==> forall i :: 0 <= i < |s.log| && s.log[i].ByWriter? ==> s.log[i].writer != t)
  {
    InvariantsHold(c, disk, ls, s);
    assert EntryInvariant(s.log, t, s.writers[t]);
  }

  // ----- real time -----

  /** The state after the first `i` steps. */
  ghost function At(c: Env, disk: Bytes, ls: seq<Label>, i: nat): Option<State>
    requires i <= |ls|
  {
    Exec(c, Init(disk), ls[..i])
  }

  lemma {:induction false} Earlier(c: Env, disk: Bytes, ls: seq<Label>, i: nat)
    requires i <= |ls| && Exec(c, Init(disk), ls).Some?
    ensures At(c, disk, ls, i).Some? && |At(c, disk, ls, i).value.log| <= |Exec(c, Init(disk), ls).value.log|
  {
    if i < |ls| {
      var init := ls[..|ls| - 1];
      Earlier(c, disk, init, i);
      assert init[..i] == ls[..i];
    } else {
      assert ls[..i] == ls;
    }
  }

  /** A call that has answered stays as it is, stamped with the log at its answer. */
  lemma {:induction false} AnswerStamped(c: Env, disk: Bytes, ls: seq<Label>, s: State, i: nat, t: nat)
    requires Reachable(c, disk, ls, s) && i < |ls| && ls[i] == Answer(t)
    ensures At(c, disk, ls, i).Some?
    ensures t in s.writers && s.writers[t].phase.Answered? && s.writers[t].phase.until == |At(c, disk, ls, i).value.log|
  {
    var init := ls[..|ls| - 1];
    var mid := Exec(c, Init(disk), init).value;
    if i < |init| {
      AnswerStamped(c, disk, init, mid, i, t);
      assert init[..i] == ls[..i];
    } else {
      assert ls[..i] == init;
    }
  }

  /** A call keeps the stamp it was made with. */
  lemma {:induction false} InvokeStamped(c: Env, disk: Bytes, ls: seq<Label>, s: State, j: nat)
    requires Reachable(c, disk, ls, s) && j < |ls| && ls[j].Invoke?
    ensures At(c, disk, ls, j).Some?
    ensures ls[j].t in s.writers && s.writers[ls[j].t].since == |At(c, disk, ls, j).value.log|
  {
    var init := ls[..|ls| - 1];
    var mid := Exec(c, Init(disk), init).value;
    if j < |init| {
      InvokeStamped(c, disk, init, mid, j);
      assert init[..j] == ls[..j];
    } else {
      assert ls[..j] == init;
    }
  }

  /** A call that answered before another one was made precedes it in the log. */
  lemma RealTimeOrder(c: Env, disk: Bytes, ls: seq<Label>, s: State, i: nat, j: nat, t: nat)
    requires Reachable(c, disk, ls, s) && i < j < |ls| && ls[i] == Answer(t) && ls[j].Invoke?
    ensures t in s.writers && s.writers[t].phase.Answered? && ls[j].t in s.writers
    ensures var theirs := CommitOf(s.writers[ls[j].t].phase);
      theirs.Some? ==> s.writers[t].phase.at < theirs.value
  {
    var u := ls[j].t;
    InvariantsHold(c, disk, ls, s);
    AnswerStamped(c, disk, ls, s, i, t);
    InvokeStamped(c, disk, ls, s, j);
    Earlier(c, disk, ls[..j], i);
    assert ls[..j][..i] == ls[..i];
    assert EntryInvariant(s.log, t, s.writers[t]) && EntryInvariant(s.log, u, s.writers[u]);
  }
}
