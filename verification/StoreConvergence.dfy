/** How reload passes bring a snapshot into agreement with the file. */
module StoreConvergence {
  import opened Wrappers
  import opened CredsModels
  import opened CredsMutations
  import opened StoreProtocol
  import opened StoreSafety

  /** Nobody writes the file: only reload passes, of any store, and new stores. */
  predicate IsPassive(l: Label) { IsReload(l) || l.Open? }

  ghost predicate Passive(ls: seq<Label>) { forall i :: 0 <= i < |ls| ==> IsPassive(ls[i]) }

  lemma PassiveStep(c: Env, s: State, l: Label, x: nat)
    requires Enabled(c, s, l) && IsPassive(l) && x in s.stores
    ensures After(c, s, l).disk == s.disk && x in After(c, s, l).stores
    ensures l.x != x ==> After(c, s, l).stores[x] == s.stores[x]
  {
  }

  /** How many passes of store `x` a run completes. */
  ghost function Passes(c: Env, s: State, ls: seq<Label>, x: nat): nat
    requires Exec(c, s, ls).Some?
  {
    if ls == [] then 0
    else
      var mid := Exec(c, s, ls[..|ls| - 1]).value;
      var end := After(c, mid, ls[|ls| - 1]);
      Passes(c, s, ls[..|ls| - 1], x) +
      if x in mid.stores && x in end.stores && !mid.stores[x].reload.Idle? && end.stores[x].reload.Idle? then 1 else 0
  }

  /** A pass in progress was begun on this content of the file; past the marker
      check, the marker was not for it. */
  ghost predicate Tied(c: Env, disk: Bytes, st: Store) {
    match st.reload
    case Idle => true
    case Raw(raw) => raw == disk
    case Unmarked(raw) => raw == disk && st.marker != Some(c.digest(disk))
    case Parsed(raw, d) => raw == disk && c.readBytes(disk) == Some(d) && st.marker != Some(c.digest(disk))
    case Differs(d) => c.readBytes(disk) == Some(d) && st.marker != Some(c.digest(disk))
  }

  ghost predicate Settled(c: Env, disk: Bytes, st: Store) {
    Tied(c, disk, st) && c.readBytes(disk) == Some(st.cache) && st.marker != Some(c.digest(disk))
  }

  lemma RenderedIsParsed(c: Env, disk: Bytes, d: DataFile)
    requires Lawful(c) && c.digest(c.render(d)) == c.digest(disk)
    ensures c.readBytes(disk) == Some(d)
  {
  }

  /** One step of a pass that was begun on the current content. */
  lemma TiedStep(c: Env, s: State, l: Label, x: nat)
    requires Lawful(c) && Enabled(c, s, l) && IsPassive(l) && x in s.stores
    requires c.readBytes(s.disk).Some? && Tied(c, s.disk, s.stores[x])
    ensures var st, st' := s.stores[x], After(c, s, l).stores[x];
      && Tied(c, s.disk, st')
      && (st'.reload.Idle? && !st.reload.Idle? ==>
            if st.marker == Some(c.digest(s.disk))
            then st' == st.(marker := None, reload := Idle)
            else st'.marker == st.marker && c.readBytes(s.disk) == Some(st'.cache))
      && (!(st'.reload.Idle? && !st.reload.Idle?) ==> st'.cache == st.cache && st'.marker == st.marker)
  {
    PassiveStep(c, s, l, x);
    if l.Compare? && l.x == x && c.digest(c.render(s.stores[x].cache)) == c.digest(s.disk) {
      RenderedIsParsed(c, s.disk, s.stores[x].cache);
    }
  }

  // ----- two passes suffice -----

  /** Once settled, a store stays exactly as it is however many passes follow. */
  lemma {:induction false} SettledForever(c: Env, s: State, ls: seq<Label>, s': State, x: nat)
    requires Lawful(c) && Exec(c, s, ls) == Some(s') && Passive(ls) && x in s.stores
    requires Settled(c, s.disk, s.stores[x])
    ensures s'.disk == s.disk && x in s'.stores && Settled(c, s.disk, s'.stores[x])
    ensures s'.stores[x].cache == s.stores[x].cache && s'.stores[x].marker == s.stores[x].marker
  {
    if ls != [] {
      var init, l := ls[..|ls| - 1], ls[|ls| - 1];
      var mid := Exec(c, s, init).value;
      SettledForever(c, s, init, mid, x);
      PassiveStep(c, mid, l, x);
      TiedStep(c, mid, l, x);
    }
  }

  /** Passes that were in flight when the writers stopped. */
  function InFlight(st: Store): nat { if st.reload.Idle? then 0 else 1 }

  lemma {:induction false} PassesSettle(c: Env, s: State, ls: seq<Label>, s': State, x: nat)
    requires Lawful(c) && Exec(c, s, ls) == Some(s') && Passive(ls) && x in s.stores
    requires c.readBytes(s.disk).Some?
    ensures s'.disk == s.disk && x in s'.stores
    ensures var k, b, st := Passes(c, s, ls, x), InFlight(s.stores[x]), s'.stores[x];
      && (k < b ==> !st.reload.Idle?)
      && (k >= b ==> Tied(c, s.disk, st))
      && (k >= b + 1 ==> st.marker != Some(c.digest(s.disk)))
      && (k >= b + 2 ==> c.readBytes(s.disk) == Some(st.cache))
  {
    if ls != [] {
      var init, l := ls[..|ls| - 1], ls[|ls| - 1];
      var mid := Exec(c, s, init).value;
      PassesSettle(c, s, init, mid, x);
      PassiveStep(c, mid, l, x);
      if Passes(c, s, init, x) >= InFlight(s.stores[x]) { TiedStep(c, mid, l, x); }
    }
  }

  /** From any snapshot and any marker, two complete passes begun after the last
      write (three completions if one was in flight) make the snapshot the parse
      of the file, and nothing changes it afterwards. */
  lemma TwoPassesConverge(c: Env, s: State, ls: seq<Label>, s': State, x: nat, more: seq<Label>, s'': State)
    requires Lawful(c) && Exec(c, s, ls) == Some(s') && Passive(ls) && x in s.stores
    requires c.readBytes(s.disk).Some?
    requires Passes(c, s, ls, x) >= InFlight(s.stores[x]) + 2
    requires Exec(c, s', more) == Some(s'') && Passive(more)
    ensures x in s''.stores && c.readBytes(s.disk) == Some(s''.stores[x].cache)
    ensures x in s'.stores && s''.stores[x].marker == s'.stores[x].marker
  {
    PassesSettle(c, s, ls, s', x);
    SettledForever(c, s', more, s'', x);
  }

  // ----- when one pass suffices -----

  lemma {:induction false} FirstPass(c: Env, s: State, ls: seq<Label>, s': State, x: nat)
    requires Lawful(c) && Exec(c, s, ls) == Some(s') && Passive(ls) && x in s.stores
    requires c.readBytes(s.disk).Some? && s.stores[x].reload.Idle? && Passes(c, s, ls, x) <= 1
    ensures s'.disk == s.disk && x in s'.stores && Tied(c, s.disk, s'.stores[x])
    ensures var k, st, st' := Passes(c, s, ls, x), s.stores[x], s'.stores[x];
      && (k == 0 ==> st'.cache == st.cache && st'.marker == st.marker)
      && (k == 1 && st.marker == Some(c.digest(s.disk)) ==> st'.cache == st.cache && st'.marker.None?)
      && (k == 1 && st.marker != Some(c.digest(s.disk)) ==>
            c.readBytes(s.disk) == Some(st'.cache) && st'.marker == st.marker)
  {
    if ls != [] {
      var init, l := ls[..|ls| - 1], ls[|ls| - 1];
      var mid := Exec(c, s, init).value;
      FirstPass(c, s, init, mid, x);
      PassiveStep(c, mid, l, x);
      TiedStep(c, mid, l, x);
    }
  }

  /** One complete pass makes the snapshot agree with the file if and only if the
      marker was not left over for that very content, or they agreed already. */
  lemma OnePassConverges(c: Env, s: State, ls: seq<Label>, s': State, x: nat)
    requires Lawful(c) && Exec(c, s, ls) == Some(s') && Passive(ls) && x in s.stores
    requires c.readBytes(s.disk).Some? && s.stores[x].reload.Idle? && Passes(c, s, ls, x) == 1
    ensures x in s'.stores
    ensures c.readBytes(s.disk) == Some(s'.stores[x].cache) <==>
      (s.stores[x].marker != Some(c.digest(s.disk)) || c.readBytes(s.disk) == Some(s.stores[x].cache))
  {
    FirstPass(c, s, ls, s', x);
  }

  // ----- one pass is not enough in general -----

  /** A store reads the file for a pass; then a call reads it too. */
  ghost function RaceBegins(m: Mutation): seq<Label> {
    [Open(0), Invoke(0, 0, m), ReadDisk(0)] + [LockIo(0), LockFile(0), Load(0)]
  }

  /** The call commits, marks, publishes and answers. */
  ghost function RaceCommits(): seq<Label> { [RunOp(0), Write(0), Unlock(0)] + [Mark(0), Publish(0), Answer(0)] }

  /** The pass goes on with what it had read. */
  ghost function RaceEnds(): seq<Label> { [CheckMarker(0), Parse(0), Compare(0)] + [Swap(0)] }

  ghost function RaceRead(c: Env, d: DataFile, m: Mutation): State {
    Single(c.render(d), Some(0), Store(d, None, Some(0), Raw(c.render(d))), Writer(0, m, 0, true, Loaded(d)),
           [], [c.render(d)], false)
  }

  /** The call has written the file and released its lock. */
  ghost function RaceUnlocked(c: Env, d: DataFile, m: Mutation): State
    requires c.run(m, d).reply.Ok?
  {
    var d', r := c.run(m, d).data, c.run(m, d).reply.value;
    Single(c.render(d'), None, Store(d, None, Some(0), Raw(c.render(d))), Writer(0, m, 0, true, Unlocked(d', r, 0)),
           [ByWriter(0, m, r)], [c.render(d), c.render(d')], false)
  }

  /** The call has answered; the file holds the new data, the store shows `cache`. */
  ghost function RaceCommitted(c: Env, d: DataFile, m: Mutation, cache: DataFile, r: Reload): State
    requires c.run(m, d).reply.Ok?
  {
    var d', reply := c.run(m, d).data, c.run(m, d).reply.value;
    Single(c.render(d'), None, Store(cache, Some(c.digest(c.render(d'))), None, r),
           Writer(0, m, 0, true, Answered(reply, 0, 1)), [ByWriter(0, m, reply)], [c.render(d), c.render(d')], false)
  }

  lemma RaceBeginsReaches(c: Env, d: DataFile, m: Mutation)
    requires Lawful(c) && Validate(m).None?
    ensures Exec(c, Init(c.render(d)), RaceBegins(m)) == Some(RaceRead(c, d, m))
  {
    var disk := c.render(d);
    var s0 := Init(disk);
    var idle, raw := Store(d, None, None, Idle), Store(d, None, None, Raw(disk));
    var s1 := s0.(stores := map[0 := idle]);
    var s2 := Single(disk, None, idle, Writer(0, m, 0, true, Waiting), [], [disk], false);
    var s3 := Single(disk, None, raw, Writer(0, m, 0, true, Waiting), [], [disk], false);
    OpensAndInvokes(c, d, m);
    PassStepOf(c, s2, idle, ReadDisk(0));
    ThreeSteps(c, s0, Open(0), s1, Invoke(0, 0, m), s2, ReadDisk(0), s3);
    RaceLocks(c, d, m);
    ExecConcat(c, s0, [Open(0), Invoke(0, 0, m), ReadDisk(0)], s3, [LockIo(0), LockFile(0), Load(0)]);
  }

  lemma RaceLocks(c: Env, d: DataFile, m: Mutation)
    requires Lawful(c) && Validate(m).None?
    ensures var s := Single(c.render(d), None, Store(d, None, None, Raw(c.render(d))),
                            Writer(0, m, 0, true, Waiting), [], [c.render(d)], false);
      Exec(c, s, [LockIo(0), LockFile(0), Load(0)]) == Some(RaceRead(c, d, m))
  {
    var disk := c.render(d);
    var st, st' := Store(d, None, None, Raw(disk)), Store(d, None, Some(0), Raw(disk));
    var s3 := Single(disk, None, st, Writer(0, m, 0, true, Waiting), [], [disk], false);
    var s4 := Single(disk, None, st', Writer(0, m, 0, true, HoldsIo), [], [disk], false);
    var s5 := Single(disk, Some(0), st', Writer(0, m, 0, true, HoldsFile), [], [disk], false);
    CallStepOf(c, disk, None, st, Writer(0, m, 0, true, Waiting), [], [disk], false, LockIo(0));
    LocksAndLoads(c, disk, st', m, d);
    ThreeSteps(c, s3, LockIo(0), s4, LockFile(0), s5, Load(0), RaceRead(c, d, m));
  }

  lemma RaceWrites(c: Env, d: DataFile, m: Mutation)
    requires c.run(m, d).reply.Ok? && c.drawsNew(m, d)
    ensures Exec(c, RaceRead(c, d, m), [RunOp(0), Write(0), Unlock(0)]) == Some(RaceUnlocked(c, d, m))
  {
    var disk, d', r := c.render(d), c.run(m, d).data, c.run(m, d).reply.value;
    var st := Store(d, None, Some(0), Raw(disk));
    var w1, w2 := Writer(0, m, 0, true, Ready(d, d', r)), Writer(0, m, 0, true, Written(d', r, 0));
    var log, hist := [ByWriter(0, m, r)], [disk, c.render(d')];
    var s1 := Single(disk, Some(0), st, w1, [], [disk], false);
    var s2 := Single(c.render(d'), Some(0), st, w2, log, hist, false);
    Computes(c, disk, st, d, m, [], [disk], false);
    CallWrites(c, disk, Some(0), st, w1, [], [disk], false);
    assert [] + log == log && [disk] + [c.render(d')] == hist;
    CallStepOf(c, c.render(d'), Some(0), st, w2, log, hist, false, Unlock(0));
    ThreeSteps(c, RaceRead(c, d, m), RunOp(0), s1, Write(0), s2, Unlock(0), RaceUnlocked(c, d, m));
  }

  lemma RacePublishes(c: Env, d: DataFile, m: Mutation)
    requires c.run(m, d).reply.Ok?
    ensures Exec(c, RaceUnlocked(c, d, m), [Mark(0), Publish(0), Answer(0)])
         == Some(RaceCommitted(c, d, m, c.run(m, d).data, Raw(c.render(d))))
  {
    var d', r := c.run(m, d).data, c.run(m, d).reply.value;
    var disk, log, hist := c.render(d'), [ByWriter(0, m, r)], [c.render(d), c.render(d')];
    var st3 := Store(d, None, Some(0), Raw(c.render(d)));
    var st4 := Store(d, Some(c.digest(disk)), Some(0), Raw(c.render(d)));
    var st5 := Store(d', Some(c.digest(disk)), Some(0), Raw(c.render(d)));
    var w3, w4 := Writer(0, m, 0, true, Unlocked(d', r, 0)), Writer(0, m, 0, true, Marked(d', r, 0));
    var w5 := Writer(0, m, 0, true, Published(r, 0));
    CallStepOf(c, disk, None, st3, w3, log, hist, false, Mark(0));
    CallStepOf(c, disk, None, st4, w4, log, hist, false, Publish(0));
    CallStepOf(c, disk, None, st5, w5, log, hist, false, Answer(0));
    ThreeSteps(c, RaceUnlocked(c, d, m), Mark(0), Single(disk, None, st4, w4, log, hist, false),
               Publish(0), Single(disk, None, st5, w5, log, hist, false), Answer(0),
               RaceCommitted(c, d, m, d', Raw(c.render(d))));
  }

  lemma RaceCompares(c: Env, d: DataFile, m: Mutation)
    requires Lawful(c) && c.run(m, d).reply.Ok? && c.run(m, d).data != d
    ensures Exec(c, RaceCommitted(c, d, m, c.run(m, d).data, Raw(c.render(d))), [CheckMarker(0), Parse(0), Compare(0)])
         == Some(RaceCommitted(c, d, m, c.run(m, d).data, Differs(d)))
  {
    var disk, d' := c.render(d), c.run(m, d).data;
    assert c.readBytes(c.render(d')) == Some(d') && c.readBytes(disk) == Some(d);
    assert c.digest(c.render(d')) != c.digest(disk);
    var s0 := RaceCommitted(c, d, m, d', Raw(disk));
    var s1 := RaceCommitted(c, d, m, d', Unmarked(disk));
    var s2 := RaceCommitted(c, d, m, d', Parsed(disk, d));
    PassStepOf(c, s0, s0.stores[0], CheckMarker(0));
    PassStepOf(c, s1, s1.stores[0], Parse(0));
    PassStepOf(c, s2, s2.stores[0], Compare(0));
    ThreeSteps(c, s0, CheckMarker(0), s1, Parse(0), s2, Compare(0), RaceCommitted(c, d, m, d', Differs(d)));
  }

  lemma RaceEndsReaches(c: Env, d: DataFile, m: Mutation)
    requires Lawful(c) && c.run(m, d).reply.Ok? && c.run(m, d).data != d
    ensures Exec(c, RaceCommitted(c, d, m, c.run(m, d).data, Raw(c.render(d))), RaceEnds())
         == Some(RaceCommitted(c, d, m, d, Idle))
  {
    var s3 := RaceCommitted(c, d, m, c.run(m, d).data, Differs(d));
    RaceCompares(c, d, m);
    PassStepOf(c, s3, s3.stores[0], Swap(0));
    Extend(c, RaceCommitted(c, d, m, c.run(m, d).data, Raw(c.render(d))), [CheckMarker(0), Parse(0), Compare(0)],
           s3, Swap(0));
  }

  lemma RaceReaches(c: Env, d: DataFile, m: Mutation)
    requires Lawful(c) && Validate(m).None?
    requires c.run(m, d).reply.Ok? && c.drawsNew(m, d) && c.run(m, d).data != d
    ensures Reachable(c, c.render(d), RaceBegins(m) + RaceCommits() + RaceEnds(), RaceCommitted(c, d, m, d, Idle))
  {
    var s0, read := Init(c.render(d)), RaceRead(c, d, m);
    var committed := RaceCommitted(c, d, m, c.run(m, d).data, Raw(c.render(d)));
    RaceBeginsReaches(c, d, m);
    RaceWrites(c, d, m);
    RacePublishes(c, d, m);
    ExecConcat(c, read, [RunOp(0), Write(0), Unlock(0)], RaceUnlocked(c, d, m), [Mark(0), Publish(0), Answer(0)]);
    ExecConcat(c, s0, RaceBegins(m), read, RaceCommits());
    RaceEndsReaches(c, d, m);
    ExecConcat(c, s0, RaceBegins(m) + RaceCommits(), committed, RaceEnds());
  }

  /** A pass over content that the marker names is skipped. */
  lemma SkippedPass(c: Env, s: State)
    requires 0 in s.stores && s.fileLock.None? && s.stores[0].reload.Idle?
    requires s.stores[0].marker == Some(c.digest(s.disk))
    ensures var pass := [ReadDisk(0)] + [CheckMarker(0)];
      && Passive(pass)
      && Exec(c, s, pass) == Some(s.(stores := s.stores[0 := s.stores[0].(marker := None)]))
      && Passes(c, s, pass, 0) == 1
  {
    var s1 := After(c, s, ReadDisk(0));
    Extend(c, s, [], s, ReadDisk(0));
    assert [] + [ReadDisk(0)] == [ReadDisk(0)];
    Extend(c, s, [ReadDisk(0)], s1, CheckMarker(0));
    assert After(c, s1, CheckMarker(0)).stores == s.stores[0 := s.stores[0].(marker := None)];
    assert ([ReadDisk(0)] + [CheckMarker(0)])[..1] == [ReadDisk(0)];
    assert [ReadDisk(0)][..0] == [];
    assert Passes(c, s, [ReadDisk(0)], 0) == 0;
  }

  /** Every mutation that changes the data can be overtaken by a pass in progress:
      its call has answered, nothing is in flight, and yet the snapshot is the old
      data; a whole further pass only consumes the marker and leaves it old. */
  lemma StaleAfterOnePass(c: Env, d: DataFile, m: Mutation)
    requires Lawful(c) && Validate(m).None?
    requires c.run(m, d).reply.Ok? && c.drawsNew(m, d) && c.run(m, d).data != d
    ensures var quiet, pass := RaceCommitted(c, d, m, d, Idle), [ReadDisk(0)] + [CheckMarker(0)];
      && Reachable(c, c.render(d), RaceBegins(m) + RaceCommits() + RaceEnds(), quiet)
      && quiet.disk == c.render(c.run(m, d).data)
      && Passive(pass) && Exec(c, quiet, pass).Some? && Passes(c, quiet, pass, 0) == 1
      && 0 in Exec(c, quiet, pass).value.stores && Exec(c, quiet, pass).value.stores[0].cache == d
      && c.readBytes(quiet.disk) != Some(d)
  {
    RaceReaches(c, d, m);
    SkippedPass(c, RaceCommitted(c, d, m, d, Idle));
  }
}
