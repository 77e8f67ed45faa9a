/** Forward-auth decisions made on the snapshots of a running store. */
module StoreAccess {
  import opened Wrappers
  import opened CredsModels
  import opened CredsMutations
  import opened ForwardAuth
  import opened StoreProtocol
  import opened StoreConvergence

  /** A token let in by one check, its three reads falling at any three moments
      of a run, was in a group of that id, and that group had that name, in
      contents the file has held. */
  lemma AcceptedTokenWasOnDisk(c: Env, k: Checks, disk: Bytes, ls1: seq<Label>, s1: State, s2: State, ls3: seq<Label>,
                               s3: State, x: nat, group: string, h: string, token: string)
    requires Lawful(c) && Reachable(c, disk, ls1, s1) && Reachable(c, disk, ls3, s3)
    requires x in s1.stores && x in s2.stores && x in s3.stores
    requires BearerToken(h) == Some(token)
    requires Decide(k, s1.stores[x].cache, s2.stores[x].cache, s3.stores[x].cache, group, Some(h)).Accepted?
    ensures exists b1, b3, d1, d3, g ::
      && b1 in s1.history && c.readBytes(b1) == Some(d1) && FindByName(d1, group) == Some(g)
      && b3 in s3.history && c.readBytes(b3) == Some(d3) && HeldIn(d3.tokenCreds, g.id, k.hashToken(token))
  {
    var d1, d3 := s1.stores[x].cache, s3.stores[x].cache;
    TokenAccepted(k, d1, s2.stores[x].cache, d3, group, h, token);
    SnapshotsWereOnDisk(c, disk, ls1, s1, x);
    SnapshotsWereOnDisk(c, disk, ls3, s3, x);
    var b1 :| b1 in s1.history && c.readBytes(b1) == Some(d1);
    var b3 :| b3 in s3.history && c.readBytes(b3) == Some(d3);
    assert FindByName(d1, group) == Some(FindByName(d1, group).value);
  }

  /** Once the file holds the outcome of a `delete_group` and nobody writes any
      more, two complete passes later the store lets nobody in under that name. */
  lemma DeletedGroupIsShutOut(c: Env, k: Checks, s: State, ls: seq<Label>, s': State, x: nat, d: DataFile, g: Group,
                              now: Time, header: Option<string>)
    requires Lawful(c) && Integral(d) && g in d.groups
    requires s.disk == c.render(ApplyDeleteGroup(d, g.id, now).data)
    requires Exec(c, s, ls) == Some(s') && Passive(ls) && x in s.stores
    requires Passes(c, s, ls, x) >= InFlight(s.stores[x]) + 2
    ensures x in s'.stores
    ensures var seen := s'.stores[x].cache;
            Decide(k, seen, seen, seen, g.name, header) == Denied("group_not_found", None)
  {
    var d' := ApplyDeleteGroup(d, g.id, now).data;
    assert c.readBytes(c.render(d')) == Some(d');
    TwoPassesConverge(c, s, ls, s', x, [], s');
    DeleteGroupRevokes(k, d, g, now, header);
  }
}
