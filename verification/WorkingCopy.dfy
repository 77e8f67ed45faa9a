/** The mutation closures as they run: on a private, mutable copy of the data
    file, entry by entry (packages/creds-manage/src/store.rs). */
module WorkingCopy {
  import opened Wrappers
  import opened CredsModels
  import opened CredsMutations
  import CredsEntries

  method FirstUnknown(ids: seq<string>, known: set<string>) returns (r: Option<string>)
    ensures r == FirstMissing(ids, known)
  {
    for i := 0 to |ids|
      invariant forall j :: 0 <= j < i ==> ids[j] in known
      invariant FirstMissing(ids, known) == FirstMissing(ids[i..], known)
    {
      if ids[i] !in known { return Some(ids[i]); }
      assert ids[i..][1..] == ids[i + 1..];
    }
    return None;
  }

  /** The membership loop of `create_group`. */
  method JoinEach<C>(es: seq<Entry<C>>, selected: seq<string>, gid: string, now: Time) returns (r: seq<Entry<C>>)
    ensures r == UpdateAll(es, (m: Meta) => Join(m, selected, gid, now))
  {
    r := es;
    for i := 0 to |es|
      invariant |r| == |es|
      invariant forall k :: 0 <= k < i ==> r[k] == Entry(es[k].cred, Join(es[k].meta, selected, gid, now))
      invariant forall k :: i <= k < |es| ==> r[k] == es[k]
    {
      var m := r[i].meta;
      if m.id in selected && gid !in m.groupIds {
        r := r[i := Entry(r[i].cred, m.(groupIds := m.groupIds + [gid], updatedAt := now))];
      }
    }
  }

  /** The membership loop of `update_group`. */
  method AssignEach<C>(es: seq<Entry<C>>, gid: string, selected: Option<seq<string>>, now: Time)
    returns (r: seq<Entry<C>>)
    ensures r == UpdateAll(es, (m: Meta) => Assign(m, gid, selected, now))
  {
    r := es;
    for i := 0 to |es|
      invariant |r| == |es|
      invariant forall k :: 0 <= k < i ==> r[k] == Entry(es[k].cred, Assign(es[k].meta, gid, selected, now))
      invariant forall k :: i <= k < |es| ==> r[k] == es[k]
    {
      var m := r[i].meta;
      var wasMember := gid in m.groupIds;
      var targetMember := if selected.Some? then m.id in selected.value else wasMember;
      r := r[i := Entry(r[i].cred, SetMembership(m, gid, targetMember, now))];
    }
  }

  /** The membership loop of `delete_group`. */
  method LeaveEach<C>(es: seq<Entry<C>>, gid: string, now: Time) returns (r: seq<Entry<C>>)
    ensures r == UpdateAll(es, (m: Meta) => Leave(m, gid, now))
  {
    r := es;
    for i := 0 to |es|
      invariant |r| == |es|
      invariant forall k :: 0 <= k < i ==> r[k] == Entry(es[k].cred, Leave(es[k].meta, gid, now))
      invariant forall k :: i <= k < |es| ==> r[k] == es[k]
    {
      var m := r[i].meta;
      var kept := Without(m.groupIds, gid);
      if |kept| != |m.groupIds| {
        r := r[i := Entry(r[i].cred, m.(groupIds := kept, updatedAt := now))];
      }
    }
  }

  class Copy {
    const version: nat
    var groups: seq<Group>
    var basicCreds: seq<Entry<BasicCred>>
    var tokenCreds: seq<Entry<TokenCred>>

    function Value(): DataFile
      reads this
    {
      DataFile(version, groups, basicCreds, tokenCreds)
    }

    constructor (d: DataFile)
      ensures Value() == d
    {
      version, groups, basicCreds, tokenCreds := d.version, d.groups, d.basicCreds, d.tokenCreds;
    }

    method CreateBasicEntry(m: Mutation) returns (r: Result<Reply, Error>)
      requires m.CreateBasic?
      modifies this
      ensures Outcome(Value(), r) == Apply(m, old(Value()))
    {
      if EntryNameTaken(Value(), m.name, None) { return Err(DuplicateEntryName(m.name)); }
      var missing := FirstUnknown(m.groupIds, GroupIds(Value()));
      if missing.Some? { return Err(GroupNotFound(missing.value)); }
      if m.hashed.None? { return Err(CredsFailure); }
      var e := Entry(BasicCred(m.username, m.hashed.value), Meta(m.freshId, m.name, m.groupIds, m.now, m.now));
      basicCreds := basicCreds + [e];
      return Ok(EntryReply(ViewBasic(e)));
    }

    method CreateTokenEntry(m: Mutation) returns (r: Result<Reply, Error>)
      requires m.CreateToken?
      modifies this
      ensures Outcome(Value(), r) == Apply(m, old(Value()))
    {
      if EntryNameTaken(Value(), m.name, None) { return Err(DuplicateEntryName(m.name)); }
      var missing := FirstUnknown(m.groupIds, GroupIds(Value()));
      if missing.Some? { return Err(GroupNotFound(missing.value)); }
      if m.token.None? { return Err(CredsFailure); }
      var e := Entry(TokenCred(m.tokenHash), Meta(m.freshId, m.name, m.groupIds, m.now, m.now));
      tokenCreds := tokenCreds + [e];
      return Ok(TokenReply(ViewToken(e), m.token.value));
    }

    method UpdateEntry(m: Mutation) returns (r: Result<Reply, Error>)
      requires m.UpdateEntry?
      modifies this
      ensures Outcome(Value(), r) == Apply(m, old(Value()))
      ensures r.Ok? ==> CredsEntries.UpdatedOnly(old(Value()), m, Value())
    {
      ghost var was := Value();
      r := EditEntry(m);
      CredsEntries.UpdateEntryExactly(was, m);
    }

    /** The fields are overwritten one after the other, so a hashing failure
        leaves this copy half changed. */
    method EditEntry(m: Mutation) returns (r: Result<Reply, Error>)
      requires m.UpdateEntry?
      modifies this
      ensures Outcome(Value(), r) == Apply(m, old(Value()))
    {
      if m.newName.Some? && EntryNameTaken(Value(), m.newName.value, Some(m.id)) {
        return Err(DuplicateEntryName(m.newName.value));
      }
      if m.newGroupIds.Some? {
        var missing := FirstUnknown(m.newGroupIds.value, GroupIds(Value()));
        if missing.Some? { return Err(GroupNotFound(missing.value)); }
      }
      var found := FindEntry(basicCreds, m.id);
      if found.Some? {
        var at := found.value;
        var e := basicCreds[at];
        if m.newName.Some? {
          e := e.(meta := e.meta.(name := m.newName.value));
          basicCreds := basicCreds[at := e];
        }
        if m.newUsername.Some? {
          e := e.(cred := e.cred.(username := m.newUsername.value));
          basicCreds := basicCreds[at := e];
        }
        if m.newPassword.Some? {
          if m.rehashed.None? {
            assert basicCreds == old(basicCreds)[at := e];
            return Err(CredsFailure);
          }
          e := e.(cred := e.cred.(passwordHash := m.rehashed.value));
        }
        if m.newGroupIds.Some? { e := e.(meta := e.meta.(groupIds := m.newGroupIds.value)); }
        e := e.(meta := e.meta.(updatedAt := m.now));
        basicCreds := basicCreds[at := e];
        assert basicCreds == old(basicCreds)[at := e];
        return Ok(EntryReply(ViewBasic(e)));
      }
      found := FindEntry(tokenCreds, m.id);
      if found.Some? {
        var at := found.value;
        var e := tokenCreds[at];
        if m.newName.Some? { e := e.(meta := e.meta.(name := m.newName.value)); }
        if m.newGroupIds.Some? { e := e.(meta := e.meta.(groupIds := m.newGroupIds.value)); }
        e := e.(meta := e.meta.(updatedAt := m.now));
        tokenCreds := tokenCreds[at := e];
        return Ok(EntryReply(ViewToken(e)));
      }
      return Err(EntryNotFound(m.id));
    }

    method DeleteEntry(id: string) returns (r: Result<Reply, Error>)
      modifies this
      ensures Outcome(Value(), r) == Apply(Mutation.DeleteEntry(id), old(Value()))
    {
      var basicBefore := |basicCreds|;
      basicCreds := WithoutId(basicCreds, id);
      var tokenBefore := |tokenCreds|;
      tokenCreds := WithoutId(tokenCreds, id);
      if |basicCreds| == basicBefore && |tokenCreds| == tokenBefore { return Err(EntryNotFound(id)); }
      return Ok(DoneReply);
    }

    method CreateGroup(group: Group, entryIds: Option<seq<string>>, now: Time) returns (r: Result<Reply, Error>)
      modifies this
      ensures Outcome(Value(), r) == Apply(Mutation.CreateGroup(group, entryIds, now), old(Value()))
    {
      var selected := OrElse(entryIds, []);
      if GroupNameTaken(Value(), group.name, None) { return Err(DuplicateGroupName(group.name)); }
      var missing := FirstUnknown(selected, EntryIds(Value()));
      if missing.Some? { return Err(EntryNotFound(missing.value)); }
      groups := groups + [group];
      if selected != [] {
        basicCreds := JoinEach(basicCreds, selected, group.id, now);
        tokenCreds := JoinEach(tokenCreds, selected, group.id, now);
      }
      return Ok(GroupReply(group));
    }

    method UpdateGroup(id: string, name: string, selected: Option<seq<string>>, now: Time)
      returns (r: Result<Reply, Error>)
      modifies this
      ensures Outcome(Value(), r) == Apply(Mutation.UpdateGroup(id, name, selected, now), old(Value()))
    {
      if GroupNameTaken(Value(), name, Some(id)) { return Err(DuplicateGroupName(name)); }
      if selected.Some? {
        var missing := FirstUnknown(selected.value, EntryIds(Value()));
        if missing.Some? { return Err(EntryNotFound(missing.value)); }
      }
      var at := FindGroup(groups, id);
      if at.None? { return Err(GroupNotFound(id)); }
      groups := groups[at.value := groups[at.value].(name := name)];
      basicCreds := AssignEach(basicCreds, id, selected, now);
      tokenCreds := AssignEach(tokenCreds, id, selected, now);
      assert FindGroup(groups, id) == at by { assert groups[at.value] in groups; }
      return Ok(GroupReply(groups[at.value]));
    }

    method DeleteGroup(id: string, now: Time) returns (r: Result<Reply, Error>)
      modifies this
      ensures Outcome(Value(), r) == Apply(Mutation.DeleteGroup(id, now), old(Value()))
    {
      if FindGroup(groups, id).None? { return Err(GroupNotFound(id)); }
      groups := WithoutGroup(groups, id);
      basicCreds := LeaveEach(basicCreds, id, now);
      tokenCreds := LeaveEach(tokenCreds, id, now);
      return Ok(DoneReply);
    }

    /** One mutation closure run on this copy. */
    method Run(m: Mutation) returns (r: Result<Reply, Error>)
      modifies this
      ensures Outcome(Value(), r) == Apply(m, old(Value()))
    {
      match m
      case CreateBasic(_, _, _, _, _, _, _) => r := CreateBasicEntry(m);
      case CreateToken(_, _, _, _, _, _) => r := CreateTokenEntry(m);
      case UpdateEntry(_, _, _, _, _, _, _) => r := UpdateEntry(m);
      case DeleteEntry(id) => r := DeleteEntry(id);
      case CreateGroup(group, entryIds, now) => r := CreateGroup(group, entryIds, now);
      case UpdateGroup(id, name, entryIds, now) => r := UpdateGroup(id, name, entryIds, now);
      case DeleteGroup(id, now) => r := DeleteGroup(id, now);
    }
  }
}
