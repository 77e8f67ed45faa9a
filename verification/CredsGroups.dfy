/** What the group mutators do to memberships, and what they undo. */
module CredsGroups {
  import opened Wrappers
  import opened Sequences
  import opened StringOrder
  import opened CredsModels
  import opened CredsMutations
  import opened CredsIntegrity

  // ----- update_group -----

  /** The target group is joined or left as asked, every other membership stays,
      and the time stamp moves exactly when the list of groups changes. */
  lemma SetMembershipExact(m: Meta, gid: string, member: bool, now: Time)
    ensures var m' := SetMembership(m, gid, member, now);
      && (gid in m'.groupIds <==> member)
      && (forall g :: g != gid ==> (g in m'.groupIds <==> g in m.groupIds))
      && m' == m.(groupIds := m'.groupIds, updatedAt := if m'.groupIds == m.groupIds then m.updatedAt else now)
  {
  }

  /** Setting a membership to what it is already set to changes nothing. */
  lemma SetMembershipTwice(m: Meta, gid: string, member: bool, t1: Time, t2: Time)
    ensures SetMembership(SetMembership(m, gid, member, t1), gid, member, t2) == SetMembership(m, gid, member, t1)
  {
    var once := SetMembership(m, gid, member, t1).groupIds;
    var rest := Without(m.groupIds, gid);
    var p := (x: string) => x != gid;
    if member {
      assert once == Dedup(Sort(rest + [gid]));
      DedupStrict(Sort(rest + [gid]));
      assert gid in rest + [gid];
      CanonicalForm(once, Without(once, gid) + [gid]);
    } else {
      FilterIdempotent(m.groupIds, p);
    }
  }

  lemma AssignTwice(m: Meta, gid: string, selected: Option<seq<string>>, t1: Time, t2: Time)
    ensures Assign(Assign(m, gid, selected, t1), gid, selected, t2) == Assign(m, gid, selected, t1)
  {
    SetMembershipExact(m, gid, TargetMember(m, gid, selected), t1);
    SetMembershipTwice(m, gid, TargetMember(m, gid, selected), t1, t2);
  }

  /** After `update_group`, the members of the group are exactly the selected
      entries (or the previous members when none were given), memberships in all
      other groups are as before, and no credential, id, name or other group
      has changed. */
  lemma UpdateGroupExact(d: DataFile, id: string, name: string, selected: Option<seq<string>>, now: Time, k: nat)
    requires ApplyUpdateGroup(d, id, name, selected, now).reply.Ok?
    requires k < |Metas(d)|
    ensures var d' := ApplyUpdateGroup(d, id, name, selected, now).data;
      && |Metas(d')| == |Metas(d)|
      && var m, m' := Metas(d)[k], Metas(d')[k];
      && (id in m'.groupIds <==> if selected.Some? then m.id in selected.value else id in m.groupIds)
      && (forall g :: g != id ==> (g in m'.groupIds <==> g in m.groupIds))
      && m'.id == m.id && m'.name == m.name && m'.createdAt == m.createdAt
      && (m'.groupIds == m.groupIds ==> m' == m)
      && Map(d'.basicCreds, CredOf<BasicCred>) == Map(d.basicCreds, CredOf<BasicCred>)
      && Map(d'.tokenCreds, CredOf<TokenCred>) == Map(d.tokenCreds, CredOf<TokenCred>)
      && |d'.groups| == |d.groups|
      && (forall i :: 0 <= i < |d.groups| ==> d'.groups[i].id == d.groups[i].id)
      && (forall i :: 0 <= i < |d.groups| && d.groups[i].id != id ==> d'.groups[i] == d.groups[i])
  {
    var m := Metas(d)[k];
    var f := (m: Meta) => Assign(m, id, selected, now);
    MetasUpdateAll(d, ApplyUpdateGroup(d, id, name, selected, now).data.groups, f);
    SetMembershipExact(m, id, TargetMember(m, id, selected), now);
  }

  function CredOf<C>(e: Entry<C>): C { e.cred }

  /** A second identical `update_group` changes nothing at all, time stamps
      included, and answers the same. */
  lemma UpdateGroupTwice(d: DataFile, id: string, name: string, selected: Option<seq<string>>, t1: Time, t2: Time)
    requires ApplyUpdateGroup(d, id, name, selected, t1).reply.Ok?
    ensures var first := ApplyUpdateGroup(d, id, name, selected, t1);
      ApplyUpdateGroup(first.data, id, name, selected, t2) == first
  {
    var first := ApplyUpdateGroup(d, id, name, selected, t1);
    var d1 := first.data;
    var at := FindGroup(d.groups, id).value;
    var f := (m: Meta) => Assign(m, id, selected, t1);
    MetasUpdateAll(d, d1.groups, f);
    UpdateGroupStillAllowed(d, id, name, selected, t1);
    assert FindGroup(d1.groups, id) == Some(at) by {
      assert d1.groups[at] in d1.groups;
    }
    assert d1.groups[at := Group(id, name)] == d1.groups;
    forall m: Meta ensures Assign(f(m), id, selected, t2) == f(m) { AssignTwice(m, id, selected, t1, t2); }
    var g := (m: Meta) => Assign(m, id, selected, t2);
    assert UpdateAll(d1.basicCreds, g) == d1.basicCreds;
    assert UpdateAll(d1.tokenCreds, g) == d1.tokenCreds;
  }

  lemma UpdateGroupStillAllowed(d: DataFile, id: string, name: string, selected: Option<seq<string>>, now: Time)
    requires ApplyUpdateGroup(d, id, name, selected, now).reply.Ok?
    ensures var d' := ApplyUpdateGroup(d, id, name, selected, now).data;
      EntryIds(d') == EntryIds(d) && !GroupNameTaken(d', name, Some(id))
  {
    var d' := ApplyUpdateGroup(d, id, name, selected, now).data;
    var f := (m: Meta) => Assign(m, id, selected, now);
    MetasUpdateAll(d, d'.groups, f);
    forall x | x in EntryIds(d) ensures x in EntryIds(d') {
      var k :| 0 <= k < |Metas(d)| && Metas(d)[k].id == x;
      assert Metas(d')[k] in Metas(d') && Metas(d')[k].id == x;
    }
    forall x | x in EntryIds(d') ensures x in EntryIds(d) {
      var k :| 0 <= k < |Metas(d)| && Metas(d')[k].id == x;
      assert Metas(d)[k] in Metas(d) && Metas(d)[k].id == x;
    }
    forall g | g in d'.groups && g.id != id ensures g in d.groups {
      var k :| 0 <= k < |d'.groups| && d'.groups[k] == g;
      assert d.groups[k] == g;
    }
  }

  // ----- create_group followed by delete_group -----

  /** The id occurs neither on a group nor on an entry. */
  ghost predicate Unused(d: DataFile, gid: string) {
    gid !in GroupIds(d) && forall m :: m in Metas(d) ==> gid !in m.groupIds
  }

  function Touch(m: Meta, selected: seq<string>, now: Time): Meta {
    if m.id in selected then m.(updatedAt := now) else m
  }

  /** `d` with the time stamps of the selected entries set. */
  function Touched(d: DataFile, selected: seq<string>, now: Time): DataFile {
    var f := (m: Meta) => Touch(m, selected, now);
    d.(basicCreds := UpdateAll(d.basicCreds, f), tokenCreds := UpdateAll(d.tokenCreds, f))
  }

  lemma JoinThenLeave(m: Meta, selected: seq<string>, gid: string, t1: Time, t2: Time)
    ensures gid !in m.groupIds ==> Leave(Join(m, selected, gid, t1), gid, t2) == Touch(m, selected, t2)
    ensures gid in m.groupIds ==> Leave(Join(m, selected, gid, t1), gid, t2).groupIds != m.groupIds
  {
    var p := (x: string) => x != gid;
    FilterAll(m.groupIds, p);
    FilterConcat(m.groupIds, [gid], p);
    assert Filter([gid], p) == [] by { assert [gid][..0] == []; }
    FilterAll(m.groupIds + [gid], p);
  }

  lemma CreateThenDeleteShape(d: DataFile, group: Group, entryIds: Option<seq<string>>, t1: Time, t2: Time)
    requires ApplyCreateGroup(d, group, entryIds, t1).reply.Ok?
    ensures var second := ApplyDeleteGroup(ApplyCreateGroup(d, group, entryIds, t1).data, group.id, t2);
      var f := (m: Meta) => Leave(Join(m, OrElse(entryIds, []), group.id, t1), group.id, t2);
      && second.reply.Ok?
      && second.data == d.(groups := WithoutGroup(d.groups, group.id),
                           basicCreds := UpdateAll(d.basicCreds, f), tokenCreds := UpdateAll(d.tokenCreds, f))
  {
    var selected := OrElse(entryIds, []);
    var mid := ApplyCreateGroup(d, group, entryIds, t1).data;
    var join := (m: Meta) => Join(m, selected, group.id, t1);
    assert mid.basicCreds == UpdateAll(d.basicCreds, join);
    assert mid.tokenCreds == UpdateAll(d.tokenCreds, join);
    assert mid.groups[|d.groups|] in mid.groups;
    var p := (g: Group) => g.id != group.id;
    FilterConcat(d.groups, [group], p);
    assert Filter([group], p) == [] by { assert [group][..0] == []; }
    var leave := (m: Meta) => Leave(m, group.id, t2);
    var f := (m: Meta) => Leave(Join(m, selected, group.id, t1), group.id, t2);
    assert UpdateAll(mid.basicCreds, leave) == UpdateAll(d.basicCreds, f);
    assert UpdateAll(mid.tokenCreds, leave) == UpdateAll(d.tokenCreds, f);
  }

  /** Creating a group with any existing entries and deleting it again restores
      the data file, up to the time stamps of those entries, if and only if the
      group's id was in use nowhere before. */
  lemma CreateThenDelete(d: DataFile, group: Group, entryIds: Option<seq<string>>, t1: Time, t2: Time)
    requires ApplyCreateGroup(d, group, entryIds, t1).reply.Ok?
    ensures var second := ApplyDeleteGroup(ApplyCreateGroup(d, group, entryIds, t1).data, group.id, t2);
      && second.reply.Ok?
      && (second.data == Touched(d, OrElse(entryIds, []), t2) <==> Unused(d, group.id))
  {
    CreateThenDeleteShape(d, group, entryIds, t1, t2);
    RestoredExactlyWhenUnused(d, OrElse(entryIds, []), group.id, t1, t2);
  }

  lemma RestoredExactlyWhenUnused(d: DataFile, selected: seq<string>, gid: string, t1: Time, t2: Time)
    ensures var f := (m: Meta) => Leave(Join(m, selected, gid, t1), gid, t2);
      var after := d.(groups := WithoutGroup(d.groups, gid),
                      basicCreds := UpdateAll(d.basicCreds, f), tokenCreds := UpdateAll(d.tokenCreds, f));
      after == Touched(d, selected, t2) <==> Unused(d, gid)
  {
    KeptGroups(d, gid);
    KeptEntries(d.basicCreds, selected, gid, t1, t2);
    KeptEntries(d.tokenCreds, selected, gid, t1, t2);
    assert forall m :: m in Metas(d) <==> m in MetaOf(d.basicCreds) || m in MetaOf(d.tokenCreds);
  }

  lemma KeptEntries<C>(es: seq<Entry<C>>, selected: seq<string>, gid: string, t1: Time, t2: Time)
    ensures UpdateAll(es, (m: Meta) => Leave(Join(m, selected, gid, t1), gid, t2))
         == UpdateAll(es, (m: Meta) => Touch(m, selected, t2))
       <==> forall m :: m in MetaOf(es) ==> gid !in m.groupIds
  {
    var left := UpdateAll(es, (m: Meta) => Leave(Join(m, selected, gid, t1), gid, t2));
    var right := UpdateAll(es, (m: Meta) => Touch(m, selected, t2));
    forall k | 0 <= k < |es| ensures left[k] == right[k] <==> gid !in MetaOf(es)[k].groupIds {
      JoinThenLeave(es[k].meta, selected, gid, t1, t2);
    }
    if left == right {
      assert forall k :: 0 <= k < |es| ==> gid !in MetaOf(es)[k].groupIds;
    } else {
      var k :| 0 <= k < |es| && left[k] != right[k];
      assert MetaOf(es)[k] in MetaOf(es);
    }
  }

  lemma KeptGroups(d: DataFile, gid: string)
    ensures WithoutGroup(d.groups, gid) == d.groups <==> gid !in GroupIds(d)
  {
    FilterAll(d.groups, (x: Group) => x.id != gid);
  }

  /** In an integral data file a group id that is new is unused, so there the
      restoration holds for every group with a fresh id. */
  lemma CreateThenDeleteIntegral(d: DataFile, group: Group, entryIds: Option<seq<string>>, t1: Time, t2: Time)
    requires Integral(d) && group.id !in GroupIds(d)
    requires ApplyCreateGroup(d, group, entryIds, t1).reply.Ok?
    ensures ApplyDeleteGroup(ApplyCreateGroup(d, group, entryIds, t1).data, group.id, t2)
         == Outcome(Touched(d, OrElse(entryIds, []), t2), Ok(DoneReply))
  {
    assert Unused(d, group.id);
    CreateThenDelete(d, group, entryIds, t1, t2);
  }
}
