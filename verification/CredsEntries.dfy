/** What each mutator answers and leaves behind, in terms of the data file alone
    (packages/creds-manage/src/store.rs). */
module CredsEntries {
  import opened Wrappers
  import opened Sequences
  import opened Characters
  import opened Text
  import opened StringOrder
  import opened CredsModels
  import opened CredsMutations

  // ----- what is looked up -----

  ghost predicate KnownGroup(d: DataFile, id: string) { exists g :: g in d.groups && g.id == id }

  ghost predicate HasBasic(d: DataFile, id: string) { exists e :: e in d.basicCreds && e.meta.id == id }

  ghost predicate KnownEntry(d: DataFile, id: string) {
    HasBasic(d, id) || (exists e :: e in d.tokenCreds && e.meta.id == id)
  }

  /** Some entry with another id than `id`, if one is given, carries the name. */
  ghost predicate NameHeld(d: DataFile, name: string, id: Option<string>) {
    || (exists e :: e in d.basicCreds && e.meta.name == name && Some(e.meta.id) != id)
    || (exists e :: e in d.tokenCreds && e.meta.name == name && Some(e.meta.id) != id)
  }

  ghost predicate GroupNameHeld(d: DataFile, name: string, id: Option<string>) {
    exists g :: g in d.groups && g.name == name && Some(g.id) != id
  }

  lemma LookupsMean(d: DataFile, name: string, id: Option<string>)
    ensures EntryNameTaken(d, name, id) <==> NameHeld(d, name, id)
    ensures GroupNameTaken(d, name, id) <==> GroupNameHeld(d, name, id)
    ensures forall g :: g in GroupIds(d) <==> KnownGroup(d, g)
    ensures forall e :: e in EntryIds(d) <==> KnownEntry(d, e)
  {
    MetasOfEntries(d);
    forall e: string ensures e in EntryIds(d) <==> KnownEntry(d, e) {
      if KnownEntry(d, e) {
        if x :| x in d.basicCreds && x.meta.id == e { assert x.meta in Metas(d); }
        if x :| x in d.tokenCreds && x.meta.id == e { assert x.meta in Metas(d); }
      }
    }
    if NameHeld(d, name, id) {
      if x :| x in d.basicCreds && x.meta.name == name && Some(x.meta.id) != id { assert x.meta in Metas(d); }
      if x :| x in d.tokenCreds && x.meta.name == name && Some(x.meta.id) != id { assert x.meta in Metas(d); }
    }
  }

  lemma MetasOfEntries(d: DataFile)
    ensures forall m :: m in Metas(d) ==>
      (exists e :: e in d.basicCreds && e.meta == m) || (exists e :: e in d.tokenCreds && e.meta == m)
    ensures forall e :: e in d.basicCreds ==> e.meta in Metas(d)
    ensures forall e :: e in d.tokenCreds ==> e.meta in Metas(d)
  {
    forall m | m in Metas(d)
      ensures (exists e :: e in d.basicCreds && e.meta == m) || (exists e :: e in d.tokenCreds && e.meta == m)
    {
      if m in MetaOf(d.basicCreds) {
        var i :| 0 <= i < |d.basicCreds| && MetaOf(d.basicCreds)[i] == m;
        assert d.basicCreds[i] in d.basicCreds;
      } else {
        var i :| 0 <= i < |d.tokenCreds| && MetaOf(d.tokenCreds)[i] == m;
        assert d.tokenCreds[i] in d.tokenCreds;
      }
    }
    forall e | e in d.basicCreds ensures e.meta in Metas(d) {
      var i :| 0 <= i < |d.basicCreds| && d.basicCreds[i] == e;
      assert MetaOf(d.basicCreds)[i] == e.meta;
    }
    forall e | e in d.tokenCreds ensures e.meta in Metas(d) {
      var i :| 0 <= i < |d.tokenCreds| && d.tokenCreds[i] == e;
      assert MetaOf(d.tokenCreds)[i] == e.meta;
    }
  }

  /** `x` is the first of `ids` that is not known. */
  ghost predicate FirstUnknown(ids: seq<string>, known: set<string>, x: string) {
    exists i :: 0 <= i < |ids| && ids[i] == x && x !in known && forall j :: 0 <= j < i ==> ids[j] in known
  }

  lemma {:induction false} FirstMissingIsFirst(ids: seq<string>, known: set<string>)
    ensures var r := FirstMissing(ids, known); r.Some? ==> FirstUnknown(ids, known, r.value)
  {
    if ids != [] && ids[0] in known {
      FirstMissingIsFirst(ids[1..], known);
      var r := FirstMissing(ids[1..], known);
      if r.Some? {
        var i :| 0 <= i < |ids[1..]| && ids[1..][i] == r.value && r.value !in known
          && forall j :: 0 <= j < i ==> ids[1..][j] in known;
        assert ids[i + 1] == r.value;
        forall j | 0 <= j < i + 1 ensures ids[j] in known {
          if j > 0 { assert ids[j] == ids[1..][j - 1]; }
        }
      }
    }
  }

  // ----- checks before the lock -----

  /** A call is refused before anything is touched exactly when it sets a username of
      nothing but whitespace, or else an empty password, and says which. */
  lemma RefusedAtOnce(m: Mutation)
    ensures var username := if m.CreateBasic? then Some(m.username) else if m.UpdateEntry? then m.newUsername else None;
      var password := if m.CreateBasic? then Some(m.password) else if m.UpdateEntry? then m.newPassword else None;
      Validate(m) ==
        if username.Some? && Trim(username.value, RustSpace) == ""
        then Some(InvalidMaterial("Basic entry username must not be empty"))
        else if password == Some("") then Some(InvalidMaterial("Basic entry password must not be empty"))
        else None
  {
    if m.CreateBasic? { BlankIsTrimmed(m.username); }
    if m.UpdateEntry? && m.newUsername.Some? { BlankIsTrimmed(m.newUsername.value); }
  }

  lemma BlankIsTrimmed(s: string)
    ensures Blank(s) <==> Trim(s, RustSpace) == ""
  {
    TrimIff(s, "", RustSpace);
    if Blank(s) {
      assert s[0..] == s && StripAt("", s, RustSpace, 0, 0);
    }
    if Stripped("", s, RustSpace) {
      var i, j :| StripAt("", s, RustSpace, i, j);
      forall k | 0 <= k < |s| ensures RustSpace(s[k]) {
        if k < i { assert s[k] == s[..i][k]; } else { assert s[k] == s[j..][k - j]; }
      }
    }
  }

  // ----- the entry mutators -----

  /** What creating an entry says of the name and the groups it is given. */
  ghost predicate MayCreate(d: DataFile, name: string, groupIds: seq<string>) {
    !NameHeld(d, name, None) && forall g :: g in groupIds ==> KnownGroup(d, g)
  }

  /** A refused creation leaves the data alone and names the first thing wrong with it. */
  ghost predicate RefusesCreation(d: DataFile, o: Outcome, name: string, groupIds: seq<string>) {
    && o.data == d && o.reply.Err?
    && (NameHeld(d, name, None) ==> o.reply.error == DuplicateEntryName(name))
    && (MayCreate(d, name, groupIds) ==> o.reply.error == CredsFailure)
    && (!NameHeld(d, name, None) && !MayCreate(d, name, groupIds) ==>
          exists g :: FirstUnknown(groupIds, GroupIds(d), g) && o.reply.error == GroupNotFound(g))
  }

  lemma CreateBasicExactly(d: DataFile, m: Mutation)
    requires m.CreateBasic?
    ensures var o := Apply(m, d);
      && (o.reply.Ok? <==> MayCreate(d, m.name, m.groupIds) && m.hashed.Some?)
      && (o.reply.Ok? ==>
            var meta := Meta(m.freshId, m.name, m.groupIds, m.now, m.now);
            && o.data == d.(basicCreds := d.basicCreds + [Entry(BasicCred(m.username, m.hashed.value), meta)])
            && o.reply.value == EntryReply(View(meta, Basic, Some(m.username))))
      && (o.reply.Err? ==> RefusesCreation(d, o, m.name, m.groupIds))
  {
    LookupsMean(d, m.name, None);
    FirstMissingIsFirst(m.groupIds, GroupIds(d));
  }

  lemma CreateTokenExactly(d: DataFile, m: Mutation)
    requires m.CreateToken?
    ensures var o := Apply(m, d);
      && (o.reply.Ok? <==> MayCreate(d, m.name, m.groupIds) && m.token.Some?)
      && (o.reply.Ok? ==>
            var meta := Meta(m.freshId, m.name, m.groupIds, m.now, m.now);
            && o.data == d.(tokenCreds := d.tokenCreds + [Entry(TokenCred(m.tokenHash), meta)])
            && o.reply.value == TokenReply(View(meta, Token, None), m.token.value))
      && (o.reply.Err? ==> RefusesCreation(d, o, m.name, m.groupIds))
  {
    LookupsMean(d, m.name, None);
    FirstMissingIsFirst(m.groupIds, GroupIds(d));
  }

  /** Entry `i` is the first with that id. */
  ghost predicate IsFirst<C>(es: seq<Entry<C>>, i: nat, id: string) {
    i < |es| && es[i].meta.id == id && forall j :: 0 <= j < i ==> es[j].meta.id != id
  }

  /** The metadata after an update: name and groups as given or as they were. */
  ghost predicate Edited(m: Mutation, old_: Meta, new_: Meta)
    requires m.UpdateEntry?
  {
    && new_.id == old_.id && new_.createdAt == old_.createdAt && new_.updatedAt == m.now
    && new_.name == (if m.newName.Some? then m.newName.value else old_.name)
    && new_.groupIds == (if m.newGroupIds.Some? then m.newGroupIds.value else old_.groupIds)
  }

  /** The credential after an update: username as given or as it was, and the new hash
      exactly if a password was given. */
  ghost predicate Rekeyed(m: Mutation, old_: BasicCred, new_: BasicCred)
    requires m.UpdateEntry?
  {
    && new_.username == (if m.newUsername.Some? then m.newUsername.value else old_.username)
    && (m.newPassword.Some? ==> m.rehashed == Some(new_.passwordHash))
    && (m.newPassword.None? ==> new_.passwordHash == old_.passwordHash)
  }

  ghost predicate MayUpdate(d: DataFile, m: Mutation)
    requires m.UpdateEntry?
  {
    && (m.newName.Some? ==> !NameHeld(d, m.newName.value, Some(m.id)))
    && (m.newGroupIds.Some? ==> forall g :: g in m.newGroupIds.value ==> KnownGroup(d, g))
    && KnownEntry(d, m.id)
  }

  /** What a successful `update_entry` leaves: the first basic entry of that id, or if
      there is none the first token entry, is edited; everything else is as it was. */
  ghost predicate UpdatedOnly(d: DataFile, m: Mutation, d': DataFile)
    requires m.UpdateEntry?
  {
    && d'.groups == d.groups && d'.version == d.version
    && |d'.basicCreds| == |d.basicCreds| && |d'.tokenCreds| == |d.tokenCreds|
    && (forall i :: 0 <= i < |d.basicCreds| ==>
          if IsFirst(d.basicCreds, i, m.id)
          then && Edited(m, d.basicCreds[i].meta, d'.basicCreds[i].meta)
               && Rekeyed(m, d.basicCreds[i].cred, d'.basicCreds[i].cred)
          else d'.basicCreds[i] == d.basicCreds[i])
    && (forall i :: 0 <= i < |d.tokenCreds| ==>
          && d'.tokenCreds[i].cred == d.tokenCreds[i].cred
          && if IsFirst(d.tokenCreds, i, m.id) && !HasBasic(d, m.id)
             then Edited(m, d.tokenCreds[i].meta, d'.tokenCreds[i].meta)
             else d'.tokenCreds[i] == d.tokenCreds[i])
  }

  /** `update_entry` succeeds exactly when the new name is not another entry's, every new
      group exists, the entry exists, and hashing works where a basic entry gets a password. */
  lemma UpdateEntryExactly(d: DataFile, m: Mutation)
    requires m.UpdateEntry?
    ensures var o := Apply(m, d);
      && (o.reply.Ok? <==> MayUpdate(d, m) && (HasBasic(d, m.id) && m.newPassword.Some? ==> m.rehashed.Some?))
      && (o.reply.Ok? ==> UpdatedOnly(d, m, o.data))
  {
    UpdateEntryAllowed(d, m);
    if Apply(m, d).reply.Ok? { UpdateEntryEffect(d, m); }
  }

  lemma UpdateEntryAllowed(d: DataFile, m: Mutation)
    requires m.UpdateEntry?
    ensures var o := Apply(m, d);
      && (o.reply.Ok? <==> MayUpdate(d, m) && (HasBasic(d, m.id) && m.newPassword.Some? ==> m.rehashed.Some?))
  {
    LookupsMean(d, if m.newName.Some? then m.newName.value else "", Some(m.id));
    var basicAt, tokenAt := FindEntry(d.basicCreds, m.id), FindEntry(d.tokenCreds, m.id);
    if basicAt.Some? { assert d.basicCreds[basicAt.value] in d.basicCreds; }
    if tokenAt.Some? { assert d.tokenCreds[tokenAt.value] in d.tokenCreds; }
  }

  lemma UpdateEntryEffect(d: DataFile, m: Mutation)
    requires m.UpdateEntry? && Apply(m, d).reply.Ok?
    ensures UpdatedOnly(d, m, Apply(m, d).data)
  {
    var basicAt, tokenAt := FindEntry(d.basicCreds, m.id), FindEntry(d.tokenCreds, m.id);
    forall i | 0 <= i < |d.basicCreds| && IsFirst(d.basicCreds, i, m.id) ensures basicAt == Some(i) {
      assert d.basicCreds[i] in d.basicCreds;
    }
    forall i | 0 <= i < |d.tokenCreds| && IsFirst(d.tokenCreds, i, m.id) ensures tokenAt == Some(i) {
      assert d.tokenCreds[i] in d.tokenCreds;
    }
  }

  /** What a failing `update_entry` says, in the order it asks, and that the caller is
      shown the entry as it now is when it succeeds. */
  lemma UpdateEntryReply(d: DataFile, m: Mutation)
    requires m.UpdateEntry?
    ensures var o := Apply(m, d);
      var nameHeld := m.newName.Some? && NameHeld(d, m.newName.value, Some(m.id));
      var badGroup := m.newGroupIds.Some? && !forall g :: g in m.newGroupIds.value ==> KnownGroup(d, g);
      && (nameHeld ==> o.reply == Err(DuplicateEntryName(m.newName.value)))
      && (!nameHeld && badGroup ==>
            exists g :: FirstUnknown(m.newGroupIds.value, GroupIds(d), g) && o.reply == Err(GroupNotFound(g)))
      && (!nameHeld && !badGroup && !KnownEntry(d, m.id) ==> o.reply == Err(EntryNotFound(m.id)))
      && (MayUpdate(d, m) && o.reply.Err? ==> o.reply.error == CredsFailure)
      && (o.reply.Ok? ==>
            (exists e :: e in o.data.basicCreds && e.meta.id == m.id && o.reply.value == EntryReply(ViewBasic(e))) ||
            (exists e :: e in o.data.tokenCreds && e.meta.id == m.id && o.reply.value == EntryReply(ViewToken(e))))
  {
    var o := Apply(m, d);
    LookupsMean(d, if m.newName.Some? then m.newName.value else "", Some(m.id));
    if m.newGroupIds.Some? { FirstMissingIsFirst(m.newGroupIds.value, GroupIds(d)); }
    var basicAt, tokenAt := FindEntry(d.basicCreds, m.id), FindEntry(d.tokenCreds, m.id);
    if o.reply.Ok? {
      if basicAt.Some? {
        assert o.data.basicCreds[basicAt.value] in o.data.basicCreds;
      } else {
        assert o.data.tokenCreds[tokenAt.value] in o.data.tokenCreds;
      }
    }
  }

  /** `delete_entry` succeeds exactly on a known id; then the entries left are exactly those
      with other ids, and otherwise nothing has changed. */
  lemma DeleteEntryExactly(d: DataFile, id: string)
    ensures var o := Apply(DeleteEntry(id), d);
      && (KnownEntry(d, id) ==> o.reply == Ok(DoneReply))
      && (!KnownEntry(d, id) ==> o == Outcome(d, Err(EntryNotFound(id))))
      && o.data.groups == d.groups && o.data.version == d.version
      && (forall e :: e in o.data.basicCreds <==> e in d.basicCreds && e.meta.id != id)
      && (forall e :: e in o.data.tokenCreds <==> e in d.tokenCreds && e.meta.id != id)
  {
    var o := Apply(DeleteEntry(id), d);
    FilterAll(d.basicCreds, (e: Entry<BasicCred>) => e.meta.id != id);
    FilterAll(d.tokenCreds, (e: Entry<TokenCred>) => e.meta.id != id);
  }

  // ----- the group mutators -----

  /** What happens to one entry when a group is created: selected entries join at the end. */
  ghost predicate Joined(old_: Meta, new_: Meta, selected: seq<string>, gid: string, now: Time) {
    if old_.id in selected && gid !in old_.groupIds
    then new_ == old_.(groupIds := old_.groupIds + [gid], updatedAt := now)
    else new_ == old_
  }

  lemma CreateGroupExactly(d: DataFile, group: Group, entryIds: Option<seq<string>>, now: Time)
    ensures var o := Apply(CreateGroup(group, entryIds, now), d);
      var selected := if entryIds.Some? then entryIds.value else [];
      && (GroupNameHeld(d, group.name, None) ==> o == Outcome(d, Err(DuplicateGroupName(group.name))))
      && (o.reply.Ok? <==>
            !GroupNameHeld(d, group.name, None) && forall e :: e in selected ==> KnownEntry(d, e))
      && (o.reply.Err? && !GroupNameHeld(d, group.name, None) ==>
            exists e :: FirstUnknown(selected, EntryIds(d), e) && o == Outcome(d, Err(EntryNotFound(e))))
      && (o.reply.Ok? ==>
            && o.reply.value == GroupReply(group) && o.data.groups == d.groups + [group] && o.data.version == d.version
            && |o.data.basicCreds| == |d.basicCreds| && |o.data.tokenCreds| == |d.tokenCreds|
            && (forall i :: 0 <= i < |d.basicCreds| ==>
                  && o.data.basicCreds[i].cred == d.basicCreds[i].cred
                  && Joined(d.basicCreds[i].meta, o.data.basicCreds[i].meta, selected, group.id, now))
            && (forall i :: 0 <= i < |d.tokenCreds| ==>
                  && o.data.tokenCreds[i].cred == d.tokenCreds[i].cred
                  && Joined(d.tokenCreds[i].meta, o.data.tokenCreds[i].meta, selected, group.id, now)))
  {
    LookupsMean(d, group.name, None);
    FirstMissingIsFirst(if entryIds.Some? then entryIds.value else [], EntryIds(d));
  }

  /** Group `i` is the first with that id. */
  ghost predicate IsFirstGroup(gs: seq<Group>, i: nat, id: string) {
    i < |gs| && gs[i].id == id && forall j :: 0 <= j < i ==> gs[j].id != id
  }

  /** When `update_group` succeeds, what it says otherwise, and that it renames the group. */
  lemma UpdateGroupAllowed(d: DataFile, id: string, name: string, selected: Option<seq<string>>, now: Time)
    ensures var o := Apply(UpdateGroup(id, name, selected, now), d);
      var held := GroupNameHeld(d, name, Some(id));
      var known := selected.Some? ==> forall e :: e in selected.value ==> KnownEntry(d, e);
      && (o.reply.Ok? <==> !held && known && KnownGroup(d, id))
      && (held ==> o == Outcome(d, Err(DuplicateGroupName(name))))
      && (!held && !known ==>
            exists e :: FirstUnknown(selected.value, EntryIds(d), e) && o == Outcome(d, Err(EntryNotFound(e))))
      && (!held && known && !KnownGroup(d, id) ==> o == Outcome(d, Err(GroupNotFound(id))))
      && (o.reply.Ok? ==> o.reply.value == GroupReply(Group(id, name)) && o.data.version == d.version)
      && (o.reply.Ok? ==> |o.data.groups| == |d.groups| && forall i :: 0 <= i < |d.groups| ==>
            o.data.groups[i] == if IsFirstGroup(d.groups, i, id) then Group(id, name) else d.groups[i])
  {
    LookupsMean(d, name, Some(id));
    if selected.Some? { FirstMissingIsFirst(selected.value, EntryIds(d)); }
    var at := FindGroup(d.groups, id);
    if at.Some? { assert d.groups[at.value] in d.groups; }
    forall i | 0 <= i < |d.groups| && IsFirstGroup(d.groups, i, id) ensures at == Some(i) {
      assert d.groups[i] in d.groups;
    }
  }

  /** An entry that `update_group` makes a member has its groups sorted and each once; one
      that it takes out keeps the order of the others. */
  lemma MembershipOrdered(m: Meta, gid: string, now: Time)
    ensures var ids := SetMembership(m, gid, true, now).groupIds;
      forall i, j :: 0 <= i < j < |ids| ==> Precedes(ids[i], ids[j])
    ensures SetMembership(m, gid, false, now).groupIds == Filter(m.groupIds, (x: string) => x != gid)
  {
    var sorted := Sort(Without(m.groupIds, gid) + [gid]);
    DedupStrict(sorted);
    StrictlyPrecede(Dedup(sorted));
  }

  /** What happens to one entry when a group is deleted: it leaves that group only, and is
      stamped exactly if it was a member. */
  ghost predicate Left(old_: Meta, new_: Meta, gid: string, now: Time) {
    && new_ == old_.(groupIds := new_.groupIds, updatedAt := if gid in old_.groupIds then now else old_.updatedAt)
    && (forall g :: g in new_.groupIds <==> g in old_.groupIds && g != gid)
    && (gid !in old_.groupIds ==> new_.groupIds == old_.groupIds)
  }

  lemma LeaveMeans(m: Meta, gid: string, now: Time)
    ensures Left(m, Leave(m, gid, now), gid, now)
  {
    FilterAll(m.groupIds, (x: string) => x != gid);
  }

  lemma DeleteGroupExactly(d: DataFile, id: string, now: Time)
    ensures var o := Apply(DeleteGroup(id, now), d);
      && (!KnownGroup(d, id) ==> o == Outcome(d, Err(GroupNotFound(id))))
      && (KnownGroup(d, id) ==>
            && o.reply == Ok(DoneReply) && o.data.version == d.version
            && (forall g :: g in o.data.groups <==> g in d.groups && g.id != id)
            && |o.data.basicCreds| == |d.basicCreds| && |o.data.tokenCreds| == |d.tokenCreds|
            && (forall i :: 0 <= i < |d.basicCreds| ==>
                  && o.data.basicCreds[i].cred == d.basicCreds[i].cred
                  && Left(d.basicCreds[i].meta, o.data.basicCreds[i].meta, id, now))
            && (forall i :: 0 <= i < |d.tokenCreds| ==>
                  && o.data.tokenCreds[i].cred == d.tokenCreds[i].cred
                  && Left(d.tokenCreds[i].meta, o.data.tokenCreds[i].meta, id, now)))
  {
    forall m: Meta ensures Left(m, Leave(m, id, now), id, now) { LeaveMeans(m, id, now); }
  }
}
