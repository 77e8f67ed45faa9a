/** What each mutation closure of the credential store does to the data file it
    is handed (packages/creds-manage/src/store.rs). Clock readings, fresh ids,
    password hashes and generated tokens are arguments. */
module CredsMutations {
  import opened Wrappers
  import opened Sequences
  import opened Characters
  import opened StringOrder
  import opened CredsModels

  datatype Error =
    | InvalidMaterial(message: string)
    | CredsFailure
    | DuplicateEntryName(name: string)
    | DuplicateGroupName(name: string)
    | EntryNotFound(id: string)
    | GroupNotFound(id: string)

  datatype Reply =
    | EntryReply(view: View)
    | TokenReply(view: View, token: string)
    | GroupReply(group: Group)
    | DoneReply

  /** A closure's effect on its private copy, whether or not it succeeds. */
  datatype Outcome = Outcome(data: DataFile, reply: Result<Reply, Error>)

  /** A call of one of the seven mutators. `hashed`, `rehashed` and `token` are
      `None` when hashing or token generation fails. */
  datatype Mutation =
    | CreateBasic(name: string, username: string, password: string, groupIds: seq<string>,
                  hashed: Option<string>, freshId: string, now: Time)
    | CreateToken(name: string, groupIds: seq<string>,
                  token: Option<string>, tokenHash: string, freshId: string, now: Time)
    | UpdateEntry(id: string, newName: Option<string>, newUsername: Option<string>, newPassword: Option<string>,
                  newGroupIds: Option<seq<string>>, rehashed: Option<string>, now: Time)
    | DeleteEntry(id: string)
    | CreateGroup(group: Group, entryIds: Option<seq<string>>, now: Time)
    | UpdateGroup(id: string, groupName: string, entryIds: Option<seq<string>>, now: Time)
    | DeleteGroup(id: string, now: Time)

  // ----- checks made before any lock is taken -----

  predicate Blank(s: string) { forall i :: 0 <= i < |s| ==> RustSpace(s[i]) }

  function Validate(m: Mutation): Option<Error> {
    match m
    case CreateBasic(_, username, password, _, _, _, _) =>
      if Blank(username) then Some(InvalidMaterial("Basic entry username must not be empty"))
      else if password == "" then Some(InvalidMaterial("Basic entry password must not be empty"))
      else None
    case UpdateEntry(_, _, username, password, _, _, _) =>
      if username.Some? && Blank(username.value) then Some(InvalidMaterial("Basic entry username must not be empty"))
      else if password == Some("") then Some(InvalidMaterial("Basic entry password must not be empty"))
      else None
    case _ => None
  }

  // ----- lookups -----

  /** Whether another entry than `current` already carries the name. */
  predicate EntryNameTaken(d: DataFile, name: string, current: Option<string>) {
    exists m :: m in Metas(d) && m.name == name && current != Some(m.id)
  }

  predicate GroupNameTaken(d: DataFile, name: string, current: Option<string>) {
    exists g :: g in d.groups && g.name == name && current != Some(g.id)
  }

  /** The first of `ids` that is not known. */
  function FirstMissing(ids: seq<string>, known: set<string>): (r: Option<string>)
    ensures r.None? <==> forall x :: x in ids ==> x in known
    ensures r.Some? ==> r.value in ids && r.value !in known
  {
    if ids == [] then None
    else if ids[0] !in known then Some(ids[0])
    else
      assert ids == [ids[0]] + ids[1..];
      FirstMissing(ids[1..], known)
  }

  function FindEntry<C>(es: seq<Entry<C>>, id: string): (r: Option<nat>)
    ensures r.None? <==> forall e :: e in es ==> e.meta.id != id
    ensures r.Some? ==> r.value < |es| && es[r.value].meta.id == id
    ensures r.Some? ==> forall i :: 0 <= i < r.value ==> es[i].meta.id != id
  {
    if es == [] then None
    else
      assert es == es[..|es| - 1] + [es[|es| - 1]];
      var r := FindEntry(es[..|es| - 1], id);
      if r.Some? then r
      else if es[|es| - 1].meta.id == id then Some(|es| - 1)
      else None
  }

  function FindGroup(gs: seq<Group>, id: string): (r: Option<nat>)
    ensures r.None? <==> forall g :: g in gs ==> g.id != id
    ensures r.Some? ==> r.value < |gs| && gs[r.value].id == id
    ensures r.Some? ==> forall i :: 0 <= i < r.value ==> gs[i].id != id
  {
    if gs == [] then None
    else
      assert gs == gs[..|gs| - 1] + [gs[|gs| - 1]];
      var r := FindGroup(gs[..|gs| - 1], id);
      if r.Some? then r
      else if gs[|gs| - 1].id == id then Some(|gs| - 1)
      else None
  }

  // ----- changes to one entry's metadata -----

  function Without(ids: seq<string>, id: string): seq<string> { Filter(ids, (x: string) => x != id) }

  /** `create_group`: a selected entry that is not a member yet joins. */
  function Join(m: Meta, selected: seq<string>, gid: string, now: Time): Meta {
    if m.id in selected && gid !in m.groupIds
    then m.(groupIds := m.groupIds + [gid], updatedAt := now)
    else m
  }

  /** `update_group_membership`. */
  function SetMembership(m: Meta, gid: string, member: bool, now: Time): Meta {
    var rest := Without(m.groupIds, gid);
    var ids := if member then Dedup(Sort(rest + [gid])) else rest;
    if ids != m.groupIds then m.(groupIds := ids, updatedAt := now) else m
  }

  function TargetMember(m: Meta, gid: string, selected: Option<seq<string>>): bool {
    if selected.Some? then m.id in selected.value else gid in m.groupIds
  }

  function Assign(m: Meta, gid: string, selected: Option<seq<string>>, now: Time): Meta {
    SetMembership(m, gid, TargetMember(m, gid, selected), now)
  }

  /** `delete_group`: the group id is dropped wherever it occurs. */
  function Leave(m: Meta, gid: string, now: Time): Meta {
    var ids := Without(m.groupIds, gid);
    if |ids| != |m.groupIds| then m.(groupIds := ids, updatedAt := now) else m
  }

  // ----- changes to a list of entries -----

  function UpdateAll<C>(es: seq<Entry<C>>, f: Meta -> Meta): (r: seq<Entry<C>>)
    ensures |r| == |es|
    ensures forall i :: 0 <= i < |es| ==> r[i] == Entry(es[i].cred, f(es[i].meta))
  {
    seq(|es|, i requires 0 <= i < |es| => Entry(es[i].cred, f(es[i].meta)))
  }

  function WithoutId<C(!new)>(es: seq<Entry<C>>, id: string): seq<Entry<C>> {
    Filter(es, (e: Entry<C>) => e.meta.id != id)
  }

  function WithoutGroup(gs: seq<Group>, id: string): seq<Group> {
    Filter(gs, (g: Group) => g.id != id)
  }

  // ----- the mutation closures -----

  function ApplyCreateBasic(d: DataFile, m: Mutation): Outcome
    requires m.CreateBasic?
  {
    var missing := FirstMissing(m.groupIds, GroupIds(d));
    if EntryNameTaken(d, m.name, None) then Outcome(d, Err(DuplicateEntryName(m.name)))
    else if missing.Some? then Outcome(d, Err(GroupNotFound(missing.value)))
    else if m.hashed.None? then Outcome(d, Err(CredsFailure))
    else
      var e := Entry(BasicCred(m.username, m.hashed.value), Meta(m.freshId, m.name, m.groupIds, m.now, m.now));
      Outcome(d.(basicCreds := d.basicCreds + [e]), Ok(EntryReply(ViewBasic(e))))
  }

  function ApplyCreateToken(d: DataFile, m: Mutation): Outcome
    requires m.CreateToken?
  {
    var missing := FirstMissing(m.groupIds, GroupIds(d));
    if EntryNameTaken(d, m.name, None) then Outcome(d, Err(DuplicateEntryName(m.name)))
    else if missing.Some? then Outcome(d, Err(GroupNotFound(missing.value)))
    else if m.token.None? then Outcome(d, Err(CredsFailure))
    else
      var e := Entry(TokenCred(m.tokenHash), Meta(m.freshId, m.name, m.groupIds, m.now, m.now));
      Outcome(d.(tokenCreds := d.tokenCreds + [e]), Ok(TokenReply(ViewToken(e), m.token.value)))
  }

  function OrElse<T>(new_: Option<T>, old_: T): T { if new_.Some? then new_.value else old_ }

  /** The metadata fields `update_entry` may overwrite. */
  function EditMeta(meta: Meta, m: Mutation): Meta
    requires m.UpdateEntry?
  {
    meta.(name := OrElse(m.newName, meta.name),
          groupIds := OrElse(m.newGroupIds, meta.groupIds),
          updatedAt := m.now)
  }

  function ApplyUpdateEntry(d: DataFile, m: Mutation): Outcome
    requires m.UpdateEntry?
  {
    var missing := if m.newGroupIds.Some? then FirstMissing(m.newGroupIds.value, GroupIds(d)) else None;
    var basicAt := FindEntry(d.basicCreds, m.id);
    var tokenAt := FindEntry(d.tokenCreds, m.id);
    if m.newName.Some? && EntryNameTaken(d, m.newName.value, Some(m.id)) then
      Outcome(d, Err(DuplicateEntryName(m.newName.value)))
    else if missing.Some? then Outcome(d, Err(GroupNotFound(missing.value)))
    else if basicAt.Some? then
      var e := d.basicCreds[basicAt.value];
      var username := OrElse(m.newUsername, e.cred.username);
      if m.newPassword.Some? && m.rehashed.None? then
        // name and username have been overwritten by the time hashing fails
        var half := Entry(e.cred.(username := username), e.meta.(name := OrElse(m.newName, e.meta.name)));
        Outcome(d.(basicCreds := d.basicCreds[basicAt.value := half]), Err(CredsFailure))
      else
        var hash := if m.newPassword.Some? then m.rehashed.value else e.cred.passwordHash;
        var done := Entry(BasicCred(username, hash), EditMeta(e.meta, m));
        Outcome(d.(basicCreds := d.basicCreds[basicAt.value := done]), Ok(EntryReply(ViewBasic(done))))
    else if tokenAt.Some? then
      var e := d.tokenCreds[tokenAt.value];
      var done := Entry(e.cred, EditMeta(e.meta, m));
      Outcome(d.(tokenCreds := d.tokenCreds[tokenAt.value := done]), Ok(EntryReply(ViewToken(done))))
    else Outcome(d, Err(EntryNotFound(m.id)))
  }

  function ApplyDeleteEntry(d: DataFile, id: string): Outcome {
    var kept := d.(basicCreds := WithoutId(d.basicCreds, id), tokenCreds := WithoutId(d.tokenCreds, id));
    if |kept.basicCreds| == |d.basicCreds| && |kept.tokenCreds| == |d.tokenCreds|
    then Outcome(kept, Err(EntryNotFound(id)))
    else Outcome(kept, Ok(DoneReply))
  }

  function ApplyCreateGroup(d: DataFile, group: Group, entryIds: Option<seq<string>>, now: Time): Outcome {
    var selected := OrElse(entryIds, []);
    var missing := FirstMissing(selected, EntryIds(d));
    if GroupNameTaken(d, group.name, None) then Outcome(d, Err(DuplicateGroupName(group.name)))
    else if missing.Some? then Outcome(d, Err(EntryNotFound(missing.value)))
    else
      var f := (m: Meta) => Join(m, selected, group.id, now);
      var grown := d.(groups := d.groups + [group]);
      Outcome(
        if selected == [] then grown
        else grown.(basicCreds := UpdateAll(d.basicCreds, f), tokenCreds := UpdateAll(d.tokenCreds, f)),
        Ok(GroupReply(group)))
  }

  function ApplyUpdateGroup(d: DataFile, id: string, name: string, selected: Option<seq<string>>, now: Time): Outcome {
    var missing := if selected.Some? then FirstMissing(selected.value, EntryIds(d)) else None;
    var at := FindGroup(d.groups, id);
    if GroupNameTaken(d, name, Some(id)) then Outcome(d, Err(DuplicateGroupName(name)))
    else if missing.Some? then Outcome(d, Err(EntryNotFound(missing.value)))
    else if at.None? then Outcome(d, Err(GroupNotFound(id)))
    else
      var f := (m: Meta) => Assign(m, id, selected, now);
      Outcome(
        d.(groups := d.groups[at.value := Group(id, name)],
           basicCreds := UpdateAll(d.basicCreds, f),
           tokenCreds := UpdateAll(d.tokenCreds, f)),
        Ok(GroupReply(Group(id, name))))
  }

  function ApplyDeleteGroup(d: DataFile, id: string, now: Time): Outcome {
    if FindGroup(d.groups, id).None? then Outcome(d, Err(GroupNotFound(id)))
    else
      var f := (m: Meta) => Leave(m, id, now);
      Outcome(
        d.(groups := WithoutGroup(d.groups, id),
           basicCreds := UpdateAll(d.basicCreds, f),
           tokenCreds := UpdateAll(d.tokenCreds, f)),
        Ok(DoneReply))
  }

  function Apply(m: Mutation, d: DataFile): Outcome {
    match m
    case CreateBasic(_, _, _, _, _, _, _) => ApplyCreateBasic(d, m)
    case CreateToken(_, _, _, _, _, _) => ApplyCreateToken(d, m)
    case UpdateEntry(_, _, _, _, _, _, _) => ApplyUpdateEntry(d, m)
    case DeleteEntry(id) => ApplyDeleteEntry(d, id)
    case CreateGroup(group, entryIds, now) => ApplyCreateGroup(d, group, entryIds, now)
    case UpdateGroup(id, name, entryIds, now) => ApplyUpdateGroup(d, id, name, entryIds, now)
    case DeleteGroup(id, now) => ApplyDeleteGroup(d, id, now)
  }

  /** The ids a mutation draws are not in use yet: what `Uuid::new_v4` is relied on for. */
  ghost predicate FreshIds(m: Mutation, d: DataFile) {
    match m
    case CreateBasic(_, _, _, _, _, id, _) => id !in EntryIds(d)
    case CreateToken(_, _, _, _, id, _) => id !in EntryIds(d)
    case CreateGroup(group, _, _) => group.id !in GroupIds(d)
    case _ => true
  }
}
