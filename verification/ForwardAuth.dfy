/** The forward-auth decision over the credential store
    (apps/server/src/routes/forward_auth.rs, packages/creds-manage/src/auth.rs,
    packages/creds/src/validator.rs). The three store reads of one check may see
    three different snapshots. */
module ForwardAuth {
  import opened Wrappers
  import opened Sequences
  import opened Characters
  import opened Text
  import opened CredsModels
  import opened CredsMutations
  import opened CredsIntegrity
  import opened CredsGroups

  /** Base64-then-UTF-8 decoding, Argon2 verification (`None` when the stored
      hash cannot be parsed) and the token hash. */
  datatype Checks = Checks(
    decode: string -> Option<string>,
    verify: (string, string) -> Option<bool>,
    hashToken: string -> string)

  datatype Decision =
    | Accepted(name: string, scheme: string)
    | Denied(reason: string, stage: Option<string>)

  // ----- the Authorization header -----

  function Lower(c: char): char { if 'A' <= c <= 'Z' then (c as int + 32) as char else c }

  predicate SameIgnoringCase(a: string, b: string) {
    |a| == |b| && forall i :: 0 <= i < |a| ==> Lower(a[i]) == Lower(b[i])
  }

  predicate IsBasicHeader(h: string) { |h| >= 6 && SameIgnoringCase(h[..6], "Basic ") }

  predicate IsBearerHeader(h: string) { |h| >= 7 && SameIgnoringCase(h[..7], "Bearer ") }

  /** Text before and after the first colon. */
  function SplitAtColon(s: string): (r: Option<(string, string)>)
    ensures r.Some? ==> s == r.value.0 + ":" + r.value.1 && ':' !in r.value.0
    ensures r.None? <==> ':' !in s
  {
    if s == "" then None
    else if s[0] == ':' then Some(("", s[1..]))
    else
      assert s == [s[0]] + s[1..];
      match SplitAtColon(s[1..])
      case None => None
      case Some((a, b)) => Some(([s[0]] + a, b))
  }

  function BasicPair(k: Checks, h: string): Option<(string, string)> {
    if !IsBasicHeader(h) then None
    else
      var decoded := k.decode(Trim(h[6..], RustSpace));
      if decoded.None? then None else SplitAtColon(decoded.value)
  }

  function BearerToken(h: string): Option<string> {
    if IsBearerHeader(h) then Some(Trim(h[7..], RustSpace)) else None
  }

  lemma OneScheme(k: Checks, h: string)
    ensures !(BasicPair(k, h).Some? && BearerToken(h).Some?)
  {
    if |h| >= 7 {
      assert h[..6][1] == h[..7][1];
      assert Lower("Basic "[1]) != Lower("Bearer "[1]);
    }
  }

  // ----- store reads -----

  function FindByName(d: DataFile, name: string): (r: Option<Group>)
    ensures r.Some? ==> r.value in d.groups && r.value.name == name
    ensures r.None? ==> forall g :: g in d.groups ==> g.name != name
  {
    FindNamed(d.groups, name)
  }

  function FindNamed(gs: seq<Group>, name: string): (r: Option<Group>)
    ensures r.Some? ==> r.value in gs && r.value.name == name
    ensures r.None? ==> forall g :: g in gs ==> g.name != name
  {
    if gs == [] then None
    else
      assert gs == [gs[0]] + gs[1..];
      if gs[0].name == name then Some(gs[0]) else FindNamed(gs[1..], name)
  }

  function Members<C(!new)>(es: seq<Entry<C>>, gid: string): (r: seq<Entry<C>>)
    ensures forall e :: e in r <==> e in es && gid in e.meta.groupIds
  {
    Filter(es, (e: Entry<C>) => gid in e.meta.groupIds)
  }

  // ----- validators: hash maps collected from lists -----

  function IndexByUsername(es: seq<Entry<BasicCred>>): map<string, Entry<BasicCred>> {
    if es == [] then map[]
    else IndexByUsername(es[..|es| - 1])[es[|es| - 1].cred.username := es[|es| - 1]]
  }

  function IndexByHash(es: seq<Entry<TokenCred>>): map<string, Entry<TokenCred>> {
    if es == [] then map[]
    else IndexByHash(es[..|es| - 1])[es[|es| - 1].cred.tokenHash := es[|es| - 1]]
  }

  /** The last entry with the given key: a plain scan. */
  function LastUser(es: seq<Entry<BasicCred>>, username: string): (r: Option<Entry<BasicCred>>)
    ensures r.Some? ==> r.value in es && r.value.cred.username == username
    ensures r.None? <==> forall e :: e in es ==> e.cred.username != username
  {
    if es == [] then None
    else
      assert es == es[..|es| - 1] + [es[|es| - 1]];
      if es[|es| - 1].cred.username == username then Some(es[|es| - 1])
      else LastUser(es[..|es| - 1], username)
  }

  function LastHolder(es: seq<Entry<TokenCred>>, hash: string): (r: Option<Entry<TokenCred>>)
    ensures r.Some? ==> r.value in es && r.value.cred.tokenHash == hash
    ensures r.None? <==> forall e :: e in es ==> e.cred.tokenHash != hash
  {
    if es == [] then None
    else
      assert es == es[..|es| - 1] + [es[|es| - 1]];
      if es[|es| - 1].cred.tokenHash == hash then Some(es[|es| - 1])
      else LastHolder(es[..|es| - 1], hash)
  }

  lemma {:induction false} UserIndexIsScan(es: seq<Entry<BasicCred>>, username: string)
    ensures username in IndexByUsername(es) <==> LastUser(es, username).Some?
    ensures username in IndexByUsername(es) ==> LastUser(es, username) == Some(IndexByUsername(es)[username])
  {
    if es != [] { UserIndexIsScan(es[..|es| - 1], username); }
  }

  lemma {:induction false} HashIndexIsScan(es: seq<Entry<TokenCred>>, hash: string)
    ensures hash in IndexByHash(es) <==> LastHolder(es, hash).Some?
    ensures hash in IndexByHash(es) ==> LastHolder(es, hash) == Some(IndexByHash(es)[hash])
  {
    if es != [] { HashIndexIsScan(es[..|es| - 1], hash); }
  }

  /** `check_basic_auth`: `Err` when the stored hash of the entry found cannot be parsed. */
  function CheckBasicAuth(k: Checks, es: seq<Entry<BasicCred>>, username: string, password: string)
    : Result<Option<string>, ()>
  {
    var index := IndexByUsername(es);
    if username !in index then Ok(None)
    else
      match k.verify(password, index[username].cred.passwordHash)
      case None => Err(())
      case Some(ok) => Ok(if ok then Some(index[username].meta.name) else None)
  }

  function CheckTokenAuth(k: Checks, es: seq<Entry<TokenCred>>, token: string): Option<string> {
    var index, hash := IndexByHash(es), k.hashToken(token);
    if hash in index && k.hashToken(token) == index[hash].cred.tokenHash then Some(index[hash].meta.name) else None
  }

  /** The same two checks by plain scans. */
  function ScanBasic(k: Checks, es: seq<Entry<BasicCred>>, username: string,
                     password: string): Result<Option<string>, ()>
  {
    var user := LastUser(es, username);
    if user.None? then Ok(None)
    else
      match k.verify(password, user.value.cred.passwordHash)
      case None => Err(())
      case Some(ok) => Ok(if ok then Some(user.value.meta.name) else None)
  }

  function ScanToken(k: Checks, es: seq<Entry<TokenCred>>, token: string): Option<string> {
    var holder := LastHolder(es, k.hashToken(token));
    if holder.Some? then Some(holder.value.meta.name) else None
  }

  /** The hash-map validators agree with the scans. */
  lemma ValidatorsAreScans(k: Checks, bs: seq<Entry<BasicCred>>, ts: seq<Entry<TokenCred>>, pair: (string, string),
                           token: string)
    ensures CheckBasicAuth(k, bs, pair.0, pair.1) == ScanBasic(k, bs, pair.0, pair.1)
    ensures CheckTokenAuth(k, ts, token) == ScanToken(k, ts, token)
  {
    UserIndexIsScan(bs, pair.0);
    HashIndexIsScan(ts, k.hashToken(token));
  }

  // ----- the decision -----

  /** The decision among the members of a group, by plain scans. */
  function Judge(k: Checks, bs: seq<Entry<BasicCred>>, ts: seq<Entry<TokenCred>>, pair: Option<(string, string)>,
                 token: Option<string>): Decision
  {
    var basic := if pair.Some? then ScanBasic(k, bs, pair.value.0, pair.value.1) else Ok(None);
    var bearer := if token.Some? then ScanToken(k, ts, token.value) else None;
    if basic.Ok? && basic.value.Some? then Accepted(basic.value.value, "basic")
    else if bearer.Some? then Accepted(bearer.value, "bearer")
    else if basic.Err? then Denied("credential_validation_failed", Some("basic_credential_validation"))
    else Denied("no_valid_credentials", None)
  }

  function Decide(k: Checks, byName: DataFile, basics: DataFile, tokens: DataFile, group: string,
                  header: Option<string>)
    : Decision
  {
    var g := FindByName(byName, group);
    if g.None? then Denied("group_not_found", None)
    else
      var bs, ts := Members(basics.basicCreds, g.value.id), Members(tokens.tokenCreds, g.value.id);
      if bs == [] && ts == [] then Denied("group_has_no_entries", None)
      else if header.None? then Denied("missing_authorization_header", None)
      else Judge(k, bs, ts, BasicPair(k, header.value), BearerToken(header.value))
  }

  /** `check_forward_auth`, with its hash-map validators and its mutable failure stage. */
  method CheckForwardAuth(k: Checks, byName: DataFile, basics: DataFile, tokens: DataFile, group: string,
                          header: Option<string>) returns (r: Decision)
    ensures r == Decide(k, byName, basics, tokens, group, header)
  {
    var found := FindByName(byName, group);
    if found.None? { return Denied("group_not_found", None); }
    var basicEntries := Members(basics.basicCreds, found.value.id);
    var tokenEntries := Members(tokens.tokenCreds, found.value.id);
    if basicEntries == [] && tokenEntries == [] { return Denied("group_has_no_entries", None); }
    if header.None? { return Denied("missing_authorization_header", None); }
    r := TryCredentials(k, basicEntries, tokenEntries, BasicPair(k, header.value), BearerToken(header.value));
  }

  method TryCredentials(k: Checks, bs: seq<Entry<BasicCred>>, ts: seq<Entry<TokenCred>>, pair: Option<(string, string)>,
                        token: Option<string>) returns (r: Decision)
    ensures r == Judge(k, bs, ts, pair, token)
  {
    var stage: Option<string> := None;
    if pair.Some? {
      ValidatorsAreScans(k, bs, ts, pair.value, "");
      var checked := CheckBasicAuth(k, bs, pair.value.0, pair.value.1);
      if checked.Err? {
        stage := Some("basic_credential_validation");
      } else if checked.value.Some? {
        return Accepted(checked.value.value, "basic");
      }
    }
    if token.Some? {
      ValidatorsAreScans(k, bs, ts, ("", ""), token.value);
      var checked := CheckTokenAuth(k, ts, token.value);
      if checked.Some? { return Accepted(checked.value, "bearer"); }
    }
    return Denied(if stage.Some? then "credential_validation_failed" else "no_valid_credentials", stage);
  }

  // ----- when a credential is accepted -----

  /** Some entry of the group stores the hash. */
  ghost predicate HeldIn(es: seq<Entry<TokenCred>>, gid: string, hash: string) {
    exists i :: 0 <= i < |es| && gid in es[i].meta.groupIds && es[i].cred.tokenHash == hash
  }

  lemma HolderAmongMembers(es: seq<Entry<TokenCred>>, gid: string, hash: string)
    ensures LastHolder(Members(es, gid), hash).Some? <==> HeldIn(es, gid, hash)
  {
    var holder := LastHolder(Members(es, gid), hash);
    if holder.Some? {
      assert holder.value in es;
      var i :| 0 <= i < |es| && es[i] == holder.value;
      assert HeldIn(es, gid, hash);
    } else {
      assert forall i :: 0 <= i < |es| && gid in es[i].meta.groupIds ==> es[i] in Members(es, gid);
    }
  }

  lemma JudgeToken(k: Checks, bs: seq<Entry<BasicCred>>, ts: seq<Entry<TokenCred>>, token: string)
    ensures Judge(k, bs, ts, None, Some(token)).Accepted? <==> LastHolder(ts, k.hashToken(token)).Some?
    ensures LastHolder(ts, k.hashToken(token)).Some? ==> ts != []
  {
  }

  /** A bearer token is accepted if and only if, in the token snapshot, some
      entry of the group found by name stores its hash; nothing else counts. */
  lemma TokenAccepted(k: Checks, byName: DataFile, basics: DataFile, tokens: DataFile, group: string, h: string,
                      token: string)
    requires BearerToken(h) == Some(token)
    ensures var g := FindByName(byName, group);
      Decide(k, byName, basics, tokens, group, Some(h)).Accepted? <==>
      g.Some? && HeldIn(tokens.tokenCreds, g.value.id, k.hashToken(token))
  {
    OneScheme(k, h);
    var g := FindByName(byName, group);
    if g.Some? {
      var bs, ts := Members(basics.basicCreds, g.value.id), Members(tokens.tokenCreds, g.value.id);
      HolderAmongMembers(tokens.tokenCreds, g.value.id, k.hashToken(token));
      JudgeToken(k, bs, ts, token);
    }
  }

  lemma JudgeBasic(k: Checks, bs: seq<Entry<BasicCred>>, ts: seq<Entry<TokenCred>>, pair: (string, string))
    ensures Judge(k, bs, ts, Some(pair), None).Accepted? <==>
      && LastUser(bs, pair.0).Some?
      && k.verify(pair.1, LastUser(bs, pair.0).value.cred.passwordHash) == Some(true)
    ensures LastUser(bs, pair.0).Some? ==> bs != []
  {
  }

  /** A basic pair is accepted if and only if the last entry of the group with
      that username verifies the password. */
  lemma BasicAccepted(k: Checks, byName: DataFile, basics: DataFile, tokens: DataFile, group: string, h: string,
                      pair: (string, string))
    requires BasicPair(k, h) == Some(pair)
    ensures var g := FindByName(byName, group);
      Decide(k, byName, basics, tokens, group, Some(h)).Accepted? <==>
      && g.Some?
      && var user := LastUser(Members(basics.basicCreds, g.value.id), pair.0);
         user.Some? && k.verify(pair.1, user.value.cred.passwordHash) == Some(true)
  {
    OneScheme(k, h);
    var g := FindByName(byName, group);
    if g.Some? {
      var bs, ts := Members(basics.basicCreds, g.value.id), Members(tokens.tokenCreds, g.value.id);
      JudgeBasic(k, bs, ts, pair);
    }
  }

  /** Without a header, or with one of neither scheme, nobody is let in. */
  lemma NothingElseAccepted(k: Checks, byName: DataFile, basics: DataFile, tokens: DataFile, group: string,
                            header: Option<string>)
    requires header.Some? ==> BasicPair(k, header.value).None? && BearerToken(header.value).None?
    ensures Decide(k, byName, basics, tokens, group, header).Denied?
  {
  }

  // ----- what the mutators mean for access -----

  /** Some token entry of a group with that name stores the token's hash. */
  ghost predicate Admits(k: Checks, d: DataFile, group: string, token: string) {
    exists g :: g in d.groups && g.name == group && HeldIn(d.tokenCreds, g.id, k.hashToken(token))
  }

  lemma SameNameSameGroup(d: DataFile, g: Group, h: Group)
    requires GoodGroups(d.groups) && g in d.groups && h in d.groups && (g.name == h.name || g.id == h.id)
    ensures g == h
  {
    var i :| 0 <= i < |d.groups| && d.groups[i] == g;
    var j :| 0 <= j < |d.groups| && d.groups[j] == h;
    assert Map(d.groups, NameOfGroup)[i] == g.name && Map(d.groups, NameOfGroup)[j] == h.name;
    assert Map(d.groups, IdOfGroup)[i] == g.id && Map(d.groups, IdOfGroup)[j] == h.id;
  }

  /** In an integral snapshot a token is accepted for a group name if and only if
      some token entry belonging to the group of that name stores its hash. */
  lemma TokenAcceptedIntegral(k: Checks, d: DataFile, group: string, h: string, token: string)
    requires Integral(d) && BearerToken(h) == Some(token)
    ensures Decide(k, d, d, d, group, Some(h)).Accepted? <==> Admits(k, d, group, token)
  {
    TokenAccepted(k, d, d, d, group, h, token);
    if Admits(k, d, group, token) {
      var g :| g in d.groups && g.name == group && HeldIn(d.tokenCreds, g.id, k.hashToken(token));
      SameNameSameGroup(d, g, FindByName(d, group).value);
    }
  }

  /** `update_group` on one token entry. */
  lemma UpdateGroupToken(d: DataFile, id: string, name: string, selected: seq<string>, now: Time, i: nat)
    requires ApplyUpdateGroup(d, id, name, Some(selected), now).reply.Ok? && i < |d.tokenCreds|
    ensures var d' := ApplyUpdateGroup(d, id, name, Some(selected), now).data;
      && |d'.tokenCreds| == |d.tokenCreds| && d'.tokenCreds[i].cred == d.tokenCreds[i].cred
      && (id in d'.tokenCreds[i].meta.groupIds <==> d.tokenCreds[i].meta.id in selected)
      && Group(id, name) in d'.groups
  {
    var d' := ApplyUpdateGroup(d, id, name, Some(selected), now).data;
    assert d'.groups[FindGroup(d.groups, id).value] == Group(id, name);
    SetMembershipExact(d.tokenCreds[i].meta, id, d.tokenCreds[i].meta.id in selected, now);
  }

  lemma UpdateGroupHeld(k: Checks, d: DataFile, id: string, name: string, selected: seq<string>, now: Time,
                        hash: string)
    requires ApplyUpdateGroup(d, id, name, Some(selected), now).reply.Ok?
    ensures HeldIn(ApplyUpdateGroup(d, id, name, Some(selected), now).data.tokenCreds, id, hash) <==>
      exists i :: 0 <= i < |d.tokenCreds| && d.tokenCreds[i].meta.id in selected
        && d.tokenCreds[i].cred.tokenHash == hash
  {
    var d' := ApplyUpdateGroup(d, id, name, Some(selected), now).data;
    forall i | 0 <= i < |d.tokenCreds|
      ensures d'.tokenCreds[i].cred == d.tokenCreds[i].cred
      ensures id in d'.tokenCreds[i].meta.groupIds <==> d.tokenCreds[i].meta.id in selected
    {
      UpdateGroupToken(d, id, name, selected, now, i);
    }
  }

  /** After `update_group` with a selection, exactly the tokens of the selected
      entries are accepted under the group's new name. */
  lemma UpdateGroupGrants(k: Checks, d: DataFile, id: string, name: string, selected: seq<string>, now: Time,
                          h: string, token: string)
    requires Integral(d) && BearerToken(h) == Some(token)
    requires ApplyUpdateGroup(d, id, name, Some(selected), now).reply.Ok?
    ensures var d' := ApplyUpdateGroup(d, id, name, Some(selected), now).data;
      Decide(k, d', d', d', name, Some(h)).Accepted? <==>
      exists i :: 0 <= i < |d.tokenCreds| && d.tokenCreds[i].meta.id in selected
                  && d.tokenCreds[i].cred.tokenHash == k.hashToken(token)
  {
    var d' := ApplyUpdateGroup(d, id, name, Some(selected), now).data;
    UpdateGroupIntegral(d, id, name, Some(selected), now);
    assert d'.groups[FindGroup(d.groups, id).value] == Group(id, name);
    OnlyGroupNamed(k, d', Group(id, name), token);
    TokenAcceptedIntegral(k, d', name, h, token);
    UpdateGroupHeld(k, d, id, name, selected, now, k.hashToken(token));
  }

  lemma OnlyGroupNamed(k: Checks, d: DataFile, g: Group, token: string)
    requires Integral(d) && g in d.groups
    ensures Admits(k, d, g.name, token) <==> HeldIn(d.tokenCreds, g.id, k.hashToken(token))
  {
    if Admits(k, d, g.name, token) {
      var h :| h in d.groups && h.name == g.name && HeldIn(d.tokenCreds, h.id, k.hashToken(token));
      SameNameSameGroup(d, g, h);
    }
  }

  /** After `delete_group`, nothing is accepted under the group's name, whatever the header. */
  lemma DeleteGroupRevokes(k: Checks, d: DataFile, g: Group, now: Time, header: Option<string>)
    requires Integral(d) && g in d.groups
    ensures var d' := ApplyDeleteGroup(d, g.id, now).data;
      Decide(k, d', d', d', g.name, header) == Denied("group_not_found", None)
  {
    var d' := ApplyDeleteGroup(d, g.id, now).data;
    assert FindGroup(d.groups, g.id).Some?;
    forall h | h in d'.groups ensures h.name != g.name {
      assert h in d.groups && h.id != g.id;
      if h.name == g.name { SameNameSameGroup(d, g, h); }
    }
  }

  /** After `delete_entry`, a token is accepted exactly where another entry holds it. */
  lemma DeleteEntryRevokes(k: Checks, d: DataFile, id: string, group: string, h: string, token: string)
    requires BearerToken(h) == Some(token)
    ensures var d', g := ApplyDeleteEntry(d, id).data, FindByName(d, group);
      Decide(k, d', d', d', group, Some(h)).Accepted? <==>
      g.Some? && HeldByOther(d.tokenCreds, g.value.id, k.hashToken(token), id)
  {
    var d', g := ApplyDeleteEntry(d, id).data, FindByName(d, group);
    TokenAccepted(k, d', d', d', group, h, token);
    assert d'.groups == d.groups;
    if g.Some? { HeldAfterDelete(d.tokenCreds, g.value.id, k.hashToken(token), id); }
  }

  ghost predicate HeldByOther(es: seq<Entry<TokenCred>>, gid: string, hash: string, id: string) {
    exists i :: 0 <= i < |es| && es[i].meta.id != id && gid in es[i].meta.groupIds && es[i].cred.tokenHash == hash
  }

  lemma HeldAfterDelete(es: seq<Entry<TokenCred>>, gid: string, hash: string, id: string)
    ensures HeldIn(WithoutId(es, id), gid, hash) <==> HeldByOther(es, gid, hash, id)
  {
    var kept := WithoutId(es, id);
    if HeldIn(kept, gid, hash) {
      var i :| 0 <= i < |kept| && gid in kept[i].meta.groupIds && kept[i].cred.tokenHash == hash;
      assert kept[i] in es;
      var j :| 0 <= j < |es| && es[j] == kept[i];
    }
    if HeldByOther(es, gid, hash, id) {
      var i :| 0 <= i < |es| && es[i].meta.id != id && gid in es[i].meta.groupIds && es[i].cred.tokenHash == hash;
      assert es[i] in kept;
      var j :| 0 <= j < |kept| && kept[j] == es[i];
    }
  }

  /** The token `create_token_entry` hands out is accepted for every group the
      entry was created in. */
  lemma CreatedTokenAdmitted(k: Checks, d: DataFile, m: Mutation, g: Group, h: string)
    requires m.CreateToken? && ApplyCreateToken(d, m).reply.Ok?
    requires m.tokenHash == k.hashToken(m.token.value)
    requires GoodGroups(d.groups) && g in d.groups && g.id in m.groupIds
    requires BearerToken(h) == Some(ApplyCreateToken(d, m).reply.value.token)
    ensures var d' := ApplyCreateToken(d, m).data; Decide(k, d', d', d', g.name, Some(h)).Accepted?
  {
    var d' := ApplyCreateToken(d, m).data;
    assert d'.tokenCreds[|d.tokenCreds|].cred.tokenHash == m.tokenHash;
    assert HeldIn(d'.tokenCreds, g.id, m.tokenHash);
    TokenAccepted(k, d', d', d', g.name, h, m.token.value);
    assert d'.groups == d.groups;
    SameNameSameGroup(d', g, FindByName(d', g.name).value);
  }
}
