/** What an Authorization header says, what the forward-auth check answers to it, and
    what the entry mutators change about that
    (packages/creds/src/token.rs, packages/creds/src/basic.rs,
    apps/server/src/routes/forward_auth.rs, packages/creds-manage/src/store.rs). */
module ForwardAccess {
  import opened Wrappers
  import opened Characters
  import opened Text
  import opened CredsModels
  import opened CredsMutations
  import opened CredsEntries
  import opened ForwardAuth

  // ----- reading the header -----

  /** The text of a bearer header: the word in any case, a blank, then `t` inside whitespace. */
  ghost predicate BearerHeaderOf(h: string, t: string) {
    && |h| >= 7 && h[0] in {'B', 'b'} && h[1] in {'E', 'e'} && h[2] in {'A', 'a'} && h[3] in {'R', 'r'}
    && h[4] in {'E', 'e'} && h[5] in {'R', 'r'} && h[6] == ' ' && Stripped(t, h[7..], RustSpace)
  }

  /** A header carries a bearer token exactly when it is written so. */
  lemma BearerHeaderRead(h: string, t: string)
    ensures BearerToken(h) == Some(t) <==> BearerHeaderOf(h, t)
  {
    if |h| >= 7 {
      TrimIff(h[7..], t, RustSpace);
      assert forall i :: 0 <= i < 7 ==> h[..7][i] == h[i];
      if IsBearerHeader(h) {
        assert forall i :: 0 <= i < 7 ==> Lower(h[..7][i]) == Lower("Bearer "[i]);
        assert Lower(h[0]) == 'b' && Lower(h[1]) == 'e' && Lower(h[2]) == 'a' && Lower(h[3]) == 'r';
        assert Lower(h[4]) == 'e' && Lower(h[5]) == 'r' && Lower(h[6]) == ' ';
      }
    }
  }

  /** The text of a basic header: the word in any case, a blank, then `t` inside whitespace. */
  ghost predicate BasicHeaderOf(h: string, t: string) {
    && |h| >= 6 && h[0] in {'B', 'b'} && h[1] in {'A', 'a'} && h[2] in {'S', 's'} && h[3] in {'I', 'i'}
    && h[4] in {'C', 'c'} && h[5] == ' ' && Stripped(t, h[6..], RustSpace)
  }

  lemma BasicHeaderRead(h: string)
    ensures IsBasicHeader(h) ==> BasicHeaderOf(h, Trim(h[6..], RustSpace))
    ensures forall t :: BasicHeaderOf(h, t) ==> IsBasicHeader(h) && t == Trim(h[6..], RustSpace)
  {
    if |h| >= 6 {
      assert forall i :: 0 <= i < 6 ==> h[..6][i] == h[i];
      forall t ensures Trim(h[6..], RustSpace) == t <==> Stripped(t, h[6..], RustSpace) {
        TrimIff(h[6..], t, RustSpace);
      }
      if IsBasicHeader(h) {
        assert forall i :: 0 <= i < 6 ==> Lower(h[..6][i]) == Lower("Basic "[i]);
        assert Lower(h[0]) == 'b' && Lower(h[1]) == 'a' && Lower(h[2]) == 's' && Lower(h[3]) == 'i';
        assert Lower(h[4]) == 'c' && Lower(h[5]) == ' ';
      }
    }
  }

  /** A header carries a username and a password exactly when what follows its scheme
      decodes to them, joined by the first colon. */
  lemma BasicPairRead(k: Checks, h: string, user: string, password: string)
    ensures BasicPair(k, h) == Some((user, password)) <==>
      ':' !in user && exists t :: BasicHeaderOf(h, t) && k.decode(t) == Some(user + ":" + password)
  {
    BasicHeaderRead(h);
    if IsBasicHeader(h) {
      var t := Trim(h[6..], RustSpace);
      assert BasicHeaderOf(h, t);
      if k.decode(t).Some? { ColonSplit(k.decode(t).value, user, password); }
    }
  }

  lemma ColonSplit(s: string, a: string, b: string)
    ensures SplitAtColon(s) == Some((a, b)) <==> ':' !in a && s == a + ":" + b
  {
    if ':' !in a && s == a + ":" + b {
      assert s[|a|] == ':';
      var (x, y) := SplitAtColon(s).value;
      FirstMark(x, ':', y, a, ':', b, IsColon) by {
        assert x + ":" + y == x + ([':'] + y) && a + ":" + b == a + ([':'] + b);
      }
    }
  }

  predicate IsColon(c: char) { c == ':' }

  // ----- what is answered -----

  /** Some entry belongs to the group. */
  ghost predicate HasMember<C(!new)>(es: seq<Entry<C>>, gid: string) {
    exists e :: e in es && gid in e.meta.groupIds
  }

  lemma MembersEmpty<C(!new)>(es: seq<Entry<C>>, gid: string)
    ensures Members(es, gid) == [] <==> !HasMember(es, gid)
  {
    var ms := Members(es, gid);
    if ms != [] { assert ms[0] in es; }
  }

  /** Entry `i` is the one that counts for its username in the group. */
  ghost predicate Counts(es: seq<Entry<BasicCred>>, gid: string, i: nat) {
    && i < |es| && gid in es[i].meta.groupIds
    && forall j :: i < j < |es| && gid in es[j].meta.groupIds ==> es[j].cred.username != es[i].cred.username
  }

  lemma {:induction false} CountsIsLast(es: seq<Entry<BasicCred>>, gid: string, i: nat)
    requires Counts(es, gid, i)
    ensures LastUser(Members(es, gid), es[i].cred.username) == Some(es[i])
  {
    var rest, last := es[..|es| - 1], es[|es| - 1];
    if gid in last.meta.groupIds {
      assert Members(es, gid)[..|Members(es, gid)| - 1] == Members(rest, gid);
    }
    if i < |es| - 1 {
      assert Counts(rest, gid, i);
      CountsIsLast(rest, gid, i);
    }
  }

  /** A basic pair is let in, under the name of its entry, exactly when the password
      verifies against the hash of the entry that counts for its username. */
  lemma BasicAnswer(k: Checks, d: DataFile, g: Group, i: nat, h: string, password: string)
    requires GoodGroups(d.groups) && g in d.groups && Counts(d.basicCreds, g.id, i)
    requires BasicPair(k, h) == Some((d.basicCreds[i].cred.username, password))
    ensures var e := d.basicCreds[i];
      Decide(k, d, d, d, g.name, Some(h)) ==
      match k.verify(password, e.cred.passwordHash)
      case Some(true) => Accepted(e.meta.name, "basic")
      case Some(false) => Denied("no_valid_credentials", None)
      case None => Denied("credential_validation_failed", Some("basic_credential_validation"))
  {
    OneScheme(k, h);
    SameNameSameGroup(d, g, FindByName(d, g.name).value);
    CountsIsLast(d.basicCreds, g.id, i);
    assert Members(d.basicCreds, g.id) != [];
  }

  /** Why the check refuses, in the order it asks. */
  lemma DenialReasons(k: Checks, d: DataFile, group: string, header: Option<string>)
    requires GoodGroups(d.groups)
    ensures var r := Decide(k, d, d, d, group, header);
      && (r == Denied("group_not_found", None) <==> forall g :: g in d.groups ==> g.name != group)
      && (forall g :: g in d.groups && g.name == group ==>
            && (r == Denied("group_has_no_entries", None) <==>
                  !HasMember(d.basicCreds, g.id) && !HasMember(d.tokenCreds, g.id))
            && (r == Denied("missing_authorization_header", None) <==>
                  header.None? && (HasMember(d.basicCreds, g.id) || HasMember(d.tokenCreds, g.id))))
      && (r.Accepted? ==> r.scheme == (if BearerToken(header.value).Some? then "bearer" else "basic"))
  {
    var found := FindByName(d, group);
    if found.Some? {
      MembersEmpty(d.basicCreds, found.value.id);
      MembersEmpty(d.tokenCreds, found.value.id);
      forall g | g in d.groups && g.name == group ensures g == found.value {
        SameNameSameGroup(d, g, found.value);
      }
    }
    if header.Some? { OneScheme(k, header.value); }
  }

  /** An entry of that name, in a group of that name, stores the hash. */
  ghost predicate HolderNamed(d: DataFile, group: string, hash: string, name: string) {
    exists g, e :: g in d.groups && e in d.tokenCreds && Holds(g, e, group, hash) && e.meta.name == name
  }

  /** A token is let in under the name of an entry of the group that stores its hash. */
  lemma BearerAnswer(k: Checks, d: DataFile, group: string, h: string, token: string)
    requires BearerToken(h) == Some(token)
    ensures var r := Decide(k, d, d, d, group, Some(h));
      r.Accepted? ==> r.scheme == "bearer" && HolderNamed(d, group, k.hashToken(token), r.name)
  {
    OneScheme(k, h);
    var g := FindByName(d, group);
    if g.Some? {
      var holder := LastHolder(Members(d.tokenCreds, g.value.id), k.hashToken(token));
      assert holder.Some? ==> holder.value in d.tokenCreds;
    }
  }

  /** A header that spells a token is let in exactly if some entry of the group of that
      name stores the token's hash. */
  lemma TokenHeaderAccepted(k: Checks, d: DataFile, group: string, h: string, token: string)
    requires Integral(d) && BearerHeaderOf(h, token)
    ensures Decide(k, d, d, d, group, Some(h)).Accepted? <==>
      exists g, e :: g in d.groups && e in d.tokenCreds && Holds(g, e, group, k.hashToken(token))
  {
    BearerHeaderRead(h, token);
    TokenAcceptedIntegral(k, d, group, h, token);
    AdmitsMeans(k, d, group, token);
  }

  lemma AdmitsMeans(k: Checks, d: DataFile, group: string, token: string)
    ensures Admits(k, d, group, token) <==>
      exists g, e :: g in d.groups && e in d.tokenCreds && Holds(g, e, group, k.hashToken(token))
  {
    if Admits(k, d, group, token) {
      var g :| g in d.groups && g.name == group && HeldIn(d.tokenCreds, g.id, k.hashToken(token));
      var i :| 0 <= i < |d.tokenCreds| && g.id in d.tokenCreds[i].meta.groupIds
        && d.tokenCreds[i].cred.tokenHash == k.hashToken(token);
      assert Holds(g, d.tokenCreds[i], group, k.hashToken(token));
    }
    if g, e :| g in d.groups && e in d.tokenCreds && Holds(g, e, group, k.hashToken(token)) {
      var i :| 0 <= i < |d.tokenCreds| && d.tokenCreds[i] == e;
      assert HeldIn(d.tokenCreds, g.id, k.hashToken(token));
    }
  }

  predicate Holds(g: Group, e: Entry<TokenCred>, group: string, hash: string) {
    g.name == group && g.id in e.meta.groupIds && e.cred.tokenHash == hash
  }

  // ----- what the entry mutators change -----

  /** The user `create_basic_entry` adds is let in, in each of its groups, exactly with
      a password that verifies against the hash made of the given one. */
  lemma CreatedUserAdmitted(k: Checks, d: DataFile, m: Mutation, g: Group, h: string, password: string)
    requires m.CreateBasic? && Apply(m, d).reply.Ok?
    requires GoodGroups(d.groups) && g in d.groups && g.id in m.groupIds
    requires BasicPair(k, h) == Some((m.username, password))
    ensures var d' := Apply(m, d).data;
      Decide(k, d', d', d', g.name, Some(h)).Accepted? <==> k.verify(password, m.hashed.value) == Some(true)
    ensures var r := Decide(k, Apply(m, d).data, Apply(m, d).data, Apply(m, d).data, g.name, Some(h));
      r.Accepted? ==> r == Accepted(m.name, "basic")
  {
    var d' := Apply(m, d).data;
    CreateBasicExactly(d, m);
    assert Counts(d'.basicCreds, g.id, |d.basicCreds|);
    BasicAnswer(k, d', g, |d.basicCreds|, h, password);
  }

  /** After `update_entry` a basic pair for that user is let in exactly if it verifies
      against the new hash when a password was given, and against the old one otherwise. */
  lemma UpdatedUserAdmitted(k: Checks, d: DataFile, m: Mutation, g: Group, i: nat, h: string, password: string)
    requires m.UpdateEntry? && Apply(m, d).reply.Ok? && i < |d.basicCreds| && IsFirst(d.basicCreds, i, m.id)
    requires GoodGroups(d.groups) && g in d.groups && Counts(Apply(m, d).data.basicCreds, g.id, i)
    requires BasicPair(k, h) == Some((OrElse(m.newUsername, d.basicCreds[i].cred.username), password))
    ensures var d' := Apply(m, d).data;
      Decide(k, d', d', d', g.name, Some(h)).Accepted? <==>
      k.verify(password, if m.newPassword.Some? then m.rehashed.value else d.basicCreds[i].cred.passwordHash)
        == Some(true)
  {
    UpdateEntryExactly(d, m);
    BasicAnswer(k, Apply(m, d).data, g, i, h, password);
  }

  /** The token `create_token_entry` hands out opens every group the entry was created in,
      written after the word "Bearer" and a blank. */
  lemma CreatedTokenHeader(k: Checks, d: DataFile, m: Mutation, g: Group)
    requires m.CreateToken? && ApplyCreateToken(d, m).reply.Ok? && m.tokenHash == k.hashToken(m.token.value)
    requires GoodGroups(d.groups) && g in d.groups && g.id in m.groupIds
    requires var t := m.token.value; t != "" ==> !RustSpace(t[0]) && !RustSpace(t[|t| - 1])
    ensures var d', t := ApplyCreateToken(d, m).data, ApplyCreateToken(d, m).reply.value.token;
      Decide(k, d', d', d', g.name, Some("Bearer " + t)).Accepted?
  {
    var t := m.token.value;
    var h := "Bearer " + t;
    assert h[7..] == t;
    StrippedBy("", t, "", RustSpace);
    assert "" + (t + "") == t;
    BearerHeaderRead(h, t);
    CreatedTokenAdmitted(k, d, m, g, h);
  }
}
