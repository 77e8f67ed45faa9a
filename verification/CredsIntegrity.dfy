/** Every mutator keeps the data file integral, provided the ids it draws are fresh. */
module CredsIntegrity {
  import opened Wrappers
  import opened Sequences
  import opened CredsModels
  import opened CredsMutations

  // ----- how a change to one entry, or to all, affects the metadata invariant -----

  lemma GoodMetasInsert(a: seq<Meta>, x: Meta, b: seq<Meta>, known: set<string>)
    requires GoodMetas(a + b, known)
    requires RefsResolve(x, known)
    requires forall m :: m in a + b ==> m.name != x.name
    ensures GoodMetas(a + [x] + b, known) <==> forall m :: m in a + b ==> m.id != x.id
  {
    var old_, new_ := a + b, a + [x] + b;
    assert forall i :: 0 <= i < |new_| ==>
        (i == |a| && new_[i] == x) ||
        (i != |a| && new_[i] == old_[if i < |a| then i else i - 1]);
    assert forall m :: m in new_ ==> m == x || m in old_;
    if forall m :: m in old_ ==> m.id != x.id {
      DistinctInsert(old_, x, new_, |a|, IdOfMeta);
    } else {
      var k :| 0 <= k < |old_| && old_[k].id == x.id;
      var k' := if k < |a| then k else k + 1;
      assert Map(new_, IdOfMeta)[k'] == Map(new_, IdOfMeta)[|a|];
    }
    DistinctInsert(old_, x, new_, |a|, NameOfMeta);
  }

  lemma DistinctInsert<T, K>(old_: seq<T>, x: T, new_: seq<T>, at: nat, key: T -> K)
    requires at <= |old_| && |new_| == |old_| + 1
    requires forall i :: 0 <= i < |new_| ==> new_[i] == if i == at then x else old_[if i < at then i else i - 1]
    requires Distinct(Map(old_, key))
    requires forall y :: y in old_ ==> key(y) != key(x)
    ensures Distinct(Map(new_, key))
  {
    var ks, os := Map(new_, key), Map(old_, key);
    forall i, j | 0 <= i < j < |new_| ensures ks[i] != ks[j] {
      var i', j' := if i < at then i else i - 1, if j < at then j else j - 1;
      if i != at && j != at { assert os[i'] != os[j']; }
    }
  }

  lemma GoodMetasReplace(ms: seq<Meta>, at: nat, x: Meta, known: set<string>)
    requires GoodMetas(ms, known) && at < |ms|
    requires x.id == ms[at].id && RefsResolve(x, known)
    requires forall m :: m in ms && m.id != x.id ==> m.name != x.name
    ensures GoodMetas(ms[at := x], known)
  {
    var new_ := ms[at := x];
    forall i, j | 0 <= i < j < |ms|
      ensures new_[i].id != new_[j].id && new_[i].name != new_[j].name
    {
      assert Map(ms, IdOfMeta)[i] != Map(ms, IdOfMeta)[j];
      assert Map(ms, NameOfMeta)[i] != Map(ms, NameOfMeta)[j];
      assert ms[i] in ms && ms[j] in ms;
    }
  }

  lemma GoodMetasMap(ms: seq<Meta>, f: Meta -> Meta, known: set<string>, known': set<string>)
    requires GoodMetas(ms, known)
    requires forall m :: m in ms ==> f(m).id == m.id && f(m).name == m.name && RefsResolve(f(m), known')
    ensures GoodMetas(Map(ms, f), known')
  {
    var new_ := Map(ms, f);
    assert forall i :: 0 <= i < |ms| ==> ms[i] in ms;
    assert Map(new_, IdOfMeta) == Map(ms, IdOfMeta);
    assert Map(new_, NameOfMeta) == Map(ms, NameOfMeta);
  }

  lemma MetasUpdateAll(d: DataFile, gs: seq<Group>, f: Meta -> Meta)
    ensures var d' := d.(groups := gs, basicCreds := UpdateAll(d.basicCreds, f),
              tokenCreds := UpdateAll(d.tokenCreds, f));
      Metas(d') == Map(Metas(d), f)
  {
  }

  lemma {:induction false} MetaOfFilter<C(!new)>(es: seq<Entry<C>>, id: string)
    ensures MetaOf(WithoutId(es, id)) == Filter(MetaOf(es), (m: Meta) => m.id != id)
  {
    if es != [] {
      var t := es[..|es| - 1];
      assert MetaOf(es)[..|es| - 1] == MetaOf(t);
      MetaOfFilter(t, id);
    }
  }

  // ----- one lemma per mutator -----

  lemma CreateBasicIntegral(d: DataFile, m: Mutation)
    requires Integral(d) && m.CreateBasic? && ApplyCreateBasic(d, m).reply.Ok?
    ensures Integral(ApplyCreateBasic(d, m).data) <==> m.freshId !in EntryIds(d)
  {
    var d' := ApplyCreateBasic(d, m).data;
    var x := Meta(m.freshId, m.name, m.groupIds, m.now, m.now);
    var a, b := MetaOf(d.basicCreds), MetaOf(d.tokenCreds);
    assert Metas(d') == a + [x] + b;
    GoodMetasInsert(a, x, b, GroupIds(d));
    assert m.freshId !in EntryIds(d) <==> forall y :: y in Metas(d) ==> y.id != x.id;
  }

  lemma CreateTokenIntegral(d: DataFile, m: Mutation)
    requires Integral(d) && m.CreateToken? && ApplyCreateToken(d, m).reply.Ok?
    ensures Integral(ApplyCreateToken(d, m).data) <==> m.freshId !in EntryIds(d)
  {
    var d' := ApplyCreateToken(d, m).data;
    var x := Meta(m.freshId, m.name, m.groupIds, m.now, m.now);
    var a := Metas(d);
    assert a + [] == a && a + [x] + [] == a + [x];
    assert Metas(d') == a + [x];
    GoodMetasInsert(a, x, [], GroupIds(d));
    assert m.freshId !in EntryIds(d) <==> forall y :: y in Metas(d) ==> y.id != x.id;
  }

  /** Where `update_entry` finds its entry, counted over both lists. */
  function EntryAt(d: DataFile, id: string): (r: Option<nat>)
    ensures r.Some? ==> r.value < |Metas(d)| && Metas(d)[r.value].id == id
  {
    var basicAt, tokenAt := FindEntry(d.basicCreds, id), FindEntry(d.tokenCreds, id);
    if basicAt.Some? then basicAt
    else if tokenAt.Some? then Some(|d.basicCreds| + tokenAt.value)
    else None
  }

  lemma UpdateEntryMetas(d: DataFile, m: Mutation)
    requires m.UpdateEntry? && ApplyUpdateEntry(d, m).reply.Ok?
    ensures var d', at := ApplyUpdateEntry(d, m).data, EntryAt(d, m.id);
      && d'.groups == d.groups && at.Some?
      && Metas(d') == Metas(d)[at.value := EditMeta(Metas(d)[at.value], m)]
  {
  }

  lemma UpdateEntryIntegral(d: DataFile, m: Mutation)
    requires Integral(d) && m.UpdateEntry? && ApplyUpdateEntry(d, m).reply.Ok?
    ensures Integral(ApplyUpdateEntry(d, m).data)
  {
    UpdateEntryMetas(d, m);
    var ms, at := Metas(d), EntryAt(d, m.id).value;
    var x := EditMeta(ms[at], m);
    assert RefsResolve(x, GroupIds(d)) by { assert ms[at] in ms; }
    forall y | y in ms && y.id != x.id ensures y.name != x.name {
      if m.newName.Some? {
        assert !EntryNameTaken(d, m.newName.value, Some(m.id));
      } else {
        var k :| 0 <= k < |ms| && ms[k] == y;
        assert Map(ms, NameOfMeta)[k] == y.name && Map(ms, NameOfMeta)[at] == ms[at].name;
      }
    }
    GoodMetasReplace(ms, at, x, GroupIds(d));
  }

  lemma DeleteEntryMetas(d: DataFile, id: string)
    ensures Metas(ApplyDeleteEntry(d, id).data) == Filter(Metas(d), (m: Meta) => m.id != id)
  {
    MetaOfFilter(d.basicCreds, id);
    MetaOfFilter(d.tokenCreds, id);
    FilterConcat(MetaOf(d.basicCreds), MetaOf(d.tokenCreds), (m: Meta) => m.id != id);
  }

  lemma DeleteEntryIntegral(d: DataFile, id: string)
    requires Integral(d)
    ensures Integral(ApplyDeleteEntry(d, id).data)
  {
    DeleteEntryMetas(d, id);
    FilterDistinct(Metas(d), (m: Meta) => m.id != id, IdOfMeta);
    FilterDistinct(Metas(d), (m: Meta) => m.id != id, NameOfMeta);
  }

  /** `delete_entry` succeeds exactly on an existing id, and removes that id only. */
  lemma DeleteEntryRemoves(d: DataFile, id: string)
    ensures ApplyDeleteEntry(d, id).reply.Ok? <==> id in EntryIds(d)
    ensures EntryIds(ApplyDeleteEntry(d, id).data) == EntryIds(d) - {id}
  {
    var kept := Metas(ApplyDeleteEntry(d, id).data);
    DeleteEntryMetas(d, id);
    assert |kept| == |WithoutId(d.basicCreds, id)| + |WithoutId(d.tokenCreds, id)|;
    FilterAll(Metas(d), (m: Meta) => m.id != id);
    forall x | x in EntryIds(d) - {id} ensures x in EntryIds(ApplyDeleteEntry(d, id).data) {
      var m :| m in Metas(d) && m.id == x;
      assert m in kept;
    }
  }

  lemma CreateGroupIntegral(d: DataFile, group: Group, entryIds: Option<seq<string>>, now: Time)
    requires Integral(d) && ApplyCreateGroup(d, group, entryIds, now).reply.Ok?
    ensures Integral(ApplyCreateGroup(d, group, entryIds, now).data) <==> group.id !in GroupIds(d)
  {
    var d' := ApplyCreateGroup(d, group, entryIds, now).data;
    var gs := d.groups + [group];
    var selected := OrElse(entryIds, []);
    var f := (m: Meta) => Join(m, selected, group.id, now);
    assert GroupIds(d') == GroupIds(d) + {group.id} by {
      assert group in gs;
      assert forall g :: g in gs <==> g in d.groups || g == group;
    }
    if selected == [] {
      assert Metas(d') == Metas(d);
    } else {
      MetasUpdateAll(d, gs, f);
      GoodMetasMap(Metas(d), f, GroupIds(d), GroupIds(d'));
    }
    if group.id in GroupIds(d) {
      var k :| 0 <= k < |d.groups| && d.groups[k].id == group.id;
      assert Map(gs, IdOfGroup)[k] == Map(gs, IdOfGroup)[|d.groups|];
    } else {
      assert forall g :: g in d.groups ==> g.id in GroupIds(d);
      DistinctInsert(d.groups, group, gs, |d.groups|, IdOfGroup);
      DistinctInsert(d.groups, group, gs, |d.groups|, NameOfGroup);
    }
  }

  lemma AssignKeeps(m: Meta, gid: string, selected: Option<seq<string>>, now: Time, known: set<string>)
    requires RefsResolve(m, known) && gid in known
    ensures var m' := Assign(m, gid, selected, now);
      m'.id == m.id && m'.name == m.name && RefsResolve(m', known)
  {
  }

  lemma UpdateGroupIntegral(d: DataFile, id: string, name: string, selected: Option<seq<string>>, now: Time)
    requires Integral(d) && ApplyUpdateGroup(d, id, name, selected, now).reply.Ok?
    ensures Integral(ApplyUpdateGroup(d, id, name, selected, now).data)
  {
    var d' := ApplyUpdateGroup(d, id, name, selected, now).data;
    var at := FindGroup(d.groups, id).value;
    var f := (m: Meta) => Assign(m, id, selected, now);
    MetasUpdateAll(d, d'.groups, f);
    SameGroupIds(d.groups, at, Group(id, name));
    assert GroupIds(d') == GroupIds(d);
    assert d.groups[at] in d.groups;
    forall m | m in Metas(d) ensures f(m).id == m.id && f(m).name == m.name && RefsResolve(f(m), GroupIds(d)) {
      AssignKeeps(m, id, selected, now, GroupIds(d));
    }
    GoodMetasMap(Metas(d), f, GroupIds(d), GroupIds(d'));
    forall i, j | 0 <= i < j < |d.groups|
      ensures d'.groups[i].id != d'.groups[j].id && d'.groups[i].name != d'.groups[j].name
    {
      assert Map(d.groups, IdOfGroup)[i] != Map(d.groups, IdOfGroup)[j];
      assert Map(d.groups, NameOfGroup)[i] != Map(d.groups, NameOfGroup)[j];
      assert d.groups[i] in d.groups && d.groups[j] in d.groups;
    }
  }

  lemma SameGroupIds(gs: seq<Group>, at: nat, g': Group)
    requires at < |gs| && gs[at].id == g'.id
    ensures (set g | g in gs :: g.id) == (set g | g in gs[at := g'] :: g.id)
  {
    var old_, new_ := set g | g in gs :: g.id, set g | g in gs[at := g'] :: g.id;
    forall x | x in old_ ensures x in new_ {
      var k :| 0 <= k < |gs| && gs[k].id == x;
      assert gs[at := g'][k].id == x && gs[at := g'][k] in gs[at := g'];
    }
    forall x | x in new_ ensures x in old_ {
      var k :| 0 <= k < |gs| && gs[at := g'][k].id == x;
      assert gs[k].id == x && gs[k] in gs;
    }
  }

  lemma DeleteGroupIntegral(d: DataFile, id: string, now: Time)
    requires Integral(d) && ApplyDeleteGroup(d, id, now).reply.Ok?
    ensures Integral(ApplyDeleteGroup(d, id, now).data)
    ensures GroupIds(ApplyDeleteGroup(d, id, now).data) == GroupIds(d) - {id}
  {
    var d' := ApplyDeleteGroup(d, id, now).data;
    var f := (m: Meta) => Leave(m, id, now);
    var p := (g: Group) => g.id != id;
    MetasUpdateAll(d, d'.groups, f);
    assert GroupIds(d') == GroupIds(d) - {id};
    forall m | m in Metas(d) ensures f(m).id == m.id && f(m).name == m.name && RefsResolve(f(m), GroupIds(d')) {
      FilterAll(m.groupIds, (x: string) => x != id);
    }
    GoodMetasMap(Metas(d), f, GroupIds(d), GroupIds(d'));
    FilterDistinct(d.groups, p, IdOfGroup);
    FilterDistinct(d.groups, p, NameOfGroup);
  }

  /** A successful mutation of an integral data file leaves it integral if and
      only if every id it drew was new. */
  lemma MutationKeepsIntegrity(m: Mutation, d: DataFile)
    requires Integral(d) && Apply(m, d).reply.Ok?
    ensures Integral(Apply(m, d).data) <==> FreshIds(m, d)
  {
    match m
    case CreateBasic(_, _, _, _, _, _, _) => CreateBasicIntegral(d, m);
    case CreateToken(_, _, _, _, _, _) => CreateTokenIntegral(d, m);
    case UpdateEntry(_, _, _, _, _, _, _) => UpdateEntryIntegral(d, m);
    case DeleteEntry(id) => DeleteEntryIntegral(d, id);
    case CreateGroup(group, entryIds, now) => CreateGroupIntegral(d, group, entryIds, now);
    case UpdateGroup(id, name, entryIds, now) => UpdateGroupIntegral(d, id, name, entryIds, now);
    case DeleteGroup(id, now) => DeleteGroupIntegral(d, id, now);
  }
}
