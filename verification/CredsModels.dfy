/** The persisted data of the credential store (packages/creds-manage/src/models.rs)
    and the invariant its mutators are meant to keep. */
module CredsModels {
  import opened Wrappers
  import opened Sequences

  type Time = int

  datatype Meta = Meta(id: string, name: string, groupIds: seq<string>, createdAt: Time, updatedAt: Time)
  datatype BasicCred = BasicCred(username: string, passwordHash: string)
  datatype TokenCred = TokenCred(tokenHash: string)

  /** `BasicAuthEntry` and `TokenAuthEntry` differ only in their credential. */
  datatype Entry<C> = Entry(cred: C, meta: Meta)

  datatype Group = Group(id: string, name: string)

  datatype DataFile = DataFile(
    version: nat,
    groups: seq<Group>,
    basicCreds: seq<Entry<BasicCred>>,
    tokenCreds: seq<Entry<TokenCred>>)

  datatype Kind = Basic | Token

  /** `AuthEntry`: what callers are shown of an entry. */
  datatype View = View(meta: Meta, kind: Kind, username: Option<string>)

  function ViewBasic(e: Entry<BasicCred>): View { View(e.meta, Basic, Some(e.cred.username)) }
  function ViewToken(e: Entry<TokenCred>): View { View(e.meta, Token, None) }

  function MetaOf<C>(es: seq<Entry<C>>): (ms: seq<Meta>)
    ensures |ms| == |es| && forall i :: 0 <= i < |es| ==> ms[i] == es[i].meta
  {
    seq(|es|, i requires 0 <= i < |es| => es[i].meta)
  }

  /** The metadata of all entries, basic ones first. */
  function Metas(d: DataFile): seq<Meta> { MetaOf(d.basicCreds) + MetaOf(d.tokenCreds) }

  function GroupIds(d: DataFile): set<string> { set g | g in d.groups :: g.id }

  function EntryIds(d: DataFile): set<string> { set m | m in Metas(d) :: m.id }

  function IdOfGroup(g: Group): string { g.id }
  function NameOfGroup(g: Group): string { g.name }
  function IdOfMeta(m: Meta): string { m.id }
  function NameOfMeta(m: Meta): string { m.name }

  ghost predicate RefsResolve(m: Meta, known: set<string>) {
    forall g :: g in m.groupIds ==> g in known
  }

  ghost predicate GoodGroups(gs: seq<Group>) {
    Distinct(Map(gs, IdOfGroup)) && Distinct(Map(gs, NameOfGroup))
  }

  ghost predicate GoodMetas(ms: seq<Meta>, known: set<string>) {
    && Distinct(Map(ms, IdOfMeta))
    && Distinct(Map(ms, NameOfMeta))
    && forall m :: m in ms ==> RefsResolve(m, known)
  }

  /** Integrity of a data file: ids and names identify groups and entries
      (entries across both lists), and no entry names a group that does not exist. */
  ghost predicate Integral(d: DataFile) {
    GoodGroups(d.groups) && GoodMetas(Metas(d), GroupIds(d))
  }
}
