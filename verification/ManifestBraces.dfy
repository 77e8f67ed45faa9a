/** A manifest whose version value holds an unmatched brace: the first block swallows
    the next dependency, and once the value is replaced the next scan reports it. */
module ManifestBraces {
  import opened Wrappers
  import opened Text
  import opened Characters
  import opened ManifestBlocks
  import opened ManifestRequirements
  import opened ManifestSetting
  import opened ManifestRewrite
  import opened ManifestWriter

  /** Two dependencies: the first holds the brace and `m`, the second only `n`; `end`
      follows them. */
  datatype Case = Case(first: Header, second: Header, m: string, n: string, end: string) {
    ghost predicate Good(managed: set<string>) {
      && first.Good() && second.Good() && first.Name() in managed && second.Name() in managed
      && None_(m, IsBrace) && None_(n, IsBrace) && None_(end, IsBrace)
      && Includes(m, "path = ") && Includes(n, "path = ")
      && VersionAt(n + "}").None? && None_(n, Opener)
    }

    function Other(): string { BlockText(second, n + "}") }

    function Rest(): string { "\n" + (Other() + end) }

    function After(): string { m + ("}" + Rest()) }

    function Source(): string { BlockText(first, OldEntry(After())) }

    function Target(requirement: string): string { BlockText(first, Entry(requirement) + After()) }
  }

  /** `version = "{"` and what follows it. */
  function OldEntry(after: string): string {
    VERSION + (" " + ("=" + (" " + ("\"" + ("{" + ("\"" + after))))))
  }

  lemma {:induction false} IncludesWithin(a: string, s: string, c: string, word: string)
    requires Includes(s, word)
    ensures Includes(a + (s + c), word)
  {
    if a != "" {
      assert (a + (s + c))[1..] == a[1..] + (s + c);
      IncludesWithin(a[1..], s, c, word);
    } else {
      assert a + (s + c) == s + c;
      if !(word <= s) {
        assert (s + c)[1..] == "" + (s[1..] + c);
        IncludesWithin("", s[1..], c, word);
      }
    }
  }

  lemma FeedTo(b: Braces, plain: string, brace: char, rest: string)
    requires None_(plain, IsBrace)
    ensures Feed(b, plain + ([brace] + rest)) == Feed(FeedChar(b, brace), rest)
  {
    FeedConcat(b, plain, [brace] + rest);
    FeedPlain(b, plain);
    assert ([brace] + rest)[1..] == rest;
  }

  lemma FeedBlock(b: Braces, h: Header, y: string)
    requires h.Good()
    ensures Feed(b, BlockText(h, y)) == Feed(FeedChar(b, '{'), y)
  {
    HeaderPlain(h);
    assert forall c: char :: IsBrace(c) ==> Structural(c);
    FeedTo(b, h.Text(), '{', y);
  }

  lemma BlockCloses(h: Header, y: string)
    requires h.Good() && None_(y, IsBrace)
    ensures ClosesAtEnd(BlockText(h, y + "}"), START)
  {
    var t := BlockText(h, y + "}");
    FeedBlock(START, h, y + "}");
    FeedTo(Open(1, true), y, '}', "");
    assert ['}'] + "" == "}";
    assert t[..|t| - 1] == BlockText(h, y);
    FeedBlock(START, h, y);
    FeedPlain(Open(1, true), y);
  }

  lemma RestState(x: Case, managed: set<string>, d: int)
    requires x.Good(managed) && d > 1
    ensures Feed(Open(d, true), x.After()) == Open(d - 1, true)
  {
    FeedTo(Open(d, true), x.m, '}', x.Rest());
    var b := Open(d - 1, true);
    FeedConcat(b, "\n", x.Other() + x.end);
    FeedPlain(b, "\n");
    FeedConcat(b, x.Other(), x.end);
    FeedBlock(b, x.second, x.n + "}");
    FeedTo(Open(d, true), x.n, '}', "");
    assert ['}'] + "" == "}";
    FeedPlain(b, x.end);
  }

  lemma SourceState(x: Case, managed: set<string>)
    requires x.Good(managed)
    ensures Feed(START, x.Source()) == Open(1, true)
  {
    var plain := VERSION + (" " + ("=" + (" " + "\"")));
    FeedBlock(START, x.first, OldEntry(x.After()));
    assert OldEntry(x.After()) == plain + (['{'] + ("\"" + x.After()));
    FeedTo(Open(1, true), plain, '{', "\"" + x.After());
    FeedConcat(Open(2, true), "\"", x.After());
    FeedPlain(Open(2, true), "\"");
    RestState(x, managed, 2);
  }

  /** A block that starts the text is its first piece. */
  lemma FirstBlock(h: Header, y: string, r: string)
    requires h.Good()
    requires ClosesAtEnd(BlockText(h, y), START) || (Feed(START, BlockText(h, y)).Open? && r == "")
    ensures NextPiece("" + (BlockText(h, y) + r), true, DependencyName) == Some(Piece("", h.Name(), BlockText(h, y)))
  {
    var block := BlockText(h, y);
    assert block + r == h.Text() + ("{" + (y + r));
    HeaderRead(h, y + r);
    assert "" + (block + r) == block + r;
    BlockLengthIs(block, r, START);
    NextPieceIs("", block, r, true, DependencyName);
  }

  /** The unmatched brace makes the first block run to the end of the file. */
  lemma SourceScans(x: Case, managed: set<string>, find: Finder)
    requires x.Good(managed) && find == FinderOf(DependencyName)
    ensures Scan(x.Source(), true, find) == Layout([Piece("", x.first.Name(), x.Source())], "")
  {
    SourceState(x, managed);
    FirstBlock(x.first, OldEntry(x.After()), "");
    var s := x.Source();
    assert "" + (s + "") == s;
    assert find(s, true) == NextPiece(s, true, DependencyName);
    ScanOne(s, find, Piece("", x.first.Name(), s));
  }

  lemma ScanOne(s: string, find: Finder, p: Piece)
    requires s != "" && p.gap == "" && p.block == s && find(s, true) == Some(p)
    requires forall lineStart :: find("", lineStart).None?
    ensures Scan(s, true, find) == Layout([p], "")
  {
    assert s == "" + (s + "");
    ScanCons(s, true, find, p, "");
    ScanEmpty(JsLineEnd(LastChar(s)), find);
  }

  lemma SourceValue(x: Case, managed: set<string>)
    requires x.Good(managed)
    ensures FindEntry(x.Source(), true, VersionAt) == Some(Hit(x.first.Text() + "{", "{", x.After()))
  {
    var y := OldEntry(x.After());
    EqualsReads("{", x.After());
    VersionTrimmed("", y);
    assert "" + y == y && y[|VERSION|..] == " " + ("=" + (" " + ("\"" + ("{" + ("\"" + x.After())))));
    FindInBlock(x.first, y);
    assert VersionAt(y) == Some(("{", x.After()));
    assert y[0] == 'v' && !JsSpace('v');
    FoundAtOpener('{', "", y, false, VersionAt, ("{", x.After()));
    assert ['{'] + ("" + y) == "{" + y;
  }

  lemma OldEntrySplit(x: string, after: string)
    ensures x + ("{" + OldEntry(after)) == (x + ("{" + OldEntry(""))) + after
  {
    assert OldEntry(after) == OldEntry("") + after;
  }

  lemma SourceHasPath(x: Case, managed: set<string>)
    requires x.Good(managed)
    ensures Includes(x.Source(), "path = ")
  {
    OldEntrySplit(x.first.Text(), x.After());
    IncludesWithin(x.first.Text() + ("{" + OldEntry("")), x.m, "}" + x.Rest(), "path = ");
  }

  lemma SourceStale(x: Case, managed: set<string>, requirement: string)
    requires x.Good(managed) && Requirement(requirement)
    ensures Stale(Piece("", x.first.Name(), x.Source()), managed, requirement)
  {
    SourceHasPath(x, managed);
    SourceValue(x, managed);
    assert requirement != "{" by { assert !RequirementChar('{'); }
  }

  lemma SourceSet(x: Case, managed: set<string>, requirement: string)
    requires x.Good(managed)
    ensures '{' in x.Source()
    ensures SetRequirement(x.Source(), requirement, EolOf(x.Source())) == x.Target(requirement)
  {
    SourceValue(x, managed);
    OpeningIs(x.first, OldEntry(x.After()));
    OpeningSplit(x.first.Text(), Entry(requirement) + x.After(), "");
  }

  lemma SourceWritten(x: Case, managed: set<string>, requirement: string)
    requires x.Good(managed) && Requirement(requirement)
    ensures Written(x.Source(), managed, requirement) == x.Target(requirement)
  {
    var p := Piece("", x.first.Name(), x.Source());
    var update := UpdaterOf(managed, requirement, EolOf(x.Source()));
    SourceScans(x, managed, FinderOf(DependencyName));
    SourceStale(x, managed, requirement);
    SourceSet(x, managed, requirement);
    UpdatedOne(p, update, x.Target(requirement));
  }

  lemma UpdatedOne(p: Piece, update: Updater, t: string)
    requires update(p).gap == "" && update(p).block == t
    ensures TextOf(Updated(Layout([p], ""), update)) == t
  {
    var none := Layout([], "");
    UpdatedCons(p, none, update);
    assert [p] + none.pieces == [p];
    assert TextOf(Updated(none, update)) == "";
    assert "" + (t + "") == t;
  }

  lemma ScanTwo(p: Piece, q: Piece, end: string, find: Finder)
    requires p.block != "" && q.block != "" && !JsLineEnd(LastChar(p.block))
    requires find(p.gap + (p.block + (q.gap + (q.block + end))), true) == Some(p)
    requires find(q.gap + (q.block + end), false) == Some(q)
    ensures q in Scan(p.gap + (p.block + (q.gap + (q.block + end))), true, find).pieces
  {
    var v := q.gap + (q.block + end);
    ScanCons(p.gap + (p.block + v), true, find, p, v);
    ScanCons(v, false, find, q, end);
  }

  lemma TargetText(x: Case, requirement: string)
    ensures x.Target(requirement) == "" + (BlockText(x.first, (Entry(requirement) + x.m) + "}") + x.Rest())
  {
  }

  function FirstPiece(x: Case, requirement: string): Piece {
    Piece("", x.first.Name(), BlockText(x.first, (Entry(requirement) + x.m) + "}"))
  }

  function SecondPiece(x: Case): Piece { Piece("\n", x.second.Name(), x.Other()) }

  lemma FirstFound(x: Case, managed: set<string>, requirement: string, find: Finder)
    requires x.Good(managed) && Requirement(requirement) && Implements(find, DependencyName)
    ensures var p := FirstPiece(x, requirement);
            && p.block != "" && LastChar(p.block) == '}'
            && find(p.gap + (p.block + x.Rest()), true) == Some(p)
  {
    var y := Entry(requirement) + x.m;
    EntryPlain(requirement);
    AllConcat(Entry(requirement), x.m, IsBrace);
    BlockCloses(x.first, y);
    ClosesWithBrace(BlockText(x.first, y + "}"));
    FirstBlock(x.first, y + "}", x.Rest());
  }

  lemma SecondFound(x: Case, managed: set<string>, find: Finder)
    requires x.Good(managed) && Implements(find, DependencyName)
    ensures x.Other() != "" && find(x.Rest(), false) == Some(SecondPiece(x))
  {
    BlockCloses(x.second, x.n);
    NextLineBlock(x.second, x.n + "}", x.end);
  }

  /** Once the value is replaced the first block closes, and the second comes to light. */
  lemma TargetScans(x: Case, managed: set<string>, requirement: string, find: Finder)
    requires x.Good(managed) && Requirement(requirement) && Implements(find, DependencyName)
    ensures SecondPiece(x) in Scan(x.Target(requirement), true, find).pieces
  {
    FirstFound(x, managed, requirement, find);
    SecondFound(x, managed, find);
    ScanTwo(FirstPiece(x, requirement), SecondPiece(x), x.end, find);
    TargetText(x, requirement);
  }

  /** A block on the next line is found there. */
  lemma NextLineBlock(h: Header, y: string, r: string)
    requires h.Good() && ClosesAtEnd(BlockText(h, y), START)
    ensures NextPiece("\n" + (BlockText(h, y) + r), false, DependencyName)
            == Some(Piece("\n", h.Name(), BlockText(h, y)))
  {
    var block := BlockText(h, y);
    var u := "\n" + (block + r);
    assert u[1..] == block + r == h.Text() + ("{" + (y + r));
    HeaderRead(h, y + r);
    assert FindStart(u, false, DependencyName) == Some(1);
    BlockLengthIs(block, r, START);
    NextPieceIs("\n", block, r, false, DependencyName);
  }

  lemma {:induction false} NothingFound(s: string, entry: EntryPattern)
    requires None_(s, Opener)
    ensures FindEntry(s, false, entry).None?
  {
    if s != "" { NothingFound(s[1..], entry); }
  }

  lemma OtherStale(x: Case, managed: set<string>, requirement: string)
    requires x.Good(managed)
    ensures Stale(SecondPiece(x), managed, requirement)
  {
    var a := x.second.Text() + "{";
    assert x.Other() == a + (x.n + "}");
    IncludesWithin(a, x.n, "}", "path = ");
    FindInBlock(x.second, x.n + "}");
    AllConcat(x.n, "}", Opener);
    NothingFound(x.n + "}", VersionAt);
    assert ("{" + (x.n + "}"))[1..] == x.n + "}";
  }

  /** The write leaves a mismatch behind. */
  lemma UnmatchedBraceLeavesMismatch(x: Case, managed: set<string>, requirement: string)
    requires x.Good(managed) && Requirement(requirement)
    ensures Mismatches(Written(x.Source(), managed, requirement), managed, requirement) != []
  {
    SourceWritten(x, managed, requirement);
    TargetScans(x, managed, requirement, FinderOf(DependencyName));
    OtherStale(x, managed, requirement);
    NoMismatches(x.Target(requirement), managed, requirement);
  }

  /** `securitydept-a={version = "{"path = }`, a line break and `securitydept-b={path = }`
      are such a file. */
  lemma SuchAFileExists()
    ensures Case(Header("", "a", "", ""), Header("", "b", "", ""), "path = ", "path = ", "").Good(
              {"securitydept-a", "securitydept-b"})
  {
    assert STEM + "a" == "securitydept-a" && STEM + "b" == "securitydept-b";
    VersionTrimmed("", "path = }");
    assert "" + "path = }" == "path = " + "}" == "path = }";
  }
}
