/** Manifests with a dependency block inside `[package]` before the version line: the
    requirement that is inserted there is then read as the package version. */
module WorkspaceOrder {
  import opened Wrappers
  import opened Text
  import opened Characters
  import opened JsonString
  import opened ManifestBlocks
  import opened ManifestRequirements
  import opened ManifestSetting
  import opened ManifestRewrite
  import Braces = ManifestBraces
  import Cargo = CargoVersion
  import opened VersionFollowing
  import opened VersionCapture
  import opened Workspace

  /** `[package]`, a block over several lines without a version, and `end`. */
  datatype Case = Case(h: Header, n: string, end: string) {
    ghost predicate Good(managed: set<string>) {
      && h.Good() && h.indent == "" && '\n' !in h.Text() && h.Name() in managed
      && None_(n, IsBrace) && None_(n, Opener) && Includes(n, "path = ") && VersionAt(n + "}").None?
    }

    function Body(): string { "\n" + (n + "}") }

    function Source(): string { PACKAGE + ("\n" + (BlockText(h, Body()) + end)) }
  }

  const PACKAGE := "[package]"

  lemma PackageFacts()
    ensures None_(PACKAGE, JsLineEnd) && '\n' !in PACKAGE && !Cargo.EndsInCr(PACKAGE)
    ensures Cargo.JsTrim(PACKAGE) == PACKAGE && Cargo.IsSection(PACKAGE)
  {
    TrimInside("", PACKAGE, "", JsSpace);
    assert "" + PACKAGE + "" == PACKAGE;
  }

  // ----- the block is found and updated -----

  lemma {:induction false} SkipLine(a: string, u: string, name: Pattern)
    requires None_(a, JsLineEnd) && FindStart(u, true, name) == Some(0)
    ensures FindStart(a + ("\n" + u), false, name) == Some(|a| + 1)
  {
    var t := a + ("\n" + u);
    if a == "" {
      assert t == "\n" + u && t[1..] == u;
    } else {
      assert t[1..] == a[1..] + ("\n" + u);
      SkipLine(a[1..], u, name);
    }
  }

  lemma BlockAfterLine(a: string, h: Header, y: string, r: string)
    requires a != "" && None_(a, JsLineEnd) && a[0] == '[' && h.Good() && ClosesAtEnd(BlockText(h, y), START)
    ensures NextPiece((a + "\n") + (BlockText(h, y) + r), true, DependencyName)
         == Some(Piece(a + "\n", h.Name(), BlockText(h, y)))
  {
    var block := BlockText(h, y);
    var u := (a + "\n") + (block + r);
    assert u == a + ("\n" + (block + r));
    assert block + r == h.Text() + ("{" + (y + r));
    HeaderRead(h, y + r);
    SkipLine(a, block + r, DependencyName);
    NoHeaderAtBracket(u);
    BlockLengthIs(block, r, START);
    NextPieceIs(a + "\n", block, r, true, DependencyName);
  }

  lemma NoHeaderAtBracket(u: string)
    requires u != "" && u[0] == '['
    ensures DependencyName(u).None?
    ensures FindStart(u, true, DependencyName) == FindStart(u, false, DependencyName)
  {
    assert STEM[0] == 's';
  }

  lemma BodyHasNoEntry(x: Case, managed: set<string>)
    requires x.Good(managed)
    ensures FindEntry(BlockText(x.h, x.Body()), true, VersionAt).None?
  {
    var u := x.n + "}";
    FindInBlock(x.h, x.Body());
    VersionSpacious();
    assert Blank("\n", u);
    AllConcat(x.n, "}", Opener);
    Braces.NothingFound(u, VersionAt);
    assert ("{" + x.Body())[1..] == x.Body() && x.Body()[1..] == u;
  }

  lemma BodyStale(x: Case, managed: set<string>, requirement: string)
    requires x.Good(managed)
    ensures Stale(Piece(PACKAGE + "\n", x.h.Name(), BlockText(x.h, x.Body())), managed, requirement)
    ensures Includes(BlockText(x.h, x.Body()), "\n")
  {
    BodyHasNoEntry(x, managed);
    var a := x.h.Text() + ("{" + "\n");
    assert BlockText(x.h, x.Body()) == a + (x.n + "}");
    Braces.IncludesWithin(a, x.n, "}", "path = ");
    assert Includes("\n", "\n");
    Braces.IncludesWithin(x.h.Text() + "{", "\n", x.n + "}", "\n");
    assert BlockText(x.h, x.Body()) == (x.h.Text() + "{") + ("\n" + (x.n + "}"));
  }

  // ----- the inserted line is read as the version -----

  lemma {:induction false} ReadPlainThenMore(r: string)
    requires All(r, RequirementChar)
    ensures ReadBody(r + "\",").None?
  {
    if r == "" {
      assert r + "\"," == "\",";
    } else {
      assert RequirementChar(r[0]) && (r + "\",")[1..] == r[1..] + "\",";
      ReadPlainThenMore(r[1..]);
    }
  }

  function InsertedLine(requirement: string): string { "    " + (Entry(requirement) + ",") }

  function QuotedThenComma(requirement: string): string { "\"" + (requirement + "\",") }

  lemma InsertedLineText(requirement: string)
    requires Requirement(requirement)
    ensures InsertedLine(requirement) == "    " + (Cargo.KEY + QuotedThenComma(requirement))
    ensures '\n' !in InsertedLine(requirement) && !Cargo.EndsInCr(InsertedLine(requirement))
  {
    EscapeRequirement(requirement);
    Cargo.EscapeOneLine(requirement);
  }

  lemma InsertedLineTrims(requirement: string)
    ensures var q := QuotedThenComma(requirement);
            Cargo.JsTrim("    " + (Cargo.KEY + q)) == Cargo.KEY + q && Cargo.JsTrim(q) == q
  {
    var q := QuotedThenComma(requirement);
    var s := Cargo.KEY + q;
    assert s[0] == 'v' && s[|s| - 1] == ',' && q[0] == '"' && q[|q| - 1] == ',';
    assert !JsSpace('v') && !JsSpace(',') && !JsSpace('"');
    TrimInside("    ", s, "", JsSpace);
    assert "    " + s + "" == "    " + s;
    TrimInside("", q, "", JsSpace);
    assert "" + q + "" == q;
  }

  lemma InsertedLineIsNoVersion(requirement: string)
    requires Requirement(requirement)
    ensures Cargo.IsVersion(Cargo.JsTrim(InsertedLine(requirement)))
    ensures Cargo.LineVersion(InsertedLine(requirement)) == Err(Cargo.InvalidVersion)
  {
    var q := QuotedThenComma(requirement);
    InsertedLineText(requirement);
    InsertedLineTrims(requirement);
    ReadPlainThenMore(requirement);
    assert (Cargo.KEY + q)[|Cargo.KEY|..] == q && q[1..] == requirement + "\",";
  }

  lemma HeaderLine(h: Header)
    requires h.Good() && h.indent == "" && '\n' !in h.Text()
    ensures var line := h.Text() + "{";
            && '\n' !in line && !Cargo.EndsInCr(line) && line[0] == 's'
            && Cargo.JsTrim(line) == line && !Cargo.IsSection(line) && !Cargo.IsVersion(line)
  {
    var line := h.Text() + "{";
    assert h.Text() == STEM + (h.rest + (h.gap + ("=" + h.lead)));
    assert line[0] == 's' && line[|line| - 1] == '{' && !JsSpace('s') && !JsSpace('{');
    TrimInside("", line, "", JsSpace);
    assert "" + line + "" == line;
    assert Cargo.KEY[0] == 'v';
  }

  ghost predicate PlainLine(l: string) { '\n' !in l && !Cargo.EndsInCr(l) }

  lemma ThreeLines(a: string, b: string, c: string, rest: string)
    requires PlainLine(a) && PlainLine(b) && PlainLine(c)
    ensures Cargo.Lines(a + ("\n" + (b + ("\n" + (c + ("\n" + rest)))))) == [a, b, c] + Cargo.Lines(rest)
  {
    var u := c + ("\n" + rest);
    TwoLines(a, b, u);
    Cargo.LinesCons(c, "\n", rest);
    assert [a, b] + ([c] + Cargo.Lines(rest)) == [a, b, c] + Cargo.Lines(rest);
  }

  lemma TwoLines(a: string, b: string, u: string)
    requires PlainLine(a) && PlainLine(b)
    ensures Cargo.Lines(a + ("\n" + (b + ("\n" + u)))) == [a, b] + Cargo.Lines(u)
  {
    Cargo.LinesCons(a, "\n", b + ("\n" + u));
    Cargo.LinesCons(b, "\n", u);
    assert [a] + ([b] + Cargo.Lines(u)) == [a, b] + Cargo.Lines(u);
  }

  lemma ThirdLineCounts(h: Header, requirement: string, rest: seq<string>)
    requires h.Good() && h.indent == "" && '\n' !in h.Text() && Requirement(requirement)
    ensures Cargo.VersionIndex([PACKAGE, h.Text() + "{", InsertedLine(requirement)] + rest, false) == Some(2)
  {
    PackageFacts();
    HeaderLine(h);
    InsertedLineIsNoVersion(requirement);
    var lines := [PACKAGE, h.Text() + "{", InsertedLine(requirement)] + rest;
    assert lines[1..][0] == h.Text() + "{" && lines[1..][1..][0] == InsertedLine(requirement);
    assert Cargo.VersionIndex(lines[1..][1..], true) == Some(0);
    assert Cargo.VersionIndex(lines[1..], true) == Some(1);
  }

  lemma VersionAtLine(text: string, lines: seq<string>, i: nat)
    requires Cargo.Lines(text) == lines && Cargo.VersionIndex(lines, false) == Some(i)
    ensures Cargo.PackageVersion(text) == Cargo.LineVersion(lines[i])
  {
  }

  /** Reading fails once the requirement stands there. */
  lemma TargetUnreadable(h: Header, requirement: string, rest: string)
    requires h.Good() && h.indent == "" && '\n' !in h.Text() && Requirement(requirement)
    ensures var line := InsertedLine(requirement);
            Cargo.PackageVersion(PACKAGE + ("\n" + ((h.Text() + "{") + ("\n" + (line + ("\n" + rest))))))
            == Err(Cargo.InvalidVersion)
  {
    var a, b, c := PACKAGE, h.Text() + "{", InsertedLine(requirement);
    assert PlainLine(a) && PlainLine(b) && PlainLine(c) by {
      PackageFacts();
      HeaderLine(h);
      InsertedLineText(requirement);
    }
    ThreeLines(a, b, c, rest);
    ThirdLineCounts(h, requirement, Cargo.Lines(rest));
    InsertedLineIsNoVersion(requirement);
    VersionAtLine(a + ("\n" + (b + ("\n" + (c + ("\n" + rest))))), [a, b, c] + Cargo.Lines(rest), 2);
  }

  lemma SourceScans(x: Case, managed: set<string>, find: Finder) returns (more: Layout)
    requires x.Good(managed) && Implements(find, DependencyName)
    ensures Scan(x.Source(), true, find)
         == Layout([Piece(PACKAGE + "\n", x.h.Name(), BlockText(x.h, x.Body()))] + more.pieces, more.tail)
  {
    var p := Piece(PACKAGE + "\n", x.h.Name(), BlockText(x.h, x.Body()));
    PackageFacts();
    assert None_("\n" + x.n, IsBrace);
    Braces.BlockCloses(x.h, "\n" + x.n);
    assert ("\n" + x.n) + "}" == x.Body();
    BlockAfterLine(PACKAGE, x.h, x.Body(), x.end);
    var u := p.gap + (p.block + x.end);
    assert x.Source() == u;
    assert find(u, true) == NextPiece(u, true, DependencyName);
    ScanCons(u, true, find, p, x.end);
    more := Scan(x.end, JsLineEnd(LastChar(p.block)), find);
  }

  lemma IndentIs(x: Case, managed: set<string>)
    requires x.Good(managed)
    ensures EntryIndent(BlockText(x.h, x.Body()), "\n") == "\n" + "    "
  {
    var t := BlockText(x.h, x.Body());
    BodyStale(x, managed, "");
    HeaderLine(x.h);
    assert t[0] == (x.h.Text() + "{")[0] == 's' && !JsSpace('s');
    assert TakeWhile(t, JsSpace) == "";
  }

  lemma SourceSet(x: Case, managed: set<string>, requirement: string)
    requires x.Good(managed)
    ensures '{' in BlockText(x.h, x.Body())
    ensures SetRequirement(BlockText(x.h, x.Body()), requirement, "\n")
         == (x.h.Text() + "{") + ("\n" + (InsertedLine(requirement) + x.Body()))
  {
    BodyHasNoEntry(x, managed);
    InsertIs(x.h, x.Body(), requirement, "\n");
    IndentIs(x, managed);
    InsertedBlockText(x.h.Text(), Entry(requirement), x.Body());
  }

  lemma InsertedBlockText(h: string, entry: string, y: string)
    ensures h + ("{" + (("\n" + "    ") + (entry + ("," + y)))) == (h + "{") + ("\n" + (("    " + (entry + ",")) + y))
  {
  }

  /** A file with such a block and no CRLF cannot be read after it was set, whatever it
      said before. */
  lemma BlockBeforeVersionBreaksReading(x: Case, managed: set<string>, version: string, semver: Cargo.Semver)
    requires x.Good(managed) && !Includes(x.Source(), "\r\n") && Requirement(version)
    ensures var next := Written(x.Source(), managed, RequirementFor(version));
            Cargo.ReadVersion(next, semver) == Err(Cargo.InvalidVersion)
  {
    var requirement := RequirementFor(version);
    RequirementGood(version);
    var p := Piece(PACKAGE + "\n", x.h.Name(), BlockText(x.h, x.Body()));
    var update := UpdaterOf(managed, requirement, "\n");
    var more := SourceScans(x, managed, FinderOf(DependencyName));
    BodyStale(x, managed, requirement);
    SourceSet(x, managed, requirement);
    UpdatedCons(p, more, update);
    var r := TextOf(Updated(more, update));
    var b := update(p).block;
    assert b == (x.h.Text() + "{") + ("\n" + (InsertedLine(requirement) + x.Body()));
    TargetText(x, b, InsertedLine(requirement), r);
    TargetUnreadable(x.h, requirement, (x.n + "}") + r);
  }

  lemma TargetText(x: Case, b: string, line: string, r: string)
    requires b == (x.h.Text() + "{") + ("\n" + (line + x.Body()))
    ensures (PACKAGE + "\n") + (b + r)
         == PACKAGE + ("\n" + ((x.h.Text() + "{") + ("\n" + (line + ("\n" + ((x.n + "}") + r))))))
  {
  }

  // ----- and yet it could be read before, and setting it succeeds -----

  /** What follows the block: the version line. */
  function EndWith(version: string): string { "\n" + Cargo.VersionLine("", version) }

  lemma BodyLine(x: Case, managed: set<string>)
    requires x.Good(managed) && !(Cargo.KEY <= TrimStart(x.n + "}", JsSpace))
    ensures var line := x.n + "}";
            && PlainLine(line) && !Cargo.IsSection(Cargo.JsTrim(line)) && !Cargo.IsVersion(Cargo.JsTrim(line))
  {
    var line := x.n + "}";
    assert !JsSpace('}') && !Opener('}');
    assert '\n' !in line by { assert Opener('\n'); }
    LastSolid(line, "");
    assert line + "" == line && TrimEnd("", JsSpace) == "";
    TrimmedPrefix(line);
  }

  lemma SourceLines(x: Case, managed: set<string>, version: string)
    requires x.Good(managed) && !(Cargo.KEY <= TrimStart(x.n + "}", JsSpace)) && x.end == EndWith(version)
    ensures Cargo.Lines(x.Source()) == [PACKAGE, x.h.Text() + "{", x.n + "}"] + [Cargo.VersionLine("", version)]
  {
    var a, b, c, d := PACKAGE, x.h.Text() + "{", x.n + "}", Cargo.VersionLine("", version);
    assert PlainLine(a) && PlainLine(b) && PlainLine(c) by {
      PackageFacts();
      HeaderLine(x.h);
      BodyLine(x, managed);
    }
    ThreeLines(a, b, c, d);
    Cargo.VersionLineShape("", version);
    Cargo.LinesOne(d);
    SourceText(x, d);
  }

  lemma SourceText(x: Case, d: string)
    requires x.end == "\n" + d
    ensures x.Source() == PACKAGE + ("\n" + ((x.h.Text() + "{") + ("\n" + ((x.n + "}") + ("\n" + d)))))
  {
  }

  lemma FourthLineCounts(x: Case, managed: set<string>, version: string)
    requires x.Good(managed) && !(Cargo.KEY <= TrimStart(x.n + "}", JsSpace))
    ensures var lines := [PACKAGE, x.h.Text() + "{", x.n + "}"] + [Cargo.VersionLine("", version)];
            Cargo.VersionIndex(lines, false) == Some(3)
  {
    PackageFacts();
    HeaderLine(x.h);
    BodyLine(x, managed);
    Cargo.LineReads("", version);
    var lines := [PACKAGE, x.h.Text() + "{", x.n + "}"] + [Cargo.VersionLine("", version)];
    var l1, l2, l3 := lines[1..], lines[2..], lines[3..];
    assert l3[0] == Cargo.VersionLine("", version) && l2[1..] == l3 && l1[1..] == l2;
    assert Cargo.VersionIndex(l3, true) == Some(0);
    assert l2[0] == x.n + "}" && Cargo.VersionIndex(l2, true) == Some(1);
    assert l1[0] == x.h.Text() + "{" && Cargo.VersionIndex(l1, true) == Some(2);
  }

  lemma SourceReads(x: Case, managed: set<string>, version: string, semver: Cargo.Semver)
    requires x.Good(managed) && !(Cargo.KEY <= TrimStart(x.n + "}", JsSpace)) && x.end == EndWith(version)
    requires semver(version) == Some(version)
    ensures Cargo.ReadVersion(x.Source(), semver) == Ok(version)
  {
    SourceLines(x, managed, version);
    FourthLineCounts(x, managed, version);
    Cargo.LineReads("", version);
    VersionAtLine(x.Source(), [PACKAGE, x.h.Text() + "{", x.n + "}"] + [Cargo.VersionLine("", version)], 3);
  }

  /** A workspace of one package whose manifest is such a file: it reads the version
      before, setting that same version succeeds, and the report then fails. */
  lemma SetSucceedsThenReportFails(x: Case, version: string, semver: Cargo.Semver, path: string)
    requires x.Good({x.h.Name()}) && !(Cargo.KEY <= TrimStart(x.n + "}", JsSpace)) && x.end == EndWith(version)
    requires !Includes(x.Source(), "\r\n") && Release(version, semver)
    ensures var files: Files := map[path := x.Source()];
            var packages := [Package(x.h.Name(), path, true)];
            var tool := CargoTool(PublishedNames(packages), version, semver);
            && ManifestMismatches(files, packages, version, tool) == Ok([])
            && SetAll(files, packages, tool).0 == None
            && CollectMismatches(SetAll(files, packages, tool).1, packages, version, tool)
               == Err(BadManifest(path, Cargo.InvalidVersion))
  {
    var p := Package(x.h.Name(), path, true);
    var packages := [p];
    assert p in packages;
    assert PublishedNames(packages) == {x.h.Name()};
    var next := ToolBreaks(x, {x.h.Name()}, version, semver);
    OneBroken(x.Source(), next, p, version, CargoTool({x.h.Name()}, version, semver));
  }

  lemma ToolBreaks(x: Case, managed: set<string>, version: string, semver: Cargo.Semver) returns (next: string)
    requires x.Good(managed) && !(Cargo.KEY <= TrimStart(x.n + "}", JsSpace)) && x.end == EndWith(version)
    requires !Includes(x.Source(), "\r\n") && Release(version, semver)
    ensures var tool := CargoTool(managed, version, semver);
            && tool.read(x.Source()) == Ok(version) && tool.rewrite(x.Source(), true) == Ok(next)
            && tool.read(next) == Err(Cargo.InvalidVersion)
  {
    SourceReads(x, managed, version, semver);
    BlockBeforeVersionBreaksReading(x, managed, version, semver);
    next := Written(x.Source(), managed, RequirementFor(version));
  }

  lemma OneBroken(text: string, next: string, p: Package, version: string, tool: Tool)
    requires p.publish && tool.read(text) == Ok(version) && tool.rewrite(text, true) == Ok(next)
    requires tool.read(next) == Err(Cargo.InvalidVersion)
    ensures var files: Files := map[p.manifest := text];
            && ManifestMismatches(files, [p], version, tool) == Ok([])
            && SetAll(files, [p], tool).0 == None
            && CollectMismatches(SetAll(files, [p], tool).1, [p], version, tool)
               == Err(BadManifest(p.manifest, Cargo.InvalidVersion))
  {
    assert [p][1..] == [];
  }

  lemma {:induction false} NoReturnNoCrlf(s: string)
    requires '\r' !in s
    ensures !Includes(s, "\r\n")
  {
    if s != "" {
      assert s[0] in s && forall c :: c in s[1..] ==> c in s;
      NoReturnNoCrlf(s[1..]);
    }
  }

  lemma SourceWithoutReturn(x: Case)
    requires '\r' !in x.h.Text() && '\r' !in x.n && '\r' !in x.end
    ensures !Includes(x.Source(), "\r\n")
  {
    assert '\r' !in x.Body();
    assert '\r' !in BlockText(x.h, x.Body());
    NoReturnNoCrlf(x.Source());
  }

  lemma EndIs()
    ensures Requirement("1.0.0") && EndWith("1.0.0") == "\nversion = \"1.0.0\""
  {
    EscapeRequirement("1.0.0");
  }

  /** A line that begins with neither whitespace nor the word is no version entry. */
  lemma OtherLine(line: string)
    requires line != "" && !JsSpace(line[0]) && line[0] != 'v'
    ensures VersionAt(line).None? && !(Cargo.KEY <= TrimStart(line, JsSpace))
  {
    VersionTrimmed("", line);
    TrimStartSkip("", line, JsSpace);
    assert "" + line == line;
  }

  lemma SmallBody(n: string)
    requires n == "path = "
    ensures None_(n, IsBrace) && None_(n, Opener) && Includes(n, "path = ") && '\r' !in n
    ensures VersionAt(n + "}").None? && !(Cargo.KEY <= TrimStart(n + "}", JsSpace))
  {
    assert (n + "}")[0] == 'p' && !JsSpace('p');
    OtherLine(n + "}");
  }

  lemma SmallHeader(h: Header)
    requires h == Header("", "a", "", "")
    ensures h.Good() && '\n' !in h.Text() && '\r' !in h.Text()
  {
    assert h.Text() == "securitydept-a=";
  }

  /** `[package]`, `securitydept-a={`, `path = }` and `version = "1.0.0"` are such a file. */
  lemma SuchAFileExists() returns (x: Case)
    ensures x.end == EndWith("1.0.0") && Requirement("1.0.0")
    ensures x.Good({x.h.Name()}) && !(Cargo.KEY <= TrimStart(x.n + "}", JsSpace))
    ensures !Includes(x.Source(), "\r\n")
  {
    x := Case(Header("", "a", "", ""), "path = ", EndWith("1.0.0"));
    SmallHeader(x.h);
    SmallBody(x.n);
    EndIs();
    SourceWithoutReturn(x);
  }
}
