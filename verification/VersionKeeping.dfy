/** When rewriting requirements leaves the package version that is read as it was. */
module VersionKeeping {
  import opened Wrappers
  import opened Text
  import opened Characters
  import opened JsonString
  import opened CargoVersion
  import opened VersionReading
  import opened VersionFollowing
  import opened VersionCapture
  import opened ManifestBlocks
  import opened ManifestRequirements
  import opened ManifestSetting
  import opened ManifestRewrite
  import opened ManifestWriter

  // ----- the place of the entry in its block -----

  /** The change splits the block, the entry follows an opener, and it is either replaced
      or inserted right behind the opening brace. */
  ghost predicate Placed(x: Change, block: string, requirement: string, eol: string) {
    && block == x.a + (x.m + x.c) && (exists i: nat :: Led(x.a, i))
    && (if x.m != "" then LastChar(x.m) == '"' && x.n == Entry(requirement)
        else x.a != "" && LastChar(x.a) == '{' && x.n == EntryIndent(block, eol) + (Entry(requirement) + ","))
  }

  lemma MiddleIs(a: string, m: string, c: string)
    ensures var t := a + (m + c); t[|a|..|t| - |c|] == m
  {
  }

  lemma ReplacementPlaced(block: string, h: Hit, z: string, mid: string, i: nat, requirement: string, eol: string)
    requires block == h.before + z && z == (VERSION + (mid + ("\"" + (h.value + "\"")))) + h.after && Led(h.before, i)
    ensures var x := Replacement(block, h, requirement);
            && Placed(x, block, requirement, eol) && x.m != ""
            && h.before + (Entry(requirement) + h.after) == x.a + (x.n + x.c)
  {
    var m := VERSION + (mid + ("\"" + (h.value + "\"")));
    MiddleIs(h.before, m, h.after);
    assert Replacement(block, h, requirement) == Change(h.before, m, Entry(requirement), h.after);
    assert LastChar(m) == '"';
  }

  lemma ReplacedPlace(h: Header, y: string, requirement: string, eol: string)
    requires h.Good() && '{' in BlockText(h, y) && FindEntry(BlockText(h, y), true, VersionAt).Some?
    ensures var x, block := ChangeOf(BlockText(h, y), requirement, eol), BlockText(h, y);
            && Placed(x, block, requirement, eol) && x.m != ""
            && SetRequirement(block, requirement, eol) == x.a + (x.n + x.c)
  {
    var t := BlockText(h, y);
    var z, mid := HitShape(t);
    var i := HitPlace(h, y);
    ReplacementPlaced(t, FindEntry(t, true, VersionAt).value, z, mid, i, requirement, eol);
  }

  lemma HitPlace(h: Header, y: string) returns (i: nat)
    requires h.Good() && FindEntry(BlockText(h, y), true, VersionAt).Some?
    ensures Led(FindEntry(BlockText(h, y), true, VersionAt).value.before, i)
  {
    FindInBlock(h, y);
    var j := HitLed("{" + y, VersionAt);
    var b := FindEntry("{" + y, false, VersionAt).value.before;
    i := |h.Text()| + j;
    assert (h.Text() + b)[i + 1..] == b[j + 1..];
  }

  lemma InsertionPlaced(block: string, requirement: string, eol: string)
    requires '{' in block
    ensures var x, opening := Insertion(block, requirement, eol), ThroughBrace(block);
            && Placed(x, block, requirement, eol) && x.m == ""
            && opening + (EntryIndent(block, eol) + (Entry(requirement) + ("," + block[|opening|..])))
              == x.a + (x.n + x.c)
  {
    var a := ThroughBrace(block);
    var c := block[|a|..];
    assert "" + c == c && block == a + c;
    assert a[|a| - 1 + 1..] == "";
    assert Led(a, |a| - 1);
    Regroup(EntryIndent(block, eol), Entry(requirement), c);
  }

  lemma Regroup(lead: string, e: string, c: string)
    ensures (lead + (e + ",")) + c == lead + (e + ("," + c))
  {
  }

  lemma InsertedPlace(h: Header, y: string, requirement: string, eol: string)
    requires h.Good() && '{' in BlockText(h, y) && FindEntry(BlockText(h, y), true, VersionAt).None?
    ensures var x, block := ChangeOf(BlockText(h, y), requirement, eol), BlockText(h, y);
            && Placed(x, block, requirement, eol) && x.m == ""
            && SetRequirement(block, requirement, eol) == x.a + (x.n + x.c)
  {
    InsertionPlaced(BlockText(h, y), requirement, eol);
  }

  lemma ChangePlaced(h: Header, y: string, requirement: string, eol: string)
    requires h.Good()
    ensures '{' in BlockText(h, y)
    ensures var x, block := ChangeOf(BlockText(h, y), requirement, eol), BlockText(h, y);
            && Placed(x, block, requirement, eol)
            && SetRequirement(block, requirement, eol) == x.a + (x.n + x.c)
  {
    OpeningIs(h, y);
    if FindEntry(BlockText(h, y), true, VersionAt).Some? {
      ReplacedPlace(h, y, requirement, eol);
    } else {
      InsertedPlace(h, y, requirement, eol);
    }
  }

  // ----- the line the entry is on -----

  /** Whitespace leaves the line blank if it breaks it, and grows it otherwise. */
  lemma {:induction false} ConsumeBlank(k: Cursor, w: string)
    requires All(w, JsSpace)
    ensures var p := Consume(k, w).part; All(p, JsSpace) || ('\n' !in w && p == k.part + w)
    decreases |w|
  {
    if w == "" {
      assert k.part + w == k.part;
    } else {
      ConsumeBlank(Take(k, w[0]), w[1..]);
      if w[0] == '\n' {
        var p := Consume(Take(k, w[0]), w[1..]).part;
        assert "" + w[1..] == w[1..];
      } else {
        assert k.part + [w[0]] + w[1..] == k.part + w;
        assert '\n' in w[1..] <==> '\n' in w;
      }
    }
  }

  /** A line on which something stands has an opener on it. */
  lemma LedLine(k: Cursor, a: string, i: nat)
    requires Led(a, i)
    ensures var p := Consume(k, a).part;
            All(p, JsSpace) || exists j: nat :: j < |p| && (p[j] == '{' || p[j] == ',')
  {
    var w := a[i + 1..];
    assert a == (a[..i] + [a[i]]) + w;
    ConsumeConcat(k, a[..i] + [a[i]], w);
    ConsumeConcat(k, a[..i], [a[i]]);
    var k1 := Consume(k, a[..i]);
    ConsumeOne(k1, a[i]);
    var k2 := Take(k1, a[i]);
    ConsumeBlank(k2, w);
    if a[i] == '\n' {
      assert k2.part == "" && "" + w == w;
    } else {
      assert (k2.part + w)[|k1.part|] == a[i];
    }
  }

  lemma {:induction false} ConsumeEnds(k: Cursor, s: string)
    requires s != "" && LastChar(s) != '\n'
    ensures Consume(k, s).part != "" && LastChar(Consume(k, s).part) == LastChar(s)
  {
    var init, c := s[..|s| - 1], LastChar(s);
    assert s == init + [c];
    ConsumeConcat(k, init, [c]);
    ConsumeOne(Consume(k, init), c);
  }

  // ----- outside `[package]` -----

  lemma BlankLine(r: Reader, line: string)
    requires All(line, JsSpace)
    ensures Pass(r, line) == r
  {
    TrimStartAll(line, JsSpace);
  }

  lemma {:induction false} OutsideBlank(k: Cursor, w: string)
    requires k.reader.Outside? && (Marked(k.part) || All(k.part, JsSpace)) && All(w, JsSpace)
    ensures Consume(k, w).reader.Outside?
    decreases |w|
  {
    if w != "" {
      var c := w[0];
      if c == '\n' {
        PassStripped(Outside, k.part);
        if Marked(k.part) { MarkedLine(k.part); } else { BlankLine(Outside, k.part); }
      } else {
        MarkedConcat(k.part, [c]);
      }
      OutsideBlank(Take(k, c), w[1..]);
    }
  }

  lemma EntryText(requirement: string)
    requires Requirement(requirement)
    ensures var e := Entry(requirement);
            && '\n' !in e && LastChar(e) == '"' && e[0] == 'v' && Marked(e) && Marked(e + ",") && '\n' !in e + ","
  {
    EscapeRequirement(requirement);
    var e := Entry(requirement);
    assert !RequirementChar('\n');
    assert Mark(e[|e| - 1]);
    MarkedConcat(e, ",");
  }

  /** Outside, neither entry is taken for anything. */
  lemma OutsideStep(a: Cursor, b: Cursor, x: Change, block: string, requirement: string, eol: string)
    requires Requirement(requirement) && Eol(eol) && Placed(x, block, requirement, eol)
    requires a.reader.Outside? && b.reader.Outside? && Consume(a, x.m).reader.Outside?
    requires x.m == "" ==> a.part != "" && LastChar(a.part) == '{' && b.part != "" && LastChar(b.part) == '{'
    ensures Similar(Consume(a, x.m), Consume(b, x.n))
  {
    var e := Entry(requirement);
    EntryText(requirement);
    if x.m != "" {
      ConsumeEnds(a, x.m);
      ConsumePlain(b, e);
      MarkedConcat(b.part, e);
      assert Mark(LastChar(Consume(a, x.m).part));
    } else {
      assert Mark(LastChar(a.part)) && Mark(LastChar(b.part));
      var lead := EntryIndent(block, eol);
      IndentBlank(block, eol);
      OutsideBlank(b, lead);
      ConsumeConcat(b, lead, e + ",");
      ConsumePlain(Consume(b, lead), e + ",");
      MarkedConcat(Consume(b, lead).part, e + ",");
    }
  }

  // ----- inside, on a line that began before -----

  /** An opener on the line, and the line begins like no version line. */
  lemma OpenerNotKey(p: string, j: nat)
    requires j < |p| && (p[j] == '{' || p[j] == ',')
    ensures TrimStart(p, JsSpace) != ""
    ensures NotKey(TrimStart(p, JsSpace)) || KEY <= TrimStart(p, JsSpace)
    ensures KEY <= TrimStart(p, JsSpace) ==>
      exists i: nat :: |KEY| <= i < |TrimStart(p, JsSpace)| && !JsSpace(TrimStart(p, JsSpace)[i])
  {
    var a := TrimStartCuts(p, JsSpace);
    var s := TrimStart(p, JsSpace);
    assert forall i :: 0 <= i < |a| ==> p[i] == a[i];
    assert !JsSpace('{') && !JsSpace(',');
    assert s[j - |a|] == p[j];
    KeyOrNot(s, j - |a|);
  }

  lemma KeyOrNot(s: string, i: nat)
    requires i < |s| && (s[i] == '{' || s[i] == ',')
    ensures NotKey(s) || KEY <= s
    ensures KEY <= s ==> |KEY| <= i
  {
    assert '{' !in KEY && ',' !in KEY;
    assert i < |KEY| ==> KEY[i] in KEY;
    if i >= |KEY| && !NotKey(s) {
      assert forall n: nat :: n < |KEY| ==> s[n] == KEY[n];
      assert s[..|KEY|] == KEY;
    }
  }

  lemma AlikeChange(p: string, q: string, m: string, n: string)
    requires var s, t := TrimStart(p, JsSpace), TrimStart(q, JsSpace);
             s != "" && t != "" && s[0] == t[0] && NotKey(s) && NotKey(t)
    requires p + m != "" && q + n != "" && Mark(LastChar(p + m)) && Mark(LastChar(q + n))
    ensures Alike(p + m, q + n)
  {
    TrimStartGrows(p, m);
    TrimStartGrows(q, n);
    NotKeyGrows(TrimStart(p, JsSpace), m);
    NotKeyGrows(TrimStart(q, JsSpace), n);
    assert SameEnd(p + m, q + n, 0);
  }

  /** Where the entry goes, if the reader is inside `[package]` and will take it, or the
      line it is on, for the version. */
  ghost predicate Hinders(k: Cursor, x: Change) {
    k.reader.Inside? && ('\n' in x.n || All(k.part, JsSpace) || KEY <= TrimStart(k.part, JsSpace))
  }

  lemma InsideStep(a: Cursor, b: Cursor, x: Change, block: string, requirement: string, eol: string, j: nat)
    requires Requirement(requirement) && Placed(x, block, requirement, eol)
    requires Similar(a, b) && a.reader.Inside? && !Hinders(a, x) && '\n' !in x.m
    requires j < |a.part| && (a.part[j] == '{' || a.part[j] == ',')
    requires x.m == "" ==> LastChar(a.part) == '{'
    ensures Similar(Consume(a, x.m), Consume(b, x.n))
  {
    OpenerNotKey(a.part, j);
    ConsumePlain(a, x.m);
    ConsumePlain(b, x.n);
    EntryText(requirement);
    ChangeMarks(a.part, b.part, x, block, requirement, eol);
    AlikeChange(a.part, b.part, x.m, x.n);
  }

  lemma ChangeMarks(p: string, q: string, x: Change, block: string, requirement: string, eol: string)
    requires Requirement(requirement) && Placed(x, block, requirement, eol)
    requires x.m == "" ==> p != "" && LastChar(p) == '{'
    ensures p + x.m != "" && Mark(LastChar(p + x.m)) && q + x.n != "" && Mark(LastChar(q + x.n))
  {
    EntryText(requirement);
    if x.m == "" { assert p + x.m == p; }
  }

  // ----- inside, where the entry will be taken for the version -----

  lemma {:induction false} InsideBlank(k: Cursor, w: string)
    requires k.reader.Inside? && All(k.part, JsSpace) && All(w, JsSpace)
    ensures Consume(k, w).reader.Inside? && All(Consume(k, w).part, JsSpace)
    decreases |w|
  {
    if w != "" {
      if w[0] == '\n' {
        PassStripped(Inside, k.part);
        BlankLine(Inside, k.part);
      }
      InsideBlank(Take(k, w[0]), w[1..]);
    }
  }

  /** A line that ends with an opening brace is no section, and no readable version. */
  lemma BraceLine(p: string, w: string, requirement: string)
    requires p != "" && LastChar(p) == '{' && All(w, JsSpace)
    ensures var r := Pass(Inside, p + w); r == Inside || (r == Found(p + w) && BadLine(p + w, requirement))
  {
    var line := p + w;
    assert !JsSpace('{');
    LastSolid(p, w);
    TrimEndAll(w);
    var t := JsTrim(line);
    if IsVersion(t) {
      var v := JsTrim(t[|KEY|..]);
      assert t == KEY + t[|KEY|..];
      assert LastChar(t) == '{';
      if |t| > |KEY| {
        assert t[|KEY|..][|t| - |KEY| - 1] == '{';
        EndsKept(t[|KEY|..]);
      }
      if Unquote(v).Some? { LiteralEndsInQuote(v); }
    }
  }

  lemma EndsKept(u: string)
    requires u != "" && !JsSpace(LastChar(u))
    ensures JsTrim(u) != "" && LastChar(JsTrim(u)) == LastChar(u)
  {
    LastSolid(u, "");
    assert u + "" == u;
  }

  lemma {:induction false} SplitAtBreak(w: string) returns (u: string, v: string)
    requires '\n' in w
    ensures w == u + ("\n" + v) && '\n' !in u
  {
    if w[0] == '\n' {
      u, v := "", w[1..];
      assert w == u + ("\n" + v);
    } else {
      u, v := SplitAtBreak(w[1..]);
      u := [w[0]] + u;
    }
  }

  /** Behind an opening brace and a line break the entry begins a line of its own. */
  lemma InsideBreak(k: Cursor, w: string, requirement: string)
    requires k.reader.Inside? && k.part != "" && LastChar(k.part) == '{' && All(w, JsSpace) && '\n' in w
    ensures var r := Consume(k, w);
            || (r.reader.Inside? && All(r.part, JsSpace))
            || (r.reader.Found? && BadLine(r.reader.line, requirement))
  {
    var u, v := SplitAtBreak(w);
    AllConcat(u, "\n" + v, JsSpace);
    AllConcat("\n", v, JsSpace);
    ConsumeConcat(k, u, "\n" + v);
    ConsumePlain(k, u);
    var k1 := Cursor(Inside, k.part + u);
    assert ("\n" + v)[1..] == v;
    var k2 := Take(k1, '\n');
    BraceLine(k.part, u, requirement);
    PassStripped(Inside, k1.part);
    if k2.reader.Inside? {
      InsideBlank(k2, v);
    } else {
      BadStripped(k1.part, requirement);
      FoundStays(k2, v);
    }
  }

  lemma BlankThenEntry(k: Cursor, e: string, requirement: string)
    requires k.reader.Inside? && All(k.part, JsSpace) && Requirement(requirement)
    requires e == Entry(requirement) || e == Entry(requirement) + ","
    ensures Captured(Consume(k, e), requirement)
  {
    EntryText(requirement);
    ConsumePlain(k, e);
    assert e[0] == 'v' && !JsSpace('v');
    TrimStartSkip(k.part, e, JsSpace);
  }

  /** The entry on a line that begins like a version line makes that line unreadable. */
  lemma KeyThenEntry(k: Cursor, x: Change, block: string, requirement: string, eol: string, j: nat)
    requires Requirement(requirement) && Placed(x, block, requirement, eol) && k.reader.Inside? && '\n' !in x.n
    requires j < |k.part| && (k.part[j] == '{' || k.part[j] == ',') && KEY <= TrimStart(k.part, JsSpace)
    ensures Captured(Consume(k, x.n), requirement)
  {
    var s := TrimStart(k.part, JsSpace);
    OpenerNotKey(k.part, j);
    var i: nat :| |KEY| <= i < |s| && !JsSpace(s[i]);
    ConsumePlain(k, x.n);
    TrimStartGrows(k.part, x.n);
    var d := EntryQuote(x.n, block, requirement, eol, x.m != "");
    assert QuoteWithin(s + x.n, i, |s| + d, |s| + d + 1);
  }

  lemma EntryQuote(n: string, block: string, requirement: string, eol: string, replaced: bool) returns (d: nat)
    requires Requirement(requirement)
    requires n == if replaced then Entry(requirement) else EntryIndent(block, eol) + (Entry(requirement) + ",")
    ensures 0 < d < |n| - 1 && n[d] == '"' && n[d - 1] != '\\' && !JsSpace(n[d + 1])
  {
    var e := Entry(requirement);
    EscapeRequirement(requirement);
    assert e == "version = \"" + (requirement + "\"");
    assert e[10] == '"' && e[9] == ' ' && e[11] == requirement[0] && RequirementChar(requirement[0]);
    var w := if replaced then "" else EntryIndent(block, eol);
    d := |w| + 10;
    assert n[|w|..][..|e|] == e;
    assert n[d] == e[10] && n[d - 1] == e[9] && n[d + 1] == e[11];
  }

  /** Such a place captures the reading. */
  lemma HinderStep(a: Cursor, b: Cursor, x: Change, block: string, requirement: string, eol: string)
    requires Requirement(requirement) && Eol(eol) && Placed(x, block, requirement, eol)
    requires Similar(a, b) && Hinders(a, x)
    requires All(a.part, JsSpace) || exists j: nat :: j < |a.part| && (a.part[j] == '{' || a.part[j] == ',')
    requires x.m == "" ==> a.part != "" && LastChar(a.part) == '{' && b.part != "" && LastChar(b.part) == '{'
    ensures Captured(Consume(b, x.n), requirement)
  {
    EntryText(requirement);
    if '\n' in x.n {
      var lead, e := EntryIndent(block, eol), Entry(requirement) + ",";
      IndentBlank(block, eol);
      assert '\n' in lead;
      ConsumeConcat(b, lead, e);
      InsideBreak(b, lead, requirement);
      var k := Consume(b, lead);
      if k.reader.Inside? { BlankThenEntry(k, e, requirement); } else { CapturedConsume(k, e, requirement); }
    } else if All(a.part, JsSpace) {
      TrimStartAll(a.part, JsSpace);
      assert a == b && !JsSpace('{');
      BlankThenEntry(b, x.n, requirement);
    } else {
      assert !NotKey(TrimStart(a.part, JsSpace));
      assert a == b;
      var j: nat :| j < |a.part| && (a.part[j] == '{' || a.part[j] == ',');
      KeyThenEntry(b, x, block, requirement, eol, j);
    }
  }

  // ----- one block -----

  /** The old entry stands on one line, unless the reader passes over it all the same:
      behind the version, outside `[package]` without entering it, or hindered anyway. */
  ghost predicate Tidy(k: Cursor, x: Change) {
    match k.reader
    case Found(_) => true
    case Outside => Consume(k, x.m).reader.Outside?
    case Inside => '\n' in x.m ==> Hinders(k, x)
  }

  lemma EntryStep(a: Cursor, b: Cursor, x: Change, block: string, requirement: string, eol: string)
    requires Requirement(requirement) && Eol(eol) && Placed(x, block, requirement, eol)
    requires Similar(a, b) && Tidy(a, x)
    requires All(a.part, JsSpace) || exists j: nat :: j < |a.part| && (a.part[j] == '{' || a.part[j] == ',')
    requires x.m == "" ==> a.part != "" && LastChar(a.part) == '{' && b.part != "" && LastChar(b.part) == '{'
    ensures if Hinders(a, x) then Captured(Consume(b, x.n), requirement) else Similar(Consume(a, x.m), Consume(b, x.n))
  {
    if a.reader.Found? {
      FoundStays(a, x.m);
      FoundStays(b, x.n);
    } else if a.reader.Outside? {
      OutsideStep(a, b, x, block, requirement, eol);
    } else if Hinders(a, x) {
      HinderStep(a, b, x, block, requirement, eol);
    } else {
      var j: nat :| j < |a.part| && (a.part[j] == '{' || a.part[j] == ',');
      InsideStep(a, b, x, block, requirement, eol, j);
    }
  }

  lemma BlockStep(k1: Cursor, k2: Cursor, x: Change, block: string, next: string, requirement: string, eol: string)
    requires Requirement(requirement) && Eol(eol) && Placed(x, block, requirement, eol) && next == x.a + (x.n + x.c)
    requires Similar(k1, k2) && Tidy(Consume(k1, x.a), x)
    ensures if Hinders(Consume(k1, x.a), x) then Captured(Consume(k2, next), requirement)
            else Similar(Consume(k1, block), Consume(k2, next))
  {
    var a, b := Consume(k1, x.a), Consume(k2, x.a);
    var i: nat :| Led(x.a, i);
    SimilarConsume(k1, k2, x.a);
    LedLine(k1, x.a, i);
    if x.m == "" {
      ConsumeEnds(k1, x.a);
      ConsumeEnds(k2, x.a);
    }
    EntryStep(a, b, x, block, requirement, eol);
    ConsumeThree(k1, x.a, x.m, x.c);
    ConsumeThree(k2, x.a, x.n, x.c);
    if Hinders(a, x) {
      CapturedConsume(Consume(b, x.n), x.c, requirement);
    } else {
      SimilarConsume(Consume(a, x.m), Consume(b, x.n), x.c);
    }
  }

  lemma ConsumeThree(k: Cursor, a: string, m: string, c: string)
    ensures Consume(k, a + (m + c)) == Consume(Consume(Consume(k, a), m), c)
  {
    ConsumeConcat(k, a, m + c);
    ConsumeConcat(Consume(k, a), m, c);
  }

  // ----- the whole file -----

  /** A rewriting of a manifest. It is compared with the file as it is or, if `blank`,
      with the file in which every stale entry is cut down to its closing quote, so that
      nothing inside it is read. */
  datatype Job = Job(managed: set<string>, requirement: string, eol: string, blank: bool) {
    predicate Changes(p: Piece) { Stale(p, managed, requirement) && '{' in p.block }

    function Change(p: Piece): Change
      requires '{' in p.block
    {
      var x := ChangeOf(p.block, requirement, eol);
      if blank && x.m != "" then x.(m := "\"") else x
    }

    /** The block that is compared with the updated one. */
    function Shown(p: Piece): Piece {
      if Changes(p) then var x := Change(p); p.(block := x.a + (x.m + x.c)) else p
    }

    function Shower(): Updater { p => Shown(p) }

    function Updater(): Updater { UpdaterOf(managed, requirement, eol) }

    ghost predicate Good() { Requirement(requirement) && Eol(eol) }
  }

  /** The reading on arriving where the block's entry goes. */
  function Arriving(k: Cursor, p: Piece, j: Job): Cursor
    requires '{' in p.block
  {
    Consume(Consume(k, p.gap), j.Change(p).a)
  }

  function Behind(k: Cursor, p: Piece, j: Job): Cursor { Consume(Consume(k, p.gap), j.Shown(p).block) }

  /** No stale block puts its entry where the reader takes it, or the line it is on, for
      the package's version. */
  ghost predicate Clear(pieces: seq<Piece>, k: Cursor, j: Job) {
    pieces != [] ==>
      var p := pieces[0];
      && (j.Changes(p) ==> !Hinders(Arriving(k, p, j), j.Change(p)))
      && Clear(pieces[1..], Behind(k, p, j), j)
  }

  ghost predicate AllTidy(pieces: seq<Piece>, k: Cursor, j: Job) {
    pieces != [] ==>
      var p := pieces[0];
      && (j.Changes(p) ==> Tidy(Arriving(k, p, j), j.Change(p)))
      && AllTidy(pieces[1..], Behind(k, p, j), j)
  }

  ghost predicate Headed(p: Piece) { exists h: Header, y: string :: h.Good() && p.block == BlockText(h, y) }

  /** A blanked entry stands on one line. */
  lemma BlankIsTidy(k: Cursor, x: Change)
    requires '\n' !in x.m
    ensures Tidy(k, x)
  {
    ConsumePlain(k, x.m);
  }

  lemma {:induction false} BlanksAreTidy(pieces: seq<Piece>, k: Cursor, j: Job)
    requires j.blank
    ensures AllTidy(pieces, k, j)
    decreases |pieces|
  {
    if pieces != [] {
      var p := pieces[0];
      if j.Changes(p) { BlankIsTidy(Arriving(k, p, j), j.Change(p)); }
      BlanksAreTidy(pieces[1..], Behind(k, p, j), j);
    }
  }

  lemma ShownPlaced(p: Piece, j: Job)
    requires Headed(p) && j.Changes(p)
    ensures Placed(j.Change(p), j.Shown(p).block, j.requirement, j.eol)
    ensures var x := j.Change(p); SetRequirement(p.block, j.requirement, j.eol) == x.a + (x.n + x.c)
    ensures !j.blank ==> j.Shown(p) == p
  {
    var h: Header, y: string :| h.Good() && p.block == BlockText(h, y);
    ChangePlaced(h, y, j.requirement, j.eol);
  }

  lemma PieceStep(k1: Cursor, k2: Cursor, p: Piece, j: Job)
    requires j.Good() && Similar(k1, k2) && Headed(p) && (j.Changes(p) ==> Tidy(Arriving(k1, p, j), j.Change(p)))
    ensures var q := j.Updater()(p);
            if j.Changes(p) && Hinders(Arriving(k1, p, j), j.Change(p))
            then Captured(Consume(Consume(k2, q.gap), q.block), j.requirement)
            else Similar(Behind(k1, p, j), Consume(Consume(k2, q.gap), q.block))
  {
    SimilarConsume(k1, k2, p.gap);
    var g1, g2 := Consume(k1, p.gap), Consume(k2, p.gap);
    if j.Changes(p) {
      var next := SetRequirement(p.block, j.requirement, j.eol);
      ShownPlaced(p, j);
      BlockStep(g1, g2, j.Change(p), j.Shown(p).block, next, j.requirement, j.eol);
    } else {
      SimilarConsume(g1, g2, p.block);
    }
  }

  /** The readings of the two files stay together, or the latter is captured. */
  lemma {:induction false} Follow(l: Layout, k1: Cursor, k2: Cursor, j: Job)
    requires j.Good() && Similar(k1, k2) && AllTidy(l.pieces, k1, j) && forall p :: p in l.pieces ==> Headed(p)
    ensures var t := TextOf(Updated(l, j.Updater()));
            if Clear(l.pieces, k1, j) then Similar(Consume(k1, TextOf(Updated(l, j.Shower()))), Consume(k2, t))
            else Captured(Consume(k2, t), j.requirement)
    decreases |l.pieces|
  {
    if l.pieces == [] {
      assert Updated(l, j.Updater()) == l == Updated(l, j.Shower());
      SimilarConsume(k1, k2, TextOf(l));
    } else {
      var p, more := l.pieces[0], Layout(l.pieces[1..], l.tail);
      var q, shown := j.Updater()(p), j.Shown(p);
      assert l == Layout([p] + more.pieces, more.tail);
      UpdatedCons(p, more, j.Shower());
      UpdatedCons(p, more, j.Updater());
      ConsumeThree(k1, shown.gap, shown.block, TextOf(Updated(more, j.Shower())));
      var rest := TextOf(Updated(more, j.Updater()));
      ConsumeThree(k2, q.gap, q.block, rest);
      assert p in l.pieces;
      PieceStep(k1, k2, p, j);
      var k := Consume(Consume(k2, q.gap), q.block);
      if j.Changes(p) && Hinders(Arriving(k1, p, j), j.Change(p)) {
        CapturedConsume(k, rest, j.requirement);
      } else {
        Follow(more, Behind(k1, p, j), k, j);
      }
    }
  }

  /** The two files read alike, or the version read in the latter is the requirement or none. */
  lemma ReadingsFollow(text: string, j: Job)
    requires j.Good() && j.eol == EolOf(text) && AllTidy(ScanManifest(text).pieces, BEGIN, j)
    ensures var next := Written(text, j.managed, j.requirement);
            if Clear(ScanManifest(text).pieces, BEGIN, j)
            then PackageVersion(next) == PackageVersion(TextOf(Updated(ScanManifest(text), j.Shower())))
            else PackageVersion(next) == Ok(j.requirement) || PackageVersion(next).Err?
  {
    var l := ScanManifest(text);
    var next, shown := Written(text, j.managed, j.requirement), TextOf(Updated(l, j.Shower()));
    forall p | p in l.pieces ensures Headed(p) { var h, y := ScannedPiece(text, true, p); }
    Follow(l, BEGIN, BEGIN, j);
    if Clear(l.pieces, BEGIN, j) {
      SimilarFinish(Consume(BEGIN, shown), Consume(BEGIN, next));
      SameReading(shown, next);
    } else {
      CapturedVersion(next, j.requirement);
    }
  }

  function Blanking(text: string, managed: set<string>, requirement: string): Job {
    Job(managed, requirement, EolOf(text), true)
  }

  /** The manifest with its stale entries blanked out. */
  function Blanked(text: string, managed: set<string>, requirement: string): string {
    TextOf(Updated(ScanManifest(text), Blanking(text, managed, requirement).Shower()))
  }

  /** No stale block puts its entry in the way of the reader of the blanked manifest. */
  ghost predicate VersionClear(text: string, managed: set<string>, requirement: string) {
    Clear(ScanManifest(text).pieces, BEGIN, Blanking(text, managed, requirement))
  }

  /** After a rewrite the version read is the one of the manifest with its stale entries
      blanked out, if none of them stands in the reader's way; if one does, it is the
      requirement or none. */
  lemma RewrittenVersion(text: string, managed: set<string>, requirement: string)
    requires Requirement(requirement)
    ensures var next := Written(text, managed, requirement);
            if VersionClear(text, managed, requirement)
            then PackageVersion(next) == PackageVersion(Blanked(text, managed, requirement))
            else PackageVersion(next) == Ok(requirement) || PackageVersion(next).Err?
  {
    EolIs(text);
    BlanksAreTidy(ScanManifest(text).pieces, BEGIN, Blanking(text, managed, requirement));
    ReadingsFollow(text, Blanking(text, managed, requirement));
  }

  // ----- entries that stand on one line -----

  function Plain(text: string, managed: set<string>, requirement: string): Job {
    Job(managed, requirement, EolOf(text), false)
  }

  /** No stale block puts its entry in the way of the reader of the manifest as it is. */
  ghost predicate PlainlyClear(text: string, managed: set<string>, requirement: string) {
    Clear(ScanManifest(text).pieces, BEGIN, Plain(text, managed, requirement))
  }

  ghost predicate EntriesTidy(text: string, managed: set<string>, requirement: string) {
    AllTidy(ScanManifest(text).pieces, BEGIN, Plain(text, managed, requirement))
  }

  /** In a manifest whose stale entries stand on one line each nothing need be blanked out. */
  lemma RewrittenPlainly(text: string, managed: set<string>, requirement: string)
    requires Requirement(requirement) && EntriesTidy(text, managed, requirement)
    ensures var next := Written(text, managed, requirement);
            if PlainlyClear(text, managed, requirement) then PackageVersion(next) == PackageVersion(text)
            else PackageVersion(next) == Ok(requirement) || PackageVersion(next).Err?
  {
    var l, j := ScanManifest(text), Plain(text, managed, requirement);
    EolIs(text);
    ScanKeepsText(text, true, FinderOf(DependencyName));
    forall i | 0 <= i < |l.pieces| ensures j.Shown(l.pieces[i]) == l.pieces[i] {
      var h, y := ScannedPiece(text, true, l.pieces[i]);
      assert Headed(l.pieces[i]);
      if j.Changes(l.pieces[i]) { ShownPlaced(l.pieces[i], j); }
    }
    assert Updated(l, j.Shower()) == l;
    ReadingsFollow(text, j);
  }
}
