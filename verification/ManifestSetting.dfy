/** What setting the version requirement does to a dependency block: the reader sees
    it, and the braces still close where they did. */
module ManifestSetting {
  import opened Wrappers
  import opened Text
  import opened Characters
  import opened ManifestBlocks
  import opened ManifestRequirements

  /** Opening braces minus closing braces. */
  function Balance(s: string): int {
    if s == "" then 0
    else (if s[0] == '{' then 1 else if s[0] == '}' then -1 else 0) + Balance(s[1..])
  }

  /** If the block has a version entry, the braces in its value cancel out. */
  predicate Balanced(block: string) {
    var h := FindEntry(block, true, VersionAt);
    h.Some? ==> Balance(h.value.value) == 0
  }

  /** While the block stays open the scanner's depth is the balance. */
  lemma {:induction false} FeedDepth(b: Braces, s: string)
    requires b.Open? && b.found && Feed(b, s).Open?
    ensures Feed(b, s) == Open(b.depth + Balance(s), true)
    decreases |s|
  {
    if s != "" {
      if FeedChar(b, s[0]).Closed? { FeedClosed(s[1..]); }
      FeedDepth(FeedChar(b, s[0]), s[1..]);
    }
  }

  lemma ClosesBalance(b: Braces, s: string)
    requires b.Open? && b.found && ClosesAtEnd(s, b)
    ensures b.depth + Balance(s[..|s| - 1]) == 1
  {
    var init, last := s[..|s| - 1], s[|s| - 1];
    assert s == init + [last];
    FeedConcat(b, init, [last]);
    FeedDepth(b, init);
    assert Feed(Feed(b, init), [last]) == FeedChar(Feed(b, init), last) by { assert [last][1..] == ""; }
  }

  // ----- splicing inside a block -----

  lemma ClosesAfter(a: string, c: string)
    requires Feed(START, a).Open?
    ensures ClosesAtEnd(a + c, START) <==> ClosesAtEnd(c, Feed(START, a))
  {
    FeedConcat(START, a, c);
    if c == "" {
      assert a + c == a;
    } else {
      assert (a + c)[..|a + c| - 1] == a + c[..|c| - 1];
      FeedConcat(START, a, c[..|c| - 1]);
    }
  }

  /** Text that leaves the scanner in the same state can stand for other such text. */
  lemma SpliceSame(a: string, m: string, n: string, c: string)
    requires Feed(START, a + m).Open? && Feed(START, a + m) == Feed(START, a + n)
    ensures Feed(START, a + (m + c)) == Feed(START, a + (n + c))
    ensures ClosesAtEnd(a + (m + c), START) <==> ClosesAtEnd(a + (n + c), START)
  {
    assert a + (m + c) == (a + m) + c && a + (n + c) == (a + n) + c;
    FeedConcat(START, a + m, c);
    FeedConcat(START, a + n, c);
    ClosesAfter(a + m, c);
    ClosesAfter(a + n, c);
  }

  /** And only such text, if the block is to close at its end both times. */
  lemma SpliceOnlySame(a: string, m: string, n: string, c: string)
    requires Feed(START, a + m).Open? && Feed(START, a + m).found
    requires Feed(START, a + n).Open? && Feed(START, a + n).found
    requires ClosesAtEnd(a + (m + c), START) && ClosesAtEnd(a + (n + c), START)
    ensures Feed(START, a + m) == Feed(START, a + n)
  {
    assert a + (m + c) == (a + m) + c && a + (n + c) == (a + n) + c;
    ClosesAfter(a + m, c);
    ClosesAfter(a + n, c);
    ClosesBalance(Feed(START, a + m), c);
    ClosesBalance(Feed(START, a + n), c);
  }

  // ----- where the requirement goes -----

  /** The block is `a + m + c` before and `a + n + c` after the requirement is set. */
  datatype Change = Change(a: string, m: string, n: string, c: string)

  /** The old entry gives way to the new one, or the new one and a comma are put in
      behind some whitespace. */
  ghost predicate OnlyEntry(x: Change, lead: string, requirement: string) {
    || (VERSION <= x.m && x.n == Entry(requirement))
    || (x.m == "" && All(lead, JsSpace) && x.n == lead + (Entry(requirement) + ","))
  }

  /** Where the entry goes, and what stands there before and after. */
  function ChangeOf(block: string, requirement: string, eol: string): Change
    requires '{' in block
  {
    var h := FindEntry(block, true, VersionAt);
    if h.Some? then Replacement(block, h.value, requirement) else Insertion(block, requirement, eol)
  }

  /** What was found always fits in the block. */
  function Replacement(block: string, h: Hit, requirement: string): Change {
    if |h.before| + |h.after| > |block| then Change("", "", "", block)
    else Change(h.before, block[|h.before|..|block| - |h.after|], Entry(requirement), h.after)
  }

  function Insertion(block: string, requirement: string, eol: string): Change
    requires '{' in block
  {
    var opening := ThroughBrace(block);
    Change(opening, "", EntryIndent(block, eol) + (Entry(requirement) + ","), block[|opening|..])
  }

  function OldValue(block: string): string {
    var h := FindEntry(block, true, VersionAt);
    if h.Some? then h.value.value else ""
  }

  ghost predicate Describes(x: Change, h: Header, block: string, next: string) {
    && block == x.a + (x.m + x.c) && next == x.a + (x.n + x.c)
    && h.Text() + "{" <= x.a
    && LastChar(x.a + x.m) != '}'
    && None_(x.n, IsBrace)
    && (forall b: Braces :: Feed(b, x.m) == Feed(b, OldValue(block)))
  }

  lemma RequirementPlain(requirement: string)
    requires Requirement(requirement)
    ensures None_(requirement, IsBrace)
  {
    assert forall c: char :: RequirementChar(c) ==> !IsBrace(c);
  }

  lemma EntryPlain(requirement: string)
    requires Requirement(requirement)
    ensures None_(Entry(requirement), IsBrace)
  {
    EscapeRequirement(requirement);
    assert Entry(requirement) == "version = \"" + (requirement + "\"");
    RequirementPlain(requirement);
    AllConcat(requirement, "\"", IsBrace);
    AllConcat("version = \"", requirement + "\"", IsBrace);
  }

  lemma EntryFeed(mid: string, value: string, b: Braces)
    requires None_(mid, Structural)
    ensures Feed(b, VERSION + (mid + ("\"" + (value + "\"")))) == Feed(b, value)
  {
    var p := VERSION + (mid + "\"");
    assert forall c: char :: IsBrace(c) ==> Structural(c);
    assert None_(VERSION, IsBrace) && None_(p, IsBrace);
    assert VERSION + (mid + ("\"" + (value + "\""))) == p + (value + "\"");
    FeedConcat(b, p, value + "\"");
    FeedPlain(b, p);
    FeedConcat(b, value, "\"");
    FeedPlain(Feed(b, value), "\"");
  }

  function BlockText(h: Header, y: string): string { h.Text() + ("{" + y) }

  /** In a block, entries are found from its opening brace on. */
  lemma FindInBlock(h: Header, y: string)
    requires h.Good()
    ensures FindEntry(BlockText(h, y), true, VersionAt) == Prefixed(h.Text(), FindEntry("{" + y, false, VersionAt))
  {
    var x := h.Text();
    HeaderPlain(h);
    forall k | 0 <= k <= |x| ensures VersionAt(x[k..] + ("{" + y)).None? {
      assert forall i :: 0 <= i < |x[k..]| ==> x[k..][i] == x[k + i];
      NoVersionBeforeBrace(x[k..], y);
    }
    SkipHeader(x, "{" + y, true, VersionAt);
  }

  lemma StartsWithFirst(t: string, entry: EntryPattern)
    requires FindEntry(t, false, entry).Some?
    ensures t != "" && [t[0]] <= FindEntry(t, false, entry).value.before
  {
  }

  lemma OpeningIs(h: Header, y: string)
    requires h.Good()
    ensures '{' in BlockText(h, y) && ThroughBrace(BlockText(h, y)) == h.Text() + "{"
  {
    var t := BlockText(h, y);
    HeaderPlain(h);
    assert t[|h.Text()|] == '{';
    var r := ThroughBrace(t);
    var x := r[..|r| - 1];
    var isOpen := (c: char) => c == '{';
    assert t == x + (['{'] + t[|r|..]);
    assert None_(h.Text(), isOpen) by { assert forall c: char :: isOpen(c) ==> Structural(c); }
    FirstMark(x, '{', t[|r|..], h.Text(), '{', y, isOpen);
    assert r == x + "{";
  }

  ghost predicate Eol(eol: string) { eol == "\n" || eol == "\r\n" }

  lemma IndentBlank(block: string, eol: string)
    requires Eol(eol)
    ensures All(EntryIndent(block, eol), JsSpace)
  {
    TakeWhileCuts(block, JsSpace);
  }

  /** Without an entry, a new one goes behind the opening brace. */
  lemma InsertIs(h: Header, y: string, requirement: string, eol: string)
    requires h.Good() && FindEntry(BlockText(h, y), true, VersionAt).None?
    ensures '{' in BlockText(h, y)
    ensures var lead := EntryIndent(BlockText(h, y), eol);
            SetRequirement(BlockText(h, y), requirement, eol) == BlockText(h, lead + (Entry(requirement) + ("," + y)))
  {
    OpeningIs(h, y);
    OpeningSplit(h.Text(), EntryIndent(BlockText(h, y), eol) + (Entry(requirement) + ("," + y)), y);
  }

  lemma OpeningSplit(x: string, u: string, y: string)
    ensures (x + ("{" + y))[|x + "{"|..] == y
    ensures (x + "{") + u == x + ("{" + u)
  {
  }

  lemma EntryShape(z: string) returns (mid: string)
    requires VersionAt(z).Some? && (z != "" ==> !JsSpace(z[0]))
    ensures var (v, after) := VersionAt(z).value;
            && None_(mid, Structural) && z == (VERSION + (mid + ("\"" + (v + "\"")))) + after
  {
    var lead, m := VersionParts(z);
    mid := m;
    assert lead == "";
  }

  lemma HitShape(t: string) returns (z: string, mid: string)
    requires FindEntry(t, true, VersionAt).Some?
    ensures var h := FindEntry(t, true, VersionAt).value;
            && t == h.before + z && Quoted(z) && VersionAt(z) == Some((h.value, h.after))
            && None_(mid, Structural)
            && z == (VERSION + (mid + ("\"" + (h.value + "\"")))) + h.after
  {
    var h := FindEntry(t, true, VersionAt).value;
    VersionSpacious();
    HitParts(t, true, VersionAt);
    z := t[|h.before|..];
    mid := EntryShape(z);
    assert z[|VERSION| + |mid|] == '"';
  }

  /** The reader returns the requirement that was set. */
  lemma SetReads(h: Header, y: string, requirement: string, eol: string)
    requires h.Good() && Requirement(requirement) && Eol(eol)
    ensures '{' in BlockText(h, y)
    ensures ReadRequirement(SetRequirement(BlockText(h, y), requirement, eol)) == Some(requirement)
  {
    var t := BlockText(h, y);
    OpeningIs(h, y);
    if FindEntry(t, true, VersionAt).Some? {
      ReplacedReads(t, requirement);
    } else {
      InsertIs(h, y, requirement, eol);
      var lead := EntryIndent(t, eol);
      IndentBlank(t, eol);
      var u := lead + (Entry(requirement) + ("," + y));
      EntryReads(lead, requirement, "," + y);
      FindInBlock(h, u);
      assert ("{" + u)[1..] == u;
    }
  }

  lemma ReplacedReads(t: string, requirement: string)
    requires FindEntry(t, true, VersionAt).Some? && Requirement(requirement)
    ensures var h := FindEntry(t, true, VersionAt).value;
            ReadRequirement(h.before + (Entry(requirement) + h.after)) == Some(requirement)
  {
    var h := FindEntry(t, true, VersionAt).value;
    var y := Entry(requirement) + h.after;
    var z, mid := HitShape(t);
    EntryText(requirement, h.after);
    assert y[0] == 'v' && !JsSpace('v');
    assert Quoted(y);
    EntryReads("", requirement, h.after);
    assert "" + y == y;
    VersionSpacious();
    VersionReplaces(z, y);
    ReplaceFound(t, true, VersionAt, z, y, (requirement, h.after));
  }

  lemma ReplaceDescribed(h: Header, y: string, requirement: string) returns (x: Change)
    requires h.Good() && Requirement(requirement) && FindEntry(BlockText(h, y), true, VersionAt).Some?
    ensures OnlyEntry(x, "", requirement)
    ensures var f := FindEntry(BlockText(h, y), true, VersionAt).value;
            Describes(x, h, BlockText(h, y), f.before + (Entry(requirement) + f.after))
  {
    var f := FindEntry(BlockText(h, y), true, VersionAt).value;
    var z, mid := HitShape(BlockText(h, y));
    var m := VERSION + (mid + ("\"" + (f.value + "\"")));
    x := Change(f.before, m, Entry(requirement), f.after);
    EntryPlain(requirement);
    EntryBehindBrace(h, y);
    forall b: Braces ensures Feed(b, m) == Feed(b, f.value) { EntryFeed(mid, f.value, b); }
  }

  lemma EntryBehindBrace(h: Header, y: string)
    requires h.Good() && FindEntry(BlockText(h, y), true, VersionAt).Some?
    ensures h.Text() + "{" <= FindEntry(BlockText(h, y), true, VersionAt).value.before
  {
    FindInBlock(h, y);
    StartsWithFirst("{" + y, VersionAt);
  }

  lemma InsertDescribed(h: Header, y: string, requirement: string, eol: string) returns (x: Change)
    requires h.Good() && Requirement(requirement) && Eol(eol)
    requires FindEntry(BlockText(h, y), true, VersionAt).None?
    ensures OnlyEntry(x, EntryIndent(BlockText(h, y), eol), requirement)
    ensures var u := EntryIndent(BlockText(h, y), eol) + (Entry(requirement) + ("," + y));
            Describes(x, h, BlockText(h, y), BlockText(h, u))
  {
    var t := BlockText(h, y);
    var lead := EntryIndent(t, eol);
    var n := lead + (Entry(requirement) + ",");
    IndentBlank(t, eol);
    EntryPlain(requirement);
    assert None_(lead, IsBrace) by { assert forall c: char :: JsSpace(c) ==> !IsBrace(c); }
    AllConcat(Entry(requirement), ",", IsBrace);
    AllConcat(lead, Entry(requirement) + ",", IsBrace);
    x := Change(h.Text() + "{", "", n, y);
    assert "" + y == y && x.a + x.m == x.a;
    InsertedText(h, lead, Entry(requirement), y);
    OpeningSplit(h.Text(), y, y);
  }

  lemma InsertedText(h: Header, lead: string, entry: string, y: string)
    ensures (h.Text() + "{") + ((lead + (entry + ",")) + y) == BlockText(h, lead + (entry + ("," + y)))
  {
    assert (lead + (entry + ",")) + y == lead + (entry + ("," + y));
    OpeningSplit(h.Text(), lead + (entry + ("," + y)), y);
  }

  /** Only an entry is replaced or inserted, behind the opening brace. */
  lemma SetDescribed(h: Header, y: string, requirement: string, eol: string) returns (x: Change, lead: string)
    requires h.Good() && Requirement(requirement) && Eol(eol)
    ensures '{' in BlockText(h, y)
    ensures OnlyEntry(x, lead, requirement)
    ensures Describes(x, h, BlockText(h, y), SetRequirement(BlockText(h, y), requirement, eol))
  {
    OpeningIs(h, y);
    if FindEntry(BlockText(h, y), true, VersionAt).Some? {
      x := SetReplaces(h, y, requirement, eol);
      lead := "";
    } else {
      x, lead := SetInserts(h, y, requirement, eol);
    }
  }

  lemma SetReplaces(h: Header, y: string, requirement: string, eol: string) returns (x: Change)
    requires h.Good() && Requirement(requirement) && '{' in BlockText(h, y)
    requires FindEntry(BlockText(h, y), true, VersionAt).Some?
    ensures OnlyEntry(x, "", requirement)
    ensures Describes(x, h, BlockText(h, y), SetRequirement(BlockText(h, y), requirement, eol))
  {
    x := ReplaceDescribed(h, y, requirement);
  }

  lemma SetInserts(h: Header, y: string, requirement: string, eol: string) returns (x: Change, lead: string)
    requires h.Good() && Requirement(requirement) && Eol(eol) && '{' in BlockText(h, y)
    requires FindEntry(BlockText(h, y), true, VersionAt).None?
    ensures OnlyEntry(x, lead, requirement)
    ensures Describes(x, h, BlockText(h, y), SetRequirement(BlockText(h, y), requirement, eol))
  {
    InsertIs(h, y, requirement, eol);
    x := InsertDescribed(h, y, requirement, eol);
    lead := EntryIndent(BlockText(h, y), eol);
  }

  /** The whole block and nothing more: it closes at its end, or never. */
  predicate Whole(block: string) { ClosesAtEnd(block, START) || Feed(START, block).Open? }

  lemma OpenInside(block: string, a: string, c: string)
    requires Whole(block) && block == a + c && (c != "" || Feed(START, block).Open?)
    ensures Feed(START, a).Open?
  {
    if Feed(START, block).Open? {
      OpenBefore(START, block, |a|);
      assert block[..|a|] == a;
    } else {
      var init := block[..|block| - 1];
      OpenBefore(START, init, |a|);
      assert init[..|a|] == a;
    }
  }

  lemma FoundInside(h: Header, a: string)
    requires h.Good() && h.Text() + "{" <= a && Feed(START, a).Open?
    ensures Feed(START, a).found
  {
    var p := h.Text() + "{";
    HeaderPlain(h);
    assert forall c: char :: IsBrace(c) ==> Structural(c);
    FeedConcat(START, h.Text(), "{");
    FeedPlain(START, h.Text());
    assert "{"[1..] == "";
    assert Feed(START, p) == Open(1, true);
    assert a == p + a[|p|..];
    FeedConcat(START, p, a[|p|..]);
    FeedDepth(Open(1, true), a[|p|..]);
  }

  /** A whole block closes at its end after the change just as before it, if the
      braces of the old value cancel out. */
  lemma SetKeepsBraces(h: Header, y: string, requirement: string, eol: string)
    requires h.Good() && Requirement(requirement) && Eol(eol)
    requires Whole(BlockText(h, y)) && Balanced(BlockText(h, y))
    ensures '{' in BlockText(h, y)
    ensures var next := SetRequirement(BlockText(h, y), requirement, eol);
            && h.Text() + "{" <= next
            && Feed(START, next) == Feed(START, BlockText(h, y))
            && (ClosesAtEnd(next, START) <==> ClosesAtEnd(BlockText(h, y), START))
  {
    var block := BlockText(h, y);
    var x, _ := SetDescribed(h, y, requirement, eol);
    ChangeStates(x, h, block, SetRequirement(block, requirement, eol));
    SpliceSame(x.a, x.m, x.n, x.c);
  }

  /** And it closes at its end only if they do. */
  lemma SetMovesBraces(h: Header, y: string, requirement: string, eol: string)
    requires h.Good() && Requirement(requirement) && Eol(eol)
    requires ClosesAtEnd(BlockText(h, y), START)
    ensures '{' in BlockText(h, y)
    ensures ClosesAtEnd(SetRequirement(BlockText(h, y), requirement, eol), START) ==> Balanced(BlockText(h, y))
  {
    var block := BlockText(h, y);
    var next := SetRequirement(block, requirement, eol);
    var x, _ := SetDescribed(h, y, requirement, eol);
    ChangeStates(x, h, block, next);
    if ClosesAtEnd(next, START) { SpliceOnlySame(x.a, x.m, x.n, x.c); }
  }

  lemma ChangeStates(x: Change, h: Header, block: string, next: string)
    requires h.Good() && Describes(x, h, block, next) && Whole(block)
    ensures Feed(START, x.a).Open? && Feed(START, x.a).found
    ensures Feed(START, x.a + x.n) == Feed(START, x.a)
    ensures Feed(START, x.a + x.m) == Open(Feed(START, x.a).depth + Balance(OldValue(block)), true)
  {
    assert block == (x.a + x.m) + x.c;
    if ClosesAtEnd(block, START) { ClosesWithBrace(block); }
    OpenInside(block, x.a + x.m, x.c);
    OpenBefore(START, x.a + x.m, |x.a|);
    assert (x.a + x.m)[..|x.a|] == x.a;
    FoundInside(h, x.a);
    FeedConcat(START, x.a, x.n);
    FeedPlain(Feed(START, x.a), x.n);
    FeedConcat(START, x.a, x.m);
    FeedDepth(Feed(START, x.a), OldValue(block));
  }

  lemma ClosesWithBrace(block: string)
    requires ClosesAtEnd(block, START)
    ensures LastChar(block) == '}'
  {
    var init := block[..|block| - 1];
    assert block == init + [LastChar(block)];
    FeedConcat(START, init, [LastChar(block)]);
    assert [LastChar(block)][1..] == "";
  }
}
