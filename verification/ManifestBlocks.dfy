/** Finding the inline tables of managed dependencies in a Cargo manifest
    (`collectCargoDependencyBlocks` in scripts/lib/manifest-version.ts). */
module ManifestBlocks {
  import opened Wrappers
  import opened Text
  import opened Characters

  // ----- where a block starts -----

  const STEM := "securitydept-"

  predicate NameChar(c: char) { 'A' <= c <= 'Z' || 'a' <= c <= 'z' || '0' <= c <= '9' || c == '-' }

  /** What follows the mark `c`, if `s` begins with it after any whitespace. */
  function AfterMark(s: string, c: char): Option<string> {
    var a := TrimStart(s, JsSpace);
    if a == "" || a[0] != c then None else Some(a[1..])
  }

  lemma AfterMarkParts(s: string, c: char) returns (lead: string)
    requires AfterMark(s, c).Some?
    ensures All(lead, JsSpace) && s == lead + ([c] + AfterMark(s, c).value)
  {
    lead := TrimStartCuts(s, JsSpace);
    assert TrimStart(s, JsSpace) == [c] + AfterMark(s, c).value;
  }

  lemma AfterMarkReads(lead: string, c: char, rest: string)
    requires All(lead, JsSpace) && !JsSpace(c)
    ensures AfterMark(lead + ([c] + rest), c) == Some(rest)
  {
    TrimStartSkip(lead, [c] + rest, JsSpace);
    assert ([c] + rest)[1..] == rest;
  }

  /** Whether `s` begins with `=` and an opening brace, whitespace allowed before each. */
  predicate EqualsBrace(s: string) {
    AfterMark(s, '=').Some? && AfterMark(AfterMark(s, '=').value, '{').Some?
  }

  /** The dependency name if `u` begins with whitespace, the name, `=` and an opening
      brace. The pattern leaves no choice, so matching it needs no backtracking. */
  function DependencyName(u: string): Option<string> {
    var a := TrimStart(u, JsSpace);
    if !(STEM <= a) then None
    else
      var rest := TakeWhile(a[|STEM|..], NameChar);
      if rest == "" || !EqualsBrace(a[|STEM| + |rest|..]) then None else Some(STEM + rest)
  }

  lemma EqualsBraceOf(s: string) returns (gap: string, lead: string, y: string)
    requires EqualsBrace(s)
    ensures All(gap, JsSpace) && All(lead, JsSpace) && s == gap + ("=" + (lead + ("{" + y)))
  {
    gap := AfterMarkParts(s, '=');
    lead := AfterMarkParts(AfterMark(s, '=').value, '{');
    y := AfterMark(AfterMark(s, '=').value, '{').value;
  }

  lemma EqualsBraceRead(gap: string, lead: string, y: string)
    requires All(gap, JsSpace) && All(lead, JsSpace)
    ensures EqualsBrace(gap + ("=" + (lead + ("{" + y))))
  {
    AfterMarkReads(gap, '=', lead + ("{" + y));
    AfterMarkReads(lead, '{', y);
  }

  /** What stands before the opening brace of a block. */
  datatype Header = Header(indent: string, rest: string, gap: string, lead: string) {
    function Name(): string { STEM + rest }

    function Text(): string { indent + (STEM + (rest + (gap + ("=" + lead)))) }

    ghost predicate Good() {
      && All(indent, JsSpace) && All(gap, JsSpace) && All(lead, JsSpace)
      && rest != "" && All(rest, NameChar)
    }
  }

  lemma HeaderOf(u: string) returns (h: Header, y: string)
    requires DependencyName(u).Some?
    ensures h.Good() && u == h.Text() + ("{" + y) && DependencyName(u) == Some(h.Name())
  {
    var a := TrimStart(u, JsSpace);
    var indent := TrimStartCuts(u, JsSpace);
    var rest := TakeWhile(a[|STEM|..], NameChar);
    TakeWhileCuts(a[|STEM|..], NameChar);
    var b := NameEnds(a, rest);
    var gap, lead, z := EqualsBraceOf(b);
    y := z;
    h := Header(indent, rest, gap, lead);
    HeaderText(h, y);
  }

  lemma NameEnds(a: string, rest: string) returns (b: string)
    requires STEM <= a && rest <= a[|STEM|..]
    ensures a == STEM + (rest + b) && b == a[|STEM| + |rest|..]
  {
    b := a[|STEM| + |rest|..];
    assert a[|STEM|..] == rest + b;
  }

  lemma HeaderText(h: Header, y: string)
    ensures h.Text() + ("{" + y) == h.indent + (STEM + (h.rest + (h.gap + ("=" + (h.lead + ("{" + y))))))
  {
  }

  lemma HeaderRead(h: Header, y: string)
    requires h.Good()
    ensures DependencyName(h.Text() + ("{" + y)) == Some(h.Name())
  {
    var b := h.gap + ("=" + (h.lead + ("{" + y)));
    var a := STEM + (h.rest + b);
    HeaderText(h, y);
    assert a[0] == 's' && !JsSpace('s');
    TrimStartSkip(h.indent, a, JsSpace);
    assert a[|STEM|..] == h.rest + b;
    assert !NameChar(b[0]) by { if h.gap != "" { assert JsSpace(h.gap[0]); } }
    TakeWhileStops(h.rest, b, NameChar);
    assert a[|STEM| + |h.rest|..] == b;
    EqualsBraceRead(h.gap, h.lead, y);
  }

  /** None of the characters that structure a block occurs in a header. */
  predicate Structural(c: char) { c == '{' || c == '}' || c == ',' || c == '"' }

  lemma HeaderPlain(h: Header)
    requires h.Good()
    ensures None_(h.Text(), Structural)
  {
    assert forall c: char :: JsSpace(c) || NameChar(c) || c == '=' ==> !Structural(c);
    assert All(STEM, NameChar);
  }

  /** Whether a header stands at the start is decided by the first opening brace. */
  lemma HeaderLocal(p: string, y: string, z: string)
    requires '{' in p
    ensures DependencyName(p + y) == DependencyName(p + z)
  {
    HeaderExtends(p, y, z);
    HeaderExtends(p, z, y);
  }

  lemma HeaderExtends(p: string, y: string, z: string)
    requires '{' in p
    ensures DependencyName(p + y).Some? ==> DependencyName(p + z) == DependencyName(p + y)
  {
    if DependencyName(p + y).Some? {
      var h, w := HeaderOf(p + y);
      HeaderPlain(h);
      var k := |h.Text()|;
      var i :| 0 <= i < |p| && p[i] == '{';
      assert (p + y)[i] == '{';
      assert k <= i by {
        if i < k { assert Structural(h.Text()[i]); }
      }
      assert p[..k + 1] == (p + y)[..k + 1] == h.Text() + "{";
      assert p + z == h.Text() + ("{" + (p[k + 1..] + z));
      HeaderRead(h, p[k + 1..] + z);
    }
  }

  /** The pattern a block starts with: the name it captures at the start of a text. */
  type Pattern = string -> Option<string>

  /** The first position at which a multi-line `^` and the pattern match; `lineStart`
      says whether `^` matches before `u`. */
  function FindStart(u: string, lineStart: bool, name: Pattern): (r: Option<nat>)
    ensures r.Some? ==> r.value < |u| && name(u[r.value..]).Some?
  {
    if u == "" then None
    else if lineStart && name(u).Some? then Some(0)
    else
      var r := FindStart(u[1..], JsLineEnd(u[0]), name);
      if r.None? then None else Some(r.value + 1)
  }

  /** A match is decided by the text through the first opening brace. */
  ghost predicate DecidedByBrace(name: Pattern) {
    forall p, y, z :: '{' in p ==> name(p + y) == name(p + z)
  }

  lemma DependencyNameDecided()
    ensures DecidedByBrace(DependencyName)
  {
    forall p, y, z | '{' in p ensures DependencyName(p + y) == DependencyName(p + z) { HeaderLocal(p, y, z); }
  }

  /** The start that was found does not depend on what follows its opening brace. */
  lemma {:induction false} FindStartLocal(g: string, h: string, y: string, z: string, lineStart: bool, name: Pattern)
    requires '{' in h && DecidedByBrace(name)
    requires FindStart(g + (h + y), lineStart, name) == Some(|g|)
    ensures FindStart(g + (h + z), lineStart, name) == Some(|g|)
  {
    var u, v := g + (h + y), g + (h + z);
    assert u == (g + h) + y && v == (g + h) + z;
    assert '{' in g + h;
    assert name(u) == name(v);
    if g != "" {
      assert u[1..] == g[1..] + (h + y) && v[1..] == g[1..] + (h + z);
      FindStartLocal(g[1..], h, y, z, JsLineEnd(g[0]), name);
    }
  }

  // ----- where a block ends -----

  /** The scanner's `braceDepth` and `foundOpeningBrace`, until the block has closed. */
  datatype Braces = Open(depth: int, found: bool) | Closed

  const START := Open(0, false)

  function FeedChar(b: Braces, c: char): Braces {
    if b.Closed? then Closed
    else if c == '{' then Open(b.depth + 1, true)
    else if c == '}' then (if b.found && b.depth == 1 then Closed else Open(b.depth - 1, b.found))
    else b
  }

  function Feed(b: Braces, s: string): Braces
    decreases |s|
  {
    if s == "" then b else Feed(FeedChar(b, s[0]), s[1..])
  }

  lemma {:induction false} FeedConcat(b: Braces, s: string, t: string)
    ensures Feed(b, s + t) == Feed(Feed(b, s), t)
    decreases |s|
  {
    if s == "" {
      assert s + t == t;
    } else {
      assert (s + t)[1..] == s[1..] + t;
      FeedConcat(FeedChar(b, s[0]), s[1..], t);
    }
  }

  lemma {:induction false} FeedClosed(s: string)
    ensures Feed(Closed, s) == Closed
  {
    if s != "" { FeedClosed(s[1..]); }
  }

  predicate IsBrace(c: char) { c == '{' || c == '}' }

  lemma {:induction false} FeedPlain(b: Braces, s: string)
    requires None_(s, IsBrace)
    ensures Feed(b, s) == b
  {
    if s != "" {
      assert !IsBrace(s[0]);
      FeedPlain(b, s[1..]);
    }
  }

  /** How much of `u` belongs to the block: through its closing brace, or all of it. */
  function BlockLength(u: string, b: Braces): (n: nat)
    ensures n <= |u|
  {
    if u == "" || b.Closed? then 0 else 1 + BlockLength(u[1..], FeedChar(b, u[0]))
  }

  /** The block closes with the last character of `s`, not before. */
  predicate ClosesAtEnd(s: string, b: Braces) {
    s != "" && Feed(b, s).Closed? && Feed(b, s[..|s| - 1]).Open?
  }

  lemma {:induction false} OpenBefore(b: Braces, s: string, i: nat)
    requires i <= |s| && Feed(b, s).Open?
    ensures Feed(b, s[..i]).Open?
  {
    assert s == s[..i] + s[i..];
    FeedConcat(b, s[..i], s[i..]);
    FeedClosed(s[i..]);
  }

  lemma {:induction false} BlockLengthIs(s: string, rest: string, b: Braces)
    requires b.Open?
    ensures BlockLength(s + rest, b) == |s| <==> ClosesAtEnd(s, b) || (Feed(b, s).Open? && rest == "")
  {
    var u := s + rest;
    if s == "" {
      assert u == rest;
    } else {
      var b2 := FeedChar(b, s[0]);
      assert u[1..] == s[1..] + rest;
      if b2.Closed? {
        FeedClosed(s[1..]);
        if |s| > 1 {
          OpenOnlyOnce(b, s);
        } else {
          assert s[..0] == "";
        }
      } else {
        BlockLengthIs(s[1..], rest, b2);
        if |s| > 1 {
          assert s[..|s| - 1][1..] == s[1..][..|s[1..]| - 1];
        } else {
          assert s[1..] == "";
        }
      }
    }
  }

  lemma OpenOnlyOnce(b: Braces, s: string)
    requires |s| > 1 && FeedChar(b, s[0]).Closed?
    ensures Feed(b, s[..|s| - 1]).Closed?
  {
    FeedClosed(s[..|s| - 1][1..]);
  }

  // ----- the whole file -----

  /** A block together with the text before it. */
  datatype Piece = Piece(gap: string, name: string, block: string)

  datatype Layout = Layout(pieces: seq<Piece>, tail: string)

  function PiecesText(pieces: seq<Piece>): string {
    if pieces == [] then "" else pieces[0].gap + (pieces[0].block + PiecesText(pieces[1..]))
  }

  function TextOf(l: Layout): string { PiecesText(l.pieces) + l.tail }

  /** The first block of a text and the text before it; the flag says whether a
      multi-line `^` matches before the text. */
  type Finder = (string, bool) -> Option<Piece>

  predicate Fits(p: Piece, u: string) { p.block != "" && p.gap + p.block <= u }

  function LastChar(s: string): char
    requires s != ""
  {
    s[|s| - 1]
  }

  function Rest(u: string, p: Piece): (r: string)
    requires Fits(p, u)
    ensures |r| < |u| && u == p.gap + (p.block + r)
  {
    assert u == p.gap + p.block + u[|p.gap + p.block|..];
    u[|p.gap + p.block|..]
  }

  /** One block after the other, as far as the finder finds any. */
  function Scan(u: string, lineStart: bool, find: Finder): Layout
    decreases |u|
  {
    var p := find(u, lineStart);
    if p.None? || !Fits(p.value, u) then Layout([], u)
    else
      var more := Scan(Rest(u, p.value), JsLineEnd(LastChar(p.value.block)), find);
      Layout([p.value] + more.pieces, more.tail)
  }

  lemma PiecesTextCons(p: Piece, pieces: seq<Piece>)
    ensures PiecesText([p] + pieces) == p.gap + (p.block + PiecesText(pieces))
  {
    assert ([p] + pieces)[1..] == pieces;
  }

  lemma TextOfCons(p: Piece, l: Layout)
    ensures TextOf(Layout([p] + l.pieces, l.tail)) == p.gap + (p.block + TextOf(l))
  {
    PiecesTextCons(p, l.pieces);
  }

  /** Scanning loses nothing: the gaps and blocks make up the file. */
  lemma {:induction false} ScanKeepsText(u: string, lineStart: bool, find: Finder)
    ensures TextOf(Scan(u, lineStart, find)) == u
    decreases |u|
  {
    var p := find(u, lineStart);
    if p.Some? && Fits(p.value, u) {
      var r, ls := Rest(u, p.value), JsLineEnd(LastChar(p.value.block));
      ScanKeepsText(r, ls, find);
      TextOfCons(p.value, Scan(r, ls, find));
    }
  }

  /** The finder of the program: the start pattern, then the matching brace. */
  function NextPiece(u: string, lineStart: bool, name: Pattern): (p: Option<Piece>)
    ensures p.Some? ==> Fits(p.value, u)
  {
    var start := FindStart(u, lineStart, name);
    if start.None? then None
    else
      var i := start.value;
      var n := BlockLength(u[i..], START);
      Some(Piece(u[..i], name(u[i..]).value, u[i..i + n]))
  }

  function FinderOf(name: Pattern): Finder { (u, lineStart) => NextPiece(u, lineStart, name) }

  function ScanManifest(source: string): Layout { Scan(source, true, FinderOf(DependencyName)) }

  /** A block as the program records it. */
  datatype Block = Block(name: string, text: string, start: nat, end: nat)

  function Located(pieces: seq<Piece>, offset: nat): seq<Block> {
    if pieces == [] then []
    else
      var p := pieces[0];
      var start := offset + |p.gap|;
      var end := start + |p.block|;
      [Block(p.name, p.block, start, end)] + Located(pieces[1..], end)
  }

  lemma LocatedCons(p: Piece, pieces: seq<Piece>, offset: nat)
    ensures var start := offset + |p.gap|;
            var end := start + |p.block|;
            Located([p] + pieces, offset) == [Block(p.name, p.block, start, end)] + Located(pieces, end)
  {
    assert ([p] + pieces)[1..] == pieces;
  }

  predicate LineStartAt(source: string, i: nat)
    requires i <= |source|
  {
    i == 0 || JsLineEnd(source[i - 1])
  }

  /** The inner loop counts braces to the end of the block that starts at `index`. */
  method FindEnd(source: string, index: nat) returns (offset: nat)
    requires index <= |source|
    ensures offset == index + BlockLength(source[index..], START)
  {
    offset := index;
    var depth, found, closed := 0, false, false;
    while offset < |source| && !closed
      invariant index <= offset <= |source|
      invariant BlockLength(source[index..], START)
             == offset - index + BlockLength(source[offset..], if closed then Closed else Open(depth, found))
    {
      assert source[offset..][1..] == source[offset + 1..];
      var c := source[offset];
      if c == '{' {
        depth := depth + 1;
        found := true;
      }
      if c == '}' {
        depth := depth - 1;
        if found && depth == 0 { closed := true; }
      }
      offset := offset + 1;
    }
  }

  /** What is left to find when scanning resumes at `from`. */
  ghost function Remaining(source: string, from: nat, find: Finder): seq<Block>
    requires from <= |source|
  {
    Located(Scan(source[from..], LineStartAt(source, from), find).pieces, from)
  }

  lemma RemainingStep(source: string, from: nat, find: Finder, p: Piece)
    requires from <= |source|
    requires find(source[from..], LineStartAt(source, from)) == Some(p) && Fits(p, source[from..])
    ensures var start := from + |p.gap|;
            var end := start + |p.block|;
            && start < end <= |source|
            && Remaining(source, from, find) == [Block(p.name, p.block, start, end)] + Remaining(source, end, find)
  {
    var u := source[from..];
    var end := from + |p.gap| + |p.block|;
    assert Rest(u, p) == source[end..];
    assert LastChar(p.block) == (p.gap + p.block)[|p.gap + p.block| - 1] == u[|p.gap + p.block| - 1] == source[end - 1];
    LocatedCons(p, Scan(source[end..], LineStartAt(source, end), find).pieces, from);
  }

  lemma RemainingNone(source: string, from: nat, find: Finder)
    requires from <= |source| && find(source[from..], LineStartAt(source, from)).None?
    ensures Remaining(source, from, find) == []
  {
  }

  lemma SliceOfTail(s: string, from: nat, i: nat, n: nat)
    requires from + i + n <= |s|
    ensures s[from..][i..] == s[from + i..]
    ensures s[from..][..i] == s[from..from + i] && s[from..][i..i + n] == s[from + i..from + i + n]
  {
  }

  /** `find` is the program's finder for the pattern. */
  ghost predicate Implements(find: Finder, name: Pattern) {
    forall u, lineStart {:trigger NextPiece(u, lineStart, name)} :: find(u, lineStart) == NextPiece(u, lineStart, name)
  }

  /** `b` is what the finder finds from `from` on, at its offsets. */
  ghost predicate Locates(source: string, from: nat, find: Finder, b: Option<Block>)
    requires from <= |source|
  {
    var p := find(source[from..], LineStartAt(source, from));
    if b.None? then p.None?
    else
      && from <= b.value.start < b.value.end <= |source|
      && p == Some(Piece(source[from..b.value.start], b.value.name, b.value.text))
      && b.value.text == source[b.value.start..b.value.end]
  }

  lemma RemainingLocated(source: string, from: nat, find: Finder, b: Option<Block>)
    requires from <= |source| && Locates(source, from, find, b)
    ensures if b.None? then Remaining(source, from, find) == []
            else Remaining(source, from, find) == [b.value] + Remaining(source, b.value.end, find)
  {
    if b.None? {
      RemainingNone(source, from, find);
    } else {
      var p := find(source[from..], LineStartAt(source, from)).value;
      assert p.gap + p.block == source[from..b.value.end];
      assert source[from..b.value.end] <= source[from..];
      RemainingStep(source, from, find, p);
    }
  }

  /** The start pattern finds what the finder finds. */
  method FindNext(u: string, lineStart: bool, name: Pattern, ghost find: Finder) returns (start: Option<nat>)
    requires Implements(find, name)
    ensures if start.None? then find(u, lineStart).None?
            else var i := start.value;
                 && i < |u| && name(u[i..]).Some?
                 && find(u, lineStart) == Some(Piece(u[..i], name(u[i..]).value, u[i..i + BlockLength(u[i..], START)]))
  {
    start := FindStart(u, lineStart, name);
    assert find(u, lineStart) == NextPiece(u, lineStart, name);
  }

  method LocateBlock(source: string, from: nat, name: Pattern, ghost find: Finder) returns (b: Option<Block>)
    requires from <= |source| && Implements(find, name)
    ensures Locates(source, from, find, b)
  {
    var start := FindNext(source[from..], LineStartAt(source, from), name, find);
    if start.None? { return None; }
    var index := from + start.value;
    assert source[from..][start.value..] == source[index..];
    var end := FindEnd(source, index);
    SliceOfTail(source, from, start.value, end - index);
    b := Some(Block(name(source[index..]).value, source[index..end], index, end));
  }

  /** One turn of the scan: the next block, and what is left after it. */
  method NextBlock(source: string, from: nat, name: Pattern, ghost find: Finder) returns (b: Option<Block>)
    requires from <= |source| && Implements(find, name)
    ensures if b.None? then Remaining(source, from, find) == []
            else && from < b.value.end <= |source|
                 && Remaining(source, from, find) == [b.value] + Remaining(source, b.value.end, find)
  {
    b := LocateBlock(source, from, name, find);
    RemainingLocated(source, from, find, b);
  }

  /** The scanning loops find the blocks of the layout at their offsets. */
  method CollectBlocks(source: string, name: Pattern, ghost find: Finder) returns (blocks: seq<Block>)
    requires Implements(find, name)
    ensures blocks == Located(Scan(source, true, find).pieces, 0)
  {
    assert source[0..] == source;
    blocks := [];
    var from := 0;
    var next := NextBlock(source, from, name, find);
    while next.Some?
      invariant from <= |source|
      invariant next.None? ==> Remaining(source, from, find) == []
      invariant next.Some? ==> && from < next.value.end <= |source|
                               && Remaining(source, from, find) ==
                                    [next.value] + Remaining(source, next.value.end, find)
      invariant blocks + Remaining(source, from, find) == Remaining(source, 0, find)
      decreases |source| - from
    {
      blocks := blocks + [next.value];
      from := next.value.end;
      next := NextBlock(source, from, name, find);
    }
  }
}
