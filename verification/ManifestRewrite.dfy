/** Rewriting the version requirements of a whole manifest
    (`writeCargoDependencyVersionRequirements` and
    `collectCargoDependencyVersionMismatches` in scripts/lib/manifest-version.ts). */
module ManifestRewrite {
  import opened Wrappers
  import opened Sequences
  import opened Text
  import opened Characters
  import opened ManifestBlocks
  import opened ManifestRequirements
  import opened ManifestSetting

  predicate Managed(name: string, block: string, managed: set<string>) {
    name in managed && Includes(block, "path = ")
  }

  /** A block whose requirement is not the expected one. */
  predicate Stale(p: Piece, managed: set<string>, requirement: string) {
    Managed(p.name, p.block, managed) && ReadRequirement(p.block) != Some(requirement)
  }

  /** A stale block with its requirement set; a scanned block always has a brace. */
  function Update(p: Piece, managed: set<string>, requirement: string, eol: string): Piece {
    if Stale(p, managed, requirement) && '{' in p.block
    then p.(block := SetRequirement(p.block, requirement, eol)) else p
  }

  type Updater = Piece -> Piece

  function UpdaterOf(managed: set<string>, requirement: string, eol: string): Updater {
    p => Update(p, managed, requirement, eol)
  }

  /** All blocks updated at once, everything else as it was. */
  function Updated(l: Layout, update: Updater): Layout { Layout(Map(l.pieces, update), l.tail) }

  function Written(source: string, managed: set<string>, requirement: string): string {
    TextOf(Updated(ScanManifest(source), UpdaterOf(managed, requirement, EolOf(source))))
  }

  datatype Mismatch = Mismatch(name: string, actual: Option<string>)

  function StaleTest(managed: set<string>, requirement: string): Piece -> bool { p => Stale(p, managed, requirement) }

  function MismatchOf(p: Piece): Mismatch { Mismatch(p.name, ReadRequirement(p.block)) }

  function Mismatches(source: string, managed: set<string>, requirement: string): seq<Mismatch> {
    Map(Filter(ScanManifest(source).pieces, StaleTest(managed, requirement)), MismatchOf)
  }

  // ----- scanning again what was rewritten -----

  /** Names the situation the next two laws speak of: `r` follows an updated block. */
  predicate Again(u: string, lineStart: bool, r: string) { true }

  ghost predicate Finds(find: Finder, u: string, lineStart: bool) {
    var q := find(u, lineStart);
    q.Some? && Fits(q.value, u)
  }

  /** Whether a block may be updated, given whether anything follows it in the file. */
  type Test = (Piece, bool) -> bool

  /** Blocks that are `ok` are found again after they were updated, whatever is done to
      the rest of the file. */
  ghost predicate Refinds(find: Finder, update: Updater, ok: Test) {
    && (forall lineStart :: find("", lineStart).None?)
    && (forall p :: update(p).gap == p.gap)
    && (forall u, lineStart, r {:trigger Again(u, lineStart, r)} ::
         Again(u, lineStart, r) && Finds(find, u, lineStart) ==>
           var p := find(u, lineStart).value;
           var q := update(p);
           && q.block != ""
           && (ok(p, Rest(u, p) != "") && (r == "" <==> Rest(u, p) == "") ==>
                && find(p.gap + (q.block + r), lineStart) == Some(q)
                && (r != "" ==> LastChar(q.block) == LastChar(p.block))))
  }

  /** Blocks that are not `ok` are not. */
  ghost predicate Misses(find: Finder, update: Updater, ok: Test) {
    forall u, lineStart, r {:trigger Again(u, lineStart, r)} ::
      Again(u, lineStart, r) && Finds(find, u, lineStart) ==>
        var p := find(u, lineStart).value;
        var q := update(p);
        (r == "" <==> Rest(u, p) == "") && find(p.gap + (q.block + r), lineStart) == Some(q) ==> ok(p, Rest(u, p) != "")
  }

  ghost predicate AllOk(l: Layout, ok: Test) {
    forall i :: 0 <= i < |l.pieces| ==> ok(l.pieces[i], i < |l.pieces| - 1 || l.tail != "")
  }

  lemma AllOkCons(p: Piece, l: Layout, ok: Test)
    ensures AllOk(Layout([p] + l.pieces, l.tail), ok) <==> ok(p, l.pieces != [] || l.tail != "") && AllOk(l, ok)
  {
    var all := Layout([p] + l.pieces, l.tail);
    if AllOk(all, ok) {
      assert ok(all.pieces[0], 0 < |all.pieces| - 1 || all.tail != "");
      forall i | 0 <= i < |l.pieces| ensures ok(l.pieces[i], i < |l.pieces| - 1 || l.tail != "") {
        assert ok(all.pieces[i + 1], i + 1 < |all.pieces| - 1 || all.tail != "");
      }
    }
  }

  lemma UpdatedCons(p: Piece, l: Layout, update: Updater)
    ensures var all := Layout([p] + l.pieces, l.tail);
            && Updated(all, update) == Layout([update(p)] + Updated(l, update).pieces, l.tail)
            && TextOf(Updated(all, update)) == update(p).gap + (update(p).block + TextOf(Updated(l, update)))
  {
    TextOfCons(update(p), Updated(l, update));
    assert Map([p] + l.pieces, update) == [update(p)] + Map(l.pieces, update);
  }

  lemma ScanCons(u: string, lineStart: bool, find: Finder, q: Piece, r: string)
    requires u == q.gap + (q.block + r) && q.block != "" && find(u, lineStart) == Some(q)
    ensures var more := Scan(r, JsLineEnd(LastChar(q.block)), find);
            Scan(u, lineStart, find) == Layout([q] + more.pieces, more.tail)
  {
    assert u == q.gap + q.block + r;
    assert q.gap + q.block <= u;
    assert Rest(u, q) == r;
  }

  lemma ScanEmpty(lineStart: bool, find: Finder)
    requires find("", lineStart).None?
    ensures Scan("", lineStart, find) == Layout([], "")
  {
  }

  /** A scan finds nothing and leaves nothing exactly in the empty text. */
  lemma ScanOfNothing(u: string, lineStart: bool, find: Finder)
    requires find("", lineStart).None?
    ensures u == "" <==> Scan(u, lineStart, find).pieces == [] && Scan(u, lineStart, find).tail == ""
  {
    ScanKeepsText(u, lineStart, find);
  }

  lemma UpdatedOfNothing(u: string, lineStart: bool, find: Finder, update: Updater, ok: Test)
    requires Refinds(find, update, ok)
    ensures u == "" <==> TextOf(Updated(Scan(u, lineStart, find), update)) == ""
  {
    ScanOfNothing(u, lineStart, find);
    var p := find(u, lineStart);
    if p.Some? && Fits(p.value, u) {
      assert Again(u, lineStart, "");
      var more := Scan(Rest(u, p.value), JsLineEnd(LastChar(p.value.block)), find);
      UpdatedCons(p.value, more, update);
    }
  }

  /** The rewritten file scans into exactly the updated blocks. */
  lemma {:induction false} Rescan(u: string, lineStart: bool, find: Finder, update: Updater, ok: Test)
    requires Refinds(find, update, ok) && AllOk(Scan(u, lineStart, find), ok)
    ensures var l := Updated(Scan(u, lineStart, find), update);
            Scan(TextOf(l), lineStart, find) == l
    decreases |u|
  {
    var p := find(u, lineStart);
    if p.Some? && Fits(p.value, u) {
      var rest, ls := Rest(u, p.value), JsLineEnd(LastChar(p.value.block));
      var more := Scan(rest, ls, find);
      AllOkCons(p.value, more, ok);
      Rescan(rest, ls, find, update, ok);
      ScanOfNothing(rest, ls, find);
      UpdatedOfNothing(rest, ls, find, update, ok);
      RescanFirst(u, lineStart, find, update, ok);
    } else {
      assert Updated(Layout([], u), update) == Layout([], u);
      assert TextOf(Layout([], u)) == u;
    }
  }

  lemma RescanFirst(u: string, lineStart: bool, find: Finder, update: Updater, ok: Test)
    requires Refinds(find, update, ok) && Finds(find, u, lineStart)
    requires var p := find(u, lineStart).value;
             var rest, ls := Rest(u, p), JsLineEnd(LastChar(p.block));
             var m := Updated(Scan(rest, ls, find), update);
             && ok(p, rest != "") && Scan(TextOf(m), ls, find) == m && (TextOf(m) == "" <==> rest == "")
    ensures var l := Updated(Scan(u, lineStart, find), update);
            Scan(TextOf(l), lineStart, find) == l
  {
    var p := find(u, lineStart).value;
    var ls := JsLineEnd(LastChar(p.block));
    var more := Scan(Rest(u, p), ls, find);
    var r := TextOf(Updated(more, update));
    var q := update(p);
    assert Again(u, lineStart, r);
    if r == "" {
      ScanEmpty(ls, find);
      ScanEmpty(JsLineEnd(LastChar(q.block)), find);
    }
    UpdatedCons(p, more, update);
    ScanCons(q.gap + (q.block + r), lineStart, find, q, r);
  }

  /** And only if all blocks are ok. */
  lemma {:induction false} RescanOnly(u: string, lineStart: bool, find: Finder, update: Updater, ok: Test)
    requires Refinds(find, update, ok) && Misses(find, update, ok)
    requires var l := Updated(Scan(u, lineStart, find), update); Scan(TextOf(l), lineStart, find) == l
    ensures AllOk(Scan(u, lineStart, find), ok)
    decreases |u|
  {
    var p := find(u, lineStart);
    if p.Some? && Fits(p.value, u) {
      var rest, ls := Rest(u, p.value), JsLineEnd(LastChar(p.value.block));
      var more := Scan(rest, ls, find);
      ScanOfNothing(rest, ls, find);
      UpdatedOfNothing(rest, ls, find, update, ok);
      RescanOnlyFirst(u, lineStart, find, update, ok);
      RescanOnly(rest, ls, find, update, ok);
      AllOkCons(p.value, more, ok);
    }
  }

  lemma RescanOnlyFirst(u: string, lineStart: bool, find: Finder, update: Updater, ok: Test)
    requires Refinds(find, update, ok) && Misses(find, update, ok) && Finds(find, u, lineStart)
    requires var l := Updated(Scan(u, lineStart, find), update); Scan(TextOf(l), lineStart, find) == l
    requires var p := find(u, lineStart).value;
             var rest, ls := Rest(u, p), JsLineEnd(LastChar(p.block));
             TextOf(Updated(Scan(rest, ls, find), update)) == "" <==> rest == ""
    ensures var p := find(u, lineStart).value;
            var rest, ls := Rest(u, p), JsLineEnd(LastChar(p.block));
            var m := Updated(Scan(rest, ls, find), update);
            ok(p, rest != "") && Scan(TextOf(m), ls, find) == m
  {
    var p := find(u, lineStart).value;
    var ls := JsLineEnd(LastChar(p.block));
    var more := Scan(Rest(u, p), ls, find);
    var r := TextOf(Updated(more, update));
    var q := update(p);
    UpdatedCons(p, more, update);
    var v := q.gap + (q.block + r);
    assert Scan(v, lineStart, find) == Layout([q] + Updated(more, update).pieces, more.tail);
    assert Scan(v, lineStart, find).pieces[0] == q;
    assert find(v, lineStart) == Some(q) && Fits(q, v);
    assert Again(u, lineStart, r);
    ScanCons(v, lineStart, find, q, r);
    if r == "" {
      ScanEmpty(ls, find);
      ScanEmpty(JsLineEnd(LastChar(q.block)), find);
    }
  }

  // ----- the program's finder and updater obey these laws -----

  /** The block ends with its closing brace, or with the file. */
  lemma PieceWhole(u: string, lineStart: bool, name: Pattern)
    requires NextPiece(u, lineStart, name).Some?
    ensures var p := NextPiece(u, lineStart, name).value;
            && FindStart(u, lineStart, name) == Some(|p.gap|)
            && name(p.block + Rest(u, p)) == Some(p.name)
            && Whole(p.block) && (Rest(u, p) == "" || ClosesAtEnd(p.block, START))
  {
    var p := NextPiece(u, lineStart, name).value;
    var rest := Rest(u, p);
    var i := |p.gap|;
    assert u[i..] == p.block + rest;
    BlockLengthIs(p.block, rest, START);
  }

  /** It begins with a header and a brace. */
  lemma PieceHeader(u: string, lineStart: bool) returns (h: Header, y: string)
    requires NextPiece(u, lineStart, DependencyName).Some?
    ensures var p := NextPiece(u, lineStart, DependencyName).value;
            h.Good() && p.block == BlockText(h, y)
  {
    var p := NextPiece(u, lineStart, DependencyName).value;
    PieceWhole(u, lineStart, DependencyName);
    y := "";
    var w: string;
    h, w := HeaderOf(p.block + Rest(u, p));
    y := BlockStarts(h, w, p.block, Rest(u, p));
  }

  lemma BlockStarts(h: Header, w: string, block: string, rest: string) returns (y: string)
    requires h.Good() && block + rest == BlockText(h, w)
    requires Whole(block) && (rest == "" || ClosesAtEnd(block, START))
    ensures block == BlockText(h, y)
  {
    var x := h.Text();
    if |block| <= |x| {
      HeaderPlain(h);
      assert block == (block + rest)[..|block|] == x[..|block|];
      assert None_(block, IsBrace) by { assert forall c: char :: IsBrace(c) ==> Structural(c); }
      FeedPlain(START, block);
    }
    y := block[|x| + 1..];
    assert block == (block + rest)[..|block|];
    assert block == x + ("{" + y);
  }

  lemma StartAgain(p: Piece, rest: string, lineStart: bool, name: Pattern, start: string, next: string, r: string)
    requires DecidedByBrace(name) && '{' in start && start <= p.block && start <= next
    requires FindStart(p.gap + (p.block + rest), lineStart, name) == Some(|p.gap|)
    ensures FindStart(p.gap + (next + r), lineStart, name) == Some(|p.gap|)
    ensures name(next + r) == name(p.block + rest)
  {
    var y, z := p.block[|start|..] + rest, next[|start|..] + r;
    assert p.block + rest == start + y && next + r == start + z;
    FindStartLocal(p.gap, start, y, z, lineStart, name);
  }

  /** A block that keeps its header and its braces is found again. */
  lemma PieceAgain(u: string, lineStart: bool, name: Pattern, start: string, next: string, r: string)
    requires NextPiece(u, lineStart, name).Some? && DecidedByBrace(name)
    requires var p := NextPiece(u, lineStart, name).value;
             && '{' in start && start <= p.block && start <= next
             && (ClosesAtEnd(next, START) || (Feed(START, next).Open? && r == ""))
    ensures var p := NextPiece(u, lineStart, name).value;
            NextPiece(p.gap + (next + r), lineStart, name) == Some(p.(block := next))
  {
    var p := NextPiece(u, lineStart, name).value;
    PieceWhole(u, lineStart, name);
    StartAgain(p, Rest(u, p), lineStart, name, start, next, r);
    BlockLengthIs(next, r, START);
    NextPieceIs(p.gap, next, r, lineStart, name);
  }

  lemma NextPieceIs(gap: string, block: string, r: string, lineStart: bool, name: Pattern)
    requires FindStart(gap + (block + r), lineStart, name) == Some(|gap|)
    requires BlockLength(block + r, START) == |block|
    ensures name(block + r).Some?
    ensures NextPiece(gap + (block + r), lineStart, name) == Some(Piece(gap, name(block + r).value, block))
  {
    var u := gap + (block + r);
    assert u[|gap|..] == block + r;
    assert (block + r)[..|block|] == block;
    assert u[|gap|..|gap| + |block|] == block;
  }

  /** The braces of a value that is replaced cancel out; of the block that ends the file
      it is enough that its new braces do not close it before. */
  function Settled(managed: set<string>, requirement: string, eol: string): Test {
    (p, follows) =>
      Stale(p, managed, requirement) ==>
        if follows then Balanced(p.block) else Whole(Update(p, managed, requirement, eol).block)
  }

  lemma UpdateStarts(p: Piece, h: Header, y: string, managed: set<string>, requirement: string, eol: string)
    requires h.Good() && p.block == BlockText(h, y) && Requirement(requirement) && Eol(eol)
    ensures h.Text() + "{" <= Update(p, managed, requirement, eol).block && h.Text() + "{" <= p.block
  {
    assert p.block == (h.Text() + "{") + y;
    if Stale(p, managed, requirement) { var x, _ := SetDescribed(h, y, requirement, eol); }
  }

  lemma UpdateKeeps(p: Piece, h: Header, y: string, managed: set<string>, requirement: string, eol: string)
    requires h.Good() && p.block == BlockText(h, y) && Whole(p.block) && Requirement(requirement) && Eol(eol)
    requires Stale(p, managed, requirement) ==> Balanced(p.block)
    ensures var q := Update(p, managed, requirement, eol);
            && Feed(START, q.block) == Feed(START, p.block)
            && (ClosesAtEnd(q.block, START) <==> ClosesAtEnd(p.block, START))
  {
    if Stale(p, managed, requirement) { SetKeepsBraces(h, y, requirement, eol); }
  }

  lemma UpdateEnds(p: Piece, h: Header, y: string, follows: bool, managed: set<string>, requirement: string,
                   eol: string)
    requires h.Good() && p.block == BlockText(h, y) && Whole(p.block) && Requirement(requirement) && Eol(eol)
    requires Settled(managed, requirement, eol)(p, follows) && (follows ==> ClosesAtEnd(p.block, START))
    ensures var q := Update(p, managed, requirement, eol);
            && Whole(q.block)
            && (follows ==> ClosesAtEnd(q.block, START) && LastChar(q.block) == LastChar(p.block))
  {
    if follows {
      UpdateKeeps(p, h, y, managed, requirement, eol);
      ClosesWithBrace(p.block);
      ClosesWithBrace(Update(p, managed, requirement, eol).block);
    }
  }

  lemma UpdateMoves(p: Piece, h: Header, y: string, managed: set<string>, requirement: string, eol: string)
    requires h.Good() && p.block == BlockText(h, y) && Requirement(requirement) && Eol(eol)
    requires ClosesAtEnd(p.block, START) && ClosesAtEnd(Update(p, managed, requirement, eol).block, START)
    ensures Stale(p, managed, requirement) ==> Balanced(p.block)
  {
    if Stale(p, managed, requirement) { SetMovesBraces(h, y, requirement, eol); }
  }

  lemma PieceRest(q: Piece, r: string, lineStart: bool, name: Pattern)
    requires NextPiece(q.gap + (q.block + r), lineStart, name) == Some(q)
    ensures Whole(q.block) && (r != "" ==> ClosesAtEnd(q.block, START))
  {
    var v := q.gap + (q.block + r);
    PieceWhole(v, lineStart, name);
    assert Rest(v, q) == r;
  }

  ghost function PieceOf(u: string, lineStart: bool): Piece
    requires NextPiece(u, lineStart, DependencyName).Some?
  {
    NextPiece(u, lineStart, DependencyName).value
  }

  lemma ManifestRefinds(u: string, lineStart: bool, r: string, managed: set<string>, requirement: string, eol: string)
    requires NextPiece(u, lineStart, DependencyName).Some? && Requirement(requirement) && Eol(eol)
    requires var p := PieceOf(u, lineStart);
             Settled(managed, requirement, eol)(p, Rest(u, p) != "") && (r == "" <==> Rest(u, p) == "")
    ensures var p := PieceOf(u, lineStart);
            var q := Update(p, managed, requirement, eol);
            && NextPiece(p.gap + (q.block + r), lineStart, DependencyName) == Some(q)
            && (r != "" ==> q.block != "" && LastChar(q.block) == LastChar(p.block))
  {
    var p := PieceOf(u, lineStart);
    var q := Update(p, managed, requirement, eol);
    var h, y := PieceHeader(u, lineStart);
    PieceWhole(u, lineStart, DependencyName);
    UpdateStarts(p, h, y, managed, requirement, eol);
    UpdateEnds(p, h, y, Rest(u, p) != "", managed, requirement, eol);
    DependencyNameDecided();
    assert (h.Text() + "{")[|h.Text()|] == '{';
    PieceAgain(u, lineStart, DependencyName, h.Text() + "{", q.block, r);
  }

  lemma ManifestMisses(u: string, lineStart: bool, r: string, managed: set<string>, requirement: string, eol: string)
    requires NextPiece(u, lineStart, DependencyName).Some? && Requirement(requirement) && Eol(eol)
    requires var p := PieceOf(u, lineStart);
             var q := Update(p, managed, requirement, eol);
             (r == "" <==> Rest(u, p) == "") && NextPiece(p.gap + (q.block + r), lineStart, DependencyName) == Some(q)
    ensures var p := PieceOf(u, lineStart); Settled(managed, requirement, eol)(p, Rest(u, p) != "")
  {
    var p := PieceOf(u, lineStart);
    PieceRest(p, Rest(u, p), lineStart, DependencyName);
    PieceRest(Update(p, managed, requirement, eol), r, lineStart, DependencyName);
    if r != "" {
      var h, y := PieceHeader(u, lineStart);
      UpdateMoves(p, h, y, managed, requirement, eol);
    }
  }
}
