/** Guarantees of rewriting a manifest, and the loop that does it. */
module ManifestWriter {
  import opened Wrappers
  import opened Sequences
  import opened Text
  import opened Characters
  import opened ManifestBlocks
  import opened ManifestRequirements
  import opened ManifestSetting
  import opened ManifestRewrite

  /** The braces inside every version value that will be replaced cancel out; for the
      last block of a file that ends with it, its new braces do not close it before. */
  ghost predicate BracesCancel(source: string, managed: set<string>, requirement: string) {
    AllOk(ScanManifest(source), Settled(managed, requirement, EolOf(source)))
  }

  lemma EolIs(source: string)
    ensures Eol(EolOf(source))
  {
  }

  lemma UpdateNonEmpty(u: string, lineStart: bool, managed: set<string>, requirement: string, eol: string)
    requires NextPiece(u, lineStart, DependencyName).Some? && Requirement(requirement) && Eol(eol)
    ensures Update(PieceOf(u, lineStart), managed, requirement, eol).block != ""
  {
    var h, y := PieceHeader(u, lineStart);
    UpdateStarts(PieceOf(u, lineStart), h, y, managed, requirement, eol);
  }

  lemma LawRefinds(managed: set<string>, requirement: string, eol: string)
    requires Requirement(requirement) && Eol(eol)
    ensures Refinds(FinderOf(DependencyName), UpdaterOf(managed, requirement, eol), Settled(managed, requirement, eol))
  {
    var find, update := FinderOf(DependencyName), UpdaterOf(managed, requirement, eol);
    var ok := Settled(managed, requirement, eol);
    forall u, lineStart, r | Again(u, lineStart, r) && Finds(find, u, lineStart)
      ensures var p := find(u, lineStart).value;
              var q := update(p);
              && q.block != ""
              && (ok(p, Rest(u, p) != "") && (r == "" <==> Rest(u, p) == "") ==>
                   && find(p.gap + (q.block + r), lineStart) == Some(q)
                   && (r != "" ==> LastChar(q.block) == LastChar(p.block)))
    {
      var p := PieceOf(u, lineStart);
      UpdateNonEmpty(u, lineStart, managed, requirement, eol);
      if ok(p, Rest(u, p) != "") && (r == "" <==> Rest(u, p) == "") {
        ManifestRefinds(u, lineStart, r, managed, requirement, eol);
      }
    }
  }

  lemma LawMisses(managed: set<string>, requirement: string, eol: string)
    requires Requirement(requirement) && Eol(eol)
    ensures Misses(FinderOf(DependencyName), UpdaterOf(managed, requirement, eol), Settled(managed, requirement, eol))
  {
    var find, update := FinderOf(DependencyName), UpdaterOf(managed, requirement, eol);
    var ok := Settled(managed, requirement, eol);
    forall u, lineStart, r | Again(u, lineStart, r) && Finds(find, u, lineStart)
      ensures var p := find(u, lineStart).value;
              var q := update(p);
              (r == "" <==> Rest(u, p) == "") && find(p.gap + (q.block + r), lineStart) == Some(q) ==>
                ok(p, Rest(u, p) != "")
    {
      var p := PieceOf(u, lineStart);
      if (r == "" <==> Rest(u, p) == "") && find(p.gap + (update(p).block + r), lineStart) == Some(update(p)) {
        ManifestMisses(u, lineStart, r, managed, requirement, eol);
      }
    }
  }

  /** The rewritten file scans into the same names and gaps with the updated blocks if
      and only if all replaced braces cancel out in this sense. */
  lemma RewriteRescans(source: string, managed: set<string>, requirement: string)
    requires Requirement(requirement)
    ensures var l := Updated(ScanManifest(source), UpdaterOf(managed, requirement, EolOf(source)));
            ScanManifest(Written(source, managed, requirement)) == l <==> BracesCancel(source, managed, requirement)
  {
    var find, update := FinderOf(DependencyName), UpdaterOf(managed, requirement, EolOf(source));
    var ok := Settled(managed, requirement, EolOf(source));
    EolIs(source);
    LawRefinds(managed, requirement, EolOf(source));
    if AllOk(Scan(source, true, find), ok) { Rescan(source, true, find, update, ok); }
    var l := Updated(Scan(source, true, find), update);
    if Scan(TextOf(l), true, find) == l {
      LawMisses(managed, requirement, EolOf(source));
      RescanOnly(source, true, find, update, ok);
    }
  }

  // ----- no mismatch is left -----

  /** A scanned piece starts with a header and a brace. */
  lemma {:induction false} ScannedPiece(u: string, lineStart: bool, p: Piece) returns (h: Header, y: string)
    requires p in Scan(u, lineStart, FinderOf(DependencyName)).pieces
    ensures h.Good() && p.block == BlockText(h, y)
    decreases |u|
  {
    var find := FinderOf(DependencyName);
    var q := find(u, lineStart).value;
    if p == q {
      h, y := PieceHeader(u, lineStart);
    } else {
      h, y := ScannedPiece(Rest(u, q), JsLineEnd(LastChar(q.block)), p);
    }
  }

  /** An updated block is not stale. */
  lemma UpdatedFresh(p: Piece, h: Header, y: string, managed: set<string>, requirement: string, eol: string)
    requires h.Good() && p.block == BlockText(h, y) && Requirement(requirement) && Eol(eol)
    ensures !Stale(Update(p, managed, requirement, eol), managed, requirement)
  {
    SetReads(h, y, requirement, eol);
  }

  lemma NothingStale(source: string, managed: set<string>, requirement: string)
    requires Requirement(requirement) && BracesCancel(source, managed, requirement)
    ensures var t := Written(source, managed, requirement);
            forall p :: p in ScanManifest(t).pieces ==> !Stale(p, managed, requirement)
  {
    var update := UpdaterOf(managed, requirement, EolOf(source));
    var pieces := ScanManifest(source).pieces;
    RewriteRescans(source, managed, requirement);
    EolIs(source);
    forall q | q in Map(pieces, update) ensures !Stale(q, managed, requirement) {
      var i :| 0 <= i < |pieces| && q == update(pieces[i]);
      var h, y := ScannedPiece(source, true, pieces[i]);
      UpdatedFresh(pieces[i], h, y, managed, requirement, EolOf(source));
    }
  }

  /** No mismatch is reported exactly when no block is stale. */
  lemma NoMismatches(source: string, managed: set<string>, requirement: string)
    ensures Mismatches(source, managed, requirement) == [] <==>
      forall p :: p in ScanManifest(source).pieces ==> !Stale(p, managed, requirement)
  {
    var stale := Filter(ScanManifest(source).pieces, StaleTest(managed, requirement));
    if stale != [] { assert stale[0] in stale; }
  }

  lemma NothingToWrite(source: string, managed: set<string>, requirement: string)
    requires forall p :: p in ScanManifest(source).pieces ==> !Stale(p, managed, requirement)
    ensures Written(source, managed, requirement) == source
  {
    var update := UpdaterOf(managed, requirement, EolOf(source));
    var l := ScanManifest(source);
    assert forall i :: 0 <= i < |l.pieces| ==> l.pieces[i] in l.pieces;
    assert Map(l.pieces, update) == l.pieces;
    ScanKeepsText(source, true, FinderOf(DependencyName));
  }

  /** After a write the reader reports no mismatch, and a second write finds nothing to
      do and leaves the text as it is. */
  lemma WriteSettles(source: string, managed: set<string>, requirement: string)
    requires Requirement(requirement) && BracesCancel(source, managed, requirement)
    ensures var t := Written(source, managed, requirement);
            Mismatches(t, managed, requirement) == [] && Written(t, managed, requirement) == t
  {
    NothingStale(source, managed, requirement);
    NoMismatches(Written(source, managed, requirement), managed, requirement);
    NothingToWrite(Written(source, managed, requirement), managed, requirement);
  }

  /** Outside the stale blocks every character stays; inside one only the version entry
      is replaced or inserted, behind the opening brace. */
  lemma WriteIsLocal(source: string, managed: set<string>, requirement: string, i: nat)
    returns (x: Change, lead: string)
    requires Requirement(requirement) && i < |ScanManifest(source).pieces|
    ensures TextOf(ScanManifest(source)) == source
    ensures var l := Updated(ScanManifest(source), UpdaterOf(managed, requirement, EolOf(source)));
            var p := ScanManifest(source).pieces[i];
            && TextOf(l) == Written(source, managed, requirement)
            && |l.pieces| == |ScanManifest(source).pieces| && l.tail == ScanManifest(source).tail
            && l.pieces[i].gap == p.gap && l.pieces[i].name == p.name
            && (!Stale(p, managed, requirement) ==> l.pieces[i].block == p.block)
            && (Stale(p, managed, requirement) ==>
                  && p.block == x.a + (x.m + x.c) && l.pieces[i].block == x.a + (x.n + x.c)
                  && '{' in x.a && OnlyEntry(x, lead, requirement))
  {
    var p := ScanManifest(source).pieces[i];
    ScanKeepsText(source, true, FinderOf(DependencyName));
    EolIs(source);
    var h, y := ScannedPiece(source, true, p);
    x, lead := SetDescribed(h, y, requirement, EolOf(source));
    assert (h.Text() + "{")[|h.Text()|] == '{' && x.a[|h.Text()|] == '{';
  }

  // ----- the loop: blocks spliced from the last to the first -----

  lemma {:induction false} LocatedAt(pieces: seq<Piece>, offset: nat, i: nat)
    requires i < |pieces|
    ensures |Located(pieces, offset)| == |pieces|
    ensures var p := pieces[i];
            var start := offset + |PiecesText(pieces[..i])| + |p.gap|;
            Located(pieces, offset)[i] == Block(p.name, p.block, start, start + |p.block|)
  {
    var p := pieces[0];
    var end := offset + |p.gap| + |p.block|;
    if i > 0 {
      LocatedAt(pieces[1..], end, i - 1);
      assert pieces[..i] == [p] + pieces[1..][..i - 1];
      PiecesTextCons(p, pieces[1..][..i - 1]);
    } else if |pieces| > 1 {
      LocatedAt(pieces[1..], end, 0);
    }
  }

  lemma LocatedLength(pieces: seq<Piece>, offset: nat)
    ensures |Located(pieces, offset)| == |pieces|
  {
    if pieces != [] { LocatedAt(pieces, offset, 0); }
  }

  lemma {:induction false} PiecesTextSnoc(pieces: seq<Piece>, i: nat)
    requires i < |pieces|
    ensures PiecesText(pieces[..i + 1]) == PiecesText(pieces[..i]) + (pieces[i].gap + pieces[i].block)
  {
    var p := pieces[0];
    if i == 0 {
      assert pieces[..1] == [p] + [];
      PiecesTextCons(p, []);
      assert pieces[..0] == [];
    } else {
      PiecesTextSnoc(pieces[1..], i - 1);
      assert pieces[..i + 1] == [p] + pieces[1..][..i] && pieces[..i] == [p] + pieces[1..][..i - 1];
      PiecesTextCons(p, pieces[1..][..i]);
      PiecesTextCons(p, pieces[1..][..i - 1]);
    }
  }

  /** The file after the pieces from `i` on were updated. */
  ghost function Spliced(l: Layout, update: Updater, i: nat): string
    requires i <= |l.pieces|
  {
    PiecesText(l.pieces[..i]) + TextOf(Updated(Layout(l.pieces[i..], l.tail), update))
  }

  lemma SplicedEnds(l: Layout, update: Updater)
    ensures Spliced(l, update, |l.pieces|) == TextOf(l)
    ensures Spliced(l, update, 0) == TextOf(Updated(l, update))
  {
    assert l.pieces[..|l.pieces|] == l.pieces && l.pieces[|l.pieces|..] == [];
    assert l.pieces[..0] == [] && l.pieces[0..] == l.pieces;
    assert Layout(l.pieces, l.tail) == l;
  }

  /** One splice moves the boundary one block to the left. */
  lemma SplicedStep(l: Layout, update: Updater, i: nat)
    requires i < |l.pieces| && update(l.pieces[i]).gap == l.pieces[i].gap
    ensures var p := l.pieces[i];
            var start := |PiecesText(l.pieces[..i])| + |p.gap|;
            var end := start + |p.block|;
            var text := Spliced(l, update, i + 1);
            && end <= |text|
            && text[start..end] == p.block
            && Spliced(l, update, i) == text[..start] + update(p).block + text[end..]
  {
    var p := l.pieces[i];
    var q := update(p);
    var a := PiecesText(l.pieces[..i]);
    var s := TextOf(Updated(Layout(l.pieces[i + 1..], l.tail), update));
    PiecesTextSnoc(l.pieces, i);
    assert l.pieces[i..] == [p] + l.pieces[i + 1..];
    UpdatedCons(p, Layout(l.pieces[i + 1..], l.tail), update);
    SpliceText(a, p.gap, p.block, q.block, s);
  }

  lemma SpliceText(a: string, gap: string, block: string, next: string, s: string)
    ensures var text := (a + (gap + block)) + s;
            var start := |a| + |gap|;
            && text[start..start + |block|] == block
            && text[..start] + next + text[start + |block|..] == a + (gap + (next + s))
  {
    var text := (a + (gap + block)) + s;
    var start := |a| + |gap|;
    assert text[..start] == a + gap && text[start + |block|..] == s;
  }

  lemma CountStep(pieces: seq<Piece>, i: nat, stale: Piece -> bool)
    requires i < |pieces|
    ensures |Filter(pieces[i..], stale)| == (if stale(pieces[i]) then 1 else 0) + |Filter(pieces[i + 1..], stale)|
  {
    assert pieces[i..] == [pieces[i]] + pieces[i + 1..];
    FilterConcat([pieces[i]], pieces[i + 1..], stale);
    assert [pieces[i]][..0] == [];
  }

  ghost predicate Braced(l: Layout) { forall p :: p in l.pieces ==> '{' in p.block }

  lemma TurnAt(l: Layout, i: nat, update: Updater)
    requires i < |l.pieces| && update(l.pieces[i]).gap == l.pieces[i].gap
    ensures |Located(l.pieces, 0)| == |l.pieces|
    ensures var p, b := l.pieces[i], Located(l.pieces, 0)[i];
            var text := Spliced(l, update, i + 1);
            && b.name == p.name && b.text == p.block && b.start <= b.end <= |text|
            && text[..b.start] + p.block + text[b.end..] == text
            && Spliced(l, update, i) == text[..b.start] + update(p).block + text[b.end..]
  {
    LocatedAt(l.pieces, 0, i);
    SplicedStep(l, update, i);
    var b, text := Located(l.pieces, 0)[i], Spliced(l, update, i + 1);
    assert text == text[..b.start] + text[b.start..b.end] + text[b.end..];
  }

  /** What one turn of the loop has to do. */
  lemma Turn(l: Layout, i: nat, managed: set<string>, requirement: string, eol: string)
    requires i < |l.pieces| && Braced(l)
    ensures |Located(l.pieces, 0)| == |l.pieces| && '{' in l.pieces[i].block
    ensures var p, b, update := l.pieces[i], Located(l.pieces, 0)[i], UpdaterOf(managed, requirement, eol);
            var text := Spliced(l, update, i + 1);
            && b.name == p.name && b.text == p.block && b.start <= b.end <= |text|
            && Spliced(l, update, i) ==
               if Stale(p, managed, requirement)
               then text[..b.start] + SetRequirement(b.text, requirement, eol) + text[b.end..] else text
  {
    assert l.pieces[i] in l.pieces;
    TurnAt(l, i, UpdaterOf(managed, requirement, eol));
  }

  /** Splicing the stale blocks from the last to the first, each at the offsets of the
      original text, is the same as updating all blocks at once. */
  method SpliceBlocks(source: string, blocks: seq<Block>, managed: set<string>, requirement: string, eol: string,
                      ghost l: Layout) returns (text: string, count: nat)
    requires Braced(l) && source == TextOf(l) && blocks == Located(l.pieces, 0)
    ensures text == TextOf(Updated(l, UpdaterOf(managed, requirement, eol)))
    ensures count == |Filter(l.pieces, StaleTest(managed, requirement))|
  {
    ghost var update, stale := UpdaterOf(managed, requirement, eol), StaleTest(managed, requirement);
    LocatedLength(l.pieces, 0);
    SplicedEnds(l, update);
    text := source;
    count := 0;
    var i := |blocks|;
    while i > 0
      invariant 0 <= i <= |blocks| == |l.pieces|
      invariant text == Spliced(l, update, i)
      invariant count == |Filter(l.pieces[i..], stale)|
    {
      i := i - 1;
      Turn(l, i, managed, requirement, eol);
      CountStep(l.pieces, i, stale);
      var block := blocks[i];
      if !(block.name in managed) || !Includes(block.text, "path = ") {
        continue;
      }
      if ReadRequirement(block.text) == Some(requirement) {
        continue;
      }
      text := text[..block.start] + SetRequirement(block.text, requirement, eol) + text[block.end..];
      count := count + 1;
    }
    assert l.pieces[0..] == l.pieces;
  }

  /** The written text is the simultaneous update of all stale blocks, and the count the
      number of mismatches there were. */
  method WriteRequirements(source: string, managed: set<string>, requirement: string) returns (text: string, count: nat)
    requires Requirement(requirement)
    ensures text == Written(source, managed, requirement)
    ensures count == |Mismatches(source, managed, requirement)|
  {
    ghost var l := ScanManifest(source);
    var blocks := CollectBlocks(source, DependencyName, FinderOf(DependencyName));
    ScanKeepsText(source, true, FinderOf(DependencyName));
    forall p | p in l.pieces ensures '{' in p.block {
      var h, y := ScannedPiece(source, true, p);
      OpeningIs(h, y);
    }
    text, count := SpliceBlocks(source, blocks, managed, requirement, EolOf(source), l);
  }
}
