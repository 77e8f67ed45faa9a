/** Where a version requirement stands in a dependency block, and which blocks are reported
    (`readCargoDependencyVersionRequirement` and `collectCargoDependencyVersionMismatches`
    in scripts/lib/manifest-version.ts). */
module ManifestEntries {
  import opened Wrappers
  import opened Sequences
  import opened Text
  import opened Characters
  import opened JsonString
  import opened ManifestBlocks
  import opened ManifestRequirements
  import opened ManifestRewrite
  import opened ManifestWriter

  // ----- one entry -----

  /** The whitespace before the word, before the `=` and before the opening quote. */
  datatype Spacing = Spacing(lead: string, gap: string, space: string)

  /** `s` begins with `version = "v"`, spaced in that way; the value is not empty and ends at
      the next quote. */
  ghost predicate EntryBegins(s: string, w: Spacing, v: string, after: string) {
    && s == w.lead + ("version" + (w.gap + ("=" + (w.space + ("\"" + (v + ("\"" + after)))))))
    && All(w.lead, JsSpace) && All(w.gap, JsSpace) && All(w.space, JsSpace) && v != "" && '"' !in v
  }

  lemma EqualsSpaced(s: string) returns (gap: string, space: string)
    requires EqualsAt(s).Some?
    ensures var (v, after) := EqualsAt(s).value;
            && s == gap + ("=" + (space + ("\"" + (v + ("\"" + after)))))
            && All(gap, JsSpace) && All(space, JsSpace) && v != "" && '"' !in v
  {
    gap := AfterMarkParts(s, '=');
    space := AfterMarkParts(AfterMark(s, '=').value, '"');
    ValueParts(AfterMark(AfterMark(s, '=').value, '"').value);
  }

  lemma VersionSpaced(s: string) returns (w: Spacing)
    requires VersionAt(s).Some?
    ensures var (v, after) := VersionAt(s).value; EntryBegins(s, w, v, after)
  {
    var lead := TrimStartCuts(s, JsSpace);
    var a := TrimStart(s, JsSpace)[|VERSION|..];
    assert TrimStart(s, JsSpace) == VERSION + a;
    var gap, space := EqualsSpaced(a);
    w := Spacing(lead, gap, space);
  }

  lemma SpacedReads(w: Spacing, v: string, after: string)
    requires All(w.lead, JsSpace) && All(w.gap, JsSpace) && All(w.space, JsSpace) && v != "" && '"' !in v
    ensures VersionAt(w.lead + ("version" + (w.gap + ("=" + (w.space + ("\"" + (v + ("\"" + after)))))))) ==
      Some((v, after))
  {
    var c := v + ("\"" + after);
    ValueReads(v, after);
    AfterMarkReads(w.space, '"', c);
    AfterMarkReads(w.gap, '=', w.space + ("\"" + c));
    var a := w.gap + ("=" + (w.space + ("\"" + c)));
    assert EqualsAt(a) == Some((v, after));
    assert (VERSION + a)[0] == 'v' && !JsSpace('v');
    TrimStartSkip(w.lead, VERSION + a, JsSpace);
    assert (VERSION + a)[|VERSION|..] == a;
  }

  /** A version entry is read exactly where one is written. */
  lemma VersionEntryRead(s: string, v: string, after: string)
    ensures VersionAt(s) == Some((v, after)) <==> exists w: Spacing :: EntryBegins(s, w, v, after)
  {
    if VersionAt(s) == Some((v, after)) { var w := VersionSpaced(s); }
    if w: Spacing :| EntryBegins(s, w, v, after) { SpacedReads(w, v, after); }
  }

  // ----- the first entry of a block -----

  /** An entry may begin at `i`: at the very start, or behind a brace, a comma or a line feed. */
  ghost predicate Place(t: string, first: bool, entry: EntryPattern, i: int) {
    && 0 <= i <= |t| && entry(t[i..]).Some? && if i == 0 then first else t[i - 1] in {'{', ',', '\n'}
  }

  ghost predicate FirstPlace(t: string, first: bool, entry: EntryPattern, i: int) {
    Place(t, first, entry, i) && forall j :: j < i ==> !Place(t, first, entry, j)
  }

  /** The text split around the entry at `i`. */
  function SplitAt(t: string, entry: EntryPattern, i: nat): Hit
    requires i <= |t| && entry(t[i..]).Some?
  {
    Hit(t[..i] + TakeWhile(t[i..], JsSpace), entry(t[i..]).value.0, entry(t[i..]).value.1)
  }

  lemma PlaceShifted(t: string, first: bool, entry: EntryPattern, i: int)
    requires 1 < i <= |t|
    ensures Place(t, first, entry, i) <==> Place(t[1..], false, entry, i - 1)
  {
    assert t[i..] == t[1..][i - 1..];
  }

  lemma SplitShifted(t: string, entry: EntryPattern, i: nat)
    requires 0 < i <= |t| && entry(t[i..]).Some?
    ensures t[i..] == t[1..][i - 1..]
    ensures SplitAt(t, entry, i) ==
      SplitAt(t[1..], entry, i - 1).(before := [t[0]] + SplitAt(t[1..], entry, i - 1).before)
  {
    assert t[i..] == t[1..][i - 1..];
    assert t[..i] == [t[0]] + t[1..][..i - 1];
  }

  lemma NoPlaces(t: string, first: bool, entry: EntryPattern, n: int)
    requires t != "" && !Place(t, first, entry, 0) && !Place(t, first, entry, 1)
    requires forall j :: j < n - 1 ==> !Place(t[1..], false, entry, j)
    ensures forall j :: j < n ==> !Place(t, first, entry, j)
  {
    forall j | j < n ensures !Place(t, first, entry, j) {
      if 1 < j <= |t| { PlaceShifted(t, first, entry, j); }
    }
  }

  /** The search finds the first place, and splits the text around the entry there. */
  lemma {:induction false} FindEntryFirst(t: string, first: bool, entry: EntryPattern) returns (i: nat)
    ensures FindEntry(t, first, entry).None? ==> forall j :: !Place(t, first, entry, j)
    ensures FindEntry(t, first, entry).Some? ==>
      FirstPlace(t, first, entry, i) && FindEntry(t, first, entry) == Some(SplitAt(t, entry, i))
  {
    i := 0;
    assert t[0..] == t && t[..0] == "";
    if t != "" && !(first && entry(t).Some?) {
      if Opener(t[0]) && entry(t[1..]).Some? {
        assert t[..1] == [t[0]];
        i := 1;
      } else {
        var k := FindEntryFirst(t[1..], false, entry);
        i := k + 1;
        if FindEntry(t[1..], false, entry).Some? {
          NoPlaces(t, first, entry, i);
          if 1 < i { PlaceShifted(t, first, entry, i); }
          SplitShifted(t, entry, i);
        } else {
          NoPlaces(t, first, entry, |t| + 1);
        }
      }
    }
  }

  /** The requirement read off a block is the value of its first version entry. */
  lemma RequirementRead(block: string, v: string)
    ensures ReadRequirement(block) == Some(v) <==>
      exists i :: FirstPlace(block, true, VersionAt, i) && VersionAt(block[i..]).value.0 == v
  {
    var i := FindEntryFirst(block, true, VersionAt);
  }

  // ----- setting it -----

  /** The characters of a requirement: `~` and those of section 2, 9 and 10 of Semantic
      Versioning 2.0.0, that is ASCII letters and digits, the full stop, hyphen and plus. */
  lemma RequirementSpelled(c: char)
    ensures RequirementChar(c) <==>
      var n := c as int;
      0x30 <= n < 0x3A || 0x41 <= n < 0x5B || 0x61 <= n < 0x7B || c in {'~', '.', '-', '+'}
  {
  }

  /** The first entry is replaced where it stands, behind its own whitespace; without one a
      new entry goes behind the first opening brace: behind a blank in a block of one line,
      and else on a line of its own, indented by four more than the block. */
  lemma SetExactly(block: string, requirement: string, eol: string, i: nat, n: nat)
    requires '{' in block && i < |block| && block[i] == '{' && '{' !in block[..i]
    requires n <= |block| && All(block[..n], JsSpace) && (n < |block| ==> !JsSpace(block[n]))
    ensures (forall j :: !Place(block, true, VersionAt, j)) ==>
      SetRequirement(block, requirement, eol) == block[..i + 1]
        + ((if exists k :: 0 <= k <= |block| && eol <= block[k..] then eol + block[..n] + "    " else " ")
           + ("version = " + Quote(requirement) + ("," + block[i + 1..])))
    ensures forall j :: FirstPlace(block, true, VersionAt, j) ==>
      SetRequirement(block, requirement, eol) == block[..j]
        + TakeWhile(block[j..], JsSpace) + ("version = " + Quote(requirement) + VersionAt(block[j..]).value.1)
  {
    var k := FindEntryFirst(block, true, VersionAt);
    IncludesMeans(block, eol);
    TakeWhileStops(block[..n], block[n..], JsSpace);
    assert block == block[..n] + block[n..];
    BraceFound(block, i);
  }

  lemma {:induction false} BraceFound(t: string, i: nat)
    requires i < |t| && t[i] == '{' && '{' !in t[..i]
    ensures ThroughBrace(t) == t[..i + 1]
  {
    if i > 0 {
      assert t[0] in t[..i] && t[1..][..i - 1] == t[..i][1..];
      BraceFound(t[1..], i - 1);
      assert t[..i + 1] == [t[0]] + t[1..][..i];
    } else {
      assert t[..1] == "{";
    }
  }

  // ----- the blocks that are reported -----

  /** The word stands somewhere in the text. */
  lemma {:induction false} IncludesMeans(s: string, word: string)
    ensures Includes(s, word) <==> exists i :: 0 <= i <= |s| && word <= s[i..]
  {
    assert s[0..] == s;
    if s != "" {
      IncludesMeans(s[1..], word);
      assert forall i :: 0 < i <= |s| ==> s[i..] == s[1..][i - 1..];
      if i :| 0 <= i <= |s[1..]| && word <= s[1..][i..] { assert word <= s[i + 1..]; }
    }
  }

  /** The block is reported, under its name and with what it requires now: its dependency is
      managed, it holds a path, and it does not require what is expected. */
  ghost predicate Reports(b: Block, managed: set<string>, requirement: string, m: Mismatch) {
    && b.name in managed && (exists i :: 0 <= i <= |b.text| && "path = " <= b.text[i..])
    && ReadRequirement(b.text) != Some(requirement) && m == Mismatch(b.name, ReadRequirement(b.text))
  }

  lemma PieceReports(p: Piece, b: Block, managed: set<string>, requirement: string, m: Mismatch)
    requires b.name == p.name && b.text == p.block
    ensures Reports(b, managed, requirement, m) <==> Stale(p, managed, requirement) && m == MismatchOf(p)
  {
    IncludesMeans(b.text, "path = ");
  }

  lemma MappedFilter(pieces: seq<Piece>, stale: Piece -> bool, m: Mismatch)
    ensures m in Map(Filter(pieces, stale), MismatchOf) <==>
      exists i :: 0 <= i < |pieces| && stale(pieces[i]) && MismatchOf(pieces[i]) == m
  {
    var kept := Filter(pieces, stale);
    var reported := Map(kept, MismatchOf);
    if m in reported {
      var k :| 0 <= k < |reported| && reported[k] == m;
      assert kept[k] in kept;
      var i :| 0 <= i < |pieces| && pieces[i] == kept[k];
    }
    if i :| 0 <= i < |pieces| && stale(pieces[i]) && MismatchOf(pieces[i]) == m {
      assert pieces[i] in kept;
      var k :| 0 <= k < |kept| && kept[k] == pieces[i];
      assert reported[k] == m;
    }
  }

  /** Exactly the blocks of the file that are to be reported are. */
  lemma MismatchReported(source: string, managed: set<string>, requirement: string, m: Mismatch)
    ensures m in Mismatches(source, managed, requirement) <==>
      exists b :: b in Located(ScanManifest(source).pieces, 0) && Reports(b, managed, requirement, m)
  {
    var pieces := ScanManifest(source).pieces;
    MappedFilter(pieces, StaleTest(managed, requirement), m);
    ReportedBlocks(pieces, managed, requirement, m);
  }

  lemma ReportedBlocks(pieces: seq<Piece>, managed: set<string>, requirement: string, m: Mismatch)
    ensures (exists i :: 0 <= i < |pieces| && StaleTest(managed, requirement)(pieces[i]) && MismatchOf(pieces[i]) == m)
       <==> exists b :: b in Located(pieces, 0) && Reports(b, managed, requirement, m)
  {
    var blocks := Located(pieces, 0);
    LocatedLength(pieces, 0);
    forall i | 0 <= i < |pieces|
      ensures Reports(blocks[i], managed, requirement, m) <==>
              StaleTest(managed, requirement)(pieces[i]) && MismatchOf(pieces[i]) == m
    {
      LocatedAt(pieces, 0, i);
      PieceReports(pieces[i], blocks[i], managed, requirement, m);
    }
    if i :| 0 <= i < |pieces| && StaleTest(managed, requirement)(pieces[i]) && MismatchOf(pieces[i]) == m {
      assert blocks[i] in blocks;
    }
  }
}
