/** What the dependency scanner finds in a Cargo manifest, said in characters and positions
    (scripts/lib/manifest-version.ts). */
module ManifestReading {
  import opened Wrappers
  import opened Text
  import opened Characters
  import opened ManifestBlocks

  // ----- a block's header -----

  /** `u` begins with whitespace, the name of a managed dependency, `=` and an opening
      brace, with whitespace around the `=`. */
  ghost predicate StartsBlock(u: string, h: Header, y: string) {
    && u == h.indent + ("securitydept-" + (h.rest + (h.gap + ("=" + (h.lead + ("{" + y))))))
    && All(h.indent, JsSpace) && All(h.gap, JsSpace) && All(h.lead, JsSpace) && h.rest != ""
    && forall i :: 0 <= i < |h.rest| ==>
         var c := h.rest[i]; 'A' <= c <= 'Z' || 'a' <= c <= 'z' || '0' <= c <= '9' || c == '-'
  }

  /** A dependency name is read exactly off such a header. */
  lemma DependencyNameRead(u: string, n: string)
    ensures DependencyName(u) == Some(n) <==>
      exists h: Header, y :: StartsBlock(u, h, y) && n == "securitydept-" + h.rest
  {
    if DependencyName(u).Some? {
      var h, y := HeaderOf(u);
      HeaderText(h, y);
      assert StartsBlock(u, h, y);
    }
    forall h: Header, y | StartsBlock(u, h, y) ensures DependencyName(u) == Some("securitydept-" + h.rest) {
      HeaderSpelled(h);
      HeaderText(h, y);
      HeaderRead(h, y);
    }
  }

  lemma HeaderSpelled(h: Header)
    requires All(h.indent, JsSpace) && All(h.gap, JsSpace) && All(h.lead, JsSpace) && h.rest != ""
    requires forall i :: 0 <= i < |h.rest| ==>
               var c := h.rest[i]; 'A' <= c <= 'Z' || 'a' <= c <= 'z' || '0' <= c <= '9' || c == '-'
    ensures h.Good()
  {
  }

  // ----- where a block starts -----

  /** Position `i` is at the start of a line of JavaScript and matches the pattern there. */
  ghost predicate StartAt(u: string, lineStart: bool, name: Pattern, i: int) {
    && 0 <= i < |u| && name(u[i..]).Some?
    && if i == 0 then lineStart else u[i - 1] in {'\n', '\r', '\U{2028}', '\U{2029}'}
  }

  /** The search returns the first such position. */
  lemma {:induction false} FindStartFirst(u: string, lineStart: bool, name: Pattern)
    ensures var r := FindStart(u, lineStart, name);
      && (r.Some? ==> StartAt(u, lineStart, name, r.value))
      && forall j :: StartAt(u, lineStart, name, j) ==> r.Some? && r.value <= j
  {
    if u != "" && !(lineStart && name(u).Some?) {
      var v, ls := u[1..], JsLineEnd(u[0]);
      FindStartFirst(v, ls, name);
      assert u[0..] == u;
      forall j | 0 < j < |u| ensures StartAt(u, lineStart, name, j) <==> StartAt(v, ls, name, j - 1) {
        assert u[j..] == v[j - 1..];
      }
    } else if u != "" {
      assert u[0..] == u;
    }
  }

  // ----- where a block ends -----

  /** The block that begins `u` ends after `k` characters: with a closing brace that
      balances the opening ones so far. */
  ghost predicate EndsAt(u: string, k: int) {
    && 0 < k <= |u| && u[k - 1] == '}' && '{' in u[..k]
    && multiset(u[..k])['{'] == multiset(u[..k])['}']
  }

  /** The scanner's state after a text in which no block has ended yet. */
  ghost predicate Counted(s: string, b: Braces) {
    b == Open(multiset(s)['{'] as int - multiset(s)['}'] as int, '{' in s)
  }

  lemma CountedStep(u: string, k: nat, b: Braces)
    requires k < |u| && Counted(u[..k], b)
    ensures FeedChar(b, u[k]).Closed? <==> EndsAt(u, k + 1)
    ensures FeedChar(b, u[k]).Open? ==> Counted(u[..k + 1], FeedChar(b, u[k]))
  {
    assert u[..k + 1] == u[..k] + [u[k]];
  }

  /** From a position where the block is still open, the rest runs to its first end, or
      to the end of the text. */
  lemma {:induction false} BlockLengthFrom(u: string, k: nat, b: Braces)
    requires k <= |u| && Counted(u[..k], b) && forall j :: j <= k ==> !EndsAt(u, j)
    ensures var n := k + BlockLength(u[k..], b);
      && (EndsAt(u, n) || n == |u|) && forall j :: j < n ==> !EndsAt(u, j)
    decreases |u| - k
  {
    if k < |u| {
      assert u[k..][0] == u[k] && u[k..][1..] == u[k + 1..];
      CountedStep(u, k, b);
      var b2 := FeedChar(b, u[k]);
      if b2.Open? { BlockLengthFrom(u, k + 1, b2); }
    }
  }

  /** A block is the text through its first balancing brace, or all of it if there is none. */
  lemma BlockEndsFirst(u: string)
    ensures var n := BlockLength(u, START);
      && (EndsAt(u, n) || n == |u|) && forall j :: j < n ==> !EndsAt(u, j)
  {
    assert u[0..] == u && u[..0] == "";
    BlockLengthFrom(u, 0, START);
  }

  // ----- every header is found -----

  /** The block holds the position, and starts there only under that name. */
  predicate Covers(b: Block, i: nat, n: string) { b.start <= i < b.end && (b.start == i ==> b.name == n) }

  lemma StartAtShifted(source: string, from: nat, name: Pattern, i: nat)
    requires from <= i < |source|
    ensures StartAt(source, true, name, i) <==>
            StartAt(source[from..], LineStartAt(source, from), name, i - from)
  {
    assert source[i..] == source[from..][i - from..];
  }

  /** A block of the file by the pattern: where it starts, its name, its text, its length. */
  ghost predicate Recorded(source: string, name: Pattern, b: Block) {
    && b.start < b.end <= |source| && StartAt(source, true, name, b.start)
    && name(source[b.start..]) == Some(b.name) && b.text == source[b.start..b.end]
    && b.end - b.start == BlockLength(source[b.start..], START)
  }

  lemma PieceFound(u: string, lineStart: bool, name: Pattern, find: Finder) returns (k: nat, n: nat)
    requires Implements(find, name) && FindStart(u, lineStart, name).Some?
    ensures FindStart(u, lineStart, name) == Some(k) && n == BlockLength(u[k..], START) && 0 < n
    ensures find(u, lineStart) == Some(Piece(u[..k], name(u[k..]).value, u[k..k + n]))
  {
    k := FindStart(u, lineStart, name).value;
    n := BlockLength(u[k..], START);
    assert find(u, lineStart) == NextPiece(u, lineStart, name);
  }

  lemma NextStarts(source: string, from: nat, name: Pattern, k: nat)
    requires from <= |source| && FindStart(source[from..], LineStartAt(source, from), name) == Some(k)
    ensures from + k < |source| && StartAt(source, true, name, from + k)
    ensures forall i :: from <= i && StartAt(source, true, name, i) ==> from + k <= i
  {
    FindStartFirst(source[from..], LineStartAt(source, from), name);
    StartAtShifted(source, from, name, from + k);
    forall i: nat | from <= i && StartAt(source, true, name, i) ensures from + k <= i {
      StartAtShifted(source, from, name, i);
    }
  }

  lemma LocatedAt(source: string, from: nat, find: Finder, k: nat, n: nat, name: string) returns (b: Block)
    requires 0 < n && from + k + n <= |source|
    requires var u := source[from..];
      find(u, LineStartAt(source, from)) == Some(Piece(u[..k], name, u[k..k + n]))
    ensures b == Block(name, source[from + k..from + k + n], from + k, from + k + n)
    ensures Locates(source, from, find, Some(b))
  {
    SliceOfTail(source, from, k, n);
    b := Block(name, source[from + k..from + k + n], from + k, from + k + n);
  }

  /** What the next block is, from any position where the scan resumes. */
  lemma NextFound(source: string, from: nat, name: Pattern, find: Finder, k: nat) returns (b: Block)
    requires Implements(find, name) && from <= |source|
    requires FindStart(source[from..], LineStartAt(source, from), name) == Some(k)
    ensures b.start == from + k && Locates(source, from, find, Some(b))
    ensures name(source[b.start..]) == Some(b.name) && b.end - b.start == BlockLength(source[b.start..], START)
  {
    var _, n := PieceFound(source[from..], LineStartAt(source, from), name, find);
    SliceOfTail(source, from, k, 0);
    b := LocatedAt(source, from, find, k, n, name(source[from + k..]).value);
  }

  lemma TurnFinds(source: string, from: nat, name: Pattern, find: Finder, k: nat) returns (b: Block)
    requires Implements(find, name) && from <= |source|
    requires FindStart(source[from..], LineStartAt(source, from), name) == Some(k)
    ensures b.start == from + k && Recorded(source, name, b)
    ensures Remaining(source, from, find) == [b] + Remaining(source, b.end, find)
  {
    b := NextFound(source, from, name, find, k);
    RemainingLocated(source, from, find, Some(b));
    NextStarts(source, from, name, k);
  }

  /** One turn of the scan: nothing is left, or the first block that is. */
  lemma ScanTurn(source: string, from: nat, name: Pattern, find: Finder) returns (b: Option<Block>)
    requires Implements(find, name) && from <= |source|
    ensures b.None? ==> Remaining(source, from, find) == []
    ensures b.None? ==> forall i :: from <= i ==> !StartAt(source, true, name, i)
    ensures b.Some? ==> Recorded(source, name, b.value) && from <= b.value.start
    ensures b.Some? ==> Remaining(source, from, find) == [b.value] + Remaining(source, b.value.end, find)
    ensures b.Some? ==> forall i :: from <= i && StartAt(source, true, name, i) ==> b.value.start <= i
  {
    var start := FindStart(source[from..], LineStartAt(source, from), name);
    if start.None? {
      NothingFound(source[from..], LineStartAt(source, from), name, find);
      RemainingNone(source, from, find);
      NoneLeft(source, from, name);
      b := None;
    } else {
      var found := TurnFinds(source, from, name, find, start.value);
      NextStarts(source, from, name, start.value);
      b := Some(found);
    }
  }

  lemma NothingFound(u: string, lineStart: bool, name: Pattern, find: Finder)
    requires Implements(find, name) && FindStart(u, lineStart, name).None?
    ensures find(u, lineStart).None?
  {
    assert find(u, lineStart) == NextPiece(u, lineStart, name);
  }

  lemma NoneLeft(source: string, from: nat, name: Pattern)
    requires from <= |source| && FindStart(source[from..], LineStartAt(source, from), name).None?
    ensures forall i :: from <= i ==> !StartAt(source, true, name, i)
  {
    FindStartFirst(source[from..], LineStartAt(source, from), name);
    forall i: nat | from <= i < |source| ensures !StartAt(source, true, name, i) {
      StartAtShifted(source, from, name, i);
    }
  }

  /** Some of the blocks covers the position. */
  ghost predicate SomeCovers(bs: seq<Block>, i: nat, n: string) {
    exists k :: 0 <= k < |bs| && Covers(bs[k], i, n)
  }

  lemma SomeCoversCons(b: Block, bs: seq<Block>, i: nat, n: string)
    requires Covers(b, i, n) || SomeCovers(bs, i, n)
    ensures SomeCovers([b] + bs, i, n)
  {
    var all := [b] + bs;
    if SomeCovers(bs, i, n) {
      var k :| 0 <= k < |bs| && Covers(bs[k], i, n);
      assert all[k + 1] == bs[k];
    } else {
      assert all[0] == b;
    }
  }

  lemma {:induction false} RemainingCovers(source: string, from: nat, name: Pattern, find: Finder, i: nat)
    requires Implements(find, name) && from <= i && StartAt(source, true, name, i)
    ensures SomeCovers(Remaining(source, from, find), i, name(source[i..]).value)
    decreases |source| - from
  {
    var turn := ScanTurn(source, from, name, find);
    var b := turn.value;
    if b.end <= i { RemainingCovers(source, b.end, name, find, i); }
    SomeCoversCons(b, Remaining(source, b.end, find), i, name(source[i..]).value);
  }

  lemma ScanIsRemaining(source: string, find: Finder)
    ensures Remaining(source, 0, find) == Located(Scan(source, true, find).pieces, 0)
  {
    assert source[0..] == source;
  }

  /** No header at the start of a line is missed: it starts a block of its name, or stands
      inside another block. */
  lemma EveryHeaderFound(source: string, i: nat, n: string, name: Pattern, find: Finder)
    requires Implements(find, name) && i < |source| && name(source[i..]) == Some(n)
    requires i == 0 || source[i - 1] in {'\n', '\r', '\U{2028}', '\U{2029}'}
    ensures SomeCovers(Located(Scan(source, true, find).pieces, 0), i, n)
  {
    ScanIsRemaining(source, find);
    RemainingCovers(source, 0, name, find, i);
  }

  /** A recorded block starts with its header at the start of a line and runs through the
      first brace that balances it, or to the end of the file. */
  ghost predicate TrueBlock(source: string, name: Pattern, b: Block) {
    && b.start < b.end <= |source| && StartAt(source, true, name, b.start)
    && name(source[b.start..]) == Some(b.name) && b.text == source[b.start..b.end]
    && (EndsAt(source[b.start..], b.end - b.start) || b.end == |source|)
    && forall j :: j < b.end - b.start ==> !EndsAt(source[b.start..], j)
  }

  ghost predicate AllTrue(source: string, name: Pattern, bs: seq<Block>) {
    forall k :: 0 <= k < |bs| ==> TrueBlock(source, name, bs[k])
  }

  lemma {:induction false} RemainingTrue(source: string, from: nat, name: Pattern, find: Finder)
    requires Implements(find, name) && from <= |source|
    ensures AllTrue(source, name, Remaining(source, from, find))
    decreases |source| - from
  {
    var b := ScanTurn(source, from, name, find);
    if b.Some? {
      RecordedTrue(source, name, b.value);
      RemainingTrue(source, b.value.end, name, find);
      AllTrueCons(source, name, b.value, Remaining(source, b.value.end, find));
    }
  }

  lemma AllTrueCons(source: string, name: Pattern, b: Block, bs: seq<Block>)
    requires TrueBlock(source, name, b) && AllTrue(source, name, bs)
    ensures AllTrue(source, name, [b] + bs)
  {
  }

  lemma RecordedTrue(source: string, name: Pattern, b: Block)
    requires Recorded(source, name, b)
    ensures TrueBlock(source, name, b)
  {
    BlockEndsFirst(source[b.start..]);
  }

  lemma EveryBlockTrue(source: string, name: Pattern, find: Finder)
    requires Implements(find, name)
    ensures AllTrue(source, name, Located(Scan(source, true, find).pieces, 0))
  {
    ScanIsRemaining(source, find);
    RemainingTrue(source, 0, name, find);
  }

  /** The header of that dependency stands at the start of a line. */
  predicate HeaderAt(source: string, i: nat, n: string) {
    && i < |source| && (i == 0 || source[i - 1] in {'\n', '\r', '\U{2028}', '\U{2029}'})
    && DependencyName(source[i..]) == Some(n)
  }

  /** The manifest scanner misses no header at the start of a line, and records nothing else. */
  lemma ManifestScanned(source: string, i: nat, n: string)
    ensures AllTrue(source, DependencyName, Located(ScanManifest(source).pieces, 0))
    ensures HeaderAt(source, i, n) ==> SomeCovers(Located(ScanManifest(source).pieces, 0), i, n)
  {
    var name, find := DependencyName, FinderOf(DependencyName);
    EveryBlockTrue(source, name, find);
    if HeaderAt(source, i, n) { EveryHeaderFound(source, i, n, name, find); }
  }
}
