/** Reading and setting the version requirement inside one dependency block
    (`readCargoDependencyVersionRequirement` and `setCargoDependencyVersionRequirement`
    in scripts/lib/manifest-version.ts). */
module ManifestRequirements {
  import opened Wrappers
  import opened Text
  import opened Characters
  import opened JsonString
  import opened ManifestBlocks

  // ----- reading -----

  const VERSION := "version"

  predicate NotQuote(c: char) { c != '"' }

  /** The value that ends at the next quote, and what follows that quote. */
  function ValueAt(s: string): Option<(string, string)> {
    var v := TakeWhile(s, NotQuote);
    if v == "" || |v| == |s| then None else Some((v, s[|v| + 1..]))
  }

  function QuoteAt(s: string): Option<(string, string)> {
    var a := AfterMark(s, '"');
    if a.None? then None else ValueAt(a.value)
  }

  function EqualsAt(s: string): Option<(string, string)> {
    var a := AfterMark(s, '=');
    if a.None? then None else QuoteAt(a.value)
  }

  /** `version = "value"` at the start of `s`, with whitespace allowed everywhere. */
  function VersionAt(s: string): Option<(string, string)> {
    var a := TrimStart(s, JsSpace);
    if !(VERSION <= a) then None else EqualsAt(a[|VERSION|..])
  }

  /** A version entry: what stands before the word `version`, the value, and what
      stands after the closing quote. */
  datatype Hit = Hit(before: string, value: string, after: string)

  /** The characters a version entry may follow. */
  predicate Opener(c: char) { c == '{' || c == ',' || c == '\n' }

  function HitAt(lead: string, s: string, entry: (string, string)): Hit {
    Hit(lead + TakeWhile(s, JsSpace), entry.0, entry.1)
  }

  /** An entry at the start of a text: its value and what follows it. */
  type EntryPattern = string -> Option<(string, string)>

  /** The leftmost entry; it may also stand at the very start if `first`. */
  function FindEntry(t: string, first: bool, entry: EntryPattern): Option<Hit> {
    if first && entry(t).Some? then Some(HitAt("", t, entry(t).value))
    else if t == "" then None
    else if Opener(t[0]) && entry(t[1..]).Some? then Some(HitAt([t[0]], t[1..], entry(t[1..]).value))
    else
      var h := FindEntry(t[1..], false, entry);
      if h.None? then None else Some(h.value.(before := [t[0]] + h.value.before))
  }

  function ReadRequirement(block: string): Option<string> {
    var h := FindEntry(block, true, VersionAt);
    if h.None? then None else Some(h.value.value)
  }

  // ----- setting -----

  function Entry(requirement: string): string { "version = " + Quote(requirement) }

  /** The text through the first opening brace. */
  function ThroughBrace(t: string): (r: string)
    requires '{' in t
    ensures r <= t && r != "" && r[|r| - 1] == '{' && '{' !in r[..|r| - 1]
  {
    if t[0] == '{' then "{" else [t[0]] + ThroughBrace(t[1..])
  }

  /** What stands between the opening brace and a new entry: a space, or a line break
      and the block's own indentation and four more spaces. */
  function EntryIndent(block: string, eol: string): string {
    if !Includes(block, eol) then " " else eol + TakeWhile(block, JsSpace) + "    "
  }

  function SetRequirement(block: string, requirement: string, eol: string): string
    requires '{' in block
  {
    var h := FindEntry(block, true, VersionAt);
    if h.Some? then h.value.before + (Entry(requirement) + h.value.after)
    else
      var opening := ThroughBrace(block);
      opening + (EntryIndent(block, eol) + (Entry(requirement) + ("," + block[|opening|..])))
  }

  /** Requirements as the callers build them: `~` and a semantic version. */
  predicate RequirementChar(c: char) {
    'A' <= c <= 'Z' || 'a' <= c <= 'z' || '0' <= c <= '9' || c == '.' || c == '-' || c == '+' || c == '~'
  }

  ghost predicate Requirement(r: string) { r != "" && All(r, RequirementChar) }

  // ----- the shape of an entry -----

  lemma ValueParts(s: string)
    requires ValueAt(s).Some?
    ensures var (v, after) := ValueAt(s).value; s == v + ("\"" + after) && None_(v, c => c == '"') && v != ""
  {
    TakeWhileCuts(s, NotQuote);
    var v := TakeWhile(s, NotQuote);
    assert s == v + ([s[|v|]] + s[|v| + 1..]);
  }

  lemma EqualsParts(s: string) returns (mid: string)
    requires EqualsAt(s).Some?
    ensures var (v, after) := EqualsAt(s).value;
            && s == mid + ("\"" + (v + ("\"" + after)))
            && None_(mid, Structural)
  {
    var w := AfterMarkParts(s, '=');
    var b := AfterMark(s, '=').value;
    var x := AfterMarkParts(b, '"');
    ValueParts(AfterMark(b, '"').value);
    mid := w + ("=" + x);
    SpacePlain(w);
    SpacePlain(x);
    AllConcat("=", x, Structural);
    AllConcat(w, "=" + x, Structural);
  }

  lemma SpacePlain(w: string)
    requires All(w, JsSpace)
    ensures None_(w, Structural)
  {
  }

  /** Between the word and the value there is only whitespace, `=` and a quote. */
  lemma VersionParts(s: string) returns (lead: string, mid: string)
    requires VersionAt(s).Some?
    ensures var (v, after) := VersionAt(s).value;
            && s == lead + (VERSION + (mid + ("\"" + (v + ("\"" + after)))))
            && lead == TakeWhile(s, JsSpace) && All(lead, JsSpace) && None_(mid, Structural)
  {
    lead := TakeWhile(s, JsSpace);
    TakeThenTrim(s, JsSpace);
    TakeWhileCuts(s, JsSpace);
    var a := TrimStart(s, JsSpace)[|VERSION|..];
    assert TrimStart(s, JsSpace) == VERSION + a;
    mid := EqualsParts(a);
  }

  lemma ValueReads(v: string, after: string)
    requires v != "" && None_(v, c => c == '"')
    ensures ValueAt(v + ("\"" + after)) == Some((v, after))
  {
    TakeWhileStops(v, "\"" + after, NotQuote);
    assert (v + ("\"" + after))[|v| + 1..] == after;
  }

  lemma {:induction false} EscapeRequirement(r: string)
    requires All(r, RequirementChar)
    ensures Escape(r) == r
  {
    if r != "" {
      assert RequirementChar(r[0]);
      EscapeRequirement(r[1..]);
      assert r == [r[0]] + r[1..];
    }
  }

  lemma EqualsReads(requirement: string, after: string)
    requires requirement != "" && None_(requirement, c => c == '"')
    ensures EqualsAt(" " + ("=" + (" " + ("\"" + (requirement + ("\"" + after)))))) == Some((requirement, after))
  {
    var c := requirement + ("\"" + after);
    ValueReads(requirement, after);
    AfterMarkReads(" ", '"', c);
    AfterMarkReads(" ", '=', " " + ("\"" + c));
  }

  lemma EntryText(requirement: string, after: string)
    requires Requirement(requirement)
    ensures Entry(requirement) + after == VERSION + (" " + ("=" + (" " + ("\"" + (requirement + ("\"" + after))))))
  {
    EscapeRequirement(requirement);
  }

  /** An entry that was written is read back. */
  lemma EntryReads(lead: string, requirement: string, after: string)
    requires All(lead, JsSpace) && Requirement(requirement)
    ensures VersionAt(lead + (Entry(requirement) + after)) == Some((requirement, after))
    ensures TakeWhile(lead + (Entry(requirement) + after), JsSpace) == lead
  {
    assert !RequirementChar('"');
    var a := " " + ("=" + (" " + ("\"" + (requirement + ("\"" + after)))));
    EntryText(requirement, after);
    EqualsReads(requirement, after);
    assert (VERSION + a)[0] == 'v' && !JsSpace('v');
    TrimStartSkip(lead, VERSION + a, JsSpace);
    TakeWhileStops(lead, VERSION + a, JsSpace);
    assert (VERSION + a)[|VERSION|..] == a;
  }

  // ----- no entry stands in a header -----

  lemma VersionMark(s: string) returns (k: string, z: string)
    requires VersionAt(s).Some?
    ensures s == k + (['"'] + z) && None_(k, Structural)
  {
    var lead, mid := VersionParts(s);
    var (v, after) := VersionAt(s).value;
    z := v + ("\"" + after);
    k := MarkPlain(lead, mid, z);
  }

  lemma MarkPlain(lead: string, mid: string, z: string) returns (k: string)
    requires All(lead, JsSpace) && None_(mid, Structural)
    ensures None_(k, Structural) && lead + (VERSION + (mid + (['"'] + z))) == k + (['"'] + z)
  {
    k := lead + (VERSION + mid);
    SpacePlain(lead);
    assert None_(VERSION, Structural);
    AllConcat(VERSION, mid, Structural);
    AllConcat(lead, VERSION + mid, Structural);
  }

  lemma NoVersionBeforeBrace(x: string, y: string)
    requires None_(x, Structural)
    ensures VersionAt(x + ("{" + y)).None?
  {
    var s := x + ("{" + y);
    if VersionAt(s).Some? {
      var k, z := VersionMark(s);
      FirstMark(k, '"', z, x, '{', y, Structural);
    }
  }

  function Prefixed(x: string, h: Option<Hit>): Option<Hit> {
    if h.None? then None else Some(h.value.(before := x + h.value.before))
  }

  lemma {:induction false} SkipHeader(x: string, u: string, first: bool, entry: EntryPattern)
    requires forall k :: 0 <= k <= |x| ==> entry(x[k..] + u).None?
    ensures FindEntry(x + u, first, entry) == Prefixed(x, FindEntry(u, false, entry))
  {
    var t := x + u;
    var h := FindEntry(u, false, entry);
    assert x[0..] == x;
    if x == "" {
      assert t == u;
      if h.Some? { assert x + h.value.before == h.value.before; }
    } else {
      assert t[1..] == x[1..] + u;
      forall k | 0 <= k <= |x[1..]| ensures entry(x[1..][k..] + u).None? { assert x[1..][k..] == x[k + 1..]; }
      assert x[1..][0..] == x[1..];
      SkipHeader(x[1..], u, false, entry);
      if h.Some? { assert [x[0]] + (x[1..] + h.value.before) == x + h.value.before; }
    }
  }

  // ----- replacing an entry leaves it the leftmost one -----

  /** The last character of `b` that is not whitespace, or one before it, is an opener
      and only whitespace follows it. */
  ghost predicate Led(b: string, i: nat) { i < |b| && Opener(b[i]) && All(b[i + 1..], JsSpace) }

  /** Text that starts with the word `version` and has a quote later on. */
  ghost predicate Quoted(z: string) { VERSION <= z && '"' in z }

  lemma ValueKept(b: string, y: string, z: string)
    requires b != "" && '"' in z
    requires ValueAt(b + y).Some?
    ensures ValueAt(b + z).Some?
  {
    TakeWhileCuts(b + z, NotQuote);
    var v := TakeWhile(b + z, NotQuote);
    assert (b + z)[0] == (b + y)[0];
    var j :| 0 <= j < |z| && z[j] == '"';
    assert (b + z)[|b| + j] == '"' && !NotQuote('"');
    assert forall i :: 0 <= i < |v| ==> NotQuote((b + z)[i]);
  }

  /** Skipping whitespace in front of `b` stops before its opener. */
  lemma LedSkip(b: string, i: nat) returns (k: nat)
    requires Led(b, i) && !All(b, JsSpace)
    ensures k <= i && TrimStart(b, JsSpace) == b[k..] && All(b[..k], JsSpace) && !JsSpace(b[k])
  {
    var lead := TrimStartCuts(b, JsSpace);
    k := |lead|;
    assert b[..k] == lead && b[k..] == TrimStart(b, JsSpace);
    assert TrimStart(b, JsSpace) == "" ==> b == lead;
    forall m | i < m < |b| ensures JsSpace(b[m]) { assert b[m] == b[i + 1..][m - i - 1]; }
  }

  lemma MarkKept(b: string, i: nat, y: string, z: string, c: char) returns (r: string, j: nat)
    requires Led(b, i) && c != 'v' && !Opener(c) && VERSION <= y && AfterMark(b + y, c).Some?
    ensures Led(r, j) && AfterMark(b + y, c) == Some(r + y) && AfterMark(b + z, c) == Some(r + z)
  {
    if All(b, JsSpace) {
      assert y[0] == 'v' && !JsSpace('v');
      TrimStartSkip(b, y, JsSpace);
    }
    var k := LedSkip(b, i);
    assert b + y == b[..k] + (b[k..] + y) && b + z == b[..k] + (b[k..] + z);
    TrimStartSkip(b[..k], b[k..] + y, JsSpace);
    TrimStartSkip(b[..k], b[k..] + z, JsSpace);
    assert b[k] == c;
    r, j := b[k + 1..], i - k - 1;
    assert (b[k..] + y)[1..] == r + y && (b[k..] + z)[1..] == r + z;
    assert r[j + 1..] == b[i + 1..];
  }

  lemma EqualsKept(b: string, i: nat, y: string, z: string)
    requires Led(b, i) && Quoted(y) && Quoted(z)
    requires EqualsAt(b + y).Some?
    ensures EqualsAt(b + z).Some?
  {
    var r, j := MarkKept(b, i, y, z, '=');
    var q, k := MarkKept(r, j, y, z, '"');
    ValueKept(q, y, z);
  }

  lemma VersionTrimmed(a: string, s: string)
    requires All(a, JsSpace) && (s != "" ==> !JsSpace(s[0]))
    ensures VersionAt(a + s) == if VERSION <= s then EqualsAt(s[|VERSION|..]) else None
  {
    TrimStartSkip(a, s, JsSpace);
  }

  lemma WordKept(t: string, i: nat, y: string, z: string)
    requires Led(t, i) && VERSION <= t + y
    ensures i >= |VERSION|
    ensures var r := t[|VERSION|..];
            && Led(r, i - |VERSION|) && VERSION <= t + z
            && (t + y)[|VERSION|..] == r + y && (t + z)[|VERSION|..] == r + z
  {
    assert None_(VERSION, Opener) && Opener((t + y)[i]);
    assert forall m :: 0 <= m < |VERSION| ==> (t + y)[m] == VERSION[m];
    var r := t[|VERSION|..];
    assert r[i - |VERSION| + 1..] == t[i + 1..];
    assert t == VERSION + r;
  }

  lemma TrimmedKept(a: string, t: string, i: nat, y: string, z: string)
    requires All(a, JsSpace) && Led(t, i) && !JsSpace(t[0]) && Quoted(y) && Quoted(z)
    requires VersionAt(a + (t + y)).Some?
    ensures VersionAt(a + (t + z)).Some?
  {
    VersionTrimmed(a, t + y);
    VersionTrimmed(a, t + z);
    WordKept(t, i, y, z);
    EqualsKept(t[|VERSION|..], i - |VERSION|, y, z);
  }

  /** Where an entry was not found before, replacing a later entry creates none. */
  lemma VersionKept(b: string, i: nat, y: string, z: string)
    requires Led(b, i) && Quoted(y) && Quoted(z) && VersionAt(z).Some?
    requires VersionAt(b + y).Some?
    ensures VersionAt(b + z).Some?
  {
    if All(b, JsSpace) {
      assert z[0] == 'v' && !JsSpace('v');
      VersionTrimmed(b, z);
      VersionTrimmed("", z);
      assert "" + z == z;
    } else {
      var k := LedSkip(b, i);
      assert b[k..][i - k + 1..] == b[i + 1..];
      assert b + y == b[..k] + (b[k..] + y) && b + z == b[..k] + (b[k..] + z);
      TrimmedKept(b[..k], b[k..], i - k, y, z);
    }
  }

  // ----- replacing what any pattern of this kind finds -----

  /** The pattern allows whitespace in front and does not start with `{` or `,`. */
  ghost predicate Spacious(entry: EntryPattern) {
    && (forall a, s {:trigger Blank(a, s)} :: Blank(a, s) ==> entry(a + s) == entry(s))
    && (forall c, s {:trigger Opens(c, s)} :: Opens(c, s) ==> entry([c] + s).None?)
  }

  /** Only whitespace stands in front of `s`. */
  ghost predicate Blank(a: string, s: string) { All(a, JsSpace) }

  /** A bracket or comma stands in front of `s`. */
  predicate Opens(c: char, s: string) { c == '{' || c == ',' }

  /** Putting `y` for `z` after an opener makes no match start earlier. */
  ghost predicate Replaces(entry: EntryPattern, z: string, y: string) {
    forall b, i {:trigger Led(b, i)} :: Led(b, i) && entry(b + y).Some? ==> entry(b + z).Some?
  }

  lemma AfterSpaces(s: string, entry: EntryPattern)
    requires Spacious(entry)
    ensures var lead := TakeWhile(s, JsSpace);
            && All(lead, JsSpace) && entry(s[|lead|..]) == entry(s) && (lead < s ==> !JsSpace(s[|lead|]))
  {
    var lead := TakeWhile(s, JsSpace);
    TakeWhileCuts(s, JsSpace);
    assert Blank(lead, s[|lead|..]);
    assert s == lead + s[|lead|..];
  }

  /** What was found stands in the text where it says. */
  lemma {:induction false} HitParts(t: string, first: bool, entry: EntryPattern)
    requires Spacious(entry) && FindEntry(t, first, entry).Some?
    ensures var h := FindEntry(t, first, entry).value;
            && h.before <= t && entry(t[|h.before|..]) == Some((h.value, h.after))
            && (h.before < t ==> !JsSpace(t[|h.before|]))
  {
    var h := FindEntry(t, first, entry).value;
    if first && entry(t).Some? {
      AfterSpaces(t, entry);
    } else {
      assert t == [t[0]] + t[1..];
      if Opener(t[0]) && entry(t[1..]).Some? {
        AfterSpaces(t[1..], entry);
      } else {
        HitParts(t[1..], false, entry);
      }
      var b := h.before[1..];
      assert h.before == [t[0]] + b;
      assert t[|h.before|..] == t[1..][|b|..];
    }
  }

  /** An entry that does not stand at the very start follows an opener. */
  lemma {:induction false} HitLed(t: string, entry: EntryPattern) returns (i: nat)
    requires FindEntry(t, false, entry).Some?
    ensures Led(FindEntry(t, false, entry).value.before, i)
  {
    var h := FindEntry(t, false, entry).value;
    if Opener(t[0]) && entry(t[1..]).Some? {
      i := 0;
      TakeWhileCuts(t[1..], JsSpace);
      assert h.before[1..] == TakeWhile(t[1..], JsSpace);
    } else {
      var j := HitLed(t[1..], entry);
      i := j + 1;
      var b := FindEntry(t[1..], false, entry).value.before;
      assert h.before[i + 1..] == b[j + 1..];
    }
  }

  lemma FoundFirst(lead: string, y: string, entry: EntryPattern, e: (string, string))
    requires All(lead, JsSpace) && y != "" && !JsSpace(y[0]) && entry(lead + y) == Some(e)
    ensures FindEntry(lead + y, true, entry) == Some(Hit(lead, e.0, e.1))
  {
    TakeWhileStops(lead, y, JsSpace);
    assert "" + lead == lead;
  }

  lemma FoundAtOpener(c: char, lead: string, y: string, first: bool, entry: EntryPattern, e: (string, string))
    requires All(lead, JsSpace) && y != "" && !JsSpace(y[0]) && entry(lead + y) == Some(e)
    requires Opener(c) && (first ==> entry([c] + (lead + y)).None?)
    ensures FindEntry([c] + (lead + y), first, entry) == Some(Hit([c] + lead, e.0, e.1))
  {
    TakeWhileStops(lead, y, JsSpace);
    assert ([c] + (lead + y))[1..] == lead + y;
  }

  lemma FoundLater(c: char, u: string, first: bool, entry: EntryPattern)
    requires first ==> entry([c] + u).None?
    requires Opener(c) ==> entry(u).None?
    ensures FindEntry([c] + u, first, entry) == Prefixed([c], FindEntry(u, false, entry))
  {
    assert ([c] + u)[1..] == u;
  }

  lemma StillLater(c: char, b: string, i: nat, z: string, y: string, first: bool, entry: EntryPattern)
    requires Replaces(entry, z, y) && Led(b, i)
    requires first ==> entry([c] + (b + z)).None?
    requires Opener(c) ==> entry(b + z).None?
    ensures FindEntry([c] + (b + y), first, entry) == Prefixed([c], FindEntry(b + y, false, entry))
  {
    var d := [c] + b;
    assert d[i + 2..] == b[i + 1..];
    assert Led(d, i + 1);
    assert d + z == [c] + (b + z) && d + y == [c] + (b + y);
    FoundLater(c, b + y, first, entry);
  }

  /** Replacing the leftmost entry puts the new one in its place. */
  lemma {:induction false} ReplaceFound(t: string, first: bool, entry: EntryPattern, z: string, y: string,
                                        e: (string, string))
    requires Spacious(entry) && FindEntry(t, first, entry).Some?
    requires t == FindEntry(t, first, entry).value.before + z
    requires Replaces(entry, z, y) && y != "" && !JsSpace(y[0]) && entry(y) == Some(e)
    ensures var h := FindEntry(t, first, entry).value;
            FindEntry(h.before + y, first, entry) == Some(Hit(h.before, e.0, e.1))
  {
    var h := FindEntry(t, first, entry).value;
    if first && entry(t).Some? {
      TakeWhileCuts(t, JsSpace);
      assert Blank(h.before, y);
      FoundFirst(h.before, y, entry, e);
    } else if Opener(t[0]) && entry(t[1..]).Some? {
      ReplaceAtOpener(t, first, entry, y, e);
    } else {
      var b := FindEntry(t[1..], false, entry).value.before;
      assert h.before == [t[0]] + b;
      assert t[1..] == b + z && t == [t[0]] + (b + z);
      ReplaceFound(t[1..], false, entry, z, y, e);
      var i := HitLed(t[1..], entry);
      ReplaceLater(t[0], b, i, z, y, first, entry, e);
    }
  }

  lemma ReplaceAtOpener(t: string, first: bool, entry: EntryPattern, y: string, e: (string, string))
    requires Spacious(entry) && t != "" && Opener(t[0]) && entry(t[1..]).Some?
    requires y != "" && !JsSpace(y[0]) && entry(y) == Some(e)
    requires !(first && entry(t).Some?)
    ensures var h := FindEntry(t, first, entry).value;
            FindEntry(h.before + y, first, entry) == Some(Hit(h.before, e.0, e.1))
  {
    var c, lead := t[0], TakeWhile(t[1..], JsSpace);
    TakeWhileCuts(t[1..], JsSpace);
    assert Blank(lead, y);
    assert t == [c] + t[1..];
    if c == '\n' { assert Blank([c], t[1..]); } else { assert Opens(c, lead + y); }
    FoundAtOpener(c, lead, y, first, entry, e);
    HitAtOpener(t, first, entry);
    assert ([c] + lead) + y == [c] + (lead + y);
  }

  lemma HitAtOpener(t: string, first: bool, entry: EntryPattern)
    requires t != "" && Opener(t[0]) && entry(t[1..]).Some? && !(first && entry(t).Some?)
    ensures FindEntry(t, first, entry) == Some(HitAt([t[0]], t[1..], entry(t[1..]).value))
  {
  }

  lemma ReplaceLater(c: char, b: string, i: nat, z: string, y: string, first: bool, entry: EntryPattern,
                     e: (string, string))
    requires Replaces(entry, z, y) && Led(b, i)
    requires first ==> entry([c] + (b + z)).None?
    requires Opener(c) ==> entry(b + z).None?
    requires FindEntry(b + y, false, entry) == Some(Hit(b, e.0, e.1))
    ensures FindEntry(([c] + b) + y, first, entry) == Some(Hit([c] + b, e.0, e.1))
  {
    StillLater(c, b, i, z, y, first, entry);
    assert ([c] + b) + y == [c] + (b + y);
  }

  // ----- setting a requirement in a block -----

  lemma VersionSpacious()
    ensures Spacious(VersionAt)
  {
    forall a, s | All(a, JsSpace) ensures VersionAt(a + s) == VersionAt(s) {
      var lead := TrimStartCuts(s, JsSpace);
      assert a + s == (a + lead) + TrimStart(s, JsSpace);
      AllConcat(a, lead, JsSpace);
      VersionTrimmed(a + lead, TrimStart(s, JsSpace));
      VersionTrimmed(lead, TrimStart(s, JsSpace));
    }
    forall c, s | c == '{' || c == ',' ensures VersionAt([c] + s).None? {
      VersionTrimmed("", [c] + s);
      assert "" + ([c] + s) == [c] + s;
    }
  }

  lemma VersionReplaces(z: string, y: string)
    requires Quoted(y) && Quoted(z) && VersionAt(z).Some?
    ensures Replaces(VersionAt, z, y)
  {
    forall b, i | Led(b, i) && VersionAt(b + y).Some? ensures VersionAt(b + z).Some? { VersionKept(b, i, y, z); }
  }
}
