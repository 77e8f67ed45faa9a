/** A reading that has come upon a dependency's requirement where it looks for the
    package's version reads that requirement or nothing. */
module VersionCapture {
  import opened Wrappers
  import opened Text
  import opened Characters
  import opened JsonString
  import opened CargoVersion
  import opened VersionReading
  import opened ManifestRequirements

  // ----- quotes inside a string literal -----

  lemma EscapeHasNoQuote(t: string, i: nat)
    requires t != "" && t[0] == '\\' && ReadEscape(t).Some? && 2 <= i < ReadEscape(t).value.1
    ensures t[i] != '"'
  {
    assert HexValue('"').None?;
    assert Hex4(t[2..]).Some?;
    assert t[2..][0] == t[2] && t[2..][1] == t[3] && t[2..][2] == t[4] && t[2..][3] == t[5];
    if i >= 8 {
      assert Hex4(t[8..]).Some?;
      assert t[8..][0] == t[8] && t[8..][1] == t[9] && t[8..][2] == t[10] && t[8..][3] == t[11];
    }
  }

  /** Before the end, a quote in a string literal follows a backslash. */
  lemma {:induction false} QuotesEscaped(t: string, i: nat)
    requires ReadBody(t).Some? && i + 1 < |t| && t[i] == '"'
    ensures i >= 1 && t[i - 1] == '\\'
    decreases |t|
  {
    if t[0] == '\\' {
      var w := ReadEscape(t).value.1;
      if i >= w {
        QuotesEscaped(t[w..], i - w);
      } else if i >= 2 {
        EscapeHasNoQuote(t, i);
      }
    } else if i >= 1 {
      QuotesEscaped(t[1..], i - 1);
    }
  }

  lemma InnerQuote(v: string, i: nat)
    requires 0 < i < |v| - 1 && v[i] == '"' && v[i - 1] != '\\'
    ensures Unquote(v).None?
  {
    if Unquote(v).Some? { QuotesEscaped(v[1..], i - 1); }
  }

  lemma {:induction false} BodyEndsInQuote(t: string)
    requires ReadBody(t).Some?
    ensures t != "" && t[|t| - 1] == '"'
    decreases |t|
  {
    if t[0] == '\\' {
      BodyEndsInQuote(t[ReadEscape(t).value.1..]);
    } else if t[0] != '"' {
      BodyEndsInQuote(t[1..]);
    }
  }

  lemma LiteralEndsInQuote(v: string)
    requires Unquote(v).Some?
    ensures v != "" && v[|v| - 1] == '"'
  {
    BodyEndsInQuote(v[1..]);
  }

  // ----- lines that are read in place of the version -----

  /** A version line that reads as the requirement, or not at all. */
  ghost predicate BadLine(line: string, requirement: string) {
    IsVersion(JsTrim(line)) && (LineVersion(line) == Ok(requirement) || LineVersion(line).Err?)
  }

  lemma BadStripped(line: string, requirement: string)
    requires BadLine(line, requirement)
    ensures BadLine(StripCr(line), requirement)
  {
    TrimStripped(line);
  }

  /** The line begins with the entry that was written. */
  ghost predicate BeginsWithEntry(x: string, requirement: string) { Entry(requirement) <= TrimStart(x, JsSpace) }

  /** There is a quote between other text behind the beginning of a version line. */
  ghost predicate QuoteWithin(s: string, j: nat, i: nat, m: nat) {
    |KEY| <= j < i < m < |s| && !JsSpace(s[j]) && s[i] == '"' && s[i - 1] != '\\' && !JsSpace(s[m])
  }

  ghost predicate HoldsQuote(x: string) {
    var s := TrimStart(x, JsSpace);
    KEY <= s && exists j: nat, i: nat, m: nat :: QuoteWithin(s, j, i, m)
  }

  lemma EntryEnds(requirement: string)
    ensures Entry(requirement) == KEY + Quote(requirement)
    ensures var q := Quote(requirement); q[0] == '"' && q[|q| - 1] == '"' && |q| >= 2
  {
  }

  /** A requirement in quotes is a literal only if nothing follows it. */
  lemma QuotedThenText(requirement: string, z: string)
    requires Requirement(requirement) && z != ""
    ensures Unquote(Quote(requirement) + z).None?
  {
    EscapeRequirement(requirement);
    var v := Quote(requirement) + z;
    var i := |requirement| + 1;
    assert v[i] == '"' && v[i - 1] == requirement[|requirement| - 1];
    assert RequirementChar(requirement[|requirement| - 1]);
    InnerQuote(v, i);
  }

  lemma EntryLineTrims(x: string, requirement: string) returns (e: string)
    requires BeginsWithEntry(x, requirement)
    ensures JsTrim(x) == KEY + (Quote(requirement) + e)
    ensures JsTrim(Quote(requirement) + e) == Quote(requirement) + e
  {
    var s, q := TrimStart(x, JsSpace), Quote(requirement);
    EntryEnds(requirement);
    var z := s[|Entry(requirement)|..];
    e := TrimEnd(z, JsSpace);
    assert s == (KEY + q) + z && (KEY + q)[|KEY + q| - 1] == '"' && !JsSpace('"');
    TrimEndKeeps(KEY + q, z);
    assert (KEY + q) + e == KEY + (q + e);
    ValueTrims(q, z);
  }

  lemma KeyLine(line: string, v: string)
    requires JsTrim(line) == KEY + v && JsTrim(v) == v
    ensures IsVersion(JsTrim(line))
    ensures LineVersion(line) == if Unquote(v).None? then Err(InvalidVersion) else Ok(Unquote(v).value)
  {
    assert (KEY + v)[0] == 'v' && (KEY + v)[|KEY|..] == v;
  }

  lemma EntryLineIsBad(x: string, requirement: string)
    requires Requirement(requirement) && BeginsWithEntry(x, requirement)
    ensures BadLine(x, requirement)
  {
    var e := EntryLineTrims(x, requirement);
    KeyLine(x, Quote(requirement) + e);
    if e == "" {
      assert Quote(requirement) + e == Quote(requirement);
      QuoteThenUnquote(requirement);
    } else {
      QuotedThenText(requirement, e);
    }
  }

  lemma ValueTrims(q: string, z: string)
    requires q != "" && q[0] == '"' && q[|q| - 1] == '"'
    ensures JsTrim(q + TrimEnd(z, JsSpace)) == q + TrimEnd(z, JsSpace)
  {
    var e := TrimEnd(z, JsSpace);
    var _ := TrimEndCuts(z, JsSpace);
    assert !JsSpace('"');
    var v := q + e;
    assert v[0] == '"' && !JsSpace(v[|v| - 1]);
    TrimInside("", v, "", JsSpace);
    assert "" + v + "" == v;
  }

  /** Trimming `s` keeps every position that is not whitespace, shifted by what is cut. */
  lemma TrimShift(s: string) returns (a: string)
    ensures |a| + |JsTrim(s)| <= |s|
    ensures forall i :: 0 <= i < |s| && !JsSpace(s[i]) ==> |a| <= i < |a| + |JsTrim(s)|
    ensures forall i :: |a| <= i < |a| + |JsTrim(s)| ==> JsTrim(s)[i - |a|] == s[i]
  {
    var b: string;
    a, b := TrimParts(s);
    var t := JsTrim(s);
    assert forall i :: 0 <= i < |a| ==> s[i] == a[i];
    assert forall i :: |a| + |t| <= i < |s| ==> s[i] == b[i - |a| - |t|];
  }

  /** What trimming leaves of a text that starts without whitespace is a prefix of it. */
  lemma TrimmedPrefix(x: string)
    ensures JsTrim(x) <= TrimStart(x, JsSpace)
    ensures forall i :: 0 <= i < |TrimStart(x, JsSpace)| && !JsSpace(TrimStart(x, JsSpace)[i]) ==> i < |JsTrim(x)|
  {
    var s := TrimStart(x, JsSpace);
    var b := TrimEndCuts(s, JsSpace);
    assert s == JsTrim(x) + b;
    assert forall i :: |JsTrim(x)| <= i < |s| ==> s[i] == b[i - |JsTrim(x)|];
  }

  lemma QuoteLineIsBad(x: string, requirement: string)
    requires HoldsQuote(x)
    ensures BadLine(x, requirement)
  {
    var s, t := TrimStart(x, JsSpace), JsTrim(x);
    var j: nat, i: nat, m: nat :| QuoteWithin(s, j, i, m);
    TrimmedPrefix(x);
    assert m < |t| && t[..m + 1] == s[..m + 1];
    assert KEY <= t && t == KEY + t[|KEY|..];
    assert QuoteWithin(t, j, i, m);
    LiteralBroken(t, j, i, m);
    assert t[0] == 'v';
  }

  lemma LiteralBroken(t: string, j: nat, i: nat, m: nat)
    requires QuoteWithin(t, j, i, m)
    ensures Unquote(JsTrim(t[|KEY|..])).None?
  {
    var u := t[|KEY|..];
    var a := TrimShift(u);
    var v, d := JsTrim(u), |KEY| + |a|;
    assert u[j - |KEY|] == t[j] && u[m - |KEY|] == t[m];
    assert |a| <= j - |KEY| && m - |KEY| < |a| + |v|;
    assert v[i - d] == u[i - |KEY|] == t[i] && v[i - d - 1] == u[i - |KEY| - 1] == t[i - 1];
    InnerQuote(v, i - d);
  }

  // ----- captured readings -----

  /** The reading has stopped at such a line, or is on one. */
  ghost predicate Captured(k: Cursor, requirement: string) {
    || (k.reader.Found? && BadLine(k.reader.line, requirement))
    || (k.reader.Inside? && (BeginsWithEntry(k.part, requirement) || HoldsQuote(k.part)))
  }

  lemma CapturedLine(k: Cursor, requirement: string)
    requires Requirement(requirement) && Captured(k, requirement) && k.reader.Inside?
    ensures BadLine(k.part, requirement)
  {
    if BeginsWithEntry(k.part, requirement) {
      EntryLineIsBad(k.part, requirement);
    } else {
      QuoteLineIsBad(k.part, requirement);
    }
  }

  lemma CapturedGrows(k: Cursor, c: char, requirement: string)
    requires Requirement(requirement) && Captured(k, requirement) && k.reader.Inside? && c != '\n'
    ensures Captured(Take(k, c), requirement)
  {
    var s := TrimStart(k.part, JsSpace);
    assert s != "" by { if BeginsWithEntry(k.part, requirement) { EntryEnds(requirement); } }
    TrimStartGrows(k.part, [c]);
    if !BeginsWithEntry(k.part, requirement) {
      var j: nat, i: nat, m: nat :| QuoteWithin(s, j, i, m);
      assert QuoteWithin(s + [c], j, i, m);
    }
  }

  lemma CapturedTake(k: Cursor, c: char, requirement: string)
    requires Requirement(requirement) && Captured(k, requirement)
    ensures Captured(Take(k, c), requirement)
  {
    if k.reader.Inside? {
      if c == '\n' {
        CapturedLine(k, requirement);
        BadStripped(k.part, requirement);
      } else {
        CapturedGrows(k, c, requirement);
      }
    }
  }

  lemma {:induction false} CapturedConsume(k: Cursor, s: string, requirement: string)
    requires Requirement(requirement) && Captured(k, requirement)
    ensures Captured(Consume(k, s), requirement)
    decreases |s|
  {
    if s != "" {
      CapturedTake(k, s[0], requirement);
      CapturedConsume(Take(k, s[0]), s[1..], requirement);
    }
  }

  /** A file on which the reading is captured has the requirement for its version, or none. */
  lemma CapturedVersion(text: string, requirement: string)
    requires Requirement(requirement) && Captured(Consume(BEGIN, text), requirement)
    ensures PackageVersion(text) == Ok(requirement) || PackageVersion(text).Err?
  {
    var k := Consume(BEGIN, text);
    if k.reader.Inside? { CapturedLine(k, requirement); }
    ReadAllIs(text);
  }
}
