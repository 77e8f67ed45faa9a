/** What writing the package version does to the line ends of a manifest
    (`writeCargoTomlVersion` in scripts/lib/manifest-version.ts). */
module CargoLineEnds {
  import opened Wrappers
  import opened Text
  import opened Characters
  import opened CargoVersion

  /** The line ends that are a bare LF. */
  function BareBreaks(s: string): nat
    decreases |s|
  {
    if s == "" then 0
    else if s[0] == '\n' then 1 + BareBreaks(s[1..])
    else if |s| >= 2 && s[0] == '\r' && s[1] == '\n' then BareBreaks(s[2..])
    else BareBreaks(s[1..])
  }

  /** Every LF follows a CR. */
  ghost predicate NoBareBreak(s: string) { forall i :: 0 <= i < |s| && s[i] == '\n' ==> i > 0 && s[i - 1] == '\r' }

  /** The file does not mix CRLF and bare LF. */
  ghost predicate OneLineEnd(s: string) { Includes(s, "\r\n") ==> NoBareBreak(s) }

  lemma {:induction false} BareBreaksCount(s: string)
    ensures BareBreaks(s) == 0 <==> NoBareBreak(s)
    decreases |s|
  {
    if s != "" {
      if |s| >= 2 && s[0] == '\r' && s[1] == '\n' {
        BareBreaksCount(s[2..]);
        Shifted(s, 2);
      } else if s[0] != '\n' {
        BareBreaksCount(s[1..]);
        Shifted(s, 1);
      }
    }
  }

  /** Cutting off a start that ends in no CR and has no bare LF changes nothing. */
  lemma Shifted(s: string, n: nat)
    requires 1 <= n <= |s| && NoBareBreak(s[..n]) && (n < |s| && s[n] == '\n' ==> s[n - 1] != '\r')
    ensures NoBareBreak(s) <==> NoBareBreak(s[n..])
  {
    if NoBareBreak(s) {
      forall i | 0 <= i < |s[n..]| && s[n..][i] == '\n' ensures i > 0 && s[n..][i - 1] == '\r' {
        assert s[n + i] == '\n';
      }
    }
    if NoBareBreak(s[n..]) {
      forall i | 0 <= i < |s| && s[i] == '\n' ensures i > 0 && s[i - 1] == '\r' {
        if i < n { assert s[..n][i] == '\n'; } else { assert s[n..][i - n] == '\n'; }
      }
    }
  }

  /** A line end written before the lines of a text. */
  lemma JoinEmptyFirst(lines: seq<string>, eol: string)
    requires lines != []
    ensures Join([""] + lines, eol) == eol + Join(lines, eol)
  {
    JoinCons("", lines, eol);
  }

  lemma JoinCharFirst(c: char, lines: seq<string>, eol: string)
    requires lines != []
    ensures Join([[c] + lines[0]] + lines[1..], eol) == [c] + Join(lines, eol)
  {
    var rest := lines[1..];
    assert lines == [lines[0]] + rest;
    if rest == [] {
      assert [[c] + lines[0]] + rest == [[c] + lines[0]];
    } else {
      JoinCons([c] + lines[0], rest, eol);
      JoinCons(lines[0], rest, eol);
    }
  }

  /** Written with CRLF, every bare LF of a text becomes one character longer. */
  lemma {:induction false} CrlfLength(s: string)
    ensures |Join(Lines(s), "\r\n")| == |s| + BareBreaks(s)
    ensures BareBreaks(s) == 0 ==> Join(Lines(s), "\r\n") == s
    decreases |s|
  {
    if s != "" {
      if s[0] == '\n' {
        CrlfLength(s[1..]);
        JoinEmptyFirst(Lines(s[1..]), "\r\n");
      } else if |s| >= 2 && s[0] == '\r' && s[1] == '\n' {
        CrlfLength(s[2..]);
        JoinEmptyFirst(Lines(s[2..]), "\r\n");
        assert s == "\r\n" + s[2..];
      } else {
        CrlfLength(s[1..]);
        JoinCharFirst(s[0], Lines(s[1..]), "\r\n");
        assert s == [s[0]] + s[1..];
      }
    }
  }

  lemma {:induction false} LfSame(s: string)
    requires !Includes(s, "\r\n")
    ensures Join(Lines(s), "\n") == s
  {
    if s != "" {
      assert !("\r\n" <= s);
      LfSame(s[1..]);
      assert s == [s[0]] + s[1..];
      if s[0] == '\n' {
        JoinEmptyFirst(Lines(s[1..]), "\n");
      } else {
        JoinCharFirst(s[0], Lines(s[1..]), "\n");
      }
    }
  }

  /** Splitting a file and joining it again gives it back if and only if it does not mix
      CRLF and bare LF; otherwise it has grown. */
  lemma SplitThenJoin(s: string)
    ensures Join(Lines(s), EolOf(s)) == s <==> OneLineEnd(s)
    ensures |Join(Lines(s), EolOf(s))| == |s| <==> OneLineEnd(s)
  {
    BareBreaksCount(s);
    if Includes(s, "\r\n") { CrlfLength(s); } else { LfSame(s); }
  }

  /** What stands before and after one of the joined parts. */
  lemma {:induction false} JoinAround(parts: seq<string>, i: nat, d: string) returns (a: string, b: string)
    requires i < |parts|
    ensures forall x :: Join(parts[i := x], d) == a + x + b
  {
    var n := |parts| - 1;
    if n == 0 {
      a, b := "", "";
      forall x ensures Join(parts[i := x], d) == a + x + b { assert parts[i := x] == [x]; }
    } else if i == n {
      a, b := Join(parts[..n], d) + d, "";
      forall x ensures Join(parts[i := x], d) == a + x + b { assert parts[i := x][..n] == parts[..n]; }
    } else {
      var c: string;
      a, c := JoinAround(parts[..n], i, d);
      b := c + (d + parts[n]);
      forall x ensures Join(parts[i := x], d) == a + x + b {
        assert parts[i := x][..n] == parts[..n][i := x];
        assert (a + x + c) + d + parts[n] == a + x + b;
      }
    }
  }

  /** The text differs from the source in this one line only. */
  ghost predicate OnlyLine(source: string, text: string, was: string, now: string) {
    exists a, b :: source == a + was + b && text == a + now + b
  }

  /** When the version changes, the write replaces the version line and no other
      character if and only if the file does not mix CRLF and bare LF. */
  lemma OnlyVersionLineChangesIff(source: string, next: string, semver: Semver)
    requires WithVersion(source, next, semver).Ok? && ReadVersion(source, semver) != Ok(next)
    ensures VersionIndex(Lines(source), false).Some?
    ensures var line := Lines(source)[VersionIndex(Lines(source), false).value];
            OnlyLine(source, WithVersion(source, next, semver).value, line, VersionLine(line, next)) <==>
              OneLineEnd(source)
  {
    var lines := Lines(source);
    var i := VersionIndex(lines, false).value;
    var line, written := lines[i], VersionLine(lines[i], next);
    var a, b := JoinAround(lines, i, EolOf(source));
    var text := WithVersion(source, next, semver).value;
    assert text == a + written + b;
    assert lines[i := line] == lines && Join(lines, EolOf(source)) == a + line + b;
    SplitThenJoin(source);
    if OnlyLine(source, text, line, written) {
      var c, d :| source == c + line + d && text == c + written + d;
      assert |source| == |a + line + b|;
    }
  }

  // ----- a file that mixes them -----

  const PACKAGE := "[package]"

  function Mixed(version: string, eol: string): string { PACKAGE + ("\r\n" + (VersionLine("", version) + eol)) }

  /** Two whole lines split into themselves and an empty rest. */
  lemma TwoLines(a: string, b: string, eol: string)
    requires '\n' !in a && '\n' !in b && !EndsInCr(b) && (eol == "\n" || eol == "\r\n")
    ensures Lines(a + ("\r\n" + (b + eol))) == [a, b, ""]
  {
    LinesCons(a, "\r\n", b + eol);
    assert b + eol == b + (eol + "");
    LinesCons(b, eol, "");
    assert [a] + ([b] + [""]) == [a, b, ""];
  }

  lemma TwoLinesJoined(a: string, b: string)
    ensures Join([a, b, ""], "\r\n") == a + ("\r\n" + (b + "\r\n"))
  {
    JoinCons(a, [b, ""], "\r\n");
    JoinCons(b, [""], "\r\n");
    assert [a, b, ""] == [a] + [b, ""] && [b, ""] == [b] + [""];
    assert b + ("\r\n" + "") == b + "\r\n";
  }

  lemma PackageTrims()
    ensures JsTrim(PACKAGE) == PACKAGE && IsSection(PACKAGE)
  {
    TrimInside("", PACKAGE, "", JsSpace);
    assert "" + PACKAGE + "" == PACKAGE;
  }

  lemma SecondLineCounts(line: string)
    requires IsVersion(JsTrim(line))
    ensures VersionIndex([PACKAGE, line, ""], false) == Some(1)
  {
    PackageTrims();
    assert [PACKAGE, line, ""][1..] == [line, ""];
    assert VersionIndex([line, ""], true) == Some(0);
  }

  lemma MixedReads(version: string, eol: string)
    requires eol == "\n" || eol == "\r\n"
    ensures Lines(Mixed(version, eol)) == [PACKAGE, VersionLine("", version), ""]
    ensures VersionIndex(Lines(Mixed(version, eol)), false) == Some(1)
    ensures PackageVersion(Mixed(version, eol)) == Ok(version)
  {
    VersionLineShape("", version);
    LineReads("", version);
    TwoLines(PACKAGE, VersionLine("", version), eol);
    SecondLineCounts(VersionLine("", version));
  }

  /** A version line without indentation gives another one. */
  lemma LineKeepsNoIndent(version: string, next: string)
    ensures VersionLine(VersionLine("", version), next) == VersionLine("", next)
  {
    var line := VersionLine("", version);
    assert line[0] == 'v' && !JsSpace('v');
    assert TakeWhile(line, JsSpace) == "";
  }

  /** `[package]`, CRLF, a version line and LF: setting another version also turns the LF
      behind it into CRLF. */
  lemma MixedLineEndsChange(version: string, next: string, semver: Semver)
    requires semver(version) == Some(version) && next != version
    ensures WithVersion(Mixed(version, "\n"), next, semver) == Ok(Mixed(next, "\r\n"))
    ensures !OneLineEnd(Mixed(version, "\n"))
  {
    var source, lines := Mixed(version, "\n"), [PACKAGE, VersionLine("", version), ""];
    MixedReads(version, "\n");
    MixedIncludes(version);
    MixedHasBare(version);
    LineKeepsNoIndent(version, next);
    assert lines[1 := VersionLine("", next)] == [PACKAGE, VersionLine("", next), ""];
    TwoLinesJoined(PACKAGE, VersionLine("", next));
  }

  lemma MixedHasBare(version: string)
    ensures !NoBareBreak(Mixed(version, "\n"))
  {
    var source, line := Mixed(version, "\n"), VersionLine("", version);
    assert line[|line| - 1] == '"';
    assert source[|source| - 1] == '\n' && source[|source| - 2] == line[|line| - 1];
  }

  lemma MixedIncludes(version: string)
    ensures Includes(Mixed(version, "\n"), "\r\n")
  {
    IncludesBehind(PACKAGE, "\r\n" + (VersionLine("", version) + "\n"), "\r\n");
  }

  lemma {:induction false} IncludesBehind(a: string, s: string, word: string)
    requires Includes(s, word)
    ensures Includes(a + s, word)
  {
    if a == "" {
      assert a + s == s;
    } else {
      assert (a + s)[1..] == a[1..] + s;
      IncludesBehind(a[1..], s, word);
    }
  }
}
