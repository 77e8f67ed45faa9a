/** Which line of a Cargo manifest states the package version, and what is read off it
    (`readCargoPackageVersion` and `writeCargoTomlVersion` in scripts/lib/manifest-version.ts). */
module CargoReading {
  import opened Wrappers
  import opened Text
  import opened Characters
  import opened JsonString
  import opened CargoVersion

  /** A section header: brackets around the line, whitespace aside. */
  ghost predicate SectionLine(line: string) {
    exists t :: Stripped(t, line, JsSpace) && t != "" && t[0] == '[' && t[|t| - 1] == ']'
  }

  ghost predicate PackageLine(line: string) { Stripped("[package]", line, JsSpace) }

  /** A version line, with the text behind the `=`. */
  ghost predicate VersionText(line: string, rest: string) { Stripped("version = " + rest, line, JsSpace) }

  ghost predicate StatesVersion(line: string) { exists rest :: VersionText(line, rest) }

  lemma LineMeans(line: string)
    ensures IsSection(JsTrim(line)) <==> SectionLine(line)
    ensures JsTrim(line) == "[package]" <==> PackageLine(line)
    ensures IsVersion(JsTrim(line)) <==> StatesVersion(line)
  {
    var t := JsTrim(line);
    TrimStrips(line, JsSpace);
    forall u ensures Stripped(u, line, JsSpace) <==> u == t { TrimIff(line, u, JsSpace); }
    if KEY <= t {
      assert t == KEY + t[|KEY|..] && t[0] == KEY[0];
      assert VersionText(line, t[|KEY|..]);
    }
    if rest :| VersionText(line, rest) { assert KEY <= KEY + rest && (KEY + rest)[0] == 'v'; }
  }

  type LineTest = string -> bool

  /** Line `j` is the last section header before line `i`, and opens the section asked for. */
  ghost predicate Opens(lines: seq<string>, i: int, j: int, section: LineTest, asked: LineTest) {
    0 <= j < i <= |lines| && asked(lines[j]) && forall k :: j < k < i ==> !section(lines[k])
  }

  /** Line `i` stands in the section asked for; `before` says so of what precedes the lines. */
  ghost predicate Under(lines: seq<string>, before: bool, i: int, section: LineTest, asked: LineTest) {
    && 0 <= i < |lines|
    && ((before && forall k :: 0 <= k < i ==> !section(lines[k])) || exists j :: Opens(lines, i, j, section, asked))
  }

  lemma UnderShifted(lines: seq<string>, before: bool, i: int, section: LineTest, asked: LineTest)
    requires 0 < i < |lines| && (asked(lines[0]) ==> section(lines[0]))
    ensures Under(lines, before, i, section, asked) <==>
      Under(lines[1..], if section(lines[0]) then asked(lines[0]) else before, i - 1, section, asked)
  {
    var rest, next, h := lines[1..], if section(lines[0]) then asked(lines[0]) else before, i - 1;
    assert forall k :: 0 <= k < |rest| ==> rest[k] == lines[k + 1];
    assert forall k :: 0 < k < |lines| ==> lines[k] == rest[k - 1];
    if j :| Opens(lines, i, j, section, asked) {
      if j > 0 { assert Opens(rest, h, j - 1, section, asked); }
    }
    if j :| Opens(rest, h, j, section, asked) {
      assert Opens(lines, i, j + 1, section, asked);
    } else if Under(rest, next, h, section, asked) && section(lines[0]) {
      assert Opens(lines, i, 0, section, asked);
    }
  }

  /** Line `i` is the first wanted line in the section asked for. */
  ghost predicate FirstUnder(lines: seq<string>, before: bool, i: int, section: LineTest, asked: LineTest,
                             wanted: LineTest)
  {
    && Under(lines, before, i, section, asked) && wanted(lines[i])
    && forall k :: 0 <= k < i && Under(lines, before, k, section, asked) ==> !wanted(lines[k])
  }

  /** The tests are the ones the search makes. */
  ghost predicate Tests(section: LineTest, asked: LineTest, wanted: LineTest) {
    forall line: string {:trigger section(line)} {:trigger asked(line)} {:trigger wanted(line)} ::
      && (section(line) <==> IsSection(JsTrim(line))) && (asked(line) <==> JsTrim(line) == "[package]")
      && (wanted(line) <==> IsVersion(JsTrim(line)))
  }

  /** No line before `n` is a wanted one in the section asked for. */
  ghost predicate NoneBefore(lines: seq<string>, before: bool, n: int, section: LineTest, asked: LineTest,
                             wanted: LineTest)
  {
    forall k :: k < n && Under(lines, before, k, section, asked) ==> !wanted(lines[k])
  }

  lemma NoneShifted(lines: seq<string>, before: bool, n: int, section: LineTest, asked: LineTest, wanted: LineTest)
    requires lines != [] && n <= |lines| && (asked(lines[0]) ==> section(lines[0])) && !(before && wanted(lines[0]))
    requires var next := if section(lines[0]) then asked(lines[0]) else before;
      NoneBefore(lines[1..], next, n - 1, section, asked, wanted)
    ensures NoneBefore(lines, before, n, section, asked, wanted)
  {
    forall k | k < n && Under(lines, before, k, section, asked) ensures !wanted(lines[k]) {
      if k > 0 {
        UnderShifted(lines, before, k, section, asked);
        assert lines[k] == lines[1..][k - 1];
      }
    }
  }

  /** The search for the version line, by its tests. */
  function Search(lines: seq<string>, before: bool, section: LineTest, asked: LineTest, wanted: LineTest): Option<nat> {
    if lines == [] then None
    else if before && wanted(lines[0]) then Some(0)
    else
      var next := if section(lines[0]) then asked(lines[0]) else before;
      var r := Search(lines[1..], next, section, asked, wanted);
      if r.None? then None else Some(r.value + 1)
  }

  lemma {:induction false} IndexIsSearch(lines: seq<string>, before: bool, section: LineTest, asked: LineTest,
                                         wanted: LineTest)
    requires Tests(section, asked, wanted)
    ensures VersionIndex(lines, before) == Search(lines, before, section, asked, wanted)
  {
    if lines != [] {
      var line := lines[0];
      assert section(line) <==> IsSection(JsTrim(line));
      IndexIsSearch(lines[1..], if section(line) then asked(line) else before, section, asked, wanted);
    }
  }

  /** The search finds the first wanted line, and nothing only if there is none. */
  lemma {:induction false} SearchFirst(lines: seq<string>, before: bool, section: LineTest, asked: LineTest,
                                       wanted: LineTest)
    requires forall line :: asked(line) ==> section(line)
    ensures var r := Search(lines, before, section, asked, wanted);
      && (r.Some? ==> Under(lines, before, r.value, section, asked) && wanted(lines[r.value]))
      && NoneBefore(lines, before, if r.Some? then r.value else |lines|, section, asked, wanted)
  {
    if lines != [] && !(before && wanted(lines[0])) {
      var next := if section(lines[0]) then asked(lines[0]) else before;
      SearchFirst(lines[1..], next, section, asked, wanted);
      var r := Search(lines[1..], next, section, asked, wanted);
      NoneShifted(lines, before, if r.Some? then r.value + 1 else |lines|, section, asked, wanted);
      if r.Some? { UnderShifted(lines, before, r.value + 1, section, asked); }
    }
  }

  /** Line `i` of the file is the first that states a version inside `[package]`. */
  ghost predicate FirstVersion(lines: seq<string>, i: int) {
    FirstUnder(lines, false, i, l => SectionLine(l), l => PackageLine(l), l => StatesVersion(l))
  }

  lemma VersionIndexFirst(lines: seq<string>)
    ensures var r := VersionIndex(lines, false);
      (r.Some? ==> FirstVersion(lines, r.value)) && (r.None? ==> forall k :: !FirstVersion(lines, k))
  {
    var section, asked, wanted: LineTest := l => SectionLine(l), l => PackageLine(l), l => StatesVersion(l);
    forall line: string
      ensures section(line) <==> IsSection(JsTrim(line))
      ensures asked(line) <==> JsTrim(line) == "[package]"
      ensures wanted(line) <==> IsVersion(JsTrim(line))
    {
      LineMeans(line);
    }
    IndexIsSearch(lines, false, section, asked, wanted);
    SearchFirst(lines, false, section, asked, wanted);
  }

  lemma FirstVersionUnique(lines: seq<string>, i: int, k: int)
    requires FirstVersion(lines, i) && FirstVersion(lines, k)
    ensures i == k
  {
  }

  /** What the version line states: the JSON string behind the `=`, whitespace aside. */
  ghost predicate States(line: string, v: string) {
    exists rest, t :: VersionText(line, rest) && Stripped(t, rest, JsSpace) && Unquote(t) == Some(v)
  }

  lemma LineVersionRead(line: string, v: string)
    requires IsVersion(JsTrim(line))
    ensures LineVersion(line) == Ok(v) <==> States(line, v)
  {
    var rest := JsTrim(line)[|KEY|..];
    assert JsTrim(line) == KEY + rest;
    TrimStrips(line, JsSpace);
    TrimStrips(rest, JsSpace);
    assert VersionText(line, rest) && Stripped(JsTrim(rest), rest, JsSpace);
    if u, t :| VersionText(line, u) && Stripped(t, u, JsSpace) && Unquote(t) == Some(v) {
      TrimIff(line, KEY + u, JsSpace);
      assert u == (KEY + u)[|KEY|..];
      TrimIff(rest, t, JsSpace);
    }
  }

  /** The package version of a file is what its first version line inside `[package]`
      states; it is missing exactly if there is no such line. */
  lemma PackageVersionRead(source: string, v: string)
    ensures PackageVersion(source) == Ok(v) <==>
      exists i :: FirstVersion(Lines(source), i) && States(Lines(source)[i], v)
    ensures PackageVersion(source) == Err(MissingVersion) <==> forall i :: !FirstVersion(Lines(source), i)
  {
    var lines := Lines(source);
    VersionIndexFirst(lines);
    var r := VersionIndex(lines, false);
    if r.Some? {
      LineVersionRead(lines[r.value], v);
      forall i | FirstVersion(lines, i) ensures i == r.value { FirstVersionUnique(lines, i, r.value); }
    }
  }

  /** The written line keeps the indentation and states the version. */
  lemma VersionLineWritten(line: string, next: string) returns (n: nat)
    ensures n <= |line| && All(line[..n], JsSpace) && (n < |line| ==> !JsSpace(line[n]))
    ensures VersionLine(line, next) == line[..n] + ("version = " + Quote(next))
  {
    n := |TakeWhile(line, JsSpace)|;
    TakeWhileCuts(line, JsSpace);
    assert line[..n] == TakeWhile(line, JsSpace);
  }

  /** A file that has the version already, or none that can be read, is not written. */
  lemma VersionKeptOrRefused(source: string, next: string, semver: Semver)
    ensures ReadVersion(source, semver) == Ok(next) ==> WithVersion(source, next, semver) == Ok(source)
    ensures WithVersion(source, next, semver).Ok? <==>
      PackageVersion(source).Ok? && semver(PackageVersion(source).value).Some?
    ensures ReadVersion(source, semver).Ok? ==>
      semver(PackageVersion(source).value) == Some(ReadVersion(source, semver).value)
  {
  }
}
