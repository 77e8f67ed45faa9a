/** Reading and writing the package version of a Cargo manifest
    (`readCargoPackageVersion` and `writeCargoTomlVersion` in
    scripts/lib/manifest-version.ts). */
module CargoVersion {
  import opened Wrappers
  import opened Text
  import opened Characters
  import opened JsonString

  // ----- lines -----

  /** JavaScript's `split(/\r?\n/)`. */
  function Lines(s: string): (r: seq<string>)
    ensures |r| >= 1
    decreases |s|
  {
    if s == "" then [""]
    else if s[0] == '\n' then [""] + Lines(s[1..])
    else if |s| >= 2 && s[0] == '\r' && s[1] == '\n' then [""] + Lines(s[2..])
    else
      var r := Lines(s[1..]);
      [[s[0]] + r[0]] + r[1..]
  }

  predicate EndsInCr(line: string) { line != "" && line[|line| - 1] == '\r' }

  /** Lines that do not change when they are joined and split again. */
  ghost predicate Steady(lines: seq<string>, eol: string) {
    && (eol == "\n" || eol == "\r\n")
    && (forall i :: 0 <= i < |lines| ==> '\n' !in lines[i])
    && (eol == "\n" ==> forall i :: 0 <= i < |lines| - 1 ==> !EndsInCr(lines[i]))
  }

  lemma {:induction false} LinesOne(line: string)
    requires '\n' !in line
    ensures Lines(line) == [line]
  {
    if line != "" {
      assert forall c :: c in line[1..] ==> c in line;
      LinesOne(line[1..]);
      assert line == [line[0]] + line[1..];
    }
  }

  lemma {:induction false} LinesCons(line: string, eol: string, rest: string)
    requires '\n' !in line && (eol == "\r\n" || (eol == "\n" && !EndsInCr(line)))
    ensures Lines(line + (eol + rest)) == [line] + Lines(rest)
  {
    var s := line + (eol + rest);
    if line == "" {
      assert s == eol + rest;
      assert s[|eol|..] == rest;
    } else {
      assert s[0] == line[0] && s[1..] == line[1..] + (eol + rest);
      assert |line| == 1 ==> s[1] == eol[0];
      assert |line| > 1 ==> s[1] == line[1] && line[1] in line;
      assert forall c :: c in line[1..] ==> c in line;
      LinesCons(line[1..], eol, rest);
      assert line == [line[0]] + line[1..];
    }
  }

  lemma {:induction false} JoinCons(x: string, ys: seq<string>, d: string)
    requires ys != []
    ensures Join([x] + ys, d) == x + (d + Join(ys, d))
  {
    var all := [x] + ys;
    if |ys| == 1 {
      assert all[..1] == [x];
    } else {
      var init, last := ys[..|ys| - 1], ys[|ys| - 1];
      JoinCons(x, init, d);
      assert all[..|all| - 1] == [x] + init && all[|all| - 1] == last;
      JoinRegroup(x, d, Join(init, d), last);
    }
  }

  lemma JoinRegroup(x: string, d: string, middle: string, last: string)
    ensures (x + (d + middle)) + d + last == x + (d + (middle + d + last))
  {
  }

  /** Joining and splitting again gives the same lines. */
  lemma {:induction false} LinesJoined(lines: seq<string>, eol: string)
    requires lines != [] && Steady(lines, eol)
    ensures Lines(Join(lines, eol)) == lines
  {
    if |lines| == 1 {
      LinesOne(lines[0]);
      assert lines == [lines[0]];
    } else {
      assert lines == [lines[0]] + lines[1..];
      JoinCons(lines[0], lines[1..], eol);
      LinesCons(lines[0], eol, Join(lines[1..], eol));
      LinesJoined(lines[1..], eol);
    }
  }

  /** The lines of a file are such lines, for the line end the program picks. */
  lemma {:induction false} LinesSteady(s: string, eol: string)
    requires eol == "\r\n" || (eol == "\n" && !Includes(s, "\r\n"))
    ensures Steady(Lines(s), eol)
    decreases |s|
  {
    if s != "" {
      if s[0] == '\n' {
        LinesSteady(s[1..], eol);
      } else if |s| >= 2 && s[0] == '\r' && s[1] == '\n' {
        assert "\r\n" <= s;
        LinesSteady(s[2..], eol);
      } else {
        LinesSteady(s[1..], eol);
        LinesSteadyStep(s, eol);
      }
    }
  }

  lemma LinesSteadyStep(s: string, eol: string)
    requires s != "" && s[0] != '\n' && !("\r\n" <= s) && Steady(Lines(s[1..]), eol)
    requires eol == "\n" ==> !Includes(s, "\r\n")
    ensures Steady(Lines(s), eol)
  {
    var r, lines := Lines(s[1..]), Lines(s);
    assert lines == [[s[0]] + r[0]] + r[1..];
    if eol == "\n" && |r| > 1 {
      if r[0] == "" { EmptyFirstLine(s[1..]); }
      assert Includes(s[1..], "\r\n") ==> Includes(s, "\r\n");
      assert r[0] == "" ==> s[1] == '\n';
      assert !EndsInCr(lines[0]);
    }
    assert forall i :: 1 <= i < |lines| ==> lines[i] == r[i];
  }

  lemma EmptyFirstLine(s: string)
    requires |Lines(s)| > 1 && Lines(s)[0] == ""
    ensures s != "" && (s[0] == '\n' || "\r\n" <= s)
  {
  }

  // ----- the version line -----

  const KEY := "version = "

  function JsTrim(s: string): string { Trim(s, JsSpace) }

  predicate IsSection(trimmed: string) {
    trimmed != "" && trimmed[0] == '[' && trimmed[|trimmed| - 1] == ']'
  }

  predicate IsVersion(trimmed: string) { !IsSection(trimmed) && KEY <= trimmed }

  /** The first version line inside `[package]`. */
  function VersionIndex(lines: seq<string>, inPackage: bool): (r: Option<nat>)
    ensures r.Some? ==> r.value < |lines| && IsVersion(JsTrim(lines[r.value]))
  {
    if lines == [] then None
    else
      var trimmed := JsTrim(lines[0]);
      if inPackage && IsVersion(trimmed) then Some(0)
      else
        var r := VersionIndex(lines[1..], if IsSection(trimmed) then trimmed == "[package]" else inPackage);
        if r.None? then None else Some(r.value + 1)
  }

  datatype Error = MissingVersion | InvalidVersion

  /** The value of a version line; anything but a JSON string is not a version. */
  function LineVersion(line: string): Result<string, Error>
    requires IsVersion(JsTrim(line))
  {
    var v := Unquote(JsTrim(JsTrim(line)[|KEY|..]));
    if v.None? then Err(InvalidVersion) else Ok(v.value)
  }

  function PackageVersion(source: string): Result<string, Error> {
    var lines := Lines(source);
    var i := VersionIndex(lines, false);
    if i.None? then Err(MissingVersion) else LineVersion(lines[i.value])
  }

  /** `semver.parse`, which gives the normalised version. */
  type Semver = string -> Option<string>

  function ReadVersion(source: string, semver: Semver): Result<string, Error> {
    var v := PackageVersion(source);
    if v.Err? then v
    else
      var parsed := semver(v.value);
      if parsed.None? then Err(InvalidVersion) else Ok(parsed.value)
  }

  function VersionLine(line: string, next: string): string { TakeWhile(line, JsSpace) + (KEY + Quote(next)) }

  /** The file with its version line replaced, unless it has that version already. */
  function WithVersion(source: string, next: string, semver: Semver): Result<string, Error> {
    var current := ReadVersion(source, semver);
    if current.Err? then Err(current.error)
    else if current.value == next then Ok(source)
    else
      var lines := Lines(source);
      var i := VersionIndex(lines, false).value;
      Ok(Join(lines[i := VersionLine(lines[i], next)], EolOf(source)))
  }

  // ----- the loops -----

  method ReadPackageVersion(source: string) returns (r: Result<string, Error>)
    ensures r == PackageVersion(source)
  {
    var lines := Lines(source);
    var inPackage := false;
    assert lines[0..] == lines;
    for k := 0 to |lines|
      invariant PackageVersion(source) ==
        var i := VersionIndex(lines[k..], inPackage);
        if i.None? then Err(MissingVersion) else LineVersion(lines[k..][i.value])
    {
      assert lines[k..][1..] == lines[k + 1..];
      var trimmed := JsTrim(lines[k]);
      if IsSection(trimmed) {
        inPackage := trimmed == "[package]";
        continue;
      }
      if !inPackage || !(KEY <= trimmed) {
        continue;
      }
      return LineVersion(lines[k]);
    }
    return Err(MissingVersion);
  }

  method WriteVersion(source: string, next: string, semver: Semver) returns (r: Result<string, Error>)
    ensures r == WithVersion(source, next, semver)
  {
    var current := ReadPackageVersion(source);
    if current.Err? { return Err(current.error); }
    var parsed := semver(current.value);
    if parsed.None? { return Err(InvalidVersion); }
    if parsed.value == next { return Ok(source); }
    var lines := Lines(source);
    ghost var was := lines;
    ghost var i := VersionIndex(lines, false).value;
    var inPackage := false;
    var k := 0;
    assert lines[0..] == lines;
    while k < |lines|
      invariant k <= i < |lines| && lines == was && VersionIndex(lines[k..], inPackage) == Some(i - k)
    {
      assert lines[k..][1..] == lines[k + 1..];
      var trimmed := JsTrim(lines[k]);
      if IsSection(trimmed) {
        inPackage := trimmed == "[package]";
      } else if inPackage && KEY <= trimmed {
        lines := lines[k := VersionLine(lines[k], next)];
        break;
      }
      k := k + 1;
    }
    return Ok(Join(lines, EolOf(source)));
  }

  // ----- the reader returns what the writer wrote -----

  lemma {:induction false} IndexKept(lines: seq<string>, inPackage: bool, line: string)
    requires VersionIndex(lines, inPackage).Some? && IsVersion(JsTrim(line))
    ensures var i := VersionIndex(lines, inPackage).value;
            VersionIndex(lines[i := line], inPackage) == Some(i)
  {
    var i := VersionIndex(lines, inPackage).value;
    var next := lines[i := line];
    if i > 0 {
      var trimmed := JsTrim(lines[0]);
      assert next[1..] == lines[1..][i - 1 := line];
      IndexKept(lines[1..], if IsSection(trimmed) then trimmed == "[package]" else inPackage, line);
    }
  }

  lemma QuoteTrims(a: string, next: string)
    requires All(a, JsSpace)
    ensures JsTrim(a + (KEY + Quote(next))) == KEY + Quote(next)
    ensures JsTrim(Quote(next)) == Quote(next)
  {
    var q, s := Quote(next), KEY + Quote(next);
    assert !JsSpace('v') && !JsSpace('"');
    assert s[0] == 'v' && s[|s| - 1] == '"' && q[0] == '"' && q[|q| - 1] == '"';
    TrimInside(a, s, "", JsSpace);
    assert a + s + "" == a + s;
    TrimInside("", q, "", JsSpace);
    assert "" + q + "" == q;
  }

  lemma LineReads(line: string, next: string)
    ensures IsVersion(JsTrim(VersionLine(line, next))) && LineVersion(VersionLine(line, next)) == Ok(next)
  {
    TakeWhileCuts(line, JsSpace);
    QuoteTrims(TakeWhile(line, JsSpace), next);
    QuoteThenUnquote(next);
    assert (KEY + Quote(next))[|KEY|..] == Quote(next);
  }

  lemma {:induction false} EscapeOneLine(s: string)
    ensures '\n' !in Escape(s)
  {
    if s != "" { EscapeOneLine(s[1..]); }
  }

  lemma VersionLineShape(line: string, next: string)
    requires '\n' !in line
    ensures '\n' !in VersionLine(line, next) && !EndsInCr(VersionLine(line, next))
  {
    EscapeOneLine(next);
    var a := TakeWhile(line, JsSpace);
    assert forall c :: c in a ==> c in line;
    assert VersionLine(line, next)[|VersionLine(line, next)| - 1] == '"';
  }

  lemma LineSteady(lines: seq<string>, i: nat, next: string, eol: string)
    requires i < |lines| && Steady(lines, eol)
    ensures Steady(lines[i := VersionLine(lines[i], next)], eol)
  {
    VersionLineShape(lines[i], next);
  }

  /** After a successful write the reader returns the written version, and every other
      line is as it was and in the same place. */
  lemma VersionWritten(source: string, next: string, semver: Semver)
    requires semver(next) == Some(next) && WithVersion(source, next, semver).Ok?
    ensures var text := WithVersion(source, next, semver).value;
            && ReadVersion(text, semver) == Ok(next)
            && VersionIndex(Lines(source), false).Some?
            && var i := VersionIndex(Lines(source), false).value;
            && |Lines(text)| == |Lines(source)|
            && VersionIndex(Lines(text), false) == Some(i)
            && (forall k :: 0 <= k < |Lines(source)| && k != i ==> Lines(text)[k] == Lines(source)[k])
  {
    var lines := Lines(source);
    var i := VersionIndex(lines, false).value;
    var eol := EolOf(source);
    if ReadVersion(source, semver) != Ok(next) {
      var line := VersionLine(lines[i], next);
      LinesSteady(source, eol);
      LineSteady(lines, i, next, eol);
      LinesJoined(lines[i := line], eol);
      LineReads(lines[i], next);
      IndexKept(lines, false, line);
    }
  }
}
