/** The version reader as it passes over a manifest character by character, so that two
    texts can be compared piece by piece (`readCargoPackageVersion` in
    scripts/lib/manifest-version.ts). */
module VersionReading {
  import opened Wrappers
  import opened Text
  import opened Characters
  import opened CargoVersion

  // ----- the reader line by line -----

  /** Outside or inside `[package]`, or stopped at its first version line. */
  datatype Reader = Outside | Inside | Found(line: string)

  function Pass(r: Reader, line: string): Reader {
    var trimmed := JsTrim(line);
    if r.Found? then r
    else if IsSection(trimmed) then (if trimmed == "[package]" then Inside else Outside)
    else if r.Inside? && IsVersion(trimmed) then Found(line)
    else r
  }

  function PassAll(r: Reader, lines: seq<string>): Reader
    decreases |lines|
  {
    if lines == [] then r else PassAll(Pass(r, lines[0]), lines[1..])
  }

  lemma {:induction false} PassAllFound(r: Reader, lines: seq<string>)
    requires r.Found?
    ensures PassAll(r, lines) == r
    decreases |lines|
  {
    if lines != [] { PassAllFound(r, lines[1..]); }
  }

  lemma {:induction false} PassAllIs(lines: seq<string>, inPackage: bool)
    ensures var r, i := PassAll(if inPackage then Inside else Outside, lines), VersionIndex(lines, inPackage);
            if i.None? then !r.Found? else r == Found(lines[i.value])
    decreases |lines|
  {
    if lines != [] {
      var trimmed := JsTrim(lines[0]);
      if inPackage && IsVersion(trimmed) {
        PassAllFound(Found(lines[0]), lines[1..]);
      } else {
        PassAllIs(lines[1..], if IsSection(trimmed) then trimmed == "[package]" else inPackage);
      }
    }
  }

  // ----- and character by character -----

  /** The reader at the start of the current line, and what there is of that line. */
  datatype Cursor = Cursor(reader: Reader, part: string)

  const BEGIN := Cursor(Outside, "")

  function StripCr(line: string): string { if EndsInCr(line) then line[..|line| - 1] else line }

  function Take(k: Cursor, c: char): Cursor {
    if c == '\n' then Cursor(Pass(k.reader, StripCr(k.part)), "") else Cursor(k.reader, k.part + [c])
  }

  function Consume(k: Cursor, s: string): Cursor
    decreases |s|
  {
    if s == "" then k else Consume(Take(k, s[0]), s[1..])
  }

  function Finish(k: Cursor): Reader { Pass(k.reader, k.part) }

  lemma {:induction false} ConsumeConcat(k: Cursor, s: string, t: string)
    ensures Consume(k, s + t) == Consume(Consume(k, s), t)
    decreases |s|
  {
    if s == "" {
      assert s + t == t;
    } else {
      assert (s + t)[1..] == s[1..] + t;
      ConsumeConcat(Take(k, s[0]), s[1..], t);
    }
  }

  lemma ConsumeOne(k: Cursor, c: char)
    ensures Consume(k, [c]) == Take(k, c)
  {
    assert [c][1..] == "";
  }

  /** Text without a line break only grows the current line. */
  lemma {:induction false} ConsumePlain(k: Cursor, s: string)
    requires '\n' !in s
    ensures Consume(k, s) == Cursor(k.reader, k.part + s)
    decreases |s|
  {
    if s == "" {
      assert k.part + s == k.part;
    } else {
      assert forall c :: c in s[1..] ==> c in s;
      ConsumePlain(Take(k, s[0]), s[1..]);
      assert k.part + [s[0]] + s[1..] == k.part + s;
    }
  }

  lemma LineEnds(part: string, s: string)
    requires '\n' !in part
    ensures Lines(part + ("\n" + s)) == [StripCr(part)] + Lines(s)
  {
    if EndsInCr(part) {
      var init := StripCr(part);
      assert part + ("\n" + s) == init + ("\r\n" + s);
      LinesCons(init, "\r\n", s);
    } else {
      LinesCons(part, "\n", s);
    }
  }

  lemma LinePassed(k: Cursor, s: string)
    requires '\n' !in k.part && s != "" && s[0] == '\n'
    ensures PassAll(k.reader, Lines(k.part + s)) == PassAll(Pass(k.reader, StripCr(k.part)), Lines(s[1..]))
  {
    assert k.part + s == k.part + ("\n" + s[1..]);
    LineEnds(k.part, s[1..]);
    assert ([StripCr(k.part)] + Lines(s[1..]))[1..] == Lines(s[1..]);
  }

  lemma {:induction false} ConsumeIsLines(k: Cursor, s: string)
    requires '\n' !in k.part
    ensures Finish(Consume(k, s)) == PassAll(k.reader, Lines(k.part + s))
    decreases |s|
  {
    if s == "" {
      assert k.part + s == k.part;
      LinesOne(k.part);
      assert [k.part][1..] == [];
    } else if s[0] == '\n' {
      ConsumeIsLines(Take(k, '\n'), s[1..]);
      assert "" + s[1..] == s[1..];
      LinePassed(k, s);
    } else {
      ConsumeIsLines(Take(k, s[0]), s[1..]);
      assert k.part + [s[0]] + s[1..] == k.part + s;
    }
  }

  /** What the reader makes of a file. */
  function ReadAll(text: string): Reader { Finish(Consume(BEGIN, text)) }

  lemma ReadAllIs(text: string)
    ensures ReadAll(text).Found? ==>
      && IsVersion(JsTrim(ReadAll(text).line)) && PackageVersion(text) == LineVersion(ReadAll(text).line)
    ensures !ReadAll(text).Found? ==> PackageVersion(text) == Err(MissingVersion)
  {
    ConsumeIsLines(BEGIN, text);
    assert "" + text == text;
    PassAllIs(Lines(text), false);
  }

  lemma SameReading(a: string, b: string)
    requires ReadAll(a) == ReadAll(b) || (!ReadAll(a).Found? && !ReadAll(b).Found?)
    ensures PackageVersion(a) == PackageVersion(b)
  {
    ReadAllIs(a);
    ReadAllIs(b);
  }

  lemma {:induction false} FoundStays(k: Cursor, s: string)
    requires k.reader.Found?
    ensures Consume(k, s).reader == k.reader
    decreases |s|
  {
    if s != "" { FoundStays(Take(k, s[0]), s[1..]); }
  }

  // ----- trimming -----

  lemma TrimStripped(line: string)
    ensures JsTrim(StripCr(line)) == JsTrim(line)
  {
    if EndsInCr(line) {
      assert line == StripCr(line) + "\r" && All("\r", JsSpace);
      TrimTail(StripCr(line), "\r", JsSpace);
    }
  }

  /** Trimming takes whitespace off both ends, and only that. */
  lemma TrimParts(s: string) returns (a: string, b: string)
    ensures s == a + JsTrim(s) + b && All(a, JsSpace) && All(b, JsSpace)
    ensures TrimStart(s, JsSpace) == JsTrim(s) + b
  {
    a := TrimStartCuts(s, JsSpace);
    b := TrimEndCuts(TrimStart(s, JsSpace), JsSpace);
  }

  /** What is not whitespace is still there after trimming. */
  lemma TrimKeeps(s: string, i: nat)
    requires i < |s| && !JsSpace(s[i])
    ensures s[i] in JsTrim(s)
  {
    var a, b := TrimParts(s);
    var t := JsTrim(s);
    assert forall k :: 0 <= k < |a| ==> s[k] == a[k];
    assert forall k :: 0 <= k < |b| ==> s[|a| + |t| + k] == b[k];
    assert |a| <= i < |a| + |t|;
    assert s[i] == t[i - |a|];
  }

  lemma {:induction false} TrimStartGrows(s: string, t: string)
    requires TrimStart(s, JsSpace) != ""
    ensures TrimStart(s + t, JsSpace) == TrimStart(s, JsSpace) + t
  {
    if JsSpace(s[0]) {
      assert (s + t)[1..] == s[1..] + t;
      TrimStartGrows(s[1..], t);
    }
  }

  lemma TrimEndKeeps(v: string, u: string)
    requires v != "" && !JsSpace(v[|v| - 1])
    ensures TrimEnd(v + u, JsSpace) == v + TrimEnd(u, JsSpace)
  {
    var e := TrimEnd(u, JsSpace);
    var w := TrimEndCuts(u, JsSpace);
    assert v + u == (v + e) + w;
    TrimEndMore(v + e, w, JsSpace);
  }

  lemma TrimEndAll(w: string)
    requires All(w, JsSpace)
    ensures TrimEnd(w, JsSpace) == ""
  {
    TrimEndMore("", w, JsSpace);
    assert "" + w == w;
  }

  /** Trimming both ends leaves the same last character as trimming the end. */
  lemma TrimLast(s: string)
    requires TrimEnd(s, JsSpace) != ""
    ensures JsTrim(s) != "" && JsTrim(s)[|JsTrim(s)| - 1] == TrimEnd(s, JsSpace)[|TrimEnd(s, JsSpace)| - 1]
  {
    var a, b := TrimParts(s);
    var t := JsTrim(s);
    TrimEndMore(a + t, b, JsSpace);
    if t == "" {
      assert a + t == a;
      TrimEndAll(a);
    } else {
      var _ := TrimEndCuts(TrimStart(s, JsSpace), JsSpace);
      assert !JsSpace(t[|t| - 1]) && (a + t)[|a + t| - 1] == t[|t| - 1];
    }
  }
}
