/** Trimming, splitting and joining of strings. */
module Text {
  import opened Sequences

  type CharTest = char -> bool

  ghost predicate All(s: string, p: CharTest) { forall i :: 0 <= i < |s| ==> p(s[i]) }

  ghost predicate None_(s: string, p: CharTest) { forall i :: 0 <= i < |s| ==> !p(s[i]) }

  lemma AllConcat(a: string, b: string, p: CharTest)
    ensures All(a + b, p) <==> All(a, p) && All(b, p)
    ensures None_(a + b, p) <==> None_(a, p) && None_(b, p)
  {
    assert a == (a + b)[..|a|] && b == (a + b)[|a|..];
  }

  // ----- trimming -----

  /** Rust's `trim_start` / JavaScript's `trimStart`, for the given whitespace. */
  function TrimStart(s: string, space: CharTest): string {
    if s == "" || !space(s[0]) then s else TrimStart(s[1..], space)
  }

  function TrimEnd(s: string, space: CharTest): string {
    if s == "" || !space(s[|s| - 1]) then s else TrimEnd(s[..|s| - 1], space)
  }

  function Trim(s: string, space: CharTest): string { TrimEnd(TrimStart(s, space), space) }

  lemma Regrouped(a: string, b: string, c: string)
    ensures (a + b) + c == a + (b + c)
  {
  }

  /** What is trimmed at the start is whitespace, and what is left begins with none. */
  lemma {:induction false} TrimStartCuts(s: string, space: CharTest) returns (a: string)
    ensures s == a + TrimStart(s, space) && All(a, space)
    ensures TrimStart(s, space) != "" ==> !space(TrimStart(s, space)[0])
  {
    if s == "" || !space(s[0]) {
      a := "";
    } else {
      var first, rest := [s[0]], s[1..];
      var b := TrimStartCuts(rest, space);
      a := first + b;
      Regrouped(first, b, TrimStart(rest, space));
      AllConcat(first, b, space);
      assert s == first + rest;
    }
  }

  lemma {:induction false} TrimEndCuts(s: string, space: CharTest) returns (b: string)
    ensures s == TrimEnd(s, space) + b && All(b, space)
    ensures TrimEnd(s, space) != "" ==> !space(TrimEnd(s, space)[|TrimEnd(s, space)| - 1])
  {
    if s == "" || !space(s[|s| - 1]) {
      b := "";
      assert s + b == s;
    } else {
      var init, last := s[..|s| - 1], [s[|s| - 1]];
      var a := TrimEndCuts(init, space);
      b := a + last;
      Regrouped(TrimEnd(init, space), a, last);
      AllConcat(a, last, space);
      assert s == init + last;
    }
  }

  lemma {:induction false} TrimStartAll(s: string, space: CharTest)
    requires All(s, space)
    ensures TrimStart(s, space) == ""
  {
    if s != "" { TrimStartAll(s[1..], space); }
  }

  lemma {:induction false} TrimStartSkip(a: string, s: string, space: CharTest)
    requires All(a, space)
    requires s != "" ==> !space(s[0])
    ensures TrimStart(a + s, space) == s
  {
    if a == "" {
      assert a + s == s;
    } else {
      assert (a + s)[1..] == a[1..] + s;
      TrimStartSkip(a[1..], s, space);
    }
  }

  lemma {:induction false} TrimEndMore(s: string, b: string, space: CharTest)
    requires All(b, space)
    ensures TrimEnd(s + b, space) == TrimEnd(s, space)
  {
    if b == "" {
      assert s + b == s;
    } else {
      assert (s + b)[..|s + b| - 1] == s + b[..|b| - 1];
      TrimEndMore(s, b[..|b| - 1], space);
    }
  }

  /** Text with no surrounding whitespace is what trimming finds inside whitespace. */
  lemma TrimInside(a: string, s: string, b: string, space: CharTest)
    requires All(a, space) && All(b, space)
    requires s != "" ==> !space(s[0]) && !space(s[|s| - 1])
    ensures Trim(a + s + b, space) == s
  {
    if s == "" {
      assert a + s + b == a + b;
      AllConcat(a, b, space);
      TrimStartAll(a + b, space);
    } else {
      assert a + s + b == a + (s + b);
      TrimStartSkip(a, s + b, space);
      TrimEndMore(s, b, space);
    }
  }

  /** `t` is `s` from `i` to `j`, with nothing but whitespace around that. */
  ghost predicate StripAt(t: string, s: string, space: CharTest, i: int, j: int) {
    0 <= i <= j <= |s| && t == s[i..j] && All(s[..i], space) && All(s[j..], space)
  }

  /** `t` is `s` without the whitespace around it. */
  ghost predicate Stripped(t: string, s: string, space: CharTest) {
    (t != "" ==> !space(t[0]) && !space(t[|t| - 1])) && exists i, j :: StripAt(t, s, space, i, j)
  }

  lemma TrimStrips(s: string, space: CharTest)
    ensures Stripped(Trim(s, space), s, space)
  {
    var a := TrimStartCuts(s, space);
    var rest := TrimStart(s, space);
    var b := TrimEndCuts(rest, space);
    var t := Trim(s, space);
    assert t != "" ==> t[0] == rest[0];
    StrippedBy(a, t, b, space);
    assert s == a + (t + b);
  }

  lemma StrippedBy(a: string, t: string, b: string, space: CharTest)
    requires All(a, space) && All(b, space) && (t != "" ==> !space(t[0]) && !space(t[|t| - 1]))
    ensures Stripped(t, a + (t + b), space)
  {
    var s := a + (t + b);
    assert s[|a|..|a| + |t|] == t && s[..|a|] == a && s[|a| + |t|..] == b;
    assert StripAt(t, s, space, |a|, |a| + |t|);
  }

  lemma ThreeParts(s: string, i: nat, j: nat)
    requires i <= j <= |s|
    ensures s == s[..i] + s[i..j] + s[j..]
  {
  }

  lemma StrippedTrims(t: string, s: string, space: CharTest)
    requires Stripped(t, s, space)
    ensures Trim(s, space) == t
  {
    var i, j :| StripAt(t, s, space, i, j);
    ThreeParts(s, i, j);
    TrimInside(s[..i], t, s[j..], space);
  }

  lemma TrimIff(s: string, t: string, space: CharTest)
    ensures Trim(s, space) == t <==> Stripped(t, s, space)
  {
    TrimStrips(s, space);
    if Stripped(t, s, space) { StrippedTrims(t, s, space); }
  }

  /** Whitespace added at the end is trimmed away again. */
  lemma TrimTail(s: string, b: string, space: CharTest)
    requires All(b, space)
    ensures Trim(s + b, space) == Trim(s, space)
  {
    var a := TrimStartCuts(s, space);
    var t := TrimStart(s, space);
    if t == "" {
      assert s == a;
      AllConcat(s, b, space);
      TrimStartAll(s + b, space);
    } else {
      assert s + b == a + (t + b);
      TrimStartSkip(a, t + b, space);
      TrimEndMore(t, b, space);
    }
  }

  // ----- prefixes and searches -----

  /** The first character that satisfies `p`, and what stands before it, are unique. */
  lemma FirstMark(a: string, c: char, b: string, x: string, d: char, y: string, p: CharTest)
    requires None_(a, p) && None_(x, p) && p(c) && p(d)
    requires a + ([c] + b) == x + ([d] + y)
    ensures a == x && c == d && b == y
  {
    var s := a + ([c] + b);
    assert s[|a|] == c && s[|x|] == d;
    assert forall i :: 0 <= i < |a| ==> s[i] == a[i];
    assert forall i :: 0 <= i < |x| ==> s[i] == x[i];
    assert |a| == |x|;
    assert a == s[..|a|] && x == s[..|x|];
    assert b == s[|a| + 1..] && y == s[|x| + 1..];
  }

  /** The longest prefix whose characters all satisfy `p`. */
  function TakeWhile(s: string, p: CharTest): (r: string)
    ensures r <= s
  {
    if s == "" || !p(s[0]) then "" else [s[0]] + TakeWhile(s[1..], p)
  }

  lemma {:induction false} TakeWhileCuts(s: string, p: CharTest)
    ensures All(TakeWhile(s, p), p)
    ensures |TakeWhile(s, p)| < |s| ==> !p(s[|TakeWhile(s, p)|])
  {
    if s != "" && p(s[0]) { TakeWhileCuts(s[1..], p); }
  }

  lemma {:induction false} TakeWhileStops(a: string, s: string, p: CharTest)
    requires All(a, p)
    requires s != "" ==> !p(s[0])
    ensures TakeWhile(a + s, p) == a
  {
    if a == "" {
      assert a + s == s;
    } else {
      assert (a + s)[1..] == a[1..] + s;
      TakeWhileStops(a[1..], s, p);
    }
  }

  /** What `TrimStart` removes is the leading run of whitespace. */
  lemma {:induction false} TakeThenTrim(s: string, space: CharTest)
    ensures s == TakeWhile(s, space) + TrimStart(s, space)
  {
    if s != "" && space(s[0]) {
      TakeThenTrim(s[1..], space);
      assert s == [s[0]] + s[1..];
    }
  }

  /** JavaScript's `includes`. */
  predicate Includes(s: string, word: string) {
    word <= s || (s != "" && Includes(s[1..], word))
  }

  /** The line end a manifest is written with: CRLF if it has any, else LF. */
  function EolOf(source: string): string { if Includes(source, "\r\n") then "\r\n" else "\n" }

  // ----- splitting -----

  /** The pieces between separators: one more than there are separators. */
  function Split(s: string, sep: CharTest): (r: seq<string>)
    ensures |r| >= 1
  {
    if s == "" then [""]
    else
      var r := Split(s[1..], sep);
      if sep(s[0]) then [""] + r else [[s[0]] + r[0]] + r[1..]
  }

  lemma {:induction false} SplitAtSeparator(a: string, c: char, b: string, sep: CharTest)
    requires sep(c)
    ensures Split(a + [c] + b, sep) == Split(a, sep) + Split(b, sep)
  {
    var s := a + [c] + b;
    if a == "" {
      assert s[1..] == b;
    } else {
      assert s[1..] == a[1..] + [c] + b;
      SplitAtSeparator(a[1..], c, b, sep);
    }
  }

  lemma {:induction false} SplitOne(s: string, sep: CharTest)
    requires None_(s, sep)
    ensures Split(s, sep) == [s]
  {
    if s != "" {
      assert s == [s[0]] + s[1..];
      SplitOne(s[1..], sep);
    }
  }

  predicate NonEmpty(s: string) { s != "" }

  /** The non-empty pieces: Rust's `split_whitespace` when `sep` is whitespace. */
  function Words(s: string, sep: CharTest): seq<string> { Filter(Split(s, sep), NonEmpty) }

  lemma WordsAtSeparator(a: string, c: char, b: string, sep: CharTest)
    requires sep(c)
    ensures Words(a + [c] + b, sep) == Words(a, sep) + Words(b, sep)
  {
    SplitAtSeparator(a, c, b, sep);
    FilterConcat(Split(a, sep), Split(b, sep), NonEmpty);
  }

  lemma WordsOne(s: string, sep: CharTest)
    requires None_(s, sep)
    ensures Words(s, sep) == if s == "" then [] else [s]
  {
    SplitOne(s, sep);
    assert [s][..0] == [];
  }

  lemma {:induction false} WordsAfterSeparators(gap: string, t: string, sep: CharTest)
    requires All(gap, sep)
    ensures Words(gap + t, sep) == Words(t, sep)
  {
    if gap == "" {
      assert gap + t == t;
    } else {
      assert gap + t == "" + [gap[0]] + (gap[1..] + t);
      WordsAtSeparator("", gap[0], gap[1..] + t, sep);
      WordsOne("", sep);
      WordsAfterSeparators(gap[1..], t, sep);
    }
  }

  /** Separators between two texts keep their words apart, however many there are. */
  lemma WordsAcross(s: string, gap: string, t: string, sep: CharTest)
    requires gap != "" && All(gap, sep)
    ensures Words(s + gap + t, sep) == Words(s, sep) + Words(t, sep)
  {
    assert s + gap + t == s + [gap[0]] + (gap[1..] + t);
    WordsAtSeparator(s, gap[0], gap[1..] + t, sep);
    WordsAfterSeparators(gap[1..], t, sep);
  }

  lemma WordsBeforeSeparators(s: string, gap: string, sep: CharTest)
    requires All(gap, sep)
    ensures Words(s + gap, sep) == Words(s, sep)
  {
    if gap == "" {
      assert s + gap == s;
    } else {
      assert s + gap == s + gap + "";
      WordsAcross(s, gap, "", sep);
      WordsOne("", sep);
    }
  }

  /** If all the whitespace of a text separates, trimming does not change its words. */
  lemma WordsTrimmed(s: string, space: CharTest, sep: CharTest)
    requires forall i :: 0 <= i < |s| && space(s[i]) ==> sep(s[i])
    ensures Words(Trim(s, space), sep) == Words(s, sep)
  {
    var a := TrimStartCuts(s, space);
    var t := TrimStart(s, space);
    var b := TrimEndCuts(t, space);
    var u := TrimEnd(t, space);
    assert s == a + u + b;
    assert forall i :: 0 <= i < |a| ==> a[i] == s[i];
    assert forall i :: 0 <= i < |b| ==> b[i] == s[|a| + |u| + i];
    WordsAfterSeparators(a, t, sep);
    WordsBeforeSeparators(u, b, sep);
  }

  /** No piece contains a separator. */
  lemma {:induction false} SplitClean(s: string, sep: CharTest)
    ensures forall p :: p in Split(s, sep) ==> None_(p, sep)
  {
    if s != "" {
      SplitClean(s[1..], sep);
      var r := Split(s[1..], sep);
      assert r[0] in r;
      assert forall p :: p in r[1..] ==> p in r;
    }
  }

  // ----- joining -----

  /** The parts with the delimiter between them. */
  function Join(parts: seq<string>, delimiter: string): string {
    if parts == [] then ""
    else if |parts| == 1 then parts[0]
    else Join(parts[..|parts| - 1], delimiter) + delimiter + parts[|parts| - 1]
  }

  /** Splitting a joined text at the delimiter's characters gives each part's words in turn. */
  lemma {:induction false} WordsJoined(parts: seq<string>, delimiter: string, sep: CharTest)
    requires delimiter != "" && All(delimiter, sep)
    ensures Words(Join(parts, delimiter), sep) == FlatMap(parts, s => Words(s, sep))
  {
    var f := s => Words(s, sep);
    if parts == [] {
      WordsOne("", sep);
    } else {
      var init, last := parts[..|parts| - 1], parts[|parts| - 1];
      assert parts == init + [last];
      WordsJoined(init, delimiter, sep);
      if init == [] {
        WordsOne("", sep);
      } else {
        WordsAcross(Join(init, delimiter), delimiter, last, sep);
      }
    }
  }
}
