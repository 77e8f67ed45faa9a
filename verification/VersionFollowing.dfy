/** Two readings that differ only in what one line says after its first characters stay
    together; one that has come upon a requirement in place of the version does not read
    that version any more. */
module VersionFollowing {
  import opened Text
  import opened Characters
  import opened CargoVersion
  import opened VersionReading

  // ----- lines that read alike -----

  /** Characters that a section header of the manifest's own does not contain. */
  predicate Mark(c: char) { c == '{' || c == '"' || c == ',' }

  ghost predicate Marked(s: string) { !None_(s, Mark) }

  lemma MarkedConcat(a: string, b: string)
    ensures Marked(a + b) <==> Marked(a) || Marked(b)
  {
    AllConcat(a, b, Mark);
  }

  lemma MarkedLine(line: string)
    requires Marked(line)
    ensures JsTrim(line) != "[package]" && Pass(Outside, line) == Outside
  {
    var i :| 0 <= i < |line| && Mark(line[i]);
    TrimKeeps(line, i);
    assert None_("[package]", Mark);
  }

  /** No continuation makes the line begin like a version line. */
  ghost predicate NotKey(s: string) { exists j: nat :: j < |s| && j < |KEY| && s[j] != KEY[j] }

  lemma NotKeyGrows(s: string, t: string)
    requires NotKey(s)
    ensures NotKey(s + t)
  {
    var j: nat :| j < |s| && j < |KEY| && s[j] != KEY[j];
    assert (s + t)[j] != KEY[j];
  }

  /** The last `n` characters are the same, and what stands before them ends in a mark. */
  ghost predicate SameEnd(x: string, y: string, n: nat) {
    && n < |x| && n < |y| && x[|x| - n..] == y[|y| - n..] && Mark(x[|x| - n - 1]) && Mark(y[|y| - n - 1])
  }

  /** Two beginnings of a line that begin alike, not like a version, and end alike. */
  ghost predicate Alike(x: string, y: string) {
    var s, t := TrimStart(x, JsSpace), TrimStart(y, JsSpace);
    && s != "" && t != "" && s[0] == t[0] && NotKey(s) && NotKey(t) && exists n: nat :: SameEnd(x, y, n)
  }

  lemma AlikeGrows(x: string, y: string, c: char)
    requires Alike(x, y)
    ensures Alike(x + [c], y + [c])
  {
    TrimStartGrows(x, [c]);
    TrimStartGrows(y, [c]);
    NotKeyGrows(TrimStart(x, JsSpace), [c]);
    NotKeyGrows(TrimStart(y, JsSpace), [c]);
    var n: nat :| SameEnd(x, y, n);
    SameEndGrows(x, y, n, c);
  }

  lemma SameEndGrows(x: string, y: string, n: nat, c: char)
    requires SameEnd(x, y, n)
    ensures SameEnd(x + [c], y + [c], n + 1)
  {
    var x2, y2 := x + [c], y + [c];
    assert x2[|x2| - (n + 1)..] == x[|x| - n..] + [c] && y2[|y2| - (n + 1)..] == y[|y| - n..] + [c];
  }

  /** The last character that is not whitespace. */
  lemma LastSolid(v: string, u: string)
    requires v != "" && !JsSpace(v[|v| - 1])
    ensures var s := v + u;
            && JsTrim(s) != ""
            && JsTrim(s)[|JsTrim(s)| - 1] ==
               if TrimEnd(u, JsSpace) == "" then v[|v| - 1] else TrimEnd(u, JsSpace)[|TrimEnd(u, JsSpace)| - 1]
  {
    TrimEndKeeps(v, u);
    TrimLast(v + u);
  }

  lemma TrimFirst(x: string)
    requires TrimStart(x, JsSpace) != ""
    ensures JsTrim(x) != "" && JsTrim(x)[0] == TrimStart(x, JsSpace)[0] && JsTrim(x) <= TrimStart(x, JsSpace)
  {
    var a, b := TrimParts(x);
    var _ := TrimStartCuts(x, JsSpace);
    var t := TrimStart(x, JsSpace);
    assert t[0] == (JsTrim(x) + b)[0];
  }

  lemma AlikeEnds(x: string, y: string, n: nat)
    requires SameEnd(x, y, n)
    ensures JsTrim(x) != "" && JsTrim(y) != ""
    ensures JsTrim(x)[|JsTrim(x)| - 1] == ']' <==> JsTrim(y)[|JsTrim(y)| - 1] == ']'
  {
    var u := x[|x| - n..];
    assert x == x[..|x| - n] + u && y == y[..|y| - n] + u;
    assert forall c: char :: Mark(c) ==> !JsSpace(c) && c != ']';
    LastSolid(x[..|x| - n], u);
    LastSolid(y[..|y| - n], u);
  }

  lemma AlikeSections(x: string, y: string)
    requires Alike(x, y)
    ensures IsSection(JsTrim(x)) <==> IsSection(JsTrim(y))
  {
    var n: nat :| SameEnd(x, y, n);
    AlikeEnds(x, y, n);
    TrimFirst(x);
    TrimFirst(y);
  }

  lemma AlikeMarked(x: string, y: string)
    requires Alike(x, y)
    ensures Marked(x) && Marked(y)
  {
    var n: nat :| SameEnd(x, y, n);
    assert Mark(x[|x| - n - 1]) && Mark(y[|y| - n - 1]);
  }

  lemma AlikeIsNoVersion(x: string, y: string)
    requires Alike(x, y)
    ensures !IsVersion(JsTrim(x)) && !IsVersion(JsTrim(y))
    ensures !Pass(Inside, x).Found? && !Pass(Inside, y).Found?
  {
    TrimFirst(x);
    TrimFirst(y);
    assert KEY <= JsTrim(x) ==> KEY <= TrimStart(x, JsSpace);
    assert KEY <= JsTrim(y) ==> KEY <= TrimStart(y, JsSpace);
  }

  /** So they are taken alike: as no version, and both or neither as another section. */
  lemma AlikePass(x: string, y: string)
    requires Alike(x, y)
    ensures Pass(Inside, x) == Pass(Inside, y)
  {
    AlikeSections(x, y);
    AlikeIsNoVersion(x, y);
    AlikeMarked(x, y);
    MarkedLine(x);
    MarkedLine(y);
  }

  lemma PassStripped(r: Reader, line: string)
    ensures Pass(r, StripCr(line)).Found? <==> Pass(r, line).Found?
    ensures !Pass(r, line).Found? ==> Pass(r, StripCr(line)) == Pass(r, line)
  {
    TrimStripped(line);
  }

  // ----- readings that stay together -----

  /** The first reading is as good as the second. */
  ghost predicate Similar(a: Cursor, b: Cursor) {
    || a == b
    || (a.reader.Found? && a.reader == b.reader)
    || (a.reader.Outside? && b.reader.Outside? && Marked(a.part) && Marked(b.part))
    || (a.reader.Inside? && b.reader.Inside? && Alike(a.part, b.part))
  }

  lemma SimilarTake(a: Cursor, b: Cursor, c: char)
    requires Similar(a, b)
    ensures Similar(Take(a, c), Take(b, c))
  {
    if a != b && !a.reader.Found? {
      if c == '\n' {
        PassStripped(a.reader, a.part);
        PassStripped(b.reader, b.part);
        if a.reader.Outside? {
          MarkedLine(a.part);
          MarkedLine(b.part);
        } else {
          AlikePass(a.part, b.part);
          AlikeIsNoVersion(a.part, b.part);
        }
      } else if a.reader.Outside? {
        MarkedConcat(a.part, [c]);
        MarkedConcat(b.part, [c]);
      } else {
        AlikeGrows(a.part, b.part, c);
      }
    }
  }

  lemma {:induction false} SimilarConsume(a: Cursor, b: Cursor, s: string)
    requires Similar(a, b)
    ensures Similar(Consume(a, s), Consume(b, s))
    decreases |s|
  {
    if s != "" {
      SimilarTake(a, b, s[0]);
      SimilarConsume(Take(a, s[0]), Take(b, s[0]), s[1..]);
    }
  }

  lemma SimilarFinish(a: Cursor, b: Cursor)
    requires Similar(a, b)
    ensures Finish(a) == Finish(b)
  {
    if a != b && !a.reader.Found? {
      if a.reader.Outside? {
        MarkedLine(a.part);
        MarkedLine(b.part);
      } else {
        AlikePass(a.part, b.part);
      }
    }
  }
}
