/** Lists of strings written as one delimited string, and scopes
    (packages/utils/src/ser.rs and `Scope` in packages/creds/src/jwt.rs). */
module Delimited {
  import opened Wrappers
  import opened Sequences
  import opened Text
  import opened Characters
  import opened JsonString

  predicate CommaOrSpace(c: char) { c == ',' || RustSpace(c) }

  // ----- printing -----

  function Print(items: seq<string>): string { Join(Map(items, Quote), " ") }

  /** Each item as a JSON string, joined by one space. */
  method Serialize(items: seq<string>) returns (r: string)
    ensures r == Print(items)
  {
    var parts: seq<string> := [];
    for i := 0 to |items|
      invariant parts == Map(items, Quote)[..i]
    {
      parts := parts + [Quote(items[i])];
    }
    assert parts == Map(items, Quote);
    r := Join(parts, " ");
  }

  function PrintScope(items: seq<string>): string { Join(items, " ") }

  // ----- parsing -----

  predicate LooksQuoted(t: string) { t != "" && t[0] == '"' && t[|t| - 1] == '"' }

  /** A token that starts and ends with a quote is read as JSON, any other is
      quoted first. */
  function ReadToken(t: string): Option<string> {
    Unquote(if LooksQuoted(t) then t else Quote(t))
  }

  /** All tokens read, or nothing if one of them cannot be. */
  function ReadTokens(tokens: seq<string>): (r: Option<seq<string>>)
    ensures r.Some? ==> |r.value| == |tokens|
  {
    if tokens == [] then Some([])
    else
      var init, last := ReadTokens(tokens[..|tokens| - 1]), ReadToken(tokens[|tokens| - 1]);
      if init.None? || last.None? then None else Some(init.value + [last.value])
  }

  function RustTrim(s: string): string { Trim(s, RustSpace) }

  function ParseCommaOrSpace(s: string): Option<seq<string>> {
    ReadTokens(Filter(Map(Split(s, CommaOrSpace), RustTrim), NonEmpty))
  }

  function ParseSpace(s: string): Option<seq<string>> {
    ReadTokens(Filter(Map(Words(s, RustSpace), RustTrim), NonEmpty))
  }

  // ----- both parsers read words -----

  /** The delimiters of one of the two parsers: all whitespace, perhaps the comma too. */
  ghost predicate Delimiting(sep: CharTest) {
    && (forall c: char :: sep(c) ==> CommaOrSpace(c))
    && (forall c: char :: RustSpace(c) ==> sep(c))
  }

  lemma {:induction false} TrimClean(pieces: seq<string>, sep: CharTest)
    requires Delimiting(sep)
    requires forall p :: p in pieces ==> None_(p, sep)
    ensures Map(pieces, RustTrim) == pieces
  {
    forall i | 0 <= i < |pieces| ensures RustTrim(pieces[i]) == pieces[i] {
      var p := pieces[i];
      assert p in pieces;
      TrimInside("", p, "", RustSpace);
      assert "" + p + "" == p;
    }
  }

  lemma ParsersReadWords(s: string)
    ensures ParseCommaOrSpace(s) == ReadTokens(Words(s, CommaOrSpace))
    ensures ParseSpace(s) == ReadTokens(Words(s, RustSpace))
  {
    SplitClean(s, CommaOrSpace);
    TrimClean(Split(s, CommaOrSpace), CommaOrSpace);
    SplitClean(s, RustSpace);
    TrimClean(Words(s, RustSpace), RustSpace);
    FilterIdempotent(Split(s, RustSpace), NonEmpty);
  }

  lemma ReadUnquoted(t: string)
    requires !LooksQuoted(t)
    ensures ReadToken(t) == Some(t)
  {
    QuoteThenUnquote(t);
  }

  lemma ReadQuoted(s: string)
    ensures ReadToken(Quote(s)) == Some(s)
  {
    QuoteThenUnquote(s);
  }

  // ----- round trip of a quoted list -----

  /** A delimiter that JSON escaping does not hide: controls below U+0020 become
      escapes, everything else is written as it is. */
  predicate Exposed(c: char, sep: CharTest) { sep(c) && c as int >= 0x20 }

  ghost predicate Unexposed(s: string, sep: CharTest) { forall i :: 0 <= i < |s| ==> !Exposed(s[i], sep) }

  lemma EscapeCharExposes(c: char, sep: CharTest)
    requires Delimiting(sep)
    ensures None_(EscapeChar(c), sep) <==> !Exposed(c, sep)
  {
    if EscapeChar(c) == [c] {
      assert EscapeChar(c)[0] == c;
      assert sep(c) ==> CommaOrSpace(c);
    } else {
      assert forall i :: 0 <= i < |EscapeChar(c)| ==> !CommaOrSpace(EscapeChar(c)[i]);
    }
  }

  lemma {:induction false} EscapeExposes(s: string, sep: CharTest)
    requires Delimiting(sep)
    ensures None_(Escape(s), sep) <==> Unexposed(s, sep)
  {
    if s != "" {
      EscapeCharExposes(s[0], sep);
      EscapeExposes(s[1..], sep);
      AllConcat(EscapeChar(s[0]), Escape(s[1..]), sep);
      assert s == [s[0]] + s[1..];
    }
  }

  lemma QuoteExposes(s: string, sep: CharTest)
    requires Delimiting(sep)
    ensures None_(Quote(s), sep) <==> Unexposed(s, sep)
  {
    EscapeExposes(s, sep);
    assert !CommaOrSpace('"') && None_("\"", sep);
    AllConcat("\"", Escape(s), sep);
    AllConcat("\"" + Escape(s), "\"", sep);
  }

  /** A text with a character that does not delimit has a word. */
  lemma {:induction false} HasWord(s: string, sep: CharTest)
    requires !All(s, sep)
    ensures Words(s, sep) != []
  {
    if sep(s[0]) {
      assert s == "" + [s[0]] + s[1..];
      WordsAtSeparator("", s[0], s[1..], sep);
      HasWord(s[1..], sep);
    } else if None_(s, sep) {
      WordsOne(s, sep);
    } else {
      assert !None_(s, sep);
      var i :| 0 <= i < |s| && sep(s[i]);
      assert s == s[..i] + [s[i]] + s[i + 1..];
      WordsAtSeparator(s[..i], s[i], s[i + 1..], sep);
      assert !sep(s[..i][0]);
      HasWord(s[..i], sep);
    }
  }

  /** A quoted item stays one word, or becomes several if a delimiter is exposed. */
  lemma QuotedWords(s: string, sep: CharTest)
    requires Delimiting(sep)
    ensures Unexposed(s, sep) ==> Words(Quote(s), sep) == [Quote(s)]
    ensures !Unexposed(s, sep) ==> |Words(Quote(s), sep)| >= 2
  {
    var q := Quote(s);
    QuoteExposes(s, sep);
    if Unexposed(s, sep) {
      WordsOne(q, sep);
    } else {
      var i :| 0 <= i < |q| && sep(q[i]);
      assert !CommaOrSpace('"') && !sep(q[0]) && !sep(q[|q| - 1]);
      assert q == q[..i] + [q[i]] + q[i + 1..];
      WordsAtSeparator(q[..i], q[i], q[i + 1..], sep);
      assert !sep(q[..i][0]) && !sep(q[i + 1..][|q| - i - 2]);
      HasWord(q[..i], sep);
      HasWord(q[i + 1..], sep);
    }
  }

  ghost predicate AllUnexposed(items: seq<string>, sep: CharTest) {
    forall i :: 0 <= i < |items| ==> Unexposed(items[i], sep)
  }

  lemma {:induction false} PrintedWords(items: seq<string>, sep: CharTest)
    requires Delimiting(sep)
    ensures var words := FlatMap(Map(items, Quote), s => Words(s, sep));
            if AllUnexposed(items, sep) then words == Map(items, Quote) else |words| > |items|
    ensures |FlatMap(Map(items, Quote), s => Words(s, sep))| >= |items|
  {
    if items != [] {
      var init, last := items[..|items| - 1], items[|items| - 1];
      assert items == init + [last];
      assert Map(items, Quote)[..|items| - 1] == Map(init, Quote);
      PrintedWords(init, sep);
      QuotedWords(last, sep);
    }
  }

  lemma {:induction false} ReadQuotedItems(items: seq<string>)
    ensures ReadTokens(Map(items, Quote)) == Some(items)
  {
    if items != [] {
      var init, last := items[..|items| - 1], items[|items| - 1];
      assert items == init + [last];
      assert Map(items, Quote)[..|items| - 1] == Map(init, Quote);
      ReadQuotedItems(init);
      ReadQuoted(last);
    }
  }

  lemma PrintThenRead(items: seq<string>, sep: CharTest)
    requires Delimiting(sep)
    ensures ReadTokens(Words(Print(items), sep)) == Some(items) <==> AllUnexposed(items, sep)
  {
    assert RustSpace(' ') && All(" ", sep);
    WordsJoined(Map(items, Quote), " ", sep);
    PrintedWords(items, sep);
    ReadQuotedItems(items);
  }

  /** A printed list parses back to itself exactly when no item holds a comma or a
      whitespace character from U+0020 on. */
  lemma CommaOrSpaceRoundTrip(items: seq<string>)
    ensures ParseCommaOrSpace(Print(items)) == Some(items) <==> AllUnexposed(items, CommaOrSpace)
  {
    ParsersReadWords(Print(items));
    PrintThenRead(items, CommaOrSpace);
  }

  /** The same for the parser that does not split at commas. */
  lemma SpaceRoundTrip(items: seq<string>)
    ensures ParseSpace(Print(items)) == Some(items) <==> AllUnexposed(items, RustSpace)
  {
    ParsersReadWords(Print(items));
    PrintThenRead(items, RustSpace);
  }

  /** U+0085 is a control character, but not one that JSON escapes. */
  lemma NextLineIsLost()
    ensures ParseSpace(Print([[0x85 as char]])) != Some([[0x85 as char]])
  {
    var items := [[0x85 as char]];
    SpaceRoundTrip(items);
    assert Exposed(items[0][0], RustSpace);
  }

  // ----- round trip of a scope -----

  function Size(items: seq<string>): nat {
    if items == [] then 0 else Size(items[..|items| - 1]) + |items[|items| - 1]|
  }

  lemma {:induction false} SizeConcat(a: seq<string>, b: seq<string>)
    ensures Size(a + b) == Size(a) + Size(b)
  {
    if b == [] {
      assert a + b == a;
    } else {
      assert (a + b)[..|a + b| - 1] == a + b[..|b| - 1];
      SizeConcat(a, b[..|b| - 1]);
    }
  }

  /** The words of a text are as long as the text only if nothing in it delimits. */
  lemma {:induction false} WordsSize(s: string, sep: CharTest)
    ensures Size(Words(s, sep)) <= |s|
    ensures Size(Words(s, sep)) == |s| <==> None_(s, sep)
    decreases |s|
  {
    if None_(s, sep) {
      WordsOne(s, sep);
      assert [s][..0] == [];
    } else {
      var i :| 0 <= i < |s| && sep(s[i]);
      var a, b := s[..i], s[i + 1..];
      assert s == a + [s[i]] + b;
      WordsAtSeparator(a, s[i], b, sep);
      SizeConcat(Words(a, sep), Words(b, sep));
      WordsSize(a, sep);
      WordsSize(b, sep);
    }
  }

  /** Reading a token never lengthens it, and shortens it exactly when it is quoted. */
  lemma {:induction false} ReadTokensSize(tokens: seq<string>)
    requires ReadTokens(tokens).Some?
    ensures Size(ReadTokens(tokens).value) <= Size(tokens)
    ensures Size(ReadTokens(tokens).value) == Size(tokens) ==> forall t :: t in tokens ==> !LooksQuoted(t)
  {
    if tokens != [] {
      var init, last := tokens[..|tokens| - 1], tokens[|tokens| - 1];
      assert tokens == init + [last];
      ReadTokensSize(init);
      if !LooksQuoted(last) { ReadUnquoted(last); }
      var r := ReadTokens(tokens).value;
      assert r[..|r| - 1] == ReadTokens(init).value;
    }
  }

  lemma {:induction false} ReadUnquotedTokens(tokens: seq<string>)
    requires forall t :: t in tokens ==> !LooksQuoted(t)
    ensures ReadTokens(tokens) == Some(tokens)
  {
    if tokens != [] {
      var init, last := tokens[..|tokens| - 1], tokens[|tokens| - 1];
      assert tokens == init + [last];
      ReadUnquotedTokens(init);
      ReadUnquoted(last);
    }
  }

  ghost predicate Unbroken(items: seq<string>, sep: CharTest) {
    forall i :: 0 <= i < |items| ==> None_(items[i], sep)
  }

  lemma {:induction false} ScopeWordsSize(items: seq<string>, sep: CharTest)
    ensures Size(FlatMap(items, s => Words(s, sep))) <= Size(items)
    ensures Size(FlatMap(items, s => Words(s, sep))) == Size(items) ==> Unbroken(items, sep)
  {
    if items != [] {
      var init, last := items[..|items| - 1], items[|items| - 1];
      ScopeWordsSize(init, sep);
      WordsSize(last, sep);
      SizeConcat(FlatMap(init, s => Words(s, sep)), Words(last, sep));
      assert forall i :: 0 <= i < |init| ==> items[i] == init[i];
    }
  }

  lemma {:induction false} ScopeWordsUnbroken(items: seq<string>, sep: CharTest)
    requires Unbroken(items, sep)
    ensures FlatMap(items, s => Words(s, sep)) == Filter(items, NonEmpty)
  {
    if items != [] {
      ScopeWordsUnbroken(items[..|items| - 1], sep);
      WordsOne(items[|items| - 1], sep);
    }
  }

  /** An item that prints as one token which parses back to it. */
  ghost predicate ScopeItem(s: string) { s != "" && None_(s, RustSpace) && !LooksQuoted(s) }

  lemma ScopeItemsAre(items: seq<string>)
    ensures (forall s :: s in items ==> ScopeItem(s)) <==>
      && Unbroken(items, RustSpace)
      && (forall s :: s in items ==> s != "")
      && (forall s :: s in items ==> !LooksQuoted(s))
  {
    assert forall i :: 0 <= i < |items| ==> items[i] in items;
  }

  lemma ReadScope(items: seq<string>, sep: CharTest)
    ensures ReadTokens(FlatMap(items, s => Words(s, sep))) == Some(items) <==>
      && Unbroken(items, sep)
      && (forall s :: s in items ==> s != "")
      && (forall s :: s in items ==> !LooksQuoted(s))
  {
    var words := FlatMap(items, s => Words(s, sep));
    ScopeWordsSize(items, sep);
    if ReadTokens(words) == Some(items) {
      ReadTokensSize(words);
      ReadUnquotedTokens(words);
    }
    if Unbroken(items, sep) {
      ScopeWordsUnbroken(items, sep);
      FilterAll(items, NonEmpty);
    }
    if forall s :: s in items ==> !LooksQuoted(s) { ReadUnquotedTokens(items); }
  }

  /** A scope survives printing and parsing exactly when each item is non-empty, has
      no whitespace and does not start and end with a quote. */
  lemma ScopeRoundTrip(items: seq<string>)
    ensures ParseSpace(PrintScope(items)) == Some(items) <==> forall s :: s in items ==> ScopeItem(s)
  {
    assert RustSpace(' ') && All(" ", RustSpace);
    ParsersReadWords(PrintScope(items));
    WordsJoined(items, " ", RustSpace);
    ReadScope(items, RustSpace);
    ScopeItemsAre(items);
  }

  /** scope-token of section 3.3 of RFC 6749. */
  predicate ScopeChar(c: char) {
    var n := c as int;
    n == 0x21 || 0x23 <= n <= 0x5B || 0x5D <= n <= 0x7E
  }

  /** Visible ASCII but the double quote and the backslash. */
  lemma ScopeCharIs(c: char)
    ensures ScopeChar(c) <==> ' ' < c <= '~' && c != '"' && c != '\\'
  {
  }

  ghost predicate ScopeToken(s: string) { s != "" && All(s, ScopeChar) }

  /** Scopes made of scope-tokens survive. */
  lemma ScopeTokensSurvive(items: seq<string>)
    requires forall s :: s in items ==> ScopeToken(s)
    ensures ParseSpace(PrintScope(items)) == Some(items)
  {
    assert !ScopeChar('"');
    assert forall c: char :: ScopeChar(c) ==> !RustSpace(c);
    ScopeRoundTrip(items);
  }
}
