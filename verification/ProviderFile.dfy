/** Parsing the text of a provider: one or more addresses or networks a line,
    with comments (packages/realip/src/providers.rs, packages/realip/src/config.rs). */
module ProviderFile {
  import opened Wrappers
  import opened Sequences
  import opened Characters
  import opened Text
  import opened RealIpChain

  /** Parsing of a network and of a bare address. */
  datatype Parsers = Parsers(net: string -> Option<Cidr>, ip: string -> Option<IpAddr>)

  /** `parse_ip_or_cidr`: a bare address stands for the network of just itself. */
  function ParseIpOrCidr(ps: Parsers, entry: string): Option<Cidr> {
    if ps.net(entry).Some? then ps.net(entry)
    else
      match ps.ip(entry)
      case None => None
      case Some(V4(a)) => Some(Cidr(V4(a), 32))
      case Some(V6(a)) => Some(Cidr(V6(a), 128))
  }

  // ----- lines and entries -----

  predicate IsNewline(c: char) { c == '\n' }
  predicate IsHash(c: char) { c == '#' }
  predicate IsSeparator(c: char) { c == ',' || AsciiSpace(c) }

  /** Entries are cut at commas, blanks, tabs, form feeds and line breaks. */
  lemma SeparatorIs(c: char)
    ensures IsSeparator(c) <==> c in {',', ' ', '\t', '\n', '\r', '\U{C}'}
  {
  }

  function StripCr(s: string): string { if s != "" && s[|s| - 1] == '\r' then s[..|s| - 1] else s }

  /** Rust's `str::lines`: line ends are `\n` or `\r\n`, and the text after the
      last one is a line only if there is any. */
  function Lines(content: string): seq<string> {
    var pieces := Split(content, IsNewline);
    var last := pieces[|pieces| - 1];
    Map(pieces[..|pieces| - 1], StripCr) + if last == "" then [] else [last]
  }

  /** The entries of a line: what stands before a `#`, cut at commas and ASCII whitespace. */
  function LineEntries(line: string): seq<string> {
    Words(Trim(Split(line, IsHash)[0], RustSpace), IsSeparator)
  }

  function AllEntries(lines: seq<string>): seq<string> { FlatMap(lines, LineEntries) }

  function Entries(content: string): seq<string> { AllEntries(Lines(content)) }

  /** All entries parsed, or the first that does not parse. */
  function ParseList(ps: Parsers, entries: seq<string>): Result<seq<Cidr>, string> {
    if entries == [] then Ok([])
    else
      var rest, entry := ParseList(ps, entries[..|entries| - 1]), entries[|entries| - 1];
      if rest.Err? then rest
      else
        var cidr := ParseIpOrCidr(ps, entry);
        if cidr.None? then Err(entry) else Ok(rest.value + [cidr.value])
  }

  /** The inner loop of `parse_entries`: one line's entries added to `cidrs`, or
      the first bad one. */
  method ParseLine(ps: Parsers, entries: seq<string>, cidrs: seq<Cidr>, ghost before: seq<string>)
    returns (r: Result<seq<Cidr>, string>)
    requires ParseList(ps, before) == Ok(cidrs)
    ensures r == ParseList(ps, before + entries)
  {
    var out := cidrs;
    assert before + entries[..0] == before;
    for j := 0 to |entries|
      invariant ParseList(ps, before + entries[..j]) == Ok(out)
    {
      assert (before + entries[..j + 1])[..|before| + j] == before + entries[..j];
      var cidr := ParseIpOrCidr(ps, entries[j]);
      if cidr.None? {
        assert before + entries == before + entries[..j + 1] + entries[j + 1..];
        ErrorStays(ps, before + entries[..j + 1], entries[j + 1..]);
        return Err(entries[j]);
      }
      out := out + [cidr.value];
    }
    assert entries[..|entries|] == entries;
    return Ok(out);
  }

  /** Comment and surrounding blanks cut off; a line with nothing left is skipped. */
  method EntriesOf(line: string) returns (entries: seq<string>)
    ensures entries == LineEntries(line)
  {
    var rest := Trim(Split(line, IsHash)[0], RustSpace);
    if rest == "" {
      WordsOne("", IsSeparator);
      return [];
    }
    return Words(rest, IsSeparator);
  }

  /** `parse_entries`. */
  method ParseEntries(ps: Parsers, content: string) returns (r: Result<seq<Cidr>, string>)
    ensures r == ParseList(ps, Entries(content))
  {
    r := ParseLines(ps, Lines(content));
  }

  method ParseLines(ps: Parsers, lines: seq<string>) returns (r: Result<seq<Cidr>, string>)
    ensures r == ParseList(ps, AllEntries(lines))
  {
    r := Ok([]);
    for i := 0 to |lines|
      invariant r.Ok? && r == ParseList(ps, AllEntries(lines[..i]))
    {
      EntriesPrefix(lines, i);
      var entries := EntriesOf(lines[i]);
      ghost var before := AllEntries(lines[..i]);
      r := ParseLine(ps, entries, r.value, before);
      if r.Err? {
        ErrorStays(ps, before + entries, AllEntries(lines[i + 1..]));
        return;
      }
    }
    assert lines[..|lines|] == lines;
  }

  lemma {:induction false} ErrorStays(ps: Parsers, a: seq<string>, b: seq<string>)
    requires ParseList(ps, a).Err?
    ensures ParseList(ps, a + b) == ParseList(ps, a)
  {
    if b == [] {
      assert a + b == a;
    } else {
      assert (a + b)[..|a + b| - 1] == a + b[..|b| - 1];
      ErrorStays(ps, a, b[..|b| - 1]);
    }
  }

  /** A bare address stands for a network that holds that address and no other. */
  lemma BareAddressIsItself(ps: Parsers, entry: string, ip: IpAddr, other: IpAddr)
    requires ps.net(entry).None? && ps.ip(entry) == Some(ip)
    ensures ParseIpOrCidr(ps, entry).Some?
    ensures Contains(ParseIpOrCidr(ps, entry).value, other) <==> other == ip
  {
    assert Pow2(0) == 1;
  }

  ghost predicate FirstBad(ps: Parsers, entries: seq<string>, i: int) {
    && 0 <= i < |entries| && ParseIpOrCidr(ps, entries[i]).None?
    && forall j :: 0 <= j < i ==> ParseIpOrCidr(ps, entries[j]).Some?
  }

  /** The list parses exactly when every entry does, to the networks of its entries in
      order; otherwise the first entry that does not parse is reported. */
  lemma {:induction false} ParseListExactly(ps: Parsers, entries: seq<string>)
    ensures match ParseList(ps, entries)
      case Ok(r) => |r| == |entries| && forall i :: 0 <= i < |r| ==> ParseIpOrCidr(ps, entries[i]) == Some(r[i])
      case Err(e) => exists i :: FirstBad(ps, entries, i) && e == entries[i]
  {
    if entries != [] {
      var n := |entries| - 1;
      ParseListExactly(ps, entries[..n]);
      if ParseList(ps, entries[..n]).Err? {
        var i :| FirstBad(ps, entries[..n], i) && ParseList(ps, entries[..n]).error == entries[..n][i];
        assert FirstBad(ps, entries, i);
      } else if ParseIpOrCidr(ps, entries[n]).None? {
        assert FirstBad(ps, entries, n);
      }
    }
  }

  lemma EntriesPrefix(lines: seq<string>, i: nat)
    requires i < |lines|
    ensures AllEntries(lines[..i + 1]) == AllEntries(lines[..i]) + LineEntries(lines[i])
    ensures AllEntries(lines) == AllEntries(lines[..i]) + LineEntries(lines[i]) + AllEntries(lines[i + 1..])
  {
    assert lines[..i + 1][..i] == lines[..i];
    assert lines == lines[..i + 1] + lines[i + 1..];
    FlatMapConcat(lines[..i + 1], lines[i + 1..], LineEntries);
  }

  // ----- joining texts -----

  lemma {:induction false} FirstPieceMore(s: string, b: string)
    requires None_(b, IsHash)
    ensures Split(s + b, IsHash)[0] == Split(s, IsHash)[0] || Split(s + b, IsHash)[0] == Split(s, IsHash)[0] + b
  {
    if s == "" {
      assert s + b == b;
      SplitOne(b, IsHash);
    } else {
      assert (s + b)[1..] == s[1..] + b;
      FirstPieceMore(s[1..], b);
    }
  }

  lemma CarriageReturnIrrelevant(line: string)
    ensures LineEntries(StripCr(line)) == LineEntries(line)
  {
    if line != "" && line[|line| - 1] == '\r' {
      var s := line[..|line| - 1];
      assert line == s + "\r";
      FirstPieceMore(s, "\r");
      TrimTail(Split(s, IsHash)[0], "\r", RustSpace);
    }
  }

  lemma EmptyLine()
    ensures LineEntries("") == []
  {
    WordsOne("", IsSeparator);
  }

  /** The entries of a text are those of the pieces between its newlines. */
  lemma EntriesOfPieces(content: string)
    ensures Entries(content) == FlatMap(Split(content, IsNewline), LineEntries)
  {
    var pieces := Split(content, IsNewline);
    var init, last := pieces[..|pieces| - 1], pieces[|pieces| - 1];
    forall x | x in init ensures LineEntries(StripCr(x)) == LineEntries(x) { CarriageReturnIrrelevant(x); }
    FlatMapSame(init, StripCr, LineEntries);
    FlatMapConcat(Map(init, StripCr), if last == "" then [] else [last], LineEntries);
    FlatMapOne(last, LineEntries);
    EmptyLine();
  }

  /** A text of one line. */
  lemma EntriesOfLine(line: string)
    requires None_(line, IsNewline)
    ensures Entries(line) == LineEntries(line)
  {
    EntriesOfPieces(line);
    SplitOne(line, IsNewline);
    FlatMapOne(line, LineEntries);
  }

  lemma EntriesJoin(a: string, b: string)
    ensures Entries(a + "\n" + b) == Entries(a) + Entries(b)
  {
    EntriesOfPieces(a);
    EntriesOfPieces(b);
    EntriesOfPieces(a + "\n" + b);
    SplitAtSeparator(a, '\n', b, IsNewline);
    FlatMapConcat(Split(a, IsNewline), Split(b, IsNewline), LineEntries);
  }

  lemma {:induction false} ParseListConcat(ps: Parsers, a: seq<string>, b: seq<string>)
    ensures ParseList(ps, a + b) ==
      if ParseList(ps, a).Err? then ParseList(ps, a)
      else if ParseList(ps, b).Err? then ParseList(ps, b)
      else Ok(ParseList(ps, a).value + ParseList(ps, b).value)
  {
    if b == [] {
      assert a + b == a;
      if ParseList(ps, a).Ok? { assert ParseList(ps, a).value + [] == ParseList(ps, a).value; }
    } else {
      var n := |b| - 1;
      assert (a + b)[..|a + b| - 1] == a + b[..n] && (a + b)[|a + b| - 1] == b[n];
      ParseListConcat(ps, a, b[..n]);
      if ParseList(ps, a).Ok? && ParseList(ps, b).Ok? {
        var x, y := ParseList(ps, a).value, ParseList(ps, b[..n]).value;
        var z := ParseIpOrCidr(ps, b[n]).value;
        assert (x + y) + [z] == x + (y + [z]);
      }
    }
  }

  /** Parsing is a homomorphism over lines: two texts joined by a newline parse to
      the concatenation of their lists, or fail on the leftmost bad entry. */
  lemma ParseJoin(ps: Parsers, a: string, b: string)
    ensures var left, right := ParseList(ps, Entries(a)), ParseList(ps, Entries(b));
      ParseList(ps, Entries(a + "\n" + b)) ==
        if left.Err? then left else if right.Err? then right else Ok(left.value + right.value)
  {
    EntriesJoin(a, b);
    ParseListConcat(ps, Entries(a), Entries(b));
  }

  // ----- comments, blank lines, separators -----

  /** A comment, even one with separators and further hashes in it, changes nothing. */
  lemma CommentIrrelevant(line: string, comment: string)
    requires None_(line, IsNewline) && None_(line, IsHash) && None_(comment, IsNewline)
    ensures Entries(line + "#" + comment) == Entries(line)
  {
    AllConcat(line, "#", IsNewline);
    AllConcat(line + "#", comment, IsNewline);
    EntriesOfLine(line);
    EntriesOfLine(line + "#" + comment);
    SplitAtSeparator(line, '#', comment, IsHash);
    SplitOne(line, IsHash);
  }

  /** A blank line between two texts changes nothing. */
  lemma BlankLineIrrelevant(a: string, blank: string, b: string)
    requires All(blank, RustSpace) && None_(blank, IsNewline)
    ensures Entries(a + "\n" + blank + "\n" + b) == Entries(a + "\n" + b)
  {
    BlankLineGrouped(a, blank, b);
    EntriesJoin(a, blank + "\n" + b);
    EntriesJoin(blank, b);
    EntriesJoin(a, b);
    BlankEntries(blank);
  }

  lemma BlankLineGrouped(a: string, blank: string, b: string)
    ensures a + "\n" + blank + "\n" + b == a + "\n" + (blank + "\n" + b)
  {
  }

  lemma BlankEntries(blank: string)
    requires All(blank, RustSpace) && None_(blank, IsNewline)
    ensures Entries(blank) == []
  {
    EntriesOfLine(blank);
    assert None_(blank, IsHash);
    SplitOne(blank, IsHash);
    TrimStartAll(blank, RustSpace);
    WordsOne("", IsSeparator);
  }

  /** Entries written on one line, each after its own run of separators. */
  function Laid(entries: seq<string>, gaps: seq<string>): string
    requires |gaps| == |entries|
  {
    if entries == [] then ""
    else
      var n := |entries| - 1;
      Laid(entries[..n], gaps[..n]) + gaps[n] + entries[n]
  }

  ghost predicate PlainEntry(e: string) { e != "" && None_(e, IsSeparator) && None_(e, RustSpace) && None_(e, IsHash) }

  ghost predicate SeparatorRun(g: string) { All(g, IsSeparator) && None_(g, IsNewline) }

  /** Plain entries, with at least one separator between any two. */
  ghost predicate Separated(entries: seq<string>, gaps: seq<string>) {
    && |gaps| == |entries|
    && forall i :: 0 <= i < |entries| ==> PlainEntry(entries[i]) && SeparatorRun(gaps[i]) && (i > 0 ==> gaps[i] != "")
  }

  /** Neither a newline nor a hash, and no whitespace that does not separate. */
  predicate Ordinary(c: char) { !IsNewline(c) && !IsHash(c) && (RustSpace(c) ==> IsSeparator(c)) }

  lemma WordsAppend(s: string, gap: string, e: string)
    requires PlainEntry(e) && SeparatorRun(gap) && (gap != "" || s == "")
    ensures Words(s + gap + e, IsSeparator) == Words(s, IsSeparator) + [e]
  {
    WordsOne(e, IsSeparator);
    if s == "" {
      WordsOne("", IsSeparator);
      assert s + gap + e == gap + e;
      WordsAfterSeparators(gap, e, IsSeparator);
    } else {
      WordsAcross(s, gap, e, IsSeparator);
    }
  }

  lemma {:induction false} LaidWords(entries: seq<string>, gaps: seq<string>)
    requires Separated(entries, gaps)
    ensures Words(Laid(entries, gaps), IsSeparator) == entries
  {
    if entries == [] {
      WordsOne("", IsSeparator);
    } else {
      var n := |entries| - 1;
      LaidWords(entries[..n], gaps[..n]);
      WordsAppend(Laid(entries[..n], gaps[..n]), gaps[n], entries[n]);
      assert entries == entries[..n] + [entries[n]];
    }
  }

  lemma {:induction false} LaidOrdinary(entries: seq<string>, gaps: seq<string>)
    requires Separated(entries, gaps)
    ensures All(Laid(entries, gaps), Ordinary)
  {
    if entries != [] {
      var n := |entries| - 1;
      var init := Laid(entries[..n], gaps[..n]);
      LaidOrdinary(entries[..n], gaps[..n]);
      EntryOrdinary(entries[n]);
      RunOrdinary(gaps[n]);
      AllConcat(init, gaps[n], Ordinary);
      AllConcat(init + gaps[n], entries[n], Ordinary);
    }
  }

  lemma EntryOrdinary(e: string)
    requires PlainEntry(e)
    ensures All(e, Ordinary)
  {
    forall i | 0 <= i < |e| ensures Ordinary(e[i]) {
      assert !IsSeparator(e[i]) && !RustSpace(e[i]) && !IsHash(e[i]);
    }
  }

  lemma RunOrdinary(g: string)
    requires SeparatorRun(g)
    ensures All(g, Ordinary)
  {
    forall i | 0 <= i < |g| ensures Ordinary(g[i]) {
      assert IsSeparator(g[i]) && !IsNewline(g[i]);
    }
  }

  /** Whatever runs of commas and blanks stand before, between and after them, the same
      entries are read. */
  lemma SeparatorsIrrelevant(entries: seq<string>, gaps: seq<string>, end: string)
    requires Separated(entries, gaps) && SeparatorRun(end)
    ensures Entries(Laid(entries, gaps) + end) == entries
  {
    var line := Laid(entries, gaps) + end;
    LaidWords(entries, gaps);
    WordsBeforeSeparators(Laid(entries, gaps), end, IsSeparator);
    LaidOrdinary(entries, gaps);
    RunOrdinary(end);
    AllConcat(Laid(entries, gaps), end, Ordinary);
    assert forall i :: 0 <= i < |line| ==> Ordinary(line[i]);
    EntriesOfLine(line);
    SplitOne(line, IsHash);
    WordsTrimmed(line, RustSpace, IsSeparator);
  }
}
