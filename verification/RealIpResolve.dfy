/** Choosing the client address among prioritised sources (packages/realip/src/resolve.rs). */
module RealIpResolve {
  import opened Wrappers
  import opened Sequences
  import opened Characters
  import opened Text
  import opened RealIpChain

  datatype HeaderMode = Single | Recursive

  datatype HeaderInput = HeaderInput(kind: string, mode: HeaderMode, direction: Direction, param: Option<string>,
                                     onlyIfUntrusted: bool)

  datatype SourceConfig = SourceConfig(name: string, priority: int, peersFrom: seq<string>,
                                       acceptTransport: seq<string>, acceptHeaders: seq<HeaderInput>)

  datatype CompiledSource = CompiledSource(name: string, priority: int, peerCidrs: seq<Cidr>,
                                           acceptTransport: seq<string>, acceptHeaders: seq<HeaderInput>)

  datatype SourceKind = Transport | Header | Fallback

  datatype Resolved = Resolved(clientIp: IpAddr, peerIp: IpAddr, sourceName: Option<string>, kind: SourceKind,
                               headerName: Option<string>)

  /** Address parsing, and the `for` values of a Forwarded header's readable nodes
      (section 4 of RFC 7239). */
  datatype Parsers = Parsers(ip: string -> Option<IpAddr>, forwarded: string -> seq<Option<string>>)

  /** A request: its direct peer, its readable headers by lower-case name, and the
      address announced by the PROXY protocol, if any. */
  datatype Request = Request(peer: IpAddr, headers: map<string, string>, proxyAddr: Option<IpAddr>)

  function Lower(s: string): (r: string) {
    seq(|s|, i requires 0 <= i < |s| => if 'A' <= s[i] <= 'Z' then (s[i] as int + 32) as char else s[i])
  }

  // ----- header values -----

  function SingleHeader(ps: Parsers, headers: map<string, string>, kind: string): Option<IpAddr> {
    if kind !in headers then None
    else
      var value := Trim(headers[kind], RustSpace);
      if value == "" then None else ps.ip(value)
  }

  predicate IsComma(c: char) { c == ',' }

  function TrimAll(parts: seq<string>): seq<string> { Map(parts, (p: string) => Trim(p, RustSpace)) }

  /** The values that parse, in order. */
  function ParseAll(ps: Parsers, parts: seq<string>): seq<IpAddr> {
    if parts == [] then []
    else
      var rest, ip := ParseAll(ps, parts[..|parts| - 1]), ps.ip(parts[|parts| - 1]);
      if ip.Some? then rest + [ip.value] else rest
  }

  function XForwardedFor(ps: Parsers, headers: map<string, string>): seq<IpAddr> {
    if "x-forwarded-for" !in headers then []
    else ParseAll(ps, Filter(TrimAll(Split(headers["x-forwarded-for"], IsComma)), NonEmpty))
  }

  predicate IsQuote(c: char) { c == '"' }

  /** The host before the last colon. */
  function BeforeLastColon(s: string): Option<string> {
    if s == "" then None
    else if s[|s| - 1] == ':' then Some(s[..|s| - 1])
    else BeforeLastColon(s[..|s| - 1])
  }

  function ForwardedIp(ps: Parsers, value: string): Option<IpAddr> {
    var trimmed := Trim(Trim(value, RustSpace), IsQuote);
    var bracketed := |trimmed| >= 2 && trimmed[0] == '[' && trimmed[|trimmed| - 1] == ']';
    var bare := if bracketed then trimmed[1..|trimmed| - 1] else trimmed;
    var ip := ps.ip(bare);
    if ip.Some? then ip
    else
      var host := BeforeLastColon(bare);
      if host.Some? then ps.ip(host.value) else None
  }

  function ForwardedValues(ps: Parsers, nodes: seq<Option<string>>): seq<IpAddr> {
    if nodes == [] then []
    else
      var rest, node := ForwardedValues(ps, nodes[..|nodes| - 1]), nodes[|nodes| - 1];
      var ip := if node.Some? then ForwardedIp(ps, node.value) else None;
      if ip.Some? then rest + [ip.value] else rest
  }

  function ForwardedFor(ps: Parsers, headers: map<string, string>, param: string): seq<IpAddr> {
    if "forwarded" !in headers || param != "for" then [] else ForwardedValues(ps, ps.forwarded(headers["forwarded"]))
  }

  /** `parse_forwarded_for`, which skips every node of another parameter. */
  method ParseForwardedFor(ps: Parsers, headers: map<string, string>, param: string) returns (r: seq<IpAddr>)
    ensures r == ForwardedFor(ps, headers, param)
  {
    r := [];
    if "forwarded" !in headers { return; }
    var nodes := ps.forwarded(headers["forwarded"]);
    for i := 0 to |nodes|
      invariant r == if param == "for" then ForwardedValues(ps, nodes[..i]) else []
    {
      assert nodes[..i + 1][..i] == nodes[..i];
      if param != "for" || nodes[i].None? { continue; }
      var ip := ForwardedIp(ps, nodes[i].value);
      if ip.Some? { r := r + [ip.value]; }
    }
    assert nodes[..|nodes|] == nodes;
  }

  function Walk(chain: seq<IpAddr>, nets: seq<Cidr>, direction: Direction): Option<IpAddr> {
    if direction.RightToLeft? then WalkLeftwards(chain, nets) else WalkRightwards(chain, nets)
  }

  function ChainHeader(ps: Parsers, headers: map<string, string>, h: HeaderInput, nets: seq<Cidr>): Option<IpAddr> {
    var kind := Lower(h.kind);
    var chain :=
      if kind == "x-forwarded-for" then XForwardedFor(ps, headers)
      else if kind == "forwarded" then ForwardedFor(ps, headers, if h.param.Some? then h.param.value else "for")
      else [];
    Walk(chain, nets, h.direction)
  }

  /** The address a header input offers, unless it must be untrusted and is not. */
  function Candidate(ps: Parsers, headers: map<string, string>, h: HeaderInput, nets: seq<Cidr>): Option<IpAddr> {
    var ip := if h.mode.Single? then SingleHeader(ps, headers, Lower(h.kind)) else ChainHeader(ps, headers, h, nets);
    if ip.Some? && h.onlyIfUntrusted && Trusted(nets, ip.value) then None else ip
  }

  // ----- one source -----

  predicate MatchesPeer(s: CompiledSource, peer: IpAddr) { Trusted(s.peerCidrs, peer) }

  function FromTransport(s: CompiledSource, q: Request): Option<Resolved> {
    if "proxy-protocol" in s.acceptTransport && q.proxyAddr.Some?
    then Some(Resolved(q.proxyAddr.value, q.peer, Some(s.name), Transport, Some("proxy-protocol")))
    else None
  }

  function FromHeaders(ps: Parsers, s: CompiledSource, hs: seq<HeaderInput>, q: Request,
                       nets: seq<Cidr>): Option<Resolved>
  {
    if hs == [] then None
    else
      var ip := Candidate(ps, q.headers, hs[0], nets);
      if ip.Some? then Some(Resolved(ip.value, q.peer, Some(s.name), Header, Some(Lower(hs[0].kind))))
      else FromHeaders(ps, s, hs[1..], q, nets)
  }

  /** What a source contributes to a request. */
  function Yield(ps: Parsers, s: CompiledSource, q: Request, nets: seq<Cidr>): Option<Resolved> {
    if !MatchesPeer(s, q.peer) then None
    else
      var t := FromTransport(s, q);
      if t.Some? then t else FromHeaders(ps, s, s.acceptHeaders, q, nets)
  }

  method ResolveHeaders(ps: Parsers, s: CompiledSource, q: Request, nets: seq<Cidr>) returns (r: Option<Resolved>)
    ensures r == FromHeaders(ps, s, s.acceptHeaders, q, nets)
  {
    var hs := s.acceptHeaders;
    for i := 0 to |hs|
      invariant FromHeaders(ps, s, hs, q, nets) == FromHeaders(ps, s, hs[i..], q, nets)
    {
      assert hs[i..][0] == hs[i] && hs[i..][1..] == hs[i + 1..];
      var kind := Lower(hs[i].kind);
      var candidate := None;
      if hs[i].mode.Single? {
        candidate := SingleHeader(ps, q.headers, kind);
      } else {
        var chain: seq<IpAddr> := [];
        if kind == "x-forwarded-for" {
          chain := XForwardedFor(ps, q.headers);
        } else if kind == "forwarded" {
          chain := ParseForwardedFor(ps, q.headers, if hs[i].param.Some? then hs[i].param.value else "for");
        }
        candidate := ResolveFromChain(chain, nets, hs[i].direction);
      }
      if candidate.None? { continue; }
      if hs[i].onlyIfUntrusted && Trusted(nets, candidate.value) { continue; }
      return Some(Resolved(candidate.value, q.peer, Some(s.name), Header, Some(kind)));
    }
    return None;
  }

  // ----- compile_sources -----

  type Snapshots = map<string, seq<Cidr>>

  /** The registry as it stood at the successive reads of one source's providers. */
  type Reads = nat -> Snapshots

  /** The networks of the named providers that have a snapshot when they are read. */
  function PeerCidrs(names: seq<string>, seen: Reads): seq<Cidr> {
    if names == [] then []
    else
      var n := |names| - 1;
      var rest, snaps := PeerCidrs(names[..n], seen), seen(n);
      if names[n] in snaps then rest + snaps[names[n]] else rest
  }

  function Compile(s: SourceConfig, seen: Reads): CompiledSource {
    CompiledSource(s.name, s.priority, PeerCidrs(s.peersFrom, seen),
                   Map(s.acceptTransport, (k: string) => Lower(k)), s.acceptHeaders)
  }

  ghost predicate Descending(s: seq<CompiledSource>) {
    forall i, j :: 0 <= i < j < |s| ==> s[i].priority >= s[j].priority
  }

  /** `x` placed behind everything of its own or a higher priority. */
  function Place(s: seq<CompiledSource>, x: CompiledSource): (r: seq<CompiledSource>)
    requires Descending(s)
    ensures Descending(r)
    ensures forall y :: y in r <==> y in s || y == x
  {
    if s == [] then [x]
    else if s[|s| - 1].priority >= x.priority then s + [x]
    else
      assert s == s[..|s| - 1] + [s[|s| - 1]];
      var r := Place(s[..|s| - 1], x);
      PlacedAbove(s, x, r);
      r + [s[|s| - 1]]
  }

  lemma PlacedAbove(s: seq<CompiledSource>, x: CompiledSource, r: seq<CompiledSource>)
    requires s != [] && Descending(s) && s[|s| - 1].priority < x.priority
    requires forall y :: y in r <==> y in s[..|s| - 1] || y == x
    ensures forall i :: 0 <= i < |r| ==> r[i].priority >= s[|s| - 1].priority
  {
    forall i | 0 <= i < |r| ensures r[i].priority >= s[|s| - 1].priority {
      assert r[i] in r;
      if r[i] != x {
        var k :| 0 <= k < |s| - 1 && s[k] == r[i];
      }
    }
  }

  /** A stable sort by descending priority. */
  function ByPriority(s: seq<CompiledSource>): (r: seq<CompiledSource>)
    ensures Descending(r)
    ensures forall y :: y in r <==> y in s
  {
    if s == [] then []
    else
      assert s == s[..|s| - 1] + [s[|s| - 1]];
      Place(ByPriority(s[..|s| - 1]), s[|s| - 1])
  }

  /** `seen(i)` are the reads made for the i-th source: the registry may be refreshed
      between any two of them. */
  function CompileAll(sources: seq<SourceConfig>, seen: nat -> Reads): seq<CompiledSource> {
    seq(|sources|, i requires 0 <= i < |sources| => Compile(sources[i], seen(i)))
  }

  method CompileSources(sources: seq<SourceConfig>, seen: nat -> Reads) returns (r: seq<CompiledSource>)
    ensures r == ByPriority(CompileAll(sources, seen))
  {
    var compiled: seq<CompiledSource> := [];
    for i := 0 to |sources|
      invariant |compiled| == i && forall k :: 0 <= k < i ==> compiled[k] == Compile(sources[k], seen(k))
    {
      var names := sources[i].peersFrom;
      var peerCidrs: seq<Cidr> := [];
      for j := 0 to |names|
        invariant peerCidrs == PeerCidrs(names[..j], seen(i))
      {
        assert names[..j + 1][..j] == names[..j];
        var snaps := seen(i)(j);
        if names[j] in snaps { peerCidrs := peerCidrs + snaps[names[j]]; }
      }
      assert names[..|names|] == names;
      compiled := compiled + [CompiledSource(sources[i].name, sources[i].priority, peerCidrs,
                                             Map(sources[i].acceptTransport, (k: string) => Lower(k)),
                                             sources[i].acceptHeaders)];
      assert compiled[i] == Compile(sources[i], seen(i));
    }
    assert compiled == CompileAll(sources, seen);
    r := ByPriority(compiled);
  }

  // ----- resolve -----

  type Yielding = CompiledSource -> Option<Resolved>

  function FirstYield(s: seq<CompiledSource>, y: Yielding): Option<CompiledSource> {
    if s == [] then None
    else
      var f := FirstYield(s[..|s| - 1], y);
      if f.Some? then f else if y(s[|s| - 1]).Some? then Some(s[|s| - 1]) else None
  }

  function PeerItself(q: Request): Resolved { Resolved(q.peer, q.peer, None, Fallback, None) }

  function Resolve(ps: Parsers, sources: seq<CompiledSource>, q: Request, nets: seq<Cidr>): Resolved {
    var y := (s: CompiledSource) => Yield(ps, s, q, nets);
    var f := FirstYield(ByPriority(sources), y);
    if f.Some? && y(f.value).Some? then y(f.value).value else PeerItself(q)
  }

  lemma {:induction false} FirstYieldYields(s: seq<CompiledSource>, y: Yielding)
    ensures FirstYield(s, y).Some? ==> y(FirstYield(s, y).value).Some? && FirstYield(s, y).value in s
    ensures FirstYield(s, y).None? <==> forall x :: x in s ==> y(x).None?
  {
    if s != [] {
      assert s == s[..|s| - 1] + [s[|s| - 1]];
      FirstYieldYields(s[..|s| - 1], y);
    }
  }

  /** What one turn of the loop over the sources asks of a source. */
  method YieldOf(ps: Parsers, s: CompiledSource, q: Request, nets: seq<Cidr>) returns (r: Option<Resolved>)
    ensures r == Yield(ps, s, q, nets)
  {
    if !MatchesPeer(s, q.peer) { return None; }
    r := FromTransport(s, q);
    if r.None? { r := ResolveHeaders(ps, s, q, nets); }
  }

  /** The loop: the answer of the first source that yields one. */
  method FirstAnswer(ps: Parsers, compiled: seq<CompiledSource>, q: Request, nets: seq<Cidr>, ghost y: Yielding)
    returns (r: Option<Resolved>)
    requires forall s: CompiledSource :: y(s) == Yield(ps, s, q, nets)
    ensures var f := FirstYield(compiled, y); r == if f.Some? then y(f.value) else None
  {
    for i := 0 to |compiled|
      invariant FirstYield(compiled[..i], y).None?
    {
      assert compiled[..i + 1][..i] == compiled[..i];
      r := YieldOf(ps, compiled[i], q, nets);
      assert r == y(compiled[i]);
      if r.Some? {
        FirstYieldStops(compiled, i, y);
        return;
      }
    }
    assert compiled[..|compiled|] == compiled;
    return None;
  }

  /** `RealIpResolver::resolve` over the sources, the provider snapshots as it read them
      one by one, and the trusted networks it read after them. */
  method ResolveRequest(ps: Parsers, sources: seq<SourceConfig>, seen: nat -> Reads, allCidrs: seq<Cidr>, q: Request)
    returns (r: Resolved)
    ensures r == Resolve(ps, CompileAll(sources, seen), q, FirstOccurrences(allCidrs))
  {
    var compiled := CompileSources(sources, seen);
    var nets := DedupTrusted(allCidrs);
    var answer := FirstAnswer(ps, compiled, q, nets, (s: CompiledSource) => Yield(ps, s, q, nets));
    return if answer.Some? then answer.value else PeerItself(q);
  }

  lemma {:induction false} FirstYieldStops(s: seq<CompiledSource>, i: nat, y: Yielding)
    requires i < |s| && FirstYield(s[..i], y).None? && y(s[i]).Some?
    ensures FirstYield(s, y) == Some(s[i])
  {
    if i == |s| - 1 {
    } else {
      assert s[..|s| - 1][..i] == s[..i];
      FirstYieldStops(s[..|s| - 1], i, y);
    }
  }

  // ----- which source answers -----

  /** The yielding source of highest priority, the first of them in the given order. */
  function Selected(s: seq<CompiledSource>, y: Yielding): Option<CompiledSource> {
    if s == [] then None
    else
      var best, x := Selected(s[..|s| - 1], y), s[|s| - 1];
      if y(x).Some? && (best.None? || best.value.priority < x.priority) then Some(x) else best
  }

  lemma {:induction false} PlaceSelects(s: seq<CompiledSource>, x: CompiledSource, y: Yielding)
    requires Descending(s)
    ensures var f := FirstYield(s, y);
      FirstYield(Place(s, x), y) ==
        if y(x).Some? && (f.None? || f.value.priority < x.priority) then Some(x) else f
  {
    FirstYieldYields(s, y);
    if s != [] && s[|s| - 1].priority >= x.priority {
      assert (s + [x])[..|s|] == s;
    } else if s != [] {
      var init, last := s[..|s| - 1], s[|s| - 1];
      assert s == init + [last];
      PlaceSelects(init, x, y);
      var placed := Place(init, x);
      assert (placed + [last])[..|placed|] == placed;
      FirstYieldYields(init, y);
    }
  }

  /** Going through the sorted sources and stopping at the first answer selects
      the yielding source of highest priority, ties broken by configuration order. */
  lemma {:induction false} SortedWalkSelects(s: seq<CompiledSource>, y: Yielding)
    ensures FirstYield(ByPriority(s), y) == Selected(s, y)
  {
    if s != [] {
      SortedWalkSelects(s[..|s| - 1], y);
      PlaceSelects(ByPriority(s[..|s| - 1]), s[|s| - 1], y);
    }
  }

  /** The selected position: it yields, nothing of higher priority does, and
      nothing of the same priority does before it. */
  ghost predicate IsSelected(s: seq<CompiledSource>, y: Yielding, i: int) {
    && 0 <= i < |s| && y(s[i]).Some?
    && forall j :: 0 <= j < |s| && y(s[j]).Some? && j != i ==>
         s[j].priority < s[i].priority || (s[j].priority == s[i].priority && i < j)
  }

  lemma {:induction false} SelectedIsBest(s: seq<CompiledSource>, y: Yielding)
    ensures Selected(s, y).None? ==> forall i :: 0 <= i < |s| ==> y(s[i]).None?
    ensures Selected(s, y).Some? ==> exists i :: IsSelected(s, y, i) && Selected(s, y) == Some(s[i])
  {
    if s != [] {
      var n := |s| - 1;
      SelectedIsBest(s[..n], y);
      var best := Selected(s[..n], y);
      assert forall j :: 0 <= j < n ==> s[..n][j] == s[j];
      if best.Some? {
        var i :| IsSelected(s[..n], y, i) && best == Some(s[..n][i]);
        if y(s[n]).Some? && best.value.priority < s[n].priority {
          assert IsSelected(s, y, n);
        } else {
          assert IsSelected(s, y, i);
        }
      } else if y(s[n]).Some? {
        assert IsSelected(s, y, n);
      }
    }
  }

  /** The answer is what the source of highest priority that matches the peer and
      yields an address yields, first in configuration order among equals; if no
      source does, it is the peer itself. */
  lemma ResolveSelects(ps: Parsers, sources: seq<CompiledSource>, q: Request, nets: seq<Cidr>)
    ensures var y := (s: CompiledSource) => Yield(ps, s, q, nets);
      || (&& (forall i :: 0 <= i < |sources| ==> Yield(ps, sources[i], q, nets).None?)
          && Resolve(ps, sources, q, nets) == PeerItself(q))
      || exists i :: IsSelected(sources, y, i) && Some(Resolve(ps, sources, q, nets)) == Yield(ps, sources[i], q, nets)
  {
    var y := (s: CompiledSource) => Yield(ps, s, q, nets);
    SortedWalkSelects(sources, y);
    SelectedIsBest(sources, y);
    FirstYieldYields(ByPriority(sources), y);
    if Selected(sources, y).None? {
      assert forall i :: 0 <= i < |sources| ==> y(sources[i]).None?;
    } else {
      var i :| IsSelected(sources, y, i) && Selected(sources, y) == Some(sources[i]);
      assert Some(Resolve(ps, sources, q, nets)) == Yield(ps, sources[i], q, nets);
    }
  }

  /** From a peer no source knows, no header and no transport can change the answer. */
  lemma UnknownPeerIsItself(ps: Parsers, sources: seq<CompiledSource>, q: Request, nets: seq<Cidr>)
    requires forall i :: 0 <= i < |sources| ==> !MatchesPeer(sources[i], q.peer)
    ensures Resolve(ps, sources, q, nets) == PeerItself(q)
  {
    var y := (s: CompiledSource) => Yield(ps, s, q, nets);
    FirstYieldYields(ByPriority(sources), y);
    forall x | x in sources ensures y(x).None? {
      var i :| 0 <= i < |sources| && sources[i] == x;
    }
  }

  // ----- reordering the configuration -----

  function OfPriority(s: seq<CompiledSource>, p: int): seq<CompiledSource> {
    Filter(s, (x: CompiledSource) => x.priority == p)
  }

  /** Same sources, and those of one priority in the same order. */
  ghost predicate SameByPriority(s: seq<CompiledSource>, t: seq<CompiledSource>) {
    forall p: int :: OfPriority(s, p) == OfPriority(t, p)
  }

  /** The selection can be read off the sources priority by priority. */
  lemma {:induction false} SelectedByPriority(s: seq<CompiledSource>, y: Yielding)
    ensures Selected(s, y).None? ==> forall p: int :: FirstYield(OfPriority(s, p), y).None?
    ensures Selected(s, y).Some? ==>
      && FirstYield(OfPriority(s, Selected(s, y).value.priority), y) == Selected(s, y)
      && forall p: int :: p > Selected(s, y).value.priority ==> FirstYield(OfPriority(s, p), y).None?
  {
    if s != [] {
      var init, x := s[..|s| - 1], s[|s| - 1];
      SelectedByPriority(init, y);
      forall p: int
        ensures FirstYield(OfPriority(s, p), y) ==
          (if FirstYield(OfPriority(init, p), y).Some? then FirstYield(OfPriority(init, p), y)
           else if x.priority == p && y(x).Some? then Some(x) else None)
      {
        var kept := OfPriority(init, p);
        if x.priority == p { assert (kept + [x])[..|kept|] == kept; }
      }
    }
  }

  lemma SameSelection(s: seq<CompiledSource>, t: seq<CompiledSource>, y: Yielding)
    requires SameByPriority(s, t)
    ensures Selected(s, y) == Selected(t, y)
  {
    SelectedByPriority(s, y);
    SelectedByPriority(t, y);
    var a, b := Selected(s, y), Selected(t, y);
    if a.Some? { assert OfPriority(s, a.value.priority) == OfPriority(t, a.value.priority); }
    if b.Some? { assert OfPriority(s, b.value.priority) == OfPriority(t, b.value.priority); }
  }

  /** Reordering the sources without swapping any two of the same priority never
      changes an answer. */
  lemma ReorderingIrrelevant(ps: Parsers, s: seq<CompiledSource>, t: seq<CompiledSource>, q: Request, nets: seq<Cidr>)
    requires SameByPriority(s, t)
    ensures Resolve(ps, s, q, nets) == Resolve(ps, t, q, nets)
  {
    var y := (x: CompiledSource) => Yield(ps, x, q, nets);
    SortedWalkSelects(s, y);
    SortedWalkSelects(t, y);
    SameSelection(s, t, y);
  }

  // ----- forged headers -----

  const XFF := "x-forwarded-for"

  lemma {:induction false} ParseAllConcat(ps: Parsers, a: seq<string>, b: seq<string>)
    ensures ParseAll(ps, a + b) == ParseAll(ps, a) + ParseAll(ps, b)
  {
    if b == [] {
      assert a + b == a;
    } else {
      assert (a + b)[..|a + b| - 1] == a + b[..|b| - 1];
      ParseAllConcat(ps, a, b[..|b| - 1]);
    }
  }

  /** The addresses of an X-Forwarded-For value. */
  function ChainOf(ps: Parsers, value: string): seq<IpAddr> {
    ParseAll(ps, Filter(TrimAll(Split(value, IsComma)), NonEmpty))
  }

  /** The request's headers with something put in front of its X-Forwarded-For value, as
      a client can that sends the header itself and lets the proxies append to it. */
  function Forged(headers: map<string, string>, forged: string): map<string, string>
    requires XFF in headers
  {
    headers[XFF := forged + [','] + headers[XFF]]
  }

  lemma ChainJoins(ps: Parsers, a: string, b: string)
    ensures ChainOf(ps, a + [','] + b) == ChainOf(ps, a) + ChainOf(ps, b)
  {
    var x, y := Split(a, IsComma), Split(b, IsComma);
    SplitAtSeparator(a, ',', b, IsComma);
    assert TrimAll(x + y) == TrimAll(x) + TrimAll(y);
    FilterConcat(TrimAll(x), TrimAll(y), NonEmpty);
    ParseAllConcat(ps, Filter(TrimAll(x), NonEmpty), Filter(TrimAll(y), NonEmpty));
  }

  /** Some text is read as this one address. */
  ghost predicate Written(ps: Parsers, text: string, ip: IpAddr) { ChainOf(ps, text) == [ip] }

  /** The parser can tell addresses apart: two different ones can be written. */
  ghost predicate Discerning(ps: Parsers) {
    exists s, t, a, b :: Written(ps, s, a) && Written(ps, t, b) && a != b
  }

  /** A header input that walks X-Forwarded-For from the right. */
  predicate WalksForwarded(h: HeaderInput) { Lower(h.kind) == XFF && h.mode.Recursive? && h.direction.RightToLeft? }

  /** Nothing a client puts in front of the header its proxies append to can change what
      the walk finds, if and only if what they appended holds an untrusted address. */
  lemma ForgedHeaderIrrelevantIff(ps: Parsers, headers: map<string, string>, h: HeaderInput, nets: seq<Cidr>)
    requires XFF in headers && WalksForwarded(h) && Discerning(ps)
    ensures (forall forged :: ChainHeader(ps, Forged(headers, forged), h, nets) == ChainHeader(ps, headers, h, nets))
       <==> HasUntrusted(ChainOf(ps, headers[XFF]), nets)
  {
    var chain := ChainOf(ps, headers[XFF]);
    if HasUntrusted(chain, nets) {
      forall forged ensures ChainHeader(ps, Forged(headers, forged), h, nets) == ChainHeader(ps, headers, h, nets) {
        ForgedWalk(ps, headers, h, nets, forged);
        WalkIgnoresPrefix(ChainOf(ps, forged), chain, nets);
      }
    } else {
      var s, t, a, b :| Written(ps, s, a) && Written(ps, t, b) && a != b;
      ForgedWalk(ps, headers, h, nets, s);
      ForgedWalk(ps, headers, h, nets, t);
      WalkPassesTrusted([a], chain, nets);
      WalkPassesTrusted([b], chain, nets);
      assert ChainHeader(ps, Forged(headers, s), h, nets) == Some(a);
      assert ChainHeader(ps, Forged(headers, t), h, nets) == Some(b);
    }
  }

  lemma ForgedWalk(ps: Parsers, headers: map<string, string>, h: HeaderInput, nets: seq<Cidr>, forged: string)
    requires XFF in headers && WalksForwarded(h)
    ensures ChainHeader(ps, headers, h, nets) == WalkLeftwards(ChainOf(ps, headers[XFF]), nets)
    ensures ChainHeader(ps, Forged(headers, forged), h, nets)
         == WalkLeftwards(ChainOf(ps, forged) + ChainOf(ps, headers[XFF]), nets)
  {
    ChainJoins(ps, forged, headers[XFF]);
  }

  lemma ForgedCandidate(ps: Parsers, headers: map<string, string>, h: HeaderInput, nets: seq<Cidr>, forged: string)
    requires XFF in headers && HasUntrusted(ChainOf(ps, headers[XFF]), nets)
    requires Lower(h.kind) == XFF ==> WalksForwarded(h)
    ensures Candidate(ps, Forged(headers, forged), h, nets) == Candidate(ps, headers, h, nets)
  {
    if Lower(h.kind) == XFF {
      ForgedWalk(ps, headers, h, nets, forged);
      WalkIgnoresPrefix(ChainOf(ps, forged), ChainOf(ps, headers[XFF]), nets);
    }
  }

  lemma {:induction false} ForgedFromHeaders(ps: Parsers, s: CompiledSource, hs: seq<HeaderInput>, q: Request,
                                             nets: seq<Cidr>, forged: string)
    requires XFF in q.headers && HasUntrusted(ChainOf(ps, q.headers[XFF]), nets)
    requires forall h :: h in hs && Lower(h.kind) == XFF ==> WalksForwarded(h)
    ensures FromHeaders(ps, s, hs, q.(headers := Forged(q.headers, forged)), nets) == FromHeaders(ps, s, hs, q, nets)
  {
    if hs != [] {
      ForgedCandidate(ps, q.headers, hs[0], nets, forged);
      ForgedFromHeaders(ps, s, hs[1..], q, nets, forged);
    }
  }

  lemma {:induction false} SameYields(s: seq<CompiledSource>, y: Yielding, z: Yielding)
    requires forall x :: x in s ==> y(x) == z(x)
    ensures FirstYield(s, y) == FirstYield(s, z)
  {
    if s != [] { SameYields(s[..|s| - 1], y, z); }
  }

  /** Every source that reads X-Forwarded-For walks it from the right. */
  ghost predicate AllWalkForwarded(sources: seq<CompiledSource>) {
    forall s, h :: s in sources && h in s.acceptHeaders && Lower(h.kind) == XFF ==> WalksForwarded(h)
  }

  /** With such sources, a forged prefix changes no answer of the resolver as long as the
      proxies have appended an untrusted address. */
  lemma ForgedPrefixChangesNothing(ps: Parsers, sources: seq<CompiledSource>, q: Request, nets: seq<Cidr>,
                                   forged: string)
    requires XFF in q.headers && HasUntrusted(ChainOf(ps, q.headers[XFF]), nets) && AllWalkForwarded(sources)
    ensures Resolve(ps, sources, q.(headers := Forged(q.headers, forged)), nets) == Resolve(ps, sources, q, nets)
  {
    var f := q.(headers := Forged(q.headers, forged));
    var y, z := (s: CompiledSource) => Yield(ps, s, f, nets), (s: CompiledSource) => Yield(ps, s, q, nets);
    forall s | s in sources ensures y(s) == z(s) { ForgedFromHeaders(ps, s, s.acceptHeaders, q, nets, forged); }
    var sorted := ByPriority(sources);
    SameYields(sorted, y, z);
    FirstYieldYields(sorted, y);
  }
}
