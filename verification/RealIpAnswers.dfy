/** The client address the resolver answers, said without its own steps: which addresses a
    network holds, what a header is read as, what a source answers, and which source's
    answer is returned (packages/realip/src/resolve.rs). */
module RealIpAnswers {
  import opened Wrappers
  import opened Sequences
  import opened Characters
  import opened Text
  import opened RealIpChain
  import opened RealIpResolve

  // ----- the addresses of a network -----

  /** The addresses that share a quotient are one block of `p` numbers. */
  lemma QuotientBlock(n: nat, a: nat, p: nat)
    requires p > 0
    ensures n / p == a / p <==> n - n % p <= a < n - n % p + p
  {
    var q := n / p;
    QuotientBounds(n, p);
    QuotientBounds(a, p);
    assert p * q == n - n % p;
    if p * q <= a < p * q + p { QuotientIs(a, p, q); }
  }

  /** A network holds exactly one aligned block of its own family: the addresses from its
      base with the low bits cleared, 2^(32 - prefix) of them, or 2^(128 - prefix). */
  lemma ContainsBlock(net: Cidr, ip: IpAddr)
    requires net.prefix <= if net.base.V4? then 32 else 128
    ensures var p := Pow2((if net.base.V4? then 32 else 128) - net.prefix);
      var first := net.base.bits - net.base.bits % p;
      Contains(net, ip) <==> ip.V4? == net.base.V4? && first <= ip.bits < first + p
  {
    QuotientBlock(net.base.bits, ip.bits, Pow2((if net.base.V4? then 32 else 128) - net.prefix));
  }

  /** `n` with its last `k` bits dropped, one at a time. */
  function DropBits(n: nat, k: nat): nat { if k == 0 then n else DropBits(n / 2, k - 1) }

  lemma {:induction false} DropBitsDivides(n: nat, k: nat)
    ensures DropBits(n, k) == n / Pow2(k)
  {
    if k > 0 {
      DropBitsDivides(n / 2, k - 1);
      HalveThenDivide(n, Pow2(k - 1));
    }
  }

  lemma MultipleBounds(p: nat, d: int)
    ensures d >= 1 ==> p * d >= p
    ensures d <= -1 ==> p * d <= 0 - p
  {
  }

  lemma QuotientBounds(n: nat, p: nat)
    requires p > 0
    ensures p * (n / p) <= n < p * (n / p) + p
  {
  }

  lemma QuotientIs(m: nat, p: nat, q: nat)
    requires p > 0 && p * q <= m < p * q + p
    ensures m / p == q
  {
    var d: int := m / p - q;
    QuotientBounds(m, p);
    MultipleBounds(p, d);
    assert p * (m / p) == p * q + p * d;
  }

  lemma Doubled(p: nat, q: nat)
    ensures (2 * p) * q == 2 * (p * q)
  {
  }

  lemma Halved(n: nat, a: nat, p: nat)
    requires 2 * a <= n < 2 * a + 2 * p
    ensures a <= n / 2 < a + p
  {
  }

  lemma HalveThenDivide(n: nat, p: nat)
    requires p > 0
    ensures (n / 2) / p == n / (2 * p)
  {
    HalvedQuotient(n, p, n / (2 * p));
  }

  lemma HalvedQuotient(n: nat, p: nat, q: nat)
    requires p > 0 && q == n / (2 * p)
    ensures (n / 2) / p == q
  {
    QuotientBounds(n, 2 * p);
    Doubled(p, q);
    Halved(n, p * q, p);
    QuotientIs(n / 2, p, q);
  }

  /** And it holds exactly the addresses of its family that agree with its base on the
      first `prefix` bits, the rest being dropped. */
  lemma ContainsAgrees(net: Cidr, ip: IpAddr)
    ensures Contains(net, ip) <==>
      && ip.V4? == net.base.V4?
      && var width := if ip.V4? then 32 else 128;
      net.prefix <= width && DropBits(net.base.bits, width - net.prefix) == DropBits(ip.bits, width - net.prefix)
  {
    var width := if ip.V4? then 32 else 128;
    if net.prefix <= width {
      DropBitsDivides(net.base.bits, width - net.prefix);
      DropBitsDivides(ip.bits, width - net.prefix);
    }
  }

  // ----- header names -----

  /** Two names are read alike exactly when they differ in the case of ASCII letters only. */
  lemma LowerAlike(a: string, b: string)
    ensures Lower(a) == Lower(b) <==> |a| == |b| && forall i :: 0 <= i < |a| ==>
      || a[i] == b[i]
      || ('A' <= a[i] <= 'Z' && b[i] as int == a[i] as int + 32)
      || ('A' <= b[i] <= 'Z' && a[i] as int == b[i] as int + 32)
  {
    if Lower(a) == Lower(b) {
      assert |a| == |Lower(a)| == |b|;
      forall i | 0 <= i < |a|
        ensures a[i] == b[i] || ('A' <= a[i] <= 'Z' && b[i] as int == a[i] as int + 32)
          || ('A' <= b[i] <= 'Z' && a[i] as int == b[i] as int + 32)
      {
        assert Lower(a)[i] == Lower(b)[i];
      }
    }
  }

  // ----- header values -----

  lemma OneKept(t: string)
    ensures Filter([t], NonEmpty) == if t != "" then [t] else []
  {
    assert [t][..0] == [] && Filter([t][..0], NonEmpty) == [];
  }

  lemma OneParsed(ps: Parsers, t: string)
    ensures ParseAll(ps, [t]) == if ps.ip(t).Some? then [ps.ip(t).value] else []
  {
    assert [t][..0] == [] && ParseAll(ps, [t][..0]) == [];
  }

  /** An X-Forwarded-For value without a comma is one address or none; with
      `ChainJoins` at each comma this is how every value is read. */
  lemma ChainOfOne(ps: Parsers, value: string, t: string)
    requires ',' !in value && Stripped(t, value, RustSpace)
    ensures ChainOf(ps, value) == if t != "" && ps.ip(t).Some? then [ps.ip(t).value] else []
  {
    assert None_(value, IsComma);
    SplitOne(value, IsComma);
    TrimIff(value, t, RustSpace);
    assert TrimAll([value]) == [t];
    OneKept(t);
    OneParsed(ps, t);
  }

  lemma {:induction false} ForwardedConcat(ps: Parsers, a: seq<Option<string>>, b: seq<Option<string>>)
    ensures ForwardedValues(ps, a + b) == ForwardedValues(ps, a) + ForwardedValues(ps, b)
  {
    if b == [] {
      assert a + b == a;
    } else {
      assert (a + b)[..|a + b| - 1] == a + b[..|b| - 1];
      ForwardedConcat(ps, a, b[..|b| - 1]);
    }
  }

  /** A node of a Forwarded header adds its address, if its `for` value gives one. */
  lemma ForwardedNode(ps: Parsers, node: Option<string>, rest: seq<Option<string>>)
    ensures ForwardedValues(ps, []) == []
    ensures ForwardedValues(ps, [node] + rest) ==
      (if node.Some? && ForwardedIp(ps, node.value).Some? then [ForwardedIp(ps, node.value).value] else [])
      + ForwardedValues(ps, rest)
  {
    assert [node][..0] == [] && ForwardedValues(ps, [node][..0]) == [];
    ForwardedConcat(ps, [node], rest);
  }

  lemma {:induction false} LastColon(host: string, port: string)
    requires ':' !in port
    ensures BeforeLastColon(host + ":" + port) == Some(host)
  {
    var s := host + ":" + port;
    if port == "" {
      assert s[..|s| - 1] == host;
    } else {
      assert s[..|s| - 1] == host + ":" + port[..|port| - 1];
      LastColon(host, port[..|port| - 1]);
    }
  }

  lemma {:induction false} NoColon(s: string)
    requires ':' !in s
    ensures BeforeLastColon(s).None?
  {
    if s != "" { NoColon(s[..|s| - 1]); }
  }

  /** `v` is `u` without the double quotes around it. */
  ghost predicate Unquoted(v: string, u: string) { Stripped(v, u, c => c == '"') }

  lemma UnquotedTrims(v: string, u: string)
    requires Unquoted(v, u)
    ensures Trim(u, IsQuote) == v
  {
    var quote := c => c == '"';
    var i, j :| StripAt(v, u, quote, i, j);
    assert StripAt(v, u, IsQuote, i, j);
    TrimIff(u, v, IsQuote);
  }

  /** The text of a `for` value inside whitespace, then quotes, then a pair of brackets. */
  ghost predicate BareNode(value: string, bare: string) {
    exists u, v :: Stripped(u, value, RustSpace) && Unquoted(v, u)
      && (v == "[" + bare + "]" || (v == bare && !(|v| >= 2 && v[0] == '[' && v[|v| - 1] == ']')))
  }

  lemma BareText(value: string, bare: string)
    requires BareNode(value, bare)
    ensures var v := Trim(Trim(value, RustSpace), IsQuote);
      bare == if |v| >= 2 && v[0] == '[' && v[|v| - 1] == ']' then v[1..|v| - 1] else v
  {
    var u, v :| Stripped(u, value, RustSpace) && Unquoted(v, u)
      && (v == "[" + bare + "]" || (v == bare && !(|v| >= 2 && v[0] == '[' && v[|v| - 1] == ']')));
    TrimIff(value, u, RustSpace);
    UnquotedTrims(v, u);
    if v == "[" + bare + "]" { assert v[1..|v| - 1] == bare; }
  }

  /** A `for` value is the address its bare text spells; failing that, the address in front
      of the last colon of the bare text; failing that, nothing. */
  lemma ForwardedIpRead(ps: Parsers, value: string, bare: string, host: string, port: string)
    requires BareNode(value, bare)
    ensures ps.ip(bare).Some? ==> ForwardedIp(ps, value) == ps.ip(bare)
    ensures ps.ip(bare).None? && ':' !in bare ==> ForwardedIp(ps, value).None?
    ensures ps.ip(bare).None? && ':' !in port && bare == host + ":" + port ==> ForwardedIp(ps, value) == ps.ip(host)
  {
    BareText(value, bare);
    if ':' !in bare { NoColon(bare); }
    if ':' !in port && bare == host + ":" + port { LastColon(host, port); }
  }

  // ----- what one header offers -----

  /** `chain[i]` is what the walk is after: everything it has passed is trusted, and it is
      itself untrusted or the last one reached. */
  ghost predicate Reached(chain: seq<IpAddr>, nets: seq<Cidr>, direction: Direction, i: int) {
    && 0 <= i < |chain|
    && (direction.RightToLeft? ==>
          (forall j :: i < j < |chain| ==> Trusted(nets, chain[j])) && (Trusted(nets, chain[i]) ==> i == 0))
    && (direction.LeftToRight? ==>
          (forall j :: 0 <= j < i ==> Trusted(nets, chain[j])) && (Trusted(nets, chain[i]) ==> i == |chain| - 1))
  }

  /** The walk returns the address it is after, and nothing only on an empty chain. */
  lemma WalkReaches(chain: seq<IpAddr>, nets: seq<Cidr>, direction: Direction, a: IpAddr)
    ensures Walk(chain, nets, direction) == Some(a) <==>
      exists i :: Reached(chain, nets, direction, i) && chain[i] == a
  {
    if direction.RightToLeft? {
      WalkFinds(chain, nets);
      assert forall i :: Reached(chain, nets, direction, i) <==> RealIpChain.Answers(chain, nets, i);
    } else {
      var back := Reverse(chain);
      WalksMirror(chain, nets);
      WalkFinds(back, nets);
      forall i | 0 <= i < |chain|
        ensures Reached(chain, nets, direction, i) <==> RealIpChain.Answers(back, nets, |chain| - 1 - i)
      {
        MirroredReach(chain, nets, i);
      }
      if chain != [] {
        var k :| RealIpChain.Answers(back, nets, k) && WalkLeftwards(back, nets) == Some(back[k]);
        assert Reached(chain, nets, direction, |chain| - 1 - k);
      }
    }
  }

  lemma MirroredReach(chain: seq<IpAddr>, nets: seq<Cidr>, i: nat)
    requires i < |chain|
    ensures Reached(chain, nets, LeftToRight, i) <==> RealIpChain.Answers(Reverse(chain), nets, |chain| - 1 - i)
  {
    var back, n := Reverse(chain), |chain|;
    if Reached(chain, nets, LeftToRight, i) {
      forall j | n - 1 - i < j < n ensures Trusted(nets, back[j]) { assert back[j] == chain[n - 1 - j]; }
    }
    if RealIpChain.Answers(back, nets, n - 1 - i) {
      forall j | 0 <= j < i ensures Trusted(nets, chain[j]) { assert back[n - 1 - j] == chain[j]; }
    }
  }

  /** The addresses a recursive header input walks over. */
  function Chain(ps: Parsers, headers: map<string, string>, h: HeaderInput): seq<IpAddr> {
    if Lower(h.kind) == "x-forwarded-for" && "x-forwarded-for" in headers then ChainOf(ps, headers["x-forwarded-for"])
    else if Lower(h.kind) == "forwarded" && "forwarded" in headers && h.param in {None, Some("for")}
    then ForwardedValues(ps, ps.forwarded(headers["forwarded"]))
    else []
  }

  /** The header input offers the address: the one its trimmed value spells, or the one the
      walk over its chain is after; and an untrusted one where that is demanded. */
  ghost predicate Offers(ps: Parsers, headers: map<string, string>, h: HeaderInput, nets: seq<Cidr>, a: IpAddr) {
    && (h.onlyIfUntrusted ==> !Trusted(nets, a))
    && if h.mode.Single?
       then Lower(h.kind) in headers
         && exists t :: t != "" && Stripped(t, headers[Lower(h.kind)], RustSpace) && ps.ip(t) == Some(a)
       else exists i :: Reached(Chain(ps, headers, h), nets, h.direction, i) && Chain(ps, headers, h)[i] == a
  }

  lemma CandidateOffers(ps: Parsers, headers: map<string, string>, h: HeaderInput, nets: seq<Cidr>, a: IpAddr)
    ensures Candidate(ps, headers, h, nets) == Some(a) <==> Offers(ps, headers, h, nets, a)
  {
    if h.mode.Single? {
      if Lower(h.kind) in headers {
        var value := headers[Lower(h.kind)];
        TrimStrips(value, RustSpace);
        forall t ensures Stripped(t, value, RustSpace) ==> t == Trim(value, RustSpace) { TrimIff(value, t, RustSpace); }
      }
    } else {
      assert ChainHeader(ps, headers, h, nets) == Walk(Chain(ps, headers, h), nets, h.direction);
      WalkReaches(Chain(ps, headers, h), nets, h.direction, a);
    }
  }

  // ----- what one source answers -----

  /** Header `i` of the source is the first that offers an address, and offers `a`. */
  ghost predicate FirstOffer(ps: Parsers, s: CompiledSource, q: Request, nets: seq<Cidr>, i: int, a: IpAddr) {
    && 0 <= i < |s.acceptHeaders| && Offers(ps, q.headers, s.acceptHeaders[i], nets, a)
    && forall j, b :: 0 <= j < i ==> !Offers(ps, q.headers, s.acceptHeaders[j], nets, b)
  }

  ghost predicate ByFirstHeader(ps: Parsers, s: CompiledSource, q: Request, nets: seq<Cidr>, a: IpAddr,
                                name: Option<string>)
  {
    exists i :: FirstOffer(ps, s, q, nets, i, a) && name == Some(Lower(s.acceptHeaders[i].kind))
  }

  /** A source answers for a peer inside one of its networks: the address the transport
      announced if the source accepts that, and otherwise that of the first header that
      offers one. The answer always names the peer and the source. */
  ghost predicate Answered(ps: Parsers, s: CompiledSource, q: Request, nets: seq<Cidr>, r: Resolved) {
    && (exists n :: n in s.peerCidrs && Contains(n, q.peer))
    && r.peerIp == q.peer && r.sourceName == Some(s.name)
    && if "proxy-protocol" in s.acceptTransport && q.proxyAddr.Some?
       then r.clientIp == q.proxyAddr.value && r.kind.Transport? && r.headerName == Some("proxy-protocol")
       else r.kind.Header? && ByFirstHeader(ps, s, q, nets, r.clientIp, r.headerName)
  }

  lemma {:induction false} FromHeadersFirst(ps: Parsers, s: CompiledSource, k: nat, q: Request, nets: seq<Cidr>)
    requires k <= |s.acceptHeaders|
    requires forall j, b :: 0 <= j < k ==> !Offers(ps, q.headers, s.acceptHeaders[j], nets, b)
    ensures var r := FromHeaders(ps, s, s.acceptHeaders[k..], q, nets);
      && (r.None? ==> forall j, b :: 0 <= j < |s.acceptHeaders| ==> !Offers(ps, q.headers, s.acceptHeaders[j], nets, b))
      && (r.Some? ==>
            && r.value == Resolved(r.value.clientIp, q.peer, Some(s.name), Header, r.value.headerName)
            && ByFirstHeader(ps, s, q, nets, r.value.clientIp, r.value.headerName))
    decreases |s.acceptHeaders| - k
  {
    if k < |s.acceptHeaders| {
      var h := s.acceptHeaders[k];
      assert s.acceptHeaders[k..][0] == h && s.acceptHeaders[k..][1..] == s.acceptHeaders[k + 1..];
      forall b ensures Candidate(ps, q.headers, h, nets) == Some(b) <==> Offers(ps, q.headers, h, nets, b) {
        CandidateOffers(ps, q.headers, h, nets, b);
      }
      var ip := Candidate(ps, q.headers, h, nets);
      if ip.None? {
        FromHeadersFirst(ps, s, k + 1, q, nets);
      } else {
        assert FirstOffer(ps, s, q, nets, k, ip.value);
      }
    }
  }

  lemma FirstOfferUnique(ps: Parsers, s: CompiledSource, q: Request, nets: seq<Cidr>, i: int, a: IpAddr, j: int,
                         b: IpAddr)
    requires FirstOffer(ps, s, q, nets, i, a) && FirstOffer(ps, s, q, nets, j, b)
    ensures i == j && a == b
  {
    CandidateOffers(ps, q.headers, s.acceptHeaders[i], nets, a);
    CandidateOffers(ps, q.headers, s.acceptHeaders[j], nets, b);
  }

  /** A source contributes exactly the answer so described, and at most one. */
  lemma YieldAnswers(ps: Parsers, s: CompiledSource, q: Request, nets: seq<Cidr>, r: Resolved)
    ensures Yield(ps, s, q, nets) == Some(r) <==> Answered(ps, s, q, nets, r)
  {
    if MatchesPeer(s, q.peer) && FromTransport(s, q).None? {
      assert s.acceptHeaders[0..] == s.acceptHeaders;
      FromHeadersFirst(ps, s, 0, q, nets);
      if Answered(ps, s, q, nets, r) { AnsweredByHeader(ps, s, q, nets, r); }
    }
  }

  lemma AnsweredByHeader(ps: Parsers, s: CompiledSource, q: Request, nets: seq<Cidr>, r: Resolved)
    requires Answered(ps, s, q, nets, r) && r.kind.Header?
    ensures FromHeaders(ps, s, s.acceptHeaders, q, nets) == Some(r)
  {
    assert s.acceptHeaders[0..] == s.acceptHeaders;
    FromHeadersFirst(ps, s, 0, q, nets);
    var i :| FirstOffer(ps, s, q, nets, i, r.clientIp) && r.headerName == Some(Lower(s.acceptHeaders[i].kind));
    var f := FromHeaders(ps, s, s.acceptHeaders, q, nets).value;
    var j :| FirstOffer(ps, s, q, nets, j, f.clientIp) && f.headerName == Some(Lower(s.acceptHeaders[j].kind));
    FirstOfferUnique(ps, s, q, nets, i, r.clientIp, j, f.clientIp);
  }

  // ----- which answer is returned -----

  /** Source `i` answers `r`, and every other source that answers has a lower priority, or
      the same one and a later place. */
  ghost predicate Wins(ps: Parsers, sources: seq<CompiledSource>, q: Request, nets: seq<Cidr>, i: int, r: Resolved) {
    && 0 <= i < |sources| && Answered(ps, sources[i], q, nets, r)
    && forall j, b :: 0 <= j < |sources| && j != i && Answered(ps, sources[j], q, nets, b) ==>
         sources[j].priority < sources[i].priority || (sources[j].priority == sources[i].priority && i < j)
  }

  lemma SelectedWins(ps: Parsers, sources: seq<CompiledSource>, q: Request, nets: seq<Cidr>, y: Yielding, i: int,
                     r: Resolved)
    requires forall s: CompiledSource :: y(s) == Yield(ps, s, q, nets)
    requires IsSelected(sources, y, i) && y(sources[i]) == Some(r)
    ensures Wins(ps, sources, q, nets, i, r)
  {
    YieldAnswers(ps, sources[i], q, nets, r);
    forall j, b | 0 <= j < |sources| && j != i && Answered(ps, sources[j], q, nets, b)
      ensures sources[j].priority < sources[i].priority || (sources[j].priority == sources[i].priority && i < j)
    {
      YieldAnswers(ps, sources[j], q, nets, b);
    }
  }

  /** The resolver returns the answer of the best source that has one, and the peer itself
      when none has. */
  lemma ResolveAnswers(ps: Parsers, sources: seq<CompiledSource>, q: Request, nets: seq<Cidr>)
    ensures var r := Resolve(ps, sources, q, nets);
      || (exists i :: Wins(ps, sources, q, nets, i, r))
      || (r == Resolved(q.peer, q.peer, None, Fallback, None)
          && forall j, b :: 0 <= j < |sources| ==> !Answered(ps, sources[j], q, nets, b))
  {
    var r, y := Resolve(ps, sources, q, nets), (s: CompiledSource) => Yield(ps, s, q, nets);
    ResolveSelects(ps, sources, q, nets);
    if i :| IsSelected(sources, y, i) && Some(r) == y(sources[i]) {
      SelectedWins(ps, sources, q, nets, y, i, r);
    } else {
      forall j, b | 0 <= j < |sources| ensures !Answered(ps, sources[j], q, nets, b) {
        YieldAnswers(ps, sources[j], q, nets, b);
      }
    }
  }

  // ----- compiling the sources -----

  /** A compiled source matches exactly the peers inside a network of one of its providers
      that had a snapshot when it was read. */
  lemma {:induction false} PeerCidrsFrom(names: seq<string>, seen: Reads, n: Cidr)
    ensures n in PeerCidrs(names, seen) <==>
      exists j :: 0 <= j < |names| && names[j] in seen(j) && n in seen(j)[names[j]]
  {
    if names != [] {
      var k := |names| - 1;
      PeerCidrsFrom(names[..k], seen, n);
      assert forall j :: 0 <= j < k ==> names[..k][j] == names[j];
    }
  }

  /** The compiled form of a configured source, for every transport name in any case. */
  lemma CompiledFrom(s: SourceConfig, seen: Reads, n: Cidr)
    ensures var c := Compile(s, seen);
      && c.name == s.name && c.priority == s.priority && c.acceptHeaders == s.acceptHeaders
      && ("proxy-protocol" in c.acceptTransport <==>
            exists k :: k in s.acceptTransport && Lower(k) == Lower("proxy-protocol"))
      && (n in c.peerCidrs <==>
            exists j :: 0 <= j < |s.peersFrom| && s.peersFrom[j] in seen(j) && n in seen(j)[s.peersFrom[j]])
  {
    PeerCidrsFrom(s.peersFrom, seen, n);
    assert Lower("proxy-protocol") == "proxy-protocol";
    var c := Compile(s, seen);
    if k :| k in s.acceptTransport && Lower(k) == "proxy-protocol" {
      var i :| 0 <= i < |s.acceptTransport| && s.acceptTransport[i] == k;
      assert c.acceptTransport[i] == "proxy-protocol";
    }
    if "proxy-protocol" in c.acceptTransport {
      var i :| 0 <= i < |c.acceptTransport| && c.acceptTransport[i] == "proxy-protocol";
      assert s.acceptTransport[i] in s.acceptTransport;
    }
  }
}
