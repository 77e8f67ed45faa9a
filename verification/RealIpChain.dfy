/** Trusted networks and the walk along a proxy chain (packages/realip/src/resolve.rs). */
module RealIpChain {
  import opened Wrappers
  import opened Sequences

  datatype IpAddr = V4(bits: nat) | V6(bits: nat)
  datatype Cidr = Cidr(base: IpAddr, prefix: nat)
  datatype Direction = LeftToRight | RightToLeft

  function Pow2(n: nat): (r: nat)
    ensures r > 0
  {
    if n == 0 then 1 else 2 * Pow2(n - 1)
  }

  /** The address agrees with the network's base on the first `prefix` bits. */
  predicate Contains(net: Cidr, ip: IpAddr) {
    match (net.base, ip)
    case (V4(n), V4(a)) => net.prefix <= 32 && n / Pow2(32 - net.prefix) == a / Pow2(32 - net.prefix)
    case (V6(n), V6(a)) => net.prefix <= 128 && n / Pow2(128 - net.prefix) == a / Pow2(128 - net.prefix)
    case _ => false
  }

  predicate Trusted(nets: seq<Cidr>, ip: IpAddr) { exists n :: n in nets && Contains(n, ip) }

  // ----- TrustedSet::new -----

  /** The elements at their first occurrences. */
  function FirstOccurrences(s: seq<Cidr>): (r: seq<Cidr>)
    ensures forall x :: x in r <==> x in s
  {
    if s == [] then []
    else
      assert s == s[..|s| - 1] + [s[|s| - 1]];
      var r := FirstOccurrences(s[..|s| - 1]);
      if s[|s| - 1] in s[..|s| - 1] then r else r + [s[|s| - 1]]
  }

  lemma {:induction false} FirstOccurrencesDistinct(s: seq<Cidr>)
    ensures Distinct(FirstOccurrences(s))
  {
    if s != [] { FirstOccurrencesDistinct(s[..|s| - 1]); }
  }

  method DedupTrusted(nets: seq<Cidr>) returns (r: seq<Cidr>)
    ensures r == FirstOccurrences(nets)
  {
    var unique: set<Cidr> := {};
    r := [];
    for i := 0 to |nets|
      invariant forall x :: x in unique <==> x in nets[..i]
      invariant r == FirstOccurrences(nets[..i])
    {
      assert nets[..i + 1][..i] == nets[..i];
      if nets[i] !in unique {
        unique := unique + {nets[i]};
        r := r + [nets[i]];
      }
    }
    assert nets[..|nets|] == nets;
  }

  /** De-duplicating the trusted networks changes no answer. */
  lemma DedupSameTrust(nets: seq<Cidr>, ip: IpAddr)
    ensures Trusted(FirstOccurrences(nets), ip) <==> Trusted(nets, ip)
  {
  }

  // ----- resolve_from_chain -----

  /** From the right: the first untrusted address, or the leftmost of all. */
  function WalkLeftwards(chain: seq<IpAddr>, nets: seq<Cidr>): Option<IpAddr> {
    if chain == [] then None
    else if !Trusted(nets, chain[|chain| - 1]) || |chain| == 1 then Some(chain[|chain| - 1])
    else WalkLeftwards(chain[..|chain| - 1], nets)
  }

  /** From the left: the first untrusted address, or the rightmost of all. */
  function WalkRightwards(chain: seq<IpAddr>, nets: seq<Cidr>): Option<IpAddr> {
    if chain == [] then None
    else if !Trusted(nets, chain[0]) || |chain| == 1 then Some(chain[0])
    else WalkRightwards(chain[1..], nets)
  }

  method ResolveFromChain(chain: seq<IpAddr>, nets: seq<Cidr>, direction: Direction) returns (r: Option<IpAddr>)
    ensures direction.RightToLeft? ==> r == WalkLeftwards(chain, nets)
    ensures direction.LeftToRight? ==> r == WalkRightwards(chain, nets)
  {
    var last: Option<IpAddr> := None;
    var n := |chain|;
    assert chain[..n] == chain && chain[0..] == chain;
    for k := 0 to n
      invariant n == 0 ==> last.None?
      invariant direction.RightToLeft? && k < n ==> WalkLeftwards(chain, nets) == WalkLeftwards(chain[..n - k], nets)
      invariant direction.LeftToRight? && k < n ==> WalkRightwards(chain, nets) == WalkRightwards(chain[k..], nets)
      invariant k == n && n > 0 && direction.RightToLeft? ==> WalkLeftwards(chain, nets) == Some(chain[0])
      invariant k == n && n > 0 && direction.LeftToRight? ==> WalkRightwards(chain, nets) == Some(chain[n - 1])
    {
      var ip := if direction.LeftToRight? then chain[k] else chain[n - 1 - k];
      last := Some(ip);
      assert chain[..n - k][..n - k - 1] == chain[..n - k - 1];
      assert chain[k..][1..] == chain[k + 1..];
      if !Trusted(nets, ip) { return Some(ip); }
    }
    if direction.LeftToRight? {
      r := if n > 0 then Some(chain[n - 1]) else last;
    } else {
      r := if n > 0 then Some(chain[0]) else last;
    }
  }

  // ----- what the walk finds -----

  /** `chain[i]` has only trusted addresses to its right, and is itself untrusted
      or the leftmost. */
  ghost predicate Answers(chain: seq<IpAddr>, nets: seq<Cidr>, i: int) {
    && 0 <= i < |chain|
    && (forall j :: i < j < |chain| ==> Trusted(nets, chain[j]))
    && (!Trusted(nets, chain[i]) || i == 0)
  }

  /** There is exactly one such position in a non-empty chain, and the
      right-to-left walk returns its address; it returns nothing only for the
      empty chain. */
  lemma {:induction false} WalkFinds(chain: seq<IpAddr>, nets: seq<Cidr>)
    ensures WalkLeftwards(chain, nets).None? <==> chain == []
    ensures chain != [] ==> exists i :: Answers(chain, nets, i) && WalkLeftwards(chain, nets) == Some(chain[i])
    ensures forall i, j :: Answers(chain, nets, i) && Answers(chain, nets, j) ==> i == j
  {
    if chain != [] {
      var n := |chain| - 1;
      if !Trusted(nets, chain[n]) || n == 0 {
        assert Answers(chain, nets, n);
      } else {
        WalkFinds(chain[..n], nets);
        var i :| Answers(chain[..n], nets, i) && WalkLeftwards(chain[..n], nets) == Some(chain[..n][i]);
        assert Answers(chain, nets, i);
      }
    }
  }

  ghost predicate HasUntrusted(chain: seq<IpAddr>, nets: seq<Cidr>) {
    exists i :: 0 <= i < |chain| && !Trusted(nets, chain[i])
  }

  lemma {:induction false} WalkIgnoresPrefix(prefix: seq<IpAddr>, chain: seq<IpAddr>, nets: seq<Cidr>)
    requires HasUntrusted(chain, nets)
    ensures WalkLeftwards(prefix + chain, nets) == WalkLeftwards(chain, nets)
  {
    var n := |chain| - 1;
    if Trusted(nets, chain[n]) {
      assert (prefix + chain)[..|prefix + chain| - 1] == prefix + chain[..n];
      var i :| 0 <= i < |chain| && !Trusted(nets, chain[i]);
      assert !Trusted(nets, chain[..n][i]);
      WalkIgnoresPrefix(prefix, chain[..n], nets);
    }
  }

  lemma {:induction false} WalkPassesTrusted(prefix: seq<IpAddr>, chain: seq<IpAddr>, nets: seq<Cidr>)
    requires prefix != [] && !HasUntrusted(chain, nets)
    ensures WalkLeftwards(prefix + chain, nets) == WalkLeftwards(prefix, nets)
  {
    if chain == [] {
      assert prefix + chain == prefix;
    } else {
      var n := |chain| - 1;
      assert (prefix + chain)[..|prefix + chain| - 1] == prefix + chain[..n];
      assert Trusted(nets, chain[n]);
      assert !HasUntrusted(chain[..n], nets);
      WalkPassesTrusted(prefix, chain[..n], nets);
    }
  }

  /** What a client puts in front of the chain its proxies report cannot change
      the answer, whatever it is, if and only if the chain holds an untrusted address. */
  lemma PrefixIrrelevantIff(chain: seq<IpAddr>, nets: seq<Cidr>)
    ensures (forall prefix :: WalkLeftwards(prefix + chain, nets) == WalkLeftwards(chain, nets)) <==>
              HasUntrusted(chain, nets)
  {
    if HasUntrusted(chain, nets) {
      forall prefix ensures WalkLeftwards(prefix + chain, nets) == WalkLeftwards(chain, nets) {
        WalkIgnoresPrefix(prefix, chain, nets);
      }
    } else {
      var other := if chain != [] && chain[0] == V4(0) then V4(1) else V4(0);
      WalkPassesTrusted([other], chain, nets);
      if chain != [] {
        WalkPassesTrusted([chain[0]], chain[1..], nets) by {
          forall i | 0 <= i < |chain[1..]| ensures Trusted(nets, chain[1..][i]) {
            assert chain[1..][i] == chain[i + 1];
          }
        }
        assert [chain[0]] + chain[1..] == chain;
      }
      assert WalkLeftwards([other] + chain, nets) != WalkLeftwards(chain, nets);
    }
  }

  function Reverse(s: seq<IpAddr>): (r: seq<IpAddr>)
    ensures |r| == |s|
    ensures forall i :: 0 <= i < |s| ==> r[i] == s[|s| - 1 - i]
  {
    seq(|s|, i requires 0 <= i < |s| => s[|s| - 1 - i])
  }

  /** Walking from the left is walking the reversed chain from the right. */
  lemma {:induction false} WalksMirror(chain: seq<IpAddr>, nets: seq<Cidr>)
    ensures WalkRightwards(chain, nets) == WalkLeftwards(Reverse(chain), nets)
  {
    if |chain| > 1 {
      assert Reverse(chain)[..|chain| - 1] == Reverse(chain[1..]);
      WalksMirror(chain[1..], nets);
    }
  }

  /** The walk over the de-duplicated networks is the walk over the original ones. */
  lemma {:induction false} DedupSameWalk(chain: seq<IpAddr>, nets: seq<Cidr>)
    ensures WalkLeftwards(chain, FirstOccurrences(nets)) == WalkLeftwards(chain, nets)
  {
    if chain != [] {
      DedupSameTrust(nets, chain[|chain| - 1]);
      DedupSameWalk(chain[..|chain| - 1], nets);
    }
  }
}
