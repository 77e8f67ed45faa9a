/** Rust's ordering of `String`, and the sort-then-dedup that
    `update_group_membership` runs on a list of group ids. */
module StringOrder {

  /** Lexicographic by code point, which for UTF-8 is also the byte order. */
  predicate Less(a: string, b: string) {
    if b == "" then false
    else if a == "" then true
    else if a[0] != b[0] then a[0] < b[0]
    else Less(a[1..], b[1..])
  }

  lemma {:induction false} LessTotal(a: string, b: string)
    ensures a != b ==> Less(a, b) || Less(b, a)
    ensures Less(a, b) ==> !Less(b, a) && a != b
  {
    if a != "" && b != "" && a[0] == b[0] {
      LessTotal(a[1..], b[1..]);
      assert a == [a[0]] + a[1..] && b == [b[0]] + b[1..];
    }
  }

  lemma {:induction false} LessTransitive(a: string, b: string, c: string)
    requires Less(a, b) && Less(b, c)
    ensures Less(a, c)
  {
    if a != "" && a[0] == b[0] && b[0] == c[0] {
      LessTransitive(a[1..], b[1..], c[1..]);
    }
  }

  /** After `k` equal characters `a` ends, or has the smaller one. */
  ghost predicate DiffersAt(a: string, b: string, k: int) {
    0 <= k <= |a| && k < |b| && a[..k] == b[..k] && (k < |a| ==> a[k] < b[k])
  }

  ghost predicate Precedes(a: string, b: string) { exists k :: DiffersAt(a, b, k) }

  /** One string is before another exactly if they agree up to some place where it ends or
      has the smaller character. */
  lemma {:induction false} LessMeans(a: string, b: string)
    ensures Less(a, b) <==> Precedes(a, b)
  {
    forall k | DiffersAt(a, b, k) && k > 0 ensures a[0] == b[0] { assert a[..k][0] == b[..k][0]; }
    if a != "" && b != "" && a[0] == b[0] {
      LessMeans(a[1..], b[1..]);
      if k :| DiffersAt(a[1..], b[1..], k) {
        assert a[..k + 1] == [a[0]] + a[1..][..k] && b[..k + 1] == [b[0]] + b[1..][..k];
        assert DiffersAt(a, b, k + 1);
      }
      if k :| DiffersAt(a, b, k) {
        assert a[1..][..k - 1] == a[..k][1..] && b[1..][..k - 1] == b[..k][1..];
        assert DiffersAt(a[1..], b[1..], k - 1);
      }
    } else if b != "" {
      assert a[..0] == b[..0];
      if Less(a, b) { assert DiffersAt(a, b, 0); }
    }
  }

  ghost predicate Sorted(s: seq<string>) {
    forall i, j :: 0 <= i < j < |s| ==> !Less(s[j], s[i])
  }

  ghost predicate StrictlySorted(s: seq<string>) {
    forall i, j :: 0 <= i < j < |s| ==> Less(s[i], s[j])
  }

  lemma StrictlyPrecede(s: seq<string>)
    requires StrictlySorted(s)
    ensures forall i, j :: 0 <= i < j < |s| ==> Precedes(s[i], s[j])
  {
    forall i, j | 0 <= i < j < |s| ensures Precedes(s[i], s[j]) { LessMeans(s[i], s[j]); }
  }

  /** `x` placed after every element that is not greater. */
  function Insert(s: seq<string>, x: string): (r: seq<string>)
    requires Sorted(s)
    ensures Sorted(r)
    ensures forall y :: y in r <==> y in s || y == x
  {
    if s == [] then [x]
    else
      var last := s[|s| - 1];
      var init := s[..|s| - 1];
      assert s == init + [last];
      if Less(x, last) then
        var r := Insert(init, x);
        assert forall i :: 0 <= i < |r| ==> !Less(last, r[i]) by {
          forall i | 0 <= i < |r| ensures !Less(last, r[i]) {
            LessTotal(x, last);
            assert r[i] in init || r[i] == x;
          }
        }
        r + [last]
      else
        assert forall i :: 0 <= i < |s| ==> !Less(x, s[i]) by {
          forall i | 0 <= i < |s| ensures !Less(x, s[i]) {
            if Less(x, s[i]) { NotLessBelow(x, s[i], last); }
          }
        }
        s + [x]
  }

  lemma NotLessBelow(x: string, y: string, z: string)
    requires Less(x, y) && !Less(z, y)
    ensures Less(x, z)
  {
    LessTotal(y, z);
    if y != z { LessTransitive(x, y, z); }
  }

  function Sort(s: seq<string>): (r: seq<string>)
    ensures Sorted(r)
    ensures forall y :: y in r <==> y in s
  {
    if s == [] then []
    else
      assert s == s[..|s| - 1] + [s[|s| - 1]];
      Insert(Sort(s[..|s| - 1]), s[|s| - 1])
  }

  /** `Vec::dedup`: drops every element equal to the one kept before it. */
  function Dedup(s: seq<string>): (r: seq<string>)
    ensures forall y :: y in r <==> y in s
    ensures s != [] ==> r != [] && r[|r| - 1] == s[|s| - 1]
  {
    if s == [] then []
    else
      assert s == s[..|s| - 1] + [s[|s| - 1]];
      var r := Dedup(s[..|s| - 1]);
      if r != [] && r[|r| - 1] == s[|s| - 1] then r else r + [s[|s| - 1]]
  }

  lemma {:induction false} DedupStrict(s: seq<string>)
    requires Sorted(s)
    ensures StrictlySorted(Dedup(s))
  {
    if s != [] {
      var t, x := s[..|s| - 1], s[|s| - 1];
      assert s == t + [x];
      DedupStrict(t);
      var r := Dedup(t);
      if r != [] && r[|r| - 1] != x {
        var last := r[|r| - 1];
        assert last == t[|t| - 1] == s[|s| - 2];
        LessTotal(last, x);
        forall i | 0 <= i < |r| ensures Less(r[i], x) {
          if i < |r| - 1 { LessTransitive(r[i], last, x); }
        }
      }
    }
  }

  /** A strictly sorted list is determined by the set of its elements. */
  lemma {:induction false} StrictlySortedUnique(a: seq<string>, b: seq<string>)
    requires StrictlySorted(a) && StrictlySorted(b)
    requires forall x :: x in a <==> x in b
    ensures a == b
  {
    if b != [] { assert b[0] in a; }
    if a != [] {
      assert a[0] in b;
      var n, m := |a| - 1, |b| - 1;
      SameLast(a, b);
      SameLast(b, a);
      LessTotal(a[n], b[m]);
      assert a == a[..n] + [a[n]] && b == b[..m] + [b[m]];
      forall x | x in a[..n] ensures x in b[..m] {
        var i :| 0 <= i < n && a[i] == x;
        LessTotal(x, a[n]);
        assert x in b;
      }
      forall x | x in b[..m] ensures x in a[..n] {
        var i :| 0 <= i < m && b[i] == x;
        LessTotal(x, b[m]);
        assert x in a;
      }
      StrictlySortedUnique(a[..n], b[..m]);
    }
  }

  lemma SameLast(a: seq<string>, b: seq<string>)
    requires StrictlySorted(a) && StrictlySorted(b) && a != [] && b != []
    requires forall x :: x in a <==> x in b
    ensures !Less(b[|b| - 1], a[|a| - 1])
  {
    var x := a[|a| - 1];
    assert x in b;
    var i :| 0 <= i < |b| && b[i] == x;
    LessTotal(b[i], b[|b| - 1]);
  }

  /** Sorting and de-duplicating a list that already is strictly sorted, after
      any rearrangement of its elements, gives that list back. */
  lemma CanonicalForm(s: seq<string>, t: seq<string>)
    requires StrictlySorted(s)
    requires forall x :: x in s <==> x in t
    ensures Dedup(Sort(t)) == s
  {
    DedupStrict(Sort(t));
    StrictlySortedUnique(Dedup(Sort(t)), s);
  }
}
