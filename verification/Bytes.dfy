/** Octet strings: big-endian values, base-256 digits, and the two orders on octet strings
    that the DER rules for SETs mention. */
module Bytes {
  import opened Results

  type byte = b: int | 0 <= b < 256
  type bytes = seq<byte>

  function Pow256(n: nat): (p: nat)
    ensures p >= 1
  {
    if n == 0 then 1 else 256 * Pow256(n - 1)
  }

  /** buf[i], or None past the end, where an index reads undefined. */
  function ByteAt(buf: bytes, i: nat): Option<byte> {
    if i < |buf| then Some(buf[i]) else None
  }

  /** The big-endian value; reading one more byte b turns v into 256 * v + b. */
  function BE(s: bytes): nat {
    if s == [] then 0 else BE(s[..|s| - 1]) * 256 + s[|s| - 1]
  }

  /** The n low-order base-256 digits of v, most significant first. */
  function ToBE(v: nat, n: nat): (s: bytes)
    ensures |s| == n
  {
    if n == 0 then [] else ToBE(v / 256, n - 1) + [v % 256]
  }

  function Zeros(n: nat): (s: bytes)
    ensures |s| == n && forall i :: 0 <= i < n ==> s[i] == 0
  {
    seq(n, _ => 0)
  }

  lemma BESnoc(s: bytes, b: byte)
    ensures BE(s + [b]) == BE(s) * 256 + b
  {
    assert (s + [b])[..|s|] == s;
  }

  lemma {:induction false} BEBound(s: bytes)
    ensures BE(s) < Pow256(|s|)
  {
    if s != [] {
      BEBound(s[..|s| - 1]);
    }
  }

  lemma {:induction false} BEInjective(a: bytes, b: bytes)
    requires |a| == |b| && BE(a) == BE(b)
    ensures a == b
  {
    if a != [] {
      var n := |a| - 1;
      assert a[n] == b[n] && BE(a[..n]) == BE(b[..n]);
      BEInjective(a[..n], b[..n]);
      assert a == a[..n] + [a[n]] && b == b[..n] + [b[n]];
    }
  }

  lemma {:induction false} BEOfToBE(v: nat, n: nat)
    ensures v < Pow256(n) ==> BE(ToBE(v, n)) == v
  {
    if n > 0 {
      BEOfToBE(v / 256, n - 1);
      BESnoc(ToBE(v / 256, n - 1), v % 256);
    }
  }

  lemma ToBEOfBE(s: bytes)
    ensures ToBE(BE(s), |s|) == s
  {
    BEBound(s);
    BEOfToBE(BE(s), |s|);
    BEInjective(ToBE(BE(s), |s|), s);
  }

  lemma {:induction false} PowAdd(m: nat, n: nat)
    ensures Pow256(m + n) == Pow256(m) * Pow256(n)
  {
    if m > 0 {
      PowAdd(m - 1, n);
      Associate(256, Pow256(m - 1), Pow256(n));
    }
  }

  lemma {:induction false} PowMonotone(m: nat, n: nat)
    requires m <= n
    ensures Pow256(m) <= Pow256(n)
  {
    if m < n { PowMonotone(m, n - 1); }
  }

  lemma Associate(x: int, y: int, z: int)
    ensures x * (y * z) == (x * y) * z
  {
  }

  lemma {:induction false} BEConcat(a: bytes, b: bytes)
    ensures BE(a + b) == BE(a) * Pow256(|b|) + BE(b)
  {
    if b == [] {
      assert a + b == a;
    } else {
      var n := |b| - 1;
      assert a + b == (a + b[..n]) + [b[n]];
      BESnoc(a + b[..n], b[n]);
      BEConcat(a, b[..n]);
      Distribute(BE(a), Pow256(n), BE(b[..n]), b[n]);
    }
  }

  lemma Distribute(x: int, p: int, y: int, b: int)
    ensures (x * p + y) * 256 + b == x * (256 * p) + (y * 256 + b)
  {
    assert (x * p) * 256 == x * (256 * p);
  }

  lemma SliceOfSlice(s: bytes, lo: nat, hi: nat, i: nat, j: nat)
    requires lo <= hi <= |s| && i <= j <= hi - lo
    ensures s[lo..hi][i..j] == s[lo + i..lo + j]
  {
    assert forall k :: 0 <= k < j - i ==> s[lo..hi][i..j][k] == s[lo + i..lo + j][k];
  }

  // ----- Orders on octet strings -----

  /** Byte-wise order in which a proper prefix comes first. */
  predicate LexLeq(a: bytes, b: bytes) {
    if a == [] then true
    else if b == [] then false
    else a[0] < b[0] || (a[0] == b[0] && LexLeq(a[1..], b[1..]))
  }

  function PadTo(a: bytes, n: nat): bytes
    requires |a| <= n
  {
    a + Zeros(n - |a|)
  }

  /** The order of section 11.6 of X.690: the shorter string is padded with zero octets at
      its end, for the comparison only. */
  predicate PaddedLeq(a: bytes, b: bytes) {
    var n := if |a| < |b| then |b| else |a|;
    LexLeq(PadTo(a, n), PadTo(b, n))
  }

  predicate ProperPrefix(a: bytes, b: bytes) {
    |a| < |b| && a == b[..|a|]
  }

  lemma {:induction false} LexReflexive(a: bytes)
    ensures LexLeq(a, a)
  {
    if a != [] { LexReflexive(a[1..]); }
  }

  lemma {:induction false} LexTransitive(a: bytes, b: bytes, c: bytes)
    requires LexLeq(a, b) && LexLeq(b, c)
    ensures LexLeq(a, c)
  {
    if a != [] && b != [] && c != [] && a[0] == b[0] == c[0] {
      LexTransitive(a[1..], b[1..], c[1..]);
    }
  }

  lemma PrefixOfTails(u: bytes, v: bytes)
    requires u != [] && v != [] && u[0] == v[0]
    ensures ProperPrefix(u[1..], v[1..]) ==> ProperPrefix(u, v)
  {
    if ProperPrefix(u[1..], v[1..]) {
      assert v[1..][..|u| - 1] == v[1..|u|];
      assert u == [u[0]] + u[1..] && v[..|u|] == [v[0]] + v[1..|u|];
    }
  }

  /** The two orders agree on strings of which neither is a proper prefix of the other. */
  lemma {:induction false} LexIsPadded(a: bytes, b: bytes)
    requires !ProperPrefix(a, b) && !ProperPrefix(b, a)
    ensures LexLeq(a, b) <==> PaddedLeq(a, b)
  {
    var n := if |a| < |b| then |b| else |a|;
    var x, y := PadTo(a, n), PadTo(b, n);
    assert a[..0] == b[..0] == [];
    if a != [] && b != [] && a[0] == b[0] {
      assert x[1..] == PadTo(a[1..], n - 1) && y[1..] == PadTo(b[1..], n - 1);
      PrefixOfTails(a, b);
      PrefixOfTails(b, a);
      LexIsPadded(a[1..], b[1..]);
    }
  }

  /** compareBytesLex: the sign tells the order of the two sub-ranges. */
  method CompareBytesLex(buf: bytes, aStart: nat, aLen: nat, bStart: nat, bLen: nat) returns (r: int)
    requires aStart + aLen <= |buf| && bStart + bLen <= |buf|
    ensures r <= 0 <==> LexLeq(buf[aStart..aStart + aLen], buf[bStart..bStart + bLen])
    ensures r == 0 <==> buf[aStart..aStart + aLen] == buf[bStart..bStart + bLen]
  {
    ghost var a, b := buf[aStart..aStart + aLen], buf[bStart..bStart + bLen];
    var minLen := if aLen < bLen then aLen else bLen;
    var i := 0;
    while i < minLen
      invariant 0 <= i <= minLen
      invariant a[..i] == b[..i]
      invariant LexLeq(a, b) <==> LexLeq(a[i..], b[i..])
    {
      var av, bv := buf[aStart + i], buf[bStart + i];
      assert a[i..][0] == av && b[i..][0] == bv && a[i] == av && b[i] == bv;
      assert a[i..][1..] == a[i + 1..] && b[i..][1..] == b[i + 1..];
      if av < bv { return -1; }
      if av > bv { return 1; }
      assert a[..i + 1] == a[..i] + [av] && b[..i + 1] == b[..i] + [bv];
      i := i + 1;
    }
    assert a[..i] == b[..i];
    assert aLen == bLen ==> a == b;
    return aLen - bLen;
  }
}
