/** Tag-length-value trees: the DER printer, and the header reader of
    packages/sdk/src/cert/der-strict.ts with its 32-bit length arithmetic. Tags are single
    octets, as in the source. */
module DerTlv {
  import opened Arithmetic
  import opened Bytes
  import opened Results
  import opened DerContent

  const MAX_LENGTH: int := 0x8000_0000

  // ----- Length octets (section 10.1 of X.690: definite form, fewest octets) -----

  function MinimalBE(n: nat): (s: bytes)
    ensures n > 0 ==> s != [] && s[0] != 0
    ensures n == 0 ==> s == []
  {
    if n == 0 then [] else MinimalBE(n / 256) + [n % 256]
  }

  lemma {:induction false} BEOfMinimal(n: nat)
    ensures BE(MinimalBE(n)) == n
  {
    if n > 0 {
      BEOfMinimal(n / 256);
      BESnoc(MinimalBE(n / 256), n % 256);
    }
  }

  lemma {:induction false} MinimalOfBE(s: bytes)
    requires s != [] ==> s[0] != 0
    ensures MinimalBE(BE(s)) == s
  {
    if s != [] {
      var init := s[..|s| - 1];
      MinimalOfBE(init);
      var v, last := BE(init), s[|s| - 1];
      assert BE(s) / 256 == v && BE(s) % 256 == last;
      assert v == 0 ==> init == [];
      assert s == init + [last];
    }
  }

  lemma {:induction false} MinimalSize(n: nat, k: nat)
    ensures |MinimalBE(n)| <= k <==> n < Pow256(k)
  {
    if k > 0 && n > 0 {
      MinimalSize(n / 256, k - 1);
    }
  }

  function EncodeLength(n: nat): bytes
    requires n < MAX_LENGTH
  {
    MinimalSize(n, 4);
    assert Pow256(4) == 0x1_0000_0000;
    if n < 0x80 then [n] else [0x80 + |MinimalBE(n)|] + MinimalBE(n)
  }

  // ----- 32-bit arithmetic of the length accumulator -----

  /** (acc << 8) | b: the shifted word ends in eight zero bits, so the union is a sum. */
  function ShiftIn(acc: int, b: byte): int {
    ToInt32(acc * 256) + b
  }

  function Accumulate(s: bytes): int {
    if s == [] then 0 else ShiftIn(Accumulate(s[..|s| - 1]), s[|s| - 1])
  }

  lemma {:induction false} AccumulateWraps(s: bytes)
    requires |s| <= 4
    ensures Accumulate(s) == ToInt32(BE(s))
    ensures |s| <= 3 ==> Accumulate(s) == BE(s) < 0x100_0000
  {
    if s != [] {
      var init := s[..|s| - 1];
      AccumulateWraps(init);
      ShiftInWraps(BE(init), s[|s| - 1]);
      if |s| <= 3 {
        BEBound(init);
        PowMonotone(|init|, 2);
        assert Pow256(2) == 0x1_0000;
      }
    }
  }

  lemma ShiftInWraps(v: nat, b: byte)
    requires v < 0x100_0000
    ensures ShiftIn(v, b) == ToInt32(v * 256 + b)
    ensures v < 0x1_0000 ==> ShiftIn(v, b) == v * 256 + b
  {
  }

  // ----- Header reader -----

  datatype Header = Header(tag: byte, headerLen: nat, contentLen: nat)

  predicate Fits(h: Header, s: bytes) {
    2 <= h.headerLen <= h.headerLen + h.contentLen <= |s|
  }

  /** parseHeader on the window s = buf[offset..end]; positions are relative to offset. */
  function ReadHeader(s: bytes): (r: Result<Header, Reason>)
    ensures r.Ok? ==> Fits(r.value, s)
  {
    if |s| <= 1 then Err(Truncated)
    else if s[1] < 0x80 then
      if 2 + s[1] > |s| then Err(Truncated) else Ok(Header(s[0], 2, s[1]))
    else if s[1] == 0x80 then Err(IndefiniteLength)
    else
      var n := s[1] - 0x80;
      if n > 4 then Err(NonMinimalLength)
      else if 1 + n >= |s| then Err(Truncated)
      else
        var len := Accumulate(s[2..2 + n]);
        if len < 0x80 then Err(NonMinimalLength)
        else if n >= 2 && s[2] == 0x00 then Err(NonMinimalLength)
        else if 2 + n + len > |s| then Err(Truncated)
        else Ok(Header(s[0], 2 + n, len))
  }

  datatype ParsedHeader = ParsedHeader(tag: byte, contentStart: nat, contentEnd: nat)

  function At(r: Result<Header, Reason>, offset: nat): Result<ParsedHeader, Reason> {
    match r
    case Err(e) => Err(e)
    case Ok(h) => Ok(ParsedHeader(h.tag, offset + h.headerLen, offset + h.headerLen + h.contentLen))
  }

  /** ReadHeader on the window buf[offset..end], with positions in buf. */
  function HeaderIn(buf: bytes, offset: nat, end: nat): (r: Result<ParsedHeader, Reason>)
    requires offset <= end <= |buf|
    ensures r.Ok? ==> offset + 2 <= r.value.contentStart <= r.value.contentEnd <= end
  {
    At(ReadHeader(buf[offset..end]), offset)
  }

  method ParseHeader(buf: bytes, offset: nat, end: nat) returns (r: Result<ParsedHeader, Reason>)
    requires offset <= end <= |buf|
    ensures r == HeaderIn(buf, offset, end)
  {
    ghost var s := buf[offset..end];
    if offset >= end { return Err(Truncated); }
    var tag := buf[offset];
    var lengthOffset := offset + 1;
    if lengthOffset >= end { return Err(Truncated); }
    var firstLengthByte := buf[lengthOffset];
    assert s[0] == tag && s[1] == firstLengthByte;
    var contentLen: int, lengthByteCount: nat;
    if firstLengthByte < 0x80 {
      contentLen := firstLengthByte;
      lengthByteCount := 1;
    } else if firstLengthByte == 0x80 {
      return Err(IndefiniteLength);
    } else {
      var numLengthBytes := firstLengthByte - 0x80;
      if numLengthBytes == 0 || numLengthBytes > 4 { return Err(NonMinimalLength); }
      if lengthOffset + numLengthBytes >= end { return Err(Truncated); }
      contentLen := AccumulateLength(buf, lengthOffset + 1, numLengthBytes);
      SliceOfSlice(buf, offset, end, 2, 2 + numLengthBytes);
      assert s[2] == buf[lengthOffset + 1];
      if contentLen < 0x80 { return Err(NonMinimalLength); }
      if numLengthBytes >= 2 && buf[lengthOffset + 1] == 0x00 { return Err(NonMinimalLength); }
      lengthByteCount := 1 + numLengthBytes;
    }
    var contentStart := offset + 1 + lengthByteCount;
    var contentEnd := contentStart + contentLen;
    if contentEnd > end { return Err(Truncated); }
    return Ok(ParsedHeader(tag, contentStart, contentEnd));
  }

  method AccumulateLength(buf: bytes, start: nat, count: nat) returns (contentLen: int)
    requires start + count <= |buf|
    ensures contentLen == Accumulate(buf[start..start + count])
  {
    contentLen := 0;
    for i := 0 to count
      invariant contentLen == Accumulate(buf[start..start + i])
    {
      assert buf[start..start + i + 1][..i] == buf[start..start + i];
      contentLen := ShiftIn(contentLen, buf[start + i]);
    }
  }

  /** A header is accepted only if it is the printed one, for a content that fits. */
  lemma HeaderSound(s: bytes)
    requires ReadHeader(s).Ok?
    ensures var h := ReadHeader(s).value;
      h.contentLen < MAX_LENGTH && s[..h.headerLen] == [h.tag] + EncodeLength(h.contentLen)
  {
    if s[1] < 0x80 {
      assert s[..2] == [s[0]] + [s[1]];
    } else {
      var n := s[1] - 0x80;
      LongFormSound(s[2..2 + n]);
      assert s[..2 + n] == [s[0]] + ([s[1]] + s[2..2 + n]);
    }
  }

  lemma LongFormSound(digits: bytes)
    requires 1 <= |digits| <= 4 && Accumulate(digits) >= 0x80
    requires |digits| >= 2 ==> digits[0] != 0
    ensures 0x80 <= Accumulate(digits) < MAX_LENGTH
    ensures EncodeLength(Accumulate(digits)) == [0x80 + |digits|] + digits
  {
    AccumulateIs(digits);
    if |digits| == 1 { assert digits[..0] == []; }
    MinimalOfBE(digits);
  }

  lemma AccumulateIs(digits: bytes)
    requires |digits| <= 4
    ensures BE(digits) < 0x1_0000_0000
    ensures Accumulate(digits) == if BE(digits) < MAX_LENGTH then BE(digits) else BE(digits) - 0x1_0000_0000
  {
    AccumulateWraps(digits);
    BEBound(digits);
    PowMonotone(|digits|, 4);
    assert Pow256(4) == 0x1_0000_0000;
  }

  /** Every printed header is accepted and read back. */
  lemma HeaderComplete(tag: byte, len: nat, rest: bytes)
    requires len < MAX_LENGTH && len <= |rest|
    ensures ReadHeader([tag] + EncodeLength(len) + rest) == Ok(Header(tag, 1 + |EncodeLength(len)|, len))
  {
    if len < 0x80 {
      ShortForm(tag, len, [tag] + [len] + rest);
    } else {
      MinimalSize(len, 4);
      assert Pow256(4) == 0x1_0000_0000;
      LongFormComplete(tag, len, MinimalBE(len), rest);
    }
  }

  lemma ShortForm(tag: byte, len: byte, s: bytes)
    requires len < 0x80 && |s| >= 2 + len && s[0] == tag && s[1] == len
    ensures ReadHeader(s) == Ok(Header(tag, 2, len))
  {
  }

  lemma LongFormComplete(tag: byte, len: nat, digits: bytes, rest: bytes)
    requires 0x80 <= len < MAX_LENGTH && len <= |rest| && digits == MinimalBE(len) && |digits| <= 4
    ensures ReadHeader([tag] + ([0x80 + |digits|] + digits) + rest) == Ok(Header(tag, 2 + |digits|, len))
  {
    var s := [tag] + ([0x80 + |digits|] + digits) + rest;
    var n := |digits|;
    assert s[1] == 0x80 + n && s[2..2 + n] == digits && s[2] == digits[0];
    BEOfMinimal(len);
    AccumulateIs(digits);
  }

  /** The longest length that four octets can state is 2^31 - 1. From 2^31 on the
      accumulator is negative, and the header is rejected as if it were not minimal. */
  lemma LengthLimit(s: bytes)
    requires |s| >= 6 && s[1] == 0x84 && s[2] != 0
    ensures ReadHeader(s) == Err(NonMinimalLength) <==> s[2] >= 0x80
  {
    var digits := s[2..6];
    var tail := digits[1..];
    assert digits == [s[2]] + tail;
    BEConcat([s[2]], tail);
    BEBound(digits);
    BEBound(tail);
    assert [s[2]][..0] == [] && BE([s[2]]) == s[2];
    AccumulateWraps(digits);
    TopOctet(s[2], BE(tail));
  }

  lemma TopOctet(top: nat, low: nat)
    requires top < 256 && low < Pow256(3)
    ensures ToInt32(top * Pow256(3) + low) < 0 <==> top >= 0x80
    ensures 0 < top < 0x80 ==> ToInt32(top * Pow256(3) + low) >= 0x80
  {
    assert Pow256(3) == 0x100_0000;
  }

  // ----- Trees and their encoding -----

  datatype Tlv = Primitive(tag: byte, content: bytes) | Constructed(tag: byte, children: seq<Tlv>)

  /** The content octets of t. */
  function Content(t: Tlv): bytes
    decreases t, 0
  {
    match t
    case Primitive(_, content) => content
    case Constructed(_, children) => EncodeForest(children)
  }

  function EncodeForest(f: seq<Tlv>): bytes
    decreases f
  {
    if f == [] then [] else Encode(f[0]) + EncodeForest(f[1..])
  }

  /** Tag, length and content; a content of 2^31 octets or more has no encoding here. */
  function Encode(t: Tlv): bytes
    decreases t, 1
  {
    var c := Content(t);
    if |c| < MAX_LENGTH then [t.tag] + EncodeLength(|c|) + c else c
  }

  function Encodings(f: seq<Tlv>): (parts: seq<bytes>)
    ensures |parts| == |f|
    ensures forall i :: 0 <= i < |f| ==> parts[i] == Encode(f[i])
  {
    seq(|f|, i requires 0 <= i < |f| => Encode(f[i]))
  }

  lemma SingletonForest(t: Tlv)
    ensures EncodeForest([t]) == Encode(t)
    ensures CanonicalForest([t]) == Canonical(t)
  {
    assert [t][1..] == [];
    assert Encode(t) + [] == Encode(t);
  }

  lemma PairForest(t: Tlv, u: Tlv)
    ensures EncodeForest([t, u]) == Encode(t) + Encode(u)
    ensures CanonicalForest([t, u]) == (Canonical(t) && Canonical(u))
  {
    assert [t, u][1..] == [u];
    SingletonForest(u);
  }

  predicate IsConstructedTag(tag: byte) {
    (tag / 0x20) % 2 == 1
  }

  /** The rules a tree must keep: the constructed bit tells the shape, primitives hold what
      the encoders write, children of a SET ascend in the order of section 11.6 of X.690, and
      content lengths stay below 2^31. */
  ghost predicate Canonical(t: Tlv)
    decreases t, 1
  {
    && |Content(t)| < MAX_LENGTH
    && (IsConstructedTag(t.tag) <==> t.Constructed?)
    && match t
       case Primitive(tag, content) => Encodable(tag, content)
       case Constructed(tag, children) =>
         CanonicalForest(children) && (tag == TAG_SET ==> Ascending(Encodings(children)))
  }

  ghost predicate CanonicalForest(f: seq<Tlv>)
    decreases f, 0
  {
    f == [] || (Canonical(f[0]) && CanonicalForest(f[1..]))
  }

  ghost predicate Ascending(parts: seq<bytes>) {
    forall i, j :: 0 <= i < j < |parts| ==> PaddedLeq(parts[i], parts[j])
  }

  lemma {:induction false} CanonicalMember(f: seq<Tlv>, i: nat)
    requires CanonicalForest(f) && i < |f|
    ensures Canonical(f[i])
  {
    if i > 0 { CanonicalMember(f[1..], i - 1); }
  }

  /** The reader finds the header of the first tree of a printed forest. */
  lemma HeaderOfPrinted(t: Tlv, rest: bytes)
    requires Canonical(t)
    ensures var r := ReadHeader(Encode(t) + rest);
      && r.Ok? && r.value.tag == t.tag && r.value.contentLen == |Content(t)|
      && r.value.headerLen + r.value.contentLen == |Encode(t)|
      && (Encode(t) + rest)[r.value.headerLen..][..r.value.contentLen] == Content(t)
      && (Encode(t) + rest)[|Encode(t)|..] == rest
  {
    HeaderThenContent(t.tag, Content(t), rest);
  }

  lemma HeaderThenContent(tag: byte, c: bytes, rest: bytes)
    requires |c| < MAX_LENGTH
    ensures var head := [tag] + EncodeLength(|c|);
      var s := head + c + rest;
      && ReadHeader(s) == Ok(Header(tag, |head|, |c|))
      && s[|head|..][..|c|] == c && s[|head + c|..] == rest
  {
    HeaderComplete(tag, |c|, c + rest);
    var head := [tag] + EncodeLength(|c|);
    assert head + c + rest == head + (c + rest);
    assert (head + (c + rest))[|head|..] == c + rest;
  }

  /** How far the first TLV of s reaches. */
  function FirstLength(s: bytes): Option<nat> {
    var r := ReadHeader(s);
    if r.Err? then None else Some(r.value.headerLen + r.value.contentLen)
  }

  lemma PrintedLength(t: Tlv, rest: bytes)
    requires Canonical(t)
    ensures FirstLength(Encode(t) + rest) == Some(|Encode(t)|)
  {
    HeaderOfPrinted(t, rest);
  }

  lemma PrefixHasRest(a: bytes, b: bytes) returns (rest: bytes)
    requires ProperPrefix(a, b)
    ensures b == a + rest && rest != []
  {
    rest := b[|a|..];
  }

  /** No complete TLV is a proper prefix of another. */
  lemma PrefixFree(a: Tlv, b: Tlv)
    requires Canonical(a) && Canonical(b)
    ensures !ProperPrefix(Encode(a), Encode(b))
  {
    var x, y := Encode(a), Encode(b);
    PrintedLength(b, []);
    assert y + [] == y;
    if ProperPrefix(x, y) {
      var rest := PrefixHasRest(x, y);
      PrintedLength(a, rest);
    }
  }
}
