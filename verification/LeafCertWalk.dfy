/** findTbsInCert (packages/circuits/src/leaf-cert-walk.ts), a lighter certificate walker that
    must agree with the strict-DER guard. */
module LeafCertWalk {
  import opened Arithmetic
  import opened Bytes
  import opened Results
  import opened DerContent
  import opened DerTlv
  import opened DerStrict

  datatype Error = NotASequence | UnsupportedLength | NotATbsSequence
  datatype Length = Length(headerLen: nat, contentLen: int)
  datatype Location = Location(offset: nat, length: int)

  /** The length octets der[off + 1..off + 1 + n] under the 32-bit accumulator; a byte past
      the end is undefined, which the bitwise or takes for 0. */
  function LengthOctets(der: bytes, off: nat, n: nat): int {
    if n == 0 then 0
    else
      var b := ByteAt(der, off + n);
      ShiftIn(LengthOctets(der, off, n - 1), if b.Some? then b.value else 0)
  }

  function DerLengthAt(der: bytes, off: nat): Result<Length, Error> {
    match ByteAt(der, off)
    case None => Err(UnsupportedLength)
    case Some(b0) =>
      if b0 < 0x80 then Ok(Length(1, b0))
      else
        var n := b0 - 0x80;
        if n == 0 || n > 4 then Err(UnsupportedLength)
        else Ok(Length(1 + n, LengthOctets(der, off, n)))
  }

  method ReadDerLength(der: bytes, off: nat) returns (r: Result<Length, Error>)
    ensures r == DerLengthAt(der, off)
  {
    if off >= |der| { return Err(UnsupportedLength); }
    var b0 := der[off];
    if b0 < 0x80 { return Ok(Length(1, b0)); }
    var n := b0 - 0x80;
    if n == 0 || n > 4 { return Err(UnsupportedLength); }
    var len, k := 0, 1;
    while k <= n
      invariant 1 <= k <= n + 1
      invariant len == LengthOctets(der, off, k - 1)
    {
      len := ShiftIn(len, if off + k < |der| then der[off + k] else 0);
      k := k + 1;
    }
    return Ok(Length(1 + n, len));
  }

  function TbsInCert(der: bytes): Result<Location, Error> {
    if ByteAt(der, 0) != Some(0x30) then Err(NotASequence)
    else
      match DerLengthAt(der, 1)
      case Err(e) => Err(e)
      case Ok(outer) =>
        var tbs := 1 + outer.headerLen;
        if ByteAt(der, tbs) != Some(0x30) then Err(NotATbsSequence)
        else
          match DerLengthAt(der, tbs + 1)
          case Err(e) => Err(e)
          case Ok(inner) => Ok(Location(tbs, 1 + inner.headerLen + inner.contentLen))
  }

  method FindTbsInCert(der: bytes) returns (r: Result<Location, Error>)
    ensures r == TbsInCert(der)
  {
    if |der| == 0 || der[0] != 0x30 { return Err(NotASequence); }
    var outerLen := ReadDerLength(der, 1);
    if outerLen.Err? { return Err(outerLen.error); }
    var tbsTagOffset := 1 + outerLen.value.headerLen;
    if tbsTagOffset >= |der| || der[tbsTagOffset] != 0x30 { return Err(NotATbsSequence); }
    var tbsLen := ReadDerLength(der, tbsTagOffset + 1);
    if tbsLen.Err? { return Err(tbsLen.error); }
    return Ok(Location(tbsTagOffset, 1 + tbsLen.value.headerLen + tbsLen.value.contentLen));
  }

  lemma {:induction false} OctetsAreAccumulated(der: bytes, off: nat, n: nat)
    requires off + 1 + n <= |der|
    ensures LengthOctets(der, off, n) == Accumulate(der[off + 1..off + 1 + n])
  {
    if n > 0 {
      OctetsAreAccumulated(der, off, n - 1);
      assert der[off + 1..off + 1 + n][..n - 1] == der[off + 1..off + n];
    }
  }

  // ----- On any octets -----

  /** der as if four zero octets stood behind it. */
  function Extended(der: bytes): bytes {
    der + Zeros(4)
  }

  lemma {:induction false} OctetsAreExtended(der: bytes, off: nat, n: nat)
    requires off < |der| && n <= 4
    ensures LengthOctets(der, off, n) == Accumulate(Extended(der)[off + 1..off + 1 + n])
  {
    if n > 0 {
      OctetsAreExtended(der, off, n - 1);
      var s := Extended(der)[off + 1..off + 1 + n];
      assert s[..n - 1] == Extended(der)[off + 1..off + n];
      assert s[n - 1] == if off + n < |der| then der[off + n] else 0;
    }
  }

  /** Wherever it is read, the length is the short form, or the big-endian value of up to four
      octets, of which missing ones count as zero, wrapped to 32 bits; nothing else is read. */
  lemma LengthIsWrapped(der: bytes, off: nat)
    ensures DerLengthAt(der, off) == Err(UnsupportedLength) <==> off >= |der| || der[off] == 0x80 || der[off] > 0x84
    ensures off < |der| && der[off] < 0x80 ==> DerLengthAt(der, off) == Ok(Length(1, der[off]))
    ensures off < |der| && 0x80 < der[off] <= 0x84 ==>
      var n := der[off] - 0x80;
      DerLengthAt(der, off) == Ok(Length(1 + n, ToInt32(BE(Extended(der)[off + 1..off + 1 + n]))))
  {
    if off < |der| && 0x80 < der[off] <= 0x84 {
      var n := der[off] - 0x80;
      OctetsAreExtended(der, off, n);
      AccumulateWraps(Extended(der)[off + 1..off + 1 + n]);
    }
  }

  /** Tag 0x30 and a readable length stand at this place. */
  predicate SequenceStands(der: bytes, at: nat) {
    at + 1 < |der| && der[at] == 0x30 && der[at + 1] != 0x80 && der[at + 1] <= 0x84
  }

  /** The octets of the length that stands at this place. */
  function LengthSize(der: bytes, at: nat): nat
    requires SequenceStands(der, at)
  {
    if der[at + 1] < 0x80 then 1 else der[at + 1] - 0x7f
  }

  /** Of any octets: the walker succeeds exactly when a SEQUENCE with a readable length stands at
      the front and another right behind that length, and it returns where that one is. */
  lemma WalkIs(der: bytes, l: Location)
    ensures TbsInCert(der) == Ok(l) <==>
      && SequenceStands(der, 0) && l.offset == 1 + LengthSize(der, 0) && SequenceStands(der, l.offset)
      && DerLengthAt(der, l.offset + 1) == Ok(Length(LengthSize(der, l.offset), l.length - 1 - LengthSize(der, l.offset)))
    ensures TbsInCert(der) == Err(NotASequence) <==> der == [] || der[0] != 0x30
    ensures TbsInCert(der) == Err(NotATbsSequence) <==>
      SequenceStands(der, 0) && (1 + LengthSize(der, 0) >= |der| || der[1 + LengthSize(der, 0)] != 0x30)
  {
    LengthIsWrapped(der, 1);
    if SequenceStands(der, 0) { LengthIsWrapped(der, 2 + LengthSize(der, 0)); }
  }

  // ----- On strict DER -----

  /** On every header that the guard accepts, readDerLength reads the same length. */
  lemma LengthsAgree(der: bytes, offset: nat, end: nat)
    requires offset <= end <= |der| && ReadHeader(der[offset..end]).Ok?
    ensures var h := ReadHeader(der[offset..end]).value;
      DerLengthAt(der, offset + 1) == Ok(Length(h.headerLen - 1, h.contentLen))
  {
    var s := der[offset..end];
    assert s[1] == der[offset + 1];
    if s[1] >= 0x80 {
      var n := s[1] - 0x80;
      SliceOfSlice(der, offset, end, 2, 2 + n);
      OctetsAreAccumulated(der, offset + 1, n);
    }
  }

  /** On a strict-DER buffer that is one SEQUENCE whose first child is a SEQUENCE, the walker
      finds exactly that child's bytes. */
  lemma TbsIsFirstChild(cert: Tlv, tbs: Tlv, others: seq<Tlv>)
    requires Canonical(cert) && cert == Constructed(TAG_SEQUENCE, [tbs] + others) && tbs.tag == TAG_SEQUENCE
    ensures var der := Encode(cert);
      var r := TbsInCert(der);
      && r.Ok? && 0 <= r.value.length && r.value.offset + r.value.length <= |der|
      && der[r.value.offset..r.value.offset + r.value.length] == Encode(tbs)
      && r.value.offset == |der| - |Content(cert)|
  {
    var der, content := Encode(cert), Content(cert);
    assert Prints([tbs] + others, content);
    var first, head, rest := PrintParts([tbs] + others, content);
    assert der + [] == der;
    var outer := PrintedHeader(cert, der, []);
    var inner := PrintedHeader(tbs, head, rest);
    FirstChildRange(der, content, head, outer, inner);
  }

  lemma FirstChildRange(der: bytes, content: bytes, head: bytes, outer: Header, inner: Header)
    requires ReadHeader(der) == Ok(outer) && outer.tag == TAG_SEQUENCE && content == der[outer.headerLen..]
    requires ReadHeader(content) == Ok(inner) && inner.tag == TAG_SEQUENCE
    requires head <= content && |head| == inner.headerLen + inner.contentLen
    ensures TbsInCert(der) == Ok(Location(outer.headerLen, |head|))
    ensures der[outer.headerLen..outer.headerLen + |head|] == head
  {
    var at := outer.headerLen;
    assert der[0..|der|] == der && der[at..|der|] == content;
    LengthsAgree(der, 0, |der|);
    LengthsAgree(der, at, |der|);
    HeaderStartsWithTag(der);
    HeaderStartsWithTag(content);
    assert der[at] == content[0];
    SliceOfSlice(der, at, |der|, 0, |head|);
  }

  lemma HeaderStartsWithTag(s: bytes)
    requires ReadHeader(s).Ok?
    ensures |s| >= 2 && s[0] == ReadHeader(s).value.tag
  {
  }

  /** One SEQUENCE that starts with a SEQUENCE. */
  predicate IsCertShaped(f: seq<Tlv>) {
    && |f| == 1 && f[0].Constructed? && f[0].tag == TAG_SEQUENCE
    && f[0].children != [] && f[0].children[0].tag == TAG_SEQUENCE
  }

  /** The walker succeeds on der and returns the range of the child's encoding. */
  predicate Locates(der: bytes, child: Tlv) {
    var r := TbsInCert(der);
    && r.Ok? && 0 <= r.value.length && r.value.offset + r.value.length <= |der|
    && der[r.value.offset..r.value.offset + r.value.length] == Encode(child)
  }

  lemma SingleTree(f: seq<Tlv>, der: bytes)
    requires |f| == 1 && Prints(f, der)
    ensures Canonical(f[0]) && Encode(f[0]) == der
  {
    assert f == [f[0]];
    SingletonForest(f[0]);
  }

  lemma TbsInPrinted(f: seq<Tlv>, der: bytes)
    requires Prints(f, der) && IsCertShaped(f)
    ensures Locates(der, f[0].children[0])
  {
    SingleTree(f, der);
    var cert := f[0];
    assert cert.children == [cert.children[0]] + cert.children[1..];
    TbsIsFirstChild(cert, cert.children[0], cert.children[1..]);
  }

  /** The same, starting from the guard's verdict on the bytes. */
  lemma TbsInStrictCert(der: bytes)
    requires IsStrict(der) && IsCertShaped(Parse(der, 0, []).value)
    ensures Locates(der, Parse(der, 0, []).value[0].children[0])
  {
    var f := Parse(der, 0, []).value;
    ParseSound(der, 0, [], f);
    TbsInPrinted(f, der);
  }
}
