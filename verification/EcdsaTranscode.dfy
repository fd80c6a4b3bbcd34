/** The DER printer and reader for ECDSA signatures in
    packages/lotl-flattener/src/fetch/xmlSignature.ts. */
module EcdsaTranscode {
  import opened Bytes
  import opened Results
  import opened DerContent
  import opened DerTlv
  import opened DerStrict

  datatype Error = InvalidDer | IntegerTooLarge | InvalidRawLength

  /** Raw signatures above this size would need DER lengths of 2^31 or more. */
  const MAX_RAW: nat := 0x7fff_ff00

  // ----- Leading zeros -----

  function StripZeros(v: bytes): (out: bytes)
    ensures |out| <= |v| && (out != [] ==> out[0] != 0)
  {
    if v != [] && v[0] == 0 then StripZeros(v[1..]) else v
  }

  /** The loop that leftPadUnsigned and derInteger share. */
  method StripLeadingZeros(v: bytes) returns (out: bytes)
    ensures out == StripZeros(v)
  {
    out := v;
    while |out| > 0 && out[0] == 0
      invariant StripZeros(v) == StripZeros(out)
      decreases |out|
    {
      out := out[1..];
    }
  }

  lemma {:induction false} StripSplits(v: bytes)
    ensures v == Zeros(|v| - |StripZeros(v)|) + StripZeros(v)
  {
    if v != [] && v[0] == 0 {
      StripSplits(v[1..]);
      var k := |v| - 1 - |StripZeros(v[1..])|;
      assert Zeros(k + 1) == [0] + Zeros(k);
      assert v == [0] + v[1..];
    } else {
      assert Zeros(0) == [];
    }
  }

  lemma {:induction false} StripAfterZeros(k: nat, v: bytes)
    requires v != [] ==> v[0] != 0
    ensures StripZeros(Zeros(k) + v) == v
  {
    if k == 0 {
      assert Zeros(0) + v == v;
    } else {
      assert (Zeros(k) + v)[1..] == Zeros(k - 1) + v;
      StripAfterZeros(k - 1, v);
    }
  }

  function LeftPadUnsigned(v: bytes, length: nat): Result<bytes, Error> {
    var out := StripZeros(v);
    if |out| > length then Err(IntegerTooLarge) else Ok(Zeros(length - |out|) + out)
  }

  // ----- Printer -----

  /** The content octets that derInteger writes for the unsigned big-endian number v. */
  function IntegerContent(v: bytes): (c: bytes)
    ensures 1 <= |c| <= |v| + 1
  {
    var out := StripZeros(v);
    if out == [] then [0] else if out[0] >= 0x80 then [0] + out else out
  }

  lemma IntegerContentAccepted(v: bytes)
    ensures CheckInteger(IntegerContent(v))
    ensures StripZeros(IntegerContent(v)) == StripZeros(v)
  {
    var out := StripZeros(v);
    if out == [] {
      assert StripZeros([0]) == [] by { StripAfterZeros(1, []); assert Zeros(1) + [] == [0]; }
    } else if out[0] >= 0x80 {
      assert ([0] + out)[1..] == out;
    }
  }

  lemma {:induction false} UnsignedValue(c: bytes)
    requires c != [] && c[0] < 0x80
    ensures IntegerValue(c) == BE(c)
  {
    if |c| == 1 {
      assert BE(c[..0]) == 0;
    } else {
      UnsignedValue(c[..|c| - 1]);
    }
  }

  lemma {:induction false} ZerosValue(k: nat)
    ensures BE(Zeros(k)) == 0
  {
    if k > 0 {
      assert Zeros(k)[..k - 1] == Zeros(k - 1);
      ZerosValue(k - 1);
    }
  }

  lemma LeadingZeros(k: nat, s: bytes)
    ensures BE(Zeros(k) + s) == BE(s)
  {
    BEConcat(Zeros(k), s);
    ZerosValue(k);
  }

  lemma ContentKeepsValue(v: bytes)
    ensures BE(IntegerContent(v)) == BE(v) && IntegerContent(v)[0] < 0x80
  {
    var out := StripZeros(v);
    StripSplits(v);
    LeadingZeros(|v| - |out|, out);
    LeadingZeros(1, out);
    assert Zeros(1) == [0];
    assert out == [] ==> [0] + out == [0];
  }

  /** What derInteger writes is the encoding of the unsigned number. */
  lemma IntegerContentValue(v: bytes)
    ensures IntegerContent(v) == EncodeInteger(BE(v))
  {
    ContentKeepsValue(v);
    UnsignedValue(IntegerContent(v));
    IntegerContentAccepted(v);
    IntegerCanonical(IntegerContent(v));
  }

  function DerInteger(v: bytes): (out: bytes)
    requires |v| <= MAX_RAW
    ensures |out| <= |v| + 7
  {
    LengthOctetsBound(|IntegerContent(v)|);
    [TAG_INTEGER] + EncodeLength(|IntegerContent(v)|) + IntegerContent(v)
  }

  function DerSequence(content: bytes): bytes
    requires |content| < MAX_LENGTH
  {
    [TAG_SEQUENCE] + EncodeLength(|content|) + content
  }

  function JoseToDer(signature: bytes): Result<bytes, Error>
    requires |signature| <= MAX_RAW
  {
    var n := |signature| / 2;
    if |signature| % 2 != 0 then Err(InvalidRawLength)
    else Ok(DerSequence(DerInteger(signature[..n]) + DerInteger(signature[n..])))
  }

  lemma LengthOctetsBound(n: nat)
    requires n < MAX_LENGTH
    ensures 1 <= |EncodeLength(n)| <= 5
  {
    MinimalSize(n, 4);
    assert Pow256(4) == 0x1_0000_0000;
  }

  /** derLength: the digits are unshifted while n is halved byte by byte. */
  method DerLength(length: nat) returns (out: bytes)
    requires length < MAX_LENGTH
    ensures out == EncodeLength(length)
  {
    if length < 0x80 { return [length]; }
    var digits: bytes := [];
    var n := length;
    while n > 0
      invariant MinimalBE(length) == MinimalBE(n) + digits
    {
      assert MinimalBE(n) + digits == MinimalBE(n / 256) + ([n % 256] + digits);
      digits := [n % 256] + digits;
      n := n / 256;
    }
    assert MinimalBE(length) == digits;
    assert |digits| <= 4 by { MinimalSize(length, 4); assert Pow256(4) == 0x1_0000_0000; }
    return [0x80 + |digits|] + digits;
  }

  method WriteInteger(v: bytes) returns (r: bytes)
    requires |v| <= MAX_RAW
    ensures r == DerInteger(v)
  {
    var out := StripLeadingZeros(v);
    if |out| == 0 { out := [0]; }
    if out[0] >= 0x80 { out := [0] + out; }
    LengthOctetsBound(|out|);
    var length := DerLength(|out|);
    return [0x02] + length + out;
  }

  method TranscodeToDer(signature: bytes) returns (r: Result<bytes, Error>)
    requires |signature| <= MAX_RAW
    ensures r == JoseToDer(signature)
  {
    if |signature| % 2 != 0 { return Err(InvalidRawLength); }
    var n := |signature| / 2;
    var rDer := WriteInteger(signature[..n]);
    var sDer := WriteInteger(signature[n..]);
    var length := DerLength(|rDer + sDer|);
    return Ok([0x30] + length + (rDer + sDer));
  }

  // ----- Reader -----

  /** Buffer.subarray clips both ends to the buffer. */
  function Subarray(buf: bytes, start: nat, end: nat): bytes {
    var hi := if end < |buf| then end else |buf|;
    if start < hi then buf[start..hi] else []
  }

  /** The INTEGER that derToJose finds at offset, whose length it takes from one octet, and
      the offset behind it. */
  function ReadInteger(signature: bytes, offset: nat): Result<(bytes, nat), Error> {
    if ByteAt(signature, offset) != Some(0x02) then Err(InvalidDer)
    else
      match ByteAt(signature, offset + 1)
      case None => Err(InvalidDer)
      case Some(length) => Ok((Subarray(signature, offset + 2, offset + 2 + length), offset + 2 + length))
  }

  /** The octets before the first INTEGER: the source skips the length without reading it. */
  function ContentOffset(signature: bytes): nat {
    if ByteAt(signature, 1) == Some(0x81) then 3
    else if ByteAt(signature, 1) == Some(0x82) then 4
    else 2
  }

  /** derToJose(signature, 2 * half). */
  function DerToJose(signature: bytes, half: nat): Result<bytes, Error> {
    if ByteAt(signature, 0) != Some(0x30) then Err(InvalidDer)
    else
      match ReadInteger(signature, ContentOffset(signature))
      case Err(e) => Err(e)
      case Ok((r, next)) =>
        match ReadInteger(signature, next)
        case Err(e) => Err(e)
        case Ok((s, _)) =>
          match LeftPadUnsigned(r, half)
          case Err(e) => Err(e)
          case Ok(rPadded) =>
            match LeftPadUnsigned(s, half)
            case Err(e) => Err(e)
            case Ok(sPadded) => Ok(rPadded + sPadded)
  }

  method PadUnsigned(v: bytes, length: nat) returns (r: Result<bytes, Error>)
    ensures r == LeftPadUnsigned(v, length)
  {
    var out := StripLeadingZeros(v);
    if |out| > length { return Err(IntegerTooLarge); }
    return Ok(Zeros(length - |out|) + out);
  }

  method TranscodeToJose(signature: bytes, half: nat) returns (jose: Result<bytes, Error>)
    ensures jose == DerToJose(signature, half)
  {
    if ByteAt(signature, 0) != Some(0x30) { return Err(InvalidDer); }
    var offset := 2;
    if ByteAt(signature, 1) == Some(0x81) {
      offset := 3;
    } else if ByteAt(signature, 1) == Some(0x82) {
      offset := 4;
    }
    if ByteAt(signature, offset) != Some(0x02) { return Err(InvalidDer); }
    var rLength := ByteAt(signature, offset + 1);
    if rLength == None { return Err(InvalidDer); }
    var r := Subarray(signature, offset + 2, offset + 2 + rLength.value);
    assert ReadInteger(signature, offset) == Ok((r, offset + 2 + rLength.value));
    offset := offset + 2 + rLength.value;
    if ByteAt(signature, offset) != Some(0x02) { return Err(InvalidDer); }
    var sLength := ByteAt(signature, offset + 1);
    if sLength == None { return Err(InvalidDer); }
    var s := Subarray(signature, offset + 2, offset + 2 + sLength.value);
    assert ReadInteger(signature, offset) == Ok((s, offset + 2 + sLength.value));
    var rPadded :- PadUnsigned(r, half);
    var sPadded :- PadUnsigned(s, half);
    return Ok(rPadded + sPadded);
  }

  // ----- The printer writes strict DER -----

  function IntegerTlv(v: bytes): Tlv {
    Primitive(TAG_INTEGER, EncodeInteger(BE(v)))
  }

  lemma DerIntegerIsTlv(v: bytes)
    requires |v| <= MAX_RAW
    ensures DerInteger(v) == Encode(IntegerTlv(v)) && Canonical(IntegerTlv(v))
  {
    IntegerContentValue(v);
    IntegerImage(IntegerContent(v));
    LengthOctetsBound(|IntegerContent(v)|);
  }

  lemma SingleIsStrict(t: Tlv)
    requires Canonical(t)
    ensures IsStrict(Encode(t))
  {
    SingletonForest(t);
    assert Prints([t], Encode(t));
    StrictIsPrinted(Encode(t));
  }

  lemma SequenceOf(children: seq<Tlv>, content: bytes)
    requires CanonicalForest(children) && EncodeForest(children) == content && |content| < MAX_LENGTH
    ensures var outer := Constructed(TAG_SEQUENCE, children);
      Canonical(outer) && Encode(outer) == DerSequence(content)
  {
  }

  /** joseToDer refuses an odd length; else it prints the SEQUENCE of the two unsigned halves, and
      that is strict DER. */
  lemma JoseToDerIsStrict(signature: bytes)
    requires |signature| <= MAX_RAW
    ensures |signature| % 2 == 1 ==> JoseToDer(signature) == Err(InvalidRawLength)
    ensures |signature| % 2 == 0 ==>
      var n := |signature| / 2;
      && JoseToDer(signature)
         == Ok(Encode(Constructed(TAG_SEQUENCE, [IntegerTlv(signature[..n]), IntegerTlv(signature[n..])])))
      && IsStrict(JoseToDer(signature).value)
  {
    if |signature| % 2 == 0 { EvenIsStrict(signature); }
  }

  lemma EvenIsStrict(signature: bytes)
    requires |signature| <= MAX_RAW && |signature| % 2 == 0
    ensures var n := |signature| / 2;
      JoseToDer(signature)
        == Ok(Encode(Constructed(TAG_SEQUENCE, [IntegerTlv(signature[..n]), IntegerTlv(signature[n..])])))
    ensures IsStrict(JoseToDer(signature).value)
  {
    var r, s := signature[..|signature| / 2], signature[|signature| / 2..];
    DerIntegerIsTlv(r);
    DerIntegerIsTlv(s);
    var children := [IntegerTlv(r), IntegerTlv(s)];
    PairForest(IntegerTlv(r), IntegerTlv(s));
    SequenceOf(children, DerInteger(r) + DerInteger(s));
    SingleIsStrict(Constructed(TAG_SEQUENCE, children));
  }

  // ----- Round trip -----

  lemma PadOfContent(v: bytes)
    ensures LeftPadUnsigned(IntegerContent(v), |v|) == Ok(v)
  {
    IntegerContentAccepted(v);
    StripSplits(v);
  }

  ghost predicate PrintsInteger(d: bytes, v: bytes) {
    |v| <= 126 && d == DerInteger(v)
  }

  /** derInteger's output is read back wherever it stands, if its length fits one octet. */
  lemma ReadDerInteger(buf: bytes, before: bytes, d: bytes, after: bytes, v: bytes)
    requires PrintsInteger(d, v) && buf == before + d + after
    ensures ReadInteger(buf, |before|) == Ok((IntegerContent(v), |before| + |d|))
  {
    var c := IntegerContent(v);
    var o := |before|;
    SmallInteger(v);
    assert buf[o] == d[0] && buf[o + 1] == d[1];
    assert buf[o + 2..o + 2 + |c|] == c;
  }

  lemma SequenceHeader(content: bytes)
    requires |content| <= 258
    ensures ContentOffset(DerSequence(content)) == 1 + |EncodeLength(|content|)|
  {
    var n := |content|;
    if n < 0x80 {
      assert EncodeLength(n) == [n];
    } else if n < 0x100 {
      assert MinimalBE(n / 256) == [];
      assert EncodeLength(n) == [0x81, n];
    } else {
      assert MinimalBE(n / 256 / 256) == [] && MinimalBE(n / 256) == [1];
      assert EncodeLength(n) == [0x82, 1, n % 256];
    }
  }

  predicate Survives(signature: bytes)
    requires |signature| <= MAX_RAW
  {
    var der := JoseToDer(signature);
    der.Ok? && DerToJose(der.value, |signature| / 2) == Ok(signature)
  }

  lemma RoundTrip(signature: bytes)
    requires |signature| % 2 == 0 && |signature| <= 252
    ensures Survives(signature)
  {
    var n := |signature| / 2;
    ReadSequence(signature[..n], signature[n..]);
    Halves(signature, n);
  }

  lemma Halves(s: bytes, n: nat)
    requires n <= |s|
    ensures s[..n] + s[n..] == s
  {
  }

  lemma ReadSequence(r: bytes, s: bytes)
    requires |r| == |s| <= 126
    ensures DerToJose(DerSequence(DerInteger(r) + DerInteger(s)), |r|) == Ok(r + s)
  {
    var dr, ds := DerInteger(r), DerInteger(s);
    SmallInteger(r);
    SmallInteger(s);
    SequenceHeader(dr + ds);
    var before := [TAG_SEQUENCE] + EncodeLength(|dr + ds|);
    ReadPair(DerSequence(dr + ds), before, dr, ds, r, s);
  }

  lemma SmallInteger(v: bytes)
    requires |v| <= 126
    ensures DerInteger(v) == [TAG_INTEGER, |IntegerContent(v)|] + IntegerContent(v)
  {
  }

  lemma ReadPair(der: bytes, before: bytes, dr: bytes, ds: bytes, r: bytes, s: bytes)
    requires |r| == |s| && PrintsInteger(dr, r) && PrintsInteger(ds, s)
    requires der == before + (dr + ds) && der != [] && der[0] == 0x30 && ContentOffset(der) == |before|
    ensures DerToJose(der, |r|) == Ok(r + s)
  {
    Regroup(before, dr, ds);
    var rc := ReadPadded(der, before, dr, ds, r);
    var sc := ReadPadded(der, before + dr, ds, [], s);
    Assemble(der, |before|, |before + dr|, |der|, rc, sc, r, s);
  }

  lemma Regroup(a: bytes, b: bytes, c: bytes)
    ensures a + (b + c) == a + b + c == (a + b) + c + []
  {
  }

  lemma ReadPadded(buf: bytes, before: bytes, d: bytes, after: bytes, v: bytes) returns (c: bytes)
    requires PrintsInteger(d, v) && buf == before + d + after
    ensures ReadInteger(buf, |before|) == Ok((c, |before + d|)) && LeftPadUnsigned(c, |v|) == Ok(v)
  {
    ReadDerInteger(buf, before, d, after, v);
    PadOfContent(v);
    c := IntegerContent(v);
  }

  lemma Assemble(der: bytes, at: nat, next: nat, end: nat, rc: bytes, sc: bytes, r: bytes, s: bytes)
    requires der != [] && der[0] == 0x30 && ContentOffset(der) == at
    requires ReadInteger(der, at) == Ok((rc, next)) && ReadInteger(der, next) == Ok((sc, end))
    requires LeftPadUnsigned(rc, |r|) == Ok(r) && LeftPadUnsigned(sc, |r|) == Ok(s)
    ensures DerToJose(der, |r|) == Ok(r + s)
  {
  }

  /** A signature of 2n >= 254 bytes that does not survive: r starts with 0x80 and fills 127
      bytes, so its content of 128 octets needs the length form 0x81 0x80. */
  function WideSignature(n: nat): (sig: bytes)
    requires n >= 127
    ensures |sig| == 2 * n
  {
    Zeros(n - 127) + ([0x80] + Zeros(126)) + Zeros(n)
  }

  /** 0x00 0x80 0x00 ... 0x00: the 128 content octets of r. */
  function WideContent(): bytes {
    [0] + ([0x80] + Zeros(126))
  }

  lemma WideEncoded(n: nat)
    requires 127 <= n && 2 * n <= MAX_RAW
    ensures JoseToDer(WideSignature(n)) == Ok([0x30, 0x81, 134, 0x02, 0x81, 0x80] + WideContent() + [0x02, 1, 0])
  {
    var sig := WideSignature(n);
    var r, s := sig[..n], sig[n..];
    WideParts(n, r, s);
    EncodeSmallLength(134);
    var dr, ds := DerInteger(r), DerInteger(s);
    assert DerSequence(dr + ds) == [0x30, 0x81, 134, 0x02, 0x81, 0x80] + WideContent() + [0x02, 1, 0];
  }

  lemma WideParts(n: nat, r: bytes, s: bytes)
    requires 127 <= n && 2 * n <= MAX_RAW
    requires r == WideSignature(n)[..n] && s == WideSignature(n)[n..]
    ensures DerInteger(r) == [0x02, 0x81, 0x80] + WideContent()
    ensures DerInteger(s) == [0x02, 1, 0]
  {
    var top: bytes := [0x80] + Zeros(126);
    assert r == Zeros(n - 127) + top && s == Zeros(n) + [];
    StripAfterZeros(n - 127, top);
    StripAfterZeros(n, []);
    EncodeSmallLength(128);
  }

  lemma EncodeSmallLength(n: byte)
    requires n >= 0x80
    ensures EncodeLength(n) == [0x81, n]
  {
    assert MinimalBE(n / 256) == [];
  }

  lemma WideMisread(der: bytes)
    requires der == [0x30, 0x81, 134, 0x02, 0x81, 0x80] + WideContent() + [0x02, 1, 0]
    ensures ContentOffset(der) == 3
    ensures ReadInteger(der, 3) == Ok(([0x80] + WideContent(), 134))
  {
    assert der[1] == 0x81 && der[3] == 0x02 && der[4] == 0x81;
    assert der[5..134] == [0x80] + WideContent();
  }

  lemma WideFails(n: nat)
    requires 127 <= n && 2 * n <= MAX_RAW
    ensures !Survives(WideSignature(n))
  {
    WideEncoded(n);
    var der := JoseToDer(WideSignature(n)).value;
    WideMisread(der);
    var misread: bytes := [0x80] + WideContent();
    if n >= 129 {
      assert (Zeros(n - 129) + misread)[n - 129] == 0x80 && WideSignature(n)[n - 129] == 0;
    }
  }

  /** derToJose undoes joseToDer on every raw signature of a given even size exactly when that
      size is at most 252 bytes. */
  lemma RoundTripWidth(w: nat)
    requires w % 2 == 0 && w <= MAX_RAW
    ensures (forall sig: bytes :: |sig| == w ==> Survives(sig)) <==> w <= 252
  {
    if w <= 252 {
      forall sig: bytes | |sig| == w ensures Survives(sig) {
        RoundTrip(sig);
      }
    } else {
      WideFails(w / 2);
    }
  }
}
