/** Which raw signatures survive joseToDer and derToJose
    (packages/lotl-flattener/src/fetch/xmlSignature.ts): the exact condition, one by one. */
module EcdsaSurvival {
  import opened Bytes
  import opened Results
  import opened DerContent
  import opened DerTlv
  import opened EcdsaTranscode

  /** 0x82 0x00 0x82 ... 0x82. As an INTEGER it takes 130 content octets, so its length is
      written 0x81 0x82. The reader takes 0x81 for the length and 0x82 for the first octet, and
      finds this same number in the 129 octets from there. */
  function Alternating(): (v: bytes)
    ensures |v| == 129
  {
    seq(129, i => if i % 2 == 0 then 0x82 else 0x00)
  }

  /** The INTEGER content of v has a length that fits one octet. */
  predicate IsShort(v: bytes) {
    |IntegerContent(v)| <= 127
  }

  // ----- Reading an INTEGER back -----

  /** At this place the reader finds an INTEGER with the value of v. */
  predicate ReadsAs(buf: bytes, at: nat, v: bytes) {
    var r := ReadInteger(buf, at);
    r.Ok? && StripZeros(r.value.0) == StripZeros(v)
  }

  predicate ReadsPair(buf: bytes, at: nat, r: bytes, s: bytes) {
    ReadsAs(buf, at, r) && ReadsAs(buf, ReadInteger(buf, at).value.1, s)
  }

  lemma PadGivesBack(x: bytes, v: bytes)
    ensures LeftPadUnsigned(x, |v|) == Ok(v) <==> StripZeros(x) == StripZeros(v)
  {
    var out := StripZeros(x);
    if |out| <= |v| { StripAfterZeros(|v| - |out|, out); }
    StripSplits(v);
  }

  /** derToJose gives a signature back exactly when it reads the values of both halves. */
  lemma JoseGivesBack(der: bytes, r: bytes, s: bytes)
    requires |r| == |s| && der != [] && der[0] == 0x30
    ensures DerToJose(der, |r|) == Ok(r + s) <==> ReadsPair(der, ContentOffset(der), r, s)
  {
    var a := ReadInteger(der, ContentOffset(der));
    if a.Ok? {
      var b := ReadInteger(der, a.value.1);
      PadGivesBack(a.value.0, r);
      if b.Ok? {
        PadGivesBack(b.value.0, s);
        var x, y := LeftPadUnsigned(a.value.0, |r|), LeftPadUnsigned(b.value.0, |r|);
        if x.Ok? && y.Ok? { SameHalves(x.value, y.value, r, s); }
      }
    }
  }

  lemma SameHalves(x: bytes, y: bytes, r: bytes, s: bytes)
    requires |x| == |r|
    ensures x + y == r + s <==> x == r && y == s
  {
    assert (x + y)[..|r|] == x && (r + s)[..|r|] == r && (x + y)[|r|..] == y && (r + s)[|r|..] == s;
  }

  /** The reader copies as many octets as the one after the tag says. */
  lemma ReadsCounted(buf: bytes, before: bytes, d: bytes, after: bytes, n: nat)
    requires buf == before + d + after && |d| >= 2 + n && d[0] == 0x02 && d[1] == n
    ensures ReadInteger(buf, |before|) == Ok((d[2..2 + n], |before| + 2 + n))
  {
    var o := |before|;
    assert buf[o] == d[0] && buf[o + 1] == d[1];
    assert buf[o + 2..o + 2 + n] == d[2..2 + n];
  }

  lemma ShortIsRead(buf: bytes, before: bytes, v: bytes, after: bytes)
    requires |v| <= MAX_RAW && IsShort(v) && buf == before + DerInteger(v) + after
    ensures ReadInteger(buf, |before|) == Ok((IntegerContent(v), |before + DerInteger(v)|))
    ensures ReadsAs(buf, |before|, v)
  {
    var c := IntegerContent(v);
    assert DerInteger(v) == [0x02, |c|] + c;
    ReadsCounted(buf, before, DerInteger(v), after, |c|);
    assert DerInteger(v)[2..2 + |c|] == c;
    IntegerContentAccepted(v);
  }

  /** What the reader takes for a content of 128 to 256 octets. */
  function Misread(c: bytes): bytes
    requires 128 <= |c| <= 256
  {
    (if |c| < 256 then [|c|] else [1, 0]) + c[..128]
  }

  /** A DER INTEGER with this length octet and these octets behind it, as far as the reader goes. */
  predicate Begins(d: bytes, m: bytes) {
    |d| >= 2 + |m| && d[0] == 0x02 && d[1] as int == |m| && d[2..2 + |m|] == m
  }

  lemma OneOctetLength(d: bytes, c: bytes)
    requires 128 <= |c| < 256 && d == [0x02, 0x81, |c|] + c
    ensures Begins(d, [|c|] + c[..128])
  {
  }

  lemma TwoOctetLength(d: bytes, c: bytes)
    requires |c| == 256 && d == [0x02, 0x82, 1, 0] + c
    ensures Begins(d, [1, 0] + c[..128])
  {
  }

  lemma LengthOf256()
    ensures EncodeLength(256) == [0x82, 1, 0]
  {
    assert MinimalBE(1) == [1] by { assert MinimalBE(0) == []; }
  }

  lemma LongBegins(v: bytes)
    requires |v| <= MAX_RAW && 128 <= |IntegerContent(v)| <= 256
    ensures Begins(DerInteger(v), Misread(IntegerContent(v)))
  {
    var c := IntegerContent(v);
    if |c| < 256 {
      EncodeSmallLength(|c|);
      OneOctetLength(DerInteger(v), c);
    } else {
      LengthOf256();
      TwoOctetLength(DerInteger(v), c);
    }
  }

  lemma LongIsMisread(buf: bytes, before: bytes, v: bytes, after: bytes)
    requires |v| <= MAX_RAW && 128 <= |IntegerContent(v)| <= 256 && buf == before + DerInteger(v) + after
    ensures var m := Misread(IntegerContent(v));
      ReadInteger(buf, |before|) == Ok((m, |before| + 2 + |m|))
  {
    LongBegins(v);
    ReadsCounted(buf, before, DerInteger(v), after, |Misread(IntegerContent(v))|);
  }

  lemma {:induction false} AlternatesFrom(v: bytes, i: nat)
    requires |v| == 129 && v[0] == 0x82 && v[1] == 0 && i < 129
    requires forall k :: 0 <= k < 127 ==> v[k + 2] == v[k]
    ensures v[i] == if i % 2 == 0 then 0x82 else 0x00
  {
    if i >= 2 {
      AlternatesFrom(v, i - 2);
      assert v[(i - 2) + 2] == v[i - 2];
    }
  }

  /** A misread content denotes the same number only in the one pattern. */
  lemma MisreadIsSame(v: bytes)
    requires 128 <= |IntegerContent(v)| <= 256
    ensures StripZeros(Misread(IntegerContent(v))) == StripZeros(v) <==> StripZeros(v) == Alternating()
  {
    var c, sv := IntegerContent(v), StripZeros(v);
    var m := Misread(c);
    assert StripZeros(m) == m;
    if m == sv {
      assert c == [0] + sv && |c| == 130;
      OwnPattern(sv);
      assert sv == Alternating();
    }
    if sv == Alternating() {
      assert c == [0] + sv;
      assert m == [0x82] + c[..128] == sv;
    }
  }

  lemma OwnPattern(sv: bytes)
    requires |sv| == 129 && sv == [130] + ([0] + sv)[..128]
    ensures forall i :: 0 <= i < 129 ==> sv[i] == Alternating()[i]
  {
    var c: bytes := [0] + sv;
    assert sv[1] == c[0];
    forall k | 0 <= k < 127 ensures sv[k + 2] == sv[k] { assert sv[k + 2] == c[k + 1]; }
    forall i | 0 <= i < 129 ensures sv[i] == Alternating()[i] { AlternatesFrom(sv, i); }
  }

  // ----- Both INTEGERs in their SEQUENCE -----

  /** The second INTEGER, with nothing read after it. */
  lemma LastReads(buf: bytes, before: bytes, v: bytes)
    requires |v| <= MAX_RAW && |IntegerContent(v)| <= 256 && buf == before + DerInteger(v)
    ensures ReadsAs(buf, |before|, v) <==> IsShort(v) || StripZeros(v) == Alternating()
  {
    assert buf == before + DerInteger(v) + [];
    if IsShort(v) {
      ShortIsRead(buf, before, v, []);
    } else {
      LongIsMisread(buf, before, v, []);
      MisreadIsSame(v);
    }
  }

  lemma PatternOctets(r: bytes)
    requires |r| <= MAX_RAW && StripZeros(r) == Alternating()
    ensures |IntegerContent(r)| == 130 && |DerInteger(r)| == 133 && DerInteger(r)[131] == 0
  {
    var c := IntegerContent(r);
    assert c == [0] + Alternating();
    EncodeSmallLength(130);
    assert DerInteger(r) == [0x02, 0x81, 130] + c;
    assert DerInteger(r)[131] == c[128];
  }

  lemma NoIntegerAt(buf: bytes, before: bytes, d: bytes, after: bytes, k: nat)
    requires buf == before + d + after && k < |d| && d[k] != 0x02
    ensures ReadInteger(buf, |before| + k).Err?
  {
    assert buf[|before| + k] == d[k];
  }

  lemma NothingBehindPattern(buf: bytes, before: bytes, r: bytes, after: bytes)
    requires |r| <= MAX_RAW && StripZeros(r) == Alternating() && buf == before + DerInteger(r) + after
    ensures ReadInteger(buf, |before| + 131).Err?
  {
    PatternOctets(r);
    NoIntegerAt(buf, before, DerInteger(r), after, 131);
  }

  lemma NotAPair(buf: bytes, at: nat, r: bytes, s: bytes, m: bytes, next: nat)
    requires ReadInteger(buf, at) == Ok((m, next))
    requires StripZeros(m) == StripZeros(r) ==> ReadInteger(buf, next).Err?
    ensures !ReadsPair(buf, at, r, s)
  {
  }

  lemma PatternMisread(r: bytes)
    requires |r| <= MAX_RAW && 128 <= |IntegerContent(r)| <= 256
    requires StripZeros(Misread(IntegerContent(r))) == StripZeros(r)
    ensures StripZeros(r) == Alternating() && |Misread(IntegerContent(r))| == 129
  {
    MisreadIsSame(r);
    PatternOctets(r);
  }

  /** A long first INTEGER loses the place where the second one begins. */
  lemma LongFirstFails(buf: bytes, before: bytes, r: bytes, s: bytes, after: bytes)
    requires |r| <= MAX_RAW && 128 <= |IntegerContent(r)| <= 256 && buf == before + DerInteger(r) + after
    ensures !ReadsPair(buf, |before|, r, s)
  {
    var m := Misread(IntegerContent(r));
    LongIsMisread(buf, before, r, after);
    if StripZeros(m) == StripZeros(r) {
      PatternMisread(r);
      NothingBehindPattern(buf, before, r, after);
    }
    NotAPair(buf, |before|, r, s, m, |before| + 2 + |m|);
  }

  lemma PairReads(buf: bytes, before: bytes, r: bytes, s: bytes)
    requires |r| <= MAX_RAW && |s| <= MAX_RAW && |IntegerContent(r)| <= 256 && |IntegerContent(s)| <= 256
    requires buf == before + DerInteger(r) + DerInteger(s)
    ensures ReadsPair(buf, |before|, r, s) <==> IsShort(r) && (IsShort(s) || StripZeros(s) == Alternating())
  {
    if IsShort(r) {
      ShortIsRead(buf, before, r, DerInteger(s));
      LastReads(buf, before + DerInteger(r), s);
    } else {
      LongFirstFails(buf, before, r, s, DerInteger(s));
    }
  }

  /** The reader takes a length from one octet, so it never finds a longer number. */
  lemma ReadsAtMost(buf: bytes, at: nat, v: bytes)
    requires ReadsAs(buf, at, v)
    ensures |IntegerContent(v)| <= 256
  {
  }

  lemma HeaderOfSequence(content: bytes)
    requires |content| <= 520
    ensures ContentOffset(DerSequence(content)) == 1 + |EncodeLength(|content|)|
  {
    var n := |content|;
    if n < 0x80 {
      assert EncodeLength(n) == [n];
    } else if n < 0x100 {
      EncodeSmallLength(n);
    } else {
      assert MinimalBE(n / 256 / 256) == [] && MinimalBE(n / 256) == [n / 256];
      assert EncodeLength(n) == [0x82, n / 256, n % 256];
    }
  }

  lemma SmallDerInteger(v: bytes)
    requires |v| <= MAX_RAW && |IntegerContent(v)| <= 256
    ensures |DerInteger(v)| <= 260
  {
    var n := |IntegerContent(v)|;
    MinimalSize(n, 2);
    assert Pow256(2) == 0x1_0000;
  }

  lemma SurvivesPair(r: bytes, s: bytes)
    requires |r| == |s| <= MAX_RAW / 2
    ensures Survives(r + s) <==> IsShort(r) && (IsShort(s) || StripZeros(s) == Alternating())
  {
    var signature, content := r + s, DerInteger(r) + DerInteger(s);
    assert signature[..|r|] == r && signature[|r|..] == s;
    var der := DerSequence(content);
    var before := [TAG_SEQUENCE] + EncodeLength(|content|);
    JoseGivesBack(der, r, s);
    if |IntegerContent(r)| <= 256 && |IntegerContent(s)| <= 256 {
      SmallDerInteger(r);
      SmallDerInteger(s);
      HeaderOfSequence(content);
      Regroup(before, DerInteger(r), DerInteger(s));
      PairReads(der, before, r, s);
    } else if ReadsPair(der, ContentOffset(der), r, s) {
      ReadsAtMost(der, ContentOffset(der), r);
      ReadsAtMost(der, ReadInteger(der, ContentOffset(der)).value.1, s);
    }
  }

  /** A signature survives exactly when it has two halves, the content of r fits a one-octet
      length, and that of s does too or s is the alternating pattern. */
  lemma SurvivesIff(signature: bytes)
    requires |signature| <= MAX_RAW
    ensures Survives(signature) <==>
      && |signature| % 2 == 0
      && var r, s := signature[..|signature| / 2], signature[|signature| / 2..];
         IsShort(r) && (IsShort(s) || StripZeros(s) == Alternating())
  {
    if |signature| % 2 == 0 {
      var r, s := signature[..|signature| / 2], signature[|signature| / 2..];
      Halves(signature, |r|);
      SurvivesPair(r, s);
    }
  }

  /** A signature of any width survives when its numbers are small. */
  lemma WideZerosSurvive()
    ensures Survives(Zeros(254))
  {
    var z: bytes := Zeros(127);
    assert Zeros(254) == z + z && z == z + [];
    StripAfterZeros(127, []);
    SurvivesPair(z, z);
  }

  /** And one of 258 octets does although its second INTEGER has a long-form length. */
  lemma PatternSurvives()
    ensures Survives(Zeros(129) + Alternating()) && !IsShort(Alternating())
  {
    var z: bytes := Zeros(129);
    assert z == z + [];
    StripAfterZeros(129, []);
    assert StripZeros(Alternating()) == Alternating();
    SurvivesPair(z, Alternating());
  }
}
