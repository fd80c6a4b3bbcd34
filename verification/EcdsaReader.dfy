/** What derToJose (packages/lotl-flattener/src/fetch/xmlSignature.ts) returns for any octets
    whatever, and for every canonical signature: by numbers and places, with its errors. */
module EcdsaReader {
  import opened Bytes
  import opened Results
  import opened DerContent
  import opened DerTlv
  import opened EcdsaTranscode

  // ----- Padding -----

  lemma StripKeepsValue(v: bytes)
    ensures BE(StripZeros(v)) == BE(v)
  {
    StripSplits(v);
    LeadingZeros(|v| - |StripZeros(v)|, StripZeros(v));
  }

  lemma {:induction false} AtLeastLead(s: bytes)
    requires s != [] && s[0] != 0
    ensures BE(s) >= Pow256(|s| - 1)
  {
    if |s| > 1 {
      AtLeastLead(s[..|s| - 1]);
    } else {
      assert s[..0] == [];
    }
  }

  lemma FitsIffSmall(v: bytes, n: nat)
    ensures |StripZeros(v)| <= n <==> BE(v) < Pow256(n)
  {
    var out := StripZeros(v);
    StripKeepsValue(v);
    BEBound(out);
    if |out| <= n {
      PowMonotone(|out|, n);
    } else {
      AtLeastLead(out);
      PowMonotone(n, |out| - 1);
    }
  }

  /** A number is padded to n octets exactly if it is below 256^n, and those octets are its digits. */
  lemma PaddedIs(v: bytes, n: nat)
    ensures LeftPadUnsigned(v, n) == if BE(v) < Pow256(n) then Ok(ToBE(BE(v), n)) else Err(IntegerTooLarge)
  {
    var out := StripZeros(v);
    FitsIffSmall(v, n);
    StripKeepsValue(v);
    if |out| <= n {
      LeadingZeros(n - |out|, out);
      ToBEOfBE(Zeros(n - |out|) + out);
    }
  }

  // ----- Any octets -----

  /** At this place stand the tag 0x02, an octet that says how many follow, and c, which is as
      many of those as there are. */
  predicate IntegerStands(s: bytes, at: nat, c: bytes, next: nat) {
    && at + 1 < |s| && s[at] == 0x02 && next == at + 2 + s[at + 1]
    && c == if next <= |s| then s[at + 2..next] else s[at + 2..]
  }

  /** Two of them, one after the other, behind a SEQUENCE tag and two, three or four octets. */
  ghost predicate PairStands(s: bytes, r: bytes, t: bytes) {
    && s != [] && s[0] == 0x30
    && exists next: nat, end: nat ::
         IntegerStands(s, if |s| > 1 && s[1] == 0x81 then 3 else if |s| > 1 && s[1] == 0x82 then 4 else 2, r, next)
         && IntegerStands(s, next, t, end)
  }

  lemma ReadsStanding(s: bytes, at: nat, c: bytes, next: nat)
    ensures ReadInteger(s, at) == Ok((c, next)) <==> IntegerStands(s, at, c, next)
    ensures ReadInteger(s, at).Err? ==> ReadInteger(s, at).error == InvalidDer
  {
    if at + 1 < |s| {
      var end := at + 2 + s[at + 1];
      assert Subarray(s, at + 2, end) == if end <= |s| then s[at + 2..end] else s[at + 2..];
    }
  }

  /** The two INTEGERs that the reader finds, before it pads them. */
  function ReadBoth(s: bytes): Result<(bytes, bytes), Error> {
    if ByteAt(s, 0) != Some(0x30) then Err(InvalidDer)
    else
      match ReadInteger(s, ContentOffset(s))
      case Err(e) => Err(e)
      case Ok((r, next)) =>
        match ReadInteger(s, next)
        case Err(e) => Err(e)
        case Ok((t, _)) => Ok((r, t))
  }

  lemma BothStand(s: bytes, r: bytes, t: bytes)
    ensures ReadBoth(s) == Ok((r, t)) <==> PairStands(s, r, t)
    ensures ReadBoth(s).Err? ==> ReadBoth(s).error == InvalidDer
  {
    var at := ContentOffset(s);
    forall c: bytes, next: nat ensures ReadInteger(s, at) == Ok((c, next)) <==> IntegerStands(s, at, c, next) {
      ReadsStanding(s, at, c, next);
    }
    if ReadInteger(s, at).Ok? {
      var next := ReadInteger(s, at).value.1;
      forall c: bytes, end: nat ensures ReadInteger(s, next) == Ok((c, end)) <==> IntegerStands(s, next, c, end) {
        ReadsStanding(s, next, c, end);
      }
      ReadsStanding(s, next, [], 0);
    }
    ReadsStanding(s, at, [], 0);
  }

  predicate AreBelow(r: bytes, t: bytes, half: nat) {
    BE(r) < Pow256(half) && BE(t) < Pow256(half)
  }

  lemma JoseOfBoth(s: bytes, half: nat)
    ensures DerToJose(s, half) ==
      if ReadBoth(s).Err? then Err(InvalidDer)
      else if !AreBelow(ReadBoth(s).value.0, ReadBoth(s).value.1, half) then Err(IntegerTooLarge)
      else Ok(ToBE(BE(ReadBoth(s).value.0), half) + ToBE(BE(ReadBoth(s).value.1), half))
  {
    BothStand(s, [], []);
    if ReadBoth(s).Ok? {
      PaddedIs(ReadBoth(s).value.0, half);
      PaddedIs(ReadBoth(s).value.1, half);
    }
  }

  /** Of any octets: the two numbers side by side, each in half octets, if a pair stands there and
      both are below 256^half; too large if one is not; invalid if no pair stands there. */
  lemma ReaderIs(s: bytes, half: nat, r: bytes, t: bytes)
    ensures PairStands(s, r, t) && AreBelow(r, t, half) ==>
      DerToJose(s, half) == Ok(ToBE(BE(r), half) + ToBE(BE(t), half))
    ensures PairStands(s, r, t) && !AreBelow(r, t, half) ==> DerToJose(s, half) == Err(IntegerTooLarge)
    ensures DerToJose(s, half) == Err(InvalidDer) <==> !exists r: bytes, t: bytes :: PairStands(s, r, t)
  {
    JoseOfBoth(s, half);
    forall r: bytes, t: bytes ensures ReadBoth(s) == Ok((r, t)) <==> PairStands(s, r, t) { BothStand(s, r, t); }
  }

  // ----- Canonical signatures -----

  /** The DER of two unsigned numbers. */
  function SignatureTree(r: nat, t: nat): Tlv {
    Constructed(0x30, [Primitive(0x02, EncodeInteger(r)), Primitive(0x02, EncodeInteger(t))])
  }

  /** Every pair of numbers below 256^half, half at most 126, is read from its DER. */
  lemma CanonicalIsRead(r: nat, t: nat, half: nat)
    requires half <= 126 && r < Pow256(half) && t < Pow256(half)
    ensures DerToJose(Encode(SignatureTree(r, t)), half) == Ok(ToBE(r, half) + ToBE(t, half))
  {
    var raw := ToBE(r, half) + ToBE(t, half);
    RawIsPrinted(r, t, half, raw);
    RoundTrip(raw);
  }

  lemma RawIsPrinted(r: nat, t: nat, half: nat, raw: bytes)
    requires half <= 126 && r < Pow256(half) && t < Pow256(half) && raw == ToBE(r, half) + ToBE(t, half)
    ensures |raw| == 2 * half && JoseToDer(raw) == Ok(Encode(SignatureTree(r, t)))
  {
    assert raw[..half] == ToBE(r, half) && raw[half..] == ToBE(t, half);
    NumberTlv(r, half);
    NumberTlv(t, half);
    JoseToDerIsStrict(raw);
  }

  lemma NumberTlv(r: nat, half: nat)
    requires r < Pow256(half)
    ensures IntegerTlv(ToBE(r, half)) == Primitive(0x02, EncodeInteger(r))
  {
    BEOfToBE(r, half);
  }
}
