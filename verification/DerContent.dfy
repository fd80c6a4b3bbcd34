/** Content octets of the universal primitive types that the strict-DER guard inspects:
    the checks of packages/sdk/src/cert/der-strict.ts, and the encoders that section 8 of
    X.690 prescribes. A check accepts exactly what its encoder writes. */
module DerContent {
  import opened Arithmetic
  import opened Bytes
  import opened Results

  // ----- INTEGER (sections 8.3.2 and 8.3.3 of X.690) -----

  predicate CheckInteger(c: bytes) {
    if |c| == 0 then false
    else if |c| == 1 then true
    else if c[0] == 0x00 && c[1] < 0x80 then false
    else if c[0] == 0xff && c[1] >= 0x80 then false
    else true
  }

  /** The two's-complement value of the content octets. */
  function IntegerValue(c: bytes): int
    requires c != []
  {
    if |c| == 1 then (if c[0] < 128 then c[0] else c[0] - 256)
    else IntegerValue(c[..|c| - 1]) * 256 + c[|c| - 1]
  }

  /** The shortest two's-complement encoding of v. */
  function EncodeInteger(v: int): (c: bytes)
    ensures c != []
    decreases if v < 0 then -v else v
  {
    if -128 <= v < 128 then [v % 256] else EncodeInteger(v / 256) + [v % 256]
  }

  /** Every integer has an accepted content, and reading it gives the integer back. */
  lemma {:induction false} IntegerRoundTrip(v: int)
    ensures CheckInteger(EncodeInteger(v))
    ensures IntegerValue(EncodeInteger(v)) == v
    decreases if v < 0 then -v else v
  {
    if !(-128 <= v < 128) {
      var c := EncodeInteger(v / 256);
      IntegerRoundTrip(v / 256);
      assert (c + [v % 256])[..|c|] == c;
    }
  }

  lemma {:induction false} MinimalMeansWide(c: bytes)
    requires |c| >= 2 && CheckInteger(c)
    ensures !(-128 <= IntegerValue(c) < 128)
  {
    var init := c[..|c| - 1];
    if |c| > 2 {
      MinimalMeansWide(init);
    }
  }

  /** An accepted content is the encoding of its own value, so no two accepted contents
      share a value. */
  lemma {:induction false} IntegerCanonical(c: bytes)
    requires CheckInteger(c)
    ensures EncodeInteger(IntegerValue(c)) == c
  {
    if |c| >= 2 {
      MinimalMeansWide(c);
      var init, last := c[..|c| - 1], c[|c| - 1];
      assert CheckInteger(init);
      IntegerCanonical(init);
      EncodeIntegerOf(IntegerValue(c), IntegerValue(init), last);
      assert c == init + [last];
    }
  }

  lemma EncodeIntegerOf(n: int, v: int, low: byte)
    requires n == v * 256 + low && !(-128 <= n < 128)
    ensures EncodeInteger(n) == EncodeInteger(v) + [low]
  {
    assert n / 256 == v && n % 256 == low;
  }

  ghost predicate IsIntegerContent(c: bytes) {
    exists v :: EncodeInteger(v) == c
  }

  lemma IntegerImage(c: bytes)
    ensures CheckInteger(c) <==> IsIntegerContent(c)
  {
    if CheckInteger(c) {
      IntegerCanonical(c);
    }
    forall v | EncodeInteger(v) == c ensures CheckInteger(c) {
      IntegerRoundTrip(v);
    }
  }

  // ----- OBJECT IDENTIFIER (section 8.19.2 of X.690) -----

  /** The index of the first octet without the continuation bit, or |c|. */
  function SubIdEnd(c: bytes): (n: nat)
    ensures n <= |c|
    ensures forall i :: 0 <= i < n ==> c[i] >= 0x80
    ensures n < |c| ==> c[n] < 0x80
  {
    if c == [] || c[0] < 0x80 then 0 else 1 + SubIdEnd(c[1..])
  }

  /** Zero or more complete subidentifiers, none starting with 0x80. */
  predicate SubIdsOk(c: bytes)
    decreases |c|
  {
    c == [] || (c[0] != 0x80 && SubIdEnd(c) < |c| && SubIdsOk(c[SubIdEnd(c) + 1..]))
  }

  predicate OidOk(c: bytes) {
    |c| > 0 && SubIdsOk(c)
  }

  /** The inner loop of checkOid: skip the octets with the continuation bit. */
  method ScanSubId(buf: bytes, start: nat, end: nat) returns (i: nat)
    requires start < end <= |buf|
    ensures start <= i <= end
    ensures forall k :: start <= k < i ==> buf[k] >= 0x80
    ensures i < end ==> buf[i] < 0x80
  {
    i := start;
    while buf[i] >= 0x80
      invariant start <= i < end
      invariant forall k :: start <= k < i ==> buf[k] >= 0x80
      decreases end - i
    {
      i := i + 1;
      if i >= end { return; }
    }
  }

  predicate SubIdsOkIn(buf: bytes, start: nat, end: nat)
    requires start <= end <= |buf|
  {
    SubIdsOk(buf[start..end])
  }

  /** The outer loop of checkOid: one subidentifier after the other. */
  method CheckSubIds(buf: bytes, start: nat, end: nat) returns (ok: bool)
    requires start <= end <= |buf|
    ensures ok == SubIdsOkIn(buf, start, end)
  {
    var i := start;
    while i < end
      invariant start <= i <= end
      invariant SubIdsOkIn(buf, start, end) == SubIdsOkIn(buf, i, end)
    {
      if buf[i] == 0x80 { SubIdLeadingZero(buf, i, end); return false; }
      var last := ScanSubId(buf, i, end);
      if last >= end { SubIdUnfinished(buf, i, end); return false; }
      SubIdStep(buf, i, last, end);
      i := last + 1;   // consume the terminating byte
    }
    SubIdsNone(buf, end);
    return i == end;
  }

  /** checkOid over the content buf[start..start + len]. */
  method CheckOid(buf: bytes, start: nat, len: nat) returns (ok: bool)
    requires start + len <= |buf|
    ensures ok == OidOk(buf[start..start + len])
  {
    if len == 0 { return false; }
    ok := CheckSubIds(buf, start, start + len);
  }

  lemma SubIdsNone(buf: bytes, end: nat)
    requires end <= |buf|
    ensures SubIdsOkIn(buf, end, end)
  {
  }

  lemma SubIdEndIs(c: bytes, n: nat)
    requires n <= |c| && (n < |c| ==> c[n] < 0x80) && forall k :: 0 <= k < n ==> c[k] >= 0x80
    ensures SubIdEnd(c) == n
  {
  }

  lemma SubIdLeadingZero(buf: bytes, start: nat, end: nat)
    requires start < end <= |buf| && buf[start] == 0x80
    ensures !SubIdsOkIn(buf, start, end)
  {
  }

  lemma SubIdUnfinished(buf: bytes, start: nat, end: nat)
    requires start < end <= |buf| && forall k :: start <= k < end ==> buf[k] >= 0x80
    ensures !SubIdsOkIn(buf, start, end)
  {
    SubIdEndIs(buf[start..end], end - start);
  }

  lemma SubIdStep(buf: bytes, start: nat, last: nat, end: nat)
    requires start <= last < end <= |buf| && buf[last] < 0x80 && buf[start] != 0x80
    requires forall k :: start <= k < last ==> buf[k] >= 0x80
    ensures SubIdsOkIn(buf, start, end) == SubIdsOkIn(buf, last + 1, end)
  {
    var c := buf[start..end];
    SubIdEndIs(c, last - start);
    assert c[last - start + 1..] == buf[last + 1..end];
  }

  function Base128High(m: nat): bytes {
    if m == 0 then [] else Base128High(m / 128) + [0x80 + m % 128]
  }

  /** A subidentifier in as few base-128 octets as possible, all but the last with bit 8 set. */
  function EncodeSubId(n: nat): bytes {
    Base128High(n / 128) + [n % 128]
  }

  function EncodeOid(subs: seq<nat>): bytes {
    if subs == [] then [] else EncodeSubId(subs[0]) + EncodeOid(subs[1..])
  }

  /** b without its continuation bit. */
  function Low7(b: byte): nat {
    if b >= 0x80 then b - 0x80 else b
  }

  function Base128Value(s: bytes): nat {
    if s == [] then 0 else Base128Value(s[..|s| - 1]) * 128 + Low7(s[|s| - 1])
  }

  function DecodeOid(c: bytes): (subs: seq<nat>)
    requires SubIdsOk(c)
    decreases |c|
  {
    if c == [] then []
    else var n := SubIdEnd(c) + 1; [Base128Value(c[..n])] + DecodeOid(c[n..])
  }

  /** Octets that all announce a continuation, without a leading zero pad. */
  predicate HighOctets(s: bytes) {
    (s != [] ==> s[0] != 0x80) && forall i :: 0 <= i < |s| ==> s[i] >= 0x80
  }

  lemma {:induction false} HighIsHigh(m: nat)
    ensures HighOctets(Base128High(m))
    ensures m > 0 ==> Base128High(m) != []
  {
    if m > 0 { HighIsHigh(m / 128); }
  }

  lemma {:induction false} HighOfValue(s: bytes)
    requires HighOctets(s)
    ensures Base128High(Base128Value(s)) == s
    ensures s != [] ==> Base128Value(s) > 0
  {
    if s != [] {
      var init, last := s[..|s| - 1], s[|s| - 1];
      assert HighOctets(init) && last >= 0x80;
      HighOfValue(init);
      assert init == [] ==> s[0] == last;
      assert s == init + [last];
      Base128Snoc(init, last);
      Base128HighOf(Base128Value(s), Base128Value(init), last - 0x80);
    }
  }

  lemma {:induction false} ValueOfHigh(m: nat)
    ensures Base128Value(Base128High(m)) == m
  {
    if m > 0 {
      ValueOfHigh(m / 128);
      Base128Snoc(Base128High(m / 128), 0x80 + m % 128);
    }
  }

  predicate ReencodesTo(subs: seq<nat>, c: bytes) {
    EncodeOid(subs) == c
  }

  /** An accepted content is re-encoded from its subidentifiers octet for octet. */
  lemma {:induction false} OidCanonical(c: bytes)
    requires SubIdsOk(c)
    ensures ReencodesTo(DecodeOid(c), c)
    decreases |c|
  {
    if c != [] {
      var n := SubIdEnd(c) + 1;
      FirstSubId(c, n);
      OidCanonical(c[n..]);
      RejoinOid(c, n, c[n..]);
    }
  }

  lemma RejoinOid(c: bytes, n: nat, rest: bytes)
    requires SubIdsOk(c) && c != [] && n == SubIdEnd(c) + 1 && rest == c[n..]
    requires SubIdsOk(rest) && ReencodesTo(DecodeOid(rest), rest)
    requires EncodeSubId(Base128Value(c[..n])) == c[..n]
    ensures ReencodesTo(DecodeOid(c), c)
  {
    DecodeOidStep(c, n, rest);
    EncodeOidCons(Base128Value(c[..n]), DecodeOid(rest));
    JoinAt(c, n);
  }

  lemma JoinAt(c: bytes, n: nat)
    requires n <= |c|
    ensures c == c[..n] + c[n..]
  {
  }

  lemma DecodeOidStep(c: bytes, n: nat, rest: bytes)
    requires SubIdsOk(c) && c != [] && n == SubIdEnd(c) + 1 && rest == c[n..]
    ensures SubIdsOk(rest) && DecodeOid(c) == [Base128Value(c[..n])] + DecodeOid(rest)
  {
  }

  lemma EncodeOidCons(n: nat, subs: seq<nat>)
    ensures EncodeOid([n] + subs) == EncodeSubId(n) + EncodeOid(subs)
  {
    assert ([n] + subs)[1..] == subs;
  }

  lemma FirstSubId(c: bytes, n: nat)
    requires c != [] && c[0] != 0x80 && n == SubIdEnd(c) + 1 <= |c|
    ensures EncodeSubId(Base128Value(c[..n])) == c[..n]
  {
    assert c[..n][..n - 1] == c[..n - 1] && HighOctets(c[..n - 1]);
    SubIdCanonical(c[..n]);
  }

  lemma SubIdCanonical(s: bytes)
    requires s != [] && s[|s| - 1] < 0x80 && HighOctets(s[..|s| - 1])
    ensures EncodeSubId(Base128Value(s)) == s
  {
    var init, last := s[..|s| - 1], s[|s| - 1];
    HighOfValue(init);
    assert s == init + [last];
    Base128Snoc(init, last);
    EncodeSubIdOf(Base128Value(s), Base128Value(init), last);
  }

  lemma EncodeSubIdOf(n: nat, v: nat, low: byte)
    requires low < 0x80 && n == v * 128 + low
    ensures EncodeSubId(n) == Base128High(v) + [low]
  {
    DivMod128(v, low);
  }

  lemma Base128HighOf(n: nat, v: nat, low: nat)
    requires low < 0x80 && n == v * 128 + low && n > 0
    ensures Base128High(n) == Base128High(v) + [0x80 + low]
  {
    DivMod128(v, low);
  }

  lemma DivMod128(v: nat, low: nat)
    requires low < 128
    ensures (v * 128 + low) / 128 == v && (v * 128 + low) % 128 == low
  {
  }

  lemma {:induction false} OidRoundTrip(subs: seq<nat>)
    ensures SubIdsOk(EncodeOid(subs))
    ensures DecodeOid(EncodeOid(subs)) == subs
  {
    if subs != [] {
      var s, rest := EncodeSubId(subs[0]), EncodeOid(subs[1..]);
      OidRoundTrip(subs[1..]);
      SubIdThen(subs[0], rest);
      assert (s + rest)[..|s|] == s && (s + rest)[|s|..] == rest;
      assert subs == [subs[0]] + subs[1..];
    }
  }

  lemma Base128Snoc(s: bytes, b: byte)
    ensures Base128Value(s + [b]) == Base128Value(s) * 128 + Low7(b)
  {
    assert (s + [b])[..|s|] == s;
  }

  lemma SubIdThen(n: nat, rest: bytes)
    ensures var c := EncodeSubId(n) + rest;
      c[0] != 0x80 && SubIdEnd(c) == |EncodeSubId(n)| - 1
    ensures Base128Value(EncodeSubId(n)) == n
  {
    var h := Base128High(n / 128);
    HighIsHigh(n / 128);
    SubIdHead(h, n % 128, rest);
    ValueOfHigh(n / 128);
    Base128Snoc(h, n % 128);
  }

  lemma SubIdHead(h: bytes, last: byte, rest: bytes)
    requires last < 0x80 && HighOctets(h)
    ensures var c := (h + [last]) + rest;
      c[0] != 0x80 && SubIdEnd(c) == |h|
  {
    var c := (h + [last]) + rest;
    assert forall k :: 0 <= k < |h| ==> c[k] == h[k];
    assert c[|h|] == last;
    SubIdEndIs(c, |h|);
  }

  ghost predicate IsOidContent(c: bytes) {
    exists subs :: subs != [] && EncodeOid(subs) == c
  }

  lemma OidImage(c: bytes)
    ensures OidOk(c) <==> IsOidContent(c)
  {
    if OidOk(c) {
      OidCanonical(c);
      assert DecodeOid(c) != [];
    }
    forall subs | subs != [] && EncodeOid(subs) == c ensures OidOk(c) {
      OidRoundTrip(subs);
    }
  }

  // ----- BIT STRING (sections 8.6.2 and 11.2.1 of X.690) -----

  predicate CheckBitString(c: bytes) {
    if |c| == 0 then false
    else if c[0] > 7 then false
    else if c[0] > 0 && |c| > 1 then c[|c| - 1] % Pow2(c[0]) == 0   // the bits under the mask
    else true
  }

  /** Bit j of b, bit 0 being the least significant. */
  predicate Bit(b: nat, j: nat) {
    (b / Pow2(j)) % 2 == 1
  }

  ghost predicate LowBitsClear(b: nat, n: nat) {
    forall j: nat :: j < n ==> !Bit(b, j)
  }

  /** An unused-bit count of at most 7, which is 0 when no bits follow, and every unused bit
      of the last octet is zero. */
  ghost predicate BitStringCanonical(c: bytes) {
    && |c| >= 1
    && c[0] <= 7
    && (|c| == 1 ==> c[0] == 0)
    && (|c| > 1 ==> LowBitsClear(c[|c| - 1], c[0]))
  }

  lemma {:induction false} LowBitsZero(b: nat, n: nat)
    ensures b % Pow2(n) == 0 <==> LowBitsClear(b, n)
  {
    if n > 0 {
      LowBitsZero(b / 2, n - 1);
      ModTwice(b, Pow2(n - 1));
      LowBitsStep(b, n);
    }
  }

  lemma LowBitsStep(b: nat, n: nat)
    requires n > 0
    ensures LowBitsClear(b, n) <==> b % 2 == 0 && LowBitsClear(b / 2, n - 1)
  {
    assert Bit(b, 0) == (b % 2 == 1);
    forall j: nat ensures Bit(b, j + 1) == Bit(b / 2, j) {
      DivDiv(b, 2, Pow2(j));
    }
    if LowBitsClear(b, n) {
      forall j: nat | j < n - 1 ensures !Bit(b / 2, j) {
        assert !Bit(b, j + 1);
      }
    }
    if b % 2 == 0 && LowBitsClear(b / 2, n - 1) {
      forall j: nat | j < n ensures !Bit(b, j) {
        if j > 0 { assert Bit(b, (j - 1) + 1) == Bit(b / 2, j - 1); }
      }
    }
  }

  /** The check accepts the canonical contents and, besides, the seven contents that announce
      unused bits in an empty bit string. */
  lemma BitStringRule(c: bytes)
    ensures CheckBitString(c) <==> BitStringCanonical(c) || (|c| == 1 && 1 <= c[0] <= 7)
  {
    if |c| > 1 && c[0] <= 7 {
      LowBitsZero(c[|c| - 1], c[0]);
      assert Pow2(0) == 1;
    }
  }

  lemma EmptyBitStringWithUnusedBits()
    ensures CheckBitString([5]) && !BitStringCanonical([5])
  {
  }

  // ----- BOOLEAN and NULL (sections 11.1 and 8.8.2 of X.690) -----

  predicate CheckBoolean(c: bytes) {
    if |c| != 1 then false else c[0] == 0x00 || c[0] == 0xff
  }

  predicate CheckNull(c: bytes) {
    |c| == 0
  }

  function EncodeBoolean(b: bool): bytes {
    if b then [0xff] else [0x00]
  }

  // ----- The branch-only checks, at their place in the buffer -----

  function CheckIntegerAt(buf: bytes, start: nat, len: nat): (ok: bool)
    requires start + len <= |buf|
    ensures ok == CheckInteger(buf[start..start + len])
  {
    if len == 0 then false
    else if len == 1 then true
    else if buf[start] == 0x00 && buf[start + 1] < 0x80 then false
    else if buf[start] == 0xff && buf[start + 1] >= 0x80 then false
    else true
  }

  function CheckBooleanAt(buf: bytes, start: nat, len: nat): (ok: bool)
    requires start + len <= |buf|
    ensures ok == CheckBoolean(buf[start..start + len])
  {
    if len != 1 then false else buf[start] == 0x00 || buf[start] == 0xff
  }

  function CheckBitStringAt(buf: bytes, start: nat, len: nat): (ok: bool)
    requires start + len <= |buf|
    ensures ok == CheckBitString(buf[start..start + len])
  {
    if len == 0 then false
    else if buf[start] > 7 then false
    else if buf[start] > 0 && len > 1 then buf[start + len - 1] % Pow2(buf[start]) == 0
    else true
  }

  function CheckNullAt(buf: bytes, start: nat, len: nat): (ok: bool)
    requires start + len <= |buf|
    ensures ok == CheckNull(buf[start..start + len])
  {
    len == 0
  }

  // ----- All of them, by tag -----

  const TAG_BOOLEAN: byte := 0x01
  const TAG_INTEGER: byte := 0x02
  const TAG_BIT_STRING: byte := 0x03
  const TAG_NULL: byte := 0x05
  const TAG_OID: byte := 0x06
  const TAG_SEQUENCE: byte := 0x30
  const TAG_SET: byte := 0x31

  datatype Reason =
    | IndefiniteLength
    | NonMinimalLength
    | NonCanonicalInteger
    | NonCanonicalSet
    | NonCanonicalBoolean
    | NonCanonicalBitString
    | NonCanonicalNull
    | NonCanonicalOid
    | Truncated

  /** The per-tag switch of walk. All five tags are of universal class. */
  function ContentViolation(tag: byte, c: bytes): Option<Reason> {
    if tag == TAG_INTEGER then (if CheckInteger(c) then None else Some(NonCanonicalInteger))
    else if tag == TAG_BOOLEAN then (if CheckBoolean(c) then None else Some(NonCanonicalBoolean))
    else if tag == TAG_BIT_STRING then (if CheckBitString(c) then None else Some(NonCanonicalBitString))
    else if tag == TAG_NULL then (if CheckNull(c) then None else Some(NonCanonicalNull))
    else if tag == TAG_OID then (if OidOk(c) then None else Some(NonCanonicalOid))
    else None
  }

  /** What the encoders can write as the content of a primitive with this tag; tags outside
      the five carry any content. The last line of the BIT STRING case is the deviation
      stated by BitStringRule. */
  ghost predicate Encodable(tag: byte, c: bytes) {
    && (tag == TAG_INTEGER ==> IsIntegerContent(c))
    && (tag == TAG_BOOLEAN ==> exists b :: EncodeBoolean(b) == c)
    && (tag == TAG_BIT_STRING ==> BitStringCanonical(c) || (|c| == 1 && 1 <= c[0] <= 7))
    && (tag == TAG_NULL ==> c == [])
    && (tag == TAG_OID ==> IsOidContent(c))
  }

  lemma ContentImage(tag: byte, c: bytes)
    ensures ContentViolation(tag, c).None? <==> Encodable(tag, c)
  {
    IntegerImage(c);
    OidImage(c);
    BitStringRule(c);
    if CheckBoolean(c) {
      assert c == [c[0]];
      assert EncodeBoolean(c[0] == 0xff) == c;
    }
    assert CheckBoolean(c) <==> exists b :: EncodeBoolean(b) == c;
  }
}
