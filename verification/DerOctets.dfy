/** What the strict-DER guard (packages/sdk/src/cert/der-strict.ts) decides, told in octets: tag
    numbers, bit 5 of a tag, length octets and their value, numeric order. Nothing here is stated
    by means of the predicates that the parser and the printer share. */
module DerOctets {
  import opened Arithmetic
  import opened Bytes
  import opened Results
  import opened DerContent
  import opened DerTlv
  import opened DerStrict

  // ----- Order -----

  /** Byte order of two strings of one length is the order of their big-endian values. */
  lemma {:induction false} LexIsNumeric(a: bytes, b: bytes)
    requires |a| == |b|
    ensures LexLeq(a, b) <==> BE(a) <= BE(b)
  {
    if a != [] {
      FirstOctet(a);
      FirstOctet(b);
      LexIsNumeric(a[1..], b[1..]);
      LeadDecides(a[0], b[0], BE(a[1..]), BE(b[1..]), Pow256(|a| - 1));
    }
  }

  lemma FirstOctet(a: bytes)
    requires a != []
    ensures BE(a) == a[0] * Pow256(|a| - 1) + BE(a[1..]) && BE(a[1..]) < Pow256(|a| - 1)
  {
    assert a == [a[0]] + a[1..];
    BEConcat([a[0]], a[1..]);
    BEBound(a[1..]);
    assert [a[0]][..0] == [] && BE([a[0]]) == a[0];
  }

  lemma LeadDecides(x: nat, y: nat, u: nat, v: nat, p: nat)
    requires u < p && v < p
    ensures x < y ==> x * p + u < y * p + v
    ensures x == y ==> (x * p + u <= y * p + v <==> u <= v)
    ensures x > y ==> x * p + u > y * p + v
  {
    if x < y {
      assert (y - x) * p == y * p - x * p;
      AtLeastOnce(y - x, p);
    } else if x > y {
      assert (x - y) * p == x * p - y * p;
      AtLeastOnce(x - y, p);
    }
  }

  /** The value of a, filled up with zero octets at its end to n octets. */
  function FilledValue(a: bytes, n: nat): nat
    requires |a| <= n
  {
    BE(a + Zeros(n - |a|))
  }

  function Longer(a: bytes, b: bytes): (n: nat)
    ensures |a| <= n && |b| <= n
  {
    if |a| < |b| then |b| else |a|
  }

  /** Filled up to one length, the parts ascend as numbers. */
  ghost predicate Ascend(parts: seq<bytes>) {
    forall i, j :: 0 <= i < j < |parts| ==>
      FilledValue(parts[i], Longer(parts[i], parts[j])) <= FilledValue(parts[j], Longer(parts[i], parts[j]))
  }

  lemma AscendIs(parts: seq<bytes>)
    ensures Ascending(parts) <==> Ascend(parts)
  {
    forall i, j | 0 <= i < j < |parts|
      ensures PaddedLeq(parts[i], parts[j]) <==>
        FilledValue(parts[i], Longer(parts[i], parts[j])) <= FilledValue(parts[j], Longer(parts[i], parts[j]))
    {
      var n := Longer(parts[i], parts[j]);
      LexIsNumeric(PadTo(parts[i], n), PadTo(parts[j], n));
    }
  }

  // ----- One TLV -----

  /** The definite form in as few octets as possible, of a length below 2^31. */
  predicate IsLengthOf(length: bytes, n: nat) {
    if n < 0x80 then length == [n]
    else n < 0x8000_0000 && |length| >= 2 && length[0] == 0x7f + |length| && length[1] != 0 && BE(length[1..]) == n
  }

  lemma LengthForm(length: bytes, n: nat)
    ensures IsLengthOf(length, n) <==> n < MAX_LENGTH && length == EncodeLength(n)
  {
    if 0x80 <= n < MAX_LENGTH {
      BEOfMinimal(n);
      if IsLengthOf(length, n) {
        MinimalOfBE(length[1..]);
        assert length == [length[0]] + length[1..];
      }
      if length == EncodeLength(n) { assert length[1..] == MinimalBE(n); }
    }
  }

  /** The content rules, by tag number. */
  ghost predicate ContentRule(tag: byte, c: bytes) {
    && (tag == 0x01 ==> c == [0x00] || c == [0xff])
    && (tag == 0x02 ==> IsIntegerContent(c))
    && (tag == 0x03 ==> BitStringCanonical(c) || (|c| == 1 && 1 <= c[0] <= 7))
    && (tag == 0x05 ==> c == [])
    && (tag == 0x06 ==> IsOidContent(c))
  }

  function ReasonFor(tag: byte): Option<Reason> {
    match tag
    case 0x01 => Some(NonCanonicalBoolean)
    case 0x02 => Some(NonCanonicalInteger)
    case 0x03 => Some(NonCanonicalBitString)
    case 0x05 => Some(NonCanonicalNull)
    case 0x06 => Some(NonCanonicalOid)
    case _ => None
  }

  /** The reason reported for a content is that of its tag's own rule. */
  lemma ReasonByTag(tag: byte, c: bytes)
    ensures ContentViolation(tag, c) == if ContentRule(tag, c) then None else ReasonFor(tag)
  {
    IntegerImage(c);
    OidImage(c);
    BitStringRule(c);
    BooleanContents(c);
  }

  lemma BooleanContents(c: bytes)
    ensures CheckBoolean(c) <==> c == [0x00] || c == [0xff]
  {
    if |c| == 1 { assert c == [c[0]]; }
  }

  lemma RuleIsEncodable(tag: byte, c: bytes)
    ensures ContentRule(tag, c) <==> Encodable(tag, c)
  {
    ReasonByTag(tag, c);
    ContentImage(tag, c);
  }

  lemma Bit5(tag: byte)
    ensures IsConstructedTag(tag) <==> Bit(tag, 5)
  {
    assert Pow2(2) == 4 && Pow2(5) == 32;
  }

  /** The content is that of a SET whose parts ascend. */
  ghost predicate IsOrdered(c: bytes) {
    exists f :: Prints(f, c) && Ascend(Encodings(f))
  }

  /** Of every tag, in all four classes: the content keeps the rule of the tag number; if bit 5
      is set it is strict DER in its turn; and in tag 0x31 it is in order. */
  ghost predicate TlvRule(tag: byte, c: bytes) {
    && ContentRule(tag, c)
    && (Bit(tag, 5) ==> IsStrict(c))
    && (tag == 0x31 ==> IsOrdered(c))
  }

  /** A single TLV is accepted if and only if it keeps these rules. */
  lemma TlvIsStrict(tag: byte, length: bytes, c: bytes)
    requires IsLengthOf(length, |c|)
    ensures IsStrict([tag] + length + c) <==> TlvRule(tag, c)
  {
    var s := [tag] + length + c;
    LengthForm(length, |c|);
    StrictIsPrinted(s);
    StrictIsPrinted(c);
    if TlvRule(tag, c) { RuledIsPrinted(tag, length, c); }
    forall f | Prints(f, s) ensures TlvRule(tag, c) { PrintedIsRuled(tag, length, c, f); }
  }

  lemma RuledIsPrinted(tag: byte, length: bytes, c: bytes)
    requires |c| < MAX_LENGTH && length == EncodeLength(|c|) && TlvRule(tag, c)
    ensures IsPrinted([tag] + length + c)
  {
    Bit5(tag);
    var t := Primitive(tag, c);
    if Bit(tag, 5) {
      var children := OrderedChildren(tag, c);
      t := Constructed(tag, children);
    } else {
      RuleIsEncodable(tag, c);
    }
    SingletonForest(t);
    assert Prints([t], [tag] + length + c);
  }

  lemma OrderedChildren(tag: byte, c: bytes) returns (children: seq<Tlv>)
    requires IsStrict(c) && (tag == 0x31 ==> IsOrdered(c))
    ensures Prints(children, c) && (tag == TAG_SET ==> Ascending(Encodings(children)))
  {
    StrictIsPrinted(c);
    if tag == 0x31 {
      children :| Prints(children, c) && Ascend(Encodings(children));
      AscendIs(Encodings(children));
    } else {
      children :| Prints(children, c);
    }
  }

  lemma PrintedIsRuled(tag: byte, length: bytes, c: bytes, f: seq<Tlv>)
    requires |c| < MAX_LENGTH && length == EncodeLength(|c|) && Prints(f, [tag] + length + c)
    ensures TlvRule(tag, c)
  {
    var s := [tag] + length + c;
    var t, first, rest := PrintParts(f, s);
    var h := PrintedHeader(t, first, rest);
    HeaderThenContent(tag, c, []);
    assert s + [] == s && s[|length| + 1..][..|c|] == c;
    assert Content(t) == c && t.tag == tag;
    CanonicalIsRuled(t);
  }

  lemma CanonicalIsRuled(t: Tlv)
    requires Canonical(t)
    ensures TlvRule(t.tag, Content(t))
  {
    match t
    case Primitive(tag, content) =>
      PrimitiveIsRuled(tag, content);
    case Constructed(tag, children) =>
      assert Prints(children, Content(t));
      ConstructedIsRuled(tag, Content(t), children);
  }

  lemma PrimitiveIsRuled(tag: byte, content: bytes)
    requires !IsConstructedTag(tag) && Encodable(tag, content)
    ensures TlvRule(tag, content)
  {
    Bit5(tag);
    RuleIsEncodable(tag, content);
  }

  lemma ConstructedIsRuled(tag: byte, content: bytes, children: seq<Tlv>)
    requires IsConstructedTag(tag) && Prints(children, content)
    requires tag == TAG_SET ==> Ascending(Encodings(children))
    ensures TlvRule(tag, content)
  {
    StrictIsPrinted(content);
    AscendIs(Encodings(children));
    assert ContentRule(tag, content);
  }

  // ----- Sequences of TLVs -----

  /** s begins with a TLV that keeps its rules, and rest follows. */
  ghost predicate BeginsWithTlv(s: bytes, tag: byte, length: bytes, c: bytes, rest: bytes) {
    s == [tag] + length + c + rest && IsLengthOf(length, |c|) && TlvRule(tag, c)
  }

  /** A buffer is accepted if and only if it is empty, or a TLV that keeps its rules and then an
      accepted buffer. */
  lemma StrictIff(s: bytes)
    ensures IsStrict(s) <==> s == [] || exists tag, length, c, rest :: BeginsWithTlv(s, tag, length, c, rest) && IsStrict(rest)
  {
    if s == [] {
      assert Prints([], []);
      StrictIsPrinted([]);
    } else if IsStrict(s) {
      var tag, length, c, rest := FirstOfStrict(s);
    }
    forall tag, length, c, rest | BeginsWithTlv(s, tag, length, c, rest) && IsStrict(rest) ensures IsStrict(s) {
      TlvIsStrict(tag, length, c);
      StrictAppend([tag] + length + c, rest);
    }
  }

  lemma FirstOfStrict(s: bytes) returns (tag: byte, length: bytes, c: bytes, rest: bytes)
    requires s != [] && IsStrict(s)
    ensures BeginsWithTlv(s, tag, length, c, rest) && IsStrict(rest)
  {
    StrictIsPrinted(s);
    var f :| Prints(f, s);
    var t, first, others := PrintParts(f, s);
    tag, length, c, rest := t.tag, EncodeLength(|Content(t)|), Content(t), others;
    LengthForm(length, |c|);
    CanonicalIsRuled(t);
    StrictIsPrinted(rest);
  }

  lemma StrictAppend(a: bytes, b: bytes)
    requires IsStrict(a) && IsStrict(b)
    ensures IsStrict(a + b)
  {
    StrictIsPrinted(a);
    StrictIsPrinted(b);
    var f :| Prints(f, a);
    var g :| Prints(g, b);
    PrintedAppend(f, g, a, b);
    StrictIsPrinted(a + b);
  }

  lemma {:induction false} PrintedAppend(f: seq<Tlv>, g: seq<Tlv>, a: bytes, b: bytes)
    requires Prints(f, a) && Prints(g, b)
    ensures Prints(f + g, a + b)
  {
    if f == [] {
      assert [] + g == g && [] + b == b;
    } else {
      var t, first, rest := PrintParts(f, a);
      PrintedAppend(f[1..], g, rest, b);
      PrintedCons(t, f[1..] + g, first, rest + b);
      Reassociate([t], f[1..], g, f);
      Reassociate(first, rest, b, a);
    }
  }

  lemma Reassociate<T>(x: seq<T>, y: seq<T>, z: seq<T>, xy: seq<T>)
    requires xy == x + y
    ensures xy + z == x + (y + z)
  {
  }

  /** What is parsed has the shape that bit 5 of its tag announces. */
  lemma ShapeIsBit5(tag: byte, content: bytes, base: nat, headerLen: nat, path: seq<byte>, t: Tlv)
    requires ParsesTree(tag, content, base, headerLen, path, t)
    ensures t.tag == tag && (t.Constructed? <==> Bit(tag, 5)) && (t.Primitive? ==> t.content == content)
  {
    Bit5(tag);
  }

  // ----- Reasons of a bad header -----

  /** Two of the three reasons, in octets; the third is what remains. A length of more than four
      octets, or one with a leading zero, below 128, or of 2^31 and more is not minimal. */
  lemma HeaderReasons(s: bytes)
    ensures ReadHeader(s) == Err(IndefiniteLength) <==> |s| >= 2 && s[1] == 0x80
    ensures ReadHeader(s) == Err(NonMinimalLength) <==>
      && |s| >= 2 && s[1] > 0x80
      && (s[1] > 0x84 || (|s| >= s[1] - 0x7e && var digits := s[2..s[1] - 0x7e];
                          digits[0] == 0 || BE(digits) < 0x80 || BE(digits) >= 0x8000_0000))
    ensures ReadHeader(s).Err? ==> ReadHeader(s).error in {IndefiniteLength, NonMinimalLength, Truncated}
  {
    if |s| >= 2 && 0x80 < s[1] <= 0x84 && |s| >= s[1] - 0x7e {
      var digits := s[2..s[1] - 0x7e];
      AccumulateIs(digits);
      if |digits| == 1 { assert digits[..0] == [] && BE(digits) == digits[0]; }
    }
  }

  /** More octets behind a header change nothing, unless it was truncated. */
  lemma MoreOctets(s: bytes, more: bytes)
    ensures ReadHeader(s) == Err(Truncated) || ReadHeader(s + more) == ReadHeader(s)
  {
    if |s| >= 2 && 0x80 < s[1] <= 0x84 && |s| >= s[1] - 0x7e {
      assert (s + more)[2..s[1] - 0x7e] == s[2..s[1] - 0x7e];
    }
  }

  // ----- The path of a failure -----

  /** The octet at position i is this tag, and the TLV that begins there goes beyond position k. */
  predicate TagReaches(s: bytes, i: nat, tag: byte, k: nat) {
    i < k && i < |s| && s[i] == tag && FirstLength(s[i..]).Some? && k < i + FirstLength(s[i..]).value
  }

  /** At these ascending positions stand the tags of a path; each of the TLVs holds position k. */
  predicate Encloses(s: bytes, at: seq<nat>, tags: seq<byte>, k: nat) {
    && |at| == |tags|
    && (forall i :: 0 <= i < |at| ==> TagReaches(s, at[i], tags[i], k))
    && forall i, j :: 0 <= i < j < |at| ==> at[i] < at[j]
  }

  /** The path of a failure names the tags of TLVs around the failing one, outermost first. */
  lemma {:induction false} PathNamesEnclosing(s: bytes, base: nat, path: seq<byte>, e: Failure) returns (at: seq<nat>)
    requires IsFirst(s, base, path, e)
    ensures path <= e.path && base <= e.offset < base + |s|
    ensures Encloses(s, at, e.path[|path|..], e.offset - base)
    decreases |s|
  {
    FirstLiesInside(s, base, path, e);
    at := [];
    var k: nat :| FailsAfter(s, k, base, path, e);
    if e.path != path {
      var h, content := FailsInside(s[k..], base + k, path, e);
      var inner := PathNamesEnclosing(content, base + k + h.headerLen, path + [h.tag], e);
      at := AroundThese(s, k, h, content, inner, e.path[|path|..], e.offset - base);
    }
  }

  lemma FailsInside(s: bytes, base: nat, path: seq<byte>, e: Failure) returns (h: Header, content: bytes)
    requires s != [] && TlvFails(s, base, path, e) && e.path != path
    ensures ReadHeader(s) == Ok(h) && s[0] == h.tag && content == s[h.headerLen..h.headerLen + h.contentLen]
    ensures |content| < |s| && IsFirst(content, base + h.headerLen, path + [h.tag], e)
  {
    h := ReadHeader(s).value;
    content := s[h.headerLen..h.headerLen + h.contentLen];
  }

  lemma AroundThese(s: bytes, k: nat, h: Header, content: bytes, inner: seq<nat>, tags: seq<byte>, target: nat)
    returns (at: seq<nat>)
    requires k < |s| && ReadHeader(s[k..]) == Ok(h) && s[k] == h.tag
    requires content == s[k..][h.headerLen..h.headerLen + h.contentLen]
    requires tags != [] && tags[0] == h.tag
    requires k + h.headerLen <= target < k + h.headerLen + |content|
    requires Encloses(content, inner, tags[1..], target - k - h.headerLen)
    ensures Encloses(s, at, tags, target)
  {
    var from := k + h.headerLen;
    SliceOfSlice(s, k, |s|, h.headerLen, h.headerLen + h.contentLen);
    assert s[k..|s|] == s[k..] && content == s[from..from + |content|];
    var moved := MoveOut(s, from, content, inner, tags[1..], target - from);
    at := [k] + moved;
    assert TagReaches(s, k, tags[0], target);
    OneMoreAround(s, k, moved, tags, target);
  }

  /** What encloses a position of the content encloses it in the buffer. */
  lemma MoveOut(s: bytes, from: nat, content: bytes, inner: seq<nat>, tags: seq<byte>, k: nat) returns (at: seq<nat>)
    requires from + |content| <= |s| && content == s[from..from + |content|] && Encloses(content, inner, tags, k)
    ensures Encloses(s, at, tags, from + k) && forall i :: 0 <= i < |at| ==> at[i] >= from
  {
    at := seq(|inner|, i requires 0 <= i < |inner| => from + inner[i]);
    forall i | 0 <= i < |inner| ensures TagReaches(s, at[i], tags[i], from + k) {
      assert TagReaches(content, inner[i], tags[i], k);
      ReachesOutside(s, from, content, inner[i]);
    }
  }

  lemma OneMoreAround(s: bytes, k: nat, moved: seq<nat>, tags: seq<byte>, target: nat)
    requires tags != [] && TagReaches(s, k, tags[0], target) && Encloses(s, moved, tags[1..], target)
    requires forall i :: 0 <= i < |moved| ==> moved[i] > k
    ensures Encloses(s, [k] + moved, tags, target)
  {
    var at := [k] + moved;
    forall i | 0 <= i < |at| ensures TagReaches(s, at[i], tags[i], target) {
      if i > 0 { assert TagReaches(s, moved[i - 1], tags[1..][i - 1], target); }
    }
  }

  lemma ReachesOutside(s: bytes, from: nat, content: bytes, i: nat)
    requires i < |content| && from + |content| <= |s| && content == s[from..from + |content|]
    requires FirstLength(content[i..]).Some?
    ensures s[from + i] == content[i] && FirstLength(s[from + i..]) == FirstLength(content[i..])
  {
    MoreOctets(content[i..], s[from + |content|..]);
    assert s[from + i..] == content[i..] + s[from + |content|..];
  }
}
