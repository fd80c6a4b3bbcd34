/** isStrictDER (packages/sdk/src/cert/der-strict.ts): the recursive walk over a byte buffer,
    and the theorem that it accepts exactly the printed forms of canonical TLV forests. */
module DerStrict {
  import opened Bytes
  import opened Results
  import opened DerContent
  import opened DerTlv

  /** offset is the position of the failing TLV's tag; path lists the tags that enclose it. */
  datatype Failure = Failure(reason: Reason, offset: nat, path: seq<byte>)
  datatype Verdict = Strict | NotStrict(failure: Failure)

  // ----- The re-walk of a SET's content -----

  /** The byte ranges of the TLVs in s, or None at the first bad header. */
  function Split(s: bytes): Option<seq<bytes>>
    decreases |s|
  {
    if s == [] then Some([])
    else
      match ReadHeader(s)
      case Err(_) => None
      case Ok(h) =>
        var n := h.headerLen + h.contentLen;
        match Split(s[n..])
        case None => None
        case Some(parts) => Some([s[..n]] + parts)
  }

  predicate AdjacentOrdered(parts: seq<bytes>) {
    forall i :: 0 < i < |parts| ==> LexLeq(parts[i - 1], parts[i])
  }

  predicate SetOrderingOk(content: bytes) {
    var r := Split(content);
    r.Some? && AdjacentOrdered(r.value)
  }

  // ----- The walk, as a parser -----

  /** The forest in s, or the first failure. s stands at position base, under the tags in path. */
  function Parse(s: bytes, base: nat, path: seq<byte>): Result<seq<Tlv>, Failure>
    decreases |s|, 0
  {
    if s == [] then Ok([])
    else
      match ReadHeader(s)
      case Err(reason) => Err(Failure(reason, base, path))
      case Ok(h) =>
        var n := h.headerLen + h.contentLen;
        match ParseTree(h.tag, s[h.headerLen..n], base, h.headerLen, path)
        case Err(e) => Err(e)
        case Ok(t) =>
          match Parse(s[n..], base + n, path)
          case Err(e) => Err(e)
          case Ok(ts) => Ok([t] + ts)
  }

  /** The tree with this tag and content, whose tag stands at base. */
  function ParseTree(tag: byte, content: bytes, base: nat, headerLen: nat, path: seq<byte>): Result<Tlv, Failure>
    decreases |content|, 1
  {
    var violation := ContentViolation(tag, content);
    if violation.Some? then Err(Failure(violation.value, base, path))
    else if !IsConstructedTag(tag) then Ok(Primitive(tag, content))
    else
      match Parse(content, base + headerLen, path + [tag])
      case Err(e) => Err(e)
      case Ok(children) =>
        if tag == TAG_SET && !SetOrderingOk(content) then Err(Failure(NonCanonicalSet, base, path))
        else Ok(Constructed(tag, children))
  }

  function Judge<T>(r: Result<T, Failure>): Verdict {
    match r
    case Ok(_) => Strict
    case Err(e) => NotStrict(e)
  }

  ghost predicate Parses(s: bytes, base: nat, path: seq<byte>, f: seq<Tlv>) {
    Parse(s, base, path) == Ok(f)
  }

  ghost predicate ParsesTree(tag: byte, content: bytes, base: nat, headerLen: nat, path: seq<byte>, t: Tlv) {
    ParseTree(tag, content, base, headerLen, path) == Ok(t)
  }

  /** s is the encoding of the canonical forest f. */
  ghost predicate Prints(f: seq<Tlv>, s: bytes) {
    CanonicalForest(f) && EncodeForest(f) == s
  }

  ghost predicate PrintsTree(t: Tlv, s: bytes) {
    Canonical(t) && Encode(t) == s
  }

  /** s starts with a TLV: its header, its content, and what follows it. */
  ghost predicate StartsWith(s: bytes, h: Header, content: bytes, rest: bytes) {
    ReadHeader(s) == Ok(h) && content == s[h.headerLen..h.headerLen + h.contentLen] && rest == s[h.headerLen + h.contentLen..]
  }

  // ----- Soundness: what is accepted is printed -----

  lemma {:induction false} ParseSound(s: bytes, base: nat, path: seq<byte>, f: seq<Tlv>)
    requires Parses(s, base, path, f)
    ensures Prints(f, s)
    decreases |s|, 0
  {
    if s != [] {
      var h, content, rest, t, ts := ParseParts(s, base, path, f);
      TreeSound(h.tag, content, base, h.headerLen, path, t);
      ParseSound(rest, base + h.headerLen + h.contentLen, path, ts);
      PrintedCons(t, ts, [h.tag] + EncodeLength(|content|) + content, rest);
    }
  }

  /** The first TLV of s, taken apart. */
  ghost predicate Divides(s: bytes, h: Header, content: bytes, rest: bytes) {
    && 2 <= h.headerLen && |content| == h.contentLen < MAX_LENGTH
    && |content| < |s| && |rest| < |s| && h.headerLen + h.contentLen + |rest| == |s|
    && s == ([h.tag] + EncodeLength(|content|) + content) + rest
  }

  lemma FirstTlv(s: bytes, h: Header)
    requires ReadHeader(s) == Ok(h)
    ensures var n := h.headerLen + h.contentLen; Divides(s, h, s[h.headerLen..n], s[n..])
  {
    HeaderSound(s);
    assert s == (s[..h.headerLen] + s[h.headerLen..h.headerLen + h.contentLen]) + s[h.headerLen + h.contentLen..];
  }

  lemma ParseParts(s: bytes, base: nat, path: seq<byte>, f: seq<Tlv>)
    returns (h: Header, content: bytes, rest: bytes, t: Tlv, ts: seq<Tlv>)
    requires s != [] && Parses(s, base, path, f)
    ensures Divides(s, h, content, rest)
    ensures ParsesTree(h.tag, content, base, h.headerLen, path, t)
    ensures Parses(rest, base + h.headerLen + h.contentLen, path, ts) && f == [t] + ts
  {
    h := ReadHeader(s).value;
    var n := h.headerLen + h.contentLen;
    content, rest := s[h.headerLen..n], s[n..];
    t := ParseTree(h.tag, content, base, h.headerLen, path).value;
    ts := Parse(rest, base + n, path).value;
    FirstTlv(s, h);
  }

  lemma PrintedCons(t: Tlv, ts: seq<Tlv>, s: bytes, rest: bytes)
    requires PrintsTree(t, s) && Prints(ts, rest)
    ensures Prints([t] + ts, s + rest)
  {
    assert ([t] + ts)[1..] == ts;
  }

  lemma {:induction false} TreeSound(tag: byte, content: bytes, base: nat, headerLen: nat, path: seq<byte>, t: Tlv)
    requires |content| < MAX_LENGTH && ParsesTree(tag, content, base, headerLen, path, t)
    ensures PrintsTree(t, [tag] + EncodeLength(|content|) + content)
    decreases |content|, 1
  {
    var children := TreeParts(tag, content, base, headerLen, path, t);
    if t.Constructed? {
      ParseSound(content, base + headerLen, path + [tag], children);
      PrintedConstructed(t, content);
    }
  }

  lemma TreeParts(tag: byte, content: bytes, base: nat, headerLen: nat, path: seq<byte>, t: Tlv) returns (children: seq<Tlv>)
    requires ParsesTree(tag, content, base, headerLen, path, t)
    ensures
      if IsConstructedTag(tag) then
        && t == Constructed(tag, children)
        && Parses(content, base + headerLen, path + [tag], children)
        && (tag == TAG_SET ==> SetOrderingOk(content))
      else
        t == Primitive(tag, content) && Encodable(tag, content)
  {
    ContentImage(tag, content);
    children := if t.Constructed? then t.children else [];
  }

  lemma PrintedConstructed(t: Tlv, content: bytes)
    requires t.Constructed? && IsConstructedTag(t.tag) && |content| < MAX_LENGTH
    requires Prints(t.children, content)
    requires t.tag == TAG_SET ==> SetOrderingOk(content)
    ensures PrintsTree(t, [t.tag] + EncodeLength(|content|) + content)
  {
    SplitOfPrinted(t.children);
    OrderingMeansAscending(t.children);
  }

  // ----- Completeness: what is printed is accepted -----

  lemma {:induction false} ParseComplete(f: seq<Tlv>, s: bytes, base: nat, path: seq<byte>)
    requires Prints(f, s)
    ensures Parses(s, base, path, f)
    decreases f, 0
  {
    if f != [] {
      var t, first, rest := PrintParts(f, s);
      var h := PrintedHeader(t, first, rest);
      TreeComplete(t, base, h.headerLen, path);
      var next := base + |first|;
      ParseComplete(f[1..], rest, next, path);
      ParseCons(t, f[1..], s, h, Content(t), rest, base, next, path);
      assert f == [t] + f[1..];
    }
  }

  lemma PrintParts(f: seq<Tlv>, s: bytes) returns (t: Tlv, first: bytes, rest: bytes)
    requires f != [] && Prints(f, s)
    ensures t == f[0] && PrintsTree(t, first) && Prints(f[1..], rest) && s == first + rest
  {
    t, first, rest := f[0], Encode(f[0]), EncodeForest(f[1..]);
  }

  lemma PrintedHeader(t: Tlv, first: bytes, rest: bytes) returns (h: Header)
    requires PrintsTree(t, first)
    ensures h.tag == t.tag && h.headerLen + h.contentLen == |first|
    ensures StartsWith(first + rest, h, Content(t), rest)
  {
    var s := first + rest;
    HeaderOfPrinted(t, rest);
    h := ReadHeader(s).value;
    assert s[h.headerLen..h.headerLen + h.contentLen] == s[h.headerLen..][..h.contentLen];
  }

  lemma ParseCons(t: Tlv, ts: seq<Tlv>, s: bytes, h: Header, content: bytes, rest: bytes,
                  base: nat, next: nat, path: seq<byte>)
    requires StartsWith(s, h, content, rest) && next == base + h.headerLen + h.contentLen
    requires ParsesTree(h.tag, content, base, h.headerLen, path, t)
    requires Parses(rest, next, path, ts)
    ensures Parses(s, base, path, [t] + ts)
  {
  }

  lemma {:induction false} TreeComplete(t: Tlv, base: nat, headerLen: nat, path: seq<byte>)
    requires Canonical(t)
    ensures ParsesTree(t.tag, Content(t), base, headerLen, path, t)
    decreases t, 1
  {
    if t.Primitive? {
      ContentImage(t.tag, t.content);
    } else {
      assert Prints(t.children, Content(t));
      ParseComplete(t.children, Content(t), base + headerLen, path + [t.tag]);
      if t.tag == TAG_SET {
        SplitOfPrinted(t.children);
        OrderingMeansAscending(t.children);
      }
      AcceptedConstructed(t.tag, Content(t), t.children, base, headerLen, path);
    }
  }

  lemma AcceptedConstructed(tag: byte, content: bytes, children: seq<Tlv>, base: nat, headerLen: nat, path: seq<byte>)
    requires IsConstructedTag(tag) && (tag == TAG_SET ==> SetOrderingOk(content))
    requires Parses(content, base + headerLen, path + [tag], children)
    ensures ParsesTree(tag, content, base, headerLen, path, Constructed(tag, children))
  {
    assert ContentViolation(tag, content).None?;
  }

  // ----- SET ordering -----

  /** The re-walk of a printed content meets no bad header and finds the children's encodings. */
  lemma {:induction false} SplitOfPrinted(f: seq<Tlv>)
    requires CanonicalForest(f)
    ensures Split(EncodeForest(f)) == Some(Encodings(f))
  {
    if f != [] {
      var t, rest := f[0], EncodeForest(f[1..]);
      HeaderOfPrinted(t, rest);
      SplitOfPrinted(f[1..]);
      assert (Encode(t) + rest)[..|Encode(t)|] == Encode(t);
      assert Encodings(f) == [Encode(t)] + Encodings(f[1..]);
    }
  }

  /** Comparing neighbours, shorter prefix first, decides whether all pairs ascend in the
      zero-padded order of section 11.6 of X.690. */
  lemma OrderingMeansAscending(f: seq<Tlv>)
    requires CanonicalForest(f)
    ensures AdjacentOrdered(Encodings(f)) <==> Ascending(Encodings(f))
  {
    var parts := Encodings(f);
    forall i, j | 0 <= i < |f| && 0 <= j < |f|
      ensures LexLeq(parts[i], parts[j]) <==> PaddedLeq(parts[i], parts[j])
    {
      CanonicalMember(f, i);
      CanonicalMember(f, j);
      PrefixFree(f[i], f[j]);
      PrefixFree(f[j], f[i]);
      LexIsPadded(parts[i], parts[j]);
    }
    if AdjacentOrdered(parts) {
      forall i, j | 0 <= i < j < |parts| ensures LexLeq(parts[i], parts[j]) {
        AdjacentChains(parts, i, j);
      }
    }
  }

  lemma {:induction false} AdjacentChains(parts: seq<bytes>, i: nat, j: nat)
    requires AdjacentOrdered(parts) && i <= j < |parts|
    ensures LexLeq(parts[i], parts[j])
  {
    if i == j {
      LexReflexive(parts[i]);
    } else {
      AdjacentChains(parts, i, j - 1);
      LexTransitive(parts[i], parts[j - 1], parts[j]);
    }
  }

  // ----- The main results -----

  predicate IsStrict(s: bytes) {
    Parse(s, 0, []).Ok?
  }

  ghost predicate IsPrinted(s: bytes) {
    exists f :: Prints(f, s)
  }

  /** Strict DER is the image of the printer. */
  lemma StrictIsPrinted(s: bytes)
    ensures IsStrict(s) <==> IsPrinted(s)
  {
    if IsStrict(s) {
      ParseSound(s, 0, [], Parse(s, 0, []).value);
    }
    forall f | Prints(f, s) ensures IsStrict(s) {
      ParseComplete(f, s, 0, []);
    }
  }

  /** One encoding, one forest: the printer is injective on canonical forests. */
  lemma PrinterInjective(f: seq<Tlv>, g: seq<Tlv>)
    requires CanonicalForest(f) && CanonicalForest(g)
    requires EncodeForest(f) == EncodeForest(g)
    ensures f == g
  {
    ParseComplete(f, EncodeForest(f), 0, []);
    ParseComplete(g, EncodeForest(f), 0, []);
  }

  // ----- Where a failure lies -----

  ghost predicate Fails(s: bytes, base: nat, path: seq<byte>, e: Failure) {
    Parse(s, base, path) == Err(e)
  }

  /** The TLVs of s are canonical, but in descending order somewhere. */
  ghost predicate Disordered(s: bytes) {
    exists f :: Prints(f, s) && !Ascending(Encodings(f))
  }

  /** e is the first failure in s: a printed forest, and then a TLV with that failure. */
  ghost predicate IsFirst(s: bytes, base: nat, path: seq<byte>, e: Failure)
    decreases |s|, 2
  {
    exists k: nat :: FailsAfter(s, k, base, path, e)
  }

  ghost predicate FailsAfter(s: bytes, k: nat, base: nat, path: seq<byte>, e: Failure)
    decreases |s|, 1
  {
    k < |s| && IsPrinted(s[..k]) && TlvFails(s[k..], base + k, path, e)
  }

  /** The first TLV of s has no acceptable header, or its content fails. */
  ghost predicate TlvFails(s: bytes, base: nat, path: seq<byte>, e: Failure)
    decreases |s|, 0
  {
    var hr := ReadHeader(s);
    if hr.Err? then e == Failure(hr.error, base, path)
    else
      var h := hr.value;
      ContentFails(h.tag, s[h.headerLen..h.headerLen + h.contentLen], base, h.headerLen, path, e)
  }

  /** The content breaks the rule of its tag; or it is constructed and has its own first failure
      inside, one tag deeper and behind the header; or it is a SET whose canonical TLVs are out
      of order. Rule and order are reported at the tag, which stands at base. */
  ghost predicate ContentFails(tag: byte, content: bytes, base: nat, headerLen: nat, path: seq<byte>, e: Failure)
    decreases |content|, 3
  {
    var violation := ContentViolation(tag, content);
    if violation.Some? then e == Failure(violation.value, base, path)
    else if !IsConstructedTag(tag) then false
    else
      || IsFirst(content, base + headerLen, path + [tag], e)
      || (tag == TAG_SET && Disordered(content) && e == Failure(NonCanonicalSet, base, path))
  }

  lemma DisorderedIs(s: bytes)
    requires IsPrinted(s)
    ensures Disordered(s) <==> !SetOrderingOk(s)
  {
    var f :| Prints(f, s);
    SplitOfPrinted(f);
    OrderingMeansAscending(f);
    forall g | Prints(g, s) ensures g == f { PrinterInjective(f, g); }
  }

  /** The walk fails, with this reason, offset and path, if and only if that is the first failure. */
  lemma FailureIsFirst(s: bytes, base: nat, path: seq<byte>, e: Failure)
    ensures Fails(s, base, path, e) <==> IsFirst(s, base, path, e)
  {
    if Fails(s, base, path, e) { FailureFound(s, base, path, e); }
    if IsFirst(s, base, path, e) { FirstIsReported(s, base, path, e); }
  }

  // A reported failure is the first.

  ghost predicate TreeFails(tag: byte, content: bytes, base: nat, headerLen: nat, path: seq<byte>, e: Failure) {
    ParseTree(tag, content, base, headerLen, path) == Err(e)
  }

  /** s fails in its first header, its first tree, or what follows that. */
  ghost predicate FailsSomewhere(s: bytes, base: nat, path: seq<byte>, e: Failure) {
    var hr := ReadHeader(s);
    if hr.Err? then e == Failure(hr.error, base, path)
    else
      var h, n := hr.value, hr.value.headerLen + hr.value.contentLen;
      var tree := ParseTree(h.tag, s[h.headerLen..n], base, h.headerLen, path);
      if tree.Ok? then Fails(s[n..], base + n, path, e) else tree == Err(e)
  }

  lemma FailureUnfolds(s: bytes, base: nat, path: seq<byte>, e: Failure)
    requires s != []
    ensures Fails(s, base, path, e) <==> FailsSomewhere(s, base, path, e)
  {
  }

  lemma {:induction false} FailureFound(s: bytes, base: nat, path: seq<byte>, e: Failure)
    requires Fails(s, base, path, e)
    ensures IsFirst(s, base, path, e)
    decreases |s|, 2
  {
    FailureUnfolds(s, base, path, e);
    SomewhereIsFirst(s, base, path, e);
  }

  lemma {:induction false} SomewhereIsFirst(s: bytes, base: nat, path: seq<byte>, e: Failure)
    requires s != [] && FailsSomewhere(s, base, path, e)
    ensures IsFirst(s, base, path, e)
    decreases |s|, 1
  {
    if ReadHeader(s).Err? {
      AtOnce(s, base, path, e);
    } else {
      var h := ReadHeader(s).value;
      var n := h.headerLen + h.contentLen;
      var content, rest := s[h.headerLen..n], s[n..];
      FirstTlv(s, h);
      var tree := ParseTree(h.tag, content, base, h.headerLen, path);
      if tree.Err? {
        InFirstTree(s, h, content, rest, base, path, e);
      } else {
        InRest(s, h, content, rest, tree.value, base, path, e);
      }
    }
  }

  lemma {:induction false} InFirstTree(s: bytes, h: Header, content: bytes, rest: bytes,
                                       base: nat, path: seq<byte>, e: Failure)
    requires StartsWith(s, h, content, rest) && |content| < |s|
    requires TreeFails(h.tag, content, base, h.headerLen, path, e)
    ensures IsFirst(s, base, path, e)
    decreases |s|, 0
  {
    TreeFailureFound(h.tag, content, base, h.headerLen, path, e);
    AtOnce(s, base, path, e);
  }

  lemma {:induction false} InRest(s: bytes, h: Header, content: bytes, rest: bytes, t: Tlv,
                                  base: nat, path: seq<byte>, e: Failure)
    requires Divides(s, h, content, rest) && ParsesTree(h.tag, content, base, h.headerLen, path, t)
    requires Fails(rest, base + (h.headerLen + h.contentLen), path, e)
    ensures IsFirst(s, base, path, e)
    decreases |s|, 0
  {
    FailureFound(rest, base + (h.headerLen + h.contentLen), path, e);
    Later(s, h, content, rest, t, base, path, e);
  }

  lemma {:induction false} TreeFailureFound(tag: byte, content: bytes, base: nat, headerLen: nat,
                                            path: seq<byte>, e: Failure)
    requires TreeFails(tag, content, base, headerLen, path, e)
    ensures ContentFails(tag, content, base, headerLen, path, e)
    decreases |content|, 3
  {
    if ContentViolation(tag, content).None? {
      var inner := Parse(content, base + headerLen, path + [tag]);
      if inner.Err? {
        FailureFound(content, base + headerLen, path + [tag], e);
      } else {
        ParseSound(content, base + headerLen, path + [tag], inner.value);
        DisorderedIs(content);
      }
    }
  }

  lemma AtOnce(s: bytes, base: nat, path: seq<byte>, e: Failure)
    requires s != [] && TlvFails(s, base, path, e)
    ensures IsFirst(s, base, path, e)
  {
    assert s[..0] == [] && Prints([], []);
    assert s[0..] == s;
    assert FailsAfter(s, 0, base, path, e);
  }

  lemma Later(s: bytes, h: Header, content: bytes, rest: bytes, t: Tlv, base: nat, path: seq<byte>, e: Failure)
    requires Divides(s, h, content, rest) && ParsesTree(h.tag, content, base, h.headerLen, path, t)
    requires IsFirst(rest, base + (h.headerLen + h.contentLen), path, e)
    ensures IsFirst(s, base, path, e)
  {
    var n := h.headerLen + h.contentLen;
    var first := [h.tag] + EncodeLength(|content|) + content;
    TreeSound(h.tag, content, base, h.headerLen, path, t);
    var k: nat :| FailsAfter(rest, k, base + n, path, e);
    PrintedBefore(s, first, t, rest, k);
    assert s[n + k..] == rest[k..];
    assert FailsAfter(s, n + k, base, path, e);
  }

  lemma PrintedBefore(s: bytes, first: bytes, t: Tlv, rest: bytes, k: nat)
    requires s == first + rest && PrintsTree(t, first) && k <= |rest| && IsPrinted(rest[..k])
    ensures IsPrinted(s[..|first| + k])
  {
    var g :| Prints(g, rest[..k]);
    PrintedCons(t, g, first, rest[..k]);
    assert s[..|first| + k] == first + rest[..k];
  }

  // The first failure is reported.

  lemma {:induction false} FirstIsReported(s: bytes, base: nat, path: seq<byte>, e: Failure)
    requires IsFirst(s, base, path, e)
    ensures Fails(s, base, path, e)
    decreases |s|, 2
  {
    var k: nat :| FailsAfter(s, k, base, path, e);
    var f :| Prints(f, s[..k]);
    TlvIsReported(s[k..], base + k, path, e);
    BehindForest(f, s[..k], s[k..], base, path, e);
    assert s == s[..k] + s[k..];
  }

  lemma {:induction false} TlvIsReported(s: bytes, base: nat, path: seq<byte>, e: Failure)
    requires s != [] && TlvFails(s, base, path, e)
    ensures Fails(s, base, path, e)
    decreases |s|, 1
  {
    if ReadHeader(s).Ok? {
      var h := ReadHeader(s).value;
      ContentIsReported(h.tag, s[h.headerLen..h.headerLen + h.contentLen], base, h.headerLen, path, e);
    }
    FailureUnfolds(s, base, path, e);
  }

  lemma {:induction false} ContentIsReported(tag: byte, content: bytes, base: nat, headerLen: nat,
                                            path: seq<byte>, e: Failure)
    requires ContentFails(tag, content, base, headerLen, path, e)
    ensures TreeFails(tag, content, base, headerLen, path, e)
    decreases |content|, 3
  {
    if ContentViolation(tag, content).None? {
      if IsFirst(content, base + headerLen, path + [tag], e) {
        FirstIsReported(content, base + headerLen, path + [tag], e);
        InsideFailsTree(tag, content, base, headerLen, path, e);
      } else {
        DisorderFailsTree(content, base, headerLen, path);
      }
    }
  }

  lemma InsideFailsTree(tag: byte, content: bytes, base: nat, headerLen: nat, path: seq<byte>, e: Failure)
    requires ContentViolation(tag, content).None? && IsConstructedTag(tag)
    requires Fails(content, base + headerLen, path + [tag], e)
    ensures TreeFails(tag, content, base, headerLen, path, e)
  {
  }

  lemma DisorderFailsTree(content: bytes, base: nat, headerLen: nat, path: seq<byte>)
    requires Disordered(content)
    ensures TreeFails(TAG_SET, content, base, headerLen, path, Failure(NonCanonicalSet, base, path))
  {
    var f := DisorderedForest(content);
    ParseComplete(f, content, base + headerLen, path + [TAG_SET]);
    UnorderedFails(f, content, base, headerLen, path);
  }

  lemma DisorderedForest(s: bytes) returns (f: seq<Tlv>)
    requires Disordered(s)
    ensures Prints(f, s) && !SetOrderingOk(s)
  {
    f :| Prints(f, s) && !Ascending(Encodings(f));
    SplitOfPrinted(f);
    OrderingMeansAscending(f);
  }

  lemma UnorderedFails(f: seq<Tlv>, content: bytes, base: nat, headerLen: nat, path: seq<byte>)
    requires Parses(content, base + headerLen, path + [TAG_SET], f) && !SetOrderingOk(content)
    ensures TreeFails(TAG_SET, content, base, headerLen, path, Failure(NonCanonicalSet, base, path))
  {
    assert IsConstructedTag(TAG_SET) && ContentViolation(TAG_SET, content).None?;
  }

  /** A failure behind a printed forest is that of the whole. */
  lemma {:induction false} BehindForest(f: seq<Tlv>, before: bytes, rest: bytes, base: nat, path: seq<byte>, e: Failure)
    requires Prints(f, before) && Fails(rest, base + |before|, path, e)
    ensures Fails(before + rest, base, path, e)
    decreases f
  {
    if f == [] {
      assert before + rest == rest;
    } else {
      var t, first, others := PrintParts(f, before);
      BehindForest(f[1..], others, rest, base + |first|, path, e);
      BehindTree(t, first, others + rest, base, path, e);
      Regroup(first, others, rest);
    }
  }

  lemma Regroup(a: bytes, b: bytes, c: bytes)
    ensures (a + b) + c == a + (b + c)
  {
  }

  lemma BehindTree(t: Tlv, first: bytes, rest: bytes, base: nat, path: seq<byte>, e: Failure)
    requires PrintsTree(t, first) && Fails(rest, base + |first|, path, e)
    ensures Fails(first + rest, base, path, e)
  {
    var h := PrintedHeader(t, first, rest);
    TreeComplete(t, base, h.headerLen, path);
    SkipTree(first + rest, h, Content(t), rest, t, base, path, e);
  }

  lemma SkipTree(s: bytes, h: Header, content: bytes, rest: bytes, t: Tlv, base: nat, path: seq<byte>, e: Failure)
    requires s != [] && StartsWith(s, h, content, rest)
    requires ParsesTree(h.tag, content, base, h.headerLen, path, t)
    requires Fails(rest, base + (h.headerLen + h.contentLen), path, e)
    ensures Fails(s, base, path, e)
  {
    FailureUnfolds(s, base, path, e);
  }

  lemma TlvFailsHereOrInside(s: bytes, base: nat, path: seq<byte>, e: Failure) returns (h: Header, content: bytes)
    requires s != [] && TlvFails(s, base, path, e)
    ensures (e.offset == base && e.path == path)
      || (2 <= h.headerLen <= |s| - |content| && IsFirst(content, base + h.headerLen, path + [h.tag], e))
  {
    h, content := Header(0, 0, 0), [];
    if ReadHeader(s).Ok? {
      h := ReadHeader(s).value;
      content := s[h.headerLen..h.headerLen + h.contentLen];
      FirstTlv(s, h);
    }
  }

  /** So a failure lies in s, under the tags of path and perhaps more. */
  lemma {:induction false} FirstLiesInside(s: bytes, base: nat, path: seq<byte>, e: Failure)
    requires IsFirst(s, base, path, e)
    ensures base <= e.offset < base + |s| && path <= e.path
    ensures e.path == path ==> IsPrinted(s[..e.offset - base])
    decreases |s|
  {
    var k: nat :| FailsAfter(s, k, base, path, e);
    var h, content := TlvFailsHereOrInside(s[k..], base + k, path, e);
    if e.offset != base + k || e.path != path {
      FirstLiesInside(content, base + k + h.headerLen, path + [h.tag], e);
    }
  }

  // ----- The source's walk -----

  function ParseIn(buf: bytes, start: nat, end: nat, path: seq<byte>): Result<seq<Tlv>, Failure>
    requires start <= end <= |buf|
  {
    Parse(buf[start..end], start, path)
  }

  lemma ParseInStep(buf: bytes, offset: nat, end: nat, path: seq<byte>)
    requires offset < end <= |buf|
    ensures var hr := HeaderIn(buf, offset, end);
      if hr.Err? then ParseIn(buf, offset, end, path) == Err(Failure(hr.error, offset, path))
      else
        var p := hr.value;
        var tree := ParseTree(p.tag, buf[p.contentStart..p.contentEnd], offset, p.contentStart - offset, path);
        Judge(ParseIn(buf, offset, end, path)) ==
          if tree.Ok? then Judge(ParseIn(buf, p.contentEnd, end, path)) else Judge(tree)
  {
    var r := ReadHeader(buf[offset..end]);
    if r.Ok? {
      var n := r.value.headerLen + r.value.contentLen;
      SliceOfSlice(buf, offset, end, r.value.headerLen, n);
      assert buf[offset..end][n..] == buf[offset + n..end];
    }
  }

  lemma TreeJudged(buf: bytes, p: ParsedHeader, offset: nat, path: seq<byte>)
    requires offset <= p.contentStart <= p.contentEnd <= |buf|
    ensures var content := buf[p.contentStart..p.contentEnd];
      var violation := ContentViolation(p.tag, content);
      var inner := ParseIn(buf, p.contentStart, p.contentEnd, path + [p.tag]);
      Judge(ParseTree(p.tag, content, offset, p.contentStart - offset, path)) ==
        if violation.Some? then NotStrict(Failure(violation.value, offset, path))
        else if !IsConstructedTag(p.tag) then Strict
        else if inner.Err? then Judge(inner)
        else if p.tag == TAG_SET && !SetOrderingOk(content) then NotStrict(Failure(NonCanonicalSet, offset, path))
        else Strict
  {
  }

  method CheckContent(buf: bytes, tag: byte, start: nat, end: nat) returns (r: Option<Reason>)
    requires start <= end <= |buf|
    ensures r == ContentViolation(tag, buf[start..end])
  {
    var len := end - start;
    if tag == TAG_INTEGER {
      if !CheckIntegerAt(buf, start, len) { return Some(NonCanonicalInteger); }
    } else if tag == TAG_BOOLEAN {
      if !CheckBooleanAt(buf, start, len) { return Some(NonCanonicalBoolean); }
    } else if tag == TAG_BIT_STRING {
      if !CheckBitStringAt(buf, start, len) { return Some(NonCanonicalBitString); }
    } else if tag == TAG_NULL {
      if !CheckNullAt(buf, start, len) { return Some(NonCanonicalNull); }
    } else if tag == TAG_OID {
      var ok := CheckOid(buf, start, len);
      if !ok { return Some(NonCanonicalOid); }
    }
    return None;
  }

  function SplitIn(buf: bytes, start: nat, end: nat): Option<seq<bytes>>
    requires start <= end <= |buf|
  {
    Split(buf[start..end])
  }

  lemma SplitInStep(buf: bytes, off: nat, end: nat)
    requires off < end <= |buf|
    ensures var r := HeaderIn(buf, off, end);
      SplitIn(buf, off, end) ==
        if r.Err? then None
        else Prepend([buf[off..r.value.contentEnd]], SplitIn(buf, r.value.contentEnd, end))
  {
    var r := ReadHeader(buf[off..end]);
    if r.Ok? {
      var n := r.value.headerLen + r.value.contentLen;
      assert buf[off..end][n..] == buf[off + n..end];
      assert buf[off..end][..n] == buf[off..off + n];
    }
  }

  datatype Range = Range(start: nat, len: nat)

  predicate InBuffer(ranges: seq<Range>, buf: bytes) {
    forall i :: 0 <= i < |ranges| ==> ranges[i].start + ranges[i].len <= |buf|
  }

  function Texts(buf: bytes, ranges: seq<Range>): (parts: seq<bytes>)
    requires InBuffer(ranges, buf)
    ensures |parts| == |ranges|
  {
    seq(|ranges|, i requires 0 <= i < |ranges| && InBuffer(ranges, buf) =>
      buf[ranges[i].start..ranges[i].start + ranges[i].len])
  }

  method CollectRanges(buf: bytes, contentStart: nat, contentEnd: nat) returns (ok: bool, ranges: seq<Range>)
    requires contentStart <= contentEnd <= |buf|
    ensures InBuffer(ranges, buf)
    ensures ok == SplitIn(buf, contentStart, contentEnd).Some?
    ensures ok ==> SplitIn(buf, contentStart, contentEnd).value == Texts(buf, ranges)
  {
    ranges := [];
    var off := contentStart;
    PrependNothing(SplitIn(buf, off, contentEnd));
    assert Texts(buf, ranges) == [];
    while off < contentEnd
      invariant contentStart <= off <= contentEnd
      invariant InBuffer(ranges, buf)
      invariant SplitIn(buf, contentStart, contentEnd) == Prepend(Texts(buf, ranges), SplitIn(buf, off, contentEnd))
    {
      var childStart := off;
      SplitInStep(buf, off, contentEnd);
      var hr := ParseHeader(buf, off, contentEnd);
      if hr.Err? { return false, []; }
      var child := Range(childStart, hr.value.contentEnd - childStart);
      PrependOne(Texts(buf, ranges), buf[childStart..hr.value.contentEnd], SplitIn(buf, hr.value.contentEnd, contentEnd));
      assert Texts(buf, ranges + [child]) == Texts(buf, ranges) + [buf[childStart..hr.value.contentEnd]];
      ranges := ranges + [child];
      off := hr.value.contentEnd;
    }
    assert Texts(buf, ranges) + [] == Texts(buf, ranges);
    return true, ranges;
  }

  lemma PrependNothing(r: Option<seq<bytes>>)
    ensures Prepend([], r) == r
  {
    if r.Some? { assert [] + r.value == r.value; }
  }

  lemma PrependOne(front: seq<bytes>, part: bytes, r: Option<seq<bytes>>)
    ensures Prepend(front, Prepend([part], r)) == Prepend(front + [part], r)
  {
    if r.Some? { assert front + ([part] + r.value) == (front + [part]) + r.value; }
  }

  function Prepend(front: seq<bytes>, r: Option<seq<bytes>>): Option<seq<bytes>> {
    if r.None? then None else Some(front + r.value)
  }

  method CheckSetOrdering(buf: bytes, contentStart: nat, contentEnd: nat) returns (ok: bool)
    requires contentStart <= contentEnd <= |buf|
    ensures ok == SetOrderingOk(buf[contentStart..contentEnd])
  {
    var found, ranges := CollectRanges(buf, contentStart, contentEnd);
    if !found { return false; }
    ghost var parts := Texts(buf, ranges);
    var i := 1;
    while i < |ranges|
      invariant 1 <= i && (i <= |ranges| || |ranges| == 0)
      invariant forall k :: 0 < k < i && k < |parts| ==> LexLeq(parts[k - 1], parts[k])
    {
      var prev, cur := ranges[i - 1], ranges[i];
      var c := CompareBytesLex(buf, prev.start, prev.len, cur.start, cur.len);
      if c > 0 {
        assert !LexLeq(parts[i - 1], parts[i]);
        return false;
      }
      i := i + 1;
    }
    return true;
  }

  /** walk: the loop over the TLVs in buf[start..end], recursing into constructed ones. */
  method Walk(buf: bytes, start: nat, end: nat, path: seq<byte>) returns (r: Verdict)
    requires start <= end <= |buf|
    ensures r == Judge(ParseIn(buf, start, end, path))
    decreases end - start
  {
    var offset := start;
    while offset < end
      invariant start <= offset <= end
      invariant Judge(ParseIn(buf, start, end, path)) == Judge(ParseIn(buf, offset, end, path))
    {
      ParseInStep(buf, offset, end, path);
      var hr := ParseHeader(buf, offset, end);
      if hr.Err? { return NotStrict(Failure(hr.error, offset, path)); }
      TreeJudged(buf, hr.value, offset, path);
      var ParsedHeader(tag, contentStart, contentEnd) := hr.value;
      var childPath := path + [tag];
      var violation := CheckContent(buf, tag, contentStart, contentEnd);
      if violation.Some? { return NotStrict(Failure(violation.value, offset, path)); }
      if IsConstructedTag(tag) {
        var inner := Walk(buf, contentStart, contentEnd, childPath);
        if inner.NotStrict? { return inner; }
        if tag == TAG_SET {
          var ordered := CheckSetOrdering(buf, contentStart, contentEnd);
          if !ordered { return NotStrict(Failure(NonCanonicalSet, offset, path)); }
        }
      }
      offset := contentEnd;
    }
    return Strict;
  }

  /** isStrictDER accepts exactly the printed forms, and reports the parser's failure otherwise. */
  method IsStrictDER(buf: bytes) returns (r: Verdict)
    ensures r == Judge(Parse(buf, 0, []))
    ensures r.Strict? <==> IsPrinted(buf)
    ensures forall e :: r == NotStrict(e) <==> IsFirst(buf, 0, [], e)
  {
    assert buf[0..|buf|] == buf;
    StrictIsPrinted(buf);
    forall e ensures Fails(buf, 0, [], e) <==> IsFirst(buf, 0, [], e) { FailureIsFirst(buf, 0, [], e); }
    r := Walk(buf, 0, |buf|, []);
  }
}
