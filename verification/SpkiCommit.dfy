/** The P-256 key commitment Poseidon2(Poseidon6(X limbs), Poseidon6(Y limbs)): the reference
    (packages/circuits/scripts/spki-commit-ref.ts), which checks the whole DER prefix, and the
    flattener's copy (packages/lotl-flattener/src/ca/spkiCommit.ts), which checks only the
    length. The hash is a parameter. */
module SpkiCommit {
  import opened Bytes
  import opened Limbs
  import opened Results
  import DerContent
  import DerTlv
  import DerStrict

  type Poseidon = seq<int> -> int

  datatype SpkiError = BadLength | BadPrefix

  const SPKI_LENGTH: nat := 91
  const OID_EC_PUBLIC_KEY: bytes := [0x2a, 0x86, 0x48, 0xce, 0x3d, 0x02, 0x01]
  const OID_P256: bytes := [0x2a, 0x86, 0x48, 0xce, 0x3d, 0x03, 0x01, 0x07]
  const SPKI_PREFIX: bytes :=
    [0x30, 0x59, 0x30, 0x13, 0x06, 0x07, 0x2a, 0x86, 0x48, 0xce, 0x3d, 0x02, 0x01,
     0x06, 0x08, 0x2a, 0x86, 0x48, 0xce, 0x3d, 0x03, 0x01, 0x07,
     0x03, 0x42, 0x00, 0x04]

  predicate IsCanonicalSpki(spki: bytes) {
    |spki| == SPKI_LENGTH && SPKI_PREFIX <= spki
  }

  datatype ParsedSpki = ParsedSpki(x: bytes, y: bytes)

  function ParseP256Spki(spki: bytes): (r: Result<ParsedSpki, SpkiError>)
    ensures r.Ok? ==> |r.value.x| == |r.value.y| == 32
  {
    if |spki| != SPKI_LENGTH then Err(BadLength)
    else if spki[..|SPKI_PREFIX|] != SPKI_PREFIX then Err(BadPrefix)
    else Ok(ParsedSpki(spki[27..59], spki[59..91]))
  }

  function CommitOf(poseidon: Poseidon, x: bytes, y: bytes): int {
    poseidon([poseidon(Limbs643(x)), poseidon(Limbs643(y))])
  }

  function RefCommit(poseidon: Poseidon, spki: bytes): Result<int, SpkiError> {
    match ParseP256Spki(spki)
    case Err(e) => Err(e)
    case Ok(p) => Ok(CommitOf(poseidon, p.x, p.y))
  }

  function FlattenerCommit(poseidon: Poseidon, spki: bytes): Result<int, SpkiError> {
    if |spki| != SPKI_LENGTH then Err(BadLength)
    else Ok(CommitOf(poseidon, spki[27..59], spki[59..91]))
  }

  method SpkiCommitRef(poseidon: Poseidon, spki: bytes) returns (r: Result<int, SpkiError>)
    ensures r == RefCommit(poseidon, spki)
  {
    var parsed := ParseP256Spki(spki);
    if parsed.Err? { return Err(parsed.error); }
    var xLimbs := DecomposeByIndex(parsed.value.x);
    var yLimbs := DecomposeByIndex(parsed.value.y);
    var xHash := poseidon(xLimbs.value);
    var yHash := poseidon(yLimbs.value);
    return Ok(poseidon([xHash, yHash]));
  }

  method SpkiCommitFlattener(poseidon: Poseidon, spki: bytes) returns (r: Result<int, SpkiError>)
    ensures r == FlattenerCommit(poseidon, spki)
  {
    if |spki| != SPKI_LENGTH { return Err(BadLength); }
    var xLimbs := DecomposeByIndex(spki[27..59]);
    var yLimbs := DecomposeByIndex(spki[59..91]);
    var xHash := poseidon(xLimbs.value);
    var yHash := poseidon(yLimbs.value);
    return Ok(poseidon([xHash, yHash]));
  }

  // ----- Agreement -----

  predicate SameOutcome(a: Result<int, SpkiError>, b: Result<int, SpkiError>) {
    (a.Ok? <==> b.Ok?) && (a.Ok? ==> a.value == b.value)
  }

  /** The two copies agree except on 91 bytes that do not start with the P-256 prefix, which
      only the reference refuses. */
  lemma CopiesAgree(poseidon: Poseidon, spki: bytes)
    ensures SameOutcome(RefCommit(poseidon, spki), FlattenerCommit(poseidon, spki))
            <==> |spki| != SPKI_LENGTH || IsCanonicalSpki(spki)
  {
  }

  /** What is hashed: whatever the hash, the commitment of a key is that of any two lists of six
      43-bit limbs which spell the octets 27 to 58, first, and 59 to 90. */
  lemma CommitmentOfPoint(poseidon: Poseidon, spki: bytes, x: seq<nat>, y: seq<nat>)
    requires |spki| == 91 && |x| == |y| == 6 && AreLimbs(x) && AreLimbs(y)
    requires Value(x) == BE(spki[27..59]) && Value(y) == BE(spki[59..91])
    ensures FlattenerCommit(poseidon, spki) == Ok(poseidon([poseidon(x), poseidon(y)]))
    ensures SPKI_PREFIX <= spki ==> RefCommit(poseidon, spki) == FlattenerCommit(poseidon, spki)
  {
    LimbsAreDigits(x);
    LimbsAreDigits(y);
  }

  /** The refusals, in order. */
  lemma Refusals(poseidon: Poseidon, spki: bytes)
    ensures FlattenerCommit(poseidon, spki) == Err(BadLength) <==> |spki| != 91
    ensures RefCommit(poseidon, spki) == Err(BadLength) <==> |spki| != 91
    ensures RefCommit(poseidon, spki) == Err(BadPrefix) <==> |spki| == 91 && !(SPKI_PREFIX <= spki)
  {
  }

  // ----- Injectivity -----

  ghost predicate CollisionFree(poseidon: Poseidon) {
    forall a, b :: |a| == |b| && poseidon(a) == poseidon(b) ==> a == b
  }

  ghost predicate Collide(poseidon: Poseidon, a: seq<int>, b: seq<int>) {
    |a| == |b| && a != b && poseidon(a) == poseidon(b)
  }

  /** The three inputs that a commitment hashes. */
  function OuterInput(poseidon: Poseidon, x: bytes, y: bytes): seq<int> {
    [poseidon(Limbs643(x)), poseidon(Limbs643(y))]
  }

  /** Of any hash: two different points with one commitment give one value to two different
      inputs of the hash, at the outer hash or at a coordinate. */
  lemma CommitsCollide(poseidon: Poseidon, x: bytes, y: bytes, x': bytes, y': bytes)
    requires |x| == |y| == |x'| == |y'| == 32 && (x != x' || y != y')
    requires CommitOf(poseidon, x, y) == CommitOf(poseidon, x', y')
    ensures || Collide(poseidon, OuterInput(poseidon, x, y), OuterInput(poseidon, x', y'))
            || Collide(poseidon, Limbs643(x), Limbs643(x'))
            || Collide(poseidon, Limbs643(y), Limbs643(y'))
  {
    var outer, outer' := OuterInput(poseidon, x, y), OuterInput(poseidon, x', y');
    assert CommitOf(poseidon, x, y) == poseidon(outer) && CommitOf(poseidon, x', y') == poseidon(outer');
    if outer == outer' {
      assert outer[0] == outer'[0] && outer[1] == outer'[1];
      if x != x' { DifferentLimbs(x, x'); } else { DifferentLimbs(y, y'); }
    }
  }

  lemma DifferentLimbs(a: bytes, b: bytes)
    requires |a| == |b| == 32 && a != b
    ensures |Limbs643(a)| == |Limbs643(b)| && Limbs643(a) != Limbs643(b)
  {
    if Limbs643(a) == Limbs643(b) { Limbs643Injective(a, b); }
  }

  lemma CommitInjective(poseidon: Poseidon, x: bytes, y: bytes, x': bytes, y': bytes)
    requires CollisionFree(poseidon) && |x| == |y| == |x'| == |y'| == 32
    requires CommitOf(poseidon, x, y) == CommitOf(poseidon, x', y')
    ensures x == x' && y == y'
  {
    if x != x' || y != y' { CommitsCollide(poseidon, x, y, x', y'); }
  }

  /** Of any hash: two different keys that the reference accepts share a commitment only with a
      collision of the hash on their own coordinates. */
  lemma AcceptedKeysCollide(poseidon: Poseidon, a: bytes, b: bytes)
    requires IsCanonicalSpki(a) && IsCanonicalSpki(b) && a != b
    requires RefCommit(poseidon, a) == RefCommit(poseidon, b)
    ensures || Collide(poseidon, OuterInput(poseidon, a[27..59], a[59..91]), OuterInput(poseidon, b[27..59], b[59..91]))
            || Collide(poseidon, Limbs643(a[27..59]), Limbs643(b[27..59]))
            || Collide(poseidon, Limbs643(a[59..91]), Limbs643(b[59..91]))
  {
    ThreeFields(a);
    ThreeFields(b);
    CommitsCollide(poseidon, a[27..59], a[59..91], b[27..59], b[59..91]);
  }

  /** Two keys that the reference accepts share a commitment only if they are the same bytes. */
  lemma RefInjective(poseidon: Poseidon, a: bytes, b: bytes)
    requires CollisionFree(poseidon) && IsCanonicalSpki(a) && IsCanonicalSpki(b)
    ensures RefCommit(poseidon, a).Ok? && RefCommit(poseidon, b).Ok?
    ensures RefCommit(poseidon, a) == RefCommit(poseidon, b) <==> a == b
  {
    if RefCommit(poseidon, a) == RefCommit(poseidon, b) {
      CommitInjective(poseidon, a[27..59], a[59..91], b[27..59], b[59..91]);
      ThreeFields(a);
      ThreeFields(b);
    }
  }

  /** The flattener's copy ignores the first 27 bytes: it is injective on the rest only. */
  lemma FlattenerInjectiveOnPoint(poseidon: Poseidon, a: bytes, b: bytes)
    requires CollisionFree(poseidon) && |a| == |b| == SPKI_LENGTH
    ensures FlattenerCommit(poseidon, a) == FlattenerCommit(poseidon, b) <==> a[27..] == b[27..]
  {
    ThreeFields(a);
    ThreeFields(b);
    if a[27..] == b[27..] {
      assert forall k :: 27 <= k < 91 ==> a[k] == a[27..][k - 27] && b[k] == b[27..][k - 27];
      assert a[27..59] == b[27..59] && a[59..91] == b[59..91];
    }
    if FlattenerCommit(poseidon, a) == FlattenerCommit(poseidon, b) {
      CommitInjective(poseidon, a[27..59], a[59..91], b[27..59], b[59..91]);
    }
  }

  lemma ThreeFields(s: bytes)
    requires |s| == SPKI_LENGTH
    ensures s == s[..27] + s[27..59] + s[59..91] && s[27..] == s[27..59] + s[59..91]
  {
  }

  // ----- Accepted keys are strict DER -----

  function SpkiTree(x: bytes, y: bytes, point: bytes): DerTlv.Tlv {
    DerTlv.Constructed(0x30, [
      DerTlv.Constructed(0x30, [DerTlv.Primitive(0x06, x), DerTlv.Primitive(0x06, y)]),
      DerTlv.Primitive(0x03, [0x00, 0x04] + point)])
  }

  lemma OidsCanonical()
    ensures DerContent.OidOk(OID_EC_PUBLIC_KEY) && DerContent.OidOk(OID_P256)
  {
    EcPublicKeyOid();
    P256Oid();
    DerContent.OidRoundTrip([42, 840, 10045, 2, 1]);
    DerContent.OidRoundTrip([42, 840, 10045, 3, 1, 7]);
  }

  /** The three subidentifiers that the two identifiers share: 1.2, 840 and 10045. */
  lemma SharedArcs(subs: seq<nat>)
    ensures DerContent.EncodeOid([42, 840, 10045] + subs) == [0x2a, 0x86, 0x48, 0xce, 0x3d] + DerContent.EncodeOid(subs)
  {
    assert DerContent.EncodeSubId(42) == [0x2a] && DerContent.EncodeSubId(840) == [0x86, 0x48];
    assert DerContent.EncodeSubId(10045) == [0xce, 0x3d];
    assert [42, 840, 10045] + subs == [42] + ([840] + ([10045] + subs));
    DerContent.EncodeOidCons(42, [840] + ([10045] + subs));
    DerContent.EncodeOidCons(840, [10045] + subs);
    DerContent.EncodeOidCons(10045, subs);
  }

  lemma SmallArc(n: nat, subs: seq<nat>)
    requires n < 0x80
    ensures DerContent.EncodeOid([n] + subs) == [n] + DerContent.EncodeOid(subs)
  {
    DerContent.EncodeOidCons(n, subs);
    assert DerContent.EncodeSubId(n) == [n];
  }

  lemma EcPublicKeyOid()
    ensures DerContent.EncodeOid([42, 840, 10045, 2, 1]) == OID_EC_PUBLIC_KEY
  {
    SmallArc(1, []);
    SmallArc(2, [1]);
    SharedArcs([2, 1]);
    assert [42, 840, 10045, 2, 1] == [42, 840, 10045] + [2, 1];
  }

  lemma P256Oid()
    ensures DerContent.EncodeOid([42, 840, 10045, 3, 1, 7]) == OID_P256
  {
    SmallArc(7, []);
    SmallArc(1, [7]);
    SmallArc(3, [1, 7]);
    SharedArcs([3, 1, 7]);
    assert [42, 840, 10045, 3, 1, 7] == [42, 840, 10045] + [3, 1, 7];
  }

  lemma ShortTlv(t: DerTlv.Tlv, c: bytes)
    requires DerTlv.Content(t) == c && |c| < 0x80
    ensures DerTlv.Encode(t) == [t.tag, |c|] + c
  {
  }

  lemma AlgorithmEncoding(alg: DerTlv.Tlv, x: bytes, y: bytes)
    requires DerContent.OidOk(x) && DerContent.OidOk(y) && |x| + |y| + 4 < 0x80
    requires alg == DerTlv.Constructed(0x30, [DerTlv.Primitive(0x06, x), DerTlv.Primitive(0x06, y)])
    ensures DerTlv.Canonical(alg)
    ensures DerTlv.Encode(alg) == [0x30, |x| + |y| + 4] + (([0x06, |x|] + x) + ([0x06, |y|] + y))
  {
    var a, b := alg.children[0], alg.children[1];
    OidPrimitive(x);
    OidPrimitive(y);
    DerTlv.PairForest(a, b);
    ShortTlv(a, x);
    ShortTlv(b, y);
    ShortTlv(alg, ([0x06, |x|] + x) + ([0x06, |y|] + y));
  }

  lemma OidPrimitive(oid: bytes)
    requires DerContent.OidOk(oid) && |oid| < 0x80
    ensures DerTlv.Canonical(DerTlv.Primitive(0x06, oid))
  {
    DerContent.OidImage(oid);
  }

  lemma KeyEncoding(key: DerTlv.Tlv, point: bytes)
    requires |point| == 64 && key == DerTlv.Primitive(0x03, [0x00, 0x04] + point)
    ensures DerTlv.Canonical(key)
    ensures DerTlv.Encode(key) == [0x03, 0x42] + ([0x00, 0x04] + point)
  {
    DerContent.BitStringRule(key.content);
    ShortTlv(key, key.content);
  }

  /** The octets of a key whose algorithm is the identifier pair x, y. */
  function SpkiOctets(x: bytes, y: bytes, point: bytes): bytes
    requires |x| + |y| + |point| + 12 < 0x80
  {
    [0x30, |x| + |y| + |point| + 10]
    + (([0x30, |x| + |y| + 4] + (([0x06, |x|] + x) + ([0x06, |y|] + y))) + ([0x03, 0x42] + ([0x00, 0x04] + point)))
  }

  lemma TreeEncoding(x: bytes, y: bytes, point: bytes)
    requires DerContent.OidOk(x) && DerContent.OidOk(y) && |point| == 64 && |x| + |y| + 64 + 12 < 0x80
    ensures DerStrict.Prints([SpkiTree(x, y, point)], SpkiOctets(x, y, point))
  {
    var tree := SpkiTree(x, y, point);
    var alg, key := tree.children[0], tree.children[1];
    AlgorithmEncoding(alg, x, y);
    KeyEncoding(key, point);
    DerTlv.PairForest(alg, key);
    ShortTlv(tree, DerTlv.Encode(alg) + DerTlv.Encode(key));
    DerTlv.SingletonForest(tree);
  }

  lemma PrefixParts(spki: bytes)
    requires IsCanonicalSpki(spki)
    ensures spki == SpkiOctets(OID_EC_PUBLIC_KEY, OID_P256, spki[27..])
  {
    assert spki == SPKI_PREFIX + spki[27..];
  }

  /** Every key that the reference accepts passes the strict-DER guard. */
  lemma CanonicalSpkiIsStrict(spki: bytes)
    requires IsCanonicalSpki(spki)
    ensures DerStrict.IsStrict(spki)
  {
    OidsCanonical();
    PrefixParts(spki);
    TreeEncoding(OID_EC_PUBLIC_KEY, OID_P256, spki[27..]);
    DerStrict.StrictIsPrinted(spki);
  }
}
