/** The scans of packages/circuits/src/binding-offsets.ts and of findJcsKeyValueOffset
    (packages/sdk/src/core/index.ts) on any text whatever, printed binding or not: where each
    search begins, which offset it gives, and which error is reported. */
module BindingScan {
  import opened Results
  import opened BindingOffsets

  /** One search of the extractor: for a key, with its value quoted or not, in the whole text or
      only behind the literal of the policy. */
  datatype Search = Search(key: text, quoted: bool, inPolicy: bool)

  /** The thirteen searches, in the order in which they are made. */
  function SearchNo(i: nat): Search {
    match i
    case 0 => Search("pk", true, false)
    case 1 => Search("scheme", true, false)
    case 2 => Search("assertions", false, false)
    case 3 => Search("statementSchema", true, false)
    case 4 => Search("nonce", true, false)
    case 5 => Search("context", true, false)
    case 6 => Search("timestamp", false, false)
    case 7 => Search("version", true, false)
    case 8 => Search("policy", false, false)
    case 9 => Search("bindingSchema", true, true)
    case 10 => Search("leafHash", true, true)
    case 11 => Search("policyId", true, true)
    case _ => Search("policyVersion", false, true)
  }

  /** The literal of a key: quote, key, quote, colon. */
  function Literal(key: text): text {
    "\"" + key + "\":"
  }

  /** p is the first place, from start on, where the literal of the key stands. */
  ghost predicate StandsFirst(t: text, key: text, start: nat, p: nat) {
    start <= p && MatchesAt(t, Literal(key), p) && forall q: nat :: start <= q < p ==> !MatchesAt(t, Literal(key), q)
  }

  ghost predicate IsMissing(t: text, key: text, start: nat) {
    forall q: nat :: start <= q ==> !MatchesAt(t, Literal(key), q)
  }

  /** Where a search begins: at the front, or right behind the first literal of the policy. */
  ghost predicate BeginsAt(t: text, s: Search, start: nat) {
    if s.inPolicy then start >= 9 && StandsFirst(t, "policy", 0, start - 9) else start == 0
  }

  /** The search ends at this offset: the octet behind the literal, or the one behind the quote. */
  ghost predicate Gives(t: text, s: Search, offset: nat) {
    exists start: nat, p: nat :: BeginsAt(t, s, start) && StandsFirst(t, s.key, start, p)
      && offset == p + |s.key| + if s.quoted then 4 else 3
  }

  ghost predicate FailsToFind(t: text, s: Search) {
    exists start: nat :: BeginsAt(t, s, start) && IsMissing(t, s.key, start)
  }

  ghost predicate FindsSomething(t: text, i: nat) {
    exists offset :: Gives(t, SearchNo(i), offset)
  }

  /** The offset that search i contributes; the one of the policy is not returned. */
  function OffsetNo(o: Offsets, i: nat): nat
    requires i < 13 && i != 8
  {
    match i
    case 0 => o.pk case 1 => o.scheme case 2 => o.assertions case 3 => o.statementSchema case 4 => o.nonce
    case 5 => o.ctx case 6 => o.ts case 7 => o.version
    case 9 => o.policyBindingSchema case 10 => o.policyLeafHash case 11 => o.policyId case _ => o.policyVersion
  }

  /** What a successful extraction returns: the offset of each search, and four lengths. */
  ghost predicate GivesAll(t: text, o: Offsets) {
    && (forall i: nat :: i < 13 && i != 8 ==> Gives(t, SearchNo(i), OffsetNo(o, i)))
    && HasLengths(t, o)
  }

  predicate HasLengths(t: text, o: Offsets) {
    && o.ctxHexLen + 2 == QuotedLength(t, o.ctx) && t[o.ctx..o.ctx + 2] == "0x"
    && o.policyIdLen == QuotedLength(t, o.policyId)
    && o.tsDigits == NumberLength(t, o.ts) && o.policyVersionDigits == NumberLength(t, o.policyVersion)
  }

  /** Search i is the first that finds nothing. */
  ghost predicate FailsFirst(t: text, i: nat) {
    FailsToFind(t, SearchNo(i)) && forall j: nat :: j < i ==> FindsSomething(t, j)
  }

  /** The context is at this offset, and does not begin with 0x. */
  ghost predicate IsPlainContext(t: text, ctx: nat) {
    Gives(t, SearchNo(5), ctx) && !(QuotedLength(t, ctx) >= 2 && t[ctx..ctx + 2] == "0x")
  }

  /** What an error says: the first search in order that finds nothing, or all of them found
      something and the context does not begin with 0x. */
  ghost predicate Explains(t: text, e: ScanError) {
    match e
    case KeyNotFound(needle) =>
      exists i: nat :: i < 13 && FailsFirst(t, i) && needle == Literal(SearchNo(i).key)
    case ContextNotHex(length) =>
      && (forall j: nat :: j < 13 ==> FindsSomething(t, j))
      && exists ctx: nat :: IsPlainContext(t, ctx) && length == QuotedLength(t, ctx)
  }

  // ----- One search -----

  lemma LiteralIsNeedle(key: text)
    ensures Literal(key) == Needle(key) && |Literal(key)| == |key| + 3
  {
  }

  /** The search with its start, as the extractor makes it. */
  function StartOf(t: text, s: Search): Result<nat, ScanError> {
    if s.inPolicy then KeyEnd(t, "policy", 0) else Ok(0)
  }

  function ResultOf(t: text, s: Search): Result<nat, ScanError> {
    var start :- StartOf(t, s);
    ValueStart(t, s.key, s.quoted, start)
  }

  lemma KeyEndIs(t: text, key: text, start: nat)
    ensures var r := KeyEnd(t, key, start);
      if r.Ok? then r.value >= |key| + 3 && StandsFirst(t, key, start, r.value - |key| - 3)
      else r.error == KeyNotFound(Literal(key)) && IsMissing(t, key, start)
  {
    LiteralIsNeedle(key);
  }

  lemma FirstIsOne(t: text, key: text, start: nat, p: nat, q: nat)
    requires StandsFirst(t, key, start, p) && StandsFirst(t, key, start, q)
    ensures p == q
  {
  }

  lemma StartIsOne(t: text, s: Search, a: nat, b: nat)
    requires BeginsAt(t, s, a) && BeginsAt(t, s, b)
    ensures a == b
  {
    if s.inPolicy { FirstIsOne(t, "policy", 0, a - 9, b - 9); }
  }

  lemma StartOfBegins(t: text, s: Search)
    ensures StartOf(t, s).Ok? ==> BeginsAt(t, s, StartOf(t, s).value)
    ensures StartOf(t, s).Err? ==> s.inPolicy && IsMissing(t, "policy", 0)
  {
    KeyEndIs(t, "policy", 0);
  }

  /** A search gives an offset or fails, as the extractor's own result says, and not both. */
  lemma SearchIs(t: text, s: Search, offset: nat)
    ensures ResultOf(t, s) == Ok(offset) <==> Gives(t, s, offset)
    ensures FailsToFind(t, s) ==> ResultOf(t, s) == Err(KeyNotFound(Literal(s.key)))
    ensures ResultOf(t, s).Err? && StartOf(t, s).Ok? ==> FailsToFind(t, s)
  {
    StartOfBegins(t, s);
    var from := StartOf(t, s);
    if from.Ok? {
      KeyEndIs(t, s.key, from.value);
      forall start: nat | BeginsAt(t, s, start) ensures start == from.value { StartIsOne(t, s, start, from.value); }
      forall p: nat, q: nat | StandsFirst(t, s.key, from.value, p) && StandsFirst(t, s.key, from.value, q) ensures p == q {
        FirstIsOne(t, s.key, from.value, p, q);
      }
    }
  }

  // ----- All searches -----

  type Found = Result<nat, ScanError>

  /** The index of the first error, or the number of results. */
  function FirstError(rs: seq<Found>): (k: nat)
    ensures k <= |rs| && (k < |rs| ==> rs[k].Err?)
    ensures forall j :: 0 <= j < k ==> rs[j].Ok?
  {
    if rs != [] && rs[0].Ok? then 1 + FirstError(rs[1..]) else 0
  }

  /** Results one after the other, up to the first error. */
  function TopOf(rs: seq<Found>): Result<TopOffsets, ScanError>
    requires |rs| == 9
  {
    var pk :- rs[0];
    var scheme :- rs[1];
    var assertions :- rs[2];
    var statementSchema :- rs[3];
    var nonce :- rs[4];
    var ctx :- rs[5];
    var ts :- rs[6];
    var version :- rs[7];
    var block :- rs[8];
    Ok(TopOffsets(pk, scheme, assertions, statementSchema, nonce, ctx, ts, version, block))
  }

  lemma TopOfIs(rs: seq<Found>)
    requires |rs| == 9
    ensures var k := FirstError(rs);
      TopOf(rs) == if k < 9 then Err(rs[k].error)
                   else Ok(TopOffsets(rs[0].value, rs[1].value, rs[2].value, rs[3].value, rs[4].value,
                                      rs[5].value, rs[6].value, rs[7].value, rs[8].value))
  {
  }

  lemma TopScanIs(t: text)
    ensures TopScan(t) == TopOf(
      [ ValueStart(t, "pk", true, 0), ValueStart(t, "scheme", true, 0), KeyEnd(t, "assertions", 0),
        ValueStart(t, "statementSchema", true, 0), ValueStart(t, "nonce", true, 0), ValueStart(t, "context", true, 0),
        ValueStart(t, "timestamp", false, 0), ValueStart(t, "version", true, 0), KeyEnd(t, "policy", 0) ])
  {
  }

  function PolicyOf(rs: seq<Found>): Result<PolicyOffsets, ScanError>
    requires |rs| == 4
  {
    var bindingSchema :- rs[0];
    var leafHash :- rs[1];
    var policyId :- rs[2];
    var policyVersion :- rs[3];
    Ok(PolicyOffsets(bindingSchema, leafHash, policyId, policyVersion))
  }

  lemma PolicyOfIs(rs: seq<Found>)
    requires |rs| == 4
    ensures var k := FirstError(rs);
      PolicyOf(rs) == if k < 4 then Err(rs[k].error)
                      else Ok(PolicyOffsets(rs[0].value, rs[1].value, rs[2].value, rs[3].value))
  {
  }

  lemma PolicyScanIs(t: text, block: nat)
    ensures PolicyScan(t, block) == PolicyOf(
      [ ValueStart(t, "bindingSchema", true, block), ValueStart(t, "leafHash", true, block),
        ValueStart(t, "policyId", true, block), ValueStart(t, "policyVersion", false, block) ])
  {
  }

  // ----- The results of the numbered searches -----

  /** The results of the searches i to i + n - 1. */
  function ResultsOf(t: text, i: nat, n: nat): (rs: seq<Found>)
    ensures |rs| == n && forall j :: 0 <= j < n ==> rs[j] == ResultOf(t, SearchNo(i + j))
  {
    seq(n, j requires 0 <= j < n => ResultOf(t, SearchNo(i + j)))
  }

  lemma Unscoped(t: text, s: Search)
    requires !s.inPolicy
    ensures ResultOf(t, s) == ValueStart(t, s.key, s.quoted, 0)
    ensures !s.quoted ==> ResultOf(t, s) == KeyEnd(t, s.key, 0)
  {
  }

  lemma Scoped(t: text, s: Search, block: nat)
    requires s.inPolicy && KeyEnd(t, "policy", 0) == Ok(block)
    ensures ResultOf(t, s) == ValueStart(t, s.key, s.quoted, block)
  {
  }

  lemma TopIsNumbered(t: text)
    ensures TopScan(t) == TopOf(ResultsOf(t, 0, 9))
  {
    TopScanIs(t);
    forall i: nat | i < 9 ensures !SearchNo(i).inPolicy {}
    Unscoped(t, SearchNo(0));
    Unscoped(t, SearchNo(1));
    Unscoped(t, SearchNo(2));
    Unscoped(t, SearchNo(3));
    Unscoped(t, SearchNo(4));
    Unscoped(t, SearchNo(5));
    Unscoped(t, SearchNo(6));
    Unscoped(t, SearchNo(7));
    Unscoped(t, SearchNo(8));
  }

  lemma PolicyNumbers(t: text, block: nat)
    requires KeyEnd(t, "policy", 0) == Ok(block)
    ensures ResultOf(t, SearchNo(9)) == ValueStart(t, "bindingSchema", true, block)
    ensures ResultOf(t, SearchNo(10)) == ValueStart(t, "leafHash", true, block)
    ensures ResultOf(t, SearchNo(11)) == ValueStart(t, "policyId", true, block)
    ensures ResultOf(t, SearchNo(12)) == ValueStart(t, "policyVersion", false, block)
  {
    Scoped(t, SearchNo(9), block);
    Scoped(t, SearchNo(10), block);
    Scoped(t, SearchNo(11), block);
    Scoped(t, SearchNo(12), block);
  }

  lemma PolicyIsNumbered(t: text, block: nat)
    requires KeyEnd(t, "policy", 0) == Ok(block)
    ensures PolicyScan(t, block) == PolicyOf(ResultsOf(t, 9, 4))
  {
    PolicyNumbers(t, block);
    PolicyScanIs(t, block);
    var rs := ResultsOf(t, 9, 4);
    assert rs == [rs[0], rs[1], rs[2], rs[3]];
  }

  function TopFrom(rs: seq<Found>): TopOffsets
    requires |rs| >= 9 && forall j :: 0 <= j < 9 ==> rs[j].Ok?
  {
    TopOffsets(rs[0].value, rs[1].value, rs[2].value, rs[3].value, rs[4].value,
               rs[5].value, rs[6].value, rs[7].value, rs[8].value)
  }

  function PolicyFrom(rs: seq<Found>): PolicyOffsets
    requires |rs| == 13 && forall j :: 9 <= j < 13 ==> rs[j].Ok?
  {
    PolicyOffsets(rs[9].value, rs[10].value, rs[11].value, rs[12].value)
  }

  /** What comes of thirteen results: the first error, or the offsets with their lengths. */
  function Collected(t: text, rs: seq<Found>): Result<Offsets, ScanError>
    requires |rs| == 13
  {
    if FirstError(rs) < 13 then Err(rs[FirstError(rs)].error) else WithLengths(t, TopFrom(rs), PolicyFrom(rs))
  }

  lemma {:induction false} FirstErrorOfParts(rs: seq<Found>, more: seq<Found>)
    ensures FirstError(rs + more) == if FirstError(rs) < |rs| then FirstError(rs) else |rs| + FirstError(more)
  {
    if rs == [] {
      assert rs + more == more;
    } else {
      FirstErrorOfParts(rs[1..], more);
      assert (rs + more)[1..] == rs[1..] + more;
    }
  }

  lemma AllResults(t: text)
    ensures ResultsOf(t, 0, 13) == ResultsOf(t, 0, 9) + ResultsOf(t, 9, 4)
  {
  }

  lemma BlockIsNumbered(t: text)
    ensures ResultsOf(t, 0, 9)[8] == KeyEnd(t, "policy", 0)
  {
    Unscoped(t, SearchNo(8));
  }

  lemma ExtractedIsCollected(t: text)
    ensures ExtractedOffsets(t) == Collected(t, ResultsOf(t, 0, 13))
  {
    var top, policy := ResultsOf(t, 0, 9), ResultsOf(t, 9, 4);
    AllResults(t);
    FirstErrorOfParts(top, policy);
    TopIsNumbered(t);
    TopOfIs(top);
    if FirstError(top) == 9 {
      BlockIsNumbered(t);
      PolicyIsNumbered(t, top[8].value);
      PolicyOfIs(policy);
      BothScans(t, TopFrom(top), PolicyOf(policy));
    }
  }

  lemma BothScans(t: text, top: TopOffsets, policy: Result<PolicyOffsets, ScanError>)
    requires TopScan(t) == Ok(top) && policy == PolicyScan(t, top.block)
    ensures policy.Err? ==> ExtractedOffsets(t) == Err(policy.error)
    ensures policy.Ok? ==> ExtractedOffsets(t) == WithLengths(t, top, policy.value)
  {
  }

  // ----- What the extractor returns -----

  predicate IsOk(t: text, i: nat) {
    ResultOf(t, SearchNo(i)).Ok?
  }

  predicate AllOk(t: text, n: nat) {
    forall j: nat :: j < n ==> IsOk(t, j)
  }

  lemma SearchResult(t: text, i: nat)
    requires i < 13 && AllOk(t, i)
    ensures var r := ResultOf(t, SearchNo(i));
      if r.Ok? then Gives(t, SearchNo(i), r.value)
      else r.error == KeyNotFound(Literal(SearchNo(i).key)) && FailsToFind(t, SearchNo(i))
  {
    var r := ResultOf(t, SearchNo(i));
    SearchIs(t, SearchNo(i), if r.Ok? then r.value else 0);
    if r.Err? {
      ScopeIsFound(t, i);
    }
  }

  lemma ScopeIsFound(t: text, i: nat)
    requires i < 13 && AllOk(t, i)
    ensures StartOf(t, SearchNo(i)).Ok?
  {
    if i > 8 {
      assert IsOk(t, 8);
      Unscoped(t, SearchNo(8));
    } else {
      assert !SearchNo(i).inPolicy;
    }
  }

  lemma GivenIsOk(t: text, s: Search, offset: nat)
    requires Gives(t, s, offset)
    ensures ResultOf(t, s) == Ok(offset)
  {
    SearchIs(t, s, offset);
  }

  lemma PolicyIsFound(t: text, offset: nat)
    requires Gives(t, SearchNo(9), offset)
    ensures ResultOf(t, SearchNo(8)).Ok?
  {
    GivenIsOk(t, SearchNo(9), offset);
    Unscoped(t, SearchNo(8));
  }

  /** The offsets that the results stand for. */
  predicate HoldsOffsets(rs: seq<Found>, o: Offsets)
    requires |rs| == 13
  {
    rs[8].Ok? && forall i: nat :: i < 13 && i != 8 ==> rs[i] == Ok(OffsetNo(o, i))
  }

  lemma CollectedHolds(t: text, rs: seq<Found>, o: Offsets)
    requires |rs| == 13
    ensures Collected(t, rs) == Ok(o) <==> HoldsOffsets(rs, o) && HasLengths(t, o)
  {
    if HoldsOffsets(rs, o) { assert FirstError(rs) == 13; }
    if FirstError(rs) == 13 { LengthsHold(t, rs, o); }
  }

  lemma LengthsHold(t: text, rs: seq<Found>, o: Offsets)
    requires |rs| == 13 && forall j :: 0 <= j < 13 ==> rs[j].Ok?
    ensures WithLengths(t, TopFrom(rs), PolicyFrom(rs)) == Ok(o) <==> HoldsOffsets(rs, o) && HasLengths(t, o)
  {
    var top, policy := TopFrom(rs), PolicyFrom(rs);
    TopHolds(rs, o);
    PolicyHolds(rs, o);
    assert HoldsOffsets(rs, o) <==> forall i: nat :: i < 13 && i != 8 ==> rs[i].value == OffsetNo(o, i);
    assert HoldsOffsets(rs, o) <==>
      && top == TopOffsets(o.pk, o.scheme, o.assertions, o.statementSchema, o.nonce, o.ctx, o.ts, o.version, top.block)
      && policy == PolicyOffsets(o.policyBindingSchema, o.policyLeafHash, o.policyId, o.policyVersion);
  }

  lemma TopHolds(rs: seq<Found>, o: Offsets)
    requires |rs| == 13 && forall j :: 0 <= j < 13 ==> rs[j].Ok?
    ensures var top := TopFrom(rs);
      (forall i: nat :: i < 8 ==> rs[i].value == OffsetNo(o, i)) <==>
        top == TopOffsets(o.pk, o.scheme, o.assertions, o.statementSchema, o.nonce, o.ctx, o.ts, o.version, top.block)
  {
    assert OffsetNo(o, 0) == o.pk && OffsetNo(o, 1) == o.scheme && OffsetNo(o, 2) == o.assertions;
    assert OffsetNo(o, 3) == o.statementSchema && OffsetNo(o, 4) == o.nonce && OffsetNo(o, 5) == o.ctx;
    assert OffsetNo(o, 6) == o.ts && OffsetNo(o, 7) == o.version;
  }

  lemma PolicyHolds(rs: seq<Found>, o: Offsets)
    requires |rs| == 13 && forall j :: 0 <= j < 13 ==> rs[j].Ok?
    ensures (forall i: nat :: 8 < i < 13 ==> rs[i].value == OffsetNo(o, i)) <==>
      PolicyFrom(rs) == PolicyOffsets(o.policyBindingSchema, o.policyLeafHash, o.policyId, o.policyVersion)
  {
    assert OffsetNo(o, 9) == o.policyBindingSchema && OffsetNo(o, 10) == o.policyLeafHash;
    assert OffsetNo(o, 11) == o.policyId && OffsetNo(o, 12) == o.policyVersion;
  }

  lemma ResultsAreGiven(t: text, o: Offsets)
    ensures HoldsOffsets(ResultsOf(t, 0, 13), o) <==> forall i: nat :: i < 13 && i != 8 ==> Gives(t, SearchNo(i), OffsetNo(o, i))
  {
    var rs := ResultsOf(t, 0, 13);
    forall i: nat | i < 13 && i != 8 ensures rs[i] == Ok(OffsetNo(o, i)) <==> Gives(t, SearchNo(i), OffsetNo(o, i)) {
      SearchIs(t, SearchNo(i), OffsetNo(o, i));
    }
    if Gives(t, SearchNo(9), OffsetNo(o, 9)) { PolicyIsFound(t, OffsetNo(o, 9)); }
  }

  /** Of every text: these are the offsets returned, if and only if each is where its search ends,
      and the context begins with 0x. */
  lemma ExtractionGives(t: text, o: Offsets)
    ensures ExtractedOffsets(t) == Ok(o) <==> GivesAll(t, o)
  {
    ExtractedIsCollected(t);
    CollectedHolds(t, ResultsOf(t, 0, 13), o);
    ResultsAreGiven(t, o);
  }

  ghost predicate AllFind(t: text, n: nat) {
    forall j: nat :: j < n ==> FindsSomething(t, j)
  }

  lemma FoundIsOk(t: text, i: nat)
    requires i < 13 && AllOk(t, i)
    ensures IsOk(t, i) <==> FindsSomething(t, i)
    ensures !IsOk(t, i) <==> FailsToFind(t, SearchNo(i))
    ensures !IsOk(t, i) ==> ResultOf(t, SearchNo(i)) == Err(KeyNotFound(Literal(SearchNo(i).key)))
  {
    SearchResult(t, i);
    forall offset: nat | Gives(t, SearchNo(i), offset) ensures IsOk(t, i) { GivenIsOk(t, SearchNo(i), offset); }
    SearchIs(t, SearchNo(i), 0);
  }

  lemma {:induction false} FoundBefore(t: text, i: nat)
    requires i <= 13
    ensures AllFind(t, i) <==> AllOk(t, i)
  {
    if i > 0 {
      FoundBefore(t, i - 1);
      assert AllFind(t, i) <==> AllFind(t, i - 1) && FindsSomething(t, i - 1);
      assert AllOk(t, i) <==> AllOk(t, i - 1) && IsOk(t, i - 1);
      if AllOk(t, i - 1) { FoundIsOk(t, i - 1); }
    }
  }

  lemma FirstErrorIs(t: text, i: nat)
    requires i <= 13
    ensures FirstError(ResultsOf(t, 0, 13)) == i <==> AllOk(t, i) && (i < 13 ==> !IsOk(t, i))
  {
    var rs := ResultsOf(t, 0, 13);
    assert forall j :: 0 <= j < 13 ==> (rs[j].Ok? <==> IsOk(t, j));
  }

  lemma FailsFirstIs(t: text, i: nat)
    requires i < 13
    ensures FailsFirst(t, i) <==> FirstError(ResultsOf(t, 0, 13)) == i
    ensures FailsFirst(t, i) ==> ResultOf(t, SearchNo(i)) == Err(KeyNotFound(Literal(SearchNo(i).key)))
  {
    FoundBefore(t, i);
    FirstErrorIs(t, i);
    assert FailsFirst(t, i) <==> FailsToFind(t, SearchNo(i)) && AllFind(t, i);
    if AllOk(t, i) { FoundIsOk(t, i); }
  }

  lemma PlainContext(t: text, ctx: nat)
    requires IsOk(t, 5)
    ensures IsPlainContext(t, ctx) <==> ctx == ResultOf(t, SearchNo(5)).value && !HexPrefixAt(t, ctx)
  {
    SearchIs(t, SearchNo(5), ctx);
  }

  lemma MissingKey(t: text, needle: text)
    ensures ExtractedOffsets(t) == Err(KeyNotFound(needle)) <==> Explains(t, KeyNotFound(needle))
  {
    ExtractedIsCollected(t);
    var k := FirstError(ResultsOf(t, 0, 13));
    forall i: nat | i < 13 ensures FailsFirst(t, i) <==> k == i { FailsFirstIs(t, i); }
    if k < 13 { FailsFirstIs(t, k); }
  }

  lemma WrongContext(t: text, length: nat)
    ensures ExtractedOffsets(t) == Err(ContextNotHex(length)) <==> Explains(t, ContextNotHex(length))
  {
    ExtractedIsCollected(t);
    var k := FirstError(ResultsOf(t, 0, 13));
    FoundBefore(t, 13);
    FirstErrorIs(t, 13);
    if k < 13 {
      FailsFirstIs(t, k);
    } else {
      assert IsOk(t, 5);
      forall ctx: nat ensures IsPlainContext(t, ctx) <==> ctx == ResultOf(t, SearchNo(5)).value && !HexPrefixAt(t, ctx) {
        PlainContext(t, ctx);
      }
    }
  }

  /** Of every text: the error names the first search that finds nothing; or all searches find
      something, the context does not begin with 0x, and the error carries its length. */
  lemma ExtractionFails(t: text, e: ScanError)
    ensures ExtractedOffsets(t) == Err(e) <==> Explains(t, e)
  {
    match e
    case KeyNotFound(needle) => MissingKey(t, needle);
    case ContextNotHex(length) => WrongContext(t, length);
  }

  // ----- The scanner that refuses duplicates -----

  /** findJcsKeyValueOffset reports a key that occurs nowhere, and one that occurs twice. */
  lemma JcsErrors(t: text, key: text)
    ensures JcsKeyOffset(t, key) == Err(OffsetNotFound(false)) <==> IsMissing(t, key, 0)
    ensures JcsKeyOffset(t, key) == Err(OffsetNotFound(true)) <==>
      exists p: nat, q: nat :: p < q && MatchesAt(t, Literal(key), p) && MatchesAt(t, Literal(key), q)
  {
    LiteralIsNeedle(key);
  }
}
