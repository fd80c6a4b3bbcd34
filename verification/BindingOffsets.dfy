/** Where the fields of a printed binding are: the key scanner of
    packages/circuits/src/binding-offsets.ts and findJcsKeyValueOffset of
    packages/sdk/src/core/index.ts, against the canonical printer of
    packages/circuits/scripts/emit-zkqes2-fixture.ts. A char stands for one octet of the
    UTF-8 form; no octet of a multi-octet character equals a quote, a colon or a digit. */
module BindingOffsets {
  import opened Results

  type text = seq<char>

  const QUOTE: char := '"'

  // ----- Scanning -----

  predicate MatchesAt(hay: text, needle: text, i: nat) {
    i + |needle| <= |hay| && hay[i..i + |needle|] == needle
  }

  /** The first position at or after start where needle occurs. */
  function IndexFrom(hay: text, needle: text, start: nat): (r: Option<nat>)
    ensures r.Some? ==> start <= r.value && MatchesAt(hay, needle, r.value)
    ensures forall i: nat :: start <= i && MatchesAt(hay, needle, i) ==> r.Some? && r.value <= i
    decreases |hay| - start
  {
    if start + |needle| > |hay| then None
    else if MatchesAt(hay, needle, start) then Some(start)
    else IndexFrom(hay, needle, start + 1)
  }

  method IndexOf(hay: text, needle: text, start: nat) returns (r: int)
    ensures r < 0 ==> r == -1 && IndexFrom(hay, needle, start) == None
    ensures r >= 0 ==> IndexFrom(hay, needle, start) == Some(r)
  {
    var i := start;
    while i <= |hay| - |needle|
      invariant start <= i
      invariant IndexFrom(hay, needle, start) == IndexFrom(hay, needle, i)
    {
      var j := 0;
      while j < |needle| && hay[i + j] == needle[j]
        invariant 0 <= j <= |needle|
        invariant hay[i..i + j] == needle[..j]
      {
        assert hay[i..i + j + 1] == hay[i..i + j] + [hay[i + j]];
        assert needle[..j + 1] == needle[..j] + [needle[j]];
        j := j + 1;
      }
      if j == |needle| {
        assert needle[..j] == needle;
        return i;
      }
      assert hay[i..i + |needle|][j] == hay[i + j];
      i := i + 1;
    }
    return -1;
  }

  /** The octets from start to the next quote, or to the end. */
  function QuotedLength(t: text, start: nat): (n: nat)
    ensures n > 0 ==> start + n <= |t|
    ensures forall i :: start <= i < start + n ==> t[i] != QUOTE
    ensures start + n < |t| ==> t[start + n] == QUOTE
    decreases |t| - start
  {
    if start < |t| && t[start] != QUOTE then 1 + QuotedLength(t, start + 1) else 0
  }

  predicate IsDigit(c: char) {
    '0' <= c <= '9'
  }

  /** The run of decimal digits that begins at start. */
  function NumberLength(t: text, start: nat): (n: nat)
    ensures n > 0 ==> start + n <= |t|
    ensures forall i :: start <= i < start + n ==> IsDigit(t[i])
    ensures start + n < |t| ==> !IsDigit(t[start + n])
    decreases |t| - start
  {
    if start < |t| && IsDigit(t[start]) then 1 + NumberLength(t, start + 1) else 0
  }

  method LengthOfQuotedValue(t: text, start: nat) returns (n: nat)
    ensures n == QuotedLength(t, start)
  {
    var i := start;
    while i < |t| && t[i] != QUOTE
      invariant start <= i
      invariant QuotedLength(t, start) == i - start + QuotedLength(t, i)
    {
      i := i + 1;
    }
    return i - start;
  }

  method LengthOfNumberValue(t: text, start: nat) returns (n: nat)
    ensures n == NumberLength(t, start)
  {
    var i := start;
    while i < |t|
      invariant start <= i
      invariant NumberLength(t, start) == i - start + NumberLength(t, i)
    {
      if !IsDigit(t[i]) { break; }
      i := i + 1;
    }
    return i - start;
  }

  // ----- Extraction -----

  datatype ScanError = KeyNotFound(needle: text) | ContextNotHex(length: nat)

  datatype Offsets = Offsets(
    pk: nat, scheme: nat, assertions: nat, statementSchema: nat, nonce: nat,
    ctx: nat, ctxHexLen: nat, policyId: nat, policyIdLen: nat, policyLeafHash: nat,
    policyBindingSchema: nat, policyVersion: nat, policyVersionDigits: nat,
    ts: nat, tsDigits: nat, version: nat)

  function Needle(key: text): text {
    [QUOTE] + key + [QUOTE, ':']
  }

  /** The position just after the first key literal. */
  function KeyEnd(t: text, key: text, start: nat): Result<nat, ScanError> {
    var at := IndexFrom(t, Needle(key), start);
    if at.None? then Err(KeyNotFound(Needle(key))) else Ok(at.value + |Needle(key)|)
  }

  function ValueStart(t: text, key: text, quoted: bool, start: nat): Result<nat, ScanError> {
    var off :- KeyEnd(t, key, start);
    Ok(if quoted then off + 1 else off)
  }

  predicate HexPrefixAt(t: text, at: nat) {
    QuotedLength(t, at) >= 2 && t[at..at + 2] == "0x"
  }

  /** The offsets outside the policy, and the end of the policy's own key. */
  datatype TopOffsets = TopOffsets(pk: nat, scheme: nat, assertions: nat, statementSchema: nat, nonce: nat,
                                   ctx: nat, ts: nat, version: nat, block: nat)

  datatype PolicyOffsets = PolicyOffsets(bindingSchema: nat, leafHash: nat, policyId: nat, policyVersion: nat)

  function TopScan(t: text): Result<TopOffsets, ScanError> {
    var pk :- ValueStart(t, "pk", true, 0);
    var scheme :- ValueStart(t, "scheme", true, 0);
    var assertions :- KeyEnd(t, "assertions", 0);
    var statementSchema :- ValueStart(t, "statementSchema", true, 0);
    var nonce :- ValueStart(t, "nonce", true, 0);
    var ctx :- ValueStart(t, "context", true, 0);
    var ts :- ValueStart(t, "timestamp", false, 0);
    var version :- ValueStart(t, "version", true, 0);
    var block :- KeyEnd(t, "policy", 0);
    Ok(TopOffsets(pk, scheme, assertions, statementSchema, nonce, ctx, ts, version, block))
  }

  /** The nested keys are looked for behind the policy's key. */
  function PolicyScan(t: text, block: nat): Result<PolicyOffsets, ScanError> {
    var bindingSchema :- ValueStart(t, "bindingSchema", true, block);
    var leafHash :- ValueStart(t, "leafHash", true, block);
    var policyId :- ValueStart(t, "policyId", true, block);
    var policyVersion :- ValueStart(t, "policyVersion", false, block);
    Ok(PolicyOffsets(bindingSchema, leafHash, policyId, policyVersion))
  }

  /** The offsets with the lengths of the values that vary, unless the context is not hex. */
  function WithLengths(t: text, top: TopOffsets, policy: PolicyOffsets): Result<Offsets, ScanError> {
    if !HexPrefixAt(t, top.ctx) then Err(ContextNotHex(QuotedLength(t, top.ctx)))
    else Ok(Offsets(top.pk, top.scheme, top.assertions, top.statementSchema, top.nonce,
                    top.ctx, QuotedLength(t, top.ctx) - 2, policy.policyId, QuotedLength(t, policy.policyId),
                    policy.leafHash, policy.bindingSchema, policy.policyVersion, NumberLength(t, policy.policyVersion),
                    top.ts, NumberLength(t, top.ts), top.version))
  }

  function ExtractedOffsets(t: text): Result<Offsets, ScanError> {
    var top :- TopScan(t);
    var policy :- PolicyScan(t, top.block);
    WithLengths(t, top, policy)
  }

  method FindOffset(t: text, key: text, start: nat) returns (r: Result<nat, ScanError>)
    ensures r == KeyEnd(t, key, start)
  {
    var idx := IndexOf(t, Needle(key), start);
    if idx < 0 { return Err(KeyNotFound(Needle(key))); }
    return Ok(idx + |Needle(key)|);
  }

  method ValueOffsetOf(t: text, key: text, quoted: bool, start: nat) returns (r: Result<nat, ScanError>)
    ensures r == ValueStart(t, key, quoted, start)
  {
    var off :- FindOffset(t, key, start);
    return Ok(if quoted then off + 1 else off);
  }

  method ExtractBindingOffsets(t: text) returns (r: Result<Offsets, ScanError>)
    ensures r == ExtractedOffsets(t)
  {
    var pk :- ValueOffsetOf(t, "pk", true, 0);
    var scheme :- ValueOffsetOf(t, "scheme", true, 0);
    var assertions :- FindOffset(t, "assertions", 0);
    var statementSchema :- ValueOffsetOf(t, "statementSchema", true, 0);
    var nonce :- ValueOffsetOf(t, "nonce", true, 0);
    var ctx :- ValueOffsetOf(t, "context", true, 0);
    var ts :- ValueOffsetOf(t, "timestamp", false, 0);
    var version :- ValueOffsetOf(t, "version", true, 0);
    var block :- FindOffset(t, "policy", 0);
    var bindingSchema :- ValueOffsetOf(t, "bindingSchema", true, block);
    var leafHash :- ValueOffsetOf(t, "leafHash", true, block);
    var policyId :- ValueOffsetOf(t, "policyId", true, block);
    var policyVersion :- ValueOffsetOf(t, "policyVersion", false, block);
    var ctxLen := LengthOfQuotedValue(t, ctx);
    if ctxLen < 2 || t[ctx..ctx + 2] != "0x" { return Err(ContextNotHex(ctxLen)); }
    var policyIdLen := LengthOfQuotedValue(t, policyId);
    var tsDigits := LengthOfNumberValue(t, ts);
    var policyVersionDigits := LengthOfNumberValue(t, policyVersion);
    return Ok(Offsets(pk, scheme, assertions, statementSchema, nonce, ctx, ctxLen - 2,
                      policyId, policyIdLen, leafHash, bindingSchema,
                      policyVersion, policyVersionDigits, ts, tsDigits, version));
  }

  datatype JcsError = OffsetNotFound(duplicate: bool)

  function JcsKeyOffset(t: text, key: text): Result<nat, JcsError> {
    var first := IndexFrom(t, Needle(key), 0);
    if first.None? then Err(OffsetNotFound(false))
    else if IndexFrom(t, Needle(key), first.value + 1).Some? then Err(OffsetNotFound(true))
    else Ok(first.value)
  }

  method FindJcsKeyValueOffset(t: text, key: text) returns (r: Result<nat, JcsError>)
    ensures r == JcsKeyOffset(t, key)
  {
    var first := IndexOf(t, Needle(key), 0);
    if first == -1 { return Err(OffsetNotFound(false)); }
    var second := IndexOf(t, Needle(key), first + 1);
    if second != -1 { return Err(OffsetNotFound(true)); }
    return Ok(first);
  }
}
