/** SHA-256 message padding (section 5.1.1 of FIPS 180-4): shaPad of
    packages/circuits/src/build-witness-v5.ts and sha256Pad of packages/sdk/src/core/index.ts,
    with the zero fill that puts the padded form into an array of fixed size. */
module ShaPad {
  import opened Arithmetic
  import opened Bytes
  import opened Results

  const BLOCK: nat := 64

  datatype FillError = FieldTooLong

  /** The message, 0x80, zeros up to a block boundary, and the bit length in eight octets. */
  function Padded(msg: bytes): bytes {
    msg + [0x80] + Zeros(PadLength(|msg|)) + ToBE(8 * |msg|, 8)
  }

  function PadLength(n: nat): (k: nat)
    ensures k < BLOCK
  {
    (BLOCK - (n + 9) % BLOCK) % BLOCK
  }

  /** The output length is the least multiple of 64 that leaves room for nine more octets. */
  lemma PaddedLength(msg: bytes)
    ensures |Padded(msg)| % BLOCK == 0
    ensures |msg| + 9 <= |Padded(msg)| < |msg| + 9 + BLOCK
  {
    BlockSize(|msg|);
  }

  lemma BlockSize(n: nat)
    ensures (n + 9 + PadLength(n)) % BLOCK == 0
    ensures n + 9 + PadLength(n) == (n + 9 + BLOCK - 1) / BLOCK * BLOCK
  {
  }

  predicate FillsBlock(n: nat, zeros: nat) {
    (n + 1 + zeros + 8) % BLOCK == 0
  }

  lemma LeastFill(n: nat)
    ensures FillsBlock(n, PadLength(n)) && forall k: nat :: FillsBlock(n, k) ==> PadLength(n) <= k
  {
  }

  /** The layout of section 5.1.1 of FIPS 180-4: the message, the octet 0x80, the least number of
      zero octets that completes a block, and the bit length in 64 bits. */
  lemma PaddedLayout(msg: bytes)
    ensures var p, n := Padded(msg), |msg|; var zeros := |p| - n - 9;
      && zeros >= 0 && FillsBlock(n, zeros) && (forall k: nat :: FillsBlock(n, k) ==> zeros <= k)
      && p[..n] == msg && p[n] == 0x80 && p[n + 1..n + 1 + zeros] == Zeros(zeros)
      && BE(p[n + 1 + zeros..]) == 8 * n % 0x1_0000_0000_0000_0000
  {
    LeastFill(|msg|);
    assert Padded(msg)[|Padded(msg)| - 8..] == ToBE(8 * |msg|, 8);
    TrailerValue(8 * |msg|);
  }

  lemma TrailerValue(v: nat)
    ensures BE(ToBE(v, 8)) == v % 0x1_0000_0000_0000_0000
  {
    LowOctets(v, 8);
    assert Pow256(2) == 0x1_0000 && Pow256(4) == 0x1_0000_0000;
    Bytes.PowAdd(4, 4);
  }

  /** The last octets of a number are its remainder. */
  lemma {:induction false} LowOctets(v: nat, n: nat)
    ensures BE(ToBE(v, n)) == v % Pow256(n)
  {
    if n > 0 {
      LowOctets(v / 256, n - 1);
      BESnoc(ToBE(v / 256, n - 1), v % 256);
      RemainderStep(v, Pow256(n - 1));
    }
  }

  lemma RemainderStep(v: nat, p: nat)
    requires p > 0
    ensures (v / 256) % p * 256 + v % 256 == v % (256 * p)
  {
    var q, r := v / 256 / p, (v / 256) % p;
    assert v / 256 == q * p + r;
    assert v == 256 * (q * p) + (256 * r + v % 256);
    assert 256 * (q * p) == q * (256 * p);
    DivUnique(v, 256 * p, q, 256 * r + v % 256);
  }

  /** The trailer is the bit length as FIPS 180-4 wants it exactly below 2^61 octets. */
  lemma TrailerIsBitLength(msg: bytes)
    ensures BE(Padded(msg)[|Padded(msg)| - 8..]) == 8 * |msg| <==> |msg| < 0x2000_0000_0000_0000
  {
    var p := Padded(msg);
    assert p[|p| - 8..] == ToBE(8 * |msg|, 8);
    assert Pow256(2) == 0x1_0000 && Pow256(4) == 0x1_0000_0000;
    Bytes.PowAdd(4, 4);
    BEOfToBE(8 * |msg|, 8);
    BEBound(ToBE(8 * |msg|, 8));
  }

  lemma {:induction false} LowDigits(v: nat, w: nat, n: nat)
    requires n > 0 && ToBE(v, n) == ToBE(w, n)
    ensures v % 256 == w % 256
    ensures n > 1 ==> (v / 256) % 256 == (w / 256) % 256
  {
    assert ToBE(v, n)[n - 1] == v % 256 && ToBE(w, n)[n - 1] == w % 256;
    if n > 1 {
      assert ToBE(v, n)[..n - 1] == ToBE(v / 256, n - 1) && ToBE(w, n)[..n - 1] == ToBE(w / 256, n - 1);
      assert ToBE(v / 256, n - 1)[n - 2] == (v / 256) % 256 && ToBE(w / 256, n - 1)[n - 2] == (w / 256) % 256;
    }
  }

  /** Padding loses nothing, whatever the length. */
  lemma PaddedInjective(a: bytes, b: bytes)
    requires Padded(a) == Padded(b)
    ensures a == b
  {
    var p := Padded(a);
    PaddedLength(a);
    PaddedLength(b);
    assert p[|p| - 8..] == ToBE(8 * |a|, 8) && Padded(b)[|p| - 8..] == ToBE(8 * |b|, 8);
    LowDigits(8 * |a|, 8 * |b|, 8);
    NearAndCongruent(|a|, |b|);
    assert a == p[..|a|] && b == Padded(b)[..|b|];
  }

  /** Lengths with the same number of blocks differ by less than 64, and the last trailer
      octets then tell them apart. */
  lemma NearAndCongruent(m: nat, n: nat)
    requires (8 * m) % 256 == (8 * n) % 256 && ((8 * m) / 256) % 256 == ((8 * n) / 256) % 256
    requires m - n < BLOCK && n - m < BLOCK
    ensures m == n
  {
  }

  // ----- The two implementations -----

  method WriteMessage(msg: bytes, out: array<byte>)
    requires out.Length > |msg|
    modifies out
    ensures out[..|msg| + 1] == msg + [0x80]
    ensures forall k :: |msg| < k < out.Length ==> out[k] == if k == |msg| then 0x80 else old(out[k])
  {
    for i := 0 to |msg|
      invariant out[..i] == msg[..i]
      invariant forall k :: i <= k < out.Length ==> out[k] == old(out[k])
    {
      out[i] := msg[i];
      assert out[..i + 1] == out[..i] + [out[i]];
    }
    out[|msg|] := 0x80;
    assert out[..|msg| + 1] == out[..|msg|] + [0x80];
  }

  /** shaPad: the length rounded up to blocks, the trailer written as one 64-bit integer. */
  method ShaPadCircuits(msg: bytes) returns (result: bytes)
    ensures result == Padded(msg)
  {
    var total := (|msg| + 1 + 8 + BLOCK - 1) / BLOCK * BLOCK;
    BlockSize(|msg|);
    var padded := new byte[total](_ => 0);
    WriteMessage(msg, padded);
    var trailer := ToBE(8 * |msg|, 8);   // setBigUint64 keeps the low 64 bits
    for i := 0 to 8
      invariant padded[..|msg| + 1] == msg + [0x80]
      invariant forall k :: |msg| < k < total - 8 ==> padded[k] == 0
      invariant padded[total - 8..total - 8 + i] == trailer[..i]
    {
      padded[total - 8 + i] := trailer[i];
      assert padded[total - 8..total - 8 + i + 1] == padded[total - 8..total - 8 + i] + [trailer[i]];
    }
    assert trailer[..8] == trailer;
    ThreeParts(padded[..], msg, total - 8, trailer);
    return padded[..];
  }

  lemma ThreeParts(out: bytes, msg: bytes, at: nat, trailer: bytes)
    requires at + 8 == |out| == |msg| + 9 + PadLength(|msg|)
    requires trailer == ToBE(8 * |msg|, 8) && out[at..] == trailer
    requires out[..|msg| + 1] == msg + [0x80]
    requires forall k :: |msg| < k < at ==> out[k] == 0
    ensures out == Padded(msg)
  {
    assert out[|msg| + 1..at] == Zeros(PadLength(|msg|));
    Cut(out, |msg| + 1, at);
  }

  lemma Cut(s: bytes, i: nat, j: nat)
    requires i <= j <= |s|
    ensures s == s[..i] + s[i..j] + s[j..]
  {
  }

  /** sha256Pad: the pad length is computed first, the trailer written digit by digit. */
  method Sha256PadSdk(data: bytes) returns (result: bytes)
    ensures result == Padded(data)
  {
    var msgBits := 8 * |data|;
    var minLen := |data| + 1 + 8;
    var padLen := (BLOCK - minLen % BLOCK) % BLOCK;
    var totalLen := minLen + padLen;
    var out := new byte[totalLen](_ => 0);
    WriteMessage(data, out);
    assert out[totalLen..] == ToBE(msgBits, 0);
    for i := 0 to 8
      invariant out[..|data| + 1] == data + [0x80]
      invariant forall k :: |data| < k < totalLen - 8 ==> out[k] == 0
      invariant out[totalLen - i..] == ToBE(msgBits, i)
    {
      ToBEHead(msgBits, i);
      out[totalLen - 1 - i] := (msgBits / Pow256(i)) % 256;
      assert out[totalLen - 1 - i..] == [out[totalLen - 1 - i]] + out[totalLen - i..];
    }
    ThreeParts(out[..], data, totalLen - 8, ToBE(msgBits, 8));
    return out[..];
  }

  /** Digit i, counted from the right, is the value shifted by i octets and masked. */
  lemma {:induction false} ToBEHead(v: nat, i: nat)
    ensures ToBE(v, i + 1) == [(v / Pow256(i)) % 256] + ToBE(v, i)
  {
    if i > 0 {
      ToBEHead(v / 256, i - 1);
      DivDiv(v, 256, Pow256(i - 1));
    }
  }

  // ----- Fixed-size arrays -----

  function Filled(data: bytes, max: nat): Result<bytes, FillError> {
    if |data| > max then Err(FieldTooLong) else Ok(data + Zeros(max - |data|))
  }

  /** rightPadZero and zeroPadTo. */
  method ZeroPadTo(data: bytes, max: nat) returns (r: Result<bytes, FillError>)
    ensures r == Filled(data, max)
    ensures r.Err? <==> |data| > max
    ensures r.Ok? ==> |r.value| == max && r.value[..|data|] == data && forall k :: |data| <= k < max ==> r.value[k] == 0
  {
    if |data| > max { return Err(FieldTooLong); }
    var out := new byte[max](_ => 0);
    for i := 0 to |data|
      invariant out[..i] == data[..i]
      invariant forall k :: i <= k < max ==> out[k] == 0
    {
      out[i] := data[i];
      assert out[..i + 1] == out[..i] + [out[i]];
    }
    assert out[|data|..] == Zeros(max - |data|) && out[..|data|] == data;
    assert out[..] == out[..|data|] + out[|data|..];
    return Ok(out[..]);
  }

  /** The padded form fits an array of whole blocks iff the message leaves nine octets free. */
  lemma PaddedFits(msg: bytes, max: nat)
    requires max % BLOCK == 0
    ensures Filled(Padded(msg), max).Ok? <==> |msg| + 9 <= max
  {
    PaddedLength(msg);
    RoundedUp(|msg| + 9, |Padded(msg)| / BLOCK, max / BLOCK);
  }

  lemma RoundedUp(m: nat, p: nat, q: nat)
    requires m <= BLOCK * p < m + BLOCK
    ensures BLOCK * p <= BLOCK * q <==> m <= BLOCK * q
  {
  }
}
