/** Limb packings of 32-byte values: 6 x 43 bits (four copies in the repository, by two
    algorithms), 4 x 64 bits, the subject serial's 4 x 64 little-endian limbs, and the
    hi/lo halves. */
module Limbs {
  import opened Arithmetic
  import opened Bytes
  import opened Results

  datatype LimbError = WrongLength | OutOfRange

  const B43: nat := 0x800_0000_0000
  const B64: nat := 0x1_0000_0000_0000_0000
  const U128: nat := 0x1_0000_0000_0000_0000_0000_0000_0000_0000
  /** 2^41, the range of the sixth 43-bit limb of a 256-bit value. */
  const TOP_LIMB: nat := 0x200_0000_0000

  // ----- Little-endian digits in base 2^43 -----

  function Power43(n: nat): (p: nat)
    ensures p > 0
  {
    if n == 0 then 1 else B43 * Power43(n - 1)
  }

  /** The n lowest base-2^43 digits of v, lowest first. */
  function Digits(v: nat, n: nat): (limbs: seq<nat>)
    ensures |limbs| == n
    ensures forall i :: 0 <= i < n ==> limbs[i] < B43
  {
    if n == 0 then [] else [v % B43] + Digits(v / B43, n - 1)
  }

  function Value(limbs: seq<nat>): nat {
    if limbs == [] then 0 else limbs[0] + B43 * Value(limbs[1..])
  }

  lemma DivBound(v: nat, k: nat, p: nat)
    requires p > 0 && v < k * p
    ensures v / p < k
  {
    var q, r := v / p, v % p;
    assert v == q * p + r;
    if q >= k { AtMost(k, q, p); }
  }

  lemma AtMost(x: nat, y: nat, z: nat)
    requires x <= y
    ensures x * z <= y * z
  {
    assert y * z == x * z + (y - x) * z;
  }

  /** Shifting v down by i digits and masking gives digit i. */
  lemma {:induction false} DigitAt(v: nat, n: nat, i: nat)
    requires i < n
    ensures Digits(v, n)[i] == (v / Power43(i)) % B43
  {
    if i > 0 {
      DigitAt(v / B43, n - 1, i - 1);
      DivDiv(v, B43, Power43(i - 1));
    }
  }

  lemma {:induction false} DigitsValue(v: nat, n: nat)
    requires v < Power43(n)
    ensures Value(Digits(v, n)) == v
  {
    if n > 0 {
      DigitsValue(v / B43, n - 1);
      assert Digits(v, n)[1..] == Digits(v / B43, n - 1);
    }
  }

  predicate AreLimbs(limbs: seq<nat>) {
    forall i :: 0 <= i < |limbs| ==> limbs[i] < B43
  }

  /** Limbs in range are the digits of their own value. */
  lemma {:induction false} LimbsAreDigits(limbs: seq<nat>)
    requires AreLimbs(limbs)
    ensures Digits(Value(limbs), |limbs|) == limbs
  {
    if limbs != [] {
      LimbsAreDigits(limbs[1..]);
      assert limbs == [limbs[0]] + limbs[1..];
    }
  }

  // ----- Powers of two -----

  lemma {:induction false} ShiftOf(i: nat)
    ensures Power43(i) == Pow2(43 * i)
  {
    if i > 0 {
      ShiftOf(i - 1);
      Bases();
      Arithmetic.PowAdd(43, 43 * (i - 1));
    }
  }

  lemma Bases()
    ensures Pow2(43) == B43 && Pow256(8) == B64 && Pow256(16) == U128 && Pow256(32) == U128 * U128
  {
    PowValues();
    assert Pow2(3) == 8;
    Arithmetic.PowAdd(32, 8);
    Arithmetic.PowAdd(40, 3);
    assert Pow256(2) == 0x1_0000 && Pow256(4) == 0x1_0000_0000;
    Bytes.PowAdd(4, 4);
    Bytes.PowAdd(8, 8);
    Bytes.PowAdd(16, 16);
  }

  // ----- 6 x 43 -----

  /** The limbs of a 32-byte big-endian value. */
  function Limbs643(bytes32: bytes): seq<nat> {
    Digits(BE(bytes32), 6)
  }

  /** decomposeTo643Limbs of spki-commit-ref.ts and ca/spkiCommit.ts: each limb is the whole
      value shifted by 43 * i, then masked. */
  method DecomposeByIndex(value: bytes) returns (r: Result<seq<nat>, LimbError>)
    ensures r == if |value| != 32 then Err(WrongLength) else Ok(Limbs643(value))
  {
    if |value| != 32 { return Err(WrongLength); }
    var v := ReadBE(value, 0, 32);
    assert value[0..32] == value;
    var limbs: seq<nat> := [];
    ghost var expected := Limbs643(value);
    for i := 0 to 6
      invariant |limbs| == i && forall k :: 0 <= k < i ==> limbs[k] == expected[k]
    {
      ShiftIsDigit(v, i);
      limbs := limbs + [(v / Pow2(43 * i)) % B43];
    }
    assert limbs == expected;
    return Ok(limbs);
  }

  lemma ShiftIsDigit(v: nat, i: nat)
    requires i < 6
    ensures (v / Pow2(43 * i)) % B43 == Digits(v, 6)[i]
  {
    ShiftOf(i);
    DigitAt(v, 6, i);
  }

  /** decomposeTo643LimbsBE of limbs.ts and bytes32ToLimbs643 of core/index.ts: the value
      itself is masked and shifted by 43 bits, six times. */
  method DecomposeRunning(bytes32: bytes) returns (r: Result<seq<nat>, LimbError>)
    ensures r == if |bytes32| != 32 then Err(WrongLength) else Ok(Limbs643(bytes32))
  {
    if |bytes32| != 32 { return Err(WrongLength); }
    var big: nat := ReadBE(bytes32, 0, 32);
    assert bytes32[0..32] == bytes32;
    var limbs: seq<nat> := [];
    ghost var v: nat := big;
    for i := 0 to 6
      invariant limbs + Digits(big, 6 - i) == Digits(v, 6)
    {
      var low: nat, rest: nat := big % B43, big / B43;
      assert limbs + ([low] + Digits(rest, 5 - i)) == (limbs + [low]) + Digits(rest, 5 - i);
      limbs := limbs + [low];
      big := rest;
    }
    assert limbs + Digits(big, 0) == limbs;
    return Ok(limbs);
  }

  method ReadBE(s: bytes, start: nat, end: nat) returns (v: nat)
    requires start <= end <= |s|
    ensures v == BE(s[start..end])
  {
    v := 0;
    for i := start to end
      invariant v == BE(s[start..i])
    {
      assert s[start..i + 1] == s[start..i] + [s[i]];
      BESnoc(s[start..i], s[i]);
      v := v * 256 + s[i];
    }
  }

  /** The limbs are below 2^43, the top one below 2^41, and they add up to the value. */
  lemma LimbsReconstruct(bytes32: bytes)
    requires |bytes32| == 32
    ensures var limbs := Limbs643(bytes32);
      && |limbs| == 6 && (forall i :: 0 <= i < 6 ==> limbs[i] < B43) && limbs[5] < TOP_LIMB
      && Value(limbs) == BE(bytes32)
  {
    var v := BE(bytes32);
    BEBound(bytes32);
    Bases();
    SixPowers();
    DigitsValue(v, 6);
    DigitAt(v, 6, 5);
    DivBound(v, TOP_LIMB, Power43(5));
    ModAtMost(v / Power43(5), B43);
  }

  lemma SixPowers()
    ensures U128 * U128 == TOP_LIMB * Power43(5)
    ensures Power43(6) == B43 * Power43(5) && TOP_LIMB < B43
  {
    assert Power43(2) == B43 * B43;
    assert Power43(3) == B43 * (B43 * B43);
    assert Power43(4) == B43 * (B43 * (B43 * B43));
  }

  lemma ModAtMost(x: nat, m: nat)
    requires m > 0
    ensures x % m <= x
  {
    assert x == m * (x / m) + x % m;
    assert m * (x / m) >= 0;
  }

  lemma Limbs643Injective(a: bytes, b: bytes)
    requires |a| == |b| == 32 && Limbs643(a) == Limbs643(b)
    ensures a == b
  {
    LimbsReconstruct(a);
    LimbsReconstruct(b);
    BEInjective(a, b);
  }

  // ----- 4 x 64, secp256k1 coordinates -----

  /** Limb l holds the bytes from (3 - l) * 8 on. */
  function Limbs464(b: bytes): (limbs: seq<nat>)
    requires |b| == 32
    ensures |limbs| == 4
  {
    [BE(b[24..32]), BE(b[16..24]), BE(b[8..16]), BE(b[0..8])]
  }

  method PkCoordToLimbs(bytes32: bytes) returns (r: Result<seq<nat>, LimbError>)
    ensures r == if |bytes32| != 32 then Err(WrongLength) else Ok(Limbs464(bytes32))
  {
    if |bytes32| != 32 { return Err(WrongLength); }
    var limbs: seq<nat> := [];
    for l := 0 to 4
      invariant |limbs| == l && forall k :: 0 <= k < l ==> limbs[k] == Limbs464(bytes32)[k]
    {
      var off := (3 - l) * 8;
      var acc := ReadBE(bytes32, off, off + 8);
      limbs := limbs + [acc];
    }
    assert limbs == Limbs464(bytes32);
    return Ok(limbs);
  }

  /** The limbs are below 2^64 and add up to the big-endian value. */
  lemma Limbs464Reconstruct(b: bytes)
    requires |b| == 32
    ensures var limbs := Limbs464(b);
      && limbs[0] < B64 && limbs[1] < B64 && limbs[2] < B64 && limbs[3] < B64
      && BE(b) == limbs[0] + B64 * (limbs[1] + B64 * (limbs[2] + B64 * limbs[3]))
  {
    Bases();
    assert b == b[..24] + b[24..32] && b[..24] == b[..16] + b[16..24] && b[..16] == b[0..8] + b[8..16];
    LastQuarter(b[..24], b[24..32]);
    LastQuarter(b[..16], b[16..24]);
    LastQuarter(b[0..8], b[8..16]);
    BEBound(b[0..8]);
  }

  lemma LastQuarter(front: bytes, last: bytes)
    requires |last| == 8
    ensures BE(front + last) == B64 * BE(front) + BE(last) && BE(last) < B64
  {
    BEConcat(front, last);
    BEBound(last);
    Bases();
    Scale(BE(front), Pow256(|last|));
  }

  lemma Scale(x: nat, p: nat)
    requires p == B64
    ensures x * p == B64 * x
  {
  }

  // ----- Subject serial -----

  function LE(s: bytes): nat {
    if s == [] then 0 else s[0] + 256 * LE(s[1..])
  }

  lemma LECons(b: byte, s: bytes)
    ensures LE([b] + s) == b + 256 * LE(s)
  {
    assert ([b] + s)[1..] == s;
  }

  lemma {:induction false} LEInjective(a: bytes, b: bytes)
    requires |a| == |b| && LE(a) == LE(b)
    ensures a == b
  {
    if a != [] {
      assert a[0] == b[0] && LE(a[1..]) == LE(b[1..]);
      LEInjective(a[1..], b[1..]);
      assert a == [a[0]] + a[1..] && b == [b[0]] + b[1..];
    }
  }

  function PadTo32(serial: bytes): (p: bytes)
    requires |serial| <= 32
    ensures |p| == 32
  {
    serial + Zeros(32 - |serial|)
  }

  function SerialLimbs(serial: bytes): (limbs: seq<nat>)
    requires |serial| <= 32
    ensures |limbs| == 4
  {
    var p := PadTo32(serial);
    [LE(p[0..8]), LE(p[8..16]), LE(p[16..24]), LE(p[24..32])]
  }

  /** Octet i of the padded serial, which subjectSerialBytesToLimbs does not write out. */
  function SerialByte(serial: bytes, i: nat): byte {
    if i < |serial| then serial[i] else 0
  }

  /** The octets of limb l. */
  lemma LimbOctets(serial: bytes, l: nat) returns (limb: bytes)
    requires |serial| <= 32 && l < 4
    ensures |limb| == 8 && LE(limb) == SerialLimbs(serial)[l]
    ensures forall b :: 0 <= b < 8 ==> limb[b] == SerialByte(serial, l * 8 + b)
  {
    var p := PadTo32(serial);
    match l {
      case 0 => limb := p[0..8];
      case 1 => limb := p[8..16];
      case 2 => limb := p[16..24];
      case _ => limb := p[24..32];
    }
  }

  method ReadLE(serial: bytes, l: nat, ghost limb: bytes) returns (acc: nat)
    requires |limb| == 8 && forall b :: 0 <= b < 8 ==> limb[b] == SerialByte(serial, l * 8 + b)
    ensures acc == LE(limb)
  {
    LEWhole(limb);
    acc := 0;
    var b := 7;
    while b >= 0
      invariant -1 <= b <= 7
      invariant acc == LEBehind(limb, b + 1)
    {
      var idx := l * 8 + b;
      LEFrom(limb, b);
      acc := acc * 256 + SerialByte(serial, idx);
      b := b - 1;
    }
  }

  lemma LEWhole(s: bytes)
    ensures LEBehind(s, 0) == LE(s) && LEBehind(s, |s|) == 0
  {
    assert s[0..] == s;
  }

  /** The value of the octets from i on. */
  function LEBehind(s: bytes, i: nat): nat
    requires i <= |s|
  {
    LE(s[i..])
  }

  lemma LEFrom(s: bytes, i: nat)
    requires i < |s|
    ensures LEBehind(s, i) == s[i] + 256 * LEBehind(s, i + 1)
  {
    assert s[i..] == [s[i]] + s[i + 1..];
    LECons(s[i], s[i + 1..]);
  }

  /** subjectSerialBytesToLimbs (limbs.ts), which masks, and subjectSerialToLimbs
      (core/index.ts), which pads first and also refuses the empty serial. */
  method SubjectSerialToLimbs(serial: bytes, refuseEmpty: bool) returns (r: Result<seq<nat>, LimbError>)
    ensures r == if |serial| > 32 || (refuseEmpty && serial == []) then Err(WrongLength) else Ok(SerialLimbs(serial))
  {
    if |serial| > 32 || (refuseEmpty && |serial| < 1) { return Err(WrongLength); }
    var limbs: seq<nat> := [];
    for l := 0 to 4
      invariant |limbs| == l && forall k :: 0 <= k < l ==> limbs[k] == SerialLimbs(serial)[k]
    {
      ghost var limb := LimbOctets(serial, l);
      var acc := ReadLE(serial, l, limb);
      limbs := limbs + [acc];
    }
    assert limbs == SerialLimbs(serial);
    return Ok(limbs);
  }

  lemma {:induction false} LEBound(s: bytes)
    ensures LE(s) < Pow256(|s|)
  {
    if s != [] { LEBound(s[1..]); }
  }

  lemma {:induction false} LEConcat(a: bytes, b: bytes)
    ensures LE(a + b) == LE(a) + Pow256(|a|) * LE(b)
  {
    if a == [] {
      assert a + b == b;
    } else {
      assert a + b == [a[0]] + (a[1..] + b);
      LECons(a[0], a[1..] + b);
      LEConcat(a[1..], b);
      Bytes.Associate(256, Pow256(|a| - 1), LE(b));
    }
  }

  lemma {:induction false} LEZeros(k: nat)
    ensures LE(Zeros(k)) == 0
  {
    if k > 0 {
      assert Zeros(k)[1..] == Zeros(k - 1);
      LEZeros(k - 1);
    }
  }

  lemma LimbThen(limb: bytes, rest: bytes)
    requires |limb| == 8
    ensures LE(limb + rest) == LE(limb) + B64 * LE(rest) && LE(limb) < B64
  {
    LEConcat(limb, rest);
    LEBound(limb);
    Bases();
  }

  /** The value of four 64-bit limbs, least significant first. */
  function Compose(l0: nat, l1: nat, l2: nat, l3: nat): nat {
    l0 + B64 * (l1 + B64 * (l2 + B64 * l3))
  }

  lemma FourLimbs(a: bytes, b: bytes, c: bytes, d: bytes)
    requires |a| == |b| == |c| == |d| == 8
    ensures LE(a) < B64 && LE(b) < B64 && LE(c) < B64 && LE(d) < B64
    ensures LE(a + (b + (c + d))) == Compose(LE(a), LE(b), LE(c), LE(d))
  {
    LimbThen(a, b + (c + d));
    LimbThen(b, c + d);
    LimbThen(c, d);
    LimbThen(d, []);
  }

  lemma {:induction false} TrailingZeros(serial: bytes, k: nat, p: bytes)
    requires p == serial + Zeros(k)
    ensures LE(p) == LE(serial)
  {
    if serial == [] {
      assert p == Zeros(k);
      LEZeros(k);
    } else {
      TrailingZeros(serial[1..], k, p[1..]);
    }
  }

  lemma SerialInEights(serial: bytes) returns (a: bytes, b: bytes, c: bytes, d: bytes)
    requires |serial| <= 32
    ensures |a| == |b| == |c| == |d| == 8 && PadTo32(serial) == a + (b + (c + d))
    ensures SerialLimbs(serial) == [LE(a), LE(b), LE(c), LE(d)]
  {
    var p := PadTo32(serial);
    a, b, c, d := p[0..8], p[8..16], p[16..24], p[24..32];
  }

  predicate Spells(limbs: seq<nat>, v: nat) {
    && |limbs| == 4 && limbs[0] < B64 && limbs[1] < B64 && limbs[2] < B64 && limbs[3] < B64
    && v == Compose(limbs[0], limbs[1], limbs[2], limbs[3])
  }

  lemma PaddedReconstruct(serial: bytes)
    requires |serial| <= 32
    ensures Spells(SerialLimbs(serial), LE(PadTo32(serial)))
  {
    var a, b, c, d := SerialInEights(serial);
    FourLimbs(a, b, c, d);
  }

  lemma PadKeepsValue(serial: bytes)
    requires |serial| <= 32
    ensures LE(PadTo32(serial)) == LE(serial)
  {
    TrailingZeros(serial, 32 - |serial|, PadTo32(serial));
  }

  /** Four limbs below 2^64 that spell the serial's little-endian value. */
  lemma SerialReconstruct(serial: bytes)
    requires |serial| <= 32
    ensures Spells(SerialLimbs(serial), LE(serial))
  {
    PaddedReconstruct(serial);
    PadKeepsValue(serial);
  }

  /** The limbs together with the length determine the serial; without the length they do not,
      because trailing zero bytes vanish. */
  lemma SerialInjective(a: bytes, b: bytes)
    requires |a| <= 32 && |b| <= 32
    ensures SerialLimbs(a) == SerialLimbs(b) && |a| == |b| <==> a == b
  {
    if SerialLimbs(a) == SerialLimbs(b) && |a| == |b| {
      var p, q := PadTo32(a), PadTo32(b);
      var s, t := SerialLimbs(a), SerialLimbs(b);
      assert s[0] == t[0] && s[1] == t[1] && s[2] == t[2] && s[3] == t[3];
      LEInjective(p[0..8], q[0..8]);
      LEInjective(p[8..16], q[8..16]);
      LEInjective(p[16..24], q[16..24]);
      LEInjective(p[24..32], q[24..32]);
      assert p == p[0..8] + p[8..16] + p[16..24] + p[24..32];
      assert q == q[0..8] + q[8..16] + q[16..24] + q[24..32];
      assert a == p[..|a|] && b == q[..|b|];
    }
  }

  // ----- Hi/lo halves -----

  datatype HiLo = HiLo(hi: nat, lo: nat)

  function Halves(b: bytes): HiLo
    requires |b| == 32
  {
    HiLo(BE(b[..16]), BE(b[16..]))
  }

  /** bytes32ToHiLo, and digestHiLo of build-witness-v5.ts. */
  method Bytes32ToHiLo(b: bytes) returns (r: Result<HiLo, LimbError>)
    ensures r == if |b| != 32 then Err(WrongLength) else Ok(Halves(b))
  {
    if |b| != 32 { return Err(WrongLength); }
    var hi := ReadBE(b, 0, 16);
    var lo := ReadBE(b, 16, 32);
    assert b[0..16] == b[..16] && b[16..32] == b[16..];
    return Ok(HiLo(hi, lo));
  }

  method WriteBE(v: nat, out: array<byte>, start: nat, n: nat)
    requires start + n <= out.Length
    modifies out
    ensures out[start..start + n] == ToBE(v, n)
    ensures forall k :: 0 <= k < out.Length && !(start <= k < start + n) ==> out[k] == old(out[k])
  {
    var h, i := v, n;
    ghost var done: bytes := [];
    while i > 0
      invariant 0 <= i <= n
      invariant ToBE(v, n) == ToBE(h, i) + done
      invariant out[start + i..start + n] == done
      invariant forall k :: 0 <= k < out.Length && !(start <= k < start + n) ==> out[k] == old(out[k])
    {
      i := i - 1;
      assert ToBE(h, i + 1) + done == ToBE(h / 256, i) + ([h % 256] + done);
      done := [h % 256] + done;
      out[start + i] := h % 256;
      assert out[start + i..start + n] == [out[start + i]] + out[start + i + 1..start + n];
      h := h / 256;
    }
  }

  function JoinHalves(hi: int, lo: int): Result<bytes, LimbError> {
    if hi < 0 || hi >= U128 || lo < 0 || lo >= U128 then Err(OutOfRange)
    else Ok(ToBE(hi, 16) + ToBE(lo, 16))
  }

  method HiLoToBytes32(hi: int, lo: int) returns (r: Result<bytes, LimbError>)
    ensures r == JoinHalves(hi, lo)
    ensures r == Err(OutOfRange) <==> !(0 <= hi < U128 && 0 <= lo < U128)
  {
    if hi < 0 || hi >= U128 { return Err(OutOfRange); }
    if lo < 0 || lo >= U128 { return Err(OutOfRange); }
    var out := new byte[32];
    WriteBE(hi, out, 0, 16);
    ghost var front := out[0..16];
    WriteBE(lo, out, 16, 16);
    assert out[0..16] == front;
    assert out[..] == out[0..16] + out[16..32];
    return Ok(out[..]);
  }

  /** Splitting and joining are inverse to each other, both ways. */
  lemma HiLoRoundTrip(b: bytes)
    requires |b| == 32
    ensures JoinHalves(Halves(b).hi, Halves(b).lo) == Ok(b)
  {
    BEBound(b[..16]);
    BEBound(b[16..]);
    Bases();
    ToBEOfBE(b[..16]);
    ToBEOfBE(b[16..]);
    assert b[..16] + b[16..] == b;
  }

  lemma LoHiRoundTrip(hi: nat, lo: nat)
    requires hi < U128 && lo < U128
    ensures JoinHalves(hi, lo).Ok? && |JoinHalves(hi, lo).value| == 32
    ensures Halves(JoinHalves(hi, lo).value) == HiLo(hi, lo)
  {
    Bases();
    BEOfToBE(hi, 16);
    BEOfToBE(lo, 16);
    var b := ToBE(hi, 16) + ToBE(lo, 16);
    assert b[..16] == ToBE(hi, 16) && b[16..] == ToBE(lo, 16);
  }
}
