/** The chunk-packing sponge: poseidonChunkHashVarT7 and keyCommit
    (packages/lotl-flattener/src/ca/keyCommit.ts, rate 5) and poseidonChunkHashVar
    (packages/circuits/src/poseidon-chunk-hash.ts, rate 15). The Poseidon permutation is a
    parameter: compress(state, window) is the hash of the state followed by the window. */
module Sponge {
  import Arithmetic
  import opened Bytes
  import opened Results

  const CHUNK: nat := 31
  const RATE_T7: nat := 5
  const RATE_T16: nat := 15
  const MAX_LEAF_SPKI: nat := 600
  /** The order of the BN254 scalar field. */
  const P: nat := 21888242871839275222246405745257275088548364400416034343698204186575808495617
  const KEY_COMMIT_DOMAIN: nat :=
    18645781269818968495274020647839177040876380151358417993861915365514852958754

  type Compress = (int, seq<nat>) -> int

  datatype SpongeError = InputTooLong

  // ----- Packing -----

  function Chunks(data: bytes): seq<nat> {
    if |data| == 0 then []
    else if |data| <= CHUNK then [BE(data)]
    else [BE(data[..CHUNK])] + Chunks(data[CHUNK..])
  }

  /** The absorbed field elements: the chunks, then the length. */
  function Elements(data: bytes): seq<nat> {
    Chunks(data) + [|data|]
  }

  function EntryOf(fe: seq<nat>, k: nat): nat {
    if k < |fe| then fe[k] else 0
  }

  /** The first window of fe, filled up with zeros. */
  function Window(fe: seq<nat>, rate: nat): (w: seq<nat>)
    ensures |w| == rate
  {
    seq(rate, j requires 0 <= j < rate => EntryOf(fe, j))
  }

  function Windows(fe: seq<nat>, rate: nat): seq<seq<nat>>
    requires rate > 0
  {
    if fe == [] then []
    else [Window(fe, rate)] + (if |fe| <= rate then [] else Windows(fe[rate..], rate))
  }

  /** The state after absorbing ws, starting from 0. */
  function Absorb(compress: Compress, ws: seq<seq<nat>>): int {
    if ws == [] then 0 else compress(Absorb(compress, ws[..|ws| - 1]), ws[|ws| - 1])
  }

  function ChunkHash(compress: Compress, rate: nat, data: bytes): int
    requires rate > 0
  {
    Absorb(compress, Windows(Elements(data), rate))
  }

  // ----- Bounds and counts -----

  lemma PrimeIsWide()
    ensures Pow256(CHUNK) < P
  {
    PowAdd(8, 8);
    PowAdd(16, 8);
    PowAdd(24, 4);
    PowAdd(28, 3);
    assert Pow256(1) == 256 && Pow256(2) == 0x1_0000 && Pow256(3) == 0x100_0000 && Pow256(4) == 0x1_0000_0000;
    PowAdd(4, 4);
  }

  /** Every packed chunk is below 2^248, so reduction modulo P leaves it alone. */
  lemma {:induction false} ChunkBound(data: bytes, k: nat)
    requires k < |Chunks(data)|
    ensures Chunks(data)[k] < Pow256(CHUNK) < P
  {
    PrimeIsWide();
    if |data| <= CHUNK {
      ShortBound(data);
    } else if k == 0 {
      ShortBound(data[..CHUNK]);
    } else {
      ChunkBound(data[CHUNK..], k - 1);
    }
  }

  lemma ShortBound(s: bytes)
    requires |s| <= CHUNK
    ensures BE(s) < Pow256(CHUNK)
  {
    BEBound(s);
    PowMonotone(|s|, CHUNK);
  }

  lemma {:induction false} ChunkCount(data: bytes)
    ensures |Chunks(data)| == (|data| + CHUNK - 1) / CHUNK
  {
    if |data| > CHUNK { ChunkCount(data[CHUNK..]); }
  }

  lemma {:induction false} WindowCount(fe: seq<nat>, rate: nat)
    requires rate > 0 && fe != []
    ensures |Windows(fe, rate)| == (|fe| - 1) / rate + 1
  {
    if |fe| > rate {
      WindowCount(fe[rate..], rate);
      OneMore(|fe| - 1 - rate, rate);
    } else {
      NoMore(|fe| - 1, rate);
    }
  }

  lemma OneMore(n: nat, rate: nat)
    requires rate > 0
    ensures (n + rate) / rate == n / rate + 1
  {
    var q, r := n / rate, n % rate;
    assert n == q * rate + r;
    assert n + rate == (q + 1) * rate + r;
    Arithmetic.DivUnique(n + rate, rate, q + 1, r);
  }

  lemma NoMore(n: nat, rate: nat)
    requires n < rate
    ensures n / rate == 0
  {
    Arithmetic.DivUnique(n, rate, 0, n);
  }

  /** floor(ceil(L / 31) / rate) + 1 rounds for L bytes. */
  lemma RoundCount(data: bytes, rate: nat)
    requires rate > 0
    ensures |Windows(Elements(data), rate)| == ((|data| + CHUNK - 1) / CHUNK) / rate + 1
  {
    ChunkCount(data);
    WindowCount(Elements(data), rate);
  }

  // ----- Injectivity of the encoding -----

  lemma {:induction false} ChunksInjective(a: bytes, b: bytes)
    requires |a| == |b| && Chunks(a) == Chunks(b)
    ensures a == b
  {
    if |a| > CHUNK {
      assert Chunks(a)[0] == Chunks(b)[0] && Chunks(a)[1..] == Chunks(b)[1..];
      BEInjective(a[..CHUNK], b[..CHUNK]);
      ChunksInjective(a[CHUNK..], b[CHUNK..]);
      assert a == a[..CHUNK] + a[CHUNK..] && b == b[..CHUNK] + b[CHUNK..];
    } else if |a| > 0 {
      assert Chunks(a)[0] == Chunks(b)[0];
      BEInjective(a, b);
    }
  }

  lemma {:induction false} WindowsDetermine(fe: seq<nat>, fe': seq<nat>, rate: nat, k: nat)
    requires rate > 0 && fe != [] && fe' != [] && Windows(fe, rate) == Windows(fe', rate)
    ensures EntryOf(fe, k) == EntryOf(fe', k)
    decreases k
  {
    var ws, ws' := Windows(fe, rate), Windows(fe', rate);
    assert ws[0] == ws'[0];
    assert (|fe| > rate <==> |ws| > 1) && (|fe'| > rate <==> |ws'| > 1);
    if k < rate {
      assert Window(fe, rate)[k] == Window(fe', rate)[k];
    } else if |fe| > rate {
      assert ws[1..] == Windows(fe[rate..], rate) && ws'[1..] == Windows(fe'[rate..], rate);
      WindowsDetermine(fe[rate..], fe'[rate..], rate, k - rate);
    }
  }

  /** Distinct byte strings never give the same zero-filled windows, whatever the rate. */
  lemma EncodingInjective(a: bytes, b: bytes, rate: nat)
    requires rate > 0 && Windows(Elements(a), rate) == Windows(Elements(b), rate)
    ensures a == b
  {
    var ca, cb := Chunks(a), Chunks(b);
    forall k: nat ensures EntryOf(Elements(a), k) == EntryOf(Elements(b), k) {
      WindowsDetermine(Elements(a), Elements(b), rate, k);
    }
    assert EntryOf(Elements(a), |ca|) == |a| && EntryOf(Elements(b), |cb|) == |b|;
    assert EntryOf(Elements(b), |ca|) == |a| && EntryOf(Elements(a), |cb|) == |b|;
    ChunkCount(a);
    ChunkCount(b);
    assert |a| == |b|;
    assert |ca| == |cb|;
    forall k | 0 <= k < |ca| ensures ca[k] == cb[k] {
      assert EntryOf(Elements(a), k) == EntryOf(Elements(b), k);
    }
    ChunksInjective(a, b);
  }

  // ----- Injectivity of the hash -----

  ghost predicate CollisionFree(compress: Compress, rate: nat) {
    forall s, w, s', w' :: |w| == |w'| == rate && compress(s, w) == compress(s', w') ==> s == s' && w == w'
  }

  ghost predicate NeverZero(compress: Compress, rate: nat) {
    forall s, w :: |w| == rate ==> compress(s, w) != 0
  }

  ghost predicate AllOfRate(ws: seq<seq<nat>>, rate: nat) {
    forall i :: 0 <= i < |ws| ==> |ws[i]| == rate
  }

  lemma {:induction false} WindowsOfRate(fe: seq<nat>, rate: nat)
    requires rate > 0
    ensures AllOfRate(Windows(fe, rate), rate)
  {
    if |fe| > rate { WindowsOfRate(fe[rate..], rate); }
  }

  /** What the compression takes in round i: the state so far and the window. */
  datatype Round = Round(state: int, window: seq<nat>)

  function RoundAt(compress: Compress, ws: seq<seq<nat>>, i: nat): Round
    requires i < |ws|
  {
    Round(Absorb(compress, ws[..i]), ws[i])
  }

  function OutOf(compress: Compress, r: Round): int {
    compress(r.state, r.window)
  }

  /** Round i of one input and round j of the other are different and have the same outcome. */
  ghost predicate RoundsCollide(compress: Compress, ws: seq<seq<nat>>, i: nat, ws': seq<seq<nat>>, j: nat) {
    && i < |ws| && j < |ws'|
    && RoundAt(compress, ws, i) != RoundAt(compress, ws', j)
    && OutOf(compress, RoundAt(compress, ws, i)) == OutOf(compress, RoundAt(compress, ws', j))
  }

  ghost predicate RoundGivesZero(compress: Compress, ws: seq<seq<nat>>, i: nat) {
    i < |ws| && OutOf(compress, RoundAt(compress, ws, i)) == 0
  }

  /** The sponge is broken at these rounds. */
  ghost predicate Breaks(compress: Compress, ws: seq<seq<nat>>, i: nat, ws': seq<seq<nat>>, j: nat) {
    RoundsCollide(compress, ws, i, ws', j) || RoundGivesZero(compress, ws, i) || RoundGivesZero(compress, ws', j)
  }

  /** Of any compression: two different window sequences with one state contain two different
      rounds with the same outcome, or a round with outcome 0. */
  lemma {:induction false} AbsorbBreaks(compress: Compress, ws: seq<seq<nat>>, ws': seq<seq<nat>>) returns (i: nat, j: nat)
    requires Absorb(compress, ws) == Absorb(compress, ws') && ws != ws'
    ensures Breaks(compress, ws, i, ws', j)
  {
    i := if ws == [] then 0 else |ws| - 1;
    j := if ws' == [] then 0 else |ws'| - 1;
    if ws != [] && ws' != [] && RoundAt(compress, ws, i) == RoundAt(compress, ws', j) {
      assert ws == ws[..i] + [ws[i]] && ws' == ws'[..j] + [ws'[j]];
      var front, front' := ws[..i], ws'[..j];
      i, j := AbsorbBreaks(compress, front, front');
      FrontBreaks(compress, ws, front, i, ws', front', j);
    }
  }

  /** A break in the first rounds is a break. */
  lemma FrontBreaks(compress: Compress, ws: seq<seq<nat>>, front: seq<seq<nat>>, i: nat,
                    ws': seq<seq<nat>>, front': seq<seq<nat>>, j: nat)
    requires front <= ws && front' <= ws' && Breaks(compress, front, i, front', j)
    ensures Breaks(compress, ws, i, ws', j)
  {
    SameRound(compress, ws, front, i);
    SameRound(compress, ws', front', j);
  }

  lemma SameRound(compress: Compress, ws: seq<seq<nat>>, front: seq<seq<nat>>, i: nat)
    requires front <= ws
    ensures i < |front| ==> RoundAt(compress, front, i) == RoundAt(compress, ws, i)
  {
    if i < |front| { assert front[..i] == ws[..i]; }
  }

  lemma NothingBreaks(compress: Compress, rate: nat, ws: seq<seq<nat>>, i: nat, ws': seq<seq<nat>>, j: nat)
    requires CollisionFree(compress, rate) && NeverZero(compress, rate)
    requires AllOfRate(ws, rate) && AllOfRate(ws', rate)
    ensures !Breaks(compress, ws, i, ws', j)
  {
  }

  lemma AbsorbInjective(compress: Compress, rate: nat, ws: seq<seq<nat>>, ws': seq<seq<nat>>)
    requires CollisionFree(compress, rate) && NeverZero(compress, rate)
    requires AllOfRate(ws, rate) && AllOfRate(ws', rate)
    requires Absorb(compress, ws) == Absorb(compress, ws')
    ensures ws == ws'
  {
    if ws != ws' {
      var i, j := AbsorbBreaks(compress, ws, ws');
      NothingBreaks(compress, rate, ws, i, ws', j);
    }
  }

  /** Of any compression and rate: two different byte strings with one hash break it. */
  lemma ChunkHashBreaks(compress: Compress, rate: nat, a: bytes, b: bytes) returns (i: nat, j: nat)
    requires rate > 0 && ChunkHash(compress, rate, a) == ChunkHash(compress, rate, b) && a != b
    ensures Breaks(compress, Windows(Elements(a), rate), i, Windows(Elements(b), rate), j)
  {
    if Windows(Elements(a), rate) == Windows(Elements(b), rate) { EncodingInjective(a, b, rate); }
    i, j := AbsorbBreaks(compress, Windows(Elements(a), rate), Windows(Elements(b), rate));
  }

  /** If the compression has no collisions and never outputs 0, the sponge has no collisions,
      although inputs of different lengths take different numbers of rounds. */
  lemma ChunkHashInjective(compress: Compress, rate: nat, a: bytes, b: bytes)
    requires rate > 0 && CollisionFree(compress, rate) && NeverZero(compress, rate)
    requires ChunkHash(compress, rate, a) == ChunkHash(compress, rate, b)
    ensures a == b
  {
    WindowsOfRate(Elements(a), rate);
    WindowsOfRate(Elements(b), rate);
    AbsorbInjective(compress, rate, Windows(Elements(a), rate), Windows(Elements(b), rate));
    EncodingInjective(a, b, rate);
  }

  function KeyCommit(compress: Compress, hash2: (int, int) -> int, spki: bytes): Result<int, SpongeError> {
    if |spki| > MAX_LEAF_SPKI then Err(InputTooLong)
    else Ok(hash2(KEY_COMMIT_DOMAIN, ChunkHash(compress, RATE_T7, spki)))
  }

  /** keyCommit succeeds on at most 600 bytes, and two keys share a commitment only if they
      are the same bytes. */
  lemma KeyCommitInjective(compress: Compress, hash2: (int, int) -> int, a: bytes, b: bytes)
    requires CollisionFree(compress, RATE_T7) && NeverZero(compress, RATE_T7)
    requires forall x, y, x', y' :: hash2(x, y) == hash2(x', y') ==> x == x' && y == y'
    requires |a| <= MAX_LEAF_SPKI && |b| <= MAX_LEAF_SPKI
    ensures KeyCommit(compress, hash2, a) == KeyCommit(compress, hash2, b) <==> a == b
  {
    if KeyCommit(compress, hash2, a) == KeyCommit(compress, hash2, b) {
      ChunkHashInjective(compress, RATE_T7, a, b);
    }
  }

  /** Of any hashes: two different admissible keys with one commitment give two different inputs
      of the outer hash one value, or break the sponge. */
  lemma KeyCommitBreaks(compress: Compress, hash2: (int, int) -> int, a: bytes, b: bytes) returns (i: nat, j: nat)
    requires |a| <= MAX_LEAF_SPKI && |b| <= MAX_LEAF_SPKI && a != b
    requires KeyCommit(compress, hash2, a) == KeyCommit(compress, hash2, b)
    ensures var x, y := ChunkHash(compress, RATE_T7, a), ChunkHash(compress, RATE_T7, b);
      || (x != y && hash2(KEY_COMMIT_DOMAIN, x) == hash2(KEY_COMMIT_DOMAIN, y))
      || Breaks(compress, Windows(Elements(a), RATE_T7), i, Windows(Elements(b), RATE_T7), j)
  {
    i, j := 0, 0;
    if ChunkHash(compress, RATE_T7, a) == ChunkHash(compress, RATE_T7, b) {
      i, j := ChunkHashBreaks(compress, RATE_T7, a, b);
    }
  }

  // ----- The source's loops -----

  /** F.e: reduction into the field. */
  function ToField(v: nat): nat {
    v % P
  }

  function ChunksFrom(data: bytes, i: nat): seq<nat> {
    if i < |data| then Chunks(data[i..]) else []
  }

  method PackChunks(data: bytes) returns (chunks: seq<nat>)
    ensures chunks == Chunks(data)
  {
    chunks := [];
    var i := 0;
    AllChunks(data);
    while i < |data|
      invariant chunks + ChunksFrom(data, i) == ChunksFrom(data, 0)
    {
      var end := if i + CHUNK < |data| then i + CHUNK else |data|;
      var v := PackChunk(data, i, end);
      NextChunk(data, i, end);
      Reassociate(chunks, v, ChunksFrom(data, i + CHUNK));
      chunks := chunks + [v];
      i := i + CHUNK;
    }
  }

  method PackChunk(data: bytes, i: nat, end: nat) returns (v: nat)
    requires i <= end <= |data|
    ensures v == BE(data[i..end])
  {
    v := 0;
    for j := i to end
      invariant v == BE(data[i..j])
    {
      BESnoc(data[i..j], data[j]);
      assert data[i..j + 1] == data[i..j] + [data[j]];
      v := v * 256 + data[j];   // (v << 8n) | byte
    }
  }

  lemma Reassociate<T>(front: seq<T>, x: T, back: seq<T>)
    ensures front + ([x] + back) == (front + [x]) + back
  {
  }

  lemma AllChunks(data: bytes)
    ensures ChunksFrom(data, 0) == Chunks(data)
  {
    assert data[0..] == data;
  }

  lemma NextChunk(data: bytes, i: nat, end: nat)
    requires i < |data| && end == if i + CHUNK < |data| then i + CHUNK else |data|
    ensures ChunksFrom(data, i) == [BE(data[i..end])] + ChunksFrom(data, i + CHUNK)
  {
    if i + CHUNK < |data| {
      assert data[i..][..CHUNK] == data[i..end] && data[i..][CHUNK..] == data[i + CHUNK..];
    } else {
      assert data[i..] == data[i..end];
    }
  }

  method FillWindow(chunks: seq<nat>, i: nat, rate: nat) returns (result: seq<nat>)
    requires i < |chunks| && forall k :: 0 <= k < |chunks| ==> chunks[k] < P
    ensures result == Window(chunks[i..], rate)
  {
    var window := new nat[rate];
    for j := 0 to rate
      invariant forall k :: 0 <= k < j ==> window[k] == EntryOf(chunks[i..], k)
    {
      window[j] := ToField(if i + j < |chunks| then chunks[i + j] else 0);
    }
    return window[..];
  }

  function WindowsFrom(fe: seq<nat>, i: nat, rate: nat): seq<seq<nat>>
    requires rate > 0
  {
    if i < |fe| then Windows(fe[i..], rate) else []
  }

  /** The sponge loop for any rate; array lengths are far below P. */
  method PoseidonChunkHash(compress: Compress, rate: nat, data: bytes) returns (state: int)
    requires rate > 0 && |data| < P
    ensures state == ChunkHash(compress, rate, data)
  {
    var packed := PackChunks(data);
    forall k | 0 <= k < |packed| ensures packed[k] < P {
      ChunkBound(data, k);
    }
    var chunks := packed + [|data|];
    state := AbsorbChunks(compress, rate, chunks);
  }

  method AbsorbChunks(compress: Compress, rate: nat, chunks: seq<nat>) returns (state: int)
    requires rate > 0 && forall k :: 0 <= k < |chunks| ==> chunks[k] < P
    ensures state == Absorb(compress, Windows(chunks, rate))
  {
    state := 0;
    var i := 0;
    ghost var absorbed: seq<seq<nat>> := [];
    assert chunks[0..] == chunks;
    while i < |chunks|
      invariant state == Absorb(compress, absorbed)
      invariant absorbed + WindowsFrom(chunks, i, rate) == Windows(chunks, rate)
    {
      var window := FillWindow(chunks, i, rate);
      NextWindow(chunks, i, rate);
      Reassociate(absorbed, window, WindowsFrom(chunks, i + rate, rate));
      AbsorbOne(compress, absorbed, window);
      absorbed := absorbed + [window];
      state := compress(state, window);
      i := i + rate;
    }
    assert Windows(chunks, rate) == absorbed;
  }

  lemma AbsorbOne(compress: Compress, ws: seq<seq<nat>>, w: seq<nat>)
    ensures Absorb(compress, ws + [w]) == compress(Absorb(compress, ws), w)
  {
    assert (ws + [w])[..|ws|] == ws;
  }

  lemma NextWindow(chunks: seq<nat>, i: nat, rate: nat)
    requires rate > 0 && i < |chunks|
    ensures WindowsFrom(chunks, i, rate) == [Window(chunks[i..], rate)] + WindowsFrom(chunks, i + rate, rate)
  {
    if i + rate < |chunks| {
      assert chunks[i..][rate..] == chunks[i + rate..];
    }
  }

  method PoseidonChunkHashVarT7(compress: Compress, data: bytes) returns (r: Result<int, SpongeError>)
    ensures r == if |data| > MAX_LEAF_SPKI then Err(InputTooLong) else Ok(ChunkHash(compress, RATE_T7, data))
  {
    if |data| > MAX_LEAF_SPKI { return Err(InputTooLong); }
    var state := PoseidonChunkHash(compress, RATE_T7, data);
    return Ok(state);
  }

  method PoseidonChunkHashVar(compress: Compress, data: bytes) returns (state: int)
    requires |data| < P
    ensures state == ChunkHash(compress, RATE_T16, data)
  {
    state := PoseidonChunkHash(compress, RATE_T16, data);
  }

  method CommitKey(compress: Compress, hash2: (int, int) -> int, spkiDer: bytes) returns (r: Result<int, SpongeError>)
    ensures r == KeyCommit(compress, hash2, spkiDer)
  {
    var inner := PoseidonChunkHashVarT7(compress, spkiDer);
    if inner.Err? { return Err(inner.error); }
    return Ok(hash2(KEY_COMMIT_DOMAIN, inner.value));
  }
}
