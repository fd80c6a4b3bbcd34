/** What the chunk-packing sponge feeds to the compression, told in octets of the input: which
    octets make up which place of which window, and in which order the windows are absorbed
    (packages/lotl-flattener/src/ca/keyCommit.ts, packages/circuits/src/poseidon-chunk-hash.ts). */
module SpongeLayout {
  import Arithmetic
  import opened Bytes
  import opened Results
  import opened Sponge

  /** The number of chunks of 31 octets, the last one perhaps shorter. */
  function ChunksOf(data: bytes): nat {
    (|data| + 30) / 31
  }

  /** The octets of chunk k. */
  function OctetsOf(data: bytes, k: nat): bytes
    requires 31 * k <= |data|
  {
    data[31 * k..if 31 * k + 31 < |data| then 31 * k + 31 else |data|]
  }

  /** What is absorbed at place k, counted over all windows: the chunks as big-endian numbers,
      then the length, then zeros. */
  function Absorbed(data: bytes, k: nat): nat {
    if k < ChunksOf(data) then BE(OctetsOf(data, k))
    else if k == ChunksOf(data) then |data|
    else 0
  }

  lemma {:induction false} ChunkIs(data: bytes, k: nat)
    requires k < ChunksOf(data)
    ensures k < |Chunks(data)| && Chunks(data)[k] == BE(OctetsOf(data, k))
  {
    ChunkCount(data);
    if k == 0 {
      assert |data| <= 31 ==> data[0..|data|] == data;
    } else {
      var rest := data[31..];
      ChunkIs(rest, k - 1);
      assert OctetsOf(rest, k - 1) == OctetsOf(data, k);
    }
  }

  lemma EntryIs(data: bytes, k: nat)
    ensures EntryOf(Elements(data), k) == Absorbed(data, k)
  {
    ChunkCount(data);
    if k < ChunksOf(data) { ChunkIs(data, k); }
  }

  /** Place j of window i, counted over all windows. */
  function PlaceOf(rate: nat, i: nat, j: nat): (k: nat)
    ensures k == i * rate + j
  {
    if i == 0 then j else rate + PlaceOf(rate, i - 1, j)
  }

  lemma {:induction false} WindowIs(fe: seq<nat>, rate: nat, i: nat, j: nat)
    requires rate > 0 && i < |Windows(fe, rate)| && j < rate
    ensures |Windows(fe, rate)[i]| == rate && Windows(fe, rate)[i][j] == EntryOf(fe, PlaceOf(rate, i, j))
  {
    if i > 0 {
      WindowIs(fe[rate..], rate, i - 1, j);
      NextWindowHas(fe, rate, i, PlaceOf(rate, i - 1, j));
    }
  }

  lemma NextWindowHas(fe: seq<nat>, rate: nat, i: nat, k: nat)
    requires rate > 0 && 0 < i < |Windows(fe, rate)|
    ensures |fe| > rate && Windows(fe, rate)[i] == Windows(fe[rate..], rate)[i - 1]
    ensures EntryOf(fe[rate..], k) == EntryOf(fe, rate + k)
  {
  }

  function WindowOf(data: bytes, rate: nat, i: nat): (w: seq<nat>)
    ensures |w| == rate
  {
    seq(rate, j requires 0 <= j < rate => Absorbed(data, PlaceOf(rate, i, j)))
  }

  /** Entry k of the input stands in window k / rate at place k % rate. */
  lemma WindowsAre(data: bytes, rate: nat)
    requires rate > 0
    ensures var ws := Windows(Elements(data), rate);
      |ws| == ChunksOf(data) / rate + 1 && forall i :: 0 <= i < |ws| ==> ws[i] == WindowOf(data, rate, i)
  {
    var ws := Windows(Elements(data), rate);
    RoundCount(data, rate);
    forall i | 0 <= i < |ws| ensures ws[i] == WindowOf(data, rate, i) {
      WindowIs(Elements(data), rate, i, 0);
      forall j | 0 <= j < rate ensures ws[i][j] == Absorbed(data, PlaceOf(rate, i, j)) {
        WindowIs(Elements(data), rate, i, j);
        EntryIs(data, PlaceOf(rate, i, j));
      }
    }
  }

  /** The states of a run: 0 at first, then the compression of the state with the next window,
      until the window that holds the length has been absorbed. */
  ghost predicate IsRun(compress: Compress, rate: nat, data: bytes, states: seq<int>)
    requires rate > 0
  {
    && |states| == ChunksOf(data) / rate + 2 && states[0] == 0
    && forall i :: 0 <= i < |states| - 1 ==> states[i + 1] == compress(states[i], WindowOf(data, rate, i))
  }

  lemma {:induction false} StatesAreAbsorbed(compress: Compress, rate: nat, data: bytes, states: seq<int>, n: nat)
    requires rate > 0 && IsRun(compress, rate, data, states) && n < |states|
    ensures n <= |Windows(Elements(data), rate)|
    ensures states[n] == Absorb(compress, Windows(Elements(data), rate)[..n])
  {
    var ws := Windows(Elements(data), rate);
    WindowsAre(data, rate);
    if n > 0 {
      StatesAreAbsorbed(compress, rate, data, states, n - 1);
      assert ws[..n] == ws[..n - 1] + [ws[n - 1]];
      AbsorbOne(compress, ws[..n - 1], ws[n - 1]);
    }
  }

  /** The chunk hash is the last state of the run. */
  lemma HashIsLastState(compress: Compress, rate: nat, data: bytes, states: seq<int>)
    requires rate > 0 && IsRun(compress, rate, data, states)
    ensures ChunkHash(compress, rate, data) == states[|states| - 1]
  {
    var ws := Windows(Elements(data), rate);
    WindowsAre(data, rate);
    StatesAreAbsorbed(compress, rate, data, states, |ws|);
    assert ws[..|ws|] == ws;
  }

  /** The key commitment hashes the domain constant and then that state, at rate 5, for keys of
      at most 600 octets, and refuses longer ones. */
  lemma CommitmentIs(compress: Compress, hash2: (int, int) -> int, spki: bytes, states: seq<int>)
    requires IsRun(compress, 5, spki, states)
    ensures KeyCommit(compress, hash2, spki) ==
      if |spki| > 600 then Err(InputTooLong) else Ok(hash2(KEY_COMMIT_DOMAIN, states[|states| - 1]))
  {
    HashIsLastState(compress, 5, spki, states);
  }
}
