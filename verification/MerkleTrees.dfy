/** The three Merkle tree builders: packages/lotl-flattener/src/tree/merkle.ts and
    packages/sdk/src/policy/index.ts, which run the same loops, and
    packages/contracts/script/generate-merkle-fixtures.ts, which seeds the empty leaf with a
    hash of its own. Each keeps only the filled prefix of every layer. */
module MerkleTrees {
  import opened Arithmetic
  import opened MerkleSpec
  import opened Results

  datatype TreeError = NegativeDepth | TooManyLeaves | NoLayers | NegativeIndex | NoLeaf
  datatype BuiltTree = BuiltTree(root: int, layers: seq<seq<int>>)
  datatype InclusionProof = InclusionProof(path: seq<int>, indices: seq<int>)

  // ----- Sparse layers -----

  /** layer, continued with roots of empty trees, is the whole level. */
  ghost predicate Covers(h: Hash2, zero: int, leaves: seq<int>, level: nat, layer: seq<int>) {
    forall i: nat :: CoversAt(h, zero, leaves, level, layer, i)
  }

  ghost predicate CoversAt(h: Hash2, zero: int, leaves: seq<int>, level: nat, layer: seq<int>, i: nat) {
    LeafAt(ZeroAt(h, zero, level), layer, i) == Node(h, zero, leaves, level, i)
  }

  ghost predicate CoversAll(h: Hash2, zero: int, leaves: seq<int>, layers: seq<seq<int>>) {
    forall level :: 0 <= level < |layers| ==> Covers(h, zero, leaves, level, layers[level])
  }

  ghost predicate AreZeros(h: Hash2, zero: int, zeros: seq<int>) {
    forall k :: 0 <= k < |zeros| ==> zeros[k] == ZeroAt(h, zero, k)
  }

  lemma SiblingEntry(h: Hash2, zero: int, leaves: seq<int>, level: nat, layer: seq<int>, i: nat)
    requires Covers(h, zero, leaves, level, layer)
    ensures (if i < |layer| then layer[i] else ZeroAt(h, zero, level)) == Node(h, zero, leaves, level, i)
  {
    assert CoversAt(h, zero, leaves, level, layer, i);
  }

  /** How many nodes of a level have a leaf of the list below them. */
  function FilledLength(n: nat, level: nat): nat {
    if level == 0 then n else (FilledLength(n, level - 1) + 1) / 2
  }

  lemma {:induction false} FilledFits(n: nat, level: nat, depth: nat)
    requires n <= Pow2(depth) && level <= depth
    ensures FilledLength(n, level) <= Pow2(depth - level)
  {
    if level > 0 { FilledFits(n, level - 1, depth); }
  }

  /** In closed form: n divided by 2^level, rounded up. */
  lemma {:induction false} FilledIsCeiling(n: nat, level: nat)
    ensures FilledLength(n, level) == (n + Pow2(level) - 1) / Pow2(level)
  {
    if level == 0 {
      assert Pow2(0) == 1;
    } else {
      FilledIsCeiling(n, level - 1);
      HalfOfCeiling(n, Pow2(level - 1));
    }
  }

  /** What a layer leaves out: past its filled prefix a level holds roots of empty trees only. */
  lemma PastFilledIsEmpty(h: Hash2, zero: int, leaves: seq<int>, level: nat, i: nat)
    requires i >= FilledLength(|leaves|, level)
    ensures Node(h, zero, leaves, level, i) == ZeroAt(h, zero, level)
  {
    FilledIsCeiling(|leaves|, level);
    PastCeiling(|leaves|, Pow2(level), i);
    EmptyNode(h, zero, leaves, level, i);
  }

  lemma PastCeiling(n: nat, p: nat, i: nat)
    requires p > 0 && i >= (n + p - 1) / p
    ensures i * p >= n
  {
    var q, r := (n + p - 1) / p, (n + p - 1) % p;
    assert n + p - 1 == q * p + r;
    assert i * p == q * p + (i - q) * p && (i - q) * p >= 0;
  }

  lemma HalfOfCeiling(n: nat, p: nat)
    requires p > 0
    ensures ((n + p - 1) / p + 1) / 2 == (n + 2 * p - 1) / (2 * p)
  {
    var q, r := (n + p - 1) / p, (n + p - 1) % p;
    assert n + p - 1 == q * p + r;
    var half, odd := (q + 1) / 2, (q + 1) % 2;
    assert q + 1 == 2 * half + odd;
    assert (q + 1) * p == (2 * half + odd) * p == half * (2 * p) + odd * p;
    assert n + 2 * p - 1 == (q + 1) * p + r;
    DivUnique(n + 2 * p - 1, 2 * p, half, odd * p + r);
  }

  predicate Filled(layers: seq<seq<int>>, n: nat) {
    forall level :: 0 <= level < |layers| ==> |layers[level]| == FilledLength(n, level)
  }

  /** Every layer has ceil(n / 2^level) entries. */
  predicate Ceilings(layers: seq<seq<int>>, n: nat) {
    forall level :: 0 <= level < |layers| ==> |layers[level]| == (n + Pow2(level) - 1) / Pow2(level)
  }

  lemma FilledAreCeilings(layers: seq<seq<int>>, n: nat)
    requires Filled(layers, n)
    ensures Ceilings(layers, n)
  {
    forall level | 0 <= level < |layers| ensures |layers[level]| == (n + Pow2(level) - 1) / Pow2(level) {
      FilledIsCeiling(n, level);
    }
  }

  ghost predicate IsPaired(h: Hash2, empty: int, cur: seq<int>, next: seq<int>) {
    && |next| == (|cur| + 1) / 2
    && forall i :: 0 <= i < |next| ==> next[i] == h(LeafAt(empty, cur, 2 * i), LeafAt(empty, cur, 2 * i + 1))
  }

  lemma PairedCovers(h: Hash2, zero: int, leaves: seq<int>, level: nat, cur: seq<int>, next: seq<int>)
    requires Covers(h, zero, leaves, level, cur) && IsPaired(h, ZeroAt(h, zero, level), cur, next)
    ensures Covers(h, zero, leaves, level + 1, next)
  {
    var up := level + 1;
    forall i: nat ensures CoversAt(h, zero, leaves, up, next, i) {
      PairedNode(h, zero, leaves, level, cur, next, i);
    }
  }

  lemma PairedNode(h: Hash2, zero: int, leaves: seq<int>, level: nat, cur: seq<int>, next: seq<int>, i: nat)
    requires Covers(h, zero, leaves, level, cur) && IsPaired(h, ZeroAt(h, zero, level), cur, next)
    ensures CoversAt(h, zero, leaves, level + 1, next, i)
  {
    assert CoversAt(h, zero, leaves, level, cur, 2 * i) && CoversAt(h, zero, leaves, level, cur, 2 * i + 1);
  }

  lemma FirstLayerCovers(h: Hash2, zero: int, leaves: seq<int>)
    ensures CoversAll(h, zero, leaves, [leaves])
  {
    forall i: nat ensures CoversAt(h, zero, leaves, 0, leaves, i) {
    }
  }

  lemma CoversOneMore(h: Hash2, zero: int, leaves: seq<int>, layers: seq<seq<int>>, next: seq<int>)
    requires CoversAll(h, zero, leaves, layers) && Covers(h, zero, leaves, |layers|, next)
    ensures CoversAll(h, zero, leaves, layers + [next])
  {
  }

  // ----- Flattener and policy -----

  const EMPTY_LEAF: int := 0

  method ZeroHashes(h: Hash2, depth: nat) returns (result: seq<int>)
    ensures |result| == depth + 1 && AreZeros(h, EMPTY_LEAF, result)
  {
    var zeros := new int[depth + 1];
    zeros[0] := EMPTY_LEAF;
    for i := 1 to depth + 1
      invariant forall k :: 0 <= k < i ==> zeros[k] == ZeroAt(h, EMPTY_LEAF, k)
    {
      zeros[i] := h(zeros[i - 1], zeros[i - 1]);
    }
    return zeros[..];
  }

  method NextLayer(h: Hash2, cur: seq<int>, empty: int) returns (result: seq<int>)
    ensures IsPaired(h, empty, cur, result)
  {
    var nextLen := (|cur| + 1) / 2;
    var next := new int[nextLen];
    for i := 0 to nextLen
      invariant forall k :: 0 <= k < i ==> next[k] == h(LeafAt(empty, cur, 2 * k), LeafAt(empty, cur, 2 * k + 1))
    {
      var left := if 2 * i < |cur| then cur[2 * i] else empty;
      var right := if 2 * i + 1 < |cur| then cur[2 * i + 1] else empty;
      next[i] := h(left, right);
    }
    return next[..];
  }

  /** The sparse root is the root of the full tree over the padded leaves. */
  method BuildTree(h: Hash2, leaves: seq<int>, depth: int) returns (r: Result<BuiltTree, TreeError>)
    ensures r.Err? <==> depth < 0 || |leaves| > Pow2(depth)
    ensures r.Err? ==> r.error == if depth < 0 then NegativeDepth else TooManyLeaves
    ensures r.Ok? ==>
      && r.value.root == FullRoot(h, depth, Padded(EMPTY_LEAF, leaves, depth))
      && |r.value.layers| == depth + 1 && r.value.layers[0] == leaves
      && CoversAll(h, EMPTY_LEAF, leaves, r.value.layers)
      && Ceilings(r.value.layers, |leaves|)
  {
    if depth < 0 { return Err(NegativeDepth); }
    var capacity := Pow2(depth);
    if |leaves| > capacity { return Err(TooManyLeaves); }
    var zeros := ZeroHashes(h, depth);
    var layers := BuildLayers(h, leaves, depth, zeros);
    var top := layers[depth];
    var root := if |top| == 1 then top[0] else zeros[depth];
    FilledIsCeiling(|leaves|, depth);
    TopIsRoot(h, leaves, depth, top);
    return Ok(BuiltTree(root, layers));
  }

  lemma TopIsRoot(h: Hash2, leaves: seq<int>, depth: nat, top: seq<int>)
    requires |leaves| <= Pow2(depth) && |top| == FilledLength(|leaves|, depth)
    requires Covers(h, EMPTY_LEAF, leaves, depth, top)
    ensures (if |top| == 1 then top[0] else ZeroAt(h, EMPTY_LEAF, depth)) ==
            FullRoot(h, depth, Padded(EMPTY_LEAF, leaves, depth))
  {
    FilledFits(|leaves|, depth, depth);
    RootIsFullRoot(h, EMPTY_LEAF, leaves, depth);
    assert CoversAt(h, EMPTY_LEAF, leaves, depth, top, 0);
  }

  method BuildLayers(h: Hash2, leaves: seq<int>, depth: nat, zeros: seq<int>) returns (layers: seq<seq<int>>)
    requires |zeros| == depth + 1 && AreZeros(h, EMPTY_LEAF, zeros)
    ensures |layers| == depth + 1 && layers[0] == leaves
    ensures CoversAll(h, EMPTY_LEAF, leaves, layers)
    ensures Ceilings(layers, |leaves|)
  {
    layers := [leaves];
    FirstLayerCovers(h, EMPTY_LEAF, leaves);
    for level := 0 to depth
      invariant |layers| == level + 1 && layers[0] == leaves
      invariant CoversAll(h, EMPTY_LEAF, leaves, layers)
      invariant Filled(layers, |leaves|)
    {
      var cur := layers[level];
      var next := NextLayer(h, cur, zeros[level]);
      PairedCovers(h, EMPTY_LEAF, leaves, level, cur, next);
      CoversOneMore(h, EMPTY_LEAF, leaves, layers, next);
      layers := layers + [next];
    }
    FilledAreCeilings(layers, |leaves|);
  }

  // ----- Inclusion proofs, with the 32-bit shift of the index -----

  /** i >> 1 */
  function ShiftRight(i: int): int {
    ToInt32(i) / 2
  }

  function Shifted(index: int, level: nat): int {
    if level == 0 then index else ShiftRight(Shifted(index, level - 1))
  }

  /** i % 2 === 1, which no negative number satisfies. */
  predicate IsRight(i: int) {
    i >= 0 && i % 2 == 1
  }

  function SiblingIndex(i: int): int {
    if IsRight(i) then i - 1 else i + 1
  }

  function Entry(layer: seq<int>, k: int, empty: int): int {
    if 0 <= k < |layer| then layer[k] else empty
  }

  /** The first n path entries and directions that the loop writes. */
  function PathUpTo(layers: seq<seq<int>>, index: int, zeros: seq<int>, n: nat): (path: seq<int>)
    requires n <= |layers| && n <= |zeros|
    ensures |path| == n
  {
    if n == 0 then []
    else PathUpTo(layers, index, zeros, n - 1) + [Entry(layers[n - 1], SiblingIndex(Shifted(index, n - 1)), zeros[n - 1])]
  }

  function DirectionsUpTo(index: int, n: nat): (bits: seq<int>)
    ensures |bits| == n
  {
    if n == 0 then [] else DirectionsUpTo(index, n - 1) + [if IsRight(Shifted(index, n - 1)) then 1 else 0]
  }

  function ProofFor(layers: seq<seq<int>>, index: int, zeros: seq<int>): (proof: InclusionProof)
    requires 0 < |layers| <= |zeros| + 1
    ensures |proof.path| == |proof.indices| == |layers| - 1
  {
    InclusionProof(PathUpTo(layers, index, zeros, |layers| - 1), DirectionsUpTo(index, |layers| - 1))
  }

  lemma OneLonger(s: seq<int>, n: nat)
    requires |s| == n + 1
    ensures s == s[..n] + [s[n]]
  {
  }

  /** The loop of proveInclusionWithZeros and of the policy copy of proveInclusionAsync. */
  method ProveWithZeros(layers: seq<seq<int>>, index: int, zeros: seq<int>) returns (r: InclusionProof)
    requires 0 < |layers| <= |zeros| + 1
    ensures r == ProofFor(layers, index, zeros)
  {
    var depth := |layers| - 1;
    var path, indices := new int[depth], new int[depth];
    var i := index;
    for level := 0 to depth
      invariant i == Shifted(index, level)
      invariant path[..level] == PathUpTo(layers, index, zeros, level)
      invariant indices[..level] == DirectionsUpTo(index, level)
    {
      var layer := layers[level];
      var isRight := IsRight(i);
      var siblingIdx := if isRight then i - 1 else i + 1;
      path[level] := if 0 <= siblingIdx < |layer| then layer[siblingIdx] else zeros[level];
      indices[level] := if isRight then 1 else 0;
      OneLonger(path[..level + 1], level);
      OneLonger(indices[..level + 1], level);
      i := ShiftRight(i);
    }
    assert path[..] == path[..depth] && indices[..] == indices[..depth];
    return InclusionProof(path[..], indices[..]);
  }

  method ProveInclusion(layers: seq<seq<int>>, index: int, zeros: seq<int>) returns (r: Result<InclusionProof, TreeError>)
    requires |layers| <= |zeros| + 1
    ensures r == if |layers| == 0 then Err(NoLayers) else if index < 0 then Err(NegativeIndex)
                 else Ok(ProofFor(layers, index, zeros))
  {
    if |layers| == 0 { return Err(NoLayers); }
    if index < 0 { return Err(NegativeIndex); }
    var proof := ProveWithZeros(layers, index, zeros);
    return Ok(proof);
  }

  const INT32_LIMIT: int := 0x8000_0000

  lemma {:induction false} ShiftedIsUp(index: nat, level: nat)
    requires index < INT32_LIMIT
    ensures Shifted(index, level) == Up(index, level) < INT32_LIMIT
  {
    if level > 0 { ShiftedIsUp(index, level - 1); }
  }

  lemma {:induction false} PathEntry(layers: seq<seq<int>>, index: int, zeros: seq<int>, n: nat, k: nat)
    requires k < n <= |layers| && n <= |zeros|
    ensures PathUpTo(layers, index, zeros, n)[k] == Entry(layers[k], SiblingIndex(Shifted(index, k)), zeros[k])
  {
    if k < n - 1 { PathEntry(layers, index, zeros, n - 1, k); }
  }

  lemma EntryIsSibling(h: Hash2, zero: int, leaves: seq<int>, layers: seq<seq<int>>, index: nat, zeros: seq<int>, k: nat)
    requires k < |layers| && k < |zeros| && index < INT32_LIMIT
    requires CoversAll(h, zero, leaves, layers) && AreZeros(h, zero, zeros)
    ensures Entry(layers[k], SiblingIndex(Shifted(index, k)), zeros[k]) == Node(h, zero, leaves, k, Sibling(Up(index, k)))
  {
    ShiftedIsUp(index, k);
    SiblingEntry(h, zero, leaves, k, layers[k], Sibling(Up(index, k)));
  }

  lemma {:induction false} DirectionsAreBits(index: nat, depth: nat, n: nat)
    requires n <= depth && index < INT32_LIMIT
    ensures DirectionsUpTo(index, n) == BitsOf(index, depth)[..n]
  {
    if n > 0 {
      DirectionsAreBits(index, depth, n - 1);
      ShiftedIsUp(index, n - 1);
      var bits := BitsOf(index, depth);
      assert bits[..n] == bits[..n - 1] + [bits[n - 1]];
    }
  }

  /** For an index below 2^31, the produced proof is the siblings and the direction bits. */
  lemma ProofIsSiblings(h: Hash2, zero: int, leaves: seq<int>, layers: seq<seq<int>>, index: nat, zeros: seq<int>)
    requires 0 < |layers| <= |zeros| + 1 && index < INT32_LIMIT
    requires CoversAll(h, zero, leaves, layers) && AreZeros(h, zero, zeros)
    ensures var depth := |layers| - 1;
      ProofFor(layers, index, zeros) ==
        InclusionProof(SiblingsOf(h, zero, leaves, index, depth), BitsOf(index, depth))
  {
    var depth := |layers| - 1;
    var path, siblings := PathUpTo(layers, index, zeros, depth), SiblingsOf(h, zero, leaves, index, depth);
    forall k | 0 <= k < depth ensures path[k] == siblings[k] {
      PathEntry(layers, index, zeros, depth, k);
      EntryIsSibling(h, zero, leaves, layers, index, zeros, k);
    }
    assert path == siblings;
    DirectionsAreBits(index, depth, depth);
    assert BitsOf(index, depth)[..depth] == BitsOf(index, depth);
  }

  method RecomputePolicyRoot(h: Hash2, leaf: int, path: seq<int>, indices: seq<int>) returns (cur: int)
    ensures cur == Recompute(h, leaf, path, indices, |path|)
  {
    cur := leaf;
    for level := 0 to |path|
      invariant cur == Recompute(h, leaf, path, indices, level)
    {
      var sibling := path[level];
      var isRight := (if level < |indices| then indices[level] else 0) == 1;
      cur := if isRight then h(sibling, cur) else h(cur, sibling);
    }
  }

  datatype PolicyProof = PolicyProof(index: nat, leaf: int, path: seq<int>, indices: seq<int>, root: int)

  /** What buildPolicyTreeFromLeaves returns. */
  ghost predicate IsTreeOver(h: Hash2, leaves: seq<int>, tree: BuiltTree) {
    && |tree.layers| > 0 && CoversAll(h, EMPTY_LEAF, leaves, tree.layers)
    && tree.root == FullRoot(h, |tree.layers| - 1, Padded(EMPTY_LEAF, leaves, |tree.layers| - 1))
  }

  /** For an index of the tree below 2^31, the proof recomputes the root from its leaf, and its
      directions spell the index. */
  ghost predicate LeadsToRoot(h: Hash2, tree: BuiltTree, proof: PolicyProof)
    requires |tree.layers| > 0
  {
    proof.index < INT32_LIMIT && proof.index < Pow2(|tree.layers| - 1) ==>
      && Recompute(h, proof.leaf, proof.path, proof.indices, |proof.path|) == tree.root
      && Spelled(proof.indices, |proof.indices|) == proof.index
  }

  lemma ProofLeadsToRoot(h: Hash2, leaves: seq<int>, tree: BuiltTree, index: nat, zeros: seq<int>)
    requires IsTreeOver(h, leaves, tree) && |tree.layers| <= |zeros| + 1 && AreZeros(h, EMPTY_LEAF, zeros)
    requires index < |leaves|
    ensures var proof := ProofFor(tree.layers, index, zeros);
      LeadsToRoot(h, tree, PolicyProof(index, leaves[index], proof.path, proof.indices, tree.root))
  {
    if index < INT32_LIMIT && index < Pow2(|tree.layers| - 1) {
      PolicyProofIsSound(h, leaves, tree.layers, index, zeros);
    }
  }

  /** A policy proof is made exactly for the indices of leaves: elsewhere the leaf is undefined,
      and writing it in hexadecimal throws. */
  method BuildPolicyInclusionProof(h: Hash2, leaves: seq<int>, tree: BuiltTree, index: int)
    returns (r: Result<PolicyProof, TreeError>)
    requires |tree.layers| > 0
    ensures r.Err? <==> !(0 <= index < |leaves|)
    ensures r.Err? ==> r.error == NoLeaf
    ensures r.Ok? ==>
      && r.value.index == index && r.value.leaf == leaves[index] && r.value.root == tree.root
      && |r.value.path| == |r.value.indices| == |tree.layers| - 1
      && (IsTreeOver(h, leaves, tree) ==> LeadsToRoot(h, tree, r.value))
      && (index < Pow2(|tree.layers| - 1) ==>
           (Spelled(r.value.indices, |r.value.indices|) == index <==> index < INT32_LIMIT))
  {
    var depth := |tree.layers| - 1;
    var zeros := ZeroHashes(h, depth);
    var proof := ProveWithZeros(tree.layers, index, zeros);
    if !(0 <= index < |leaves|) { return Err(NoLeaf); }
    if IsTreeOver(h, leaves, tree) { ProofLeadsToRoot(h, leaves, tree, index, zeros); }
    ProvedDirections(index, depth);
    return Ok(PolicyProof(index, leaves[index], proof.path, proof.indices, tree.root));
  }

  lemma PolicyProofIsSound(h: Hash2, leaves: seq<int>, layers: seq<seq<int>>, index: nat, zeros: seq<int>)
    requires 0 < |layers| <= |zeros| + 1 && index < INT32_LIMIT && index < Pow2(|layers| - 1)
    requires CoversAll(h, EMPTY_LEAF, leaves, layers) && AreZeros(h, EMPTY_LEAF, zeros)
    ensures var proof := ProofFor(layers, index, zeros);
      && Recompute(h, LeafAt(EMPTY_LEAF, leaves, index), proof.path, proof.indices, |proof.path|)
         == FullRoot(h, |layers| - 1, Padded(EMPTY_LEAF, leaves, |layers| - 1))
      && Spelled(proof.indices, |proof.indices|) == index
  {
    var depth := |layers| - 1;
    ProofIsSiblings(h, EMPTY_LEAF, leaves, layers, index, zeros);
    PathRecomputesRoot(h, EMPTY_LEAF, leaves, index, depth);
    BitsSpellIndex(index, depth);
  }

  // ----- Where the 32-bit shift fails -----

  lemma {:induction false} ShiftedShrinks(index: nat, level: nat)
    requires 1 <= level <= 31
    ensures 0 - Pow2(31 - level) <= Shifted(index, level) < Pow2(31 - level)
  {
    PowValues();
    if level == 1 {
      ShiftHalves(index, Pow2(30));
    } else {
      ShiftedShrinks(index, level - 1);
      PowAtMost(32 - level, 31);
      SmallShiftHalves(Shifted(index, level - 1), Pow2(31 - level));
    }
  }

  lemma ShiftHalves(i: int, p: nat)
    requires p == 0x4000_0000
    ensures 0 - p <= ShiftRight(i) < p
  {
  }

  lemma SmallShiftHalves(i: int, p: nat)
    requires p <= 0x4000_0000 && 0 - 2 * p <= i < 2 * p
    ensures 0 - p <= ShiftRight(i) < p
  {
    assert ToInt32(i) == i;
  }

  lemma {:induction false} NoBitsFrom31(index: nat, level: nat)
    requires level >= 31
    ensures -1 <= Shifted(index, level) <= 0
  {
    if level == 31 { ShiftedShrinks(index, 31); } else { NoBitsFrom31(index, level - 1); }
  }

  lemma {:induction false} DirectionsBound(index: nat, n: nat)
    requires index >= INT32_LIMIT
    ensures 0 <= Spelled(DirectionsUpTo(index, n), n) < INT32_LIMIT
    ensures Spelled(DirectionsUpTo(index, n), n) < Pow2(n)
  {
    PowValues();
    if n > 0 {
      DirectionsBound(index, n - 1);
      var front := DirectionsUpTo(index, n - 1);
      var last := if IsRight(Shifted(index, n - 1)) then 1 else 0;
      SpelledSnoc(front, last);
      if n <= 31 { PowAtMost(n, 31); } else { NoBitsFrom31(index, n - 1); }
    }
  }

  lemma SpelledSnoc(bits: seq<int>, b: int)
    requires 0 <= b <= 1
    ensures Spelled(bits + [b], |bits| + 1) == Spelled(bits, |bits|) + if b == 1 then Pow2(|bits|) else 0
  {
    SpelledPrefix(bits, b, |bits|);
  }

  lemma {:induction false} SpelledPrefix(bits: seq<int>, b: int, n: nat)
    requires n <= |bits|
    ensures Spelled(bits + [b], n) == Spelled(bits, n)
  {
    if n > 0 { SpelledPrefix(bits, b, n - 1); }
  }

  /** The produced direction bits spell the index exactly when it is below 2^31: the shift
      drops the upper bits of any larger index. */
  lemma DirectionsSpellIndex(index: nat, depth: nat)
    requires index < Pow2(depth)
    ensures Spelled(DirectionsUpTo(index, depth), depth) == index <==> index < INT32_LIMIT
  {
    if index < INT32_LIMIT {
      DirectionsAreBits(index, depth, depth);
      assert BitsOf(index, depth)[..depth] == BitsOf(index, depth);
      BitsSpellIndex(index, depth);
    } else {
      DirectionsBound(index, depth);
    }
  }

  ghost predicate OpensRoot(h: Hash2, leaves: seq<int>, depth: nat, leaf: int, proof: InclusionProof)
    requires |proof.path| == depth
  {
    Recompute(h, leaf, proof.path, proof.indices, depth) == FullRoot(h, depth, Padded(EMPTY_LEAF, leaves, depth))
  }

  /** Leaf and path are those of the index that the directions lead to. */
  ghost predicate IsHonest(h: Hash2, leaves: seq<int>, depth: nat, leaf: int, proof: InclusionProof) {
    var led := IndexOf(proof.indices, depth);
    leaf == LeafAt(EMPTY_LEAF, leaves, led) && proof.path == SiblingsOf(h, EMPTY_LEAF, leaves, led, depth)
  }

  /** Of any index, above 2^31 too: with a collision-free hash the proof opens the root exactly
      when its leaf and its path are those of the index that its directions lead to. */
  lemma ProofOpensRootIff(h: Hash2, leaves: seq<int>, layers: seq<seq<int>>, index: int, zeros: seq<int>, leaf: int)
    requires CollisionFree(h) && 0 < |layers| <= |zeros| + 1
    ensures var depth, proof := |layers| - 1, ProofFor(layers, index, zeros);
      OpensRoot(h, leaves, depth, leaf, proof) <==> IsHonest(h, leaves, depth, leaf, proof)
  {
    HonestOpensRoot(h, leaves, |layers| - 1, leaf, ProofFor(layers, index, zeros));
  }

  lemma HonestOpensRoot(h: Hash2, leaves: seq<int>, depth: nat, leaf: int, proof: InclusionProof)
    requires CollisionFree(h) && |proof.path| == depth
    ensures OpensRoot(h, leaves, depth, leaf, proof) <==> IsHonest(h, leaves, depth, leaf, proof)
  {
    TreeIsBinding(h, EMPTY_LEAF, leaves, proof.indices, depth, leaf, proof.path);
  }

  lemma {:induction false} FilledNode(h: Hash2, zero: int, x: int, level: nat)
    requires CollisionFree(h) && x != zero
    ensures Node(h, zero, [x], level, 0) != ZeroAt(h, zero, level)
  {
    if level > 0 { FilledNode(h, zero, x, level - 1); }
  }

  lemma {:induction false} Halfway(level: nat)
    requires 1 <= level <= 31
    ensures Shifted(INT32_LIMIT, level) == 0 - Pow2(31 - level)
  {
    PowValues();
    if level > 1 {
      Halfway(level - 1);
      PowAtMost(31 - level, 30);
      HalveNegative(Pow2(31 - level));
    }
  }

  lemma HalveNegative(p: nat)
    requires p <= 0x4000_0000
    ensures ShiftRight(0 - 2 * p) == 0 - p
  {
    assert ToInt32(0 - 2 * p) == 0 - 2 * p;
  }

  /** Index 2^31 of a tree of depth 32 that holds one leaf: the shift goes negative, the last
      level takes the filled half for the sibling, and the proof does not recompute the root. */
  lemma LargeIndexFails(h: Hash2, x: int, layers: seq<seq<int>>, zeros: seq<int>)
    requires CollisionFree(h) && x != EMPTY_LEAF && |layers| == 33 && |zeros| >= 32
    requires CoversAll(h, EMPTY_LEAF, [x], layers) && AreZeros(h, EMPTY_LEAF, zeros)
    ensures INT32_LIMIT < Pow2(32)
    ensures var proof := ProofFor(layers, INT32_LIMIT, zeros);
      !OpensRoot(h, [x], 32, EMPTY_LEAF, proof)
  {
    var proof := ProofFor(layers, INT32_LIMIT, zeros);
    PowValues();
    LastEntry(h, x, layers, zeros);
    EmptyNode(h, EMPTY_LEAF, [x], 31, 1);
    FilledNode(h, EMPTY_LEAF, x, 31);
    RootIsFullRoot(h, EMPTY_LEAF, [x], 32);
    LastStep(h, EMPTY_LEAF, proof.path, proof.indices);
    RightChildDiffers(h, Recompute(h, EMPTY_LEAF, proof.path, proof.indices, 31), proof.path[31],
                      Node(h, EMPTY_LEAF, [x], 31, 0), Node(h, EMPTY_LEAF, [x], 31, 1));
  }

  lemma LastEntry(h: Hash2, x: int, layers: seq<seq<int>>, zeros: seq<int>)
    requires |layers| == 33 && |zeros| >= 32
    requires CoversAll(h, EMPTY_LEAF, [x], layers) && AreZeros(h, EMPTY_LEAF, zeros)
    ensures var proof := ProofFor(layers, INT32_LIMIT, zeros);
      proof.path[31] == Node(h, EMPTY_LEAF, [x], 31, 0) && proof.indices[31] == 0
  {
    Halfway(31);
    assert Pow2(0) == 1;
    PathEntry(layers, INT32_LIMIT, zeros, 32, 31);
    SiblingEntry(h, EMPTY_LEAF, [x], 31, layers[31], 0);
  }

  lemma LastStep(h: Hash2, leaf: int, path: seq<int>, bits: seq<int>)
    requires |path| == |bits| == 32 && bits[31] == 0
    ensures Recompute(h, leaf, path, bits, 32) == h(Recompute(h, leaf, path, bits, 31), path[31])
  {
  }

  lemma RightChildDiffers(h: Hash2, a: int, b: int, c: int, d: int)
    requires CollisionFree(h) && b != d
    ensures h(a, b) != h(c, d)
  {
  }

  lemma ProvedDirections(index: int, depth: nat)
    ensures 0 <= index < Pow2(depth) ==>
      (Spelled(DirectionsUpTo(index, depth), depth) == index <==> index < INT32_LIMIT)
  {
    if 0 <= index < Pow2(depth) { DirectionsSpellIndex(index, depth); }
  }

  // ----- Contract fixtures -----

  const DEPTH: nat := 16

  datatype LeafProof = LeafProof(index: nat, leaf: int, siblings: seq<int>, pathBits: nat)
  datatype FixtureTree = FixtureTree(root: int, proofs: seq<LeafProof>)

  method FixtureZeros(h1: int -> int, h2: Hash2) returns (zeros: seq<int>)
    ensures |zeros| == DEPTH + 1 && AreZeros(h2, h1(0), zeros)
  {
    zeros := [h1(0)];
    for i := 1 to DEPTH + 1
      invariant |zeros| == i && AreZeros(h2, h1(0), zeros)
    {
      zeros := zeros + [h2(zeros[i - 1], zeros[i - 1])];
    }
  }

  method FixtureNext(h: Hash2, cur: seq<int>, empty: int) returns (next: seq<int>)
    ensures IsPaired(h, empty, cur, next)
  {
    next := [];
    var i := 0;
    while i < |cur|
      invariant i == 2 * |next| && |next| <= (|cur| + 1) / 2
      invariant forall k :: 0 <= k < |next| ==> next[k] == h(LeafAt(empty, cur, 2 * k), LeafAt(empty, cur, 2 * k + 1))
    {
      var left := cur[i];
      var right := if i + 1 < |cur| then cur[i + 1] else empty;
      next := next + [h(left, right)];
      i := i + 2;
    }
  }

  /** When a layer is empty, the next one is given the root of an empty tree. */
  method FixtureLayers(h: Hash2, zero: int, leaves: seq<int>, zeros: seq<int>, depth: nat) returns (layers: seq<seq<int>>)
    requires |zeros| == depth + 1 && AreZeros(h, zero, zeros)
    ensures |layers| == depth + 1 && CoversAll(h, zero, leaves, layers)
    ensures depth > 0 ==> |layers[depth]| >= 1
  {
    var cur := leaves;
    layers := [cur];
    FirstLayerCovers(h, zero, leaves);
    for level := 0 to depth
      invariant |layers| == level + 1 && cur == layers[level]
      invariant CoversAll(h, zero, leaves, layers)
      invariant level > 0 ==> |cur| >= 1
    {
      var next := FixtureNext(h, cur, zeros[level]);
      PairedCovers(h, zero, leaves, level, cur, next);
      cur := if |next| == 0 then [zeros[level + 1]] else next;
      CoversWithEmptyRoot(h, zero, leaves, level + 1, next);
      CoversOneMore(h, zero, leaves, layers, cur);
      layers := layers + [cur];
    }
  }

  lemma CoversWithEmptyRoot(h: Hash2, zero: int, leaves: seq<int>, level: nat, layer: seq<int>)
    requires Covers(h, zero, leaves, level, layer)
    ensures |layer| == 0 ==> Covers(h, zero, leaves, level, [ZeroAt(h, zero, level)])
  {
    if |layer| == 0 {
      var empty := ZeroAt(h, zero, level);
      forall i: nat ensures CoversAt(h, zero, leaves, level, [empty], i) {
        assert CoversAt(h, zero, leaves, level, layer, i);
      }
    }
  }

  /** Each 1n << level is or-ed into bits that are still clear, so the union is a sum. */
  method FixtureProof(h: Hash2, zero: int, leaves: seq<int>, layers: seq<seq<int>>, zeros: seq<int>,
                      index: nat, depth: nat)
    returns (proof: LeafProof)
    requires |zeros| == depth + 1 && AreZeros(h, zero, zeros)
    requires |layers| == depth + 1 && CoversAll(h, zero, leaves, layers)
    requires index < |leaves| && index < Pow2(depth) && index < INT32_LIMIT
    ensures proof == LeafProof(index, leaves[index], SiblingsOf(h, zero, leaves, index, depth), index)
  {
    var siblings: seq<int>, pathBits: nat, idx: nat := [], 0, index;
    for level := 0 to depth
      invariant idx == Up(index, level)
      invariant siblings == PathUpTo(layers, index, zeros, level)
      invariant pathBits == LowBits(index, level)
    {
      var layer := layers[level];
      var siblingIdx := Sibling(idx);   // idx ^ 1
      siblings := siblings + [if siblingIdx < |layer| then layer[siblingIdx] else zeros[level]];
      ShiftedIsUp(index, level);
      if idx % 2 == 1 { pathBits := pathBits + Pow2(level); }
      idx := idx / 2;
    }
    UpToRoot(index, depth);
    LowBitsBelowUp(index, depth);
    ProofIsSiblings(h, zero, leaves, layers, index, zeros);
    return LeafProof(index, leaves[index], siblings, pathBits);
  }

  /** The n lowest bits of index. */
  function LowBits(index: nat, n: nat): nat {
    if n == 0 then 0
    else if Up(index, n - 1) % 2 == 1 then LowBits(index, n - 1) + Pow2(n - 1)
    else LowBits(index, n - 1)
  }

  lemma {:induction false} LowBitsBelowUp(index: nat, n: nat)
    ensures LowBits(index, n) + Up(index, n) * Pow2(n) == index
  {
    if n > 0 {
      LowBitsBelowUp(index, n - 1);
      SplitBit(Up(index, n - 1), Pow2(n - 1));
    }
  }

  /** proofs[i] is the honest proof of leaf i. */
  ghost predicate ProvesLeaves(h: Hash2, zero: int, leaves: seq<int>, proofs: seq<LeafProof>)
    requires |proofs| <= |leaves|
  {
    forall i :: 0 <= i < |proofs| ==> proofs[i] == LeafProof(i, leaves[i], SiblingsOf(h, zero, leaves, i, DEPTH), i)
  }

  /** The fixture's root and proofs obey the same theorem with their own zero leaf. */
  method BuildFixtureTree(h1: int -> int, h2: Hash2, leaves: seq<int>) returns (r: Result<FixtureTree, TreeError>)
    ensures r.Err? <==> |leaves| > Pow2(DEPTH)
    ensures r.Err? ==> r.error == TooManyLeaves
    ensures r.Ok? ==>
      && r.value.root == FullRoot(h2, DEPTH, Padded(h1(0), leaves, DEPTH))
      && |r.value.proofs| == |leaves| && ProvesLeaves(h2, h1(0), leaves, r.value.proofs)
  {
    if |leaves| > Pow2(DEPTH) { return Err(TooManyLeaves); }
    var zeros := FixtureZeros(h1, h2);
    var layers := FixtureLayers(h2, h1(0), leaves, zeros, DEPTH);
    var root := layers[DEPTH][0];
    SiblingEntry(h2, h1(0), leaves, DEPTH, layers[DEPTH], 0);
    RootIsFullRoot(h2, h1(0), leaves, DEPTH);
    PowValues();
    var proofs := [];
    for index := 0 to |leaves|
      invariant |proofs| == index && ProvesLeaves(h2, h1(0), leaves, proofs)
    {
      var proof := FixtureProof(h2, h1(0), leaves, layers, zeros, index, DEPTH);
      proofs := proofs + [proof];
    }
    return Ok(FixtureTree(root, proofs));
  }
}
