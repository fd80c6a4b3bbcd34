/** What the Poseidon Merkle trees mean: the full binary tree of 2^depth leaves, in which
    leaves past the end of the list are the zero leaf. The two-input hash is a parameter. */
module MerkleSpec {
  import opened Arithmetic

  type Hash2 = (int, int) -> int

  ghost predicate CollisionFree(h: Hash2) {
    forall a, b, c, d :: h(a, b) == h(c, d) ==> a == c && b == d
  }

  /** Leaf i of the padded tree. */
  function LeafAt(zero: int, leaves: seq<int>, i: nat): int {
    if i < |leaves| then leaves[i] else zero
  }

  /** Node i of a level, counted from the leaves upwards. */
  function Node(h: Hash2, zero: int, leaves: seq<int>, level: nat, i: nat): int {
    if level == 0 then LeafAt(zero, leaves, i)
    else h(Node(h, zero, leaves, level - 1, 2 * i), Node(h, zero, leaves, level - 1, 2 * i + 1))
  }

  /** The root of a tree without filled leaves. */
  function ZeroAt(h: Hash2, zero: int, level: nat): int {
    if level == 0 then zero else h(ZeroAt(h, zero, level - 1), ZeroAt(h, zero, level - 1))
  }

  /** The leaves below node i of a level start at i * 2^level; so do those of its children. */
  lemma ChildStarts(i: nat, level: nat)
    requires level > 0
    ensures (2 * i) * Pow2(level - 1) == i * Pow2(level)
    ensures (2 * i + 1) * Pow2(level - 1) == i * Pow2(level) + Pow2(level - 1)
  {
    var half := Pow2(level - 1);
    assert (2 * i) * half == i * (2 * half);
    assert (2 * i + 1) * half == (2 * i) * half + half;
  }

  /** A node whose leaves all lie past the list is the root of an empty tree. */
  lemma {:induction false} EmptyNode(h: Hash2, zero: int, leaves: seq<int>, level: nat, i: nat)
    requires i * Pow2(level) >= |leaves|
    ensures Node(h, zero, leaves, level, i) == ZeroAt(h, zero, level)
  {
    if level > 0 {
      ChildStarts(i, level);
      EmptyNode(h, zero, leaves, level - 1, 2 * i);
      EmptyNode(h, zero, leaves, level - 1, 2 * i + 1);
    }
  }

  // ----- The textbook tree over a list of exactly 2^depth leaves -----

  function FullRoot(h: Hash2, depth: nat, xs: seq<int>): int
    requires |xs| == Pow2(depth)
  {
    if depth == 0 then xs[0]
    else
      var half := Pow2(depth - 1);
      h(FullRoot(h, depth - 1, xs[..half]), FullRoot(h, depth - 1, xs[half..]))
  }

  /** ys are the neighbours in xs hashed pairwise, the left one first. */
  predicate ArePairs(h: Hash2, xs: seq<int>, ys: seq<int>) {
    |xs| == 2 * |ys| && forall i :: 0 <= i < |ys| ==> ys[i] == h(xs[2 * i], xs[2 * i + 1])
  }

  lemma RootOfHalves(h: Hash2, depth: nat, xs: seq<int>, left: seq<int>, right: seq<int>)
    requires depth > 0 && |left| == |right| == Pow2(depth - 1) && xs == left + right
    ensures |xs| == Pow2(depth) && FullRoot(h, depth, xs) == h(FullRoot(h, depth - 1, left), FullRoot(h, depth - 1, right))
  {
    assert xs[..Pow2(depth - 1)] == left && xs[Pow2(depth - 1)..] == right;
  }

  lemma HalvesOfPairs(h: Hash2, xs: seq<int>, ys: seq<int>, half: nat)
    requires ArePairs(h, xs, ys) && |ys| == 2 * half
    ensures ArePairs(h, xs[..2 * half], ys[..half]) && ArePairs(h, xs[2 * half..], ys[half..])
  {
  }

  lemma OnePair(h: Hash2, xs: seq<int>, ys: seq<int>)
    requires ArePairs(h, xs, ys) && |ys| == Pow2(0)
    ensures |xs| == Pow2(1) && FullRoot(h, 1, xs) == FullRoot(h, 0, ys)
  {
    RootOfHalves(h, 1, xs, [xs[0]], [xs[1]]);
  }

  /** From the leaves upwards, level by level, it is the same root. */
  lemma {:induction false} PairsLeadToRoot(h: Hash2, depth: nat, xs: seq<int>, ys: seq<int>)
    requires ArePairs(h, xs, ys) && |ys| == Pow2(depth)
    ensures |xs| == Pow2(depth + 1) && FullRoot(h, depth + 1, xs) == FullRoot(h, depth, ys)
  {
    if depth == 0 {
      OnePair(h, xs, ys);
    } else {
      var half := Pow2(depth - 1);
      HalvesOfPairs(h, xs, ys, half);
      PairsLeadToRoot(h, depth - 1, xs[..2 * half], ys[..half]);
      PairsLeadToRoot(h, depth - 1, xs[2 * half..], ys[half..]);
      RootOfHalves(h, depth, ys, ys[..half], ys[half..]);
      RootOfHalves(h, depth + 1, xs, xs[..2 * half], xs[2 * half..]);
    }
  }

  /** n leaves of the padded tree, from position start on. */
  function PaddedFrom(zero: int, leaves: seq<int>, start: nat, n: nat): (xs: seq<int>)
    ensures |xs| == n
  {
    seq(n, k requires 0 <= k < n => LeafAt(zero, leaves, start + k))
  }

  function Padded(zero: int, leaves: seq<int>, depth: nat): (xs: seq<int>)
    ensures |xs| == Pow2(depth)
  {
    PaddedFrom(zero, leaves, 0, Pow2(depth))
  }

  lemma {:induction false} NodeIsFullRoot(h: Hash2, zero: int, leaves: seq<int>, level: nat, i: nat)
    ensures Node(h, zero, leaves, level, i) == FullRoot(h, level, PaddedFrom(zero, leaves, i * Pow2(level), Pow2(level)))
  {
    if level > 0 {
      var half, start := Pow2(level - 1), i * Pow2(level);
      ChildStarts(i, level);
      NodeIsFullRoot(h, zero, leaves, level - 1, 2 * i);
      NodeIsFullRoot(h, zero, leaves, level - 1, 2 * i + 1);
      FullRootSplits(h, zero, leaves, level, start);
    }
  }

  lemma FullRootSplits(h: Hash2, zero: int, leaves: seq<int>, level: nat, start: nat)
    requires level > 0
    ensures var half := Pow2(level - 1);
      FullRoot(h, level, PaddedFrom(zero, leaves, start, Pow2(level))) ==
        h(FullRoot(h, level - 1, PaddedFrom(zero, leaves, start, half)),
          FullRoot(h, level - 1, PaddedFrom(zero, leaves, start + half, half)))
  {
    var half := Pow2(level - 1);
    var xs := PaddedFrom(zero, leaves, start, Pow2(level));
    assert xs[..half] == PaddedFrom(zero, leaves, start, half);
    assert xs[half..] == PaddedFrom(zero, leaves, start + half, half);
  }

  lemma RootIsFullRoot(h: Hash2, zero: int, leaves: seq<int>, depth: nat)
    ensures Node(h, zero, leaves, depth, 0) == FullRoot(h, depth, Padded(zero, leaves, depth))
  {
    NodeIsFullRoot(h, zero, leaves, depth, 0);
  }

  // ----- Paths -----

  /** index >> level */
  function Up(index: nat, level: nat): nat {
    if level == 0 then index else Up(index, level - 1) / 2
  }

  function Sibling(i: nat): nat {
    if i % 2 == 1 then i - 1 else i + 1
  }

  /** The direction bits of index, lowest first. */
  function BitsOf(index: nat, depth: nat): (bits: seq<int>)
    ensures |bits| == depth
  {
    seq(depth, k requires 0 <= k < depth => Up(index, k) % 2)
  }

  /** The siblings on the way from leaf index to the root. */
  function SiblingsOf(h: Hash2, zero: int, leaves: seq<int>, index: nat, depth: nat): (path: seq<int>)
    ensures |path| == depth
  {
    seq(depth, k requires 0 <= k < depth => Node(h, zero, leaves, k, Sibling(Up(index, k))))
  }

  /** The hash of leaf with the first n siblings; a missing direction counts as left. */
  function Recompute(h: Hash2, leaf: int, path: seq<int>, bits: seq<int>, n: nat): int
    requires n <= |path|
  {
    if n == 0 then leaf
    else
      var cur := Recompute(h, leaf, path, bits, n - 1);
      if n - 1 < |bits| && bits[n - 1] == 1 then h(path[n - 1], cur) else h(cur, path[n - 1])
  }

  lemma {:induction false} UpBound(index: nat, level: nat, depth: nat)
    requires level <= depth && index < Pow2(depth)
    ensures Up(index, level) < Pow2(depth - level)
  {
    if level > 0 { UpBound(index, level - 1, depth); }
  }

  lemma UpToRoot(index: nat, depth: nat)
    requires index < Pow2(depth)
    ensures Up(index, depth) == 0
  {
    UpBound(index, depth, depth);
  }

  lemma ParentOf(h: Hash2, zero: int, leaves: seq<int>, level: nat, i: nat)
    requires level > 0
    ensures var me, sib := Node(h, zero, leaves, level - 1, i), Node(h, zero, leaves, level - 1, Sibling(i));
      Node(h, zero, leaves, level, i / 2) == if i % 2 == 1 then h(sib, me) else h(me, sib)
  {
    if i % 2 == 1 {
      assert 2 * (i / 2) == i - 1;
    } else {
      assert 2 * (i / 2) == i;
    }
  }

  /** Whatever the index, the siblings lead from the padded leaf to the ancestor. */
  lemma {:induction false} PathLeadsUp(h: Hash2, zero: int, leaves: seq<int>, index: nat, depth: nat, n: nat)
    requires n <= depth
    ensures Recompute(h, LeafAt(zero, leaves, index), SiblingsOf(h, zero, leaves, index, depth), BitsOf(index, depth), n)
            == Node(h, zero, leaves, n, Up(index, n))
  {
    if n > 0 {
      PathLeadsUp(h, zero, leaves, index, depth, n - 1);
      ParentOf(h, zero, leaves, n, Up(index, n - 1));
      StepAt(h, LeafAt(zero, leaves, index), SiblingsOf(h, zero, leaves, index, depth), index, depth, n);
    }
  }

  lemma StepAt(h: Hash2, leaf: int, path: seq<int>, index: nat, depth: nat, n: nat)
    requires 0 < n <= depth == |path|
    ensures var bits, i := BitsOf(index, depth), Up(index, n - 1);
      var cur := Recompute(h, leaf, path, bits, n - 1);
      Recompute(h, leaf, path, bits, n) == if i % 2 == 1 then h(path[n - 1], cur) else h(cur, path[n - 1])
  {
  }

  /** For an index inside the tree, past the last leaf included, the ancestor is the root. */
  lemma PathRecomputesRoot(h: Hash2, zero: int, leaves: seq<int>, index: nat, depth: nat)
    requires index < Pow2(depth)
    ensures Recompute(h, LeafAt(zero, leaves, index), SiblingsOf(h, zero, leaves, index, depth), BitsOf(index, depth), depth)
            == FullRoot(h, depth, Padded(zero, leaves, depth))
  {
    PathLeadsUp(h, zero, leaves, index, depth, depth);
    UpToRoot(index, depth);
    RootIsFullRoot(h, zero, leaves, depth);
  }

  /** The number that the first n bits spell. */
  function Spelled(bits: seq<int>, n: nat): int
    requires n <= |bits|
  {
    if n == 0 then 0 else Spelled(bits, n - 1) + bits[n - 1] * Pow2(n - 1)
  }

  lemma {:induction false} BitsSpell(index: nat, depth: nat, n: nat)
    requires n <= depth
    ensures Spelled(BitsOf(index, depth), n) + Up(index, n) * Pow2(n) == index
  {
    if n > 0 {
      BitsSpell(index, depth, n - 1);
      var u, p := Up(index, n - 1), Pow2(n - 1);
      SplitBit(u, p);
    }
  }

  lemma SplitBit(u: nat, p: nat)
    ensures u * p == (u / 2) * (2 * p) + (u % 2) * p
  {
    var q, r := u / 2, u % 2;
    assert u == 2 * q + r;
    assert (2 * q + r) * p == q * (2 * p) + r * p;
  }

  lemma BitsSpellIndex(index: nat, depth: nat)
    requires index < Pow2(depth)
    ensures Spelled(BitsOf(index, depth), depth) == index
  {
    BitsSpell(index, depth, depth);
    UpToRoot(index, depth);
  }

  // ----- Binding -----

  /** Whether the verifier takes position k of a direction array for a right child. */
  predicate GoesRight(bits: seq<int>, k: nat) {
    k < |bits| && bits[k] == 1
  }

  /** What is hashed at one node: its left and its right child. */
  datatype Children = Children(left: int, right: int)

  ghost predicate Collide(h: Hash2, a: Children, b: Children) {
    a != b && h(a.left, a.right) == h(b.left, b.right)
  }

  lemma SameSingleton(xs: seq<int>, ys: seq<int>)
    requires |xs| == |ys| == 1 && xs[0] == ys[0]
    ensures xs == ys
  {
  }

  /** What the verifier hashes at level k. */
  function HashedAt(h: Hash2, leaf: int, path: seq<int>, bits: seq<int>, k: nat): Children
    requires k < |path|
  {
    var cur := Recompute(h, leaf, path, bits, k);
    if GoesRight(bits, k) then Children(path[k], cur) else Children(cur, path[k])
  }

  /** Of any hash: two openings that reach the same value along the same directions are equal,
      or at some level two different inputs have the same hash. */
  lemma {:induction false} OpeningsCollide(h: Hash2, leaf: int, path: seq<int>, leaf': int, path': seq<int>,
                                           bits: seq<int>, n: nat) returns (k: nat)
    requires n <= |path| && n <= |path'|
    requires Recompute(h, leaf, path, bits, n) == Recompute(h, leaf', path', bits, n)
    requires leaf != leaf' || path[..n] != path'[..n]
    ensures k < n && Collide(h, HashedAt(h, leaf, path, bits, k), HashedAt(h, leaf', path', bits, k))
  {
    k := n - 1;
    if HashedAt(h, leaf, path, bits, k) == HashedAt(h, leaf', path', bits, k) {
      assert path[..n] == path[..k] + [path[k]] && path'[..n] == path'[..k] + [path'[k]];
      k := OpeningsCollide(h, leaf, path, leaf', path', bits, k);
    }
  }

  /** With a collision-free hash, two leaves and paths that reach the same hash along the same
      bits are the same. */
  lemma RecomputeInjective(h: Hash2, leaf: int, path: seq<int>, leaf': int, path': seq<int>, bits: seq<int>, n: nat)
    requires CollisionFree(h) && n <= |path| && n <= |path'|
    requires Recompute(h, leaf, path, bits, n) == Recompute(h, leaf', path', bits, n)
    ensures leaf == leaf' && forall k :: 0 <= k < n ==> path[k] == path'[k]
  {
    if leaf != leaf' || path[..n] != path'[..n] {
      var k := OpeningsCollide(h, leaf, path, leaf', path', bits, n);
    }
    assert forall k :: 0 <= k < n ==> path[k] == path[..n][k] && path'[k] == path'[..n][k];
  }

  /** The index that an arbitrary direction array leads to: the positions from k up to depth
      that hold 1, read as binary digits. */
  function IndexFrom(bits: seq<int>, k: nat, depth: nat): nat
    decreases depth - k
  {
    if k >= depth then 0 else (if GoesRight(bits, k) then 1 else 0) + 2 * IndexFrom(bits, k + 1, depth)
  }

  function IndexOf(bits: seq<int>, depth: nat): nat {
    IndexFrom(bits, 0, depth)
  }

  lemma {:induction false} IndexInside(bits: seq<int>, k: nat, depth: nat)
    requires k <= depth
    ensures IndexFrom(bits, k, depth) < Pow2(depth - k)
    decreases depth - k
  {
    if k < depth { IndexInside(bits, k + 1, depth); }
  }

  lemma {:induction false} UpDropsDigits(bits: seq<int>, k: nat, depth: nat)
    requires k <= depth
    ensures Up(IndexOf(bits, depth), k) == IndexFrom(bits, k, depth)
  {
    if k > 0 { UpDropsDigits(bits, k - 1, depth); }
  }

  lemma BitOfIndex(bits: seq<int>, k: nat, depth: nat)
    requires k < depth
    ensures BitsOf(IndexOf(bits, depth), depth)[k] == if GoesRight(bits, k) then 1 else 0
  {
    UpDropsDigits(bits, k, depth);
  }

  /** Recomputing with an array is recomputing with the bits of its index. */
  lemma {:induction false} RecomputeAtIndex(h: Hash2, leaf: int, path: seq<int>, bits: seq<int>, depth: nat, n: nat)
    requires n <= depth && n <= |path|
    ensures Recompute(h, leaf, path, bits, n) == Recompute(h, leaf, path, BitsOf(IndexOf(bits, depth), depth), n)
  {
    if n > 0 {
      RecomputeAtIndex(h, leaf, path, bits, depth, n - 1);
      BitOfIndex(bits, n - 1, depth);
    }
  }

  predicate AreBits(bits: seq<int>) {
    forall k :: 0 <= k < |bits| ==> bits[k] == 0 || bits[k] == 1
  }

  /** An array of zeros and ones spells one index, and is that index's direction bits. */
  lemma SpellingIsUnique(bits: seq<int>, index: nat)
    requires AreBits(bits)
    ensures Spelled(bits, |bits|) == index <==> index < Pow2(|bits|) && bits == BitsOf(index, |bits|)
  {
    var depth := |bits|;
    var own := IndexOf(bits, depth);
    forall k | 0 <= k < depth ensures bits[k] == BitsOf(own, depth)[k] { BitOfIndex(bits, k, depth); }
    assert bits == BitsOf(own, depth);
    IndexInside(bits, 0, depth);
    BitsSpellIndex(own, depth);
    if index < Pow2(depth) { BitsSpellIndex(index, depth); }
  }

  /** Along any direction array, the honest opening of its index recomputes the root. */
  lemma HonestOpening(h: Hash2, zero: int, leaves: seq<int>, bits: seq<int>, depth: nat)
    ensures var index := IndexOf(bits, depth);
      && index < Pow2(depth)
      && Recompute(h, LeafAt(zero, leaves, index), SiblingsOf(h, zero, leaves, index, depth), bits, depth)
         == FullRoot(h, depth, Padded(zero, leaves, depth))
  {
    var index := IndexOf(bits, depth);
    IndexInside(bits, 0, depth);
    PathRecomputesRoot(h, zero, leaves, index, depth);
    RecomputeAtIndex(h, LeafAt(zero, leaves, index), SiblingsOf(h, zero, leaves, index, depth), bits, depth, depth);
  }

  /** Of any hash: an opening of the root other than the honest one collides with it at some
      level of the path. */
  lemma ForgeryCollides(h: Hash2, zero: int, leaves: seq<int>, bits: seq<int>, depth: nat, leaf: int, path: seq<int>)
    returns (k: nat)
    requires |path| == depth
    requires Recompute(h, leaf, path, bits, depth) == FullRoot(h, depth, Padded(zero, leaves, depth))
    requires var index := IndexOf(bits, depth);
      leaf != LeafAt(zero, leaves, index) || path != SiblingsOf(h, zero, leaves, index, depth)
    ensures var index := IndexOf(bits, depth);
      var honest := SiblingsOf(h, zero, leaves, index, depth);
      && k < depth
      && Collide(h, HashedAt(h, leaf, path, bits, k), HashedAt(h, LeafAt(zero, leaves, index), honest, bits, k))
  {
    var index := IndexOf(bits, depth);
    var honest := SiblingsOf(h, zero, leaves, index, depth);
    HonestOpening(h, zero, leaves, bits, depth);
    assert path[..depth] == path && honest[..depth] == honest;
    k := OpeningsCollide(h, leaf, path, LeafAt(zero, leaves, index), honest, bits, depth);
  }

  /** Whatever direction array a verifier is given, it leads to one index inside the tree, and a
      leaf and path recompute the root along it iff they are the padded leaf and the siblings
      of that index. */
  lemma TreeIsBinding(h: Hash2, zero: int, leaves: seq<int>, bits: seq<int>, depth: nat, leaf: int, path: seq<int>)
    requires CollisionFree(h) && |path| == depth
    ensures var index := IndexOf(bits, depth);
      && index < Pow2(depth)
      && (Recompute(h, leaf, path, bits, depth) == FullRoot(h, depth, Padded(zero, leaves, depth))
          <==> leaf == LeafAt(zero, leaves, index) && path == SiblingsOf(h, zero, leaves, index, depth))
  {
    var index := IndexOf(bits, depth);
    HonestOpening(h, zero, leaves, bits, depth);
    if Recompute(h, leaf, path, bits, depth) == FullRoot(h, depth, Padded(zero, leaves, depth)) {
      var honest := SiblingsOf(h, zero, leaves, index, depth);
      RecomputeInjective(h, leaf, path, LeafAt(zero, leaves, index), honest, bits, depth);
      assert path == honest;
    }
  }

  /** A leaf and path recompute the root at index iff they are the padded leaf and its siblings. */
  lemma TreeIsBindingAt(h: Hash2, zero: int, leaves: seq<int>, index: nat, depth: nat, leaf: int, path: seq<int>)
    requires CollisionFree(h) && index < Pow2(depth) && |path| == depth
    ensures Recompute(h, leaf, path, BitsOf(index, depth), depth) == FullRoot(h, depth, Padded(zero, leaves, depth))
            <==> leaf == LeafAt(zero, leaves, index) && path == SiblingsOf(h, zero, leaves, index, depth)
  {
    IndexOfBits(index, depth);
    TreeIsBinding(h, zero, leaves, BitsOf(index, depth), depth, leaf, path);
  }

  lemma IndexOfBits(index: nat, depth: nat)
    requires index < Pow2(depth)
    ensures IndexOf(BitsOf(index, depth), depth) == index
  {
    var bits := BitsOf(index, depth);
    var own := IndexOf(bits, depth);
    forall k | 0 <= k < depth ensures bits[k] == BitsOf(own, depth)[k] { BitOfIndex(bits, k, depth); }
    assert bits == BitsOf(own, depth);
    IndexInside(bits, 0, depth);
    BitsSpellIndex(index, depth);
    BitsSpellIndex(own, depth);
  }

  // ----- Roots of two lists -----

  /** c is hashed at some node of the full tree over xs. */
  ghost predicate HashedIn(h: Hash2, depth: nat, xs: seq<int>, c: Children)
    requires |xs| == Pow2(depth)
  {
    depth > 0 &&
      var half := Pow2(depth - 1);
      || c == Children(FullRoot(h, depth - 1, xs[..half]), FullRoot(h, depth - 1, xs[half..]))
      || HashedIn(h, depth - 1, xs[..half], c) || HashedIn(h, depth - 1, xs[half..], c)
  }

  /** Of any hash: two different lists with one root have nodes whose different children have
      the same hash. */
  lemma {:induction false} RootsCollide(h: Hash2, depth: nat, xs: seq<int>, ys: seq<int>) returns (a: Children, b: Children)
    requires |xs| == |ys| == Pow2(depth) && xs != ys
    requires FullRoot(h, depth, xs) == FullRoot(h, depth, ys)
    ensures HashedIn(h, depth, xs, a) && HashedIn(h, depth, ys, b) && Collide(h, a, b)
  {
    a, b := Children(0, 0), Children(0, 0);
    if depth == 0 {
      SameSingleton(xs, ys);
    } else {
      var half := Pow2(depth - 1);
      a := Children(FullRoot(h, depth - 1, xs[..half]), FullRoot(h, depth - 1, xs[half..]));
      b := Children(FullRoot(h, depth - 1, ys[..half]), FullRoot(h, depth - 1, ys[half..]));
      if a == b {
        assert xs == xs[..half] + xs[half..] && ys == ys[..half] + ys[half..];
        if xs[..half] != ys[..half] {
          a, b := RootsCollide(h, depth - 1, xs[..half], ys[..half]);
        } else {
          a, b := RootsCollide(h, depth - 1, xs[half..], ys[half..]);
        }
      }
    }
  }

  lemma FullRootInjective(h: Hash2, depth: nat, xs: seq<int>, ys: seq<int>)
    requires CollisionFree(h) && |xs| == |ys| == Pow2(depth)
    requires FullRoot(h, depth, xs) == FullRoot(h, depth, ys)
    ensures xs == ys
  {
    if xs != ys {
      var a, b := RootsCollide(h, depth, xs, ys);
    }
  }

  /** Two leaf lists share a root at one depth iff they are equal after zero padding. */
  lemma RootsEqualIffPaddedEqual(h: Hash2, zero: int, a: seq<int>, b: seq<int>, depth: nat)
    requires CollisionFree(h)
    ensures Node(h, zero, a, depth, 0) == Node(h, zero, b, depth, 0) <==> Padded(zero, a, depth) == Padded(zero, b, depth)
  {
    RootIsFullRoot(h, zero, a, depth);
    RootIsFullRoot(h, zero, b, depth);
    if Node(h, zero, a, depth, 0) == Node(h, zero, b, depth, 0) {
      FullRootInjective(h, depth, Padded(zero, a, depth), Padded(zero, b, depth));
    }
  }
}
