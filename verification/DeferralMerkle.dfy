/**
 The deferral check of a STARK proof: two Merkle paths with shared siblings
 that tie two accumulator hashes to the initial and final memory roots.  The
 compression function is a parameter.
 */
module DeferralMerkle {
  import opened Arith
  import opened Common

  type Digest = seq<nat>
  type Hash = (Digest, Digest) -> Digest

  const DIGEST_SIZE: nat := 8
  const DEFERRAL_AS: nat := 4
  const ADDR_SPACE_OFFSET: nat := 1

  datatype Error =
    | LengthMismatch(expected: nat, actual: nat)
    | DepthTooLarge(depth: nat, addressHeight: nat)
    | SiblingMismatch(level: nat, initial: Digest, final: Digest)
    | InitialRootMismatch(expectedRoot: Digest, actualRoot: Digest)
    | FinalRootMismatch(expectedRoot: Digest, actualRoot: Digest)
    | DefHookCommitSet
    | DefInitialAccHashCommitSet
    | DefFinalAccHashCommitSet
    | DefDepthSet
    | DefHookCommitMismatch
    | InvalidDeferralFlag
    | DefNodeIdxNonZero
    | MissingDeferralMerkleProofs
    | UnexpectedDeferralDisabled

  datatype Result = Ok | Err(error: Error)

  datatype MemoryDimensions = MemoryDimensions(addrSpaceHeight: nat, addressHeight: nat) {
    function OverallHeight(): nat
    {
      addrSpaceHeight + addressHeight
    }

    /** The index of block zero of an address space. */
    function LabelToIndex(addrSpace: nat): nat
      requires addrSpace >= ADDR_SPACE_OFFSET
    {
      Shl(addrSpace - ADDR_SPACE_OFFSET, addressHeight)
    }
  }

  function ZeroDigest(): Digest
  {
    seq(DIGEST_SIZE, _ => 0)
  }

  predicate IsUnset(d: Digest)
  {
    forall n :: 0 <= n < |d| ==> d[n] == 0
  }

  // ---- Positions ------------------------------------------------------------

  function Shl(x: nat, k: nat): nat
  {
    if k == 0 then x else 2 * Shl(x, k - 1)
  }

  lemma {:induction false} ShrTwice(x: nat, j: nat, k: nat)
    ensures Shr(Shr(x, j), k) == Shr(x, j + k)
    decreases k
  {
    if k > 0 { ShrTwice(x, j, k - 1); }
  }

  lemma {:induction false} ShrShl(x: nat, k: nat, j: nat)
    requires j <= k
    ensures Shr(Shl(x, k), j) == Shl(x, k - j)
    decreases j
  {
    if j > 0 { ShrShl(x, k, j - 1); }
  }

  function Sibling(i: nat): nat
  {
    if i % 2 == 0 then i + 1 else i - 1
  }

  /** The leaf that a path starts under: with depth zero, the right child of the first pair. */
  function StartLeaf(idxPrefix: nat, depth: nat): nat
  {
    if depth == 0 && idxPrefix % 2 == 0 then idxPrefix + 1 else idxPrefix
  }

  // ---- Trees ------------------------------------------------------------------

  type Leaves = nat -> Digest

  ghost function Node(h: Hash, leaves: Leaves, level: nat, i: nat): Digest
  {
    if level == 0 then leaves(i)
    else h(Node(h, leaves, level - 1, 2 * i), Node(h, leaves, level - 1, 2 * i + 1))
  }

  ghost predicate Collide(h: Hash, a: Digest, b: Digest, c: Digest, d: Digest)
  {
    h(a, b) == h(c, d) && (a != c || b != d)
  }

  ghost predicate Injective(h: Hash)
  {
    forall a, b, c, d :: !Collide(h, a, b, c, d)
  }

  lemma Separate(h: Hash, a: Digest, b: Digest, c: Digest, d: Digest)
    requires Injective(h) && h(a, b) == h(c, d)
    ensures a == c && b == d
  {
    assert !Collide(h, a, b, c, d);
  }

  /** Equal digests of two trees at one place pin down every leaf below it. */
  lemma {:induction false} EqualNodesEqualLeaves(h: Hash, s: Leaves, t: Leaves, level: nat, i: nat, n: nat)
    requires Injective(h) && Node(h, s, level, i) == Node(h, t, level, i) && Shr(n, level) == i
    ensures s(n) == t(n)
  {
    if level > 0 {
      Separate(h, Node(h, s, level - 1, 2 * i), Node(h, s, level - 1, 2 * i + 1),
               Node(h, t, level - 1, 2 * i), Node(h, t, level - 1, 2 * i + 1));
      EqualNodesEqualLeaves(h, s, t, level - 1, Shr(n, level - 1), n);
    }
  }

  lemma {:induction false} EqualLeavesEqualNodes(h: Hash, s: Leaves, t: Leaves, level: nat, i: nat)
    requires forall n :: Shr(n, level) == i ==> s(n) == t(n)
    ensures Node(h, s, level, i) == Node(h, t, level, i)
  {
    if level > 0 {
      forall n | Shr(n, level - 1) == 2 * i || Shr(n, level - 1) == 2 * i + 1 ensures s(n) == t(n) {
        assert Shr(n, level) == i;
      }
      EqualLeavesEqualNodes(h, s, t, level - 1, 2 * i);
      EqualLeavesEqualNodes(h, s, t, level - 1, 2 * i + 1);
    } else {
      assert Shr(i, 0) == i;
    }
  }

  // ---- Paths ------------------------------------------------------------------

  /** Hashing upwards from level `i` along the ancestors of leaf `pos`. */
  ghost function Climb(h: Hash, node: Digest, proof: seq<Digest>, pos: nat, i: nat): Digest
    decreases |proof| - i
  {
    if i >= |proof| then node
    else if Shr(pos, i) % 2 == 1 then Climb(h, h(proof[i], node), proof, pos, i + 1)
    else Climb(h, h(node, proof[i]), proof, pos, i + 1)
  }

  lemma {:induction false} StartLeafBits(idxPrefix: nat, depth: nat, i: nat)
    ensures i >= 1 ==> Shr(StartLeaf(idxPrefix, depth), i) == Shr(idxPrefix, i)
    ensures Shr(StartLeaf(idxPrefix, depth), i) % 2 == 1
       <==> (depth == 0 && i == 0) || Shr(idxPrefix, i) % 2 == 1
  {
    if i >= 1 { StartLeafBits(idxPrefix, depth, i - 1); }
  }

  method MerklePathRoot(h: Hash, leaf: Digest, proof: seq<Digest>, idxPrefix: nat, depth: nat)
    returns (node: Digest)
    ensures node == Climb(h, leaf, proof, StartLeaf(idxPrefix, depth), depth)
  {
    node := leaf;
    for i := 0 to |proof|
      invariant i <= depth ==> node == leaf
      invariant i >= depth ==>
        Climb(h, node, proof, StartLeaf(idxPrefix, depth), i)
          == Climb(h, leaf, proof, StartLeaf(idxPrefix, depth), depth)
    {
      if i >= depth {
        StartLeafBits(idxPrefix, depth, i);
        var isRight := (depth == 0 && i == 0) || Shr(idxPrefix, i) % 2 == 1;
        node := if isRight then h(proof[i], node) else h(node, proof[i]);
      }
    }
  }

  /** The siblings from level `i` up are those of the tree. */
  ghost predicate HonestFrom(h: Hash, leaves: Leaves, proof: seq<Digest>, pos: nat, i: nat)
  {
    forall j :: i <= j < |proof| ==> proof[j] == Node(h, leaves, j, Sibling(Shr(pos, j)))
  }

  /** One step of a path against the parent in the tree. */
  lemma ParentSplits(h: Hash, leaves: Leaves, node: Digest, sibling: Digest, i: nat, k: nat)
    requires Injective(h)
    requires (if k % 2 == 1 then h(sibling, node) else h(node, sibling)) == Node(h, leaves, i + 1, k / 2)
    ensures node == Node(h, leaves, i, k) && sibling == Node(h, leaves, i, Sibling(k))
  {
    var q := k / 2;
    var left, right := Node(h, leaves, i, 2 * q), Node(h, leaves, i, 2 * q + 1);
    assert Node(h, leaves, i + 1, q) == h(left, right);
    if k % 2 == 1 {
      Separate(h, sibling, node, left, right);
    } else {
      Separate(h, node, sibling, left, right);
    }
  }

  /** A path that reaches the root starts at the tree's own node and uses the tree's own siblings. */
  lemma {:induction false} ClimbSound(h: Hash, leaves: Leaves, node: Digest, proof: seq<Digest>, pos: nat, i: nat)
    requires Injective(h) && i <= |proof|
    requires Climb(h, node, proof, pos, i) == Node(h, leaves, |proof|, Shr(pos, |proof|))
    ensures node == Node(h, leaves, i, Shr(pos, i)) && HonestFrom(h, leaves, proof, pos, i)
    decreases |proof| - i
  {
    if i < |proof| {
      var next := if Shr(pos, i) % 2 == 1 then h(proof[i], node) else h(node, proof[i]);
      ClimbSound(h, leaves, next, proof, pos, i + 1);
      ParentSplits(h, leaves, node, proof[i], i, Shr(pos, i));
    }
  }

  lemma ParentJoins(h: Hash, leaves: Leaves, i: nat, k: nat)
    ensures var node, sibling := Node(h, leaves, i, k), Node(h, leaves, i, Sibling(k));
      Node(h, leaves, i + 1, k / 2) == if k % 2 == 1 then h(sibling, node) else h(node, sibling)
  {
  }

  lemma {:induction false} ClimbComplete(h: Hash, leaves: Leaves, proof: seq<Digest>, pos: nat, i: nat)
    requires i <= |proof| && HonestFrom(h, leaves, proof, pos, i)
    ensures Climb(h, Node(h, leaves, i, Shr(pos, i)), proof, pos, i)
         == Node(h, leaves, |proof|, Shr(pos, |proof|))
    decreases |proof| - i
  {
    if i < |proof| {
      ClimbComplete(h, leaves, proof, pos, i + 1);
      assert proof[i] == Node(h, leaves, i, Sibling(Shr(pos, i)));
      ParentJoins(h, leaves, i, Shr(pos, i));
    }
  }

  // ---- verify -------------------------------------------------------------------

  datatype Proofs = Proofs(initial: seq<Digest>, final: seq<Digest>)

  /** What the path starts from: the hash itself, or its leaf when nothing is deferred. */
  function AccLeaf(h: Hash, accHash: Digest, depth: nat): Digest
  {
    if depth == 0 then h(accHash, ZeroDigest()) else accHash
  }

  ghost predicate Accepted(h: Hash, proofs: Proofs, dims: MemoryDimensions, initialRoot: Digest, finalRoot: Digest,
                           initialAcc: Digest, finalAcc: Digest, depth: nat)
  {
    var pos := StartLeaf(dims.LabelToIndex(DEFERRAL_AS), depth);
    && |proofs.initial| == |proofs.final| == dims.OverallHeight()
    && depth <= dims.addressHeight
    && (forall j :: 0 <= j < dims.addressHeight ==> proofs.initial[j] == proofs.final[j])
    && Climb(h, AccLeaf(h, initialAcc, depth), proofs.initial, pos, depth) == initialRoot
    && Climb(h, AccLeaf(h, finalAcc, depth), proofs.final, pos, depth) == finalRoot
  }

  method Verify(h: Hash, proofs: Proofs, dims: MemoryDimensions, initialRoot: Digest, finalRoot: Digest,
                initialAcc: Digest, finalAcc: Digest, depth: nat)
    returns (r: Result)
    ensures r.Ok? <==> Accepted(h, proofs, dims, initialRoot, finalRoot, initialAcc, finalAcc, depth)
    ensures r.Err? && r.error.LengthMismatch? <==>
      |proofs.initial| != dims.OverallHeight() || |proofs.final| != dims.OverallHeight()
    ensures r.Err? && r.error.DepthTooLarge? <==>
      |proofs.initial| == |proofs.final| == dims.OverallHeight() && depth > dims.addressHeight
    ensures r.Err? ==>
      || r.error.LengthMismatch? || r.error.DepthTooLarge? || r.error.SiblingMismatch?
      || r.error.InitialRootMismatch? || r.error.FinalRootMismatch?
    ensures r.Err? && r.error.SiblingMismatch? ==>
      var j := r.error.level;
      && j < dims.addressHeight && j < |proofs.initial| && j < |proofs.final|
      && proofs.initial[..j] == proofs.final[..j] && proofs.initial[j] != proofs.final[j]
    ensures r.Err? && r.error.FinalRootMismatch? ==>
      var pos := StartLeaf(dims.LabelToIndex(DEFERRAL_AS), depth);
      && Climb(h, AccLeaf(h, initialAcc, depth), proofs.initial, pos, depth) == initialRoot
      && Climb(h, AccLeaf(h, finalAcc, depth), proofs.final, pos, depth) == r.error.actualRoot != finalRoot
  {
    var height := dims.OverallHeight();
    if |proofs.initial| != height {
      return Err(LengthMismatch(height, |proofs.initial|));
    }
    if |proofs.final| != height {
      return Err(LengthMismatch(height, |proofs.final|));
    }
    if depth > dims.addressHeight {
      return Err(DepthTooLarge(depth, dims.addressHeight));
    }
    for i := 0 to dims.addressHeight
      invariant forall j :: 0 <= j < i ==> proofs.initial[j] == proofs.final[j]
    {
      if proofs.initial[i] != proofs.final[i] {
        return Err(SiblingMismatch(i, proofs.initial[i], proofs.final[i]));
      }
    }
    var isUnset := depth == 0;
    var idxPrefix := dims.LabelToIndex(DEFERRAL_AS);
    var initialLeaf := if isUnset then h(initialAcc, ZeroDigest()) else initialAcc;
    var finalLeaf := if isUnset then h(finalAcc, ZeroDigest()) else finalAcc;
    var computedInitial := MerklePathRoot(h, initialLeaf, proofs.initial, idxPrefix, depth);
    if computedInitial != initialRoot {
      return Err(InitialRootMismatch(initialRoot, computedInitial));
    }
    var computedFinal := MerklePathRoot(h, finalLeaf, proofs.final, idxPrefix, depth);
    if computedFinal != finalRoot {
      return Err(FinalRootMismatch(finalRoot, computedFinal));
    }
    return Ok;
  }

  // ---- What an accepted proof says about memory ------------------------------------

  /** The dimensions have room for the deferral address space and for a pair of blocks in it. */
  predicate HasDeferralSpace(dims: MemoryDimensions)
  {
    dims.addrSpaceHeight >= 2 && dims.addressHeight >= 1
  }

  predicate InDeferralSpace(dims: MemoryDimensions, n: nat)
  {
    Shr(n, dims.addressHeight) == DEFERRAL_AS - ADDR_SPACE_OFFSET
  }

  /** Where the accumulator sits: block 1 when unset, the first `2^depth` blocks otherwise. */
  function AccPosition(dims: MemoryDimensions, depth: nat): nat
  {
    StartLeaf(dims.LabelToIndex(DEFERRAL_AS), depth)
  }

  lemma {:induction false} ShrVanishes(x: nat, k: nat, n: nat)
    requires x < Shl(1, k) && n >= k
    ensures Shr(x, n) == 0
    decreases n
  {
    if n > k {
      ShrVanishes(x, k, n - 1);
    } else if k > 0 {
      ShrHalves(x, k);
      ShrVanishes(x / 2, k - 1, k - 1);
    }
  }

  lemma ShrHalves(x: nat, k: nat)
    requires k > 0
    ensures Shr(x, k) == Shr(x / 2, k - 1)
  {
    ShrTwice(x, 1, k - 1);
    assert Shr(x, 1) == Shr(x, 0) / 2;
  }

  lemma AccPositionFacts(dims: MemoryDimensions, depth: nat)
    requires HasDeferralSpace(dims)
    ensures InDeferralSpace(dims, AccPosition(dims, depth))
    ensures Shr(AccPosition(dims, depth), dims.OverallHeight()) == 0
  {
    var ah, idx := dims.addressHeight, dims.LabelToIndex(DEFERRAL_AS);
    ShrShl(3, ah, ah);
    StartLeafBits(idx, depth, ah);
    ShrTwice(AccPosition(dims, depth), ah, dims.addrSpaceHeight);
    assert Shl(1, 0) == 1 && Shl(1, 1) == 2 && Shl(1, 2) == 4;
    ShrVanishes(3, 2, dims.addrSpaceHeight);
    assert dims.OverallHeight() == ah + dims.addrSpaceHeight;
  }

  /** The level at which the path of `n` meets the path of `pos`. */
  lemma {:induction false} MeetingLevel(n: nat, pos: nat, d: nat, top: nat) returns (j: nat)
    requires d <= top && Shr(n, d) != Shr(pos, d) && Shr(n, top) == Shr(pos, top)
    ensures d <= j < top && Shr(n, j) == Sibling(Shr(pos, j))
    decreases top - d
  {
    if Shr(n, d + 1) == Shr(pos, d + 1) {
      j := d;
    } else {
      j := MeetingLevel(n, pos, d + 1, top);
    }
  }

  /** No leaf of the deferral address space changed, except below the accumulator's node. */
  ghost predicate AgreeOutside(dims: MemoryDimensions, initial: Leaves, final: Leaves, depth: nat)
  {
    forall n :: InDeferralSpace(dims, n) && Shr(n, depth) != Shr(AccPosition(dims, depth), depth) ==>
      initial(n) == final(n)
  }

  ghost function Root(h: Hash, leaves: Leaves, dims: MemoryDimensions): Digest
  {
    Node(h, leaves, dims.OverallHeight(), 0)
  }

  ghost predicate HoldsAcc(h: Hash, leaves: Leaves, dims: MemoryDimensions, acc: Digest, depth: nat)
  {
    Node(h, leaves, depth, Shr(AccPosition(dims, depth), depth)) == AccLeaf(h, acc, depth)
  }

  lemma PathsSound(h: Hash, proofs: Proofs, dims: MemoryDimensions, initial: Leaves, final: Leaves,
                   initialAcc: Digest, finalAcc: Digest, depth: nat)
    requires Injective(h) && HasDeferralSpace(dims)
    requires Accepted(h, proofs, dims, Root(h, initial, dims), Root(h, final, dims), initialAcc, finalAcc, depth)
    ensures AgreeOutside(dims, initial, final, depth)
    ensures HoldsAcc(h, initial, dims, initialAcc, depth) && HoldsAcc(h, final, dims, finalAcc, depth)
  {
    var pos := AccPosition(dims, depth);
    AccPositionFacts(dims, depth);
    ClimbSound(h, initial, AccLeaf(h, initialAcc, depth), proofs.initial, pos, depth);
    ClimbSound(h, final, AccLeaf(h, finalAcc, depth), proofs.final, pos, depth);
    forall n | InDeferralSpace(dims, n) && Shr(n, depth) != Shr(pos, depth)
      ensures initial(n) == final(n)
    {
      var j := MeetingLevel(n, pos, depth, dims.addressHeight);
      assert proofs.initial[j] == Node(h, initial, j, Shr(n, j));
      assert proofs.final[j] == Node(h, final, j, Shr(n, j));
      EqualNodesEqualLeaves(h, initial, final, j, Shr(n, j), n);
    }
  }

  /** The siblings an honest prover sends; the skipped levels are zero. */
  ghost function HonestProof(h: Hash, leaves: Leaves, pos: nat, depth: nat, height: nat): (p: seq<Digest>)
    ensures |p| == height && HonestFrom(h, leaves, p, pos, depth)
  {
    seq(height, j requires 0 <= j < height =>
      if j < depth then ZeroDigest() else Node(h, leaves, j, Sibling(Shr(pos, j))))
  }

  lemma SharedSibling(h: Hash, dims: MemoryDimensions, initial: Leaves, final: Leaves, depth: nat, j: nat)
    requires HasDeferralSpace(dims) && AgreeOutside(dims, initial, final, depth)
    requires depth <= j < dims.addressHeight
    ensures var i := Sibling(Shr(AccPosition(dims, depth), j));
      Node(h, initial, j, i) == Node(h, final, j, i)
  {
    var pos := AccPosition(dims, depth);
    AccPositionFacts(dims, depth);
    var i := Sibling(Shr(pos, j));
    forall n | Shr(n, j) == i ensures initial(n) == final(n) {
      assert Shr(n, j + 1) == Shr(pos, j + 1);
      ShrTwice(n, j + 1, dims.addressHeight - (j + 1));
      ShrTwice(pos, j + 1, dims.addressHeight - (j + 1));
      ShrTwice(n, depth, j - depth);
      ShrTwice(pos, depth, j - depth);
    }
    EqualLeavesEqualNodes(h, initial, final, j, i);
  }

  lemma PathsComplete(h: Hash, dims: MemoryDimensions, initial: Leaves, final: Leaves,
                       initialAcc: Digest, finalAcc: Digest, depth: nat) returns (proofs: Proofs)
    requires HasDeferralSpace(dims) && depth <= dims.addressHeight && AgreeOutside(dims, initial, final, depth)
    requires HoldsAcc(h, initial, dims, initialAcc, depth) && HoldsAcc(h, final, dims, finalAcc, depth)
    ensures Accepted(h, proofs, dims, Root(h, initial, dims), Root(h, final, dims), initialAcc, finalAcc, depth)
  {
    var pos, height := AccPosition(dims, depth), dims.OverallHeight();
    AccPositionFacts(dims, depth);
    proofs := Proofs(HonestProof(h, initial, pos, depth, height), HonestProof(h, final, pos, depth, height));
    ClimbComplete(h, initial, proofs.initial, pos, depth);
    ClimbComplete(h, final, proofs.final, pos, depth);
    forall j | 0 <= j < dims.addressHeight ensures proofs.initial[j] == proofs.final[j] {
      if depth <= j { SharedSibling(h, dims, initial, final, depth, j); }
    }
  }

  // ---- The same in terms of blocks ----------------------------------------------------

  /** Block `b` of the deferral address space, the fourth one, as a leaf of the tree. */
  ghost function BlockIndex(dims: MemoryDimensions, b: nat): (n: nat)
  {
    PowPos(2, dims.addressHeight);
    3 * Pow(2, dims.addressHeight) + b
  }

  ghost predicate SameBlock(dims: MemoryDimensions, initial: Leaves, final: Leaves, b: nat)
  {
    initial(BlockIndex(dims, b)) == final(BlockIndex(dims, b))
  }

  /**
   With depth zero every block but block 1 is the same in both memories; with a
   positive depth every block but the first `2^depth`.
   */
  ghost predicate BlocksAgree(dims: MemoryDimensions, initial: Leaves, final: Leaves, depth: nat)
  {
    forall b: nat :: b < Pow(2, dims.addressHeight) && (if depth == 0 then b != 1 else b >= Pow(2, depth)) ==>
      SameBlock(dims, initial, final, b)
  }

  /**
   With depth zero block 1 holds the accumulator compressed with zeros; with a
   positive depth the node over the first `2^depth` blocks is the accumulator.
   */
  ghost predicate HoldsAccumulator(h: Hash, leaves: Leaves, dims: MemoryDimensions, acc: Digest, depth: nat)
  {
    if depth == 0 then leaves(BlockIndex(dims, 1)) == h(acc, [0, 0, 0, 0, 0, 0, 0, 0])
    else depth <= dims.addressHeight && Node(h, leaves, depth, FirstNode(dims, depth)) == acc
  }

  ghost function FirstNode(dims: MemoryDimensions, depth: nat): (i: nat)
    requires depth <= dims.addressHeight
  {
    PowPos(2, dims.addressHeight - depth);
    3 * Pow(2, dims.addressHeight - depth)
  }

  /** A node and its two subtrees, two levels down. */
  lemma NodeOfFour(h: Hash, leaves: Leaves, i: nat)
    ensures Node(h, leaves, 2, i)
         == h(h(leaves(4 * i), leaves(4 * i + 1)), h(leaves(4 * i + 2), leaves(4 * i + 3)))
  {
    assert Node(h, leaves, 1, 2 * i) == h(leaves(4 * i), leaves(4 * i + 1));
    assert Node(h, leaves, 1, 2 * i + 1) == h(leaves(4 * i + 2), leaves(4 * i + 3));
  }

  lemma {:induction false} ShlIsPow(x: nat, k: nat)
    ensures Shl(x, k) == x * Pow(2, k)
  {
    if k > 0 {
      ShlIsPow(x, k - 1);
      assert 2 * (x * Pow(2, k - 1)) == x * (2 * Pow(2, k - 1));
    }
  }

  lemma {:induction false} ShrOfSum(q: nat, r: nat, k: nat)
    requires r < Pow(2, k)
    ensures q * Pow(2, k) + r >= 0 && Shr(q * Pow(2, k) + r, k) == q
  {
    PowPos(2, k);
    if k > 0 {
      var w := Pow(2, k - 1);
      PowPos(2, k - 1);
      assert q * (2 * w) == 2 * (q * w) && q * w >= 0;
      ShrHalves(q * Pow(2, k) + r, k);
      ShrOfSum(q, r / 2, k - 1);
    }
  }

  lemma {:induction false} ShrSplit(x: nat, k: nat) returns (r: nat)
    ensures r < Pow(2, k) && x == Shr(x, k) * Pow(2, k) + r
  {
    if k == 0 {
      r := 0;
    } else {
      var r' := ShrSplit(x, k - 1);
      var y, w := Shr(x, k - 1), Pow(2, k - 1);
      r := r' + (y % 2) * w;
      assert y == 2 * (y / 2) + y % 2;
      assert y * w == (y / 2) * (2 * w) + (y % 2) * w;
    }
  }

  /** Blocks of the space and their places below the accumulator's node. */
  lemma BlockPlace(dims: MemoryDimensions, depth: nat, b: nat)
    requires HasDeferralSpace(dims) && depth <= dims.addressHeight && b < Pow(2, dims.addressHeight)
    ensures InDeferralSpace(dims, BlockIndex(dims, b))
    ensures Shr(BlockIndex(dims, b), depth) == Shr(AccPosition(dims, depth), depth) <==>
      if depth == 0 then b == 1 else b < Pow(2, depth)
  {
    var ah := dims.addressHeight;
    ShrOfSum(3, b, ah);
    AccIndex(dims, depth);
    if depth > 0 { BlockBelow(ah, depth, b); }
  }

  lemma AccIndex(dims: MemoryDimensions, depth: nat)
    requires HasDeferralSpace(dims)
    ensures AccPosition(dims, depth) == BlockIndex(dims, if depth == 0 then 1 else 0)
  {
    var ah := dims.addressHeight;
    ShlIsPow(3, ah);
    PowPos(2, ah - 1);
    StartOfEven(Shl(3, ah), 3 * Pow(2, ah - 1), depth);
  }

  lemma StartOfEven(idx: nat, half: nat, depth: nat)
    requires idx == 2 * half
    ensures StartLeaf(idx, depth) == if depth == 0 then idx + 1 else idx
  {
  }

  lemma BlockBelow(ah: nat, depth: nat, b: nat)
    requires depth <= ah && b < Pow(2, ah)
    ensures 3 * Pow(2, ah) + b >= 0 && 3 * Pow(2, ah) >= 0
    ensures Shr(3 * Pow(2, ah), depth) == 3 * Pow(2, ah - depth)
    ensures Shr(3 * Pow(2, ah) + b, depth) == 3 * Pow(2, ah - depth) <==> b < Pow(2, depth)
  {
    var w, q := Pow(2, depth), 3 * Pow(2, ah - depth);
    PowPos(2, depth);
    PowPos(2, ah - depth);
    PowAdd(2, ah - depth, depth);
    assert 3 * Pow(2, ah) == q * w;
    ShrOfSum(q, 0, depth);
    ShrShift(q, b, depth);
  }

  lemma ShrShift(q: nat, b: nat, k: nat)
    ensures q * Pow(2, k) + b >= 0
    ensures Shr(q * Pow(2, k) + b, k) == q <==> b < Pow(2, k)
  {
    var w, y := Pow(2, k), Shr(b, k);
    PowPos(2, k);
    MulMono(0, q, w);
    var r := ShrSplit(b, k);
    assert (q + y) * w == q * w + y * w;
    ShrOfSum(q + y, r, k);
    if y >= 1 { MulMono(1, y, w); } else { assert y * w == 0; }
  }

  lemma {:induction false} BlockOf(dims: MemoryDimensions, n: nat) returns (b: nat)
    requires InDeferralSpace(dims, n)
    ensures b < Pow(2, dims.addressHeight) && n == BlockIndex(dims, b)
  {
    b := ShrSplit(n, dims.addressHeight);
  }

  lemma AccumulatorPlace(h: Hash, leaves: Leaves, dims: MemoryDimensions, acc: Digest, depth: nat)
    requires HasDeferralSpace(dims) && depth <= dims.addressHeight
    ensures HoldsAcc(h, leaves, dims, acc, depth) <==> HoldsAccumulator(h, leaves, dims, acc, depth)
  {
    AccIndex(dims, depth);
    assert ZeroDigest() == [0, 0, 0, 0, 0, 0, 0, 0];
    if depth > 0 {
      PowPos(2, dims.addressHeight);
      BlockBelow(dims.addressHeight, depth, 0);
    }
  }

  lemma AgreementInBlocks(dims: MemoryDimensions, initial: Leaves, final: Leaves, depth: nat)
    requires HasDeferralSpace(dims) && depth <= dims.addressHeight
    ensures AgreeOutside(dims, initial, final, depth) <==> BlocksAgree(dims, initial, final, depth)
  {
    if AgreeOutside(dims, initial, final, depth) {
      forall b: nat | b < Pow(2, dims.addressHeight) && (if depth == 0 then b != 1 else b >= Pow(2, depth))
        ensures SameBlock(dims, initial, final, b)
      {
        BlockPlace(dims, depth, b);
      }
    }
    if BlocksAgree(dims, initial, final, depth) {
      forall n | InDeferralSpace(dims, n) && Shr(n, depth) != Shr(AccPosition(dims, depth), depth)
        ensures initial(n) == final(n)
      {
        var b := BlockOf(dims, n);
        BlockPlace(dims, depth, b);
        assert SameBlock(dims, initial, final, b);
      }
    }
  }

  /** Soundness: an accepted proof pins the accumulators and every other block of the address space. */
  lemma VerifySound(h: Hash, proofs: Proofs, dims: MemoryDimensions, initial: Leaves, final: Leaves,
                    initialAcc: Digest, finalAcc: Digest, depth: nat)
    requires Injective(h) && HasDeferralSpace(dims)
    requires Accepted(h, proofs, dims, Root(h, initial, dims), Root(h, final, dims), initialAcc, finalAcc, depth)
    ensures BlocksAgree(dims, initial, final, depth)
    ensures HoldsAccumulator(h, initial, dims, initialAcc, depth)
    ensures HoldsAccumulator(h, final, dims, finalAcc, depth)
  {
    PathsSound(h, proofs, dims, initial, final, initialAcc, finalAcc, depth);
    AgreementInBlocks(dims, initial, final, depth);
    AccumulatorPlace(h, initial, dims, initialAcc, depth);
    AccumulatorPlace(h, final, dims, finalAcc, depth);
  }

  /** Completeness: when memory agrees around the accumulators, honest paths are accepted. */
  lemma VerifyComplete(h: Hash, dims: MemoryDimensions, initial: Leaves, final: Leaves,
                       initialAcc: Digest, finalAcc: Digest, depth: nat) returns (proofs: Proofs)
    requires HasDeferralSpace(dims) && depth <= dims.addressHeight && BlocksAgree(dims, initial, final, depth)
    requires HoldsAccumulator(h, initial, dims, initialAcc, depth)
    requires HoldsAccumulator(h, final, dims, finalAcc, depth)
    ensures Accepted(h, proofs, dims, Root(h, initial, dims), Root(h, final, dims), initialAcc, finalAcc, depth)
  {
    AgreementInBlocks(dims, initial, final, depth);
    AccumulatorPlace(h, initial, dims, initialAcc, depth);
    AccumulatorPlace(h, final, dims, finalAcc, depth);
    proofs := PathsComplete(h, dims, initial, final, initialAcc, finalAcc, depth);
  }

  // ---- The deferral part of the proof's public values ---------------------------------

  datatype VerifierDefPvs = VerifierDefPvs(deferralFlag: nat, defHookCommit: Digest)
  datatype DeferralPvs = DeferralPvs(initialAccHash: Digest, finalAccHash: Digest, depth: nat, nodeIdx: nat)

  ghost predicate AllZero(d: Digest)
  {
    d == Repeat<nat>(0, |d|)
  }

  lemma UnsetIsZero(d: Digest)
    ensures IsUnset(d) <==> AllZero(d)
  {
  }

  /** The public values that pass, apart from the Merkle proofs. */
  ghost predicate PvsAccepted(expected: Digest, v: VerifierDefPvs, d: DeferralPvs)
  {
    && (v.deferralFlag == 0 || v.deferralFlag == 2)
    && (v.deferralFlag == 0 ==>
          AllZero(v.defHookCommit) && AllZero(d.initialAccHash) && AllZero(d.finalAccHash) && d.depth == 0)
    && (v.deferralFlag == 2 ==> v.defHookCommit == expected)
    && d.nodeIdx == 0
  }

  ghost predicate DeferralAccepted(h: Hash, expected: Digest, v: VerifierDefPvs, d: DeferralPvs, proofs: Option<Proofs>,
                                   dims: MemoryDimensions, initialRoot: Digest, finalRoot: Digest)
  {
    && PvsAccepted(expected, v, d) && proofs.Some?
    && Accepted(h, proofs.value, dims, initialRoot, finalRoot, d.initialAccHash, d.finalAccHash, d.depth)
  }

  method CheckDeferral(h: Hash, expectedHook: Option<Digest>, verifierPvs: Option<VerifierDefPvs>,
                       deferralPvs: Option<DeferralPvs>, proofs: Option<Proofs>, dims: MemoryDimensions,
                       initialRoot: Digest, finalRoot: Digest)
    returns (r: Result)
    requires expectedHook.Some? ==> verifierPvs.Some? && deferralPvs.Some?
    ensures expectedHook.None? ==>
      r == if verifierPvs.None? && deferralPvs.None? && proofs.None? then Ok else Err(UnexpectedDeferralDisabled)
    ensures expectedHook.Some? ==>
      var expected, v, d := expectedHook.value, verifierPvs.value, deferralPvs.value;
      && (r.Ok? <==> DeferralAccepted(h, expected, v, d, proofs, dims, initialRoot, finalRoot))
      && r != Err(UnexpectedDeferralDisabled)
      && (r == Err(InvalidDeferralFlag) <==> v.deferralFlag != 0 && v.deferralFlag != 2)
      && (r == Err(DefHookCommitSet) <==> v.deferralFlag == 0 && !AllZero(v.defHookCommit))
      && (r == Err(DefInitialAccHashCommitSet) <==>
            v.deferralFlag == 0 && AllZero(v.defHookCommit) && !AllZero(d.initialAccHash))
      && (r == Err(DefFinalAccHashCommitSet) <==>
            && v.deferralFlag == 0 && AllZero(v.defHookCommit) && AllZero(d.initialAccHash)
            && !AllZero(d.finalAccHash))
      && (r == Err(DefDepthSet) <==>
            && v.deferralFlag == 0 && AllZero(v.defHookCommit) && AllZero(d.initialAccHash)
            && AllZero(d.finalAccHash) && d.depth != 0)
      && (r == Err(DefHookCommitMismatch) <==> v.deferralFlag == 2 && v.defHookCommit != expected)
      && (r == Err(DefNodeIdxNonZero) <==> PvsAccepted(expected, v, d.(nodeIdx := 0)) && d.nodeIdx != 0)
      && (r == Err(MissingDeferralMerkleProofs) <==> PvsAccepted(expected, v, d) && proofs.None?)
  {
    match expectedHook {
      case Some(expected) =>
        var VerifierDefPvs(flag, hook) := verifierPvs.value;
        var DeferralPvs(initialAcc, finalAcc, depth, nodeIdx) := deferralPvs.value;
        UnsetIsZero(hook);
        UnsetIsZero(initialAcc);
        UnsetIsZero(finalAcc);
        if flag == 0 {
          if !IsUnset(hook) {
            return Err(DefHookCommitSet);
          } else if !IsUnset(initialAcc) {
            return Err(DefInitialAccHashCommitSet);
          } else if !IsUnset(finalAcc) {
            return Err(DefFinalAccHashCommitSet);
          } else if depth != 0 {
            return Err(DefDepthSet);
          }
        } else if flag == 2 {
          if hook != expected {
            return Err(DefHookCommitMismatch);
          }
        } else {
          return Err(InvalidDeferralFlag);
        }
        if nodeIdx != 0 {
          return Err(DefNodeIdxNonZero);
        }
        if proofs.None? {
          return Err(MissingDeferralMerkleProofs);
        }
        r := Verify(h, proofs.value, dims, initialRoot, finalRoot, initialAcc, finalAcc, depth);
      case None =>
        if verifierPvs.Some? || deferralPvs.Some? || proofs.Some? {
          return Err(UnexpectedDeferralDisabled);
        }
        r := Ok;
    }
  }

  /**
   With flag zero both accumulators are the zero digest, so the one block that
   `VerifySound` leaves open is the same on both sides: no block of the deferral
   address space changed.
   */
  lemma FlagZeroUnchanged(h: Hash, expected: Digest, v: VerifierDefPvs, d: DeferralPvs, proofs: Option<Proofs>,
                          dims: MemoryDimensions, initial: Leaves, final: Leaves)
    requires Injective(h) && HasDeferralSpace(dims)
    requires |d.initialAccHash| == |d.finalAccHash| == 8 && v.deferralFlag == 0
    requires DeferralAccepted(h, expected, v, d, proofs, dims, Root(h, initial, dims), Root(h, final, dims))
    ensures d.initialAccHash == d.finalAccHash == [0, 0, 0, 0, 0, 0, 0, 0] && d.depth == 0
    ensures forall b: nat :: b < Pow(2, dims.addressHeight) ==> SameBlock(dims, initial, final, b)
  {
    VerifySound(h, proofs.value, dims, initial, final, d.initialAccHash, d.finalAccHash, 0);
    forall b: nat | b < Pow(2, dims.addressHeight) ensures SameBlock(dims, initial, final, b) {
      if b == 1 { assert initial(BlockIndex(dims, 1)) == final(BlockIndex(dims, 1)); }
    }
  }

  /**
   With flag two the hook is the expected one, and memory holds the two
   accumulators and agrees on every other block of the deferral address space.
   */
  lemma FlagTwoPinned(h: Hash, expected: Digest, v: VerifierDefPvs, d: DeferralPvs, proofs: Option<Proofs>,
                      dims: MemoryDimensions, initial: Leaves, final: Leaves)
    requires Injective(h) && HasDeferralSpace(dims) && v.deferralFlag == 2
    requires DeferralAccepted(h, expected, v, d, proofs, dims, Root(h, initial, dims), Root(h, final, dims))
    ensures v.defHookCommit == expected && BlocksAgree(dims, initial, final, d.depth)
    ensures HoldsAccumulator(h, initial, dims, d.initialAccHash, d.depth)
    ensures HoldsAccumulator(h, final, dims, d.finalAccHash, d.depth)
  {
    VerifySound(h, proofs.value, dims, initial, final, d.initialAccHash, d.finalAccHash, d.depth);
  }
}
