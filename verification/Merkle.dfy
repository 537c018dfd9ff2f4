/** The sparse fixed-depth Merkle tree as a value: a leaf sequence and the nodes over it. */
module Merkle {
  import opened ByteStrings
  import opened Bits
  import opened Hashing

  const MERKLE_DEPTH: nat := 20
  const MAX_LEAVES: nat := 1_048_576

  /** An inclusion proof; both sequences have one element per level, leaf level first. */
  datatype MerkleProof = MerkleProof(siblings: seq<Hash>, indices: seq<bool>)

  predicate HasDepth(proof: MerkleProof, depth: nat) {
    |proof.siblings| == depth && |proof.indices| == depth
  }

  // ---------- The naive tree ----------

  /** The leaf at `pos` once the leaves are padded with zeros. */
  function PaddedLeaf(leaves: seq<Hash>, pos: nat): (r: Hash) {
    if pos < |leaves| then leaves[pos] else ZERO_HASH
  }

  /** The node at `(level, pos)` of the full binary tree over the padded leaves. */
  function PaddedNode(h: Hasher, leaves: seq<Hash>, level: nat, pos: nat): (r: Hash)
    decreases level, leaves
  {
    if level == 0 then h.HashLeaf(PaddedLeaf(leaves, pos))
    else h.HashNode(PaddedNode(h, leaves, level - 1, 2 * pos), PaddedNode(h, leaves, level - 1, 2 * pos + 1))
  }

  // ---------- The tree as computed ----------

  /** The marker that stands for an empty subtree of height `level`. */
  function ZeroHash(h: Hasher, level: nat): (r: Hash) {
    if level == 0 then h.HashLeaf(ZERO_HASH)
    else h.HashNode(ZeroHash(h, level - 1), ZeroHash(h, level - 1))
  }

  /** `node_at`: recursion that stops at the marker of an empty subtree. */
  function NodeAt(h: Hasher, leaves: seq<Hash>, level: nat, pos: nat): (r: Hash)
    decreases level, leaves
  {
    if level == 0 then (if pos < |leaves| then h.HashLeaf(leaves[pos]) else ZeroHash(h, 0))
    else if pos * Pow2(level) >= |leaves| then ZeroHash(h, level)
    else h.HashNode(NodeAt(h, leaves, level - 1, pos * 2), NodeAt(h, leaves, level - 1, pos * 2 + 1))
  }

  function Root(h: Hasher, leaves: seq<Hash>, depth: nat): (r: Hash) {
    NodeAt(h, leaves, depth, 0)
  }

  /** Level by level, the sibling of `index`'s ancestor and the ancestor's low bit. */
  ghost predicate IsPathOf(h: Hasher, leaves: seq<Hash>, proof: MerkleProof, depth: nat, index: nat) {
    && HasDepth(proof, depth)
    && (forall level {:trigger proof.siblings[level]} :: 0 <= level < depth ==>
          proof.siblings[level] == NodeAt(h, leaves, level, Sibling(ShiftRight(index, level))))
    && (forall level {:trigger proof.indices[level]} :: 0 <= level < depth ==>
          proof.indices[level] == (ShiftRight(index, level) % 2 == 1))
  }

  function PathSiblings(h: Hasher, leaves: seq<Hash>, depth: nat, index: nat): (r: seq<Hash>)
    ensures |r| == depth
    decreases depth, leaves
  {
    if depth == 0 then []
    else PathSiblings(h, leaves, depth - 1, index)
           + [NodeAt(h, leaves, depth - 1, Sibling(ShiftRight(index, depth - 1)))]
  }

  function PathBits(depth: nat, index: nat): (r: seq<bool>)
    ensures |r| == depth
    decreases depth, index
  {
    if depth == 0 then [] else PathBits(depth - 1, index) + [ShiftRight(index, depth - 1) % 2 == 1]
  }

  /** The inclusion proof of position `index`. */
  function Proof(h: Hasher, leaves: seq<Hash>, depth: nat, index: nat): (r: MerkleProof)
    ensures HasDepth(r, depth)
  {
    MerkleProof(PathSiblings(h, leaves, depth, index), PathBits(depth, index))
  }

  lemma {:induction false} ProofIsPath(h: Hasher, leaves: seq<Hash>, depth: nat, index: nat)
    ensures IsPathOf(h, leaves, Proof(h, leaves, depth, index), depth, index)
  {
    hide NodeAt, ShiftRight, Sibling;
    if depth == 0 {
    } else {
      ProofIsPath(h, leaves, depth - 1, index);
      var shorter, proof := Proof(h, leaves, depth - 1, index), Proof(h, leaves, depth, index);
      forall level | 0 <= level < depth
        ensures proof.siblings[level] == NodeAt(h, leaves, level, Sibling(ShiftRight(index, level)))
        ensures proof.indices[level] == (ShiftRight(index, level) % 2 == 1)
      {
        if level < depth - 1 {
          assert proof.siblings[level] == shorter.siblings[level] && proof.indices[level] == shorter.indices[level];
        }
      }
    }
  }

  /** One step of the path walk: which side the sibling goes is the direction bit. */
  function Combine(h: Hasher, current: Hash, sibling: Hash, isRight: bool): (r: Hash) {
    if isRight then h.HashNode(sibling, current) else h.HashNode(current, sibling)
  }

  /** What `Combine` hashes. */
  function CombinePreimage(current: Hash, sibling: Hash, isRight: bool): (r: seq<byte>) {
    if isRight then NodePreimage(sibling, current) else NodePreimage(current, sibling)
  }

  /** The value the path walk holds after `level` steps. */
  function Fold(h: Hasher, leaf: Hash, proof: MerkleProof, level: nat): (r: Hash)
    requires level <= |proof.siblings| && level <= |proof.indices|
    decreases level, proof
  {
    if level == 0 then h.HashLeaf(leaf)
    else Combine(h, Fold(h, leaf, proof, level - 1), proof.siblings[level - 1], proof.indices[level - 1])
  }

  predicate VerifyProof(h: Hasher, root: Hash, leaf: Hash, proof: MerkleProof, depth: nat)
    requires HasDepth(proof, depth)
  {
    leaf != ZERO_HASH && Fold(h, leaf, proof, depth) == root
  }

  // ---------- The shortcut refines the naive tree ----------

  lemma {:induction false} EmptySubtree(h: Hasher, leaves: seq<Hash>, level: nat, pos: nat)
    requires pos * Pow2(level) >= |leaves|
    ensures PaddedNode(h, leaves, level, pos) == ZeroHash(h, level)
  {
    if level == 0 {
    } else {
      Halves(pos, Pow2(level - 1));
      EmptySubtree(h, leaves, level - 1, 2 * pos);
      EmptySubtree(h, leaves, level - 1, 2 * pos + 1);
    }
  }

  /** The zero-marker shortcut computes the naive tree, at every node and for every leaf sequence. */
  lemma {:induction false} ShortcutIsNaive(h: Hasher, leaves: seq<Hash>, level: nat, pos: nat)
    ensures NodeAt(h, leaves, level, pos) == PaddedNode(h, leaves, level, pos)
  {
    if level == 0 {
    } else {
      if pos * Pow2(level) >= |leaves| {
        EmptySubtree(h, leaves, level, pos);
      } else {
        ShortcutIsNaive(h, leaves, level - 1, pos * 2);
        ShortcutIsNaive(h, leaves, level - 1, pos * 2 + 1);
      }
    }
  }

  // ---------- Completeness ----------

  /** One step of the walk goes from a node, with its sibling, to its parent. */
  lemma StepUp(h: Hasher, leaves: seq<Hash>, level: nat, pos: nat)
    ensures Combine(h, PaddedNode(h, leaves, level, pos), NodeAt(h, leaves, level, Sibling(pos)), pos % 2 == 1)
         == PaddedNode(h, leaves, level + 1, pos / 2)
  {
    ShortcutIsNaive(h, leaves, level, Sibling(pos));
    assert pos == 2 * (pos / 2) + pos % 2;
  }

  /** Walking the proof of `index` passes through the ancestors of `index`. */
  lemma {:induction false} FoldFollowsAncestors(h: Hasher, leaves: seq<Hash>, proof: MerkleProof,
                                                depth: nat, index: nat, level: nat)
    requires IsPathOf(h, leaves, proof, depth, index) && level <= depth
    ensures Fold(h, PaddedLeaf(leaves, index), proof, level)
         == PaddedNode(h, leaves, level, ShiftRight(index, level))
    decreases level
  {
    if level == 0 {
    } else {
      FoldFollowsAncestors(h, leaves, proof, depth, index, level - 1);
      StepUp(h, leaves, level - 1, ShiftRight(index, level - 1));
      assert proof.indices[level - 1] == (ShiftRight(index, level - 1) % 2 == 1);
    }
  }

  /** A position under the root has no ancestor but the root at the top. */
  lemma TopIsRoot(index: nat, depth: nat)
    requires index < Pow2(depth)
    ensures ShiftRight(index, depth) == 0
  {
    ShiftBlock(index, depth, 0);
  }

  /** The honest proof of any position, used or empty, folds to the root. */
  lemma HonestFold(h: Hasher, leaves: seq<Hash>, depth: nat, index: nat)
    requires index < Pow2(depth)
    ensures Fold(h, PaddedLeaf(leaves, index), Proof(h, leaves, depth, index), depth) == Root(h, leaves, depth)
  {
    ProofIsPath(h, leaves, depth, index);
    FoldFollowsAncestors(h, leaves, Proof(h, leaves, depth, index), depth, index, depth);
    TopIsRoot(index, depth);
    ShortcutIsNaive(h, leaves, depth, 0);
  }

  /** Every stored leaf verifies with its own proof, unless it is the all-zero leaf. */
  lemma {:induction false} Completeness(h: Hasher, leaves: seq<Hash>, depth: nat, index: nat)
    requires index < |leaves| <= Pow2(depth)
    ensures VerifyProof(h, Root(h, leaves, depth), leaves[index], Proof(h, leaves, depth, index), depth)
       <==> leaves[index] != ZERO_HASH
  {
    HonestFold(h, leaves, depth, index);
  }

  // ---------- What is hashed ----------

  /** Every preimage hashed in the subtree at `(level, pos)` of the padded tree. */
  ghost function TreeInputs(h: Hasher, leaves: seq<Hash>, level: nat, pos: nat): (inputs: set<seq<byte>>)
    decreases level, leaves
  {
    if level == 0 then
      {LeafPreimage(PaddedLeaf(leaves, pos))}
    else
      var left, right := PaddedNode(h, leaves, level - 1, 2 * pos), PaddedNode(h, leaves, level - 1, 2 * pos + 1);
      {NodePreimage(left, right)}
        + TreeInputs(h, leaves, level - 1, 2 * pos) + TreeInputs(h, leaves, level - 1, 2 * pos + 1)
  }

  /** Every preimage hashed by the first `level` steps of a path walk. */
  ghost function FoldInputs(h: Hasher, leaf: Hash, proof: MerkleProof, level: nat): (inputs: set<seq<byte>>)
    requires level <= |proof.siblings| && level <= |proof.indices|
    decreases level, proof
  {
    if level == 0 then {LeafPreimage(leaf)}
    else
      var current, sibling := Fold(h, leaf, proof, level - 1), proof.siblings[level - 1];
      FoldInputs(h, leaf, proof, level - 1)
        + {CombinePreimage(current, sibling, proof.indices[level - 1])}
  }

  /** `inputs` holds every preimage of the subtree at `(level, pos)`. */
  ghost predicate CoversTree(h: Hasher, leaves: seq<Hash>, level: nat, pos: nat, inputs: set<seq<byte>>)
    decreases level, leaves
  {
    if level == 0 then
      LeafPreimage(PaddedLeaf(leaves, pos)) in inputs
    else
      && NodePreimage(PaddedNode(h, leaves, level - 1, 2 * pos),
                      PaddedNode(h, leaves, level - 1, 2 * pos + 1)) in inputs
      && CoversTree(h, leaves, level - 1, 2 * pos, inputs)
      && CoversTree(h, leaves, level - 1, 2 * pos + 1, inputs)
  }

  /** `inputs` holds every preimage of the first `level` steps of the walk. */
  ghost predicate CoversFold(h: Hasher, leaf: Hash, proof: MerkleProof, level: nat, inputs: set<seq<byte>>)
    requires level <= |proof.siblings| && level <= |proof.indices|
    decreases level, proof
  {
    if level == 0 then
      LeafPreimage(leaf) in inputs
    else
      && CombinePreimage(Fold(h, leaf, proof, level - 1), proof.siblings[level - 1], proof.indices[level - 1]) in inputs
      && CoversFold(h, leaf, proof, level - 1, inputs)
  }

  lemma {:induction false} TreeInputsCover(h: Hasher, leaves: seq<Hash>, level: nat, pos: nat, inputs: set<seq<byte>>)
    requires TreeInputs(h, leaves, level, pos) <= inputs
    ensures CoversTree(h, leaves, level, pos, inputs)
    decreases level, leaves
  {
    hide LeafPreimage, NodePreimage, PaddedNode;
    if level == 0 {
    } else {
      TreeInputsCover(h, leaves, level - 1, 2 * pos, inputs);
      TreeInputsCover(h, leaves, level - 1, 2 * pos + 1, inputs);
    }
  }

  lemma {:induction false} FoldInputsCover(h: Hasher, leaf: Hash, proof: MerkleProof, level: nat,
                                           inputs: set<seq<byte>>)
    requires level <= |proof.siblings| && level <= |proof.indices|
    requires FoldInputs(h, leaf, proof, level) <= inputs
    ensures CoversFold(h, leaf, proof, level, inputs)
    decreases level, proof
  {
    if level == 0 {
    } else {
      FoldInputsCover(h, leaf, proof, level - 1, inputs);
    }
  }

  // ---------- Soundness ----------

  /** The left or right child of a position. */
  function Child(pos: nat, isRight: bool): (r: nat)
    ensures r / 2 == pos && r % 2 == (if isRight then 1 else 0)
    ensures Sibling(r) == if isRight then 2 * pos else 2 * pos + 1
  {
    if isRight then 2 * pos + 1 else 2 * pos
  }

  /** The leaf position the direction bits below `level` lead to from `(level, pos)`. */
  function Descend(indices: seq<bool>, level: nat, pos: nat): (r: nat)
    requires level <= |indices|
    decreases level, indices
  {
    if level == 0 then pos
    else Descend(indices, level - 1, Child(pos, indices[level - 1]))
  }

  /** The leaf position a proof claims. */
  function LeafIndex(proof: MerkleProof): (r: nat) {
    Descend(proof.indices, |proof.indices|, 0)
  }

  /** The direction bits are the binary digits of the position they lead to. */
  lemma {:induction false} DescendShift(indices: seq<bool>, level: nat, pos: nat)
    requires level <= |indices|
    ensures ShiftRight(Descend(indices, level, pos), level) == pos
    ensures forall l {:trigger indices[l]} :: 0 <= l < level ==>
      indices[l] == (ShiftRight(Descend(indices, level, pos), l) % 2 == 1)
    decreases level
  {
    if level == 0 {
    } else {
      DescendShift(indices, level - 1, Child(pos, indices[level - 1]));
    }
  }

  /** A combination equal to a node combines the node's two children. */
  lemma SameCombination(h: Hasher, inputs: set<seq<byte>>, current: Hash, sibling: Hash, isRight: bool,
                        left: Hash, right: Hash)
    requires CollisionFree(h, inputs)
    requires CombinePreimage(current, sibling, isRight) in inputs && NodePreimage(left, right) in inputs
    requires Combine(h, current, sibling, isRight) == h.HashNode(left, right)
    ensures current == (if isRight then right else left)
    ensures sibling == (if isRight then left else right)
  {
    if isRight {
      SameNode(h, inputs, sibling, current, left, right);
    } else {
      SameNode(h, inputs, current, sibling, left, right);
    }
  }

  /** Equal values after one more step come from equal values and an equal sibling before it. */
  lemma StepDown(h: Hasher, leaves: seq<Hash>, leaf: Hash, proof: MerkleProof, level: nat, pos: nat,
                 inputs: set<seq<byte>>)
    requires level < |proof.siblings| && level < |proof.indices|
    requires CollisionFree(h, inputs)
    requires CoversTree(h, leaves, level + 1, pos, inputs) && CoversFold(h, leaf, proof, level + 1, inputs)
    requires Fold(h, leaf, proof, level + 1) == PaddedNode(h, leaves, level + 1, pos)
    ensures Fold(h, leaf, proof, level) == PaddedNode(h, leaves, level, Child(pos, proof.indices[level]))
    ensures proof.siblings[level] == PaddedNode(h, leaves, level, Child(pos, !proof.indices[level]))
    ensures CoversTree(h, leaves, level, Child(pos, proof.indices[level]), inputs)
    ensures CoversFold(h, leaf, proof, level, inputs)
  {
    SameCombination(h, inputs, Fold(h, leaf, proof, level), proof.siblings[level], proof.indices[level],
                    PaddedNode(h, leaves, level, 2 * pos), PaddedNode(h, leaves, level, 2 * pos + 1));
  }

  /** The sibling of `index`'s ancestor at `level`. */
  function PaddedSibling(h: Hasher, leaves: seq<Hash>, index: nat, level: nat): (r: Hash) {
    PaddedNode(h, leaves, level, Sibling(ShiftRight(index, level)))
  }

  /** Below `(level, pos)`, the proof carries the direction bits and siblings of one position. */
  ghost predicate AgreesBelow(h: Hasher, leaves: seq<Hash>, proof: MerkleProof, level: nat, index: nat)
    requires level <= |proof.siblings| && level <= |proof.indices|
  {
    forall l {:trigger proof.siblings[l]} :: 0 <= l < level ==>
      proof.siblings[l] == PaddedSibling(h, leaves, index, l)
  }

  lemma AgreesOneMore(h: Hasher, leaves: seq<Hash>, proof: MerkleProof, level: nat, index: nat, pos: nat)
    requires level < |proof.siblings| && level < |proof.indices|
    requires AgreesBelow(h, leaves, proof, level, index)
    requires ShiftRight(index, level) == Child(pos, proof.indices[level])
    requires proof.siblings[level] == PaddedNode(h, leaves, level, Child(pos, !proof.indices[level]))
    ensures AgreesBelow(h, leaves, proof, level + 1, index)
  {
    assert Sibling(ShiftRight(index, level)) == Child(pos, !proof.indices[level]);
  }

  lemma LeafLevel(h: Hasher, leaves: seq<Hash>, leaf: Hash, proof: MerkleProof, pos: nat, inputs: set<seq<byte>>)
    requires CollisionFree(h, inputs)
    requires CoversTree(h, leaves, 0, pos, inputs) && CoversFold(h, leaf, proof, 0, inputs)
    requires Fold(h, leaf, proof, 0) == PaddedNode(h, leaves, 0, pos)
    ensures leaf == PaddedLeaf(leaves, pos) && AgreesBelow(h, leaves, proof, 0, pos)
  {
    hide LeafPreimage;
    SameLeaf(h, inputs, leaf, PaddedLeaf(leaves, pos));
  }

  /** Folding to a node forces the leaf and every sibling on the way down. */
  lemma {:induction false} DescendTogether(h: Hasher, leaves: seq<Hash>, leaf: Hash, proof: MerkleProof,
                                           level: nat, pos: nat, inputs: set<seq<byte>>)
    requires level <= |proof.siblings| && level <= |proof.indices|
    requires CollisionFree(h, inputs)
    requires CoversTree(h, leaves, level, pos, inputs) && CoversFold(h, leaf, proof, level, inputs)
    requires Fold(h, leaf, proof, level) == PaddedNode(h, leaves, level, pos)
    ensures leaf == PaddedLeaf(leaves, Descend(proof.indices, level, pos))
    ensures AgreesBelow(h, leaves, proof, level, Descend(proof.indices, level, pos))
    decreases level
  {
    hide Fold, PaddedNode, CoversTree, CoversFold, ShiftRight, AgreesBelow, PaddedLeaf;
    if level == 0 {
      LeafLevel(h, leaves, leaf, proof, pos, inputs);
    } else {
      var below := Child(pos, proof.indices[level - 1]);
      StepDown(h, leaves, leaf, proof, level - 1, pos, inputs);
      DescendTogether(h, leaves, leaf, proof, level - 1, below, inputs);
      DescendShift(proof.indices, level - 1, below);
      AgreesOneMore(h, leaves, proof, level - 1, Descend(proof.indices, level, pos), pos);
    }
  }

  ghost function OpeningInputs(h: Hasher, leaves: seq<Hash>, leaf: Hash, proof: MerkleProof, depth: nat)
    : (inputs: set<seq<byte>>)
    requires HasDepth(proof, depth)
  {
    TreeInputs(h, leaves, depth, 0) + FoldInputs(h, leaf, proof, depth)
  }

  lemma LeafIndexInRange(proof: MerkleProof)
    ensures LeafIndex(proof) < Pow2(|proof.indices|)
  {
    DescendShift(proof.indices, |proof.indices|, 0);
    ShiftBlock(LeafIndex(proof), |proof.indices|, 0);
  }

  /** A proof that carries the digits and siblings of a position is the proof of that position. */
  lemma PathIsProof(h: Hasher, leaves: seq<Hash>, proof: MerkleProof, depth: nat, index: nat)
    requires HasDepth(proof, depth) && AgreesBelow(h, leaves, proof, depth, index)
    requires index == LeafIndex(proof)
    ensures proof == Proof(h, leaves, depth, index)
  {
    var honest := Proof(h, leaves, depth, index);
    ProofIsPath(h, leaves, depth, index);
    DescendShift(proof.indices, depth, 0);
    forall l | 0 <= l < depth
      ensures proof.siblings[l] == honest.siblings[l] && proof.indices[l] == honest.indices[l]
    {
      ShortcutIsNaive(h, leaves, l, Sibling(ShiftRight(index, l)));
    }
    assert proof.siblings == honest.siblings;
    assert proof.indices == honest.indices;
  }

  lemma OpeningIsHonest(h: Hasher, leaves: seq<Hash>, leaf: Hash, proof: MerkleProof, depth: nat)
    requires HasDepth(proof, depth)
    requires CollisionFree(h, OpeningInputs(h, leaves, leaf, proof, depth))
    requires Fold(h, leaf, proof, depth) == Root(h, leaves, depth)
    ensures leaf == PaddedLeaf(leaves, LeafIndex(proof)) && proof == Proof(h, leaves, depth, LeafIndex(proof))
  {
    var inputs := OpeningInputs(h, leaves, leaf, proof, depth);
    ShortcutIsNaive(h, leaves, depth, 0);
    TreeInputsCover(h, leaves, depth, 0, inputs);
    FoldInputsCover(h, leaf, proof, depth, inputs);
    DescendTogether(h, leaves, leaf, proof, depth, 0, inputs);
    PathIsProof(h, leaves, proof, depth, LeafIndex(proof));
  }

  /**
   * Which openings fold to the root, the guard on the zero leaf aside: the honest ones, over all
   * `2^depth` positions of the padded tree.
   */
  lemma {:induction false} RawOpenings(h: Hasher, leaves: seq<Hash>, leaf: Hash, proof: MerkleProof, depth: nat)
    requires HasDepth(proof, depth)
    requires CollisionFree(h, OpeningInputs(h, leaves, leaf, proof, depth))
    ensures Fold(h, leaf, proof, depth) == Root(h, leaves, depth)
       <==> leaf == PaddedLeaf(leaves, LeafIndex(proof)) && proof == Proof(h, leaves, depth, LeafIndex(proof))
  {
    if Fold(h, leaf, proof, depth) == Root(h, leaves, depth) {
      OpeningIsHonest(h, leaves, leaf, proof, depth);
    } else if leaf == PaddedLeaf(leaves, LeafIndex(proof)) && proof == Proof(h, leaves, depth, LeafIndex(proof)) {
      LeafIndexInRange(proof);
      HonestFold(h, leaves, depth, LeafIndex(proof));
      assert false;
    }
  }

  /**
   * Soundness with its converse: against the root of a tree, a proof is accepted exactly when the
   * leaf is non-zero, is stored at the position the direction bits name, and the proof is the one
   * the tree itself would issue for that position.
   */
  lemma {:induction false} Soundness(h: Hasher, leaves: seq<Hash>, leaf: Hash, proof: MerkleProof, depth: nat)
    requires HasDepth(proof, depth)
    requires CollisionFree(h, OpeningInputs(h, leaves, leaf, proof, depth))
    ensures VerifyProof(h, Root(h, leaves, depth), leaf, proof, depth)
       <==> (leaf != ZERO_HASH
             && LeafIndex(proof) < |leaves| && leaves[LeafIndex(proof)] == leaf
             && proof == Proof(h, leaves, depth, LeafIndex(proof)))
  {
    RawOpenings(h, leaves, leaf, proof, depth);
  }

  /** Without the guard every empty position would open: its zero leaf folds to the root. */
  lemma {:induction false} GuardIsNeeded(h: Hasher, leaves: seq<Hash>, depth: nat, index: nat)
    requires |leaves| <= index < Pow2(depth)
    ensures Fold(h, ZERO_HASH, Proof(h, leaves, depth, index), depth) == Root(h, leaves, depth)
    ensures !VerifyProof(h, Root(h, leaves, depth), ZERO_HASH, Proof(h, leaves, depth, index), depth)
  {
    HonestFold(h, leaves, depth, index);
  }

  // ---------- Binding ----------

  /** Padded leaves agree on the block under `(level, pos)`. */
  ghost predicate SameBlock(a: seq<Hash>, b: seq<Hash>, level: nat, pos: nat) {
    forall i: nat :: ShiftRight(i, level) == pos ==> PaddedLeaf(a, i) == PaddedLeaf(b, i)
  }

  lemma SplitBlock(a: seq<Hash>, b: seq<Hash>, level: nat, pos: nat)
    ensures SameBlock(a, b, level + 1, pos) <==> SameBlock(a, b, level, 2 * pos) && SameBlock(a, b, level, 2 * pos + 1)
  {
    forall i: nat
      ensures ShiftRight(i, level + 1) == pos
         <==> ShiftRight(i, level) == 2 * pos || ShiftRight(i, level) == 2 * pos + 1
    {
    }
  }

  /** A node depends only on the padded leaves in its block. */
  lemma {:induction false} NodeDependsOnBlock(h: Hasher, a: seq<Hash>, b: seq<Hash>, level: nat, pos: nat)
    requires SameBlock(a, b, level, pos)
    ensures PaddedNode(h, a, level, pos) == PaddedNode(h, b, level, pos)
    decreases level
  {
    if level == 0 {
      assert ShiftRight(pos, 0) == pos;
    } else {
      SplitBlock(a, b, level - 1, pos);
      NodeDependsOnBlock(h, a, b, level - 1, 2 * pos);
      NodeDependsOnBlock(h, a, b, level - 1, 2 * pos + 1);
    }
  }

  lemma ParentsEqual(h: Hasher, a: seq<Hash>, b: seq<Hash>, level: nat, pos: nat, inputs: set<seq<byte>>)
    requires CollisionFree(h, inputs)
    requires CoversTree(h, a, level + 1, pos, inputs) && CoversTree(h, b, level + 1, pos, inputs)
    requires PaddedNode(h, a, level + 1, pos) == PaddedNode(h, b, level + 1, pos)
    ensures PaddedNode(h, a, level, 2 * pos) == PaddedNode(h, b, level, 2 * pos)
    ensures PaddedNode(h, a, level, 2 * pos + 1) == PaddedNode(h, b, level, 2 * pos + 1)
  {
    SameNode(h, inputs, PaddedNode(h, a, level, 2 * pos), PaddedNode(h, a, level, 2 * pos + 1),
             PaddedNode(h, b, level, 2 * pos), PaddedNode(h, b, level, 2 * pos + 1));
  }

  /** Equal nodes sit over equal padded leaves. */
  lemma {:induction false} EqualNodesEqualLeaves(h: Hasher, a: seq<Hash>, b: seq<Hash>, level: nat, pos: nat,
                                                 inputs: set<seq<byte>>)
    requires CollisionFree(h, inputs)
    requires CoversTree(h, a, level, pos, inputs) && CoversTree(h, b, level, pos, inputs)
    requires PaddedNode(h, a, level, pos) == PaddedNode(h, b, level, pos)
    ensures SameBlock(a, b, level, pos)
    decreases level
  {
    if level == 0 {
      SameLeaf(h, inputs, PaddedLeaf(a, pos), PaddedLeaf(b, pos));
    } else {
      ParentsEqual(h, a, b, level - 1, pos, inputs);
      EqualNodesEqualLeaves(h, a, b, level - 1, 2 * pos, inputs);
      EqualNodesEqualLeaves(h, a, b, level - 1, 2 * pos + 1, inputs);
      SplitBlock(a, b, level - 1, pos);
    }
  }

  lemma {:induction false} BlockUnderRoot(i: nat, level: nat, pos: nat, depth: nat)
    requires level <= depth && pos < Pow2(depth - level) && ShiftRight(i, level) == pos
    ensures i < Pow2(depth)
    decreases depth - level
  {
    if level == depth {
      ShiftBlock(i, level, 0);
    } else {
      BlockUnderRoot(i, level + 1, pos / 2, depth);
    }
  }

  /** The root binds the zero-padded leaf sequence and, with it, every node of the tree. */
  lemma {:induction false} RootBinding(h: Hasher, a: seq<Hash>, b: seq<Hash>, depth: nat)
    requires CollisionFree(h, TreeInputs(h, a, depth, 0) + TreeInputs(h, b, depth, 0))
    ensures Root(h, a, depth) == Root(h, b, depth)
       <==> forall i: nat :: i < Pow2(depth) ==> PaddedLeaf(a, i) == PaddedLeaf(b, i)
    ensures Root(h, a, depth) == Root(h, b, depth) ==>
      forall level: nat, pos: nat :: level <= depth && pos < Pow2(depth - level) ==>
        NodeAt(h, a, level, pos) == NodeAt(h, b, level, pos)
  {
    ShortcutIsNaive(h, a, depth, 0);
    ShortcutIsNaive(h, b, depth, 0);
    forall i: nat
      ensures i < Pow2(depth) <==> ShiftRight(i, depth) == 0
    {
      ShiftBlock(i, depth, 0);
    }
    if Root(h, a, depth) == Root(h, b, depth) {
      var inputs := TreeInputs(h, a, depth, 0) + TreeInputs(h, b, depth, 0);
      TreeInputsCover(h, a, depth, 0, inputs);
      TreeInputsCover(h, b, depth, 0, inputs);
      EqualNodesEqualLeaves(h, a, b, depth, 0, inputs);
      forall level: nat, pos: nat | level <= depth && pos < Pow2(depth - level)
        ensures NodeAt(h, a, level, pos) == NodeAt(h, b, level, pos)
      {
        ShortcutIsNaive(h, a, level, pos);
        ShortcutIsNaive(h, b, level, pos);
        forall i: nat | ShiftRight(i, level) == pos
          ensures PaddedLeaf(a, i) == PaddedLeaf(b, i)
        {
          BlockUnderRoot(i, level, pos, depth);
        }
        NodeDependsOnBlock(h, a, b, level, pos);
      }
    } else if forall i: nat :: i < Pow2(depth) ==> PaddedLeaf(a, i) == PaddedLeaf(b, i) {
      NodeDependsOnBlock(h, a, b, depth, 0);
    }
  }

  // ---------- Appending ----------

  /** Appending a leaf changes no node off the path from that leaf to the root. */
  lemma {:induction false} AppendKeepsNodes(h: Hasher, leaves: seq<Hash>, leaf: Hash, level: nat, pos: nat)
    requires pos != ShiftRight(|leaves|, level)
    ensures NodeAt(h, leaves + [leaf], level, pos) == NodeAt(h, leaves, level, pos)
  {
    ShortcutIsNaive(h, leaves, level, pos);
    ShortcutIsNaive(h, leaves + [leaf], level, pos);
    NodeDependsOnBlock(h, leaves + [leaf], leaves, level, pos);
  }

  lemma MeetNow(i: nat, k: nat)
    requires i / 2 == k / 2
    ensures forall above: nat :: above > 0 ==> ShiftRight(i, above) == ShiftRight(k, above)
  {
    hide ShiftRight;
    forall above: nat | above > 0
      ensures ShiftRight(i, above) == ShiftRight(k, above)
    {
      ShiftHalf(i, above - 1);
      ShiftHalf(k, above - 1);
    }
  }

  lemma MeetLater(i: nat, k: nat, level: nat)
    requires ShiftRight(i / 2, level) != ShiftRight(k / 2, level)
    requires forall above: nat :: above > level ==> ShiftRight(i / 2, above) == ShiftRight(k / 2, above)
    ensures ShiftRight(i, level + 1) != ShiftRight(k, level + 1)
    ensures forall above: nat :: above > level + 1 ==> ShiftRight(i, above) == ShiftRight(k, above)
  {
    hide ShiftRight;
    ShiftHalf(i, level);
    ShiftHalf(k, level);
    forall above: nat | above > level + 1
      ensures ShiftRight(i, above) == ShiftRight(k, above)
    {
      ShiftHalf(i, above - 1);
      ShiftHalf(k, above - 1);
    }
  }

  /** The level at which the paths of two positions meet: the highest bit in which they differ. */
  function MeetLevel(i: nat, k: nat): (level: nat)
    requires i != k
    ensures ShiftRight(i, level) != ShiftRight(k, level)
    ensures forall above: nat :: above > level ==> ShiftRight(i, above) == ShiftRight(k, above)
    decreases i + k
  {
    if i / 2 == k / 2 then
      MeetNow(i, k);
      0
    else
      var level := MeetLevel(i / 2, k / 2);
      MeetLater(i, k, level);
      level + 1
  }

  /** Shifted positions that agree keep agreeing. */
  lemma {:induction false} AgreeAbove(i: nat, k: nat, level: nat, above: nat)
    requires level <= above && ShiftRight(i, level) == ShiftRight(k, level)
    ensures ShiftRight(i, above) == ShiftRight(k, above)
  {
    if level == above {
    } else {
      AgreeAbove(i, k, level, above - 1);
    }
  }

  /** Distinct positions with one parent are each other's sibling, and only they are. */
  lemma Siblings(a: nat, b: nat)
    ensures Sibling(a) == b <==> a != b && a / 2 == b / 2
  {
  }

  lemma ShiftNext(x: nat, level: nat)
    ensures ShiftRight(x, level + 1) == ShiftRight(x, level) / 2
  {
  }

  /** The sibling of `i`'s ancestor is `k`'s ancestor at the meeting level and nowhere else. */
  lemma SiblingIsAncestorOnce(i: nat, k: nat, level: nat)
    requires i != k
    ensures Sibling(ShiftRight(i, level)) == ShiftRight(k, level) <==> level == MeetLevel(i, k)
  {
    hide ShiftRight, Sibling, MeetLevel;
    var meet := MeetLevel(i, k);
    ShiftNext(i, level);
    ShiftNext(k, level);
    Siblings(ShiftRight(i, level), ShiftRight(k, level));
    if level > meet {
      assert ShiftRight(i, level) == ShiftRight(k, level);
    } else if level < meet {
      if ShiftRight(i, level + 1) == ShiftRight(k, level + 1) {
        AgreeAbove(i, k, level + 1, meet);
        assert false;
      }
    } else {
      assert ShiftRight(i, level + 1) == ShiftRight(k, level + 1);
    }
  }

  /**
   * Appending leaf `k` leaves an older proof alone except for one sibling, at the highest bit where
   * the two positions differ; there it becomes the new node over leaf `k`.
   */
  lemma {:induction false} InsertLocality(h: Hasher, leaves: seq<Hash>, leaf: Hash, depth: nat, i: nat)
    requires i < |leaves| < Pow2(depth)
    ensures MeetLevel(i, |leaves|) < depth
    ensures
      var meet := MeetLevel(i, |leaves|);
      var node := NodeAt(h, leaves + [leaf], meet, ShiftRight(|leaves|, meet));
      var before, after := Proof(h, leaves, depth, i), Proof(h, leaves + [leaf], depth, i);
      after == before.(siblings := before.siblings[meet := node])
  {
    var k := |leaves|;
    var meet := MeetLevel(i, k);
    TopIsRoot(i, depth);
    TopIsRoot(k, depth);
    if depth <= meet {
      AgreeAbove(i, k, depth, meet);
      assert false;
    }
    var before, after := Proof(h, leaves, depth, i), Proof(h, leaves + [leaf], depth, i);
    ProofIsPath(h, leaves, depth, i);
    ProofIsPath(h, leaves + [leaf], depth, i);
    var node := NodeAt(h, leaves + [leaf], meet, ShiftRight(k, meet));
    forall level | 0 <= level < depth
      ensures after.siblings[level] == before.siblings[meet := node][level]
    {
      SiblingIsAncestorOnce(i, k, level);
      if level != meet {
        AppendKeepsNodes(h, leaves, leaf, level, Sibling(ShiftRight(i, level)));
      }
    }
    assert after.siblings == before.siblings[meet := node];
    assert after.indices == before.indices == PathBits(depth, i);
  }

  /** Appending moves the root exactly when the new leaf is not the all-zero leaf. */
  lemma {:induction false} AppendMovesRoot(h: Hasher, leaves: seq<Hash>, leaf: Hash, depth: nat)
    requires |leaves| < Pow2(depth)
    requires CollisionFree(h, TreeInputs(h, leaves, depth, 0) + TreeInputs(h, leaves + [leaf], depth, 0))
    ensures Root(h, leaves + [leaf], depth) != Root(h, leaves, depth) <==> leaf != ZERO_HASH
  {
    RootBinding(h, leaves, leaves + [leaf], depth);
    assert PaddedLeaf(leaves + [leaf], |leaves|) == leaf;
  }

  /** A proof issued before an append is stale exactly when the appended leaf is not all zeros. */
  lemma {:induction false} StaleProof(h: Hasher, leaves: seq<Hash>, leaf: Hash, depth: nat, i: nat)
    requires i < |leaves| < Pow2(depth) && leaves[i] != ZERO_HASH
    requires CollisionFree(h, TreeInputs(h, leaves, depth, 0) + TreeInputs(h, leaves + [leaf], depth, 0))
    ensures VerifyProof(h, Root(h, leaves + [leaf], depth), leaves[i], Proof(h, leaves, depth, i), depth)
       <==> leaf == ZERO_HASH
  {
    hide Root, Fold, Proof;
    HonestFold(h, leaves, depth, i);
    AppendMovesRoot(h, leaves, leaf, depth);
  }
}
