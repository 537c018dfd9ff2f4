/** The mutable append-only tree and the path walk, proved against module `Merkle`. */
module MerkleTrees {
  import opened ByteStrings
  import opened Bits
  import opened CoreTypes
  import opened Hashing
  import opened Merkle

  datatype MerkleError = Full(capacity: nat) | IndexOutOfRange(index: nat, next: nat)

  lemma FirstMarker(h: Hasher)
    ensures ZeroHash(h, 0) == h.HashLeaf(ZERO_HASH)
  {
  }

  lemma NextMarker(h: Hasher, i: nat)
    ensures ZeroHash(h, i + 1) == h.HashNode(ZeroHash(h, i), ZeroHash(h, i))
  {
  }

  /** The chain of empty-subtree markers, one per level. */
  method ZeroMarkers(h: Hasher, depth: nat) returns (markers: seq<Hash>)
    ensures |markers| == depth + 1
    ensures forall i :: 0 <= i <= depth ==> markers[i] == ZeroHash(h, i)
  {
    hide ZeroHash;
    var zeroHashes: array<Hash> := new Hash[depth + 1](_ => ZERO_HASH);
    FirstMarker(h);
    zeroHashes[0] := h.HashLeaf(ZERO_HASH);
    for i := 1 to depth + 1
      invariant forall k :: 0 <= k < i ==> zeroHashes[k] == ZeroHash(h, k)
    {
      var prev := zeroHashes[i - 1];
      NextMarker(h, i - 1);
      zeroHashes[i] := h.HashNode(prev, prev);
    }
    markers := zeroHashes[..];
  }

  lemma StartOfWalk(index: nat)
    ensures ShiftRight(index, 0) == index
  {
  }

  /** What one iteration of the proof loop reads off `current`. */
  lemma WalkStep(index: nat, level: nat, current: nat)
    requires current == ShiftRight(index, level)
    ensures Xor(current, 1) == Sibling(current)
    ensures And(current, 1) == current % 2
    ensures ShiftRight(current, 1) == ShiftRight(index, level + 1)
  {
    XorOne(current);
    AndOne(current);
    ShiftOne(current);
  }

  class MerkleTree {
    const h: Hasher
    const depth: nat
    var leaves: seq<Hash>
    /** The markers of empty subtrees; written by the constructor only. */
    const zeroHashes: seq<Hash>

    ghost predicate Valid()
      reads this
    {
      && |leaves| <= Pow2(depth)
      && |zeroHashes| == depth + 1
      && forall i :: 0 <= i <= depth ==> zeroHashes[i] == ZeroHash(h, i)
    }

    constructor (h: Hasher, depth: nat)
      ensures Valid() && leaves == [] && this.h == h && this.depth == depth
    {
      this.h := h;
      this.depth := depth;
      this.leaves := [];
      var markers := ZeroMarkers(h, depth);
      this.zeroHashes := markers;
    }

    method Insert(leaf: Hash) returns (result: Result<nat, MerkleError>)
      requires Valid()
      modifies this
      ensures Valid()
      ensures old(|leaves|) < Pow2(depth) ==> result == Ok(old(|leaves|)) && leaves == old(leaves) + [leaf]
      ensures old(|leaves|) == Pow2(depth) ==> result == Err(Full(Pow2(depth))) && leaves == old(leaves)
    {
      if |leaves| >= Pow2(depth) {
        return Err(Full(Pow2(depth)));
      }
      var index := |leaves|;
      leaves := leaves + [leaf];
      return Ok(index);
    }

    /** `node_at`, reading the precomputed markers. */
    function NodeAt(level: nat, pos: nat): (r: Hash)
      requires Valid() && level <= depth
      reads this
      ensures r == Merkle.NodeAt(h, leaves, level, pos)
      decreases level
    {
      if level == 0 then
        if pos < |leaves| then h.HashLeaf(leaves[pos]) else zeroHashes[0]
      else if pos * Pow2(level) >= |leaves| then
        zeroHashes[level]
      else
        h.HashNode(NodeAt(level - 1, pos * 2), NodeAt(level - 1, pos * 2 + 1))
    }

    function Root(): (r: Hash)
      requires Valid()
      reads this
      ensures r == Merkle.Root(h, leaves, depth)
    {
      NodeAt(depth, 0)
    }

    /** The loop of `proof`: reads the sibling and the low bit, then moves to the parent. */
    method WalkUp(index: nat) returns (siblings: seq<Hash>, indices: seq<bool>)
      requires Valid()
      ensures |siblings| == |indices| == depth
      ensures forall l :: 0 <= l < depth ==>
        siblings[l] == Merkle.NodeAt(h, leaves, l, Sibling(ShiftRight(index, l))) &&
        indices[l] == (ShiftRight(index, l) % 2 == 1)
    {
      hide *;
      var siblingSlots: array<Hash> := new Hash[depth](_ => ZERO_HASH);
      var indexSlots := new bool[depth](_ => false);
      var current := index;
      StartOfWalk(index);
      for level := 0 to depth
        invariant current == ShiftRight(index, level)
        invariant forall l :: 0 <= l < level ==>
          siblingSlots[l] == Merkle.NodeAt(h, leaves, l, Sibling(ShiftRight(index, l)))
        invariant forall l :: 0 <= l < level ==> indexSlots[l] == (ShiftRight(index, l) % 2 == 1)
      {
        WalkStep(index, level, current);
        siblingSlots[level] := NodeAt(level, Xor(current, 1));
        indexSlots[level] := And(current, 1) == 1;
        current := ShiftRight(current, 1);
      }
      siblings, indices := siblingSlots[..], indexSlots[..];
    }

    /** The inclusion proof of a stored leaf: one node and one bit per level, walking up. */
    method Proof(index: nat) returns (result: Result<MerkleProof, MerkleError>)
      requires Valid()
      ensures index < |leaves| ==> result == Ok(Merkle.Proof(h, leaves, depth, index))
      ensures index >= |leaves| ==> result == Err(IndexOutOfRange(index, |leaves|))
    {
      if index >= |leaves| {
        return Err(IndexOutOfRange(index, |leaves|));
      }
      var siblings, indices := WalkUp(index);
      ProofIsPath(h, leaves, depth, index);
      assert siblings == Merkle.Proof(h, leaves, depth, index).siblings;
      assert indices == Merkle.Proof(h, leaves, depth, index).indices;
      return Ok(MerkleProof(siblings, indices));
    }
  }

  /** Recomputes the root from `leaf` upward; the all-zero leaf is refused outright. */
  method VerifyProof(h: Hasher, root: Hash, leaf: Hash, proof: MerkleProof, depth: nat) returns (accepted: bool)
    requires HasDepth(proof, depth)
    ensures accepted == Merkle.VerifyProof(h, root, leaf, proof, depth)
  {
    if leaf == ZERO_HASH {
      return false;
    }
    var current := h.HashLeafBuffered(leaf);
    for level := 0 to depth
      invariant current == Fold(h, leaf, proof, level)
    {
      var sibling := proof.siblings[level];
      if proof.indices[level] {
        current := h.HashNodeBuffered(sibling, current);
      } else {
        current := h.HashNodeBuffered(current, sibling);
      }
    }
    return current == root;
  }
}
