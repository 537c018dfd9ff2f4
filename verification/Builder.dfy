/** The SDK's multisig builder, its finalized result, and the local snapshot of an instance. */
module Builder {
  import opened ByteStrings
  import opened Bits
  import opened CoreTypes
  import opened Hashing
  import opened Merkle
  import MerkleTrees
  import opened ProposalIds
  import opened Addresses

  datatype SdkError =
    | DuplicateMember
    | ThresholdExceedsMembers
    | InvalidThreshold
    | InsufficientMembers(m: byte, n: u32)
    | MerkleProofInvalid
    | SessionStatusMismatch
    | ActionBytesTooLarge
    | ProposalIndexMismatch

  ghost predicate NoDuplicates(s: seq<Hash>) {
    forall i, j :: 0 <= i < j < |s| ==> s[i] != s[j]
  }

  /** What the tree holds of the enrolled commitments: all of them until it is full, then the first ones. */
  function Capped(added: seq<Hash>, capacity: nat): (r: seq<Hash>) {
    if |added| <= capacity then added else added[..capacity]
  }

  function FirstIndex(s: seq<Hash>, x: Hash, from: nat): (r: Option<nat>)
    requires from <= |s|
    ensures r.Some? ==> from <= r.value < |s| && s[r.value] == x && x !in s[from..r.value]
    ensures r.None? ==> x !in s[from..]
    decreases |s| - from
  {
    if from == |s| then None
    else if s[from] == x then Some(from)
    else
      var r := FirstIndex(s, x, from + 1);
      assert s[from..] == [s[from]] + s[from + 1..];
      assert r.Some? ==> s[from..r.value] == [s[from]] + s[from + 1..r.value];
      r
  }

  /** The frozen result of a builder; `leaves` is its own copy of the tree. */
  datatype MultisigFinalized = MultisigFinalized(
    membersRoot: Hash, m: byte, n: u32, commitments: seq<Hash>, leaves: seq<Hash>)
  {

    /** The position of the first equal commitment. */
    function MemberIndex(commitment: Hash): (r: Option<nat>) {
      FirstIndex(commitments, commitment, 0)
    }

    function ProofFor(h: Hasher, commitment: Hash): (r: Result<MerkleProof, SdkError>) {
      match MemberIndex(commitment)
      case None => Err(SessionStatusMismatch)
      case Some(index) =>
        if index >= |leaves| then Err(MerkleProofInvalid)
        else Ok(Merkle.Proof(h, leaves, MERKLE_DEPTH, index))
    }
  }

  function Finalized(h: Hasher, m: byte, added: seq<Hash>, leaves: seq<Hash>)
    : (r: Result<MultisigFinalized, SdkError>)
  {
    if |added| > U32_MAX then Err(ThresholdExceedsMembers)
    else if m == 0 || |added| == 0 then Err(SdkError.InvalidThreshold)
    else if |added| < m then Err(InsufficientMembers(m, |added|))
    else Ok(MultisigFinalized(Root(h, leaves, MERKLE_DEPTH), m, |added|, added, leaves))
  }

  class MultisigBuilder {
    const m: byte
    const tree: MerkleTrees.MerkleTree
    var added: seq<Hash>

    /** Commitments are distinct; tree and list agree except for what came after the tree was full. */
    ghost predicate Valid()
      reads this, tree
    {
      && tree.Valid() && tree.depth == MERKLE_DEPTH
      && NoDuplicates(added)
      && tree.leaves == Capped(added, Pow2(MERKLE_DEPTH))
    }

    constructor (h: Hasher, m: byte)
      ensures Valid() && fresh(tree) && this.m == m && added == [] && tree.h == h
    {
      this.m := m;
      this.tree := new MerkleTrees.MerkleTree(h, MERKLE_DEPTH);
      this.added := [];
    }

    /**
     * Pushes to the list before inserting in the tree, so a full tree leaves the list one ahead of
     * the leaves although the call reports an error.
     */
    method AddMember(commitment: Hash) returns (result: Result<(), SdkError>)
      requires Valid()
      modifies this, tree
      ensures Valid()
      ensures commitment in old(added) ==>
        result == Err(DuplicateMember) && added == old(added) && tree.leaves == old(tree.leaves)
      ensures commitment !in old(added) ==> added == old(added) + [commitment]
      ensures commitment !in old(added) && |old(added)| < Pow2(MERKLE_DEPTH) ==>
        result == Ok(()) && tree.leaves == old(tree.leaves) + [commitment]
      ensures commitment !in old(added) && |old(added)| >= Pow2(MERKLE_DEPTH) ==>
        result == Err(ThresholdExceedsMembers) && tree.leaves == old(tree.leaves)
    {
      hide Pow2, ZeroHash;
      if commitment in added {
        return Err(DuplicateMember);
      }
      added := added + [commitment];
      var inserted := tree.Insert(commitment);
      if !inserted.Ok? {
        return Err(ThresholdExceedsMembers);
      }
      return Ok(());
    }

    method Finalize() returns (result: Result<MultisigFinalized, SdkError>)
      requires Valid()
      ensures result == Finalized(tree.h, m, added, tree.leaves)
    {
      hide Pow2, Merkle.NodeAt;
      if |added| > U32_MAX {
        return Err(ThresholdExceedsMembers);
      }
      var n: u32 := |added|;
      if m == 0 || n == 0 {
        return Err(SdkError.InvalidThreshold);
      }
      if |added| < m {
        return Err(InsufficientMembers(m, n));
      }
      if m > n {
        return Err(ThresholdExceedsMembers);
      }
      return Ok(MultisigFinalized(tree.Root(), m, n, added, tree.leaves));
    }
  }

  /** What a finalized builder guarantees, whether or not its tree was ever full. */
  ghost predicate WellMade(h: Hasher, f: MultisigFinalized) {
    && ValidThreshold(f.m, f.n)
    && f.n == |f.commitments|
    && NoDuplicates(f.commitments)
    && f.leaves == Capped(f.commitments, Pow2(MERKLE_DEPTH))
    && f.membersRoot == Root(h, f.leaves, MERKLE_DEPTH)
  }

  lemma FinalizedIsWellMade(h: Hasher, m: byte, added: seq<Hash>, leaves: seq<Hash>)
    requires NoDuplicates(added) && leaves == Capped(added, Pow2(MERKLE_DEPTH))
    ensures Finalized(h, m, added, leaves).Ok? <==> ValidThreshold(m, if |added| <= U32_MAX then |added| else 0)
    ensures Finalized(h, m, added, leaves).Ok? ==> WellMade(h, Finalized(h, m, added, leaves).value)
  {
    hide Pow2, Root;
  }

  /**
   * What finalization freezes: the builder's own threshold, its list in order, and its tree with that
   * tree's root. Each error has its own condition, checked in this order.
   */
  lemma FinalizedExactly(h: Hasher, m: byte, added: seq<Hash>, leaves: seq<Hash>)
    ensures
      var result, n := Finalized(h, m, added, leaves), |added|;
      && (n > 0xFFFF_FFFF <==> result == Err(ThresholdExceedsMembers))
      && (n <= 0xFFFF_FFFF && (m == 0 || n == 0) <==> result == Err(SdkError.InvalidThreshold))
      && (0 < n < m <==> result == Err(InsufficientMembers(m, if n < m then n else 0)))
      && (0 < m <= n <= 0xFFFF_FFFF <==> result.Ok?)
      && (result.Ok? ==>
            && result.value.m == m && result.value.n == n
            && result.value.commitments == added && result.value.leaves == leaves
            && result.value.membersRoot == NodeAt(h, leaves, 20, 0))
  {
    hide NodeAt;
  }

  lemma CapacityIsMaxLeaves()
    ensures Pow2(MERKLE_DEPTH) == MAX_LEAVES
  {
    assert Pow2(10) == 1024;
    assert Pow2(15) == 32 * Pow2(10);
    assert Pow2(20) == 32 * Pow2(15);
  }

  /**
   * Members get proofs exactly while the tree had room for them, and such a proof verifies against
   * the published root unless the commitment is the all-zero string.
   */
  lemma MemberProofs(h: Hasher, f: MultisigFinalized, commitment: Hash)
    requires WellMade(h, f)
    ensures |f.leaves| <= f.n && |f.leaves| <= MAX_LEAVES && (|f.leaves| == f.n <==> f.n <= MAX_LEAVES)
    ensures f.ProofFor(h, commitment).Ok? <==> commitment in f.leaves
    ensures f.ProofFor(h, commitment) == Err(SessionStatusMismatch) <==> commitment !in f.commitments
    ensures f.ProofFor(h, commitment) == Err(MerkleProofInvalid) <==>
      commitment in f.commitments && commitment !in f.leaves
    ensures f.ProofFor(h, commitment).Ok? ==>
      exists i :: 0 <= i < |f.leaves| && f.leaves[i] == commitment
                  && f.ProofFor(h, commitment).value == Merkle.Proof(h, f.leaves, MERKLE_DEPTH, i)
    ensures f.ProofFor(h, commitment).Ok? ==>
      var proof := f.ProofFor(h, commitment).value;
      HasDepth(proof, MERKLE_DEPTH) &&
      (VerifyProof(h, f.membersRoot, commitment, proof, MERKLE_DEPTH) <==> commitment != ZERO_HASH)
  {
    hide Pow2, VerifyProof, Root, Merkle.Proof;
    CapacityIsMaxLeaves();
    var index := f.MemberIndex(commitment);
    assert f.commitments[0..] == f.commitments;
    if index.Some? && index.value < |f.leaves| {
      Completeness(h, f.leaves, MERKLE_DEPTH, index.value);
      assert f.leaves[index.value] == commitment;
    }
  }

  // ---------- A tree filled past its capacity ----------

  /** The first `n` of a list of pairwise distinct commitments. */
  function Counting(n: nat): (r: seq<Hash>)
    ensures |r| == n
  {
    if n == 0 then [] else Counting(n - 1) + [LittleEndian(n - 1, 32)]
  }

  lemma {:induction false} CountingAt(n: nat, i: nat)
    requires i < n
    ensures Counting(n)[i] == LittleEndian(i, 32)
    decreases n
  {
    if i == n - 1 {
    } else {
      CountingAt(n - 1, i);
    }
  }

  lemma {:induction false} Pow256Grows(a: nat, b: nat)
    requires a <= b
    ensures Pow256(a) <= Pow256(b)
    decreases b
  {
    if a == b {
    } else {
      Pow256Grows(a, b - 1);
    }
  }

  lemma CountingIsDistinct(n: nat)
    requires n <= 0x1_0000_0000
    ensures NoDuplicates(Counting(n))
  {
    hide Counting, LittleEndian;
    forall i, j | 0 <= i < j < n ensures Counting(n)[i] != Counting(n)[j] {
      CountingAt(n, i);
      CountingAt(n, j);
      Pow256Grows(4, 32);
      Widths();
      DecodesWhatItEncodes(i, 32);
      DecodesWhatItEncodes(j, 32);
    }
  }

  /**
   * List and leaves do fall out of step: a builder given one commitment more than the tree holds
   * finalizes, counts the last commitment as a member, and has no proof for it.
   */
  lemma OverfullBuilder(h: Hasher)
    ensures
      var added := Counting(MAX_LEAVES + 1);
      var result := Finalized(h, 1, added, Capped(added, Pow2(MERKLE_DEPTH)));
      && NoDuplicates(added)
      && result.Ok? && WellMade(h, result.value) && result.value.n == MAX_LEAVES + 1
      && added[MAX_LEAVES] in result.value.commitments
      && result.value.ProofFor(h, added[MAX_LEAVES]) == Err(MerkleProofInvalid)
  {
    hide Pow2, Root, Counting, Merkle.Proof;
    var added := Counting(MAX_LEAVES + 1);
    CountingIsDistinct(MAX_LEAVES + 1);
    CapacityIsMaxLeaves();
    FinalizedIsWellMade(h, 1, added, Capped(added, Pow2(MERKLE_DEPTH)));
    var f := Finalized(h, 1, added, Capped(added, Pow2(MERKLE_DEPTH))).value;
    assert f.commitments[MAX_LEAVES] == added[MAX_LEAVES];
    assert f.commitments[0..] == f.commitments;
    var index := f.MemberIndex(added[MAX_LEAVES]);
    assert index == Some(MAX_LEAVES);
  }

  /** The SDK's local mirror of an instance. */
  datatype MultisigStateSnapshot = MultisigStateSnapshot(programId: Hash, createKey: Hash, membersRoot: Hash,
                                                         m: byte, n: u32, proposalCount: u64, statePda: Hash) {
    function DeriveId(h: Hasher, index: u64, actionBytes: seq<byte>, targetProgram: Hash): (r: Hash) {
      DeriveProposalId(h, ChainIdFromU64(DEPLOYMENT_CHAIN_ID), statePda, index, actionBytes, targetProgram)
    }
  }

  /** `MultisigStateSnapshot::new` derives the state address itself. */
  function NewSnapshot(h: Hasher, programId: Hash, createKey: Hash, membersRoot: Hash, m: byte, n: u32,
                       proposalCount: u64): (r: MultisigStateSnapshot) {
    MultisigStateSnapshot(programId, createKey, membersRoot, m, n, proposalCount,
                          Address(h, programId, StateKey(createKey)))
  }
}
