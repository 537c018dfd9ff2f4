/** The SDK's approval prover: what it checks, what it streams to the guest, what it submits. */
module Prover {
  import opened ByteStrings
  import opened CoreTypes
  import opened Hashing
  import opened Identities
  import opened Merkle
  import opened ProposalIds
  import opened Addresses
  import opened ApproveCircuit
  import opened Handlers
  import opened Builder

  /** `flatten_proof`: copies the proof level by level. */
  method FlattenProof(proof: MerkleProof) returns (siblings: seq<Hash>, directions: seq<bool>)
    requires HasDepth(proof, MERKLE_DEPTH)
    ensures siblings == proof.siblings && directions == proof.indices
  {
    var siblingSlots: array<Hash> := new Hash[20](_ => ZERO_HASH);
    var directionSlots := new bool[20](_ => false);
    for level := 0 to 20
      invariant forall k :: 0 <= k < level ==> siblingSlots[k] == proof.siblings[k]
      invariant forall k :: 0 <= k < level ==> directionSlots[k] == proof.indices[k]
    {
      siblingSlots[level] := proof.siblings[level];
      directionSlots[level] := proof.indices[level];
    }
    siblings, directions := siblingSlots[..], directionSlots[..];
    assert siblings == proof.siblings;
    assert directions == proof.indices;
  }

  datatype ApprovalProver = ApprovalProver(identity: Identity, snapshot: MultisigStateSnapshot, proof: MerkleProof,
                                           index: u64, actionBytes: seq<byte>, targetProgram: Hash) {
    function ProposalId(h: Hasher): (r: Hash) {
      snapshot.DeriveId(h, index, actionBytes, targetProgram)
    }

    function Nullifier(h: Hasher): (r: Hash) {
      NullifierOf(h, identity.sk, ProposalId(h))
    }

    function PublicInputs(h: Hasher): (r: ApprovePublicInputs) {
      ApprovePublicInputs(snapshot.membersRoot, ProposalId(h), Nullifier(h))
    }

    /** The five slices written to the guest's input, in order. */
    function StreamedSlices(h: Hasher): (r: seq<seq<byte>>)
      requires HasDepth(proof, MERKLE_DEPTH)
      ensures |r| == 5
    {
      [snapshot.membersRoot + ProposalId(h), identity.sk, identity.salt,
       Flatten(proof.siblings), DirectionBytes(proof.indices)]
    }

    /** The guest's input stream. */
    function Stream(h: Hasher): (r: seq<byte>)
      requires HasDepth(proof, MERKLE_DEPTH)
    {
      var s := StreamedSlices(h);
      s[0] + s[1] + s[2] + s[3] + s[4]
    }

    /** `run_risc0_prover` up to the prover call: buffers filled in place, then streamed. */
    method StreamWitness(h: Hasher) returns (input: seq<byte>)
      requires HasDepth(proof, MERKLE_DEPTH)
      ensures input == Stream(h)
    {
      hide Flatten, DirectionBytes, MultisigStateSnapshot.DeriveId;
      var siblings, directions := FlattenProof(proof);
      var siblingsFlat := new byte[640](_ => 0);
      WriteParts(siblingsFlat, 0, siblings);
      assert siblingsFlat[..] == siblingsFlat[..640] && siblingsFlat[..0] == [];
      var directionBytes := new byte[20](_ => 0);
      WriteDirections(directionBytes, 0, directions);
      assert directionBytes[..] == directionBytes[..20];
      var publicPrefix := new byte[64](_ => 0);
      var id := ProposalId(h);
      CopyFromSlice(publicPrefix, 0, snapshot.membersRoot);
      CopyFromSlice(publicPrefix, 32, id);
      assert publicPrefix[..] == publicPrefix[..64];
      input := publicPrefix[..] + identity.sk + identity.salt + siblingsFlat[..] + directionBytes[..];
    }
  }

  /** `ApprovalProver::new`: cap, index and membership are checked before anything is proved. */
  function NewProver(h: Hasher, member: Identity, snapshot: MultisigStateSnapshot, index: u64, actionBytes: seq<byte>,
                     targetProgram: Hash, proof: MerkleProof): (r: Result<ApprovalProver, SdkError>)
    requires HasDepth(proof, MERKLE_DEPTH)
  {
    if |actionBytes| > MAX_ACTION_BYTES_LEN then Err(ActionBytesTooLarge)
    else if index >= snapshot.proposalCount then Err(ProposalIndexMismatch)
    else if !VerifyProof(h, snapshot.membersRoot, member.Commitment(h), proof, MERKLE_DEPTH) then
      Err(MerkleProofInvalid)
    else Ok(ApprovalProver(member, snapshot, proof, index, actionBytes, targetProgram))
  }

  /**
   * A prover is built exactly for an action of at most 4096 bytes, an index below the snapshot's count
   * and a path that opens the member's commitment under the snapshot's root; each failing check has its
   * own error, in this order. The prover holds what it was given.
   */
  lemma NewProverExactly(h: Hasher, member: Identity, snapshot: MultisigStateSnapshot, index: u64,
                         actionBytes: seq<byte>, targetProgram: Hash, proof: MerkleProof)
    requires HasDepth(proof, MERKLE_DEPTH)
    ensures
      var r := NewProver(h, member, snapshot, index, actionBytes, targetProgram, proof);
      var opens := VerifyProof(h, snapshot.membersRoot, h.Digest(member.sk + member.salt), proof, 20);
      && (r.Ok? <==> |actionBytes| <= 4096 && index < snapshot.proposalCount && opens)
      && (|actionBytes| > 4096 <==> r == Err(ActionBytesTooLarge))
      && (|actionBytes| <= 4096 && index >= snapshot.proposalCount <==> r == Err(ProposalIndexMismatch))
      && (|actionBytes| <= 4096 && index < snapshot.proposalCount && !opens <==> r == Err(MerkleProofInvalid))
      && (r.Ok? ==>
            && r.value.identity == member && r.value.snapshot == snapshot && r.value.proof == proof
            && r.value.index == index && r.value.actionBytes == actionBytes && r.value.targetProgram == targetProgram)
  {
    hide VerifyProof;
  }

  /** A snapshot holds what it was made from, and derives the very proposal ids the program recomputes. */
  lemma SnapshotExactly(c: Program, createKey: Hash, root: Hash, m: byte, n: u32, count: u64, index: u64, p: Proposal)
    ensures
      var snapshot := NewSnapshot(c.h, c.id, createKey, root, m, n, count);
      && snapshot.programId == c.id && snapshot.createKey == createKey && snapshot.membersRoot == root
      && snapshot.m == m && snapshot.n == n && snapshot.proposalCount == count
      && snapshot.statePda == c.Addr(StateKey(createKey))
      && snapshot.DeriveId(c.h, index, p.actionBytes, p.targetProgram) == c.ProposalId(createKey, index, p)
  {
    hide Address, DeriveProposalId;
  }

  /** The streamed slices are the canonical packed witness, byte for byte. */
  lemma StreamIsPacked(h: Hasher, p: ApprovalProver)
    requires HasDepth(p.proof, MERKLE_DEPTH)
    ensures p.Stream(h) == PackApproveWitness(p.identity, p.proof, p.snapshot.membersRoot, p.ProposalId(h))
  {
    hide Flatten, DirectionBytes, MultisigStateSnapshot.DeriveId;
  }

  /** A snapshot of the instance `createKey` of program `c` whose state is `state`. */
  ghost predicate Mirrors(c: Program, snapshot: MultisigStateSnapshot, createKey: Hash, state: MultisigState) {
    snapshot == NewSnapshot(c.h, c.id, createKey, state.membersRoot, snapshot.m, snapshot.n, snapshot.proposalCount)
  }

  /**
   * End-to-end agreement. If the prover was built from a snapshot, action and target that match the
   * chain, then the guest accepts its stream and commits the very bytes the SDK submits, and the
   * program's checks on those bytes all pass: only the overflow of the count is left to refuse them.
   */
  lemma EndToEnd(c: Program, member: Identity, snapshot: MultisigStateSnapshot, index: u64, proof: MerkleProof,
                 createKey: Hash, state: MultisigState, proposal: Proposal)
    requires HasDepth(proof, MERKLE_DEPTH) && Mirrors(c, snapshot, createKey, state)
    requires NewProver(c.h, member, snapshot, index, proposal.actionBytes, proposal.targetProgram, proof).Ok?
    ensures
      var p := NewProver(c.h, member, snapshot, index, proposal.actionBytes, proposal.targetProgram, proof).value;
      var bytes := p.PublicInputs(c.h).ToBytes();
      && Journal(c.h, p.Stream(c.h)) == Some(bytes)
      && CheckApprove(c, createKey, index, p.Nullifier(c.h), bytes, p.Stream(c.h), Some(state), Some(proposal))
         == if proposal.approvalsCount == U32_MAX then Err(ArithmeticOverflow)
            else Ok(proposal.(approvalsCount := proposal.approvalsCount + 1))
  {
    hide Fold, DeriveProposalId, Address, Journal, ApprovalProver.Stream, PackApproveWitness;
    var p := NewProver(c.h, member, snapshot, index, proposal.actionBytes, proposal.targetProgram, proof).value;
    StreamIsPacked(c.h, p);
    JournalOfPacked(c.h, member, proof, state.membersRoot, p.ProposalId(c.h), []);
    assert p.Stream(c.h) + [] == p.Stream(c.h);
    var x := p.PublicInputs(c.h);
    PublicInputsBijection(x, x.ToBytes());
  }
}
