/** Instances created from the SDK's builder. */
module Instances {
  import opened ByteStrings
  import opened Merkle
  import ApproveCircuit
  import opened Builder
  import opened Runs
  import opened Protocol
  import opened Quorum

  /** The voter of approval `q` was added to the builder. */
  ghost predicate IsMember(r: Run, q: nat, f: MultisigFinalized)
    requires q < |r.txs|
  {
    |r.txs[q].receipt| >= ApproveCircuit.APPROVE_WITNESS_LEN && Voter(r, q).Commitment(r.c.h) in f.commitments
  }

  /**
   * For an instance created with the root and size of a finalized builder, full tree or not, the
   * approvals of every proposal are at most the enrolled leaves, which are at most `n`, and every
   * voter's commitment is one the builder was given.
   */
  lemma BuiltInstance(r: Run, created: nat, n: nat, createKey: Hash, index: u64, f: MultisigFinalized)
    requires WellMade(r.c.h, f) && r.Sound(TreeHashes(r, f.leaves)) && created < n <= |r.txs|
    requires Creates(r, created, createKey, f.membersRoot, f.m, f.n)
    ensures |r.Approvals(n, createKey, index)| <= |f.leaves| <= f.n
    ensures DistinctMembers(r, r.Approvals(n, createKey, index), f.leaves)
    ensures forall q :: q in r.Approvals(n, createKey, index) ==> IsMember(r, q, f)
  {
    hide Root, Run.Typed, Run.Inputs, Creates, TreeHashes, Run.IsApproval, Seat, Voter;
    MemberProofs(r.c.h, f, ZERO_HASH);
    OneMemberOneVote(r, created, n, createKey, index, f.leaves, f.m, f.n);
    MembersBound(r, r.Approvals(n, createKey, index), f.leaves);
    forall q | q in r.Approvals(n, createKey, index) ensures IsMember(r, q, f) {
      assert Enrolled(r, q, f.leaves);
      assert f.commitments[Seat(r, q)] == f.leaves[Seat(r, q)];
    }
  }

  lemma LeavesAreAdded(added: seq<Hash>, leaves: seq<Hash>, i: nat)
    requires leaves == Capped(added, MAX_LEAVES) && i < |leaves|
    ensures leaves[i] in added
  {
    assert leaves[i] == added[i];
  }

  /**
   * The builder's threshold governs the chain: if an instance created with what `finalize` returned ever
   * executes a proposal, at least as many earlier approvals as the builder's `m` came from pairwise
   * distinct members among those it was given.
   */
  lemma BuiltQuorum(r: Run, created: nat, executed: nat, createKey: Hash, index: u64,
                    m: byte, added: seq<Hash>, leaves: seq<Hash>)
    requires NoDuplicates(added) && leaves == Capped(added, MAX_LEAVES) && Finalized(r.c.h, m, added, leaves).Ok?
    requires r.Sound(TreeHashes(r, leaves)) && r.IsExecution(executed, createKey, index)
    requires var f := Finalized(r.c.h, m, added, leaves).value; Creates(r, created, createKey, f.membersRoot, f.m, f.n)
    ensures |r.Approvals(executed, createKey, index)| >= m
    ensures DistinctMembers(r, r.Approvals(executed, createKey, index), leaves)
    ensures forall q :: q in r.Approvals(executed, createKey, index) ==> Voter(r, q).Commitment(r.c.h) in added
  {
    hide NodeAt, Run.Typed, Run.Inputs, Creates, TreeHashes, Run.IsApproval, Seat, Voter, Finalized, Capped;
    FinalizedExactly(r.c.h, m, added, leaves);
    QuorumSoundness(r, created, executed, createKey, index, leaves, m, |added|);
    forall q | q in r.Approvals(executed, createKey, index) ensures Voter(r, q).Commitment(r.c.h) in added {
      assert Enrolled(r, q, leaves);
      LeavesAreAdded(added, leaves, Seat(r, q));
    }
  }
}
