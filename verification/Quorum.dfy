/** Who stands behind an executed proposal. */
module Quorum {
  import opened ByteStrings
  import opened Hashing
  import opened Identities
  import opened Merkle
  import opened Addresses
  import opened ApproveCircuit
  import opened Handlers
  import opened Runs
  import opened Protocol
  import T = TypedLedger
  import C = ChainLedger

  /** The enrolled position the receipt of approval `q` opens. */
  ghost function Seat(r: Run, q: nat): (i: nat)
    requires q < |r.txs| && |r.txs[q].receipt| >= APPROVE_WITNESS_LEN
  {
    LeafIndex(WitnessOf(r.txs[q].receipt).proof)
  }

  /** The secret key the receipt of approval `q` was made with. */
  ghost function Voter(r: Run, q: nat): (w: Identity)
    requires q < |r.txs| && |r.txs[q].receipt| >= APPROVE_WITNESS_LEN
  {
    WitnessOf(r.txs[q].receipt).identity
  }

  /** The voter of approval `q` is enrolled: its commitment is the leaf at its seat. */
  ghost predicate Enrolled(r: Run, q: nat, leaves: seq<Hash>)
    requires q < |r.txs|
  {
    && |r.txs[q].receipt| >= APPROVE_WITNESS_LEN
    && Seat(r, q) < |leaves|
    && leaves[Seat(r, q)] == Voter(r, q).Commitment(r.c.h)
  }

  /** Every approval in `votes` comes from an enrolled member, and no two from one key or one seat. */
  ghost predicate DistinctMembers(r: Run, votes: set<nat>, leaves: seq<Hash>)
    requires forall q :: q in votes ==> q < |r.txs|
  {
    && (forall q :: q in votes ==> Enrolled(r, q, leaves))
    && (forall q, q' :: q in votes && q' in votes && q != q' ==>
          Voter(r, q).sk != Voter(r, q').sk && Seat(r, q) != Seat(r, q'))
  }

  ghost function TreeHashes(r: Run, leaves: seq<Hash>): (inputs: set<seq<byte>>) {
    TreeInputs(r.c.h, leaves, MERKLE_DEPTH, 0)
  }

  /** An opening of the member root names an enrolled leaf. */
  lemma OpeningIsEnrolled(h: Hasher, w: Witness, leaves: seq<Hash>, id: Hash, nullifier: Hash, inputs: set<seq<byte>>)
    requires Opens(h, w, Root(h, leaves, MERKLE_DEPTH), id, nullifier)
    requires CollisionFree(h, inputs)
    requires OpeningInputs(h, leaves, w.identity.Commitment(h), w.proof, MERKLE_DEPTH) <= inputs
    ensures LeafIndex(w.proof) < |leaves| && leaves[LeafIndex(w.proof)] == w.identity.Commitment(h)
  {
    hide Fold, Root, Proof;
    var leaf := w.identity.Commitment(h);
    FewerInputs(h, OpeningInputs(h, leaves, leaf, w.proof, MERKLE_DEPTH), inputs);
    Soundness(h, leaves, leaf, w.proof, MERKLE_DEPTH);
  }

  lemma ReceiptInputsUsed(r: Run, q: nat, leaves: seq<Hash>)
    requires q < |r.txs| && r.txs[q].ix.Approve? && |r.txs[q].receipt| >= APPROVE_WITNESS_LEN
    ensures
      var w := WitnessOf(r.txs[q].receipt);
      var inputs := r.Inputs() + TreeHashes(r, leaves);
      && Join(w.identity.sk, w.identity.salt) in inputs
      && OpeningInputs(r.c.h, leaves, w.identity.Commitment(r.c.h), w.proof, MERKLE_DEPTH) <= inputs
  {
    hide WitnessOf, FoldInputs, TreeInputs, AccountInputs;
    assert ReceiptInputs(r.c.h, r.txs[q]) <= r.Inputs() by {
      forall x | x in ReceiptInputs(r.c.h, r.txs[q]) ensures x in r.Inputs() {
        assert x in ReceiptInputs(r.c.h, r.txs[q]) + AccountInputs(r.c, r.txs[q].ix);
      }
    }
  }

  /** What the ledger remembers of approval `q`: its opening, for this root and this proposal. */
  lemma VoteOpens(r: Run, n: nat, q: nat, createKey: Hash, index: u64, others: set<seq<byte>>)
    requires r.Sound(others) && n <= |r.txs| && q in r.Approvals(n, createKey, index)
    ensures |r.txs[q].receipt| >= APPROVE_WITNESS_LEN
    ensures T.StateOf(r.Typed(n), createKey).Some? && T.ProposalOf(r.Typed(n), createKey, index).Some?
    ensures Opens(r.c.h, WitnessOf(r.txs[q].receipt), T.StateOf(r.Typed(n), createKey).value.membersRoot,
                  r.c.ProposalId(createKey, index, T.ProposalOf(r.Typed(n), createKey, index).value),
                  r.txs[q].ix.nullifier)
  {
    hide C.Step, T.Perform, C.Refines, Opens, WitnessOf, Run.Sound, Run.Typed;
    ApprovalLog(r, n, createKey, index, others);
    RunRefines(r, n, others);
    assert Recorded(r, r.Typed(n), q, createKey, index);
    assert T.GoodAccount(r.c, r.Typed(n), Entry(r, q, createKey, index));
  }

  /** Each approval of an instance made from a member tree comes from an enrolled member. */
  lemma VoterIsEnrolled(r: Run, created: nat, n: nat, q: nat, createKey: Hash, index: u64,
                        leaves: seq<Hash>, m: byte, size: u32)
    requires r.Sound(TreeHashes(r, leaves)) && created < n <= |r.txs|
    requires Creates(r, created, createKey, Root(r.c.h, leaves, MERKLE_DEPTH), m, size)
    requires q in r.Approvals(n, createKey, index)
    ensures Enrolled(r, q, leaves)
  {
    hide C.Step, T.Perform, Opens, WitnessOf, Run.Typed, Run.Inputs, TreeHashes, Root, OpeningInputs;
    var others := TreeHashes(r, leaves);
    VoteOpens(r, n, q, createKey, index, others);
    RootIsFrozen(r, created, n, createKey, Root(r.c.h, leaves, MERKLE_DEPTH), m, size, others);
    ReceiptInputsUsed(r, q, leaves);
    var p := T.ProposalOf(r.Typed(n), createKey, index).value;
    OpeningIsEnrolled(r.c.h, WitnessOf(r.txs[q].receipt), leaves, r.c.ProposalId(createKey, index, p),
                      r.txs[q].ix.nullifier, r.Inputs() + others);
  }

  /** Distinct nullifiers of one proposal come from distinct keys, hence from distinct enrolled leaves. */
  lemma VotersDiffer(r: Run, n: nat, q: nat, q': nat, createKey: Hash, index: u64, leaves: seq<Hash>)
    requires r.Sound(TreeHashes(r, leaves)) && n <= |r.txs|
    requires q in r.Approvals(n, createKey, index) && q' in r.Approvals(n, createKey, index) && q != q'
    requires Enrolled(r, q, leaves) && Enrolled(r, q', leaves)
    ensures Voter(r, q).sk != Voter(r, q').sk && Seat(r, q) != Seat(r, q')
  {
    hide C.Step, T.Perform, VerifyProof, WitnessOf, Run.Typed, Run.Inputs, TreeHashes, OpeningInputs,
         Program.ProposalId;
    var others := TreeHashes(r, leaves);
    ApprovalLog(r, n, createKey, index, others);
    VoteOpens(r, n, q, createKey, index, others);
    VoteOpens(r, n, q', createKey, index, others);
    assert Voter(r, q).sk != Voter(r, q').sk;
    if Seat(r, q) == Seat(r, q') {
      ReceiptInputsUsed(r, q, leaves);
      ReceiptInputsUsed(r, q', leaves);
      SameCommitment(r.c.h, r.Inputs() + others, Voter(r, q), Voter(r, q'));
    }
  }

  /** The accepted approvals of a proposal come from pairwise distinct enrolled members. */
  lemma OneMemberOneVote(r: Run, created: nat, n: nat, createKey: Hash, index: u64,
                         leaves: seq<Hash>, m: byte, size: u32)
    requires r.Sound(TreeHashes(r, leaves)) && created < n <= |r.txs|
    requires Creates(r, created, createKey, Root(r.c.h, leaves, MERKLE_DEPTH), m, size)
    ensures DistinctMembers(r, r.Approvals(n, createKey, index), leaves)
  {
    hide C.Step, T.Perform, WitnessOf, Run.Typed, Run.IsApproval, Run.Sound, Creates, TreeHashes, Seat, Voter,
         Identity.Commitment;
    var votes := r.Approvals(n, createKey, index);
    forall q | q in votes ensures Enrolled(r, q, leaves) {
      VoterIsEnrolled(r, created, n, q, createKey, index, leaves, m, size);
    }
    assert forall q :: q in votes ==> Enrolled(r, q, leaves);
    forall q, q' | q in votes && q' in votes && q != q'
      ensures Enrolled(r, q, leaves) && Enrolled(r, q', leaves)
      ensures Voter(r, q).sk != Voter(r, q').sk && Seat(r, q) != Seat(r, q')
    {
      VotersDiffer(r, n, q, q', createKey, index, leaves);
    }
  }

  // ---------- Counting ----------

  /** An injection into a finite set has at most as many elements as the set. */
  lemma {:induction false} InjectionBound<T>(f: map<nat, T>, s: set<T>)
    requires forall q :: q in f ==> f[q] in s
    requires forall q, q' :: q in f && q' in f && q != q' ==> f[q] != f[q']
    ensures |f| <= |s|
    decreases |s|
  {
    if f.Keys == {} {
    } else {
      var q :| q in f.Keys;
      InjectionBound(f - {q}, s - {f[q]});
      assert f.Keys == (f - {q}).Keys + {q};
    }
  }

  lemma {:induction false} PositionsBelow(n: nat) returns (s: set<nat>)
    ensures |s| == n && forall i: nat :: i in s <==> i < n
  {
    if n == 0 {
      s := {};
    } else {
      s := PositionsBelow(n - 1);
      s := s + {n - 1};
    }
  }

  lemma MembersBound(r: Run, votes: set<nat>, leaves: seq<Hash>)
    requires forall q :: q in votes ==> q < |r.txs|
    requires DistinctMembers(r, votes, leaves)
    ensures |votes| <= |leaves|
  {
    hide Seat, Voter, WitnessOf, Identity.Commitment;
    var seats := map q | q in votes :: Seat(r, q);
    assert seats.Keys == votes;
    var positions := PositionsBelow(|leaves|);
    InjectionBound(seats, positions);
  }

  /** The stored count of a proposal is the number of its accepted approvals. */
  lemma CountIsApprovals(r: Run, n: nat, createKey: Hash, index: u64, others: set<seq<byte>>)
    requires r.Sound(others) && n <= |r.txs| && T.ProposalOf(r.Typed(n), createKey, index).Some?
    ensures T.ProposalOf(r.Typed(n), createKey, index).value.approvalsCount == |r.Approvals(n, createKey, index)|
  {
    hide C.Step, T.Perform, C.Refines, Opens, Run.Sound, Run.Typed, Run.Approvals, T.Votes, AllRecorded, NoDoubleVote;
    ApprovalLog(r, n, createKey, index, others);
    RunRefines(r, n, others);
    assert T.GoodAccount(r.c, r.Typed(n), ProposalKey(createKey, index));
  }

  // ---------- Main results ----------

  /**
   * Quorum soundness. If a proposal of an instance created with a member tree's root is ever
   * executed, at least `m` earlier accepted approvals of that proposal were made by pairwise distinct
   * enrolled members: distinct secret keys, distinct leaves, each leaf the commitment of its voter.
   */
  lemma QuorumSoundness(r: Run, created: nat, executed: nat, createKey: Hash, index: u64,
                        leaves: seq<Hash>, m: byte, size: u32)
    requires r.Sound(TreeHashes(r, leaves))
    requires Creates(r, created, createKey, Root(r.c.h, leaves, MERKLE_DEPTH), m, size)
    requires r.IsExecution(executed, createKey, index)
    ensures |r.Approvals(executed, createKey, index)| >= m
    ensures DistinctMembers(r, r.Approvals(executed, createKey, index), leaves)
  {
    hide C.Step, T.GoodAccount, T.Inv, Run.Inputs, Run.Approvals, TreeHashes, Root, DistinctMembers, CallFor;
    var others := TreeHashes(r, leaves);
    CreatedFirst(r, created, executed, createKey, Root(r.c.h, leaves, MERKLE_DEPTH), m, size, others);
    OneMemberOneVote(r, created, executed, createKey, index, leaves, m, size);
    RootIsFrozen(r, created, executed, createKey, Root(r.c.h, leaves, MERKLE_DEPTH), m, size, others);
    AcceptedIsTyped(r, executed, others);
    CountIsApprovals(r, executed, createKey, index, others);
  }

  /** Approvals never exceed the enrolled leaves, at any point of any run, whatever `n` the instance states. */
  lemma ApprovalsWithinMembership(r: Run, created: nat, n: nat, createKey: Hash, index: u64,
                                  leaves: seq<Hash>, m: byte, size: u32)
    requires r.Sound(TreeHashes(r, leaves)) && created < n <= |r.txs|
    requires Creates(r, created, createKey, Root(r.c.h, leaves, MERKLE_DEPTH), m, size)
    ensures |r.Approvals(n, createKey, index)| <= |leaves|
  {
    hide C.Step, T.Perform, Run.Typed, Run.Inputs, TreeHashes, Root, DistinctMembers, Creates;
    OneMemberOneVote(r, created, n, createKey, index, leaves, m, size);
    MembersBound(r, r.Approvals(n, createKey, index), leaves);
  }

  // ---------- One key, one vote ----------

  /** The commitments of a list of members, in order: the leaves they enroll. */
  function Commitments(h: Hasher, members: seq<Identity>): (r: seq<Hash>)
    ensures |r| == |members|
  {
    if members == [] then [] else Commitments(h, members[..|members| - 1]) + [members[|members| - 1].Commitment(h)]
  }

  lemma {:induction false} CommitmentAt(h: Hasher, members: seq<Identity>, i: nat)
    requires i < |members|
    ensures Commitments(h, members)[i] == members[i].Commitment(h)
  {
    if i == |members| - 1 {
    } else {
      CommitmentAt(h, members[..|members| - 1], i);
    }
  }

  /** The distinct secret keys of a list of members. */
  ghost function SecretKeys(members: seq<Identity>): (keys: set<Hash>) {
    set i | 0 <= i < |members| :: members[i].sk
  }

  /** The inputs hashed to enroll the members: their tree and their commitments. */
  ghost function EnrollmentInputs(r: Run, members: seq<Identity>): (inputs: set<seq<byte>>) {
    TreeHashes(r, Commitments(r.c.h, members)) + set i | 0 <= i < |members| :: Join(members[i].sk, members[i].salt)
  }

  /** The voter behind an approval is the very member enrolled at its seat, key and salt. */
  lemma VoterIsMember(r: Run, q: nat, members: seq<Identity>)
    requires r.Sound(EnrollmentInputs(r, members))
    requires q < |r.txs| && r.txs[q].ix.Approve? && Enrolled(r, q, Commitments(r.c.h, members))
    ensures Voter(r, q) == members[Seat(r, q)]
  {
    hide WitnessOf, Run.Inputs, TreeHashes, OpeningInputs, Commitments;
    var leaves := Commitments(r.c.h, members);
    var member := members[Seat(r, q)];
    CommitmentAt(r.c.h, members, Seat(r, q));
    ReceiptInputsUsed(r, q, leaves);
    assert Join(member.sk, member.salt) in EnrollmentInputs(r, members);
    SameCommitment(r.c.h, r.Inputs() + EnrollmentInputs(r, members), Voter(r, q), member);
  }

  /**
   * One key, one vote. The nullifier ignores the salt, so commitments that share a secret key share a
   * vote: the approvals of a proposal are at most the distinct keys enrolled, however many leaves they
   * fill.
   */
  lemma ApprovalsWithinKeys(r: Run, created: nat, n: nat, createKey: Hash, index: u64,
                            members: seq<Identity>, m: byte, size: u32)
    requires r.Sound(EnrollmentInputs(r, members)) && created < n <= |r.txs|
    requires Creates(r, created, createKey, Root(r.c.h, Commitments(r.c.h, members), MERKLE_DEPTH), m, size)
    ensures |r.Approvals(n, createKey, index)| <= |SecretKeys(members)|
  {
    hide WitnessOf, Run.Inputs, Run.Typed, TreeHashes, Root, Creates, Seat, Voter, Commitments, Identity.Commitment;
    var leaves, votes := Commitments(r.c.h, members), r.Approvals(n, createKey, index);
    FewerInputs(r.c.h, r.Inputs() + TreeHashes(r, leaves), r.Inputs() + EnrollmentInputs(r, members));
    OneMemberOneVote(r, created, n, createKey, index, leaves, m, size);
    forall q | q in votes ensures Enrolled(r, q, leaves) && Voter(r, q).sk in SecretKeys(members) {
      VoterIsMember(r, q, members);
    }
    var keys := map q | q in votes :: Voter(r, q).sk;
    assert keys.Keys == votes;
    InjectionBound(keys, SecretKeys(members));
  }

  /** An instance whose leaves carry fewer than `m` distinct keys never executes anything. */
  lemma TooFewKeysNeverExecute(r: Run, created: nat, q: nat, createKey: Hash, index: u64,
                               members: seq<Identity>, m: byte, size: u32)
    requires r.Sound(EnrollmentInputs(r, members)) && |SecretKeys(members)| < m
    requires Creates(r, created, createKey, Root(r.c.h, Commitments(r.c.h, members), MERKLE_DEPTH), m, size)
    ensures !r.IsExecution(q, createKey, index)
  {
    hide C.Step, Run.Inputs, Run.Typed, Run.Approvals, TreeHashes, Root, Commitments, DistinctMembers;
    if r.IsExecution(q, createKey, index) {
      var leaves := Commitments(r.c.h, members);
      var root := Root(r.c.h, leaves, MERKLE_DEPTH);
      FewerInputs(r.c.h, r.Inputs() + TreeHashes(r, leaves), r.Inputs() + EnrollmentInputs(r, members));
      QuorumSoundness(r, created, q, createKey, index, leaves, m, size);
      CreatedFirst(r, created, q, createKey, root, m, size, TreeHashes(r, leaves));
      ApprovalsWithinKeys(r, created, q, createKey, index, members, m, size);
    }
  }
}
