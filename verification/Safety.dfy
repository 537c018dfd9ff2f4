/** Accounting, single and faithful execution, replay protection and isolation, over whole runs. */
module Safety {
  import opened ByteStrings
  import opened CoreTypes
  import opened Merkle
  import opened ProposalIds
  import opened Addresses
  import opened ApproveCircuit
  import opened Handlers
  import opened Runs
  import opened Protocol
  import opened Quorum
  import T = TypedLedger
  import C = ChainLedger

  // ---------- Accounting, read off the chain ----------

  /**
   * In every reachable ledger: thresholds are valid, proposals exist exactly below the proposal
   * count, actions are within the cap, and each stored count is the number of accepted approvals.
   * It speaks of any instance and index, named in the run or not, whose addresses are derived without
   * a collision.
   */
  lemma LedgerAccounting(r: Run, n: nat, createKey: Hash, index: u64, others: set<seq<byte>>)
    requires r.Sound(others) && n <= |r.txs|
    requires Derived(r, StateKey(createKey), others) && Derived(r, ProposalKey(createKey, index), others)
    ensures C.Owned(r.c, r.Chain(n), ProposalKey(createKey, index)) ==> C.Owned(r.c, r.Chain(n), StateKey(createKey))
    ensures C.Owned(r.c, r.Chain(n), StateKey(createKey)) ==>
      var state := C.StateAt(r.c, r.Chain(n), createKey);
      && state.Some?
      && state.value.createKey == createKey && ValidThreshold(state.value.m, state.value.n)
      && (C.Owned(r.c, r.Chain(n), ProposalKey(createKey, index)) <==> index < state.value.proposalCount)
    ensures C.Owned(r.c, r.Chain(n), ProposalKey(createKey, index)) ==>
      var proposal := C.ProposalAt(r.c, r.Chain(n), createKey, index);
      && proposal.Some?
      && |proposal.value.actionBytes| <= MAX_ACTION_BYTES_LEN
      && proposal.value.approvalsCount == |r.Approvals(n, createKey, index)|
  {
    hide C.Step, T.Perform, C.Refines, Opens, Run.Sound, Run.Typed, Run.Chain, Run.Approvals, Run.UsedKeys, T.Votes,
         Derived, Program.Addr, C.StateAt, C.ProposalAt, C.DistinctAddresses;
    RunRefines(r, n, others);
    var more := {StateKey(createKey), ProposalKey(createKey, index)};
    DerivedAreDistinct(r, more, others);
    C.StateDecodes(r.c, r.Chain(n), r.Typed(n), createKey, r.UsedKeys() + more);
    C.ProposalDecodes(r.c, r.Chain(n), r.Typed(n), createKey, index, r.UsedKeys() + more);
    if StateKey(createKey) in r.Typed(n) {
      assert T.GoodAccount(r.c, r.Typed(n), StateKey(createKey));
    }
    if ProposalKey(createKey, index) in r.Typed(n) {
      assert T.GoodAccount(r.c, r.Typed(n), ProposalKey(createKey, index));
      CountIsApprovals(r, n, createKey, index, others);
    }
  }

  lemma OverflowNeedsFullCount(c: Program, tx: Transaction, s: Option<MultisigState>, p: Option<Proposal>)
    requires tx.ix.Approve? && p.Some? && p.value.approvalsCount < U32_MAX
    ensures CheckApprove(c, tx.ix.createKey, tx.ix.index, tx.ix.nullifier, tx.ix.publicInputs, tx.receipt, s, p)
         != Err(ArithmeticOverflow)
  {
  }

  /** With a member tree behind the instance, an approval is never refused for overflow of its count. */
  lemma OverflowUnreachable(r: Run, created: nat, q: nat, createKey: Hash, leaves: seq<Hash>, m: byte, size: u32)
    requires r.Sound(TreeHashes(r, leaves)) && created < q < |r.txs|
    requires Creates(r, created, createKey, Root(r.c.h, leaves, MERKLE_DEPTH), m, size)
    requires |leaves| <= MAX_LEAVES
    requires r.txs[q].ix.Approve? && r.txs[q].ix.createKey == createKey
    ensures r.Outcome(q) != Refused(ArithmeticOverflow)
  {
    hide T.Perform, T.GoodAccount, C.Refines, Opens, Run.Inputs, Run.Typed, Run.Chain, Run.Approvals, Creates, Root,
         Program.Addr, C.DistinctAddresses, C.StateAt, C.ProposalAt, TreeHashes, Run.UsedKeys;
    var others, index := TreeHashes(r, leaves), r.txs[q].ix.index;
    RunRefines(r, q, others);
    UsedKeysAreDistinct(r, others);
    KeysAreUsed(r, q);
    assert r.Happened(q);
    assert StateKey(createKey) in C.KeySet(r.txs[q].ix) && ProposalKey(createKey, index) in C.KeySet(r.txs[q].ix);
    C.ProposalDecodes(r.c, r.Chain(q), r.Typed(q), createKey, index, r.UsedKeys());
    if C.Owned(r.c, r.Chain(q), ProposalKey(createKey, index)) && C.Owned(r.c, r.Chain(q), StateKey(createKey)) {
      OneMemberOneVote(r, created, q, createKey, index, leaves, m, size);
      MembersBound(r, r.Approvals(q, createKey, index), leaves);
      CountIsApprovals(r, q, createKey, index, others);
      OverflowNeedsFullCount(r.c, r.txs[q], C.StateAt(r.c, r.Chain(q), createKey),
                             C.ProposalAt(r.c, r.Chain(q), createKey, index));
    }
  }

  // ---------- Execution ----------

  /** A proposal's executed flag turns on in `t'`. */
  ghost predicate Flips(t: T.Ledger, t': T.Ledger, createKey: Hash, index: u64) {
    && T.ProposalOf(t, createKey, index).Some? && !T.ProposalOf(t, createKey, index).value.executed
    && T.ProposalOf(t', createKey, index).Some? && T.ProposalOf(t', createKey, index).value.executed
  }

  /** A step emits calls exactly when it flips an executed flag, and then exactly one. */
  lemma CallsWhenFlipped(c: Program, t: T.Ledger, tx: Transaction)
    requires C.TypedStep(c, t, tx).Accepted?
    ensures |C.TypedStep(c, t, tx).calls| <= 1
    ensures forall createKey, index ::
      Flips(t, C.TypedStep(c, t, tx).ledger, createKey, index) <==>
      C.TypedStep(c, t, tx).calls != [] && tx.ix == Execute(createKey, index)
    ensures C.TypedStep(c, t, tx).calls != [] ==> tx.ix.Execute?
  {
    hide CheckApprove, CheckPropose, CheckCreate, CallFor;
    if tx.ix.Approve? {
      ApproveResult(c, tx, T.StateOf(t, tx.ix.createKey), T.ProposalOf(t, tx.ix.createKey, tx.ix.index));
    }
  }

  lemma NotExecutedAgain(r: Run, j: nat, later: nat, createKey: Hash, index: u64, others: set<seq<byte>>)
    requires r.Sound(others) && j < later < |r.txs| && r.IsExecution(j, createKey, index)
    ensures !r.IsExecution(later, createKey, index)
  {
    hide C.Step, T.GoodAccount, Run.Inputs, CallFor;
    AcceptedIsTyped(r, j, others);
    WrittenOnce(r, j + 1, later, others);
    var k := ProposalKey(createKey, index);
    assert Grows(r.Typed(j + 1)[k], r.Typed(later)[k]);
    assert T.ProposalOf(r.Typed(later), createKey, index).value.executed;
    if r.IsExecution(later, createKey, index) {
      AcceptedIsTyped(r, later, others);
      assert false;
    }
  }

  /** A proposal is executed at most once in a run. */
  lemma ExecutedOnce(r: Run, j: nat, j': nat, createKey: Hash, index: u64, others: set<seq<byte>>)
    requires r.Sound(others) && r.IsExecution(j, createKey, index) && r.IsExecution(j', createKey, index)
    ensures j == j'
  {
    if j < j' {
      NotExecutedAgain(r, j, j', createKey, index, others);
    } else if j' < j {
      NotExecutedAgain(r, j', j, createKey, index, others);
    }
  }

  /** Transaction `p` proposed the action and the target of `call`. */
  ghost predicate Proposed(r: Run, p: nat, createKey: Hash, index: u64, call: ChainedCall) {
    exists action, target ::
      && Opened(r, p, createKey, index, action, target)
      && call.instructionData == r.c.serde(action) && WordBytes(call.programId) == target
  }

  /**
   * The one call an execution emits carries the encoded action proposed for that index by an earlier
   * accepted `propose` and targets the proposed program byte for byte. It hands over the instance's own
   * vault, authorized, with the one seed from which the runtime derives that vault's address. No other
   * accepted instruction emits a call.
   */
  lemma FaithfulExecution(r: Run, q: nat, others: set<seq<byte>>)
    requires r.Sound(others) && r.Accepted(q)
    ensures r.Outcome(q).calls != [] <==> r.txs[q].ix.Execute?
    ensures r.txs[q].ix.Execute? ==>
      var createKey, index := r.txs[q].ix.createKey, r.txs[q].ix.index;
      && |r.Outcome(q).calls| == 1
      && var call := r.Outcome(q).calls[0];
      && |call.programId| == 8
      && (exists p: nat :: p < q && Proposed(r, p, createKey, index, call))
      && call.preStates == [PreState(r.c.Addr(VaultKey(createKey)), [], true)]
      && |call.pdaSeeds| == 1 && ForPublicPda(r.c.h, r.c.id, call.pdaSeeds[0]) == r.c.Addr(VaultKey(createKey))
  {
    hide C.Step, T.GoodAccount, Run.Inputs, Program.Addr, CheckApprove, CheckPropose, CheckCreate, Opened;
    AcceptedIsTyped(r, q, others);
    if r.txs[q].ix.Execute? {
      var createKey, index := r.txs[q].ix.createKey, r.txs[q].ix.index;
      var proposal := T.ProposalOf(r.Typed(q), createKey, index).value;
      ProposalOrigin(r, q, createKey, index, others);
      ProgramIdRoundTrip(proposal.targetProgram);
      var p: nat :| p < q && Opened(r, p, createKey, index, proposal.actionBytes, proposal.targetProgram);
      assert Proposed(r, p, createKey, index, r.Outcome(q).calls[0]);
      VaultSeedAuthorizesVault(r.c, createKey);
    }
  }

  // ---------- Replay ----------

  /** The inputs hashed to recompute the proposal id of approval `q`. */
  ghost function IdInputs(r: Run, q: nat): (inputs: set<seq<byte>>)
    requires q < |r.txs|
  {
    if r.txs[q].ix.Approve? && T.ProposalOf(r.Typed(q), r.txs[q].ix.createKey, r.txs[q].ix.index).Some? then
      var ix := r.txs[q].ix;
      var p := T.ProposalOf(r.Typed(q), ix.createKey, ix.index).value;
      ProposalIdInputs(r.c.h, ChainIdFromU64(DEPLOYMENT_CHAIN_ID), r.c.Addr(StateKey(ix.createKey)), ix.index,
                       p.actionBytes, p.targetProgram)
    else {}
  }

  /** What an accepted approval's public inputs are. */
  lemma ApprovedInputs(r: Run, q: nat, others: set<seq<byte>>)
    requires r.Sound(others) && r.Accepted(q) && r.txs[q].ix.Approve?
    ensures T.StateOf(r.Typed(q), r.txs[q].ix.createKey).Some?
    ensures T.ProposalOf(r.Typed(q), r.txs[q].ix.createKey, r.txs[q].ix.index).Some?
    ensures
      var ix := r.txs[q].ix;
      ix.publicInputs == ApprovePublicInputs(
        T.StateOf(r.Typed(q), ix.createKey).value.membersRoot,
        r.c.ProposalId(ix.createKey, ix.index, T.ProposalOf(r.Typed(q), ix.createKey, ix.index).value),
        ix.nullifier).ToBytes()
  {
    hide C.Step, T.GoodAccount, Run.Inputs, Program.ProposalId, CheckApprove;
    AcceptedIsTyped(r, q, others);
    var ix := r.txs[q].ix;
    ApprovalOpens(r.c, ix.createKey, ix.index, ix.nullifier, ix.publicInputs, r.txs[q].receipt,
                  T.StateOf(r.Typed(q), ix.createKey).value, T.ProposalOf(r.Typed(q), ix.createKey, ix.index).value);
  }

  /**
   * The same public inputs accepted on two proposals would make them one proposal: same instance,
   * same index, same action, same target.
   */
  lemma NoCrossProposalReplay(r: Run, q: nat, q': nat)
    requires r.Accepted(q) && r.txs[q].ix.Approve? && r.Accepted(q') && r.txs[q'].ix.Approve?
    requires r.Sound(IdInputs(r, q) + IdInputs(r, q'))
    requires r.txs[q].ix.publicInputs == r.txs[q'].ix.publicInputs
    ensures r.txs[q].ix.createKey == r.txs[q'].ix.createKey
    ensures r.txs[q].ix.index == r.txs[q'].ix.index
    ensures r.txs[q].ix.nullifier == r.txs[q'].ix.nullifier
    ensures
      var ix := r.txs[q].ix;
      var p, p' := T.ProposalOf(r.Typed(q), ix.createKey, ix.index), T.ProposalOf(r.Typed(q'), ix.createKey, ix.index);
      p.Some? && p'.Some? &&
      p.value.actionBytes == p'.value.actionBytes && p.value.targetProgram == p'.value.targetProgram
  {
    hide C.Step, T.Perform, Run.Typed, Run.Inputs, Address, DeriveProposalId, ProposalIdInputs,
         AddressInputs, Run.UsedKeys;
    var others := IdInputs(r, q) + IdInputs(r, q');
    var ix, ix' := r.txs[q].ix, r.txs[q'].ix;
    ApprovedInputs(r, q, others);
    ApprovedInputs(r, q', others);
    var s, s' := T.StateOf(r.Typed(q), ix.createKey).value, T.StateOf(r.Typed(q'), ix'.createKey).value;
    var p := T.ProposalOf(r.Typed(q), ix.createKey, ix.index).value;
    var p' := T.ProposalOf(r.Typed(q'), ix'.createKey, ix'.index).value;
    var id, id' := r.c.ProposalId(ix.createKey, ix.index, p), r.c.ProposalId(ix'.createKey, ix'.index, p');
    var x := ApprovePublicInputs(s.membersRoot, id, ix.nullifier);
    var x' := ApprovePublicInputs(s'.membersRoot, id', ix'.nullifier);
    PublicInputsBijection(x, x.ToBytes());
    PublicInputsBijection(x', x.ToBytes());
    var chain := ChainIdFromU64(DEPLOYMENT_CHAIN_ID);
    SameProposalId(r.c.h, r.Inputs() + others,
                   chain, r.c.Addr(StateKey(ix.createKey)), ix.index, p.actionBytes, p.targetProgram,
                   chain, r.c.Addr(StateKey(ix'.createKey)), ix'.index, p'.actionBytes, p'.targetProgram);
    UsedKeysAreDistinct(r, others);
    KeysAreUsed(r, q);
    KeysAreUsed(r, q');
    assert StateKey(ix.createKey) in C.KeySet(ix) && StateKey(ix'.createKey) in C.KeySet(ix');
  }

  /** Public inputs are accepted at most once in a run. */
  lemma PublicInputsUsedOnce(r: Run, q: nat, q': nat)
    requires r.Accepted(q) && r.txs[q].ix.Approve? && r.Accepted(q') && r.txs[q'].ix.Approve?
    requires r.Sound(IdInputs(r, q) + IdInputs(r, q'))
    requires r.txs[q].ix.publicInputs == r.txs[q'].ix.publicInputs
    ensures q == q'
  {
    hide C.Step, T.Perform, Run.Typed, Run.Sound, Run.Inputs, IdInputs;
    NoCrossProposalReplay(r, q, q');
    var createKey, index := r.txs[q].ix.createKey, r.txs[q].ix.index;
    ApprovalLog(r, |r.txs|, createKey, index, IdInputs(r, q) + IdInputs(r, q'));
    assert q in r.Approvals(|r.txs|, createKey, index) && q' in r.Approvals(|r.txs|, createKey, index);
  }

  // ---------- Isolation ----------

  /** What the chain holds for an account, if anything. */
  ghost function At(c: Program, l: C.Chain, k: Key): (a: Option<C.Account>) {
    if c.Addr(k) in l then Some(l[c.Addr(k)]) else None
  }

  /** A step touches no address but those of its own instruction. */
  lemma StepFrame(c: Program, l: C.Chain, tx: Transaction, a: Hash)
    requires C.Step(c, l, tx).Accepted?
    requires forall k :: k in C.KeySet(tx.ix) ==> c.Addr(k) != a
    ensures a in C.Step(c, l, tx).ledger <==> a in l
    ensures a in l ==> C.Step(c, l, tx).ledger[a] == l[a]
  {
    hide Program.Addr, C.StateAt, C.ProposalAt, CheckApprove, CheckPropose, CheckCreate, CheckExecute, CallFor,
         C.NamesItsAccounts;
    match tx.ix
    case CreateMultisig(ck, _, _, _) => assert StateKey(ck) in C.KeySet(tx.ix);
    case CreateVault(ck) => assert VaultKey(ck) in C.KeySet(tx.ix);
    case Propose(ck, i, _, _) => assert StateKey(ck) in C.KeySet(tx.ix) && ProposalKey(ck, i) in C.KeySet(tx.ix);
    case Approve(ck, i, nf, _) =>
      assert ProposalKey(ck, i) in C.KeySet(tx.ix) && NullifierKey(ck, i, nf) in C.KeySet(tx.ix);
    case Execute(ck, i) => assert ProposalKey(ck, i) in C.KeySet(tx.ix);
    case Reject(_) =>
  }

  /** A transaction on one instance leaves every account of every other instance as it was. */
  lemma InstancesAreIsolated(r: Run, q: nat, k: Key, others: set<seq<byte>>)
    requires r.Sound(others) && q < |r.txs|
    requires Derived(r, k, others) && k.createKey != r.txs[q].ix.createKey
    ensures At(r.c, r.Chain(q + 1), k) == At(r.c, r.Chain(q), k)
  {
    hide C.Step, Program.Addr, Run.Inputs, Run.UsedKeys, Derived;
    if r.Accepted(q) {
      DerivedAreDistinct(r, {k}, others);
      KeysAreUsed(r, q);
      assert r.Happened(q);
      StepFrame(r.c, r.Chain(q), r.txs[q], r.c.Addr(k));
    }
  }

  /** No run ever touches an account another program owned from the start, whatever collides. */
  lemma {:induction false} ForeignAccountsUntouched(r: Run, n: nat, a: Hash)
    requires r.Genuine() && Genesis(r.c, r.genesis) && n <= |r.txs| && a in r.genesis
    ensures a in r.Chain(n) && r.Chain(n)[a] == r.genesis[a]
    decreases n
  {
    hide Program.Addr, Run.Inputs, CheckApprove, CheckPropose, CheckCreate, CheckExecute, CallFor,
         C.StateAt, C.ProposalAt, C.NamesItsAccounts;
    if n == 0 {
    } else {
      ForeignAccountsUntouched(r, n - 1, a);
      assert r.Happened(n - 1);
    }
  }
}
