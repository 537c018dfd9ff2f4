/** The guarantees of the protocol over whole runs. */
module Protocol {
  import opened ByteStrings
  import opened CoreTypes
  import opened Addresses
  import opened ApproveCircuit
  import opened Handlers
  import opened Runs
  import T = TypedLedger
  import C = ChainLedger

  // ---------- The log of approvals ----------

  /** The nullifier entry an approval creates. */
  ghost function Entry(r: Run, q: nat, createKey: Hash, index: u64): (k: Key)
    requires r.IsApproval(q, createKey, index)
  {
    NullifierKey(createKey, index, r.txs[q].ix.nullifier)
  }

  /** Approval `q` has its entry in `t`, with the opening its receipt was made from. */
  ghost predicate Recorded(r: Run, t: T.Ledger, q: nat, createKey: Hash, index: u64)
    requires r.IsApproval(q, createKey, index)
  {
    && |r.txs[q].receipt| >= APPROVE_WITNESS_LEN
    && Entry(r, q, createKey, index) in t
    && t[Entry(r, q, createKey, index)] == T.NullifierBody(WitnessOf(r.txs[q].receipt))
  }

  /** Every approval among the first `n` transactions is recorded in `t`. */
  ghost predicate AllRecorded(r: Run, t: T.Ledger, n: nat, createKey: Hash, index: u64)
    requires n <= |r.txs|
  {
    forall q :: q in r.Approvals(n, createKey, index) ==> Recorded(r, t, q, createKey, index)
  }

  /** No two approvals of a proposal carry the same nullifier. */
  ghost predicate NoDoubleVote(r: Run, n: nat, createKey: Hash, index: u64)
    requires n <= |r.txs|
  {
    forall q, q' :: q in r.Approvals(n, createKey, index) && q' in r.Approvals(n, createKey, index) && q != q' ==>
      r.txs[q].ix.nullifier != r.txs[q'].ix.nullifier
  }

  /** How one accepted step changes the entries of a proposal. */
  lemma StepVotes(c: Program, t: T.Ledger, tx: Transaction, createKey: Hash, index: u64)
    requires C.TypedStep(c, t, tx).Accepted?
    ensures
      var t' := C.TypedStep(c, t, tx).ledger;
      if tx.ix.Approve? && tx.ix.createKey == createKey && tx.ix.index == index then
        var entry := NullifierKey(createKey, index, tx.ix.nullifier);
        && |tx.receipt| >= APPROVE_WITNESS_LEN
        && entry !in t && entry in t' && t'[entry] == T.NullifierBody(WitnessOf(tx.receipt))
        && T.Votes(t', createKey, index) == T.Votes(t, createKey, index) + {entry}
      else
        T.Votes(t', createKey, index) == T.Votes(t, createKey, index)
  {
    hide CheckCreate, CheckPropose, CheckExecute, CallFor, CheckApprove;
    if tx.ix.Approve? {
      var s, p := T.StateOf(t, tx.ix.createKey), T.ProposalOf(t, tx.ix.createKey, tx.ix.index);
      ApprovalOpens(c, tx.ix.createKey, tx.ix.index, tx.ix.nullifier, tx.ix.publicInputs, tx.receipt, s.value, p.value);
    }
  }

  lemma EmptyLog(r: Run, createKey: Hash, index: u64)
    ensures AllRecorded(r, r.Typed(0), 0, createKey, index)
    ensures NoDoubleVote(r, 0, createKey, index)
    ensures |T.Votes(r.Typed(0), createKey, index)| == |r.Approvals(0, createKey, index)|
  {
    hide C.Step, WitnessOf;
    assert r.Approvals(0, createKey, index) == {};
    assert T.Votes(r.Typed(0), createKey, index) == {};
  }

  lemma RefusedKeepsTyped(r: Run, n: nat)
    requires n < |r.txs| && !r.Accepted(n)
    ensures r.Typed(n + 1) == r.Typed(n)
  {
    hide C.Step, T.Perform;
  }

  lemma ApprovalsStep(r: Run, n: nat, createKey: Hash, index: u64)
    requires n < |r.txs|
    ensures r.Approvals(n + 1, createKey, index)
         == r.Approvals(n, createKey, index) + if r.IsApproval(n, createKey, index) then {n} else {}
  {
    hide Run.IsApproval;
  }

  lemma StillRecorded(r: Run, t: T.Ledger, t': T.Ledger, n: nat, createKey: Hash, index: u64)
    requires n <= |r.txs| && Extends(t, t') && AllRecorded(r, t, n, createKey, index)
    ensures AllRecorded(r, t', n, createKey, index)
  {
    hide C.Step, WitnessOf;
    forall q | q in r.Approvals(n, createKey, index) ensures Recorded(r, t', q, createKey, index) {
      var k := Entry(r, q, createKey, index);
      assert Recorded(r, t, q, createKey, index);
      assert k in t && Grows(t[k], t'[k]);
    }
  }

  /** A transaction that is no accepted approval of the proposal leaves its entries alone. */
  lemma NoVote(r: Run, n: nat, createKey: Hash, index: u64, others: set<seq<byte>>)
    requires r.Sound(others) && n < |r.txs| && !r.IsApproval(n, createKey, index)
    ensures T.Votes(r.Typed(n + 1), createKey, index) == T.Votes(r.Typed(n), createKey, index)
  {
    hide C.TypedStep, T.Inv, T.Votes, Run.Sound, Run.Typed, Run.Accepted, WitnessOf;
    if r.Accepted(n) {
      AcceptedIsTyped(r, n, others);
      StepVotes(r.c, r.Typed(n), r.txs[n], createKey, index);
    } else {
      RefusedKeepsTyped(r, n);
    }
  }

  /** An accepted approval adds its entry, which was absent, and the entry is recorded. */
  lemma NewEntry(r: Run, n: nat, createKey: Hash, index: u64, others: set<seq<byte>>)
    requires r.Sound(others) && r.IsApproval(n, createKey, index)
    ensures
      var entry := Entry(r, n, createKey, index);
      && entry !in r.Typed(n) && Recorded(r, r.Typed(n + 1), n, createKey, index)
      && T.Votes(r.Typed(n + 1), createKey, index) == T.Votes(r.Typed(n), createKey, index) + {entry}
      && entry !in T.Votes(r.Typed(n), createKey, index)
  {
    hide C.TypedStep, T.Inv, Run.Sound, Run.Typed, WitnessOf;
    AcceptedIsTyped(r, n, others);
    StepVotes(r.c, r.Typed(n), r.txs[n], createKey, index);
  }

  /** An entry that was absent before step `n` belongs to none of the earlier approvals. */
  lemma NewVote(r: Run, n: nat, createKey: Hash, index: u64)
    requires r.IsApproval(n, createKey, index)
    requires AllRecorded(r, r.Typed(n), n, createKey, index) && NoDoubleVote(r, n, createKey, index)
    requires Entry(r, n, createKey, index) !in r.Typed(n)
    requires r.Approvals(n + 1, createKey, index) == r.Approvals(n, createKey, index) + {n}
    ensures NoDoubleVote(r, n + 1, createKey, index)
  {
    hide C.Step, WitnessOf;
    forall q | q in r.Approvals(n, createKey, index)
      ensures r.txs[q].ix.nullifier != r.txs[n].ix.nullifier
    {
      assert Recorded(r, r.Typed(n), q, createKey, index);
    }
  }

  lemma OneMoreStep(r: Run, n: nat, createKey: Hash, index: u64, others: set<seq<byte>>)
    requires r.Sound(others) && n < |r.txs|
    requires AllRecorded(r, r.Typed(n), n, createKey, index) && NoDoubleVote(r, n, createKey, index)
    requires |T.Votes(r.Typed(n), createKey, index)| == |r.Approvals(n, createKey, index)|
    ensures AllRecorded(r, r.Typed(n + 1), n + 1, createKey, index)
    ensures NoDoubleVote(r, n + 1, createKey, index)
    ensures |T.Votes(r.Typed(n + 1), createKey, index)| == |r.Approvals(n + 1, createKey, index)|
  {
    hide Run.Sound, Run.Typed, Run.Accepted, Run.IsApproval, T.Votes, Recorded, Extends;
    WrittenOnce(r, n, n + 1, others);
    StillRecorded(r, r.Typed(n), r.Typed(n + 1), n, createKey, index);
    ApprovalsStep(r, n, createKey, index);
    if r.IsApproval(n, createKey, index) {
      NewEntry(r, n, createKey, index, others);
      NewVote(r, n, createKey, index);
    } else {
      NoVote(r, n, createKey, index, others);
    }
  }

  /** The entries of a proposal are its accepted approvals, one each, under pairwise distinct nullifiers. */
  lemma {:induction false} ApprovalLog(r: Run, n: nat, createKey: Hash, index: u64, others: set<seq<byte>>)
    requires r.Sound(others) && n <= |r.txs|
    ensures AllRecorded(r, r.Typed(n), n, createKey, index)
    ensures NoDoubleVote(r, n, createKey, index)
    ensures |T.Votes(r.Typed(n), createKey, index)| == |r.Approvals(n, createKey, index)|
    decreases n
  {
    hide *;
    if n == 0 {
      EmptyLog(r, createKey, index);
    } else {
      ApprovalLog(r, n - 1, createKey, index, others);
      OneMoreStep(r, n - 1, createKey, index, others);
    }
  }

  // ---------- Where an instance comes from ----------

  /** Transaction `q` created the instance with this root and threshold. */
  ghost predicate Creates(r: Run, q: nat, createKey: Hash, root: Hash, m: byte, n: u32) {
    r.Accepted(q) && r.txs[q].ix == CreateMultisig(createKey, root, m, n)
  }

  /** Transaction `q` opened the proposal with this action and target. */
  ghost predicate Opened(r: Run, q: nat, createKey: Hash, index: u64, action: seq<byte>, target: Hash) {
    && r.Accepted(q) && r.txs[q].ix.Propose?
    && r.txs[q].ix.createKey == createKey && r.txs[q].ix.index == index
    && r.txs[q].ix.actionBytes == action && r.txs[q].ix.targetProgram == target
  }

  /** After its creation an instance keeps the root and threshold it was created with. */
  lemma RootIsFrozen(r: Run, q: nat, later: nat, createKey: Hash, root: Hash, m: byte, n: u32, others: set<seq<byte>>)
    requires r.Sound(others) && q < later <= |r.txs| && Creates(r, q, createKey, root, m, n)
    ensures T.StateOf(r.Typed(later), createKey).Some?
    ensures
      var s := T.StateOf(r.Typed(later), createKey).value;
      s.createKey == createKey && s.membersRoot == root && s.m == m && s.n == n
  {
    hide C.Step, T.GoodAccount, Run.Inputs;
    AcceptedIsTyped(r, q, others);
    WrittenOnce(r, q + 1, later, others);
    var t, t', k := r.Typed(q + 1), r.Typed(later), StateKey(createKey);
    assert k in t && t[k] == T.StateBody(MultisigState(createKey, root, m, n, 0));
    assert Grows(t[k], t'[k]);
  }

  /** Nothing happens to an instance before it is created. */
  lemma CreatedFirst(r: Run, q: nat, j: nat, createKey: Hash, root: Hash, m: byte, n: u32, others: set<seq<byte>>)
    requires r.Sound(others) && Creates(r, q, createKey, root, m, n)
    requires r.Accepted(j) && r.txs[j].ix.createKey == createKey && !r.txs[j].ix.CreateMultisig?
    ensures q < j
  {
    hide C.Step, T.GoodAccount, Run.Inputs, CheckApprove, CheckPropose, CheckExecute, CallFor;
    AcceptedIsTyped(r, q, others);
    AcceptedIsTyped(r, j, others);
    if j < q {
      WrittenOnce(r, j, q, others);
      assert false;
    }
  }

  lemma NewProposal(c: Program, t: T.Ledger, tx: Transaction, createKey: Hash, index: u64)
    requires C.TypedStep(c, t, tx).Accepted?
    requires T.ProposalOf(t, createKey, index).None?
    requires T.ProposalOf(C.TypedStep(c, t, tx).ledger, createKey, index).Some?
    ensures
      var p := T.ProposalOf(C.TypedStep(c, t, tx).ledger, createKey, index).value;
      tx.ix.Propose? && tx.ix.createKey == createKey && tx.ix.index == index
      && tx.ix.actionBytes == p.actionBytes && tx.ix.targetProgram == p.targetProgram
  {
    hide CheckApprove, CheckPropose, CheckCreate, CheckExecute, CallFor;
  }

  /** A proposal on the ledger was opened by an earlier transaction with its action and target. */
  lemma {:induction false} ProposalOrigin(r: Run, n: nat, createKey: Hash, index: u64, others: set<seq<byte>>)
    requires r.Sound(others) && n <= |r.txs| && T.ProposalOf(r.Typed(n), createKey, index).Some?
    ensures
      var p := T.ProposalOf(r.Typed(n), createKey, index).value;
      exists q: nat :: q < n && Opened(r, q, createKey, index, p.actionBytes, p.targetProgram)
    decreases n
  {
    hide C.Step, T.GoodAccount, Run.Inputs, T.Perform;
    var p := T.ProposalOf(r.Typed(n), createKey, index).value;
    if T.ProposalOf(r.Typed(n - 1), createKey, index).Some? {
      ProposalOrigin(r, n - 1, createKey, index, others);
      WrittenOnce(r, n - 1, n, others);
      var k := ProposalKey(createKey, index);
      assert Grows(r.Typed(n - 1)[k], r.Typed(n)[k]);
    } else {
      AcceptedIsTyped(r, n - 1, others);
      NewProposal(r.c, r.Typed(n - 1), r.txs[n - 1], createKey, index);
      assert Opened(r, n - 1, createKey, index, p.actionBytes, p.targetProgram);
    }
  }
}
