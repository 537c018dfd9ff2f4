/** Whole runs of the program: sequences of transactions, accepted or refused. */
module Runs {
  import opened ByteStrings
  import opened CoreTypes
  import opened Hashing
  import opened Merkle
  import opened Addresses
  import opened ApproveCircuit
  import opened Handlers
  import T = TypedLedger
  import C = ChainLedger

  /** The inputs the guest hashes for the receipt of an approval; no other instruction uses a receipt. */
  ghost function ReceiptInputs(h: Hasher, tx: Transaction): (inputs: set<seq<byte>>) {
    if !tx.ix.Approve? || |tx.receipt| < APPROVE_WITNESS_LEN then {} else
      var w := WitnessOf(tx.receipt);
      {Join(w.identity.sk, w.identity.salt)} + FoldInputs(h, w.identity.Commitment(h), w.proof, MERKLE_DEPTH)
  }

  /** The inputs hashed to derive the accounts of an instruction. */
  ghost function AccountInputs(c: Program, ix: Instruction): (inputs: set<seq<byte>>) {
    set j, x | 0 <= j < |Keys(ix)| && x in AddressInputs(c.h, c.id, Keys(ix)[j]) :: x
  }

  /** Before the program has run, it owns no account; other programs may own any. */
  ghost predicate Genesis(c: Program, l: C.Chain) {
    forall a :: a in l ==> l[a].owner != c.id
  }

  /** A run: the chain it starts from, the transactions submitted, and the recorded outcome of each. */
  datatype Run = Run(c: Program, genesis: C.Chain, txs: seq<Transaction>, outcomes: seq<Outcome<C.Chain>>) {

    function Outcome(q: nat): (r: Outcome<C.Chain>)
      requires q < |txs|
    {
      if q < |outcomes| then outcomes[q] else Refused(PdaMismatch)
    }

    /** The chain after the first `n` transactions. */
    function Chain(n: nat): (r: C.Chain)
      requires n <= |txs|
    {
      if n == 0 then genesis else After(Outcome(n - 1), Chain(n - 1))
    }

    /** The recorded outcome of transaction `q` is what the program does with it there. */
    ghost predicate Happened(q: nat)
      requires q < |txs|
    {
      Outcome(q) == C.Step(c, Chain(q), txs[q])
    }

    /** Every transaction has its outcome recorded, and every record is true. */
    ghost predicate Genuine() {
      |outcomes| == |txs| && forall q: nat {:trigger Happened(q)} :: q < |txs| ==> Happened(q)
    }

    predicate Accepted(q: nat) {
      q < |txs| && Outcome(q).Accepted?
    }

    /** The typed ledger that takes the accepted steps. */
    ghost function Typed(n: nat): (r: T.Ledger)
      requires n <= |txs|
    {
      if n == 0 then map[]
      else if Accepted(n - 1) then After(C.TypedStep(c, Typed(n - 1), txs[n - 1]), Typed(n - 1))
      else Typed(n - 1)
    }

    /** The accounts named anywhere in the run. */
    ghost function UsedKeys(): (keys: set<Key>) {
      set q, j | 0 <= q < |txs| && 0 <= j < |Keys(txs[q].ix)| :: Keys(txs[q].ix)[j]
    }

    /** The inputs hashed for addresses and by the guest anywhere in the run. */
    ghost function Inputs(): (inputs: set<seq<byte>>) {
      set q, x | 0 <= q < |txs| && x in ReceiptInputs(c.h, txs[q]) + AccountInputs(c, txs[q].ix) :: x
    }

    /** The run is genuine and starts clean, and no two of its hashed inputs, nor of `others`, collide. */
    ghost predicate Sound(others: set<seq<byte>>) {
      Genuine() && Genesis(c, genesis) && CollisionFree(c.h, Inputs() + others)
    }

    ghost predicate IsApproval(q: nat, createKey: Hash, index: u64) {
      Accepted(q) && txs[q].ix.Approve? && txs[q].ix.createKey == createKey && txs[q].ix.index == index
    }

    /** The accepted approvals of one proposal among the first `n` transactions. */
    ghost function Approvals(n: nat, createKey: Hash, index: u64): (r: set<nat>)
      requires n <= |txs|
      ensures forall q: nat :: q in r <==> q < n && IsApproval(q, createKey, index)
    {
      set q: nat | 0 <= q < n && IsApproval(q, createKey, index)
    }

    ghost predicate IsExecution(q: nat, createKey: Hash, index: u64) {
      Accepted(q) && txs[q].ix == Instruction.Execute(createKey, index)
    }
  }

  // ---------- Address refinement over runs ----------

  lemma UsedKeyInputs(r: Run, k: Key)
    requires k in r.UsedKeys()
    ensures AddressInputs(r.c.h, r.c.id, k) <= r.Inputs()
  {
    hide AddressInputs, Keys, ReceiptInputs;
    var q, j :| 0 <= q < |r.txs| && 0 <= j < |Keys(r.txs[q].ix)| && Keys(r.txs[q].ix)[j] == k;
    forall x | x in AddressInputs(r.c.h, r.c.id, k) ensures x in r.Inputs() {
      assert x in AccountInputs(r.c, r.txs[q].ix);
      assert x in ReceiptInputs(r.c.h, r.txs[q]) + AccountInputs(r.c, r.txs[q].ix);
    }
  }

  /** The inputs that derive the address of `k` are among those of the run and `others`. */
  ghost predicate Derived(r: Run, k: Key, others: set<seq<byte>>) {
    AddressInputs(r.c.h, r.c.id, k) <= r.Inputs() + others
  }

  lemma DerivedAreDistinct(r: Run, more: set<Key>, others: set<seq<byte>>)
    requires r.Sound(others) && forall k :: k in more ==> Derived(r, k, others)
    ensures C.DistinctAddresses(r.c, r.UsedKeys() + more)
  {
    hide Address, AddressInputs, Keys, ReceiptInputs;
    forall k | k in r.UsedKeys() ensures Derived(r, k, others) {
      UsedKeyInputs(r, k);
    }
    forall a, b | a in r.UsedKeys() + more && b in r.UsedKeys() + more && r.c.Addr(a) == r.c.Addr(b)
      ensures a == b
    {
      assert Derived(r, a, others) && Derived(r, b, others);
      AddressInjective(r.c.h, r.c.id, a, b, r.Inputs() + others);
    }
  }

  lemma UsedKeysAreDistinct(r: Run, others: set<seq<byte>>)
    requires r.Sound(others)
    ensures C.DistinctAddresses(r.c, r.UsedKeys())
  {
    hide Run.Sound, Run.UsedKeys;
    DerivedAreDistinct(r, {}, others);
  }

  lemma KeysAreUsed(r: Run, q: nat)
    requires q < |r.txs|
    ensures C.KeySet(r.txs[q].ix) <= r.UsedKeys()
  {
    hide Keys;
  }

  lemma StepKeys(c: Program, t: T.Ledger, tx: Transaction)
    requires C.TypedStep(c, t, tx).Accepted?
    ensures t.Keys <= C.TypedStep(c, t, tx).ledger.Keys <= t.Keys + C.KeySet(tx.ix)
  {
  }

  /**
   * Address refinement: at every point of a run the accounts the program owns are exactly those of
   * the typed ledger, each at its derived address with its encoding, and the accounting holds.
   */
  lemma {:induction false} RunRefines(r: Run, n: nat, others: set<seq<byte>>)
    requires r.Sound(others) && n <= |r.txs|
    ensures C.Refines(r.c, r.Chain(n), r.Typed(n))
    ensures T.Inv(r.c, r.Typed(n))
    ensures r.Typed(n).Keys <= r.UsedKeys()
    decreases n
  {
    hide C.Step, T.Perform, T.GoodAccount, Program.Addr, Keys, Run.Inputs;
    if n == 0 {
    } else {
      RunRefines(r, n - 1, others);
      UsedKeysAreDistinct(r, others);
      KeysAreUsed(r, n - 1);
      var l, t, tx := r.Chain(n - 1), r.Typed(n - 1), r.txs[n - 1];
      assert r.Happened(n - 1);
      C.StepSimulates(r.c, l, t, tx, r.UsedKeys());
      if r.Accepted(n - 1) {
        T.StepKeepsInv(r.c, t, tx.ix, tx.receipt);
        StepKeys(r.c, t, tx);
      }
    }
  }

  /** An accepted transaction is an accepted step of the typed ledger, with the same calls. */
  lemma AcceptedIsTyped(r: Run, q: nat, others: set<seq<byte>>)
    requires r.Sound(others) && r.Accepted(q)
    ensures C.TypedStep(r.c, r.Typed(q), r.txs[q]).Accepted?
    ensures r.Typed(q + 1) == C.TypedStep(r.c, r.Typed(q), r.txs[q]).ledger
    ensures r.Outcome(q).calls == C.TypedStep(r.c, r.Typed(q), r.txs[q]).calls
    ensures T.Inv(r.c, r.Typed(q))
  {
    hide C.Step, T.Perform, T.GoodAccount, Program.Addr, Keys, Run.Inputs;
    RunRefines(r, q, others);
    UsedKeysAreDistinct(r, others);
    KeysAreUsed(r, q);
    assert r.Happened(q);
    C.StepSimulates(r.c, r.Chain(q), r.Typed(q), r.txs[q], r.UsedKeys());
  }

  // ---------- What never changes ----------

  ghost predicate Grows(b: T.Body, b': T.Body) {
    match b
    case StateBody(s) =>
      b'.StateBody? && s.proposalCount <= b'.state.proposalCount &&
      b'.state == s.(proposalCount := b'.state.proposalCount)
    case ProposalBody(p) =>
      && b'.ProposalBody? && p.approvalsCount <= b'.proposal.approvalsCount && (p.executed ==> b'.proposal.executed)
      && b'.proposal == p.(approvalsCount := b'.proposal.approvalsCount, executed := b'.proposal.executed)
    case VaultBody => b' == b
    case NullifierBody(_) => b' == b
  }

  /** From `t` to `t'`, what was written stays as written, save the counters and the executed flag. */
  ghost predicate Extends(t: T.Ledger, t': T.Ledger) {
    forall k :: k in t ==> k in t' && Grows(t[k], t'[k])
  }

  lemma ApproveResult(c: Program, tx: Transaction, s: Option<MultisigState>, p: Option<Proposal>)
    requires tx.ix.Approve?
    ensures
      var result := CheckApprove(c, tx.ix.createKey, tx.ix.index, tx.ix.nullifier, tx.ix.publicInputs, tx.receipt,
                                 s, p);
      result.Ok? ==> p.Some? && p.value.approvalsCount < U32_MAX
                     && result.value == p.value.(approvalsCount := p.value.approvalsCount + 1)
  {
  }

  lemma StepExtends(c: Program, t: T.Ledger, tx: Transaction)
    requires C.TypedStep(c, t, tx).Accepted?
    ensures Extends(t, C.TypedStep(c, t, tx).ledger)
  {
    hide CheckApprove, CallFor;
    if tx.ix.Approve? {
      ApproveResult(c, tx, T.StateOf(t, tx.ix.createKey), T.ProposalOf(t, tx.ix.createKey, tx.ix.index));
    }
  }

  /** Roots, thresholds, actions, targets and nullifier entries are written once, for good. */
  lemma {:induction false} WrittenOnce(r: Run, n: nat, later: nat, others: set<seq<byte>>)
    requires r.Sound(others) && n <= later <= |r.txs|
    ensures Extends(r.Typed(n), r.Typed(later))
    decreases later
  {
    hide T.Perform, C.Step, T.GoodAccount, Run.Inputs;
    if n == later {
    } else {
      WrittenOnce(r, n, later - 1, others);
      if r.Accepted(later - 1) {
        AcceptedIsTyped(r, later - 1, others);
        StepExtends(r.c, r.Typed(later - 1), r.txs[later - 1]);
      }
    }
  }
}
