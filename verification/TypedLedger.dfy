/** The ledger keyed by what an account is, and the invariants every instruction keeps. */
module TypedLedger {
  import opened ByteStrings
  import opened CoreTypes
  import opened Addresses
  import opened ProposalIds
  import opened ApproveCircuit
  import opened Handlers

  /** A nullifier entry stores nothing on chain; here it remembers the opening that created it. */
  datatype Body =
    | StateBody(state: MultisigState)
    | ProposalBody(proposal: Proposal)
    | VaultBody
    | NullifierBody(opening: Witness)

  type Ledger = map<Key, Body>

  function StateOf(t: Ledger, createKey: Hash): (r: Option<MultisigState>) {
    var k := StateKey(createKey);
    if k in t && t[k].StateBody? then Some(t[k].state) else None
  }

  function ProposalOf(t: Ledger, createKey: Hash, index: u64): (r: Option<Proposal>) {
    var k := ProposalKey(createKey, index);
    if k in t && t[k].ProposalBody? then Some(t[k].proposal) else None
  }

  function Perform(c: Program, t: Ledger, ix: Instruction, receipt: seq<byte>): (r: Outcome<Ledger>) {
    var state := StateOf(t, ix.createKey);
    match ix
    case CreateMultisig(createKey, membersRoot, m, n) =>
      if StateKey(createKey) in t then Refused(AccountAlreadyInitialized) else
      (match CheckCreate(createKey, membersRoot, m, n)
       case Err(e) => Refused(e)
       case Ok(s) => Accepted(t[StateKey(createKey) := StateBody(s)], []))
    case CreateVault(createKey) =>
      if state.None? then Refused(WrongOwner)
      else if VaultKey(createKey) in t then Refused(AccountAlreadyInitialized)
      else Accepted(t[VaultKey(createKey) := VaultBody], [])
    case Propose(createKey, index, actionBytes, targetProgram) =>
      if state.None? then Refused(WrongOwner)
      else if ProposalKey(createKey, index) in t then Refused(AccountAlreadyInitialized) else
      (match CheckPropose(state, index, actionBytes)
       case Err(e) => Refused(e)
       case Ok(s) =>
         Accepted(t[StateKey(createKey) := StateBody(s)]
                   [ProposalKey(createKey, index) := ProposalBody(Proposal(actionBytes, targetProgram, 0, false))], []))
    case Approve(createKey, index, nullifier, publicInputs) =>
      var proposal := ProposalOf(t, createKey, index);
      if state.None? || proposal.None? then Refused(WrongOwner)
      else if NullifierKey(createKey, index, nullifier) in t then Refused(AccountAlreadyInitialized) else
      (match CheckApprove(c, createKey, index, nullifier, publicInputs, receipt, state, proposal)
       case Err(e) => Refused(e)
       case Ok(p) =>
         ApprovalOpens(c, createKey, index, nullifier, publicInputs, receipt, state.value, proposal.value);
         Accepted(t[ProposalKey(createKey, index) := ProposalBody(p)]
                   [NullifierKey(createKey, index, nullifier) := NullifierBody(WitnessOf(receipt))], []))
    case Execute(createKey, index) =>
      var proposal := ProposalOf(t, createKey, index);
      if state.None? || proposal.None? || VaultKey(createKey) !in t then Refused(WrongOwner) else
      (match CheckExecute(state, proposal)
       case Err(e) => Refused(e)
       case Ok(p) =>
         Accepted(t[ProposalKey(createKey, index) := ProposalBody(p)], [CallFor(c, createKey, p, [])]))
    case Reject(createKey) =>
      if state.None? then Refused(WrongOwner) else Accepted(t, [])
  }

  // ---------- Invariants ----------

  /** The nullifier entries of one proposal. */
  ghost function Votes(t: Ledger, createKey: Hash, index: u64): (votes: set<Key>) {
    set k | k in t.Keys && k.NullifierKey? && k.createKey == createKey && k.index == index
  }

  /** What holds of one account of the ledger. */
  ghost predicate GoodAccount(c: Program, t: Ledger, k: Key)
    requires k in t
  {
    match k
    case StateKey(createKey) =>
      && t[k].StateBody?
      && t[k].state.createKey == createKey
      && ValidThreshold(t[k].state.m, t[k].state.n)
      && forall i: u64 :: i < t[k].state.proposalCount ==> ProposalKey(createKey, i) in t
    case ProposalKey(createKey, index) =>
      && t[k].ProposalBody?
      && StateOf(t, createKey).Some?
      && index < StateOf(t, createKey).value.proposalCount
      && |t[k].proposal.actionBytes| <= MAX_ACTION_BYTES_LEN
      && t[k].proposal.approvalsCount == |Votes(t, createKey, index)|
      && (t[k].proposal.executed ==> t[k].proposal.approvalsCount >= StateOf(t, createKey).value.m)
    case VaultKey(createKey) =>
      t[k].VaultBody? && StateOf(t, createKey).Some?
    case NullifierKey(createKey, index, nullifier) =>
      && t[k].NullifierBody?
      && StateOf(t, createKey).Some?
      && ProposalOf(t, createKey, index).Some?
      && Opens(c.h, t[k].opening, StateOf(t, createKey).value.membersRoot,
               c.ProposalId(createKey, index, ProposalOf(t, createKey, index).value), nullifier)
  }

  /**
   * Ledger accounting: thresholds are valid, proposals exist exactly below the proposal count,
   * approval counts are numbers of nullifier entries, and every entry is backed by an opening.
   */
  ghost predicate Inv(c: Program, t: Ledger) {
    forall k :: k in t ==> GoodAccount(c, t, k)
  }

  lemma CreateKeeps(c: Program, t: Ledger, ix: Instruction, receipt: seq<byte>)
    requires Inv(c, t) && ix.CreateMultisig? && Perform(c, t, ix, receipt).Accepted?
    ensures Inv(c, Perform(c, t, ix, receipt).ledger)
  {
    hide Opens, Program.ProposalId;
    var t' := Perform(c, t, ix, receipt).ledger;
    forall k | k in t' ensures GoodAccount(c, t', k) {
      if k != StateKey(ix.createKey) {
        assert GoodAccount(c, t, k);
        assert k.ProposalKey? ==> Votes(t', k.createKey, k.index) == Votes(t, k.createKey, k.index);
      }
    }
  }

  lemma VaultKeeps(c: Program, t: Ledger, ix: Instruction, receipt: seq<byte>)
    requires Inv(c, t) && ix.CreateVault? && Perform(c, t, ix, receipt).Accepted?
    ensures Inv(c, Perform(c, t, ix, receipt).ledger)
  {
    hide Opens, Program.ProposalId;
    var t' := Perform(c, t, ix, receipt).ledger;
    forall k | k in t' ensures GoodAccount(c, t', k) {
      if k != VaultKey(ix.createKey) {
        assert GoodAccount(c, t, k);
        assert k.ProposalKey? ==> Votes(t', k.createKey, k.index) == Votes(t, k.createKey, k.index);
      }
    }
  }

  lemma ProposeKeeps(c: Program, t: Ledger, ix: Instruction, receipt: seq<byte>)
    requires Inv(c, t) && ix.Propose? && Perform(c, t, ix, receipt).Accepted?
    ensures Inv(c, Perform(c, t, ix, receipt).ledger)
  {
    hide Opens, Program.ProposalId;
    var t' := Perform(c, t, ix, receipt).ledger;
    var added := ProposalKey(ix.createKey, ix.index);
    assert GoodAccount(c, t, StateKey(ix.createKey));
    assert Votes(t, ix.createKey, ix.index) == {};
    forall k | k in t' ensures GoodAccount(c, t', k) {
      assert k.ProposalKey? ==> Votes(t', k.createKey, k.index) == Votes(t, k.createKey, k.index);
      if k != added {
        assert GoodAccount(c, t, k);
      }
    }
  }

  /** The proposal id does not depend on the count or on the executed flag. */
  lemma IdIgnoresProgress(c: Program, createKey: Hash, index: u64, p: Proposal, p': Proposal)
    requires p'.actionBytes == p.actionBytes && p'.targetProgram == p.targetProgram
    ensures c.ProposalId(createKey, index, p') == c.ProposalId(createKey, index, p)
  {
    hide DeriveProposalId, Program.Addr;
  }

  lemma VotesAfterEntry(t: Ledger, t': Ledger, entry: Key, k: Key)
    requires k.ProposalKey? && entry.NullifierKey? && entry !in t && t'.Keys == t.Keys + {entry}
    ensures |Votes(t', k.createKey, k.index)| == |Votes(t, k.createKey, k.index)|
         + if k == ProposalKey(entry.createKey, entry.index) then 1 else 0
  {
    if k == ProposalKey(entry.createKey, entry.index) {
      assert Votes(t', k.createKey, k.index) == Votes(t, k.createKey, k.index) + {entry};
    } else {
      assert Votes(t', k.createKey, k.index) == Votes(t, k.createKey, k.index);
    }
  }

  /** Counting one approval and adding its entry keeps the accounting. */
  lemma ApproveKeepsOthers(c: Program, t: Ledger, t': Ledger, entry: Key, target: Key, p: Proposal)
    requires Inv(c, t) && entry.NullifierKey? && entry !in t && p.approvalsCount < U32_MAX
    requires target == ProposalKey(entry.createKey, entry.index) && target in t && t[target] == ProposalBody(p)
    requires entry in t'
    requires t' == t[target := ProposalBody(p.(approvalsCount := p.approvalsCount + 1))][entry := t'[entry]]
    requires t'[entry].NullifierBody? && StateOf(t, entry.createKey).Some?
    requires Opens(c.h, t'[entry].opening, StateOf(t, entry.createKey).value.membersRoot,
                   c.ProposalId(entry.createKey, entry.index, p), entry.nullifier)
    ensures Inv(c, t')
  {
    hide Opens, Program.ProposalId, Votes;
    IdIgnoresProgress(c, entry.createKey, entry.index, p, p.(approvalsCount := p.approvalsCount + 1));
    forall k | k in t' ensures GoodAccount(c, t', k) {
      if k.ProposalKey? {
        VotesAfterEntry(t, t', entry, k);
      }
      if k != entry {
        assert GoodAccount(c, t, k);
      }
    }
  }

  lemma ApproveKeeps(c: Program, t: Ledger, ix: Instruction, receipt: seq<byte>)
    requires Inv(c, t) && ix.Approve? && Perform(c, t, ix, receipt).Accepted?
    ensures Inv(c, Perform(c, t, ix, receipt).ledger)
  {
    var t' := Perform(c, t, ix, receipt).ledger;
    var entry, target := NullifierKey(ix.createKey, ix.index, ix.nullifier), ProposalKey(ix.createKey, ix.index);
    var p := ProposalOf(t, ix.createKey, ix.index).value;
    assert GoodAccount(c, t, target);
    ApprovalOpens(c, ix.createKey, ix.index, ix.nullifier, ix.publicInputs, receipt,
                  StateOf(t, ix.createKey).value, p);
    ApproveKeepsOthers(c, t, t', entry, target, p);
  }

  /** Marking a proposal executed at threshold keeps the accounting. */
  lemma ExecuteKeepsOthers(c: Program, t: Ledger, t': Ledger, target: Key, p: Proposal)
    requires Inv(c, t) && target.ProposalKey? && target in t && t[target] == ProposalBody(p)
    requires StateOf(t, target.createKey).Some? && p.approvalsCount >= StateOf(t, target.createKey).value.m
    requires t' == t[target := ProposalBody(p.(executed := true))]
    ensures Inv(c, t')
  {
    hide Opens, Program.ProposalId;
    IdIgnoresProgress(c, target.createKey, target.index, p, p.(executed := true));
    forall k | k in t' ensures GoodAccount(c, t', k) {
      assert GoodAccount(c, t, k);
      assert k.ProposalKey? ==> Votes(t', k.createKey, k.index) == Votes(t, k.createKey, k.index);
    }
  }

  lemma ExecuteKeeps(c: Program, t: Ledger, ix: Instruction, receipt: seq<byte>)
    requires Inv(c, t) && ix.Execute? && Perform(c, t, ix, receipt).Accepted?
    ensures Inv(c, Perform(c, t, ix, receipt).ledger)
  {
    hide Opens, CallFor;
    var target := ProposalKey(ix.createKey, ix.index);
    ExecuteKeepsOthers(c, t, Perform(c, t, ix, receipt).ledger, target, ProposalOf(t, ix.createKey, ix.index).value);
  }

  /** Every accepted instruction keeps the accounting. */
  lemma StepKeepsInv(c: Program, t: Ledger, ix: Instruction, receipt: seq<byte>)
    requires Inv(c, t) && Perform(c, t, ix, receipt).Accepted?
    ensures Inv(c, Perform(c, t, ix, receipt).ledger)
  {
    match ix
    case CreateMultisig(_, _, _, _) => CreateKeeps(c, t, ix, receipt);
    case CreateVault(_) => VaultKeeps(c, t, ix, receipt);
    case Propose(_, _, _, _) => ProposeKeeps(c, t, ix, receipt);
    case Approve(_, _, _, _) => ApproveKeeps(c, t, ix, receipt);
    case Execute(_, _) => ExecuteKeeps(c, t, ix, receipt);
    case Reject(_) =>
  }
}
