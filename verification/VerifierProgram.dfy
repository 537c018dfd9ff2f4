/** The on-chain program: its handlers decode account data, update it and write it back. */
module VerifierProgram {
  import opened ByteStrings
  import opened CoreTypes
  import opened Borsh
  import opened Hashing
  import opened ProposalIds
  import opened Addresses
  import opened ApproveCircuit
  import opened Handlers
  import opened ChainLedger
  import opened Runs

  /** The calls of an accepted step, or why it was refused. */
  function Answer(o: Outcome<Chain>): (r: Result<seq<ChainedCall>, ChainError>) {
    match o
    case Accepted(_, calls) => Ok(calls)
    case Refused(e) => Err(e)
  }

  /** Recomputes the proposal id from the bytes the program already trusts. */
  method RecomputeProposalId(c: Program, createKey: Hash, index: u64, p: Proposal) returns (id: Hash)
    ensures id == c.ProposalId(createKey, index, p)
  {
    hide DeriveProposalId, ChainIdFromU64;
    var chainId := ChainIdFromU64Buffered(DEPLOYMENT_CHAIN_ID);
    id := DeriveProposalIdBuffered(c.h, chainId, c.Addr(StateKey(createKey)), index, p.actionBytes, p.targetProgram);
  }

  /** The word loop over a 32-byte program id. */
  method SplitWords(target: Hash) returns (r: seq<u32>)
    ensures r == ProgramIdWords(target)
  {
    var words := new u32[8](_ => 0);
    for i := 0 to 8
      invariant words[..i] == FirstWords(target, i)
    {
      var off := i * 4;
      Widths();
      EncodesWhatItDecodes(target[off..off + 4]);
      words[i] := FromLittleEndian(target[off..off + 4]);
      assert words[..i + 1] == words[..i] + [WordAt(target, i)];
    }
    r := words[..];
    assert r == words[..8];
  }

  /** Builds the chained call: the words over the target id, and the combined vault seed. */
  method BuildCall(c: Program, createKey: Hash, p: Proposal, vault: PreState) returns (call: ChainedCall)
    requires vault.account == c.Addr(VaultKey(createKey))
    ensures call == CallFor(c, createKey, p, vault.data)
  {
    hide Program.Addr, LittleEndian, FromLittleEndian;
    var words := SplitWords(p.targetProgram);
    var combined := new byte[64](_ => 0);
    var literal := PadSeed32(SEED_VAULT);
    CopyFromSlice(combined, 0, literal);
    CopyFromSlice(combined, 32, createKey);
    assert combined[..] == combined[..64] == Join(literal, createKey);
    var seed := c.h.Digest(combined[..]);
    var vaultAuthorized := vault.(isAuthorized := true);
    return ChainedCall(words, [vaultAuthorized], c.serde(p.actionBytes), [seed]);
  }

  // ---------- Recording a run ----------

  /** The first `n` records of a run are true. */
  ghost predicate TrueSoFar(r: Run, n: nat) {
    n <= |r.txs| && forall q: nat {:trigger r.Happened(q)} :: q < n ==> r.Happened(q)
  }

  /** The chain after `n` transactions depends on the first `n` records only. */
  lemma {:induction false} ChainOfRecords(r: Run, outcome: Outcome<Chain>, n: nat)
    requires n <= |r.outcomes| && n <= |r.txs|
    ensures r.(outcomes := r.outcomes + [outcome]).Chain(n) == r.Chain(n)
    decreases n
  {
    if n == 0 {
    } else {
      ChainOfRecords(r, outcome, n - 1);
    }
  }

  /** One more true record keeps the records true, and the chain moves on accordingly. */
  lemma OneMoreRecord(r: Run, outcome: Outcome<Chain>)
    requires |r.outcomes| < |r.txs| && TrueSoFar(r, |r.outcomes|)
    requires outcome == Step(r.c, r.Chain(|r.outcomes|), r.txs[|r.outcomes|])
    ensures
      var n, longer := |r.outcomes|, r.(outcomes := r.outcomes + [outcome]);
      TrueSoFar(longer, n + 1) && longer.Chain(n + 1) == After(outcome, r.Chain(n))
  {
    hide Step;
    var n, longer := |r.outcomes|, r.(outcomes := r.outcomes + [outcome]);
    ChainOfRecords(r, outcome, n);
    forall q: nat | q < n ensures longer.Happened(q) {
      assert r.Happened(q);
      ChainOfRecords(r, outcome, q);
    }
    assert longer.Happened(n);
  }

  lemma AllTrue(r: Run)
    requires |r.outcomes| == |r.txs| && TrueSoFar(r, |r.txs|)
    ensures r.Genuine()
  {
    hide Step;
  }

  class Verifier {
    const c: Program
    var accounts: Chain

    constructor (c: Program, accounts: Chain)
      ensures this.c == c && this.accounts == accounts
    {
      this.c := c;
      this.accounts := accounts;
    }

    method Store(k: Key, data: seq<byte>)
      modifies this
      ensures accounts == Write(c, old(accounts), k, data)
    {
      accounts := accounts[c.Addr(k) := Account(c.id, data)];
    }

    method CreateMultisig(tx: Transaction) returns (result: Result<seq<ChainedCall>, ChainError>)
      requires tx.ix.CreateMultisig?
      modifies this
      ensures result == Answer(Step(c, old(accounts), tx))
      ensures accounts == After(Step(c, old(accounts), tx), old(accounts))
    {
      hide Program.Addr, EncodeState;
      var state := StateKey(tx.ix.createKey);
      if !NamesItsAccounts(c, tx) { return Err(PdaMismatch); }
      if !Absent(c, accounts, state) { return Err(AccountAlreadyInitialized); }
      var valid := ValidateThreshold(tx.ix.m, tx.ix.n);
      if valid.Err? { return Err(valid.error); }
      var body := MultisigState(tx.ix.createKey, tx.ix.membersRoot, tx.ix.m, tx.ix.n, 0);
      Store(state, EncodeState(body));
      return Ok([]);
    }

    method CreateVault(tx: Transaction) returns (result: Result<seq<ChainedCall>, ChainError>)
      requires tx.ix.CreateVault?
      modifies this
      ensures result == Answer(Step(c, old(accounts), tx))
      ensures accounts == After(Step(c, old(accounts), tx), old(accounts))
    {
      hide Program.Addr, DecodeState;
      var state, vault := StateKey(tx.ix.createKey), VaultKey(tx.ix.createKey);
      if !NamesItsAccounts(c, tx) { return Err(PdaMismatch); }
      if !Owned(c, accounts, state) { return Err(WrongOwner); }
      if !Absent(c, accounts, vault) { return Err(AccountAlreadyInitialized); }
      var body := DecodeState(accounts[c.Addr(state)].data);
      if body.None? { return Err(SerializationError); }
      Store(vault, []);
      return Ok([]);
    }

    method Propose(tx: Transaction) returns (result: Result<seq<ChainedCall>, ChainError>)
      requires tx.ix.Propose?
      modifies this
      ensures result == Answer(Step(c, old(accounts), tx))
      ensures accounts == After(Step(c, old(accounts), tx), old(accounts))
    {
      hide Program.Addr, DecodeState, EncodeState, EncodeProposal;
      var state, proposal := StateKey(tx.ix.createKey), ProposalKey(tx.ix.createKey, tx.ix.index);
      if !NamesItsAccounts(c, tx) { return Err(PdaMismatch); }
      if !Owned(c, accounts, state) { return Err(WrongOwner); }
      if !Absent(c, accounts, proposal) { return Err(AccountAlreadyInitialized); }
      if |tx.ix.actionBytes| > MAX_ACTION_BYTES_LEN { return Err(ActionBytesTooLong); }
      var decoded := DecodeState(accounts[c.Addr(state)].data);
      if decoded.None? { return Err(SerializationError); }
      var body := decoded.value;
      if tx.ix.index != body.proposalCount { return Err(ProposalIdMismatch); }
      if body.proposalCount == U64_MAX { return Err(ArithmeticOverflow); }
      body := body.(proposalCount := body.proposalCount + 1);
      Store(state, EncodeState(body));
      Store(proposal, EncodeProposal(Proposal(tx.ix.actionBytes, tx.ix.targetProgram, 0, false)));
      return Ok([]);
    }

    method Approve(tx: Transaction) returns (result: Result<seq<ChainedCall>, ChainError>)
      requires tx.ix.Approve?
      modifies this
      ensures result == Answer(Step(c, old(accounts), tx))
      ensures accounts == After(Step(c, old(accounts), tx), old(accounts))
    {
      hide Program.Addr, Program.ProposalId, DecodeState, DecodeProposal, EncodeProposal, Journal;
      var ck, index := tx.ix.createKey, tx.ix.index;
      var state, proposal, entry := StateKey(ck), ProposalKey(ck, index), NullifierKey(ck, index, tx.ix.nullifier);
      if !NamesItsAccounts(c, tx) { return Err(PdaMismatch); }
      if !Owned(c, accounts, state) || !Owned(c, accounts, proposal) { return Err(WrongOwner); }
      if !Absent(c, accounts, entry) { return Err(AccountAlreadyInitialized); }
      if |tx.ix.publicInputs| != APPROVE_PUBLIC_INPUTS_LEN { return Err(InvalidReceipt); }
      var inputs := ApprovePublicInputs.FromBytes(tx.ix.publicInputs);
      var decodedState := DecodeState(accounts[c.Addr(state)].data);
      if decodedState.None? { return Err(SerializationError); }
      var decodedProposal := DecodeProposal(accounts[c.Addr(proposal)].data);
      if decodedProposal.None? { return Err(SerializationError); }
      var body := decodedProposal.value;
      if inputs.membersRoot != decodedState.value.membersRoot { return Err(RootMismatch); }
      var recomputed := RecomputeProposalId(c, ck, index, body);
      if inputs.proposalId != recomputed { return Err(ProposalIdMismatch); }
      if inputs.nullifier != tx.ix.nullifier { return Err(InvalidReceipt); }
      if Journal(c.h, tx.receipt) != Some(tx.ix.publicInputs) { return Err(ReceiptNotVerified); }
      if body.approvalsCount == U32_MAX { return Err(ArithmeticOverflow); }
      body := body.(approvalsCount := body.approvalsCount + 1);
      Store(proposal, EncodeProposal(body));
      Store(entry, []);
      return Ok([]);
    }

    method Execute(tx: Transaction) returns (result: Result<seq<ChainedCall>, ChainError>)
      requires tx.ix.Execute?
      modifies this
      ensures result == Answer(Step(c, old(accounts), tx))
      ensures accounts == After(Step(c, old(accounts), tx), old(accounts))
    {
      hide Program.Addr, DecodeState, DecodeProposal, EncodeProposal, CallFor;
      var ck := tx.ix.createKey;
      var state, proposal, vault := StateKey(ck), ProposalKey(ck, tx.ix.index), VaultKey(ck);
      if !NamesItsAccounts(c, tx) { return Err(PdaMismatch); }
      if !Owned(c, accounts, state) || !Owned(c, accounts, proposal) || !Owned(c, accounts, vault) {
        return Err(WrongOwner);
      }
      var decodedState := DecodeState(accounts[c.Addr(state)].data);
      if decodedState.None? { return Err(SerializationError); }
      var decodedProposal := DecodeProposal(accounts[c.Addr(proposal)].data);
      if decodedProposal.None? { return Err(SerializationError); }
      var body := decodedProposal.value;
      if body.executed { return Err(AlreadyExecuted); }
      if body.approvalsCount < decodedState.value.m { return Err(ThresholdNotMet); }
      var vaultState := PreState(c.Addr(vault), accounts[c.Addr(vault)].data, false);
      body := body.(executed := true);
      Store(proposal, EncodeProposal(body));
      var call := BuildCall(c, ck, body, vaultState);
      return Ok([call]);
    }

    method Reject(tx: Transaction) returns (result: Result<seq<ChainedCall>, ChainError>)
      requires tx.ix.Reject?
      ensures result == Answer(Step(c, accounts, tx)) && accounts == After(Step(c, accounts, tx), accounts)
    {
      if !NamesItsAccounts(c, tx) { return Err(PdaMismatch); }
      if !Owned(c, accounts, StateKey(tx.ix.createKey)) { return Err(WrongOwner); }
      return Ok([]);
    }

    /** Hands a transaction to the handler of its instruction. */
    method Dispatch(tx: Transaction) returns (result: Result<seq<ChainedCall>, ChainError>)
      modifies this
      ensures result == Answer(Step(c, old(accounts), tx))
      ensures accounts == After(Step(c, old(accounts), tx), old(accounts))
    {
      hide Step;
      match tx.ix
      case CreateMultisig(_, _, _, _) => result := CreateMultisig(tx);
      case CreateVault(_) => result := CreateVault(tx);
      case Propose(_, _, _, _) => result := Propose(tx);
      case Approve(_, _, _, _) => result := Approve(tx);
      case Execute(_, _) => result := Execute(tx);
      case Reject(_) => result := Reject(tx);
    }

    /** Handles transactions one after the other and records what became of each: a genuine run. */
    method Process(txs: seq<Transaction>) returns (run: Run)
      modifies this
      ensures run.c == c && run.genesis == old(accounts) && run.txs == txs
      ensures run.Genuine() && accounts == run.Chain(|txs|)
    {
      hide Step, Run.Genuine;
      var genesis, outcomes := accounts, [];
      for i := 0 to |txs|
        invariant |outcomes| == i
        invariant TrueSoFar(Run(c, genesis, txs, outcomes), i)
        invariant accounts == Run(c, genesis, txs, outcomes).Chain(i)
      {
        ghost var earlier := Run(c, genesis, txs, outcomes);
        var result := Dispatch(txs[i]);
        var outcome := match result case Ok(calls) => Accepted(accounts, calls) case Err(e) => Refused(e);
        OneMoreRecord(earlier, outcome);
        outcomes := outcomes + [outcome];
      }
      run := Run(c, genesis, txs, outcomes);
      AllTrue(run);
    }
  }
}
