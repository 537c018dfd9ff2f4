/** When each instruction is accepted, why it is refused, and what it writes: exact conditions on the chain. */
module Acceptance {
  import opened ByteStrings
  import opened CoreTypes
  import opened Borsh
  import opened Addresses
  import opened ApproveCircuit
  import opened Handlers
  import opened ChainLedger

  /** What the framework's guards find at an address. */
  ghost predicate OwnedAt(c: Program, l: Chain, a: Hash) {
    a in l && l[a].owner == c.id
  }

  /** The state account of `createKey` is the program's and decodes to `s`. */
  ghost predicate HasState(c: Program, l: Chain, createKey: Hash, s: MultisigState) {
    OwnedAt(c, l, c.Addr(StateKey(createKey))) && DecodeState(l[c.Addr(StateKey(createKey))].data) == Some(s)
  }

  ghost predicate HasProposal(c: Program, l: Chain, createKey: Hash, index: u64, p: Proposal) {
    && OwnedAt(c, l, c.Addr(ProposalKey(createKey, index)))
    && DecodeProposal(l[c.Addr(ProposalKey(createKey, index))].data) == Some(p)
  }

  /** From `l` to `l'` only the addresses in `written` change. */
  ghost predicate OnlyChanges(l: Chain, l': Chain, written: set<Hash>) {
    && l'.Keys == l.Keys + written
    && forall a :: a in l && a !in written ==> l'[a] == l[a]
  }

  lemma {:induction false} Located(c: Program, keys: seq<Key>)
    ensures |Locate(c, keys)| == |keys| && forall k :: 0 <= k < |keys| ==> Locate(c, keys)[k] == c.Addr(keys[k])
  {
    hide Program.Addr;
    if keys == [] {
    } else {
      Located(c, keys[..|keys| - 1]);
    }
  }

  /** The `pda` guards, written out: one derived address per account, in the handler's order. */
  lemma NamesExactly(c: Program, tx: Transaction)
    ensures NamesItsAccounts(c, tx) <==>
      match tx.ix
      case CreateMultisig(ck, _, _, _) => tx.accounts == [c.Addr(StateKey(ck))]
      case CreateVault(ck) => tx.accounts == [c.Addr(StateKey(ck)), c.Addr(VaultKey(ck))]
      case Propose(ck, i, _, _) => tx.accounts == [c.Addr(StateKey(ck)), c.Addr(ProposalKey(ck, i))]
      case Approve(ck, i, nf, _) =>
        tx.accounts == [c.Addr(StateKey(ck)), c.Addr(ProposalKey(ck, i)), c.Addr(NullifierKey(ck, i, nf))]
      case Execute(ck, i) =>
        tx.accounts == [c.Addr(StateKey(ck)), c.Addr(ProposalKey(ck, i)), c.Addr(VaultKey(ck))]
      case Reject(ck) => tx.accounts == [c.Addr(StateKey(ck))]
  {
    hide Program.Addr, Locate;
    Located(c, Keys(tx.ix));
  }

  // ---------- create_multisig ----------

  /**
   * `create_multisig` is accepted exactly when it names its account, nothing is there yet and
   * `0 < m <= n`. It writes one account: the given key, root, `m` and `n`, and no proposals.
   */
  lemma CreateExactly(c: Program, l: Chain, tx: Transaction)
    requires tx.ix.CreateMultisig?
    ensures
      var o, a := Step(c, l, tx), c.Addr(StateKey(tx.ix.createKey));
      var named, m, n := tx.accounts == [a], tx.ix.m, tx.ix.n;
      && (o.Accepted? <==> named && a !in l && 0 < m && m <= n)
      && (!named ==> o == Refused(PdaMismatch))
      && (named && a in l ==> o == Refused(AccountAlreadyInitialized))
      && (named && a !in l && (m == 0 || n == 0 || m > n) ==> o == Refused(InvalidThreshold))
      && (o.Accepted? ==>
            && o.calls == [] && OnlyChanges(l, o.ledger, {a})
            && HasState(c, o.ledger, tx.ix.createKey, MultisigState(tx.ix.createKey, tx.ix.membersRoot, m, n, 0)))
  {
    hide Program.Addr, EncodeState, DecodeState;
    NamesExactly(c, tx);
    var s := MultisigState(tx.ix.createKey, tx.ix.membersRoot, tx.ix.m, tx.ix.n, 0);
    StateCodec(EncodeState(s), s);
  }

  // ---------- create_vault ----------

  /**
   * `create_vault` is accepted exactly when it names its accounts, the state account is the program's
   * and decodes, and no vault is there. It writes one account, with no body.
   */
  lemma VaultExactly(c: Program, l: Chain, tx: Transaction)
    requires tx.ix.CreateVault?
    ensures
      var o, ck := Step(c, l, tx), tx.ix.createKey;
      var state, vault := c.Addr(StateKey(ck)), c.Addr(VaultKey(ck));
      var named := tx.accounts == [state, vault];
      && (o.Accepted? <==> named && vault !in l && exists s :: HasState(c, l, ck, s))
      && (!named ==> o == Refused(PdaMismatch))
      && (named && !OwnedAt(c, l, state) ==> o == Refused(WrongOwner))
      && (named && OwnedAt(c, l, state) && vault in l ==> o == Refused(AccountAlreadyInitialized))
      && (named && OwnedAt(c, l, state) && vault !in l && DecodeState(l[state].data) == None ==>
            o == Refused(SerializationError))
      && (o.Accepted? ==> o == Accepted(l[vault := Account(c.id, [])], []))
  {
    hide Program.Addr, DecodeState, Locate;
    NamesExactly(c, tx);
    var ck := tx.ix.createKey;
    if Step(c, l, tx).Accepted? {
      assert HasState(c, l, ck, StateAt(c, l, ck).value);
    }
  }

  // ---------- propose ----------

  /**
   * `propose` on an instance is accepted exactly when it names its accounts, the proposal address is
   * free, the action is at most 4096 bytes, the index is the proposal count, and the count can grow. It
   * raises the count by one and stores the given action and target with no approvals, not executed.
   */
  lemma ProposeExactly(c: Program, l: Chain, tx: Transaction, s: MultisigState)
    requires tx.ix.Propose? && HasState(c, l, tx.ix.createKey, s)
    ensures
      var o, ck, i := Step(c, l, tx), tx.ix.createKey, tx.ix.index;
      var state, proposal := c.Addr(StateKey(ck)), c.Addr(ProposalKey(ck, i));
      var named := tx.accounts == [state, proposal];
      && (o.Accepted? <==>
            && named && proposal !in l && |tx.ix.actionBytes| <= 4096
            && i == s.proposalCount && s.proposalCount < 0xFFFF_FFFF_FFFF_FFFF)
      && (!named ==> o == Refused(PdaMismatch))
      && (named && proposal in l ==> o == Refused(AccountAlreadyInitialized))
      && (named && proposal !in l ==>
            && (|tx.ix.actionBytes| > 4096 ==> o == Refused(ActionBytesTooLong))
            && (|tx.ix.actionBytes| <= 4096 && i != s.proposalCount ==> o == Refused(ProposalIdMismatch))
            && (|tx.ix.actionBytes| <= 4096 && i == s.proposalCount == 0xFFFF_FFFF_FFFF_FFFF ==>
                  o == Refused(ArithmeticOverflow)))
      && (o.Accepted? ==>
            && o.calls == [] && OnlyChanges(l, o.ledger, {state, proposal})
            && HasState(c, o.ledger, ck, s.(proposalCount := i + 1))
            && HasProposal(c, o.ledger, ck, i, Proposal(tx.ix.actionBytes, tx.ix.targetProgram, 0, false)))
  {
    hide Program.Addr, DecodeState, EncodeState, DecodeProposal, EncodeProposal, Locate;
    NamesExactly(c, tx);
    var p := Proposal(tx.ix.actionBytes, tx.ix.targetProgram, 0, false);
    ProposalCodec(EncodeProposal(p), p);
    if s.proposalCount < U64_MAX {
      var raised := s.(proposalCount := s.proposalCount + 1);
      StateCodec(EncodeState(raised), raised);
    }
  }

  // ---------- approve ----------

  /** Why public inputs and a receipt are refused for a proposal, in the handler's order. */
  ghost function ApproveError(c: Program, tx: Transaction, s: MultisigState, p: Proposal): (e: Option<ChainError>)
    requires tx.ix.Approve?
  {
    var bytes := tx.ix.publicInputs;
    if |bytes| != 96 then Some(InvalidReceipt)
    else if bytes[..32] != s.membersRoot then Some(RootMismatch)
    else if bytes[32..64] != c.ProposalId(tx.ix.createKey, tx.ix.index, p) then Some(ProposalIdMismatch)
    else if bytes[64..] != tx.ix.nullifier then Some(InvalidReceipt)
    else if Journal(c.h, tx.receipt) != Some(bytes) then Some(ReceiptNotVerified)
    else if p.approvalsCount == 0xFFFF_FFFF then Some(ArithmeticOverflow)
    else None
  }

  lemma ThreeParts(bytes: seq<byte>, a: Hash, b: Hash, d: Hash)
    ensures bytes == a + b + d <==> |bytes| == 96 && bytes[..32] == a && bytes[32..64] == b && bytes[64..] == d
  {
    assert |bytes| == 96 ==> bytes == bytes[..32] + bytes[32..64] + bytes[64..];
  }

  /**
   * `approve` on a proposal, executed or not, is accepted exactly when it names its accounts, its
   * nullifier is fresh, its public inputs are the root, the recomputed id and the nullifier, its receipt
   * commits them, and the count has room. It raises the count by one, keeps the executed flag, so that an
   * executed proposal goes on collecting approvals, and creates the empty nullifier entry.
   */
  lemma ApproveExactly(c: Program, l: Chain, tx: Transaction, s: MultisigState, p: Proposal)
    requires tx.ix.Approve? && HasState(c, l, tx.ix.createKey, s) && HasProposal(c, l, tx.ix.createKey, tx.ix.index, p)
    ensures
      var o, ck, i := Step(c, l, tx), tx.ix.createKey, tx.ix.index;
      var proposal, entry := c.Addr(ProposalKey(ck, i)), c.Addr(NullifierKey(ck, i, tx.ix.nullifier));
      var named := tx.accounts == [c.Addr(StateKey(ck)), proposal, entry];
      && (o.Accepted? <==>
            && named && entry !in l
            && tx.ix.publicInputs == s.membersRoot + c.ProposalId(ck, i, p) + tx.ix.nullifier
            && Journal(c.h, tx.receipt) == Some(tx.ix.publicInputs)
            && p.approvalsCount < 0xFFFF_FFFF)
      && (!named ==> o == Refused(PdaMismatch))
      && (named && entry in l ==> o == Refused(AccountAlreadyInitialized))
      && (named && entry !in l && ApproveError(c, tx, s, p).Some? ==> o == Refused(ApproveError(c, tx, s, p).value))
      && (o.Accepted? ==>
            && o.calls == [] && OnlyChanges(l, o.ledger, {proposal, entry})
            && o.ledger[entry] == Account(c.id, [])
            && HasProposal(c, o.ledger, ck, i, p.(approvalsCount := p.approvalsCount + 1)))
  {
    hide Journal, Program.ProposalId, Program.Addr, Locate, DecodeState, DecodeProposal, EncodeProposal;
    NamesExactly(c, tx);
    ThreeParts(tx.ix.publicInputs, s.membersRoot, c.ProposalId(tx.ix.createKey, tx.ix.index, p), tx.ix.nullifier);
    if p.approvalsCount < U32_MAX {
      var counted := p.(approvalsCount := p.approvalsCount + 1);
      ProposalCodec(EncodeProposal(counted), counted);
    }
  }

  // ---------- execute ----------

  /** The call an execution emits, by what its parts mean. */
  ghost predicate CallsTarget(c: Program, createKey: Hash, p: Proposal, vaultData: seq<byte>, call: ChainedCall) {
    && WordBytes(call.programId) == p.targetProgram
    && call.instructionData == c.serde(p.actionBytes)
    && call.preStates == [PreState(c.Addr(VaultKey(createKey)), vaultData, true)]
    && |call.pdaSeeds| == 1 && ForPublicPda(c.h, c.id, call.pdaSeeds[0]) == c.Addr(VaultKey(createKey))
  }

  /**
   * `execute` on a proposal with a vault is accepted exactly when it names its accounts, the proposal is
   * not executed and has at least `m` approvals. It sets the flag, changes nothing else, and emits one
   * call with the proposed action and target.
   */
  lemma ExecuteExactly(c: Program, l: Chain, tx: Transaction, s: MultisigState, p: Proposal)
    requires tx.ix.Execute? && HasState(c, l, tx.ix.createKey, s) && HasProposal(c, l, tx.ix.createKey, tx.ix.index, p)
    ensures
      var o, ck, i := Step(c, l, tx), tx.ix.createKey, tx.ix.index;
      var proposal, vault := c.Addr(ProposalKey(ck, i)), c.Addr(VaultKey(ck));
      var named := tx.accounts == [c.Addr(StateKey(ck)), proposal, vault];
      && (o.Accepted? <==> named && OwnedAt(c, l, vault) && !p.executed && p.approvalsCount >= s.m)
      && (!named ==> o == Refused(PdaMismatch))
      && (named && !OwnedAt(c, l, vault) ==> o == Refused(WrongOwner))
      && (named && OwnedAt(c, l, vault) && p.executed ==> o == Refused(AlreadyExecuted))
      && (named && OwnedAt(c, l, vault) && !p.executed && p.approvalsCount < s.m ==> o == Refused(ThresholdNotMet))
      && (o.Accepted? ==>
            && OnlyChanges(l, o.ledger, {proposal}) && HasProposal(c, o.ledger, ck, i, p.(executed := true))
            && |o.calls| == 1 && CallsTarget(c, ck, p, l[vault].data, o.calls[0]))
  {
    hide Program.Addr, Locate, DecodeState, DecodeProposal, EncodeProposal, ProgramIdWords, VaultSeed, WordBytes;
    NamesExactly(c, tx);
    var fired := p.(executed := true);
    ProposalCodec(EncodeProposal(fired), fired);
    ProgramIdRoundTrip(p.targetProgram);
    VaultSeedAuthorizesVault(c, tx.ix.createKey);
  }

  // ---------- Accounts that are not the program's, or do not decode ----------

  /** The accounts an instruction works on must be the program's; `reject` then does nothing. */
  lemma OwnersExactly(c: Program, l: Chain, tx: Transaction)
    requires NamesItsAccounts(c, tx) && !tx.ix.CreateMultisig?
    ensures
      var o, state := Step(c, l, tx), c.Addr(StateKey(tx.ix.createKey));
      && (!OwnedAt(c, l, state) ==> o == Refused(WrongOwner))
      && ((tx.ix.Approve? || tx.ix.Execute?) && !OwnedAt(c, l, c.Addr(ProposalKey(tx.ix.createKey, tx.ix.index))) ==>
            o == Refused(WrongOwner))
      && (tx.ix.Reject? && OwnedAt(c, l, state) ==> o == Accepted(l, []))
  {
    hide Program.Addr, Locate, DecodeState, DecodeProposal, CheckApprove, CheckPropose, CheckExecute, CallFor;
  }

  /** Every guard on the accounts of an instruction on an instance passes. */
  ghost predicate GuardsPass(c: Program, l: Chain, tx: Transaction) {
    var ck := tx.ix.createKey;
    && NamesItsAccounts(c, tx) && OwnedAt(c, l, c.Addr(StateKey(ck)))
    && match tx.ix
       case CreateVault(_) => c.Addr(VaultKey(ck)) !in l
       case Propose(_, i, _, _) => c.Addr(ProposalKey(ck, i)) !in l
       case Approve(_, i, nf, _) =>
         OwnedAt(c, l, c.Addr(ProposalKey(ck, i))) && c.Addr(NullifierKey(ck, i, nf)) !in l
       case Execute(_, i) => OwnedAt(c, l, c.Addr(ProposalKey(ck, i))) && OwnedAt(c, l, c.Addr(VaultKey(ck)))
       case CreateMultisig(_, _, _, _) => false
       case Reject(_) => false
  }

  /** Undecodable accounts are refused as such, unless the arguments are malformed already. */
  lemma UndecodableExactly(c: Program, l: Chain, tx: Transaction)
    requires GuardsPass(c, l, tx)
    requires DecodeState(l[c.Addr(StateKey(tx.ix.createKey))].data) == None
          || ((tx.ix.Approve? || tx.ix.Execute?)
              && DecodeProposal(l[c.Addr(ProposalKey(tx.ix.createKey, tx.ix.index))].data) == None)
    ensures Step(c, l, tx)
         == Refused(if tx.ix.Propose? && |tx.ix.actionBytes| > 4096 then ActionBytesTooLong
                    else if tx.ix.Approve? && |tx.ix.publicInputs| != 96 then InvalidReceipt
                    else SerializationError)
  {
    hide Program.Addr, Program.ProposalId, Journal, Locate, DecodeState, DecodeProposal, CallFor;
  }
}
