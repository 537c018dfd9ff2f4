/** What each instruction handler decides once its accounts are decoded. */
module Handlers {
  import opened ByteStrings
  import opened CoreTypes
  import opened Hashing
  import opened ProposalIds
  import opened Addresses
  import opened ApproveCircuit

  /** The deployed verifier program: its hash function, its id and the word encoding of call payloads. */
  datatype Program = Program(h: Hasher, id: Hash, serde: seq<byte> -> seq<u32>) {
    function Addr(k: Key): (r: Hash) {
      Address(h, id, k)
    }

    /** The proposal id the program recomputes for a stored proposal. */
    function ProposalId(createKey: Hash, index: u64, p: Proposal): (r: Hash) {
      DeriveProposalId(h, ChainIdFromU64(DEPLOYMENT_CHAIN_ID), Addr(StateKey(createKey)), index,
                       p.actionBytes, p.targetProgram)
    }
  }

  /**
   * A submitted transaction: the instruction, the derived accounts it names, and the guest input of
   * the approval receipt the host attached to discharge `env::verify`.
   */
  datatype Transaction = Transaction(ix: Instruction, accounts: seq<Hash>, receipt: seq<byte>)

  /** An account handed to the callee with its data, and whether the callee may spend from it. */
  datatype PreState = PreState(account: Hash, data: seq<byte>, isAuthorized: bool)

  /** The call `execute` emits. */
  datatype ChainedCall = ChainedCall(programId: seq<u32>, preStates: seq<PreState>, instructionData: seq<u32>,
                                     pdaSeeds: seq<Hash>)

  /** A step either replaces the ledger and emits calls, or is refused. */
  datatype Outcome<+L> = Accepted(ledger: L, calls: seq<ChainedCall>) | Refused(error: ChainError)

  /** The ledger after a step: a refused one leaves it unchanged. */
  function After<L>(o: Outcome<L>, before: L): (r: L) {
    if o.Accepted? then o.ledger else before
  }

  /** The accounts an instruction names, signers aside, in the order of its handler. */
  function Keys(ix: Instruction): (r: seq<Key>) {
    match ix
    case CreateMultisig(createKey, _, _, _) => [StateKey(createKey)]
    case CreateVault(createKey) => [StateKey(createKey), VaultKey(createKey)]
    case Propose(createKey, index, _, _) => [StateKey(createKey), ProposalKey(createKey, index)]
    case Approve(createKey, index, nullifier, _) =>
      [StateKey(createKey), ProposalKey(createKey, index), NullifierKey(createKey, index, nullifier)]
    case Execute(createKey, index) =>
      [StateKey(createKey), ProposalKey(createKey, index), VaultKey(createKey)]
    case Reject(createKey) => [StateKey(createKey)]
  }

  function CheckCreate(createKey: Hash, membersRoot: Hash, m: byte, n: u32): (r: Result<MultisigState, ChainError>)
    ensures r.Ok? <==> ValidThreshold(m, n)
  {
    match ValidateThreshold(m, n)
    case Err(e) => Err(e)
    case Ok(_) => Ok(MultisigState(createKey, membersRoot, m, n, 0))
  }

  function CheckPropose(state: Option<MultisigState>, index: u64, actionBytes: ByteVec)
    : (r: Result<MultisigState, ChainError>)
  {
    if |actionBytes| > MAX_ACTION_BYTES_LEN then Err(ActionBytesTooLong)
    else if state.None? then Err(SerializationError)
    else if index != state.value.proposalCount then Err(ProposalIdMismatch)
    else if state.value.proposalCount == U64_MAX then Err(ArithmeticOverflow)
    else Ok(state.value.(proposalCount := state.value.proposalCount + 1))
  }

  function CheckApprove(c: Program, createKey: Hash, index: u64, nullifier: Hash, publicInputs: ByteVec,
                        receipt: seq<byte>, state: Option<MultisigState>, proposal: Option<Proposal>)
    : (r: Result<Proposal, ChainError>)
  {
    if |publicInputs| != APPROVE_PUBLIC_INPUTS_LEN then Err(InvalidReceipt)
    else if state.None? || proposal.None? then Err(SerializationError)
    else
      var inputs := ApprovePublicInputs.FromBytes(publicInputs);
      if inputs.membersRoot != state.value.membersRoot then Err(RootMismatch)
      else if inputs.proposalId != c.ProposalId(createKey, index, proposal.value) then Err(ProposalIdMismatch)
      else if inputs.nullifier != nullifier then Err(InvalidReceipt)
      else if Journal(c.h, receipt) != Some(publicInputs) then Err(ReceiptNotVerified)
      else if proposal.value.approvalsCount == U32_MAX then Err(ArithmeticOverflow)
      else Ok(proposal.value.(approvalsCount := proposal.value.approvalsCount + 1))
  }

  function CheckExecute(state: Option<MultisigState>, proposal: Option<Proposal>): (r: Result<Proposal, ChainError>) {
    if state.None? || proposal.None? then Err(SerializationError)
    else if proposal.value.executed then Err(AlreadyExecuted)
    else if proposal.value.approvalsCount < state.value.m then Err(ThresholdNotMet)
    else Ok(proposal.value.(executed := true))
  }

  function WordAt(target: Hash, i: nat): (r: u32)
    requires i < 8
    ensures LittleEndian(r, 4) == target[4 * i..4 * i + 4]
  {
    var word := target[4 * i..4 * i + 4];
    Widths();
    EncodesWhatItDecodes(word);
    FromLittleEndian(word)
  }

  function FirstWords(target: Hash, n: nat): (r: seq<u32>)
    requires n <= 8
    ensures |r| == n
    decreases n, target
  {
    if n == 0 then [] else FirstWords(target, n - 1) + [WordAt(target, n - 1)]
  }

  /** The eight little-endian words of a 32-byte program id. */
  function ProgramIdWords(target: Hash): (r: seq<u32>) {
    FirstWords(target, 8)
  }

  /** The bytes of a word vector. */
  function WordBytes(words: seq<u32>): (r: seq<byte>)
    ensures |r| == 4 * |words|
  {
    if words == [] then [] else WordBytes(words[..|words| - 1]) + LittleEndian(words[|words| - 1], 4)
  }

  lemma {:induction false} WordsOfPrefix(target: Hash, n: nat)
    requires n <= 8
    ensures WordBytes(FirstWords(target, n)) == target[..4 * n]
    decreases n
  {
    if n == 0 {
    } else {
      WordsOfPrefix(target, n - 1);
      var words := FirstWords(target, n);
      assert words[..|words| - 1] == FirstWords(target, n - 1);
      assert target[..4 * n] == target[..4 * (n - 1)] + target[4 * (n - 1)..4 * (n - 1) + 4];
    }
  }

  /** The word form of a program id loses nothing: its bytes are the id again. */
  lemma ProgramIdRoundTrip(target: Hash)
    ensures WordBytes(ProgramIdWords(target)) == target
  {
    WordsOfPrefix(target, 8);
    assert target[..32] == target;
  }

  /** The combined seed `execute` recomputes for the vault. */
  function VaultSeed(c: Program, createKey: Hash): (r: Hash) {
    c.h.Digest(Join(PadSeed32(SEED_VAULT), createKey))
  }

  function CallFor(c: Program, createKey: Hash, p: Proposal, vaultData: seq<byte>): (r: ChainedCall) {
    ChainedCall(ProgramIdWords(p.targetProgram), [PreState(c.Addr(VaultKey(createKey)), vaultData, true)],
                c.serde(p.actionBytes), [VaultSeed(c, createKey)])
  }

  /** The seed handed to the callee is one from which the runtime derives the vault's own address. */
  lemma VaultSeedAuthorizesVault(c: Program, createKey: Hash)
    ensures ForPublicPda(c.h, c.id, VaultSeed(c, createKey)) == c.Addr(VaultKey(createKey))
  {
    FlattenTwo(PadSeed32(SEED_VAULT), createKey);
  }

  /** What an accepted approval has established. */
  lemma ApprovalOpens(c: Program, createKey: Hash, index: u64, nullifier: Hash, publicInputs: ByteVec,
                      receipt: seq<byte>, state: MultisigState, proposal: Proposal)
    requires CheckApprove(c, createKey, index, nullifier, publicInputs, receipt, Some(state), Some(proposal)).Ok?
    ensures |receipt| >= APPROVE_WITNESS_LEN
    ensures Opens(c.h, WitnessOf(receipt), state.membersRoot, c.ProposalId(createKey, index, proposal), nullifier)
    ensures publicInputs
         == ApprovePublicInputs(state.membersRoot, c.ProposalId(createKey, index, proposal), nullifier).ToBytes()
  {
    var inputs := ApprovePublicInputs.FromBytes(publicInputs);
    PublicInputsBijection(inputs, publicInputs);
    JournalIsSound(c.h, receipt, inputs);
  }
}
