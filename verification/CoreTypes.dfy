/** Account bodies, instructions and error codes shared by the SDK and the on-chain program. */
module CoreTypes {
  import opened ByteStrings

  datatype Option<+T> = None | Some(value: T)

  datatype Result<+T, +E> = Ok(value: T) | Err(error: E)

  /** A byte vector Borsh can length-prefix. */
  type ByteVec = b: seq<byte> | |b| <= U32_MAX

  const MAX_ACTION_BYTES_LEN := 4096

  datatype MultisigState = MultisigState(createKey: Hash, membersRoot: Hash, m: byte, n: u32, proposalCount: u64)

  datatype Proposal = Proposal(actionBytes: ByteVec, targetProgram: Hash, approvalsCount: u32, executed: bool)

  datatype Instruction =
    | CreateMultisig(createKey: Hash, membersRoot: Hash, m: byte, n: u32)
    | Propose(createKey: Hash, index: u64, actionBytes: ByteVec, targetProgram: Hash)
    | Approve(createKey: Hash, index: u64, nullifier: Hash, publicInputs: ByteVec)
    | Execute(createKey: Hash, index: u64)
    | CreateVault(createKey: Hash)
    | Reject(createKey: Hash)

  /** Why a transaction is refused: a guard of the framework, or a code of the program's own catalog. */
  datatype ChainError =
    | PdaMismatch
    | AccountAlreadyInitialized
    | WrongOwner
    | ActionBytesTooLong
    | InvalidThreshold
    | SerializationError
    | ArithmeticOverflow
    | InvalidReceipt
    | RootMismatch
    | ProposalIdMismatch
    | ThresholdNotMet
    | AlreadyExecuted
    | ReceiptNotVerified

  predicate ValidThreshold(m: byte, n: u32) {
    1 <= m <= n
  }

  /** `validate_threshold`. */
  function ValidateThreshold(m: byte, n: u32): (r: Result<(), ChainError>)
    ensures r.Ok? <==> ValidThreshold(m, n)
  {
    if m == 0 || n == 0 || m > n then Err(InvalidThreshold) else Ok(())
  }
}
