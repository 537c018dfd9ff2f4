/** The SDK's resumable approval session: a status machine with reorg demotion. */
module Sessions {
  import opened ByteStrings
  import opened CoreTypes

  datatype Status = Drafted | Proving | Proved | Submitted | Confirmed | Failed {
    predicate HasReceipt() { Proved? || Submitted? || Confirmed? }
  }

  datatype SessionError = StatusMismatch | MissingSubmissionBlock | Overflow

  /** The record a session persists, its timestamp aside. */
  datatype Session = Session(
    instancePda: Hash, proposalId: Hash, memberCommitment: Hash,
    status: Status, receipt: Option<seq<byte>>, publicInputs: Option<seq<byte>>, nullifier: Option<Hash>,
    submissionBlock: Option<u64>, errorMessage: Option<string>, retryCount: u32)

  /** The calls a client can make on a session. */
  datatype Call =
    | MarkProving
    | MarkProved(bytes: seq<byte>)
    | MarkSubmitted(block: u64)
    | DemoteOnReorg(current: u64)
    | ForceConfirm
    | TryConfirm(now: u64, blocks: u64)
    | MarkFailed(message: string)

  /** `Ok(true)` unless `try_confirm` reports that finality is still pending. */
  type Reply = Result<bool, SessionError>

  function NewSession(instancePda: Hash, proposalId: Hash, memberCommitment: Hash,
                      publicInputs: seq<byte>, nullifier: Hash): (r: Session) {
    Session(instancePda, proposalId, memberCommitment, Drafted, None, Some(publicInputs), Some(nullifier),
            None, None, 0)
  }

  /** The forward steps of the status machine. */
  predicate Allowed(from: Status, to: Status) {
    || (from == Drafted && to == Proving)
    || (from == Proving && to == Proved)
    || (from == Proved && to == Submitted)
    || (from == Submitted && to == Confirmed)
    || (from == Proved && to == Proving)
  }

  function TransitionTo(s: Session, to: Status): (r: (Session, Reply)) {
    if Allowed(s.status, to) then (s.(status := to), Ok(true)) else (s, Err(StatusMismatch))
  }

  /** The retry counter wraps, as in a release build. */
  function Demoted(s: Session): (r: Session) {
    s.(status := Proved, submissionBlock := None, retryCount := (s.retryCount + 1) % 0x1_0000_0000)
  }

  /** One call: the new record and the reply. */
  function Apply(s: Session, call: Call): (r: (Session, Reply)) {
    match call
    case MarkProving => TransitionTo(s, Proving)
    case MarkProved(bytes) =>
      var (s', reply) := TransitionTo(s, Proved);
      if reply.Err? then (s, reply) else (s'.(receipt := Some(bytes)), reply)
    case MarkSubmitted(block) =>
      var (s', reply) := TransitionTo(s, Submitted);
      if reply.Err? then (s, reply) else (s'.(submissionBlock := Some(block)), reply)
    case DemoteOnReorg(current) =>
      if s.submissionBlock.Some? && current < s.submissionBlock.value then (Demoted(s), Ok(true)) else (s, Ok(true))
    case ForceConfirm => TransitionTo(s, Confirmed)
    case TryConfirm(now, blocks) =>
      if s.status != Submitted then (s, Err(StatusMismatch))
      else if s.submissionBlock.None? then (s, Err(MissingSubmissionBlock))
      else if s.submissionBlock.value + blocks > U64_MAX then (s, Err(Overflow))
      else if now < s.submissionBlock.value + blocks then (s, Ok(false))
      else TransitionTo(s, Confirmed)
    case MarkFailed(message) => (s.(status := Failed, errorMessage := Some(message)), Ok(true))
  }

  // ---------- The session object ----------

  class ApprovalSession {
    const instancePda: Hash
    const proposalId: Hash
    const memberCommitment: Hash
    const publicInputs: Option<seq<byte>>
    const nullifier: Option<Hash>
    var status: Status
    var receipt: Option<seq<byte>>
    var submissionBlock: Option<u64>
    var errorMessage: Option<string>
    var retryCount: u32

    function Record(): (r: Session)
      reads this
    {
      Session(instancePda, proposalId, memberCommitment, status, receipt, publicInputs, nullifier,
              submissionBlock, errorMessage, retryCount)
    }

    constructor (instancePda: Hash, proposalId: Hash, memberCommitment: Hash, publicInputs: seq<byte>, nullifier: Hash)
      ensures Record() == NewSession(instancePda, proposalId, memberCommitment, publicInputs, nullifier)
    {
      this.instancePda, this.proposalId, this.memberCommitment := instancePda, proposalId, memberCommitment;
      this.publicInputs, this.nullifier := Some(publicInputs), Some(nullifier);
      status, receipt, submissionBlock, errorMessage, retryCount := Drafted, None, None, None, 0;
    }

    method Transition(to: Status) returns (reply: Reply)
      modifies `status
      ensures (Record(), reply) == TransitionTo(old(Record()), to)
    {
      if !Allowed(status, to) {
        return Err(StatusMismatch);
      }
      status := to;
      return Ok(true);
    }

    method MarkProving() returns (reply: Reply)
      modifies this
      ensures (Record(), reply) == Apply(old(Record()), Call.MarkProving)
    {
      reply := Transition(Proving);
    }

    method MarkProved(bytes: seq<byte>) returns (reply: Reply)
      modifies this
      ensures (Record(), reply) == Apply(old(Record()), Call.MarkProved(bytes))
    {
      reply := Transition(Proved);
      if reply.Ok? {
        receipt := Some(bytes);
      }
    }

    method MarkSubmitted(block: u64) returns (reply: Reply)
      modifies this
      ensures (Record(), reply) == Apply(old(Record()), Call.MarkSubmitted(block))
    {
      reply := Transition(Submitted);
      if reply.Ok? {
        submissionBlock := Some(block);
      }
    }

    method DemoteOnReorg(current: u64)
      modifies this
      ensures Record() == Apply(old(Record()), Call.DemoteOnReorg(current)).0
    {
      if submissionBlock.Some? {
        if current < submissionBlock.value {
          status := Proved;
          submissionBlock := None;
          retryCount := (retryCount + 1) % 0x1_0000_0000;
        }
      }
    }

    method ForceConfirmUnchecked() returns (reply: Reply)
      modifies this
      ensures (Record(), reply) == Apply(old(Record()), ForceConfirm)
    {
      reply := Transition(Confirmed);
    }

    method TryConfirm(now: u64, blocks: u64) returns (reply: Reply)
      modifies this
      ensures (Record(), reply) == Apply(old(Record()), Call.TryConfirm(now, blocks))
    {
      if status != Submitted {
        return Err(StatusMismatch);
      }
      if submissionBlock.None? {
        return Err(MissingSubmissionBlock);
      }
      var confirmedAt := submissionBlock.value + blocks;
      if confirmedAt > U64_MAX {
        return Err(Overflow);
      }
      if now < confirmedAt {
        return Ok(false);
      }
      reply := Transition(Confirmed);
    }

    method MarkFailed(message: string)
      modifies this
      ensures Record() == Apply(old(Record()), Call.MarkFailed(message)).0
    {
      status := Failed;
      errorMessage := Some(message);
    }
  }

  // ---------- Runs of calls ----------

  /** The record after the first `n` calls. */
  function Replay(s: Session, calls: seq<Call>, n: nat): (r: Session)
    requires n <= |calls|
  {
    if n == 0 then s else Apply(Replay(s, calls, n - 1), calls[n - 1]).0
  }

  ghost predicate IsNew(s: Session) {
    s.status == Drafted && s.receipt.None? && s.submissionBlock.None?
  }

  /** What every reachable record satisfies. */
  ghost predicate Consistent(s: Session) {
    && (s.status.Submitted? || s.status.Confirmed? ==> s.submissionBlock.Some?)
    && (s.status.Drafted? || s.status.Proving? || s.status.Proved? ==> s.submissionBlock.None?)
    && (s.status.HasReceipt() || s.submissionBlock.Some? ==> s.receipt.Some?)
  }

  lemma NewIsConsistent(s: Session)
    requires IsNew(s)
    ensures Consistent(s)
  {
  }

  lemma CallKeepsConsistent(s: Session, call: Call)
    requires Consistent(s)
    ensures
      var s' := Apply(s, call).0;
      && Consistent(s')
      && s'.instancePda == s.instancePda && s'.proposalId == s.proposalId && s'.memberCommitment == s.memberCommitment
      && s'.publicInputs == s.publicInputs && s'.nullifier == s.nullifier
  {
  }

  /** Over every sequence of calls a new session stays consistent, and its identity never changes. */
  lemma {:induction false} SessionsStayConsistent(s: Session, calls: seq<Call>, n: nat)
    requires IsNew(s) && n <= |calls|
    ensures
      var s' := Replay(s, calls, n);
      && Consistent(s')
      && s'.instancePda == s.instancePda && s'.proposalId == s.proposalId && s'.memberCommitment == s.memberCommitment
      && s'.publicInputs == s.publicInputs && s'.nullifier == s.nullifier
    decreases n
  {
    hide Apply, Consistent;
    if n == 0 {
      NewIsConsistent(s);
    } else {
      SessionsStayConsistent(s, calls, n - 1);
      CallKeepsConsistent(Replay(s, calls, n - 1), calls[n - 1]);
    }
  }

  /**
   * What a call may do: one that is rejected or reports pending finality changes nothing,
   * `try_confirm` never misses its block, a session is confirmed only by `force_confirm_unchecked` or
   * with the finality buffer elapsed, and it leaves `Confirmed` only by failing or by a reorg below its
   * submission block.
   */
  ghost predicate Legal(before: Session, call: Call, after: Session, reply: Reply) {
    && (reply != Ok(true) ==> after == before)
    && reply != Err(MissingSubmissionBlock)
    && (before.status != Confirmed && after.status == Confirmed ==>
          before.status == Submitted && before.submissionBlock.Some? &&
          after.submissionBlock == before.submissionBlock &&
          (call == ForceConfirm || (call.TryConfirm? && call.now >= before.submissionBlock.value + call.blocks)))
    && (before.status == Confirmed && after.status == Confirmed ==> after == before)
    && (before.status == Confirmed && after.status != Confirmed ==>
          || (call.MarkFailed? && after.status == Failed)
          || (call.DemoteOnReorg? && before.submissionBlock.Some? && call.current < before.submissionBlock.value
              && after == Demoted(before)))
  }

  lemma CallIsLegal(s: Session, call: Call)
    requires Consistent(s)
    ensures Legal(s, call, Apply(s, call).0, Apply(s, call).1)
  {
  }

  /** Every call of every run is legal. */
  lemma EveryCall(s: Session, calls: seq<Call>, n: nat)
    requires IsNew(s) && n < |calls|
    ensures Legal(Replay(s, calls, n), calls[n], Replay(s, calls, n + 1), Apply(Replay(s, calls, n), calls[n]).1)
  {
    hide Apply, Consistent, Legal;
    SessionsStayConsistent(s, calls, n);
    CallIsLegal(Replay(s, calls, n), calls[n]);
  }

  /**
   * Call `i` is an accepted `mark_submitted(block)`, and from there to the `n`-th call the record keeps
   * that block: no call has undone the submission.
   */
  ghost predicate SubmittedAt(s: Session, calls: seq<Call>, i: nat, n: nat, block: u64)
    requires i < n <= |calls|
  {
    && calls[i] == MarkSubmitted(block)
    && Apply(Replay(s, calls, i), calls[i]).1 == Ok(true)
    && forall k: nat {:trigger Replay(s, calls, k)} :: i < k <= n ==> Replay(s, calls, k).submissionBlock == Some(block)
  }

  // ---------- When each call is accepted, and what it writes ----------

  /** A new session is drafted for its instance, proposal and member, with both cached identifiers. */
  lemma NewSessionExactly(instancePda: Hash, proposalId: Hash, memberCommitment: Hash, publicInputs: seq<byte>,
                          nullifier: Hash)
    ensures
      var s := NewSession(instancePda, proposalId, memberCommitment, publicInputs, nullifier);
      && IsNew(s) && s.instancePda == instancePda && s.proposalId == proposalId
      && s.memberCommitment == memberCommitment && s.publicInputs == Some(publicInputs)
      && s.nullifier == Some(nullifier) && s.errorMessage == None && s.retryCount == 0
  {
  }

  /**
   * Every call on every record: the statuses it is accepted from and the fields it writes. A rejected
   * call leaves the record as it was; everything not named stays as it was.
   */
  lemma CallsExactly(s: Session, bytes: seq<byte>, height: u64, blocks: u64, message: string)
    ensures Apply(s, MarkProving)
         == if s.status == Drafted || s.status == Proved then (s.(status := Proving), Ok(true))
            else (s, Err(StatusMismatch))
    ensures Apply(s, MarkProved(bytes))
         == if s.status == Proving then (s.(status := Proved, receipt := Some(bytes)), Ok(true))
            else (s, Err(StatusMismatch))
    ensures Apply(s, MarkSubmitted(height))
         == if s.status == Proved then (s.(status := Submitted, submissionBlock := Some(height)), Ok(true))
            else (s, Err(StatusMismatch))
    ensures Apply(s, ForceConfirm)
         == if s.status == Submitted then (s.(status := Confirmed), Ok(true)) else (s, Err(StatusMismatch))
    ensures s.status != Submitted ==> Apply(s, TryConfirm(height, blocks)) == (s, Err(StatusMismatch))
    ensures Apply(s, MarkFailed(message)) == (s.(status := Failed, errorMessage := Some(message)), Ok(true))
    ensures s.submissionBlock.None? ==> Apply(s, DemoteOnReorg(height)) == (s, Ok(true))
    ensures s.submissionBlock.Some? && height >= s.submissionBlock.value ==>
      Apply(s, DemoteOnReorg(height)) == (s, Ok(true))
    ensures s.submissionBlock.Some? && height < s.submissionBlock.value ==>
      var retries := if s.retryCount == 0xFFFF_FFFF then 0 else s.retryCount + 1;
      Apply(s, DemoteOnReorg(height))
        == (s.(status := Proved, submissionBlock := None, retryCount := retries), Ok(true))
    ensures s.status.HasReceipt() <==> s.status == Proved || s.status == Submitted || s.status == Confirmed
  {
  }

  /**
   * Finality, exactly. In every run, `try_confirm` on a submitted session confirms it exactly when the
   * chain is at least `blocks` past the recorded block, reports it pending exactly before that, and
   * overflows exactly when that height does not fit; nothing but the status ever changes.
   */
  lemma TryConfirmExactly(s: Session, calls: seq<Call>, n: nat, now: u64, blocks: u64)
    requires IsNew(s) && n <= |calls| && Replay(s, calls, n).status == Submitted
    ensures
      var before := Replay(s, calls, n);
      var (after, reply) := Apply(before, TryConfirm(now, blocks));
      && before.submissionBlock.Some?
      && var due := before.submissionBlock.value + blocks;
      && (reply == Ok(true) <==> due <= now)
      && (reply == Ok(false) <==> now < due <= 0xFFFF_FFFF_FFFF_FFFF)
      && (reply == Err(Overflow) <==> due > 0xFFFF_FFFF_FFFF_FFFF)
      && after == if due <= now then before.(status := Confirmed) else before
  {
    hide Replay;
    SessionsStayConsistent(s, calls, n);
  }

  // ---------- Where recorded fields come from ----------

  /** Call `i` is accepted. */
  ghost predicate Took(s: Session, calls: seq<Call>, i: nat)
    requires i < |calls|
  {
    Apply(Replay(s, calls, i), calls[i]).1 == Ok(true)
  }

  lemma CallWrites(s: Session, call: Call)
    ensures
      var after := Apply(s, call).0;
      && after.receipt == (if call.MarkProved? && Apply(s, call).1 == Ok(true) then Some(call.bytes) else s.receipt)
      && after.errorMessage == (if call.MarkFailed? then Some(call.message) else s.errorMessage)
  {
  }

  /** The cached receipt is the one handed over by the last accepted `mark_proved`. */
  lemma {:induction false} ReceiptOrigin(s: Session, calls: seq<Call>, n: nat) returns (i: nat)
    requires IsNew(s) && n <= |calls| && Replay(s, calls, n).receipt.Some?
    ensures i < n && calls[i] == MarkProved(Replay(s, calls, n).receipt.value) && Took(s, calls, i)
    ensures forall k :: i < k < n && calls[k].MarkProved? ==> !Took(s, calls, k)
    decreases n
  {
    hide Apply;
    CallWrites(Replay(s, calls, n - 1), calls[n - 1]);
    if calls[n - 1].MarkProved? && Took(s, calls, n - 1) {
      i := n - 1;
    } else {
      i := ReceiptOrigin(s, calls, n - 1);
    }
  }

  /** The recorded message is that of the last `mark_failed`. */
  lemma {:induction false} MessageOrigin(s: Session, calls: seq<Call>, n: nat) returns (i: nat)
    requires s.errorMessage.None? && n <= |calls| && Replay(s, calls, n).errorMessage.Some?
    ensures i < n && calls[i] == MarkFailed(Replay(s, calls, n).errorMessage.value)
    ensures forall k :: i < k < n ==> !calls[k].MarkFailed?
    decreases n
  {
    hide Apply;
    CallWrites(Replay(s, calls, n - 1), calls[n - 1]);
    if calls[n - 1].MarkFailed? {
      i := n - 1;
    } else {
      i := MessageOrigin(s, calls, n - 1);
    }
  }

  /** Call `i` finds the chain below the recorded submission block. */
  ghost predicate Reorg(s: Session, calls: seq<Call>, i: nat)
    requires i < |calls|
  {
    && calls[i].DemoteOnReorg? && Replay(s, calls, i).submissionBlock.Some?
    && calls[i].current < Replay(s, calls, i).submissionBlock.value
  }

  ghost function Reorgs(s: Session, calls: seq<Call>, n: nat): (r: set<nat>)
    requires n <= |calls|
  {
    set i: nat | i < n && Reorg(s, calls, i)
  }

  lemma RetriesOfCall(s: Session, call: Call)
    ensures Apply(s, call).0.retryCount
         == if call.DemoteOnReorg? && s.submissionBlock.Some? && call.current < s.submissionBlock.value
            then (s.retryCount + 1) % 0x1_0000_0000 else s.retryCount
  {
  }

  lemma WrapAgain(x: nat)
    ensures (x % 0x1_0000_0000 + 1) % 0x1_0000_0000 == (x + 1) % 0x1_0000_0000
  {
  }

  /** The retry counter counts the reorgs detected, modulo its width. */
  lemma {:induction false} RetriesAreReorgs(s: Session, calls: seq<Call>, n: nat)
    requires n <= |calls|
    ensures Replay(s, calls, n).retryCount == (s.retryCount + |Reorgs(s, calls, n)|) % 0x1_0000_0000
    decreases n
  {
    hide Apply;
    if n == 0 {
      assert Reorgs(s, calls, 0) == {};
    } else {
      RetriesAreReorgs(s, calls, n - 1);
      RetriesOfCall(Replay(s, calls, n - 1), calls[n - 1]);
      WrapAgain(s.retryCount + |Reorgs(s, calls, n - 1)|);
      if Reorg(s, calls, n - 1) {
        assert Reorgs(s, calls, n) == Reorgs(s, calls, n - 1) + {n - 1};
      } else {
        assert Reorgs(s, calls, n) == Reorgs(s, calls, n - 1);
      }
    }
  }

  lemma BlockChange(s: Session, call: Call)
    requires Apply(s, call).0.submissionBlock.Some? && Apply(s, call).0.submissionBlock != s.submissionBlock
    ensures call == MarkSubmitted(Apply(s, call).0.submissionBlock.value) && Apply(s, call).1 == Ok(true)
  {
  }

  /** A recorded block was recorded by an accepted submission that no later call has undone. */
  lemma {:induction false} BlockOrigin(s: Session, calls: seq<Call>, n: nat) returns (i: nat)
    requires IsNew(s) && n <= |calls| && Replay(s, calls, n).submissionBlock.Some?
    ensures i < n && SubmittedAt(s, calls, i, n, Replay(s, calls, n).submissionBlock.value)
    decreases n
  {
    hide Apply;
    if Replay(s, calls, n - 1).submissionBlock == Replay(s, calls, n).submissionBlock {
      i := BlockOrigin(s, calls, n - 1);
    } else {
      BlockChange(Replay(s, calls, n - 1), calls[n - 1]);
      i := n - 1;
    }
  }

  lemma StillSubmitted(s: Session, calls: seq<Call>, i: nat, n: nat, block: u64)
    requires i < n < |calls| && SubmittedAt(s, calls, i, n, block)
    requires Replay(s, calls, n + 1).submissionBlock == Some(block)
    ensures SubmittedAt(s, calls, i, n + 1, block)
  {
    hide Apply, Replay;
  }

  /**
   * Call `j` is a finality check that saw the chain `blocks` past `block`, the block of a submission
   * made by an earlier accepted call and still standing after call `n - 1`.
   */
  ghost predicate SawFinality(s: Session, calls: seq<Call>, j: nat, n: nat, block: u64)
    requires j < n <= |calls|
  {
    && calls[j].TryConfirm? && calls[j].now >= block + calls[j].blocks
    && Apply(Replay(s, calls, j), calls[j]).1 == Ok(true)
    && exists i: nat :: i < j && SubmittedAt(s, calls, i, n, block)
  }

  /**
   * Finality. If no call forced it, a confirmed session was submitted at its recorded block by an
   * accepted call that nothing has undone, and a later accepted `try_confirm` saw the chain at least
   * the requested number of blocks past that block.
   */
  lemma {:induction false} ConfirmedMeansFinal(s: Session, calls: seq<Call>, n: nat) returns (j: nat)
    requires IsNew(s) && n <= |calls| && Replay(s, calls, n).status == Confirmed
    requires forall i :: 0 <= i < n ==> calls[i] != ForceConfirm
    ensures Replay(s, calls, n).submissionBlock.Some?
    ensures j < n && SawFinality(s, calls, j, n, Replay(s, calls, n).submissionBlock.value)
    decreases n
  {
    hide Apply, SubmittedAt;
    var before := Replay(s, calls, n - 1);
    SessionsStayConsistent(s, calls, n);
    SessionsStayConsistent(s, calls, n - 1);
    EveryCall(s, calls, n - 1);
    if before.status == Confirmed {
      j := ConfirmedMeansFinal(s, calls, n - 1);
      var i: nat :| i < j && SubmittedAt(s, calls, i, n - 1, before.submissionBlock.value);
      StillSubmitted(s, calls, i, n - 1, before.submissionBlock.value);
    } else {
      var i := BlockOrigin(s, calls, n - 1);
      j := n - 1;
      StillSubmitted(s, calls, i, n - 1, before.submissionBlock.value);
    }
  }

  /** No sequence of calls takes the record out of `Failed`. */
  ghost predicate FailedForGood(s: Session) {
    forall calls, n: nat {:trigger Replay(s, calls, n)} :: n <= |calls| ==> Replay(s, calls, n).status == Failed
  }

  /** A failed record that no reorg can reach stays failed and keeps its block. */
  lemma {:induction false} StaysFailed(s: Session, calls: seq<Call>, n: nat)
    requires s.status == Failed && (s.submissionBlock.Some? ==> s.submissionBlock.value == 0) && n <= |calls|
    ensures Replay(s, calls, n).status == Failed && Replay(s, calls, n).submissionBlock == s.submissionBlock
    decreases n
  {
    if n == 0 {
    } else {
      StaysFailed(s, calls, n - 1);
    }
  }

  /**
   * `Failed` is terminal, over every later sequence of calls, exactly when no submission block above
   * zero is recorded: `demote_on_reorg` revives a session that failed after being submitted.
   */
  lemma FailedIsTerminalUnlessSubmitted(s: Session)
    requires s.status == Failed
    ensures FailedForGood(s) <==> !(s.submissionBlock.Some? && s.submissionBlock.value > 0)
  {
    if s.submissionBlock.Some? && s.submissionBlock.value > 0 {
      var calls := [DemoteOnReorg(0)];
      assert Replay(s, calls, 0) == s;
      assert Replay(s, calls, 1).status == Proved;
    } else {
      forall calls: seq<Call>, n: nat | n <= |calls| ensures Replay(s, calls, n).status == Failed {
        StaysFailed(s, calls, n);
      }
    }
  }

  /** A session that failed at block 5 is back to `Proved` after a reorg to block 4. */
  lemma RevivedAfterFailure(s: Session)
    requires IsNew(s)
    ensures
      var calls := [MarkProving, MarkProved([]), MarkSubmitted(5), MarkFailed("rejected"), DemoteOnReorg(4)];
      Replay(s, calls, 4).status == Failed && Replay(s, calls, 5).status == Proved
  {
    var calls := [MarkProving, MarkProved([]), MarkSubmitted(5), MarkFailed("rejected"), DemoteOnReorg(4)];
    assert Replay(s, calls, 1).status == Proving;
    assert Replay(s, calls, 2).status == Proved;
    assert Replay(s, calls, 3).submissionBlock == Some(5);
  }
}
