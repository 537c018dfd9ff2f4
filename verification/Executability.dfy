/** Liveness of the honest path: what the SDK builds, the program accepts from creation to execution. */
module Executability {
  import opened ByteStrings
  import opened CoreTypes
  import opened Identities
  import opened Merkle
  import opened ProposalIds
  import opened Addresses
  import opened ApproveCircuit
  import opened Handlers
  import opened Builder
  import opened Prover
  import opened Runs
  import T = TypedLedger
  import C = ChainLedger

  /** What the members agree to do: under which key, with which builder, what action, on which program. */
  datatype Plan = Plan(createKey: Hash, members: MultisigFinalized, action: ByteVec, target: Hash)

  function Submit(c: Program, ix: Instruction, receipt: seq<byte>): (r: Transaction)
    ensures C.NamesItsAccounts(c, r) && r.ix == ix && r.receipt == receipt
  {
    Transaction(ix, C.Locate(c, Keys(ix)), receipt)
  }

  /** The proposal as opened, after `votes` approvals. */
  function Pending(plan: Plan, votes: u32): (r: Proposal) {
    Proposal(plan.action, plan.target, votes, false)
  }

  function PlanId(c: Program, plan: Plan): (r: Hash) {
    c.ProposalId(plan.createKey, 0, Pending(plan, 0))
  }

  /** The prover the SDK builds for a member of the plan. */
  function ProverFor(c: Program, plan: Plan, member: Identity): (r: Result<ApprovalProver, SdkError>)
    ensures r.Ok? ==> HasDepth(r.value.proof, MERKLE_DEPTH)
  {
    match plan.members.ProofFor(c.h, member.Commitment(c.h))
    case Err(e) => Err(e)
    case Ok(proof) =>
      var members := plan.members;
      var snapshot := NewSnapshot(c.h, c.id, plan.createKey, members.membersRoot, members.m, members.n, 1);
      NewProver(c.h, member, snapshot, 0, plan.action, plan.target, proof)
  }

  /** The approval a prover submits. */
  function ApprovalOf(c: Program, plan: Plan, p: ApprovalProver): (r: Transaction)
    requires HasDepth(p.proof, MERKLE_DEPTH)
  {
    Submit(c, Approve(plan.createKey, 0, p.Nullifier(c.h), p.PublicInputs(c.h).ToBytes()), p.Stream(c.h))
  }

  function Opening(c: Program, plan: Plan): (r: seq<Transaction>) {
    [Submit(c, CreateMultisig(plan.createKey, plan.members.membersRoot, plan.members.m, plan.members.n), []),
     Submit(c, CreateVault(plan.createKey), []),
     Submit(c, Propose(plan.createKey, 0, plan.action, plan.target), [])]
  }

  /** A member enrolled under a commitment the guest does not refuse. */
  ghost predicate MayVote(c: Program, plan: Plan, member: Identity) {
    member.Commitment(c.h) in plan.members.leaves && member.Commitment(c.h) != ZERO_HASH
  }

  ghost predicate DistinctNullifiers(c: Program, plan: Plan, voters: seq<Identity>) {
    forall i, j :: 0 <= i < j < |voters| ==>
      voters[i].Nullifier(c.h, PlanId(c, plan)) != voters[j].Nullifier(c.h, PlanId(c, plan))
  }

  ghost predicate GoodPlan(c: Program, plan: Plan) {
    WellMade(c.h, plan.members) && |plan.action| <= MAX_ACTION_BYTES_LEN
  }

  /** Every enrolled member gets a prover, and its identifiers are those of the plan. */
  lemma MembersCanProve(c: Program, plan: Plan, member: Identity)
    requires GoodPlan(c, plan) && MayVote(c, plan, member)
    ensures ProverFor(c, plan, member).Ok?
    ensures ProverFor(c, plan, member).value.Nullifier(c.h) == member.Nullifier(c.h, PlanId(c, plan))
  {
    hide Capped, NoDuplicates, VerifyProof, Address, DeriveProposalId;
    MemberProofs(c.h, plan.members, member.Commitment(c.h));
  }

  // ---------- The honest path on the typed ledger ----------

  /** No account of the instance exists. */
  ghost predicate Fresh(t: T.Ledger, createKey: Hash) {
    forall k :: k in t ==> k.createKey != createKey
  }

  lemma FreshInstance(c: Program, t: T.Ledger, createKey: Hash)
    requires T.Inv(c, t) && StateKey(createKey) !in t
    ensures Fresh(t, createKey)
  {
    hide Opens;
    forall k | k in t ensures k.createKey != createKey {
      assert T.GoodAccount(c, t, k);
    }
  }

  /** The proposal is open and the members with nullifiers `voted` have approved it. */
  ghost predicate Voting(t: T.Ledger, plan: Plan, voted: seq<Hash>) {
    && |voted| <= U32_MAX
    && T.StateOf(t, plan.createKey)
       == Some(MultisigState(plan.createKey, plan.members.membersRoot, plan.members.m, plan.members.n, 1))
    && T.ProposalOf(t, plan.createKey, 0) == Some(Pending(plan, |voted|))
    && VaultKey(plan.createKey) in t
    && forall nullifier :: NullifierKey(plan.createKey, 0, nullifier) in t ==> nullifier in voted
  }

  /** `txs` name their accounts and are accepted one after the other from `t`, ending in `t'`. */
  ghost predicate Accepts(c: Program, t: T.Ledger, txs: seq<Transaction>, t': T.Ledger)
    decreases |txs|
  {
    if txs == [] then t' == t
    else
      && C.NamesItsAccounts(c, txs[0])
      && C.TypedStep(c, t, txs[0]).Accepted?
      && Accepts(c, C.TypedStep(c, t, txs[0]).ledger, txs[1..], t')
  }

  lemma OpeningAccepted(c: Program, t: T.Ledger, plan: Plan) returns (t': T.Ledger)
    requires GoodPlan(c, plan) && Fresh(t, plan.createKey)
    ensures Accepts(c, t, Opening(c, plan), t') && Voting(t', plan, [])
  {
    hide Address, Root, Capped, C.NamesItsAccounts;
    var txs := Opening(c, plan);
    var t1 := C.TypedStep(c, t, txs[0]).ledger;
    var t2 := C.TypedStep(c, t1, txs[1]).ledger;
    t' := C.TypedStep(c, t2, txs[2]).ledger;
    assert txs[1..][0] == txs[1] && txs[1..][1..] == txs[2..];
    assert txs[2..][0] == txs[2] && txs[2..][1..] == [];
    assert Accepts(c, t', [], t');
    assert Accepts(c, t2, txs[2..], t');
    assert Accepts(c, t1, txs[1..], t');
  }

  /** The prover of a member was built from a snapshot of the instance, with the plan's action and target. */
  lemma ProverMirrorsPlan(c: Program, plan: Plan, member: Identity, state: MultisigState)
    requires ProverFor(c, plan, member).Ok? && state.membersRoot == plan.members.membersRoot
    ensures
      var p := ProverFor(c, plan, member).value;
      Mirrors(c, p.snapshot, plan.createKey, state) &&
      NewProver(c.h, member, p.snapshot, 0, plan.action, plan.target, p.proof) == Ok(p)
  {
    hide VerifyProof, Address;
  }

  /** An approval that passes the checks, under a nullifier that has not voted, adds its vote. */
  lemma VoteCounts(c: Program, t: T.Ledger, plan: Plan, voted: seq<Hash>, tx: Transaction)
    requires Voting(t, plan, voted) && |voted| < U32_MAX
    requires tx.ix.Approve? && tx.ix.createKey == plan.createKey && tx.ix.index == 0 && tx.ix.nullifier !in voted
    requires CheckApprove(c, plan.createKey, 0, tx.ix.nullifier, tx.ix.publicInputs, tx.receipt,
                          T.StateOf(t, plan.createKey), Some(Pending(plan, |voted|)))
          == Ok(Pending(plan, |voted| + 1))
    ensures C.TypedStep(c, t, tx).Accepted?
    ensures Voting(C.TypedStep(c, t, tx).ledger, plan, voted + [tx.ix.nullifier])
  {
    hide CheckApprove;
  }

  lemma VoteAccepted(c: Program, t: T.Ledger, plan: Plan, voted: seq<Hash>, member: Identity) returns (t': T.Ledger)
    requires GoodPlan(c, plan) && MayVote(c, plan, member) && Voting(t, plan, voted) && |voted| < U32_MAX
    requires member.Nullifier(c.h, PlanId(c, plan)) !in voted
    requires ProverFor(c, plan, member).Ok?
    ensures C.NamesItsAccounts(c, ApprovalOf(c, plan, ProverFor(c, plan, member).value))
    ensures C.TypedStep(c, t, ApprovalOf(c, plan, ProverFor(c, plan, member).value)).Accepted?
    ensures t' == C.TypedStep(c, t, ApprovalOf(c, plan, ProverFor(c, plan, member).value)).ledger
    ensures Voting(t', plan, voted + [member.Nullifier(c.h, PlanId(c, plan))])
  {
    hide Program.Addr, CheckApprove, VerifyProof, C.NamesItsAccounts, C.TypedStep, GoodPlan, MayVote,
         ApprovalProver.Stream, ApprovalProver.Nullifier, ApprovalProver.PublicInputs, Root, ProverFor, NewProver,
         Mirrors, PlanId;
    MembersCanProve(c, plan, member);
    ProverMirrorsPlan(c, plan, member, T.StateOf(t, plan.createKey).value);
    var p := ProverFor(c, plan, member).value;
    var tx := ApprovalOf(c, plan, p);
    EndToEnd(c, member, p.snapshot, 0, p.proof, plan.createKey, T.StateOf(t, plan.createKey).value,
             Pending(plan, |voted|));
    VoteCounts(c, t, plan, voted, tx);
    t' := C.TypedStep(c, t, tx).ledger;
  }

  function Nullifiers(c: Program, plan: Plan, voters: seq<Identity>): (r: seq<Hash>)
    ensures |r| == |voters|
  {
    seq(|voters|, i requires 0 <= i < |voters| => voters[i].Nullifier(c.h, PlanId(c, plan)))
  }

  ghost predicate AllCanProve(c: Program, plan: Plan, voters: seq<Identity>) {
    forall i :: 0 <= i < |voters| ==> MayVote(c, plan, voters[i]) && ProverFor(c, plan, voters[i]).Ok?
  }

  ghost function Ballots(c: Program, plan: Plan, voters: seq<Identity>): (r: seq<Transaction>)
    requires AllCanProve(c, plan, voters)
    ensures |r| == |voters|
  {
    seq(|voters|, i requires 0 <= i < |voters| => ApprovalOf(c, plan, ProverFor(c, plan, voters[i]).value))
  }

  /** Approvals in any order, of members with distinct nullifiers none of which has voted. */
  lemma {:induction false} VotesAccepted(c: Program, t: T.Ledger, plan: Plan, voted: seq<Hash>, voters: seq<Identity>)
    returns (t': T.Ledger)
    requires GoodPlan(c, plan) && AllCanProve(c, plan, voters) && DistinctNullifiers(c, plan, voters)
    requires Voting(t, plan, voted) && |voted| + |voters| <= U32_MAX
    requires forall i :: 0 <= i < |voters| ==> Nullifiers(c, plan, voters)[i] !in voted
    ensures Accepts(c, t, Ballots(c, plan, voters), t')
    ensures Voting(t', plan, voted + Nullifiers(c, plan, voters))
    decreases |voters|
  {
    hide C.TypedStep, C.NamesItsAccounts, GoodPlan, Voting, MayVote, ApprovalOf, ProverFor, PlanId, Identity.Nullifier;
    if voters == [] {
      assert voted + Nullifiers(c, plan, voters) == voted;
      t' := t;
    } else {
      var rest := voters[1..];
      var now := voted + [voters[0].Nullifier(c.h, PlanId(c, plan))];
      assert Nullifiers(c, plan, voters)[0] == voters[0].Nullifier(c.h, PlanId(c, plan));
      var t1 := VoteAccepted(c, t, plan, voted, voters[0]);
      forall i | 0 <= i < |rest| ensures Nullifiers(c, plan, rest)[i] !in now {
        assert Nullifiers(c, plan, rest)[i] == Nullifiers(c, plan, voters)[i + 1];
      }
      t' := VotesAccepted(c, t1, plan, now, rest);
      assert Ballots(c, plan, voters)[1..] == Ballots(c, plan, rest);
      assert voted + Nullifiers(c, plan, voters) == now + Nullifiers(c, plan, rest);
    }
  }

  lemma ExecutionAccepted(c: Program, t: T.Ledger, plan: Plan, voted: seq<Hash>) returns (t': T.Ledger)
    requires Voting(t, plan, voted) && |voted| >= plan.members.m
    ensures Accepts(c, t, [Submit(c, Execute(plan.createKey, 0), [])], t')
    ensures C.TypedStep(c, t, Submit(c, Execute(plan.createKey, 0), []))
         == Accepted(t', [CallFor(c, plan.createKey, Pending(plan, 0), [])])
  {
    hide Address, C.NamesItsAccounts, VaultSeed;
    var tx := Submit(c, Execute(plan.createKey, 0), []);
    t' := C.TypedStep(c, t, tx).ledger;
    assert [tx][0] == tx && [tx][1..] == [];
    assert Accepts(c, t', [], t');
  }

  lemma {:induction false} AcceptsConcat(c: Program, t: T.Ledger, xs: seq<Transaction>, mid: T.Ledger,
                                         ys: seq<Transaction>, t': T.Ledger)
    requires Accepts(c, t, xs, mid) && Accepts(c, mid, ys, t')
    ensures Accepts(c, t, xs + ys, t')
    decreases |xs|
  {
    hide C.TypedStep, C.NamesItsAccounts;
    if xs == [] {
      assert xs + ys == ys;
    } else {
      AcceptsConcat(c, C.TypedStep(c, t, xs[0]).ledger, xs[1..], mid, ys, t');
      assert (xs + ys)[1..] == xs[1..] + ys;
    }
  }

  // ---------- On the chain ----------

  /** Whatever is on the chain was there from the start or belongs to the program. */
  lemma {:induction false} OnlyOursAdded(r: Run, n: nat, a: Hash)
    requires r.Genuine() && n <= |r.txs| && a in r.Chain(n) && a !in r.genesis
    ensures r.Chain(n)[a].owner == r.c.id
    decreases n
  {
    hide Program.Addr, CheckApprove, CheckPropose, CheckCreate, CheckExecute, CallFor, C.StateAt, C.ProposalAt,
         C.NamesItsAccounts;
    if n == 0 {
    } else {
      assert r.Happened(n - 1);
      if a in r.Chain(n - 1) {
        OnlyOursAdded(r, n - 1, a);
      }
    }
  }

  ghost predicate NobodyThere(r: Run, ix: Instruction) {
    forall k :: k in C.KeySet(ix) ==> r.c.Addr(k) !in r.genesis
  }

  lemma OneAccepted(r: Run, n: nat, others: set<seq<byte>>)
    requires r.Sound(others) && n < |r.txs| && C.NamesItsAccounts(r.c, r.txs[n]) && NobodyThere(r, r.txs[n].ix)
    requires C.TypedStep(r.c, r.Typed(n), r.txs[n]).Accepted?
    ensures r.Accepted(n) && r.Typed(n + 1) == C.TypedStep(r.c, r.Typed(n), r.txs[n]).ledger
    ensures r.Outcome(n).calls == C.TypedStep(r.c, r.Typed(n), r.txs[n]).calls
  {
    hide C.Step, C.TypedStep, T.Inv, C.Refines, Program.Addr, Run.Inputs, C.KeySet, C.NamesItsAccounts;
    RunRefines(r, n, others);
    UsedKeysAreDistinct(r, others);
    KeysAreUsed(r, n);
    assert r.Happened(n);
    C.StepSimulates(r.c, r.Chain(n), r.Typed(n), r.txs[n], r.UsedKeys());
    forall k | k in C.KeySet(r.txs[n].ix) && r.c.Addr(k) in r.Chain(n)
      ensures r.Chain(n)[r.c.Addr(k)].owner == r.c.id
    {
      OnlyOursAdded(r, n, r.c.Addr(k));
    }
    AcceptedIsTyped(r, n, others);
  }

  // ---------- Among other instances ----------

  /** The accounts of one instance. */
  ghost function Mine(t: T.Ledger, createKey: Hash): (r: T.Ledger) {
    map k | k in t && k.createKey == createKey :: t[k]
  }

  /** A step on an instance needs and changes only that instance's accounts. */
  lemma StepOnMine(c: Program, t: T.Ledger, tx: Transaction)
    requires C.TypedStep(c, Mine(t, tx.ix.createKey), tx).Accepted?
    ensures C.TypedStep(c, t, tx).Accepted?
    ensures C.TypedStep(c, t, tx).calls == C.TypedStep(c, Mine(t, tx.ix.createKey), tx).calls
    ensures Mine(C.TypedStep(c, t, tx).ledger, tx.ix.createKey) == C.TypedStep(c, Mine(t, tx.ix.createKey), tx).ledger
  {
    hide CheckApprove, CheckPropose, CheckCreate, CheckExecute, CallFor;
    var mine := Mine(t, tx.ix.createKey);
    assert T.StateOf(t, tx.ix.createKey) == T.StateOf(mine, tx.ix.createKey);
    if tx.ix.Execute? || tx.ix.Approve? {
      assert T.ProposalOf(t, tx.ix.createKey, tx.ix.index) == T.ProposalOf(mine, tx.ix.createKey, tx.ix.index);
    }
  }

  /** A step on another instance changes none of them. */
  lemma StepOnOther(c: Program, t: T.Ledger, tx: Transaction, createKey: Hash)
    requires C.TypedStep(c, t, tx).Accepted? && tx.ix.createKey != createKey
    ensures Mine(C.TypedStep(c, t, tx).ledger, createKey) == Mine(t, createKey)
  {
    hide CheckApprove, CheckPropose, CheckCreate, CheckExecute, CallFor;
  }

  /** The transactions on one instance, in order. */
  function OnInstance(txs: seq<Transaction>, createKey: Hash): (r: seq<Transaction>) {
    if txs == [] then []
    else if txs[0].ix.createKey == createKey then [txs[0]] + OnInstance(txs[1..], createKey)
    else OnInstance(txs[1..], createKey)
  }

  /** Where the last transaction on an instance stands. */
  lemma {:induction false} LastOnInstance(txs: seq<Transaction>, createKey: Hash, front: seq<Transaction>,
                                          last: Transaction) returns (k: nat)
    requires OnInstance(txs, createKey) == front + [last]
    ensures k < |txs| && txs[k] == last && OnInstance(txs[..k], createKey) == front
  {
    var mine := OnInstance(txs, createKey);
    if txs[0].ix.createKey == createKey && front == [] {
      k := 0;
      assert mine[0] == txs[0] == last;
    } else {
      var mineFirst := txs[0].ix.createKey == createKey;
      var rest := if mineFirst then front[1..] else front;
      assert mineFirst ==> mine[1..] == OnInstance(txs[1..], createKey) && mine[0] == front[0];
      k := LastOnInstance(txs[1..], createKey, rest, last);
      k := k + 1;
      assert txs[..k][0] == txs[0] && txs[..k][1..] == txs[1..][..k - 1];
    }
  }

  /** Nobody was there before the instance's own transactions between `n` and `end`. */
  ghost predicate Unobstructed(r: Run, n: nat, end: nat, createKey: Hash) {
    forall q :: n <= q < end && q < |r.txs| && r.txs[q].ix.createKey == createKey ==> NobodyThere(r, r.txs[q].ix)
  }

  /** A transaction on another instance, accepted or refused, leaves the instance's accounts alone. */
  lemma OtherKeepsMine(r: Run, n: nat, createKey: Hash, others: set<seq<byte>>)
    requires r.Sound(others) && n < |r.txs| && r.txs[n].ix.createKey != createKey
    ensures Mine(r.Typed(n + 1), createKey) == Mine(r.Typed(n), createKey)
  {
    hide C.TypedStep, T.Inv, Run.Sound, Mine;
    if r.Accepted(n) {
      AcceptedIsTyped(r, n, others);
      StepOnOther(r.c, r.Typed(n), r.txs[n], createKey);
    }
  }

  /**
   * What the typed ledger accepts in sequence on one instance's accounts, the chain accepts, whatever
   * happens on other instances in between.
   */
  lemma {:induction false} AcceptedAmongOthers(r: Run, n: nat, end: nat, createKey: Hash, t': T.Ledger,
                                               others: set<seq<byte>>)
    requires r.Sound(others) && n <= end <= |r.txs| && Unobstructed(r, n, end, createKey)
    requires Accepts(r.c, Mine(r.Typed(n), createKey), OnInstance(r.txs[n..end], createKey), t')
    ensures forall q :: n <= q < end && r.txs[q].ix.createKey == createKey ==> r.Accepted(q)
    ensures Mine(r.Typed(end), createKey) == t'
    decreases end - n
  {
    hide C.TypedStep, Run.Sound, Run.Typed, Run.Accepted, NobodyThere, C.NamesItsAccounts, Mine;
    if n == end {
    } else {
      var mine := OnInstance(r.txs[n..end], createKey);
      assert r.txs[n..end][0] == r.txs[n] && r.txs[n..end][1..] == r.txs[n + 1..end];
      if r.txs[n].ix.createKey == createKey {
        assert mine[0] == r.txs[n] && mine[1..] == OnInstance(r.txs[n + 1..end], createKey);
        StepOnMine(r.c, r.Typed(n), r.txs[n]);
        OneAccepted(r, n, others);
      } else {
        OtherKeepsMine(r, n, createKey, others);
      }
      AcceptedAmongOthers(r, n + 1, end, createKey, t', others);
    }
  }

  /** Create, open the vault, propose, collect the ballots, execute. */
  ghost function Campaign(c: Program, plan: Plan, voters: seq<Identity>): (r: seq<Transaction>)
    requires AllCanProve(c, plan, voters)
  {
    Opening(c, plan) + Ballots(c, plan, voters) + [Submit(c, Execute(plan.createKey, 0), [])]
  }

  lemma CampaignAccepted(c: Program, t: T.Ledger, plan: Plan, voters: seq<Identity>)
    returns (before: T.Ledger, t': T.Ledger)
    requires GoodPlan(c, plan) && Fresh(t, plan.createKey)
    requires AllCanProve(c, plan, voters) && DistinctNullifiers(c, plan, voters)
    requires plan.members.m <= |voters| <= U32_MAX
    ensures Accepts(c, t, Opening(c, plan) + Ballots(c, plan, voters), before)
    ensures Accepts(c, t, Campaign(c, plan, voters), t')
    ensures C.TypedStep(c, before, Submit(c, Execute(plan.createKey, 0), []))
         == Accepted(t', [CallFor(c, plan.createKey, Pending(plan, 0), [])])
  {
    hide C.TypedStep, GoodPlan, Voting, Fresh, MayVote, ProverFor, Ballots, Opening, PlanId, Submit, CallFor, Pending;
    var t1 := OpeningAccepted(c, t, plan);
    before := VotesAccepted(c, t1, plan, [], voters);
    assert [] + Nullifiers(c, plan, voters) == Nullifiers(c, plan, voters);
    t' := ExecutionAccepted(c, before, plan, Nullifiers(c, plan, voters));
    AcceptsConcat(c, t, Opening(c, plan), t1, Ballots(c, plan, voters), before);
    AcceptsConcat(c, t, Opening(c, plan) + Ballots(c, plan, voters), before,
                  [Submit(c, Execute(plan.createKey, 0), [])], t');
  }

  lemma FreshOnChain(r: Run, n: nat, createKey: Hash, others: set<seq<byte>>)
    requires r.Sound(others) && n <= |r.txs| && C.Absent(r.c, r.Chain(n), StateKey(createKey))
    ensures Fresh(r.Typed(n), createKey)
  {
    hide C.Step, T.Perform, T.GoodAccount, Run.Inputs, Program.Addr, Run.UsedKeys, Run.Typed, Run.Chain;
    RunRefines(r, n, others);
    FreshInstance(r.c, r.Typed(n), createKey);
  }

  lemma MineIsFresh(t: T.Ledger, createKey: Hash)
    requires Fresh(t, createKey)
    ensures Fresh(Mine(t, createKey), createKey)
  {
  }

  /**
   * Executability. From any reachable ledger, for a finalized builder, a create key not in use, an
   * action within the cap and at least `m` enrolled members with pairwise distinct nullifiers in any
   * order, the campaign create, open vault, propose, approve, ..., approve, execute succeeds at every
   * step, and its last step calls the target with the action. Transactions on other instances, refused
   * ones included, may come anywhere in between.
   */
  lemma HonestRunSucceeds(r: Run, n: nat, end: nat, plan: Plan, voters: seq<Identity>, others: set<seq<byte>>)
    returns (last: nat)
    requires r.Sound(others) && n <= end <= |r.txs| && Unobstructed(r, n, end, plan.createKey)
    requires C.Absent(r.c, r.Chain(n), StateKey(plan.createKey))
    requires GoodPlan(r.c, plan) && plan.members.m <= |voters| <= plan.members.n
    requires AllCanProve(r.c, plan, voters) && DistinctNullifiers(r.c, plan, voters)
    requires OnInstance(r.txs[n..end], plan.createKey) == Campaign(r.c, plan, voters)
    ensures forall q :: n <= q < end && r.txs[q].ix.createKey == plan.createKey ==> r.Accepted(q)
    ensures n <= last < end && r.txs[last] == Submit(r.c, Execute(plan.createKey, 0), [])
    ensures r.Accepted(last) && r.Outcome(last).calls == [CallFor(r.c, plan.createKey, Pending(plan, 0), [])]
  {
    hide C.TypedStep, GoodPlan, Ballots, Opening, Run.Sound, CallFor, PlanId, ProverFor, Accepts, C.NamesItsAccounts,
         Run.Accepted, Run.Typed, Run.Chain, Mine, NobodyThere, OnInstance;
    var ck, exec := plan.createKey, Submit(r.c, Execute(plan.createKey, 0), []);
    FreshOnChain(r, n, ck, others);
    MineIsFresh(r.Typed(n), ck);
    var before, t' := CampaignAccepted(r.c, Mine(r.Typed(n), ck), plan, voters);
    var k := LastOnInstance(r.txs[n..end], ck, Opening(r.c, plan) + Ballots(r.c, plan, voters), exec);
    last := n + k;
    assert r.txs[n..end][..k] == r.txs[n..last];
    AcceptedAmongOthers(r, n, end, ck, t', others);
    AcceptedAmongOthers(r, n, last, ck, before, others);
    StepOnMine(r.c, r.Typed(last), exec);
    OneAccepted(r, last, others);
  }

  /** Enrollment is all a voter needs. */
  lemma EnrolledMembersCanProve(c: Program, plan: Plan, voters: seq<Identity>)
    requires GoodPlan(c, plan) && forall i :: 0 <= i < |voters| ==> MayVote(c, plan, voters[i])
    ensures AllCanProve(c, plan, voters)
  {
    hide GoodPlan, MayVote, ProverFor, PlanId;
    forall i | 0 <= i < |voters| ensures ProverFor(c, plan, voters[i]).Ok? {
      MembersCanProve(c, plan, voters[i]);
    }
  }
}
