/** The ledger as the chain stores it: byte strings at derived addresses. */
module ChainLedger {
  import opened ByteStrings
  import opened CoreTypes
  import opened Borsh
  import opened Addresses
  import opened Handlers
  import T = TypedLedger

  datatype Account = Account(owner: Hash, data: seq<byte>)

  type Chain = map<Hash, Account>

  /** The `owner` guard: the account exists and belongs to the program. */
  predicate Owned(c: Program, l: Chain, k: Key) {
    c.Addr(k) in l && l[c.Addr(k)].owner == c.id
  }

  /** The `init` guard: nothing is at the address yet, whoever might own it. */
  predicate Absent(c: Program, l: Chain, k: Key) {
    c.Addr(k) !in l
  }

  function Write(c: Program, l: Chain, k: Key, data: seq<byte>): (r: Chain) {
    l[c.Addr(k) := Account(c.id, data)]
  }

  function StateAt(c: Program, l: Chain, createKey: Hash): (r: Option<MultisigState>)
    requires Owned(c, l, StateKey(createKey))
  {
    DecodeState(l[c.Addr(StateKey(createKey))].data)
  }

  function ProposalAt(c: Program, l: Chain, createKey: Hash, index: u64): (r: Option<Proposal>)
    requires Owned(c, l, ProposalKey(createKey, index))
  {
    DecodeProposal(l[c.Addr(ProposalKey(createKey, index))].data)
  }

  function Locate(c: Program, keys: seq<Key>): (r: seq<Hash>) {
    if keys == [] then [] else Locate(c, keys[..|keys| - 1]) + [c.Addr(keys[|keys| - 1])]
  }

  /** The `pda` guards: the accounts supplied are the ones the instruction derives. */
  predicate NamesItsAccounts(c: Program, tx: Transaction) {
    tx.accounts == Locate(c, Keys(tx.ix))
  }

  function Create(c: Program, l: Chain, createKey: Hash, membersRoot: Hash, m: byte, n: u32): (r: Outcome<Chain>) {
    if !Absent(c, l, StateKey(createKey)) then Refused(AccountAlreadyInitialized) else
    match CheckCreate(createKey, membersRoot, m, n)
    case Err(e) => Refused(e)
    case Ok(s) => Accepted(Write(c, l, StateKey(createKey), EncodeState(s)), [])
  }

  function OpenVault(c: Program, l: Chain, createKey: Hash): (r: Outcome<Chain>) {
    if !Owned(c, l, StateKey(createKey)) then Refused(WrongOwner)
    else if !Absent(c, l, VaultKey(createKey)) then Refused(AccountAlreadyInitialized)
    else if StateAt(c, l, createKey).None? then Refused(SerializationError)
    else Accepted(Write(c, l, VaultKey(createKey), []), [])
  }

  function Open(c: Program, l: Chain, createKey: Hash, index: u64, actionBytes: ByteVec, target: Hash)
    : (r: Outcome<Chain>)
  {
    var proposal := ProposalKey(createKey, index);
    if !Owned(c, l, StateKey(createKey)) then Refused(WrongOwner)
    else if !Absent(c, l, proposal) then Refused(AccountAlreadyInitialized) else
    match CheckPropose(StateAt(c, l, createKey), index, actionBytes)
    case Err(e) => Refused(e)
    case Ok(s) =>
      Accepted(Write(c, Write(c, l, StateKey(createKey), EncodeState(s)),
                     proposal, EncodeProposal(Proposal(actionBytes, target, 0, false))), [])
  }

  function Vote(c: Program, l: Chain, createKey: Hash, index: u64, nullifier: Hash, publicInputs: ByteVec,
                receipt: seq<byte>): (r: Outcome<Chain>) {
    var proposal, entry := ProposalKey(createKey, index), NullifierKey(createKey, index, nullifier);
    if !Owned(c, l, StateKey(createKey)) || !Owned(c, l, proposal) then Refused(WrongOwner)
    else if !Absent(c, l, entry) then Refused(AccountAlreadyInitialized) else
    match CheckApprove(c, createKey, index, nullifier, publicInputs, receipt,
                       StateAt(c, l, createKey), ProposalAt(c, l, createKey, index))
    case Err(e) => Refused(e)
    case Ok(p) => Accepted(Write(c, Write(c, l, proposal, EncodeProposal(p)), entry, []), [])
  }

  function Fire(c: Program, l: Chain, createKey: Hash, index: u64): (r: Outcome<Chain>) {
    var proposal := ProposalKey(createKey, index);
    if !Owned(c, l, StateKey(createKey)) || !Owned(c, l, proposal) || !Owned(c, l, VaultKey(createKey)) then
      Refused(WrongOwner)
    else
    match CheckExecute(StateAt(c, l, createKey), ProposalAt(c, l, createKey, index))
    case Err(e) => Refused(e)
    case Ok(p) =>
      Accepted(Write(c, l, proposal, EncodeProposal(p)),
               [CallFor(c, createKey, p, l[c.Addr(VaultKey(createKey))].data)])
  }

  /** One transaction against the chain. A refused one has no effect. */
  function Step(c: Program, l: Chain, tx: Transaction): (r: Outcome<Chain>) {
    if !NamesItsAccounts(c, tx) then Refused(PdaMismatch) else
    match tx.ix
    case CreateMultisig(createKey, membersRoot, m, n) => Create(c, l, createKey, membersRoot, m, n)
    case CreateVault(createKey) => OpenVault(c, l, createKey)
    case Propose(createKey, index, actionBytes, target) => Open(c, l, createKey, index, actionBytes, target)
    case Approve(createKey, index, nullifier, publicInputs) =>
      Vote(c, l, createKey, index, nullifier, publicInputs, tx.receipt)
    case Execute(createKey, index) => Fire(c, l, createKey, index)
    case Reject(createKey) => if !Owned(c, l, StateKey(createKey)) then Refused(WrongOwner) else Accepted(l, [])
  }

  // ---------- Refinement ----------

  /** What the chain stores for an account. */
  function EncodeBody(b: T.Body): (r: seq<byte>) {
    match b
    case StateBody(s) => EncodeState(s)
    case ProposalBody(p) => EncodeProposal(p)
    case VaultBody => []
    case NullifierBody(_) => []
  }

  ghost predicate Stores(c: Program, l: Chain, t: T.Ledger, k: Key)
    requires k in t
  {
    c.Addr(k) in l && l[c.Addr(k)] == Account(c.id, EncodeBody(t[k]))
  }

  ghost predicate Named(c: Program, t: T.Ledger, a: Hash) {
    exists k :: k in t && c.Addr(k) == a
  }

  /** The accounts the program owns are exactly the typed ones, each at its address with its encoding. */
  ghost predicate Refines(c: Program, l: Chain, t: T.Ledger) {
    && (forall k :: k in t ==> Stores(c, l, t, k))
    && (forall a :: a in l && l[a].owner == c.id ==> Named(c, t, a))
  }

  ghost predicate DistinctAddresses(c: Program, keys: set<Key>) {
    forall a, b :: a in keys && b in keys && c.Addr(a) == c.Addr(b) ==> a == b
  }

  ghost function KeySet(ix: Instruction): (keys: set<Key>) {
    set k | k in Keys(ix)
  }

  /** Accounts at the named addresses, if any, belong to the program. */
  ghost predicate NoForeign(c: Program, l: Chain, ix: Instruction) {
    forall k :: k in KeySet(ix) && c.Addr(k) in l ==> l[c.Addr(k)].owner == c.id
  }

  lemma OwnedIsPresent(c: Program, l: Chain, t: T.Ledger, k: Key, keys: set<Key>)
    requires Refines(c, l, t) && DistinctAddresses(c, keys) && t.Keys <= keys && k in keys
    ensures Owned(c, l, k) <==> k in t
    ensures k in t ==> Stores(c, l, t, k)
  {
    hide Program.Addr;
    if Owned(c, l, k) {
      assert Named(c, t, c.Addr(k));
    }
    if k in t {
      assert Stores(c, l, t, k);
    }
  }

  lemma WriteRefines(c: Program, l: Chain, t: T.Ledger, k: Key, b: T.Body, keys: set<Key>)
    requires Refines(c, l, t) && DistinctAddresses(c, keys) && t.Keys <= keys && k in keys
    ensures Refines(c, Write(c, l, k, EncodeBody(b)), t[k := b])
  {
    hide Program.Addr, EncodeBody;
    var l', t' := Write(c, l, k, EncodeBody(b)), t[k := b];
    forall j | j in t' ensures Stores(c, l', t', j) {
      if j != k {
        assert Stores(c, l, t, j);
      }
    }
    forall a | a in l' && l'[a].owner == c.id ensures Named(c, t', a) {
      if a == c.Addr(k) {
        assert k in t';
      } else {
        assert Named(c, t, a);
        var j :| j in t && c.Addr(j) == a;
        assert j in t';
      }
    }
  }

  /** The step of the typed ledger that a transaction amounts to. */
  function TypedStep(c: Program, t: T.Ledger, tx: Transaction): (r: Outcome<T.Ledger>) {
    T.Perform(c, t, tx.ix, tx.receipt)
  }

  /** The chain's step and the typed ledger's step agree from `l` and `t`. */
  ghost predicate Agree(c: Program, l: Chain, t: T.Ledger, tx: Transaction) {
    && (Step(c, l, tx).Accepted? ==>
          && NamesItsAccounts(c, tx)
          && TypedStep(c, t, tx).Accepted?
          && TypedStep(c, t, tx).calls == Step(c, l, tx).calls
          && Refines(c, Step(c, l, tx).ledger, TypedStep(c, t, tx).ledger))
    && (TypedStep(c, t, tx).Accepted? && NamesItsAccounts(c, tx) && NoForeign(c, l, tx.ix) ==>
          Step(c, l, tx).Accepted?)
  }

  /** The hypotheses of every simulation lemma. */
  ghost predicate Ready(c: Program, l: Chain, t: T.Ledger, tx: Transaction, keys: set<Key>) {
    Refines(c, l, t) && T.Inv(c, t) && DistinctAddresses(c, keys) && t.Keys <= keys && KeySet(tx.ix) <= keys
  }

  lemma StateDecodes(c: Program, l: Chain, t: T.Ledger, createKey: Hash, keys: set<Key>)
    requires Refines(c, l, t) && T.Inv(c, t) && DistinctAddresses(c, keys)
    requires t.Keys <= keys && StateKey(createKey) in keys
    ensures Owned(c, l, StateKey(createKey)) <==> StateKey(createKey) in t
    ensures Owned(c, l, StateKey(createKey)) <==> T.StateOf(t, createKey).Some?
    ensures Owned(c, l, StateKey(createKey)) ==> StateAt(c, l, createKey) == T.StateOf(t, createKey)
  {
    hide Program.Addr, EncodeState, DecodeState;
    var k := StateKey(createKey);
    OwnedIsPresent(c, l, t, k, keys);
    if k in t {
      assert T.GoodAccount(c, t, k);
      StateCodec(EncodeState(t[k].state), t[k].state);
    }
  }

  lemma ProposalDecodes(c: Program, l: Chain, t: T.Ledger, createKey: Hash, index: u64, keys: set<Key>)
    requires Refines(c, l, t) && T.Inv(c, t) && DistinctAddresses(c, keys) && t.Keys <= keys
    requires ProposalKey(createKey, index) in keys
    ensures Owned(c, l, ProposalKey(createKey, index)) <==> ProposalKey(createKey, index) in t
    ensures Owned(c, l, ProposalKey(createKey, index)) <==> T.ProposalOf(t, createKey, index).Some?
    ensures Owned(c, l, ProposalKey(createKey, index)) ==>
      ProposalAt(c, l, createKey, index) == T.ProposalOf(t, createKey, index)
  {
    hide Program.Addr, EncodeProposal, DecodeProposal;
    var k := ProposalKey(createKey, index);
    OwnedIsPresent(c, l, t, k, keys);
    if k in t {
      assert T.GoodAccount(c, t, k);
      ProposalCodec(EncodeProposal(t[k].proposal), t[k].proposal);
    }
  }

  lemma VaultIsEmpty(c: Program, l: Chain, t: T.Ledger, createKey: Hash, keys: set<Key>)
    requires Refines(c, l, t) && T.Inv(c, t) && DistinctAddresses(c, keys)
    requires t.Keys <= keys && VaultKey(createKey) in keys
    ensures Owned(c, l, VaultKey(createKey)) <==> VaultKey(createKey) in t
    ensures Owned(c, l, VaultKey(createKey)) ==> l[c.Addr(VaultKey(createKey))].data == []
  {
    hide Program.Addr, EncodeState, EncodeProposal;
    var k := VaultKey(createKey);
    OwnedIsPresent(c, l, t, k, keys);
    if k in t {
      assert T.GoodAccount(c, t, k);
    }
  }

  /** An address without a foreign account is free exactly when the typed account is absent. */
  lemma AbsentIsMissing(c: Program, l: Chain, t: T.Ledger, tx: Transaction, k: Key, keys: set<Key>)
    requires Ready(c, l, t, tx, keys) && k in KeySet(tx.ix)
    ensures Absent(c, l, k) ==> k !in t
    ensures NoForeign(c, l, tx.ix) && k !in t ==> Absent(c, l, k)
  {
    OwnedIsPresent(c, l, t, k, keys);
  }

  lemma CreateSimulates(c: Program, l: Chain, t: T.Ledger, tx: Transaction, keys: set<Key>)
    requires Ready(c, l, t, tx, keys) && tx.ix.CreateMultisig?
    ensures Agree(c, l, t, tx)
  {
    hide Program.Addr, EncodeState, T.GoodAccount, Refines;
    var k := StateKey(tx.ix.createKey);
    assert k in KeySet(tx.ix);
    AbsentIsMissing(c, l, t, tx, k, keys);
    var s := CheckCreate(tx.ix.createKey, tx.ix.membersRoot, tx.ix.m, tx.ix.n);
    if s.Ok? {
      WriteRefines(c, l, t, k, T.StateBody(s.value), keys);
    }
  }

  lemma VaultSimulates(c: Program, l: Chain, t: T.Ledger, tx: Transaction, keys: set<Key>)
    requires Ready(c, l, t, tx, keys) && tx.ix.CreateVault?
    ensures Agree(c, l, t, tx)
  {
    hide Program.Addr, EncodeState, DecodeState, T.GoodAccount, Refines;
    var k := VaultKey(tx.ix.createKey);
    assert k in KeySet(tx.ix) && StateKey(tx.ix.createKey) in KeySet(tx.ix);
    StateDecodes(c, l, t, tx.ix.createKey, keys);
    AbsentIsMissing(c, l, t, tx, k, keys);
    WriteRefines(c, l, t, k, T.VaultBody, keys);
  }

  lemma ProposeSimulates(c: Program, l: Chain, t: T.Ledger, tx: Transaction, keys: set<Key>)
    requires Ready(c, l, t, tx, keys) && tx.ix.Propose?
    ensures Agree(c, l, t, tx)
  {
    hide Program.Addr, EncodeState, DecodeState, EncodeProposal, T.GoodAccount, Refines;
    var k, state := ProposalKey(tx.ix.createKey, tx.ix.index), StateKey(tx.ix.createKey);
    assert k in KeySet(tx.ix) && state in KeySet(tx.ix);
    StateDecodes(c, l, t, tx.ix.createKey, keys);
    AbsentIsMissing(c, l, t, tx, k, keys);
    var s := CheckPropose(T.StateOf(t, tx.ix.createKey), tx.ix.index, tx.ix.actionBytes);
    if s.Ok? {
      var body := T.StateBody(s.value);
      WriteRefines(c, l, t, state, body, keys);
      WriteRefines(c, Write(c, l, state, EncodeBody(body)), t[state := body], k,
                   T.ProposalBody(Proposal(tx.ix.actionBytes, tx.ix.targetProgram, 0, false)), keys);
    }
  }

  lemma ApproveSimulates(c: Program, l: Chain, t: T.Ledger, tx: Transaction, keys: set<Key>)
    requires Ready(c, l, t, tx, keys) && tx.ix.Approve?
    ensures Agree(c, l, t, tx)
  {
    hide Program.Addr, EncodeState, DecodeState, EncodeProposal, DecodeProposal, T.GoodAccount, Refines, CheckApprove;
    var ck, i := tx.ix.createKey, tx.ix.index;
    var k, entry := ProposalKey(ck, i), NullifierKey(ck, i, tx.ix.nullifier);
    assert k in KeySet(tx.ix) && StateKey(ck) in KeySet(tx.ix) && entry in KeySet(tx.ix);
    StateDecodes(c, l, t, ck, keys);
    ProposalDecodes(c, l, t, ck, i, keys);
    AbsentIsMissing(c, l, t, tx, entry, keys);
    if T.StateOf(t, ck).Some? && T.ProposalOf(t, ck, i).Some? {
      var p := CheckApprove(c, ck, i, tx.ix.nullifier, tx.ix.publicInputs, tx.receipt,
                            T.StateOf(t, ck), T.ProposalOf(t, ck, i));
      if p.Ok? && TypedStep(c, t, tx).Accepted? {
        var body := T.ProposalBody(p.value);
        WriteRefines(c, l, t, k, body, keys);
        WriteRefines(c, Write(c, l, k, EncodeBody(body)), t[k := body], entry,
                     TypedStep(c, t, tx).ledger[entry], keys);
      }
    }
  }

  lemma ExecuteSimulates(c: Program, l: Chain, t: T.Ledger, tx: Transaction, keys: set<Key>)
    requires Ready(c, l, t, tx, keys) && tx.ix.Execute?
    ensures Agree(c, l, t, tx)
  {
    hide Program.Addr, EncodeState, DecodeState, EncodeProposal, DecodeProposal, T.GoodAccount, Refines;
    var ck, i := tx.ix.createKey, tx.ix.index;
    var k := ProposalKey(ck, i);
    assert k in KeySet(tx.ix) && StateKey(ck) in KeySet(tx.ix) && VaultKey(ck) in KeySet(tx.ix);
    StateDecodes(c, l, t, ck, keys);
    ProposalDecodes(c, l, t, ck, i, keys);
    VaultIsEmpty(c, l, t, ck, keys);
    var p := CheckExecute(T.StateOf(t, ck), T.ProposalOf(t, ck, i));
    if p.Ok? {
      WriteRefines(c, l, t, k, T.ProposalBody(p.value), keys);
    }
  }

  lemma RejectSimulates(c: Program, l: Chain, t: T.Ledger, tx: Transaction, keys: set<Key>)
    requires Ready(c, l, t, tx, keys) && tx.ix.Reject?
    ensures Agree(c, l, t, tx)
  {
    hide Program.Addr, EncodeState, DecodeState, T.GoodAccount, Refines;
    assert StateKey(tx.ix.createKey) in KeySet(tx.ix);
    StateDecodes(c, l, t, tx.ix.createKey, keys);
  }

  /**
   * Simulation: whenever the chain accepts, the typed ledger accepts with the same calls and the
   * results correspond; conversely the chain accepts whatever the typed ledger accepts, provided the
   * transaction names its accounts and no foreign account sits on them.
   */
  lemma StepSimulates(c: Program, l: Chain, t: T.Ledger, tx: Transaction, keys: set<Key>)
    requires Ready(c, l, t, tx, keys)
    ensures Agree(c, l, t, tx)
  {
    hide Agree, Ready;
    match tx.ix
    case CreateMultisig(_, _, _, _) => CreateSimulates(c, l, t, tx, keys);
    case CreateVault(_) => VaultSimulates(c, l, t, tx, keys);
    case Propose(_, _, _, _) => ProposeSimulates(c, l, t, tx, keys);
    case Approve(_, _, _, _) => ApproveSimulates(c, l, t, tx, keys);
    case Execute(_, _) => ExecuteSimulates(c, l, t, tx, keys);
    case Reject(_) => RejectSimulates(c, l, t, tx, keys);
  }
}
