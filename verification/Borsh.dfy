/** The Borsh encoding of account bodies and instructions. */
module Borsh {
  import opened ByteStrings
  import opened CoreTypes

  /** A value read off the front of a byte string, and what is left. */
  datatype Parsed<+T> = Malformed | Parsed(value: T, rest: seq<byte>) {
    predicate IsFailure() { Malformed? }
    function PropagateFailure<U>(): (r: Parsed<U>) requires Malformed? { Malformed }
    function Extract(): (T, seq<byte>) requires Parsed? { (value, rest) }
  }

  /** Borsh refuses input left over after the value. */
  function Strict<T>(p: Parsed<T>): (r: Option<T>) {
    match p
    case Parsed(value, rest) => if rest == [] then Some(value) else None
    case Malformed => None
  }

  // ---------- Fields: `Put` writes in front of a tail, `Get` reads off the front ----------

  function PutU32(x: u32, tail: seq<byte>): (r: seq<byte>) {
    LittleEndian(x, 4) + tail
  }

  function PutU64(x: u64, tail: seq<byte>): (r: seq<byte>) {
    LittleEndian(x, 8) + tail
  }

  function PutVec(v: ByteVec, tail: seq<byte>): (r: seq<byte>) {
    PutU32(|v|, v + tail)
  }

  function PutBool(b: bool, tail: seq<byte>): (r: seq<byte>) {
    [if b then 1 else 0] + tail
  }

  function GetBytes(b: seq<byte>, n: nat): (r: Parsed<seq<byte>>)
    ensures r.Parsed? ==> |r.value| == n && b == r.value + r.rest
    ensures r.Parsed? <==> |b| >= n
  {
    if |b| < n then Malformed else Parsed(b[..n], b[n..])
  }

  function GetHash(b: seq<byte>): (r: Parsed<Hash>)
    ensures r.Parsed? ==> b == r.value + r.rest
    ensures r.Parsed? <==> |b| >= 32
  {
    if |b| < 32 then Malformed else Parsed(b[..32], b[32..])
  }

  function GetU8(b: seq<byte>): (r: Parsed<byte>)
    ensures r.Parsed? ==> b == [r.value] + r.rest
  {
    if |b| < 1 then Malformed else Parsed(b[0], b[1..])
  }

  function GetU32(b: seq<byte>): (r: Parsed<u32>)
    ensures r.Parsed? ==> b == PutU32(r.value, r.rest)
  {
    if |b| < 4 then Malformed else
      Widths();
      EncodesWhatItDecodes(b[..4]);
      Parsed(FromLittleEndian(b[..4]), b[4..])
  }

  function GetU64(b: seq<byte>): (r: Parsed<u64>)
    ensures r.Parsed? ==> b == PutU64(r.value, r.rest)
  {
    if |b| < 8 then Malformed else
      Widths();
      EncodesWhatItDecodes(b[..8]);
      Parsed(FromLittleEndian(b[..8]), b[8..])
  }

  function GetVec(b: seq<byte>): (r: Parsed<ByteVec>)
    ensures r.Parsed? ==> b == PutVec(r.value, r.rest)
  {
    var (len, afterLen) :- GetU32(b);
    var (v, rest) :- GetBytes(afterLen, len);
    Parsed(v, rest)
  }

  function GetBool(b: seq<byte>): (r: Parsed<bool>)
    ensures r.Parsed? ==> b == PutBool(r.value, r.rest)
  {
    var (x, rest) :- GetU8(b);
    if x == 0 then Parsed(false, rest) else if x == 1 then Parsed(true, rest) else Malformed
  }

  lemma GetsHash(x: Hash, tail: seq<byte>)
    ensures GetHash(x + tail) == Parsed(x, tail)
  {
    assert (x + tail)[..32] == x && (x + tail)[32..] == tail;
  }

  lemma GetsU8(x: byte, tail: seq<byte>)
    ensures GetU8([x] + tail) == Parsed(x, tail)
  {
  }

  lemma GetsU32(x: u32, tail: seq<byte>)
    ensures GetU32(PutU32(x, tail)) == Parsed(x, tail)
  {
    Widths();
    DecodesWhatItEncodes(x, 4);
    assert PutU32(x, tail)[..4] == LittleEndian(x, 4) && PutU32(x, tail)[4..] == tail;
  }

  lemma GetsU64(x: u64, tail: seq<byte>)
    ensures GetU64(PutU64(x, tail)) == Parsed(x, tail)
  {
    Widths();
    DecodesWhatItEncodes(x, 8);
    assert PutU64(x, tail)[..8] == LittleEndian(x, 8) && PutU64(x, tail)[8..] == tail;
  }

  lemma GetsVec(v: ByteVec, tail: seq<byte>)
    ensures GetVec(PutVec(v, tail)) == Parsed(v, tail)
  {
    GetsU32(|v|, v + tail);
    assert (v + tail)[..|v|] == v && (v + tail)[|v|..] == tail;
  }

  lemma GetsBool(b: bool, tail: seq<byte>)
    ensures GetBool(PutBool(b, tail)) == Parsed(b, tail)
  {
    GetsU8(if b then 1 else 0, tail);
  }

  lemma Reassociate(a: seq<byte>, b: seq<byte>, c: seq<byte>)
    ensures a + (b + c) == (a + b) + c
  {
  }

  // ---------- MultisigState ----------

  function PutState(s: MultisigState, tail: seq<byte>): (r: seq<byte>) {
    s.createKey + (s.membersRoot + ([s.m] + PutU32(s.n, PutU64(s.proposalCount, tail))))
  }

  function GetState(b: seq<byte>): (r: Parsed<MultisigState>)
    ensures r.Parsed? ==> b == PutState(r.value, r.rest)
  {
    var (createKey, b1) :- GetHash(b);
    var (membersRoot, b2) :- GetHash(b1);
    var (m, b3) :- GetU8(b2);
    var (n, b4) :- GetU32(b3);
    var (proposalCount, rest) :- GetU64(b4);
    Parsed(MultisigState(createKey, membersRoot, m, n, proposalCount), rest)
  }

  function EncodeState(s: MultisigState): (r: seq<byte>) { PutState(s, []) }

  function DecodeState(b: seq<byte>): (r: Option<MultisigState>) { Strict(GetState(b)) }

  lemma GetsState(s: MultisigState, tail: seq<byte>)
    ensures GetState(PutState(s, tail)) == Parsed(s, tail)
  {
    hide PutU32, PutU64, GetU32, GetU64, GetHash, GetU8;
    var b4 := PutU64(s.proposalCount, tail);
    var b3 := PutU32(s.n, b4);
    var b2 := [s.m] + b3;
    GetsHash(s.createKey, s.membersRoot + b2);
    GetsHash(s.membersRoot, b2);
    GetsU8(s.m, b3);
    GetsU32(s.n, b4);
    GetsU64(s.proposalCount, tail);
  }

  lemma StateTail(s: MultisigState, tail: seq<byte>)
    ensures PutState(s, tail) == EncodeState(s) + tail
  {
    hide LittleEndian;
    var n, c := LittleEndian(s.n, 4), LittleEndian(s.proposalCount, 8);
    assert PutState(s, tail) == s.createKey + s.membersRoot + [s.m] + n + c + tail;
    assert EncodeState(s) == s.createKey + s.membersRoot + [s.m] + n + c;
  }

  /** A byte string is accepted as a state exactly when it is the encoding of that state. */
  lemma StateCodec(b: seq<byte>, s: MultisigState)
    ensures DecodeState(b) == Some(s) <==> b == EncodeState(s)
  {
    GetsState(s, []);
  }

  // ---------- Proposal ----------

  function PutProposal(p: Proposal, tail: seq<byte>): (r: seq<byte>) {
    PutVec(p.actionBytes, p.targetProgram + PutU32(p.approvalsCount, PutBool(p.executed, tail)))
  }

  function GetProposal(b: seq<byte>): (r: Parsed<Proposal>)
    ensures r.Parsed? ==> b == PutProposal(r.value, r.rest)
  {
    var (actionBytes, b1) :- GetVec(b);
    var (targetProgram, b2) :- GetHash(b1);
    var (approvalsCount, b3) :- GetU32(b2);
    var (executed, rest) :- GetBool(b3);
    Parsed(Proposal(actionBytes, targetProgram, approvalsCount, executed), rest)
  }

  function EncodeProposal(p: Proposal): (r: seq<byte>) { PutProposal(p, []) }

  function DecodeProposal(b: seq<byte>): (r: Option<Proposal>) { Strict(GetProposal(b)) }

  lemma GetsProposal(p: Proposal, tail: seq<byte>)
    ensures GetProposal(PutProposal(p, tail)) == Parsed(p, tail)
  {
    hide PutU32, PutVec, PutBool, GetU32, GetVec, GetHash, GetBool;
    var b3 := PutBool(p.executed, tail);
    var b2 := PutU32(p.approvalsCount, b3);
    GetsVec(p.actionBytes, p.targetProgram + b2);
    GetsHash(p.targetProgram, b2);
    GetsU32(p.approvalsCount, b3);
    GetsBool(p.executed, tail);
  }

  lemma ProposalTail(p: Proposal, tail: seq<byte>)
    ensures PutProposal(p, tail) == EncodeProposal(p) + tail
  {
    hide LittleEndian;
    var len, c, e := LittleEndian(|p.actionBytes|, 4), LittleEndian(p.approvalsCount, 4), [if p.executed then 1 else 0];
    assert PutProposal(p, tail) == len + p.actionBytes + p.targetProgram + c + e + tail;
    assert EncodeProposal(p) == len + p.actionBytes + p.targetProgram + c + e;
  }

  /** A byte string is accepted as a proposal exactly when it is the encoding of that proposal. */
  lemma ProposalCodec(b: seq<byte>, p: Proposal)
    ensures DecodeProposal(b) == Some(p) <==> b == EncodeProposal(p)
  {
    GetsProposal(p, []);
  }

  // ---------- Instruction ----------

  function PutInstruction(ix: Instruction, tail: seq<byte>): (r: seq<byte>) {
    match ix
    case CreateMultisig(createKey, membersRoot, m, n) =>
      [0] + (createKey + (membersRoot + ([m] + PutU32(n, tail))))
    case Propose(createKey, index, actionBytes, targetProgram) =>
      [1] + (createKey + PutU64(index, PutVec(actionBytes, targetProgram + tail)))
    case Approve(createKey, index, nullifier, publicInputs) =>
      [2] + (createKey + PutU64(index, nullifier + PutVec(publicInputs, tail)))
    case Execute(createKey, index) =>
      [3] + (createKey + PutU64(index, tail))
    case CreateVault(createKey) =>
      [4] + (createKey + tail)
    case Reject(createKey) =>
      [5] + (createKey + tail)
  }

  function GetInstruction(b: seq<byte>): (r: Parsed<Instruction>)
    ensures r.Parsed? ==> b == PutInstruction(r.value, r.rest)
  {
    var (discriminant, b0) :- GetU8(b);
    if discriminant > 5 then Malformed else
      var (createKey, b1) :- GetHash(b0);
      match discriminant
      case 0 =>
        var (membersRoot, b2) :- GetHash(b1);
        var (m, b3) :- GetU8(b2);
        var (n, rest) :- GetU32(b3);
        Parsed(CreateMultisig(createKey, membersRoot, m, n), rest)
      case 1 =>
        var (index, b2) :- GetU64(b1);
        var (actionBytes, b3) :- GetVec(b2);
        var (targetProgram, rest) :- GetHash(b3);
        Parsed(Propose(createKey, index, actionBytes, targetProgram), rest)
      case 2 =>
        var (index, b2) :- GetU64(b1);
        var (nullifier, b3) :- GetHash(b2);
        var (publicInputs, rest) :- GetVec(b3);
        Parsed(Approve(createKey, index, nullifier, publicInputs), rest)
      case 3 =>
        var (index, rest) :- GetU64(b1);
        Parsed(Execute(createKey, index), rest)
      case 4 => Parsed(CreateVault(createKey), b1)
      case _ => Parsed(Reject(createKey), b1)
  }

  function EncodeInstruction(ix: Instruction): (r: seq<byte>) { PutInstruction(ix, []) }

  function DecodeInstruction(b: seq<byte>): (r: Option<Instruction>) { Strict(GetInstruction(b)) }

  lemma GetsInstruction(ix: Instruction, tail: seq<byte>)
    ensures GetInstruction(PutInstruction(ix, tail)) == Parsed(ix, tail)
  {
    hide PutU32, PutU64, PutVec, GetU32, GetU64, GetVec, GetHash, GetU8;
    match ix
    case CreateMultisig(createKey, membersRoot, m, n) =>
      var b2 := [m] + PutU32(n, tail);
      GetsU8(0, createKey + (membersRoot + b2));
      GetsHash(createKey, membersRoot + b2);
      GetsHash(membersRoot, b2);
      GetsU8(m, PutU32(n, tail));
      GetsU32(n, tail);
    case Propose(createKey, index, actionBytes, targetProgram) =>
      var b2 := PutVec(actionBytes, targetProgram + tail);
      GetsU8(1, createKey + PutU64(index, b2));
      GetsHash(createKey, PutU64(index, b2));
      GetsU64(index, b2);
      GetsVec(actionBytes, targetProgram + tail);
      GetsHash(targetProgram, tail);
    case Approve(createKey, index, nullifier, publicInputs) =>
      var b3 := PutVec(publicInputs, tail);
      GetsU8(2, createKey + PutU64(index, nullifier + b3));
      GetsHash(createKey, PutU64(index, nullifier + b3));
      GetsU64(index, nullifier + b3);
      GetsHash(nullifier, b3);
      GetsVec(publicInputs, tail);
    case Execute(createKey, index) =>
      GetsU8(3, createKey + PutU64(index, tail));
      GetsHash(createKey, PutU64(index, tail));
      GetsU64(index, tail);
    case CreateVault(createKey) =>
      GetsU8(4, createKey + tail);
      GetsHash(createKey, tail);
    case Reject(createKey) =>
      GetsU8(5, createKey + tail);
      GetsHash(createKey, tail);
  }

  lemma Regroup(a: seq<byte>, b: seq<byte>, c: seq<byte>, d: seq<byte>, e: seq<byte>, f: seq<byte>, tail: seq<byte>)
    ensures a + (b + (c + (d + (e + (f + tail))))) == (a + b + c + d + e + f) + tail
    ensures [] + tail == tail
  {
  }

  lemma InstructionTail(ix: Instruction, tail: seq<byte>)
    ensures PutInstruction(ix, tail) == EncodeInstruction(ix) + tail
  {
    hide LittleEndian;
    match ix
    case CreateMultisig(createKey, membersRoot, m, n) =>
      Regroup([0], createKey, membersRoot, [m], LittleEndian(n, 4), [], tail);
      Regroup([0], createKey, membersRoot, [m], LittleEndian(n, 4), [], []);
    case Propose(createKey, index, actionBytes, targetProgram) =>
      Regroup([1], createKey, LittleEndian(index, 8), LittleEndian(|actionBytes|, 4), actionBytes, targetProgram, tail);
      Regroup([1], createKey, LittleEndian(index, 8), LittleEndian(|actionBytes|, 4), actionBytes, targetProgram, []);
    case Approve(createKey, index, nullifier, publicInputs) =>
      Regroup([2], createKey, LittleEndian(index, 8), nullifier, LittleEndian(|publicInputs|, 4), publicInputs, tail);
      Regroup([2], createKey, LittleEndian(index, 8), nullifier, LittleEndian(|publicInputs|, 4), publicInputs, []);
    case Execute(createKey, index) =>
      Reassociate([3], createKey, LittleEndian(index, 8) + tail);
      Reassociate([3], createKey, LittleEndian(index, 8) + []);
      Reassociate([3] + createKey, LittleEndian(index, 8), tail);
    case CreateVault(createKey) =>
      Reassociate([4], createKey, tail);
    case Reject(createKey) =>
      Reassociate([5], createKey, tail);
  }

  /** A byte string is accepted as an instruction exactly when it is the encoding of that instruction. */
  lemma InstructionCodec(b: seq<byte>, ix: Instruction)
    ensures DecodeInstruction(b) == Some(ix) <==> b == EncodeInstruction(ix)
  {
    GetsInstruction(ix, []);
  }

  lemma NoStateExtension(s: MultisigState, extra: seq<byte>)
    requires extra != []
    ensures DecodeState(EncodeState(s) + extra) == None
  {
    GetsState(s, extra);
    StateTail(s, extra);
  }

  lemma NoProposalExtension(p: Proposal, extra: seq<byte>)
    requires extra != []
    ensures DecodeProposal(EncodeProposal(p) + extra) == None
  {
    GetsProposal(p, extra);
    ProposalTail(p, extra);
  }

  lemma NoInstructionExtension(ix: Instruction, extra: seq<byte>)
    requires extra != []
    ensures DecodeInstruction(EncodeInstruction(ix) + extra) == None
  {
    GetsInstruction(ix, extra);
    InstructionTail(ix, extra);
  }

  /**
   * Neither a strict prefix nor an extension of an encoding is accepted, for any of the three types:
   * one encoding is never the front of another.
   */
  lemma PrefixFree(s: MultisigState, p: Proposal, ix: Instruction, extra: seq<byte>)
    requires extra != []
    ensures DecodeState(EncodeState(s) + extra) == None
    ensures DecodeProposal(EncodeProposal(p) + extra) == None
    ensures DecodeInstruction(EncodeInstruction(ix) + extra) == None
    ensures forall prefix: seq<byte> :: prefix + extra == EncodeState(s) ==> DecodeState(prefix) == None
    ensures forall prefix: seq<byte> :: prefix + extra == EncodeProposal(p) ==> DecodeProposal(prefix) == None
    ensures forall prefix: seq<byte> :: prefix + extra == EncodeInstruction(ix) ==> DecodeInstruction(prefix) == None
  {
    NoStateExtension(s, extra);
    NoProposalExtension(p, extra);
    NoInstructionExtension(ix, extra);
    forall prefix: seq<byte> | prefix + extra == EncodeState(s) ensures DecodeState(prefix) == None {
      if DecodeState(prefix).Some? {
        NoStateExtension(DecodeState(prefix).value, extra);
        StateCodec(prefix, DecodeState(prefix).value);
        StateCodec(prefix + extra, s);
        assert false;
      }
    }
    forall prefix: seq<byte> | prefix + extra == EncodeProposal(p) ensures DecodeProposal(prefix) == None {
      if DecodeProposal(prefix).Some? {
        NoProposalExtension(DecodeProposal(prefix).value, extra);
        ProposalCodec(prefix, DecodeProposal(prefix).value);
        ProposalCodec(prefix + extra, p);
        assert false;
      }
    }
    forall prefix: seq<byte> | prefix + extra == EncodeInstruction(ix) ensures DecodeInstruction(prefix) == None {
      if DecodeInstruction(prefix).Some? {
        NoInstructionExtension(DecodeInstruction(prefix).value, extra);
        InstructionCodec(prefix, DecodeInstruction(prefix).value);
        InstructionCodec(prefix + extra, ix);
        assert false;
      }
    }
  }

  lemma LastByteIsFlag(p: Proposal)
    ensures var b := EncodeProposal(p); b != [] && b[|b| - 1] <= 1
  {
    hide LittleEndian;
    var flag := [if p.executed then 1 else 0];
    var front := LittleEndian(|p.actionBytes|, 4) + p.actionBytes + p.targetProgram + LittleEndian(p.approvalsCount, 4);
    assert EncodeProposal(p) == front + flag;
  }

  /** Discriminants above 5 and flag bytes above 1 are refused, whatever surrounds them. */
  lemma BadTagsRefused(b: seq<byte>)
    requires b != []
    ensures b[0] > 5 ==> DecodeInstruction(b) == None
    ensures b[|b| - 1] > 1 ==> DecodeProposal(b) == None
  {
    hide GetInstruction, GetProposal, LittleEndian;
    if DecodeProposal(b).Some? {
      ProposalCodec(b, DecodeProposal(b).value);
      LastByteIsFlag(DecodeProposal(b).value);
    }
    if DecodeInstruction(b).Some? {
      InstructionCodec(b, DecodeInstruction(b).value);
    }
  }
}
