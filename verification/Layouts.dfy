/**
 * The wire formats, byte by byte: what stands at which offset of every encoding and of every hashed
 * input, stated without the encoders' own parts.
 */
module Layouts {
  import opened ByteStrings
  import opened CoreTypes
  import opened Hashing
  import opened Identities
  import opened Merkle
  import opened ProposalIds
  import opened Addresses
  import opened ApproveCircuit
  import opened Handlers
  import opened Borsh

  // ---------- Integers and text ----------

  /** What four bytes are worth, least significant first. */
  function Worth(b: seq<byte>, at: nat): (r: nat)
    requires at + 4 <= |b|
  {
    var w: seq<int> := b[at..at + 4];
    w[0] + 0x100 * w[1] + 0x1_0000 * w[2] + 0x100_0000 * w[3]
  }

  /** The four bytes of `b` from `at` are those of `x`, least significant first. */
  ghost predicate HoldsU32(b: seq<byte>, at: nat, x: u32) {
    at + 4 <= |b| && Worth(b, at) == x
  }

  /** The eight bytes of `b` from `at` are those of `x`, least significant first. */
  ghost predicate HoldsU64(b: seq<byte>, at: nat, x: u64) {
    at + 8 <= |b| && Worth(b, at) + 0x1_0000_0000 * Worth(b, at + 4) == x
  }

  /** An encoding starts with what four bytes are worth, and goes on with the rest. */
  lemma FourBytes(x: nat, width: nat) returns (rest: nat)
    requires width >= 4
    ensures Worth(LittleEndian(x, width), 0) + 0x1_0000_0000 * rest == x
    ensures LittleEndian(x, width)[4..] == LittleEndian(rest, width - 4)
  {
    rest := x / 256 / 256 / 256 / 256;
    var x1, x2, x3 := x / 256, x / 256 / 256, x / 256 / 256 / 256;
    assert LittleEndian(x, width) == [x % 256] + LittleEndian(x1, width - 1);
    assert LittleEndian(x1, width - 1) == [x1 % 256] + LittleEndian(x2, width - 2);
    assert LittleEndian(x2, width - 2) == [x2 % 256] + LittleEndian(x3, width - 3);
    assert LittleEndian(x3, width - 3) == [x3 % 256] + LittleEndian(x3 / 256, width - 4);
  }

  lemma U32Bytes(b: seq<byte>, at: nat, x: u32)
    requires at + 4 <= |b| && b[at..at + 4] == LittleEndian(x, 4)
    ensures HoldsU32(b, at, x)
  {
    hide LittleEndian;
    var rest := FourBytes(x, 4);
    var e := b[at..at + 4];
    assert b[at] == e[0] && b[at + 1] == e[1] && b[at + 2] == e[2] && b[at + 3] == e[3];
  }

  lemma U64Bytes(b: seq<byte>, at: nat, x: u64)
    requires at + 8 <= |b| && b[at..at + 8] == LittleEndian(x, 8)
    ensures HoldsU64(b, at, x)
  {
    hide LittleEndian;
    var high := FourBytes(x, 8);
    var e := b[at..at + 8];
    assert b[at] == e[0] && b[at + 1] == e[1] && b[at + 2] == e[2] && b[at + 3] == e[3];
    assert b[at + 4..at + 4 + 4] == e[4..];
    U32Bytes(b, at + 4, high);
  }

  /** The codes of a text of single-byte characters. */
  function Ascii(s: string): (r: seq<byte>)
    requires forall i :: 0 <= i < |s| ==> s[i] < 128 as char
    ensures |r| == |s|
  {
    seq(|s|, i requires 0 <= i < |s| => s[i] as int)
  }

  // ---------- Account bodies ----------

  lemma StateLayout(s: MultisigState)
    ensures
      var b := EncodeState(s);
      && |b| == 77
      && b[..32] == s.createKey && b[32..64] == s.membersRoot && b[64] == s.m
      && HoldsU32(b, 65, s.n) && HoldsU64(b, 69, s.proposalCount)
  {
    hide LittleEndian;
    var b := EncodeState(s);
    var n, count := LittleEndian(s.n, 4), LittleEndian(s.proposalCount, 8);
    assert b == s.createKey + s.membersRoot + [s.m] + n + count;
    assert b[65..65 + 4] == n && b[69..69 + 8] == count;
    U32Bytes(b, 65, s.n);
    U64Bytes(b, 69, s.proposalCount);
  }

  lemma ProposalLayout(p: Proposal)
    ensures
      var b, end := EncodeProposal(p), 4 + |p.actionBytes|;
      && |b| == end + 37
      && HoldsU32(b, 0, |p.actionBytes|) && b[4..end] == p.actionBytes
      && b[end..end + 32] == p.targetProgram && HoldsU32(b, end + 32, p.approvalsCount)
      && b[end + 36] == (if p.executed then 1 else 0)
  {
    hide LittleEndian;
    var b, end := EncodeProposal(p), 4 + |p.actionBytes|;
    var len, count := LittleEndian(|p.actionBytes|, 4), LittleEndian(p.approvalsCount, 4);
    assert b == len + p.actionBytes + p.targetProgram + count + [if p.executed then 1 else 0];
    assert b[0..0 + 4] == len && b[end + 32..end + 32 + 4] == count;
    U32Bytes(b, 0, |p.actionBytes|);
    U32Bytes(b, end + 32, p.approvalsCount);
  }

  // ---------- Instructions ----------

  /** Six discriminants in order, then the create key, then the fields in declaration order. */
  ghost predicate HasLayout(b: seq<byte>, ix: Instruction) {
    && |b| >= 33 && b[1..33] == ix.createKey
    && match ix
       case CreateMultisig(_, membersRoot, m, n) =>
         |b| == 70 && b[0] == 0 && b[33..65] == membersRoot && b[65] == m && HoldsU32(b, 66, n)
       case Propose(_, index, actionBytes, targetProgram) =>
         && |b| == 77 + |actionBytes| && b[0] == 1 && HoldsU64(b, 33, index) && HoldsU32(b, 41, |actionBytes|)
         && b[45..45 + |actionBytes|] == actionBytes && b[45 + |actionBytes|..] == targetProgram
       case Approve(_, index, nullifier, publicInputs) =>
         && |b| == 77 + |publicInputs| && b[0] == 2 && HoldsU64(b, 33, index) && b[41..73] == nullifier
         && HoldsU32(b, 73, |publicInputs|) && b[77..] == publicInputs
       case Execute(_, index) => |b| == 41 && b[0] == 3 && HoldsU64(b, 33, index)
       case CreateVault(_) => |b| == 33 && b[0] == 4
       case Reject(_) => |b| == 33 && b[0] == 5
  }

  lemma ProposeLayout(createKey: Hash, index: u64, actionBytes: ByteVec, targetProgram: Hash)
    ensures HasLayout(EncodeInstruction(Propose(createKey, index, actionBytes, targetProgram)),
                      Propose(createKey, index, actionBytes, targetProgram))
  {
    hide LittleEndian, HoldsU32, HoldsU64;
    var b := EncodeInstruction(Propose(createKey, index, actionBytes, targetProgram));
    var i, len := LittleEndian(index, 8), LittleEndian(|actionBytes|, 4);
    assert b == [1] + createKey + i + len + actionBytes + targetProgram;
    assert b[33..33 + 8] == i && b[41..41 + 4] == len;
    U64Bytes(b, 33, index);
    U32Bytes(b, 41, |actionBytes|);
  }

  lemma ApproveLayout(createKey: Hash, index: u64, nullifier: Hash, publicInputs: ByteVec)
    ensures HasLayout(EncodeInstruction(Approve(createKey, index, nullifier, publicInputs)),
                      Approve(createKey, index, nullifier, publicInputs))
  {
    hide LittleEndian, HoldsU32, HoldsU64;
    var b := EncodeInstruction(Approve(createKey, index, nullifier, publicInputs));
    var i, len := LittleEndian(index, 8), LittleEndian(|publicInputs|, 4);
    assert b == [2] + createKey + i + nullifier + len + publicInputs;
    assert b[33..33 + 8] == i && b[73..73 + 4] == len;
    U64Bytes(b, 33, index);
    U32Bytes(b, 73, |publicInputs|);
  }

  lemma CreateMultisigLayout(createKey: Hash, membersRoot: Hash, m: byte, n: u32)
    ensures HasLayout(EncodeInstruction(CreateMultisig(createKey, membersRoot, m, n)),
                      CreateMultisig(createKey, membersRoot, m, n))
  {
    hide LittleEndian, HoldsU32, HoldsU64;
    var b, last := EncodeInstruction(CreateMultisig(createKey, membersRoot, m, n)), LittleEndian(n, 4);
    assert b == [0] + createKey + membersRoot + [m] + last;
    assert b[66..66 + 4] == last;
    U32Bytes(b, 66, n);
  }

  lemma ExecuteLayout(createKey: Hash, index: u64)
    ensures HasLayout(EncodeInstruction(Execute(createKey, index)), Execute(createKey, index))
  {
    hide LittleEndian, HoldsU32, HoldsU64;
    var b, last := EncodeInstruction(Execute(createKey, index)), LittleEndian(index, 8);
    assert b == [3] + createKey + last;
    assert b[33..33 + 8] == last;
    U64Bytes(b, 33, index);
  }

  lemma InstructionLayout(ix: Instruction)
    ensures HasLayout(EncodeInstruction(ix), ix)
  {
    hide LittleEndian, HoldsU32, HoldsU64;
    match ix
    case CreateMultisig(createKey, membersRoot, m, n) =>
      CreateMultisigLayout(createKey, membersRoot, m, n);
    case Propose(createKey, index, actionBytes, targetProgram) =>
      ProposeLayout(createKey, index, actionBytes, targetProgram);
    case Approve(createKey, index, nullifier, publicInputs) =>
      ApproveLayout(createKey, index, nullifier, publicInputs);
    case Execute(createKey, index) =>
      ExecuteLayout(createKey, index);
    case CreateVault(createKey) =>
    case Reject(createKey) =>
  }

  // ---------- What is hashed ----------

  /** The tagged inputs of leaves and nodes, and which child comes first. */
  lemma TreeLayout(h: Hasher, leaf: Hash, left: Hash, right: Hash)
    ensures exists b :: h.HashLeaf(leaf) == h.Digest(b) && |b| == 33 && b[0] == 0 && b[1..] == leaf
    ensures exists b :: h.HashNode(left, right) == h.Digest(b) && |b| == 65 && b[0] == 1 && b[1..33] == left
                        && b[33..] == right
    ensures Root(h, [left, right], 1) == h.HashNode(h.HashLeaf(left), h.HashLeaf(right))
  {
    assert NodeAt(h, [left, right], 0, 0) == h.HashLeaf(left) && NodeAt(h, [left, right], 0, 1) == h.HashLeaf(right);
    var b, b' := LeafPreimage(leaf), NodePreimage(left, right);
    assert h.HashLeaf(leaf) == h.Digest(b) && b[0] == 0 && b[1..] == leaf;
    assert h.HashNode(left, right) == h.Digest(b') && b'[0] == 1 && b'[1..33] == left && b'[33..] == right;
  }

  /** Key first: with the salt for a commitment, with the proposal id for a nullifier. */
  lemma IdentityLayout(h: Hasher, w: Identity, proposalId: Hash)
    ensures w.Commitment(h) == h.Digest(w.sk + w.salt)
    ensures w.Nullifier(h, proposalId) == NullifierOf(h, w.sk, proposalId) == h.Digest(w.sk + proposalId)
  {
  }

  lemma PublicInputsLayout(x: ApprovePublicInputs)
    ensures
      var b := x.ToBytes();
      |b| == 96 && b[..32] == x.membersRoot && b[32..64] == x.proposalId && b[64..] == x.nullifier
  {
  }

  /** A chain id is its number in the first eight bytes, then zeros; the deployment's is `0xABCDEF01`. */
  lemma ChainIdLayout(id: u64)
    ensures HoldsU64(ChainIdFromU64(id), 0, id)
    ensures forall i :: 8 <= i < 32 ==> ChainIdFromU64(id)[i] == 0
    ensures ChainIdFromU64(DEPLOYMENT_CHAIN_ID)[..8] == [0x01, 0xEF, 0xCD, 0xAB, 0, 0, 0, 0]
  {
    var b := ChainIdFromU64(id);
    assert b[..8] == LittleEndian(id, 8);
    U64Bytes(b, 0, id);
    var d := ChainIdFromU64(DEPLOYMENT_CHAIN_ID);
    assert d[..8] == LittleEndian(0xABCD_EF01, 8);
    U64Bytes(d, 0, 0xABCD_EF01);
  }

  /** Chain, state address, index, action digest, target digest. */
  lemma ProposalIdLayout(h: Hasher, chain: Hash, state: Hash, index: u64, action: seq<byte>, target: Hash)
    ensures
      var b := ProposalIdPreimage(h, chain, state, index, action, target);
      && DeriveProposalId(h, chain, state, index, action, target) == h.Digest(b)
      && |b| == 136 && b[..32] == chain && b[32..64] == state && HoldsU64(b, 64, index)
      && b[72..104] == h.Digest(action) && b[104..] == h.Digest(target)
  {
    hide LittleEndian, HoldsU64;
    var b := ProposalIdPreimage(h, chain, state, index, action, target);
    PreimageFields(chain, state, LittleEndian(index, 8), h.Digest(action), h.Digest(target));
    U64Bytes(b, 64, index);
  }

  /** The id the program recomputes: of this deployment, this instance's state address and this proposal. */
  lemma ProgramProposalId(c: Program, createKey: Hash, index: u64, p: Proposal)
    ensures exists b: seq<byte> ::
      && c.ProposalId(createKey, index, p) == c.h.Digest(b)
      && |b| == 136 && b[..32] == [0x01, 0xEF, 0xCD, 0xAB] + Zeros(28)
      && b[32..64] == Address(c.h, c.id, StateKey(createKey)) && HoldsU64(b, 64, index)
      && b[72..104] == c.h.Digest(p.actionBytes) && b[104..] == c.h.Digest(p.targetProgram)
  {
    hide LittleEndian, HoldsU64, Address;
    var chain := ChainIdFromU64(DEPLOYMENT_CHAIN_ID);
    ChainIdLayout(DEPLOYMENT_CHAIN_ID);
    assert chain == chain[..8] + chain[8..] && chain[8..] == Zeros(24);
    assert [0x01, 0xEF, 0xCD, 0xAB, 0, 0, 0, 0] + Zeros(24) == [0x01, 0xEF, 0xCD, 0xAB] + Zeros(28);
    var state := Address(c.h, c.id, StateKey(createKey));
    ProposalIdLayout(c.h, chain, state, index, p.actionBytes, p.targetProgram);
    var b := ProposalIdPreimage(c.h, chain, state, index, p.actionBytes, p.targetProgram);
    assert b[..32] == [0x01, 0xEF, 0xCD, 0xAB] + Zeros(28);
  }

  // ---------- Program ids ----------

  lemma {:induction false} WordIs(target: Hash, n: nat, i: nat)
    requires i < n <= 8
    ensures FirstWords(target, n)[i] == WordAt(target, i)
    decreases n
  {
    hide WordAt;
    if i == n - 1 {
    } else {
      WordIs(target, n - 1, i);
    }
  }

  /** Word `i` of a program id is its bytes from `4 * i`, least significant first. */
  lemma ProgramIdLayout(target: Hash, i: nat)
    requires i < 8
    ensures |ProgramIdWords(target)| == 8 && HoldsU32(target, 4 * i, ProgramIdWords(target)[i])
  {
    hide LittleEndian, HoldsU32;
    WordIs(target, 8, i);
    U32Bytes(target, 4 * i, WordAt(target, i));
  }

  // ---------- Addresses ----------

  function PdaOf(h: Hasher, programId: Hash, combined: seq<byte>): (r: Hash) {
    h.Digest(Ascii("/NSSA/v0.2/AccountId/PDA/") + Zeros(7) + programId + h.Digest(combined))
  }

  /** The combined seed of an account: its literal, zero-padded, then its other seeds. */
  function CombinedSeed(h: Hasher, programId: Hash, k: Key): (r: seq<byte>)
    decreases k.NullifierKey?
  {
    match k
    case StateKey(createKey) => Ascii("pmsig_state__") + Zeros(19) + createKey
    case ProposalKey(createKey, index) =>
      Ascii("pmsig_prop___") + Zeros(19) + createKey + LittleEndian(index, 8) + Zeros(24)
    case VaultKey(createKey) => Ascii("pmsig_vault__") + Zeros(19) + createKey
    case NullifierKey(createKey, index, nullifier) =>
      var proposal := PdaOf(h, programId, CombinedSeed(h, programId, ProposalKey(createKey, index)));
      Ascii("pmsig_nulli__") + Zeros(19) + proposal + nullifier
  }

  /** The literals of the program are the texts they stand for. */
  lemma LiteralTexts()
    ensures SEED_MULTISIG_STATE == Ascii("pmsig_state__") && SEED_PROPOSAL == Ascii("pmsig_prop___")
    ensures SEED_VAULT == Ascii("pmsig_vault__") && SEED_NULLIFIER == Ascii("pmsig_nulli__")
    ensures NSSA_PUBLIC_PDA_PREFIX == Ascii("/NSSA/v0.2/AccountId/PDA/") + Zeros(7)
  {
  }

  /** A seed alone is not hashed; an address hashes the prefix text, the program and the combined seed. */
  lemma {:induction false} AddressLayout(h: Hasher, programId: Hash, k: Key, seed: Hash)
    ensures Address(h, programId, k) == PdaOf(h, programId, CombinedSeed(h, programId, k))
    ensures DerivePda(h, programId, [seed])
         == h.Digest(Ascii("/NSSA/v0.2/AccountId/PDA/") + Zeros(7) + programId + seed)
    decreases k.NullifierKey?
  {
    hide LittleEndian, Ascii;
    LiteralTexts();
    match k
    case StateKey(createKey) => FlattenTwo(PadSeed32(SEED_MULTISIG_STATE), createKey);
    case ProposalKey(createKey, index) =>
      FlattenThree(PadSeed32(SEED_PROPOSAL), createKey, PadSeed32(LittleEndian(index, 8)));
      assert CombinedSeed(h, programId, k) == Flatten(Seeds(h, programId, k));
    case VaultKey(createKey) => FlattenTwo(PadSeed32(SEED_VAULT), createKey);
    case NullifierKey(createKey, index, nullifier) =>
      AddressLayout(h, programId, ProposalKey(createKey, index), seed);
      var proposal := Address(h, programId, ProposalKey(createKey, index));
      FlattenThree(PadSeed32(SEED_NULLIFIER), proposal, nullifier);
  }

  // ---------- The circuit ----------

  /** `input` carries the siblings and the direction bits of `proof` at their offsets, one byte a bit. */
  ghost predicate CarriesProof(input: seq<byte>, proof: MerkleProof) {
    && |input| >= 788 && HasDepth(proof, 20)
    && (forall k {:trigger proof.siblings[k]} :: 0 <= k < 20 ==> input[128 + 32 * k..160 + 32 * k] == proof.siblings[k])
    && (forall k {:trigger proof.indices[k]} :: 0 <= k < 20 ==> input[768 + k] == (if proof.indices[k] then 1 else 0))
  }

  lemma {:induction false} SplitAt(b: seq<byte>, n: nat, k: nat)
    requires k < n && |b| >= 32 * n
    ensures Split(b, n)[k] == b[32 * k..32 * k + 32]
    decreases n
  {
    if k == n - 1 {
    } else {
      SplitAt(b, n - 1, k);
    }
  }

  lemma {:induction false} DirectionByteAt(indices: seq<bool>, k: nat)
    requires k < |indices|
    ensures DirectionBytes(indices)[k] == if indices[k] then 1 else 0
  {
    if k == |indices| - 1 {
    } else {
      DirectionByteAt(indices[..|indices| - 1], k);
    }
  }

  lemma {:induction false} BitAt(b: seq<byte>, k: nat)
    requires k < |b|
    ensures DirectionBits(b)[k] == (b[k] == 1)
  {
    if k == |b| - 1 {
    } else {
      BitAt(b[..|b| - 1], k);
    }
  }

  /** The canonical witness: root, proposal id, key, salt, twenty siblings, twenty direction bytes. */
  lemma WitnessLayout(w: Identity, proof: MerkleProof, root: Hash, id: Hash)
    requires HasDepth(proof, MERKLE_DEPTH)
    ensures
      var b := PackApproveWitness(w, proof, root, id);
      && |b| == 788 && b[..32] == root && b[32..64] == id && b[64..96] == w.sk && b[96..128] == w.salt
      && CarriesProof(b, proof)
  {
    hide Flatten, DirectionBytes;
    var b := PackApproveWitness(w, proof, root, id);
    PackedFields(w, proof, root, id, []);
    assert b + [] == b;
    forall k | 0 <= k < 20 ensures b[128 + 32 * k..160 + 32 * k] == proof.siblings[k] {
      FlattenSlice(proof.siblings, k);
      assert b[128..768][32 * k..32 * k + 32] == b[128 + 32 * k..160 + 32 * k];
    }
    forall k | 0 <= k < 20 ensures b[768 + k] == if proof.indices[k] then 1 else 0 {
      DirectionByteAt(proof.indices, k);
      assert b[768..788][k] == b[768 + k];
    }
  }

  lemma CarriedIsRead(input: seq<byte>, proof: MerkleProof)
    requires CarriesProof(input, proof)
    ensures ReadProof(ReadInput(input)) == proof && BinaryBytes(input[768..788])
  {
    hide Split, DirectionBits;
    var g := ReadInput(input);
    forall k | 0 <= k < 20
      ensures g.siblings[k] == proof.siblings[k]
      ensures DirectionBits(g.directions)[k] == proof.indices[k] && g.directions[k] <= 1
    {
      SplitAt(input[128..768], 20, k);
      BitAt(g.directions, k);
      assert input[128..768][32 * k..32 * k + 32] == input[128 + 32 * k..160 + 32 * k];
      assert g.directions[k] == input[768 + k];
      assert input[768 + k] == if proof.indices[k] then 1 else 0;
    }
    assert g.siblings == proof.siblings;
    assert DirectionBits(g.directions) == proof.indices;
  }

  lemma ReadIsCarried(input: seq<byte>)
    requires |input| >= 788 && forall k :: 768 <= k < 788 ==> input[k] <= 1
    ensures CarriesProof(input, ReadProof(ReadInput(input)))
  {
    hide Split, DirectionBits;
    var g := ReadInput(input);
    var proof := ReadProof(g);
    forall k | 0 <= k < 20
      ensures input[128 + 32 * k..160 + 32 * k] == proof.siblings[k]
      ensures input[768 + k] == if proof.indices[k] then 1 else 0
    {
      SplitAt(input[128..768], 20, k);
      BitAt(g.directions, k);
      assert input[128..768][32 * k..32 * k + 32] == input[128 + 32 * k..160 + 32 * k];
      assert g.directions[k] == input[768 + k];
    }
  }

  /**
   * What the circuit commits, and when: the input is long enough, every direction byte is 0 or 1, and
   * the path it carries opens the identity's commitment under the root it carries. It then commits root,
   * proposal id and the identity's nullifier, 32 bytes each.
   */
  lemma JournalExactly(h: Hasher, input: seq<byte>)
    ensures |input| < 788 ==> Journal(h, input) == None
    ensures |input| >= 788 && (exists k :: 768 <= k < 788 && input[k] > 1) ==> Journal(h, input) == None
    ensures |input| >= 788 && (forall k :: 768 <= k < 788 ==> input[k] <= 1) ==>
      exists proof :: CarriesProof(input, proof)
    ensures forall proof :: CarriesProof(input, proof) ==>
      var w := Identity(input[64..96], input[96..128]);
      Journal(h, input)
        == if VerifyProof(h, input[..32], w.Commitment(h), proof, 20)
           then Some(input[..32] + input[32..64] + w.Nullifier(h, input[32..64])) else None
  {
    hide VerifyProof;
    if |input| >= 788 && exists k :: 768 <= k < 788 && input[k] > 1 {
      var k :| 768 <= k < 788 && input[k] > 1;
      assert input[768..788][k - 768] > 1;
    } else if |input| >= 788 {
      ReadIsCarried(input);
    }
    forall proof | CarriesProof(input, proof)
      ensures ReadProof(ReadInput(input)) == proof && BinaryBytes(input[768..788])
    {
      CarriedIsRead(input, proof);
    }
  }
}
