/** Program-derived addresses of the four account classes. */
module Addresses {
  import opened ByteStrings
  import opened Hashing

  /** The text `/NSSA/v0.2/AccountId/PDA/` and seven zero bytes. */
  const NSSA_PUBLIC_PDA_PREFIX: Hash :=
    [0x2f, 0x4e, 0x53, 0x53, 0x41, 0x2f, 0x76, 0x30, 0x2e, 0x32, 0x2f, 0x41, 0x63, 0x63, 0x6f, 0x75,
     0x6e, 0x74, 0x49, 0x64, 0x2f, 0x50, 0x44, 0x41, 0x2f, 0, 0, 0, 0, 0, 0, 0]

  /** The texts `pmsig_state__`, `pmsig_prop___`, `pmsig_vault__` and `pmsig_nulli__`. */
  const SEED_MULTISIG_STATE: seq<byte> := [0x70, 0x6d, 0x73, 0x69, 0x67, 0x5f, 0x73, 0x74, 0x61, 0x74, 0x65, 0x5f, 0x5f]
  const SEED_PROPOSAL: seq<byte> := [0x70, 0x6d, 0x73, 0x69, 0x67, 0x5f, 0x70, 0x72, 0x6f, 0x70, 0x5f, 0x5f, 0x5f]
  const SEED_VAULT: seq<byte> := [0x70, 0x6d, 0x73, 0x69, 0x67, 0x5f, 0x76, 0x61, 0x75, 0x6c, 0x74, 0x5f, 0x5f]
  const SEED_NULLIFIER: seq<byte> := [0x70, 0x6d, 0x73, 0x69, 0x67, 0x5f, 0x6e, 0x75, 0x6c, 0x6c, 0x69, 0x5f, 0x5f]

  /** Right-zero-pads a seed to 32 bytes; the caller keeps it within 32. */
  function PadSeed32(input: seq<byte>): (r: Hash)
    requires |input| <= 32
    ensures r[..|input|] == input
  {
    input + Zeros(32 - |input|)
  }

  method PadSeed32Buffered(input: seq<byte>) returns (r: Hash)
    requires |input| <= 32
    ensures r == PadSeed32(input)
  {
    var out := new byte[32](_ => 0);
    CopyFromSlice(out, 0, input);
    assert out[..] == out[..|input|] + out[|input|..];
    assert out[|input|..] == Zeros(32 - |input|);
    r := out[..];
  }

  /** One seed passes through; several are hashed together. */
  function CombineSeeds(h: Hasher, seeds: seq<Hash>): (r: Hash)
    requires seeds != []
  {
    if |seeds| == 1 then seeds[0] else h.Digest(Flatten(seeds))
  }

  function PdaPreimage(programId: Hash, combined: Hash): (r: seq<byte>)
    ensures |r| == 96
  {
    NSSA_PUBLIC_PDA_PREFIX + programId + combined
  }

  /** The runtime's address of an account with a combined seed under a program. */
  function ForPublicPda(h: Hasher, programId: Hash, combined: Hash): (r: Hash) {
    h.Digest(PdaPreimage(programId, combined))
  }

  function DerivePda(h: Hasher, programId: Hash, seeds: seq<Hash>): (r: Hash)
    requires seeds != []
  {
    ForPublicPda(h, programId, CombineSeeds(h, seeds))
  }

  /** `derive_pda`: a loop over the seeds, then a 96-byte buffer filled in place. */
  method DerivePdaBuffered(h: Hasher, programId: Hash, seeds: seq<Hash>) returns (r: Hash)
    requires seeds != []
    ensures r == DerivePda(h, programId, seeds)
  {
    var combined: Hash;
    if |seeds| == 1 {
      combined := seeds[0];
    } else {
      var buf := [];
      for i := 0 to |seeds|
        invariant buf == Flatten(seeds[..i])
      {
        buf := buf + seeds[i];
        assert seeds[..i + 1][..i] == seeds[..i];
      }
      assert seeds[..|seeds|] == seeds;
      combined := h.Digest(buf);
    }
    var preimage := new byte[96](_ => 0);
    CopyFromSlice(preimage, 0, NSSA_PUBLIC_PDA_PREFIX);
    CopyFromSlice(preimage, 32, programId);
    CopyFromSlice(preimage, 64, combined);
    assert preimage[..] == preimage[..96];
    r := h.Digest(preimage[..]);
  }

  // ---------- The accounts of the protocol ----------

  /** An account of the program, named by what it is rather than by where it lives. */
  datatype Key =
    | StateKey(createKey: Hash)
    | ProposalKey(createKey: Hash, index: u64)
    | VaultKey(createKey: Hash)
    | NullifierKey(createKey: Hash, index: u64, nullifier: Hash)

  function Seeds(h: Hasher, programId: Hash, k: Key): (r: seq<Hash>)
    ensures |r| >= 2
    decreases k.NullifierKey?
  {
    match k
    case StateKey(createKey) => [PadSeed32(SEED_MULTISIG_STATE), createKey]
    case ProposalKey(createKey, index) => [PadSeed32(SEED_PROPOSAL), createKey, PadSeed32(LittleEndian(index, 8))]
    case VaultKey(createKey) => [PadSeed32(SEED_VAULT), createKey]
    case NullifierKey(createKey, index, nullifier) =>
      var proposal := ProposalKey(createKey, index);
      [PadSeed32(SEED_NULLIFIER), DerivePda(h, programId, Seeds(h, programId, proposal)), nullifier]
  }

  /** `derive_multisig_state_pda`, `derive_proposal_pda`, `derive_vault_pda`, `derive_nullifier_entry_pda`. */
  function Address(h: Hasher, programId: Hash, k: Key): (r: Hash) {
    DerivePda(h, programId, Seeds(h, programId, k))
  }

  /** The four typed derivations, over padded seeds. */
  method DeriveAddress(h: Hasher, programId: Hash, k: Key) returns (r: Hash)
    ensures r == Address(h, programId, k)
    decreases k.NullifierKey?
  {
    hide LittleEndian, PadSeed32, DerivePda;
    match k
    case StateKey(createKey) =>
      var literal := PadSeed32Buffered(SEED_MULTISIG_STATE);
      r := DerivePdaBuffered(h, programId, [literal, createKey]);
    case ProposalKey(createKey, index) =>
      var literal := PadSeed32Buffered(SEED_PROPOSAL);
      var padded := PadSeed32Buffered(LittleEndian(index, 8));
      r := DerivePdaBuffered(h, programId, [literal, createKey, padded]);
    case VaultKey(createKey) =>
      var literal := PadSeed32Buffered(SEED_VAULT);
      r := DerivePdaBuffered(h, programId, [literal, createKey]);
    case NullifierKey(createKey, index, nullifier) =>
      var literal := PadSeed32Buffered(SEED_NULLIFIER);
      var proposal := DeriveAddress(h, programId, ProposalKey(createKey, index));
      r := DerivePdaBuffered(h, programId, [literal, proposal, nullifier]);
  }

  /** The two inputs hashed by the address derivation itself. */
  ghost function OwnInputs(h: Hasher, programId: Hash, k: Key): (inputs: set<seq<byte>>) {
    var seeds := Seeds(h, programId, k);
    {Flatten(seeds), PdaPreimage(programId, CombineSeeds(h, seeds))}
  }

  /** Every input hashed to derive the address of `k`. */
  ghost function AddressInputs(h: Hasher, programId: Hash, k: Key): (inputs: set<seq<byte>>) {
    OwnInputs(h, programId, k)
      + if k.NullifierKey? then OwnInputs(h, programId, ProposalKey(k.createKey, k.index)) else {}
  }

  lemma FlattenTwo(a: Hash, b: Hash)
    ensures Flatten([a, b]) == a + b
  {
    assert [a, b][..1] == [a] && [a][..0] == [];
    assert Flatten([a]) == [] + a;
  }

  lemma FlattenThree(a: Hash, b: Hash, c: Hash)
    ensures Flatten([a, b, c]) == a + b + c
  {
    assert [a, b, c][..2] == [a, b];
    FlattenTwo(a, b);
  }

  lemma FlattenAny(x: seq<Hash>)
    requires 2 <= |x| <= 3
    ensures |Flatten(x)| == 32 * |x| && Flatten(x)[..32] == x[0] && Flatten(x)[32..64] == x[1]
    ensures |x| == 3 ==> Flatten(x)[64..] == x[2]
  {
    if |x| == 2 {
      assert x == [x[0], x[1]];
      FlattenTwo(x[0], x[1]);
    } else {
      assert x == [x[0], x[1], x[2]];
      FlattenThree(x[0], x[1], x[2]);
    }
  }

  lemma FlattenInjective(x: seq<Hash>, y: seq<Hash>)
    requires 2 <= |x| <= 3 && 2 <= |y| <= 3 && Flatten(x) == Flatten(y)
    ensures x == y
  {
    FlattenAny(x);
    FlattenAny(y);
    var f := Flatten(x);
    assert |x| == |y|;
    assert x[0] == f[..32] == y[0] && x[1] == f[32..64] == y[1];
    if |x| == 3 {
      assert x[2] == f[64..] == y[2];
    }
  }

  /** Equal addresses come from equal seed lists. */
  lemma SameSeeds(h: Hasher, programId: Hash, a: Key, b: Key, inputs: set<seq<byte>>)
    requires CollisionFree(h, inputs)
    requires OwnInputs(h, programId, a) <= inputs && OwnInputs(h, programId, b) <= inputs
    requires Address(h, programId, a) == Address(h, programId, b)
    ensures Seeds(h, programId, a) == Seeds(h, programId, b)
  {
    var x, y := Seeds(h, programId, a), Seeds(h, programId, b);
    var p, q := PdaPreimage(programId, CombineSeeds(h, x)), PdaPreimage(programId, CombineSeeds(h, y));
    assert p in OwnInputs(h, programId, a) && q in OwnInputs(h, programId, b);
    SamePreimage(h, inputs, p, q);
    assert CombineSeeds(h, x) == p[64..] && CombineSeeds(h, y) == q[64..];
    assert Flatten(x) in OwnInputs(h, programId, a) && Flatten(y) in OwnInputs(h, programId, b);
    SamePreimage(h, inputs, Flatten(x), Flatten(y));
    FlattenInjective(x, y);
  }

  /** The four literals tell the account classes apart. */
  lemma LiteralsDiffer()
    ensures PadSeed32(SEED_MULTISIG_STATE)[6] == 0x73 && PadSeed32(SEED_PROPOSAL)[6] == 0x70
    ensures PadSeed32(SEED_VAULT)[6] == 0x76 && PadSeed32(SEED_NULLIFIER)[6] == 0x6e
  {
  }

  lemma PaddedIndexInjective(i: u64, j: u64)
    requires PadSeed32(LittleEndian(i, 8)) == PadSeed32(LittleEndian(j, 8))
    ensures i == j
  {
    assert LittleEndian(i, 8) == PadSeed32(LittleEndian(i, 8))[..8];
    assert LittleEndian(j, 8) == PadSeed32(LittleEndian(j, 8))[..8];
    LittleEndian64Injective(i, j);
  }

  lemma SameClass(h: Hasher, programId: Hash, a: Key, b: Key)
    requires Seeds(h, programId, a)[0] == Seeds(h, programId, b)[0]
    ensures (a.StateKey? <==> b.StateKey?) && (a.ProposalKey? <==> b.ProposalKey?)
    ensures (a.VaultKey? <==> b.VaultKey?) && (a.NullifierKey? <==> b.NullifierKey?)
  {
    LiteralsDiffer();
  }

  lemma SameNonNullifier(h: Hasher, programId: Hash, a: Key, b: Key)
    requires !a.NullifierKey? && Seeds(h, programId, a) == Seeds(h, programId, b)
    ensures a == b
  {
    SameClass(h, programId, a, b);
    var x, y := Seeds(h, programId, a), Seeds(h, programId, b);
    assert x[1] == y[1];
    if a.ProposalKey? {
      assert x[2] == y[2];
      PaddedIndexInjective(a.index, b.index);
    }
  }

  /** Two accounts at one address are the same account, across classes and arguments. */
  lemma AddressInjective(h: Hasher, programId: Hash, a: Key, b: Key, inputs: set<seq<byte>>)
    requires CollisionFree(h, inputs)
    requires AddressInputs(h, programId, a) <= inputs && AddressInputs(h, programId, b) <= inputs
    requires Address(h, programId, a) == Address(h, programId, b)
    ensures a == b
  {
    SameSeeds(h, programId, a, b, inputs);
    SameClass(h, programId, a, b);
    if a.NullifierKey? {
      var x, y := Seeds(h, programId, a), Seeds(h, programId, b);
      var p, q := ProposalKey(a.createKey, a.index), ProposalKey(b.createKey, b.index);
      assert x[1] == Address(h, programId, p) && y[1] == Address(h, programId, q) && x[2] == y[2];
      SameSeeds(h, programId, p, q, inputs);
      SameNonNullifier(h, programId, p, q);
    } else {
      SameNonNullifier(h, programId, a, b);
    }
  }
}
