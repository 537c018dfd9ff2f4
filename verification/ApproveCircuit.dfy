/** The approval circuit: its witness layout, what it checks and what it commits. */
module ApproveCircuit {
  import opened ByteStrings
  import opened CoreTypes
  import opened Hashing
  import opened Identities
  import opened Merkle
  import MerkleTrees
  import opened ProposalIds

  const APPROVE_WITNESS_LEN := 788

  /** One byte per direction bit. */
  function DirectionBytes(indices: seq<bool>): (r: seq<byte>)
    ensures |r| == |indices|
  {
    if indices == [] then []
    else DirectionBytes(indices[..|indices| - 1]) + [if indices[|indices| - 1] then 1 else 0]
  }

  /** The canonical witness: root, proposal id, key, salt, siblings, directions. */
  function PackApproveWitness(identity: Identity, proof: MerkleProof, membersRoot: Hash, proposalId: Hash)
    : (r: seq<byte>)
    requires HasDepth(proof, MERKLE_DEPTH)
    ensures |r| == APPROVE_WITNESS_LEN
  {
    membersRoot + proposalId + identity.sk + identity.salt + Flatten(proof.siblings) + DirectionBytes(proof.indices)
  }

  /** Writes parts one after the other from offset `start`. */
  method WriteParts(out: array<byte>, start: nat, parts: seq<Hash>)
    requires start + 32 * |parts| <= out.Length
    modifies out
    ensures out[..start + 32 * |parts|] == old(out[..start]) + Flatten(parts)
  {
    for level := 0 to |parts|
      invariant out[..start + 32 * level] == old(out[..start]) + Flatten(parts[..level])
    {
      CopyFromSlice(out, start + level * 32, parts[level]);
      assert parts[..level + 1][..level] == parts[..level];
    }
    assert parts[..|parts|] == parts;
  }

  /** Writes one byte per direction bit from offset `start`. */
  method WriteDirections(out: array<byte>, start: nat, indices: seq<bool>)
    requires start + |indices| <= out.Length
    modifies out
    ensures out[..start + |indices|] == old(out[..start]) + DirectionBytes(indices)
  {
    for level := 0 to |indices|
      invariant out[..start + level] == old(out[..start]) + DirectionBytes(indices[..level])
    {
      out[start + level] := if indices[level] then 1 else 0;
      assert indices[..level + 1][..level] == indices[..level];
      assert out[..start + level + 1] == out[..start + level] + [out[start + level]];
    }
    assert indices[..|indices|] == indices;
  }

  /** `pack_approve_witness`, writing slices of one 788-byte buffer. */
  method PackApproveWitnessBuffered(identity: Identity, proof: MerkleProof, membersRoot: Hash, proposalId: Hash)
    returns (r: seq<byte>)
    requires HasDepth(proof, MERKLE_DEPTH)
    ensures r == PackApproveWitness(identity, proof, membersRoot, proposalId)
  {
    hide Flatten, DirectionBytes;
    var out := new byte[788](_ => 0);
    CopyFromSlice(out, 0, membersRoot);
    CopyFromSlice(out, 32, proposalId);
    CopyFromSlice(out, 64, identity.sk);
    CopyFromSlice(out, 96, identity.salt);
    WriteParts(out, 128, proof.siblings);
    WriteDirections(out, 768, proof.indices);
    r := out[..];
    assert r == out[..788];
  }

  // ---------- The guest ----------

  /** The fields the guest reads, in stream order. */
  datatype GuestInput = GuestInput(membersRoot: Hash, proposalId: Hash, identity: Identity,
                                   siblings: seq<Hash>, directions: seq<byte>)

  predicate BinaryBytes(b: seq<byte>) {
    forall i :: 0 <= i < |b| ==> b[i] <= 1
  }

  /** The first `n` 32-byte parts of a byte string. */
  function Split(b: seq<byte>, n: nat): (r: seq<Hash>)
    requires |b| >= 32 * n
    ensures |r| == n
    decreases n, b
  {
    if n == 0 then [] else Split(b, n - 1) + [b[32 * (n - 1)..32 * n]]
  }

  /** Direction bytes as bits. */
  function DirectionBits(b: seq<byte>): (r: seq<bool>)
    ensures |r| == |b|
  {
    if b == [] then [] else DirectionBits(b[..|b| - 1]) + [b[|b| - 1] == 1]
  }

  function ReadInput(input: seq<byte>): (r: GuestInput)
    requires |input| >= APPROVE_WITNESS_LEN
    ensures |r.siblings| == MERKLE_DEPTH && |r.directions| == MERKLE_DEPTH
  {
    GuestInput(input[..32], input[32..64], Identity(input[64..96], input[96..128]),
               Split(input[128..768], MERKLE_DEPTH),
               input[768..788])
  }

  /** The proof the guest assembles from its input. */
  function ReadProof(g: GuestInput): (r: MerkleProof)
    requires |g.siblings| == MERKLE_DEPTH && |g.directions| == MERKLE_DEPTH
    ensures HasDepth(r, MERKLE_DEPTH)
  {
    MerkleProof(g.siblings, DirectionBits(g.directions))
  }

  /** The journal the guest commits, or nothing where it panics; input past the witness is never read. */
  function Journal(h: Hasher, input: seq<byte>): (r: Option<seq<byte>>) {
    if |input| < APPROVE_WITNESS_LEN then None else
      var g := ReadInput(input);
      if !BinaryBytes(g.directions) then None
      else if !VerifyProof(h, g.membersRoot, g.identity.Commitment(h), ReadProof(g), MERKLE_DEPTH) then None
      else Some(ApprovePublicInputs(g.membersRoot, g.proposalId, NullifierOf(h, g.identity.sk, g.proposalId)).ToBytes())
  }

  /** Splits the sibling buffer into one hash per level. */
  method SplitSiblings(buf: seq<byte>) returns (siblings: seq<Hash>)
    requires |buf| == 640
    ensures siblings == Split(buf, 20)
  {
    var slots: array<Hash> := new Hash[20](_ => ZERO_HASH);
    for level := 0 to 20
      invariant slots[..level] == Split(buf, level)
    {
      var start := level * 32;
      slots[level] := buf[start..start + 32];
      assert slots[..level + 1] == slots[..level] + [slots[level]];
    }
    siblings := slots[..];
    assert siblings == slots[..20];
  }

  /** Turns direction bytes into bits; any byte above 1 panics. */
  method ParseDirections(buf: seq<byte>) returns (indices: Option<seq<bool>>)
    requires |buf| == 20
    ensures indices == if BinaryBytes(buf) then Some(DirectionBits(buf)) else None
  {
    var slots := new bool[20](_ => false);
    for level := 0 to 20
      invariant BinaryBytes(buf[..level]) && slots[..level] == DirectionBits(buf[..level])
    {
      if buf[level] > 1 {
        return None;
      }
      slots[level] := buf[level] == 1;
      assert buf[..level + 1][..level] == buf[..level];
      assert slots[..level + 1] == slots[..level] + [slots[level]];
    }
    assert buf[..20] == buf && slots[..] == slots[..20];
    return Some(slots[..]);
  }

  /** `main` of the guest; `None` stands for a panic. */
  method RunApproveCircuit(h: Hasher, input: seq<byte>) returns (journal: Option<seq<byte>>)
    ensures journal == Journal(h, input)
  {
    hide Fold;
    if |input| < 788 {
      return None;
    }
    ghost var g := ReadInput(input);
    var membersRoot: Hash := input[..32];
    var proposalId: Hash := input[32..64];
    var sk: Hash := input[64..96];
    var salt: Hash := input[96..128];
    var siblings := SplitSiblings(input[128..768]);
    var indices := ParseDirections(input[768..788]);
    if indices.None? {
      return None;
    }
    var proof := MerkleProof(siblings, indices.value);
    var commitment := Identity(sk, salt).CommitmentBuffered(h);
    var member := MerkleTrees.VerifyProof(h, membersRoot, commitment, proof, MERKLE_DEPTH);
    if !member {
      return None;
    }
    var nullifier := NullifierBuffered(h, sk, proposalId);
    var bytes := ApprovePublicInputs(membersRoot, proposalId, nullifier).ToBytesBuffered();
    return Some(bytes);
  }

  // ---------- What a receipt proves ----------

  /** A member's opening of one leaf. */
  datatype Witness = Witness(identity: Identity, proof: MerkleProof)

  /** The opening in a guest input. */
  function WitnessOf(input: seq<byte>): (r: Witness)
    requires |input| >= APPROVE_WITNESS_LEN
    ensures HasDepth(r.proof, MERKLE_DEPTH)
  {
    Witness(ReadInput(input).identity, ReadProof(ReadInput(input)))
  }

  /** `w` opens a leaf under `root` and `nullifier` is its nullifier for `proposalId`. */
  ghost predicate Opens(h: Hasher, w: Witness, root: Hash, proposalId: Hash, nullifier: Hash) {
    && HasDepth(w.proof, MERKLE_DEPTH)
    && VerifyProof(h, root, w.identity.Commitment(h), w.proof, MERKLE_DEPTH)
    && nullifier == w.identity.Nullifier(h, proposalId)
  }

  /** A committed journal names a root and a proposal for which the guest was shown an opening. */
  lemma JournalIsSound(h: Hasher, input: seq<byte>, x: ApprovePublicInputs)
    requires Journal(h, input) == Some(x.ToBytes())
    ensures |input| >= APPROVE_WITNESS_LEN
    ensures Opens(h, WitnessOf(input), x.membersRoot, x.proposalId, x.nullifier)
  {
    hide Fold;
    var g := ReadInput(input);
    var y := ApprovePublicInputs(g.membersRoot, g.proposalId, NullifierOf(h, g.identity.sk, g.proposalId));
    PublicInputsBijection(x, x.ToBytes());
    PublicInputsBijection(y, x.ToBytes());
  }

  lemma {:induction false} SplitsFlattened(parts: seq<Hash>, n: nat)
    requires n <= |parts|
    ensures Split(Flatten(parts), n) == parts[..n]
    decreases n
  {
    if n == 0 {
    } else {
      SplitsFlattened(parts, n - 1);
      FlattenSlice(parts, n - 1);
      assert parts[..n] == parts[..n - 1] + [parts[n - 1]];
    }
  }

  lemma {:induction false} BitsOfDirections(indices: seq<bool>)
    ensures BinaryBytes(DirectionBytes(indices)) && DirectionBits(DirectionBytes(indices)) == indices
  {
    if indices == [] {
    } else {
      var front, b := indices[..|indices| - 1], DirectionBytes(indices);
      BitsOfDirections(front);
      assert b[..|b| - 1] == DirectionBytes(front);
      assert indices == front + [indices[|indices| - 1]];
    }
  }

  lemma PackedFields(identity: Identity, proof: MerkleProof, root: Hash, id: Hash, extra: seq<byte>)
    requires HasDepth(proof, MERKLE_DEPTH)
    ensures
      var input := PackApproveWitness(identity, proof, root, id) + extra;
      && input[..32] == root && input[32..64] == id && input[64..96] == identity.sk && input[96..128] == identity.salt
      && input[128..768] == Flatten(proof.siblings) && input[768..788] == DirectionBytes(proof.indices)
  {
    hide Flatten, DirectionBytes;
  }

  /** The guest reads back exactly what was packed, whatever follows it in the stream. */
  lemma ReadsWhatWasPacked(identity: Identity, proof: MerkleProof, root: Hash, id: Hash, extra: seq<byte>)
    requires HasDepth(proof, MERKLE_DEPTH)
    ensures
      var g := ReadInput(PackApproveWitness(identity, proof, root, id) + extra);
      g.membersRoot == root && g.proposalId == id && g.identity == identity &&
      BinaryBytes(g.directions) && ReadProof(g) == proof
  {
    hide Split, DirectionBits, Flatten, DirectionBytes, BinaryBytes;
    PackedFields(identity, proof, root, id, extra);
    SplitsFlattened(proof.siblings, MERKLE_DEPTH);
    assert proof.siblings[..MERKLE_DEPTH] == proof.siblings;
    BitsOfDirections(proof.indices);
  }

  /** On a packed witness the guest commits the public inputs exactly when the opening verifies. */
  lemma JournalOfPacked(h: Hasher, identity: Identity, proof: MerkleProof, root: Hash, id: Hash, extra: seq<byte>)
    requires HasDepth(proof, MERKLE_DEPTH)
    ensures Journal(h, PackApproveWitness(identity, proof, root, id) + extra)
         == if VerifyProof(h, root, identity.Commitment(h), proof, MERKLE_DEPTH)
            then Some(ApprovePublicInputs(root, id, identity.Nullifier(h, id)).ToBytes())
            else None
  {
    hide Fold;
    ReadsWhatWasPacked(identity, proof, root, id, extra);
  }
}
