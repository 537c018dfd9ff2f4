/** Public inputs of an approval and the derivation of proposal ids. */
module ProposalIds {
  import opened ByteStrings
  import opened Hashing

  const APPROVE_PUBLIC_INPUTS_LEN := 96
  const DEPLOYMENT_CHAIN_ID: u64 := 0xABCD_EF01

  datatype ApprovePublicInputs = ApprovePublicInputs(membersRoot: Hash, proposalId: Hash, nullifier: Hash) {
    function ToBytes(): (r: seq<byte>)
      ensures |r| == APPROVE_PUBLIC_INPUTS_LEN
    {
      membersRoot + proposalId + nullifier
    }

    method ToBytesBuffered() returns (r: seq<byte>)
      ensures r == ToBytes()
    {
      var out := new byte[96](_ => 0);
      CopyFromSlice(out, 0, membersRoot);
      CopyFromSlice(out, 32, proposalId);
      CopyFromSlice(out, 64, nullifier);
      assert out[..] == out[..96] == ToBytes();
      r := out[..];
    }

    static function FromBytes(bytes: seq<byte>): (r: ApprovePublicInputs)
      requires |bytes| == APPROVE_PUBLIC_INPUTS_LEN
    {
      ApprovePublicInputs(bytes[..32], bytes[32..64], bytes[64..96])
    }
  }

  /** The 96-byte layout is a bijection with the three fields. */
  lemma PublicInputsBijection(x: ApprovePublicInputs, bytes: seq<byte>)
    requires |bytes| == APPROVE_PUBLIC_INPUTS_LEN
    ensures ApprovePublicInputs.FromBytes(bytes) == x <==> bytes == x.ToBytes()
  {
    assert x.ToBytes()[..32] == x.membersRoot;
    assert x.ToBytes()[32..64] == x.proposalId;
    assert x.ToBytes()[64..96] == x.nullifier;
    assert bytes == bytes[..32] + bytes[32..64] + bytes[64..96];
  }

  /** `ChainId::from_u64`: little-endian, zero-padded on the right. */
  function ChainIdFromU64(id: u64): (r: Hash) {
    LittleEndian(id, 8) + Zeros(24)
  }

  method ChainIdFromU64Buffered(id: u64) returns (r: Hash)
    ensures r == ChainIdFromU64(id)
  {
    hide LittleEndian;
    var bytes := new byte[32](_ => 0);
    var low := LittleEndian(id, 8);
    CopyFromSlice(bytes, 0, low);
    assert bytes[..] == bytes[..8] + bytes[8..];
    assert bytes[8..] == Zeros(24);
    r := bytes[..];
  }

  function ProposalIdPreimage(h: Hasher, chainId: Hash, statePda: Hash, index: u64,
                              actionBytes: seq<byte>, targetProgram: Hash): (r: seq<byte>)
    ensures |r| == 136
  {
    chainId + statePda + LittleEndian(index, 8) + h.Digest(actionBytes) + h.Digest(targetProgram)
  }

  function DeriveProposalId(h: Hasher, chainId: Hash, statePda: Hash, index: u64,
                            actionBytes: seq<byte>, targetProgram: Hash): (r: Hash) {
    h.Digest(ProposalIdPreimage(h, chainId, statePda, index, actionBytes, targetProgram))
  }

  /** `derive_proposal_id`, filling its 136-byte buffer in place. */
  method DeriveProposalIdBuffered(h: Hasher, chainId: Hash, statePda: Hash, index: u64,
                                  actionBytes: seq<byte>, targetProgram: Hash) returns (r: Hash)
    ensures r == DeriveProposalId(h, chainId, statePda, index, actionBytes, targetProgram)
  {
    hide LittleEndian;
    var actionHash := h.Digest(actionBytes);
    var targetHash := h.Digest(targetProgram);
    var indexBytes := LittleEndian(index, 8);
    var buf := new byte[136](_ => 0);
    CopyFromSlice(buf, 0, chainId);
    CopyFromSlice(buf, 32, statePda);
    CopyFromSlice(buf, 64, indexBytes);
    CopyFromSlice(buf, 72, actionHash);
    CopyFromSlice(buf, 104, targetHash);
    assert buf[..] == buf[..136];
    r := h.Digest(buf[..]);
  }

  /** Every input hashed to derive one proposal id. */
  ghost function ProposalIdInputs(h: Hasher, chainId: Hash, statePda: Hash, index: u64,
                                  actionBytes: seq<byte>, targetProgram: Hash): set<seq<byte>> {
    {actionBytes, targetProgram, ProposalIdPreimage(h, chainId, statePda, index, actionBytes, targetProgram)}
  }

  lemma PreimageFields(a: Hash, b: Hash, c: seq<byte>, d: Hash, e: Hash)
    requires |c| == 8
    ensures
      var x := a + b + c + d + e;
      x[..32] == a && x[32..64] == b && x[64..72] == c && x[72..104] == d && x[104..] == e
  {
  }

  /** A proposal id fixes everything it was derived from. */
  lemma SameProposalId(h: Hasher, inputs: set<seq<byte>>,
                       chain: Hash, state: Hash, index: u64, action: seq<byte>, target: Hash,
                       chain': Hash, state': Hash, index': u64, action': seq<byte>, target': Hash)
    requires CollisionFree(h, inputs)
    requires ProposalIdInputs(h, chain, state, index, action, target) <= inputs
    requires ProposalIdInputs(h, chain', state', index', action', target') <= inputs
    requires DeriveProposalId(h, chain, state, index, action, target)
          == DeriveProposalId(h, chain', state', index', action', target')
    ensures chain == chain' && state == state' && index == index' && action == action' && target == target'
  {
    var x := ProposalIdPreimage(h, chain, state, index, action, target);
    var y := ProposalIdPreimage(h, chain', state', index', action', target');
    SamePreimage(h, inputs, x, y);
    PreimageFields(chain, state, LittleEndian(index, 8), h.Digest(action), h.Digest(target));
    PreimageFields(chain', state', LittleEndian(index', 8), h.Digest(action'), h.Digest(target'));
    LittleEndian64Injective(index, index');
    SamePreimage(h, inputs, action, action');
    SamePreimage(h, inputs, target, target');
  }
}
