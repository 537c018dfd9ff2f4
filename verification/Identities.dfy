/** Member identities: the enrolled commitment and the per-proposal nullifier. */
module Identities {
  import opened ByteStrings
  import opened Hashing

  /** `H(sk || proposal_id)`: the salt plays no part. */
  function NullifierOf(h: Hasher, sk: Hash, proposalId: Hash): (r: Hash) {
    h.Digest(Join(sk, proposalId))
  }

  datatype Identity = Identity(sk: Hash, salt: Hash) {
    /** The leaf enrolled in the member tree. */
    function Commitment(h: Hasher): (r: Hash) {
      h.Digest(Join(sk, salt))
    }

    function Nullifier(h: Hasher, proposalId: Hash): (r: Hash) {
      NullifierOf(h, sk, proposalId)
    }

    /** `commitment`, filling its buffer in place. */
    method CommitmentBuffered(h: Hasher) returns (r: Hash)
      ensures r == Commitment(h)
    {
      var buf := new byte[64](_ => 0);
      CopyFromSlice(buf, 0, sk);
      CopyFromSlice(buf, 32, salt);
      assert buf[..] == buf[..64] == Join(sk, salt);
      r := h.Digest(buf[..]);
    }
  }

  method NullifierBuffered(h: Hasher, sk: Hash, proposalId: Hash) returns (r: Hash)
    ensures r == NullifierOf(h, sk, proposalId)
  {
    var buf := new byte[64](_ => 0);
    CopyFromSlice(buf, 0, sk);
    CopyFromSlice(buf, 32, proposalId);
    assert buf[..] == buf[..64] == Join(sk, proposalId);
    r := h.Digest(buf[..]);
  }

  /** Two identities with one commitment are the same identity. */
  lemma SameCommitment(h: Hasher, inputs: set<seq<byte>>, a: Identity, b: Identity)
    requires CollisionFree(h, inputs) && Join(a.sk, a.salt) in inputs && Join(b.sk, b.salt) in inputs
    requires a.Commitment(h) == b.Commitment(h)
    ensures a == b
  {
    SamePreimage(h, inputs, Join(a.sk, a.salt), Join(b.sk, b.salt));
    JoinInjective(a.sk, a.salt, b.sk, b.salt);
  }

  /** A nullifier fixes the secret key and the proposal. */
  lemma SameNullifier(h: Hasher, inputs: set<seq<byte>>, sk: Hash, id: Hash, sk': Hash, id': Hash)
    requires CollisionFree(h, inputs) && Join(sk, id) in inputs && Join(sk', id') in inputs
    requires NullifierOf(h, sk, id) == NullifierOf(h, sk', id')
    ensures sk == sk' && id == id'
  {
    SamePreimage(h, inputs, Join(sk, id), Join(sk', id'));
    JoinInjective(sk, id, sk', id');
  }
}
