/** The hash function and the preimages the protocol feeds it. */
module Hashing {
  import opened ByteStrings

  const DOMAIN_LEAF: byte := 0x00
  const DOMAIN_NODE: byte := 0x01

  function LeafPreimage(leaf: Hash): (r: seq<byte>)
    ensures |r| == 33
  {
    [DOMAIN_LEAF] + leaf
  }

  function NodePreimage(left: Hash, right: Hash): (r: seq<byte>)
    ensures |r| == 65
  {
    [DOMAIN_NODE] + left + right
  }

  function Join(a: Hash, b: Hash): (r: seq<byte>)
    ensures |r| == 64
  {
    a + b
  }

  /** SHA-256 (section 6.2 of FIPS 180-4) as an unspecified function to 32-byte strings. */
  datatype Hasher = Hasher(sha256: seq<byte> -> Hash) {
    function Digest(input: seq<byte>): (r: Hash) {
      sha256(input)
    }

    function HashLeaf(leaf: Hash): (r: Hash) {
      Digest(LeafPreimage(leaf))
    }

    function HashNode(left: Hash, right: Hash): (r: Hash) {
      Digest(NodePreimage(left, right))
    }

    /** `hash_leaf`, filling its buffer in place. */
    method HashLeafBuffered(leaf: Hash) returns (r: Hash)
      ensures r == HashLeaf(leaf)
    {
      var buf := new byte[33](_ => 0);
      buf[0] := DOMAIN_LEAF;
      CopyFromSlice(buf, 1, leaf);
      assert buf[..33] == buf[..1] + leaf;
      assert buf[..] == buf[..33] == LeafPreimage(leaf);
      r := Digest(buf[..]);
    }

    /** `hash_node`, filling its buffer in place. */
    method HashNodeBuffered(left: Hash, right: Hash) returns (r: Hash)
      ensures r == HashNode(left, right)
    {
      var buf := new byte[65](_ => 0);
      buf[0] := DOMAIN_NODE;
      CopyFromSlice(buf, 1, left);
      CopyFromSlice(buf, 33, right);
      assert buf[..] == buf[..65] == NodePreimage(left, right);
      r := Digest(buf[..]);
    }
  }

  /** Two distinct inputs with one digest. */
  ghost predicate Collide(h: Hasher, x: seq<byte>, y: seq<byte>) {
    x != y && h.Digest(x) == h.Digest(y)
  }

  /** No two members of the finite set `inputs` collide. */
  ghost predicate CollisionFree(h: Hasher, inputs: set<seq<byte>>) {
    forall x, y {:trigger Collide(h, x, y)} :: x in inputs && y in inputs ==> !Collide(h, x, y)
  }

  lemma FewerInputs(h: Hasher, fewer: set<seq<byte>>, inputs: set<seq<byte>>)
    requires CollisionFree(h, inputs) && fewer <= inputs
    ensures CollisionFree(h, fewer)
  {
  }

  lemma SamePreimage(h: Hasher, inputs: set<seq<byte>>, x: seq<byte>, y: seq<byte>)
    requires CollisionFree(h, inputs) && x in inputs && y in inputs
    requires h.Digest(x) == h.Digest(y)
    ensures x == y
  {
    assert !Collide(h, x, y);
  }

  lemma SameLeaf(h: Hasher, inputs: set<seq<byte>>, a: Hash, b: Hash)
    requires CollisionFree(h, inputs) && LeafPreimage(a) in inputs && LeafPreimage(b) in inputs
    requires h.HashLeaf(a) == h.HashLeaf(b)
    ensures a == b
  {
    SamePreimage(h, inputs, LeafPreimage(a), LeafPreimage(b));
    assert a == LeafPreimage(a)[1..] && b == LeafPreimage(b)[1..];
  }

  lemma SameNode(h: Hasher, inputs: set<seq<byte>>, a: Hash, b: Hash, c: Hash, d: Hash)
    requires CollisionFree(h, inputs) && NodePreimage(a, b) in inputs && NodePreimage(c, d) in inputs
    requires h.HashNode(a, b) == h.HashNode(c, d)
    ensures a == c && b == d
  {
    SamePreimage(h, inputs, NodePreimage(a, b), NodePreimage(c, d));
    assert a == NodePreimage(a, b)[1..33] && c == NodePreimage(c, d)[1..33];
    assert b == NodePreimage(a, b)[33..] && d == NodePreimage(c, d)[33..];
  }

  lemma JoinInjective(a: Hash, b: Hash, c: Hash, d: Hash)
    requires Join(a, b) == Join(c, d)
    ensures a == c && b == d
  {
    assert a == Join(a, b)[..32] && c == Join(c, d)[..32];
    assert b == Join(a, b)[32..] && d == Join(c, d)[32..];
  }
}
