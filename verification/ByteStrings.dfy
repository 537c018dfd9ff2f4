/** Byte strings, fixed-width integers and their little-endian form. */
module ByteStrings {

  type byte = x: int | 0 <= x < 0x100
  type u32 = x: int | 0 <= x < 0x1_0000_0000
  type u64 = x: int | 0 <= x < 0x1_0000_0000_0000_0000

  /** The 32-byte array that holds every digest, key, address and salt. */
  type Hash = b: seq<byte> | |b| == 32 witness seq(32, _ => 0)

  function Zeros(n: nat): (r: seq<byte>)
    ensures |r| == n && forall i :: 0 <= i < n ==> r[i] == 0
  {
    seq(n, _ => 0)
  }

  const U32_MAX: u32 := 0xFFFF_FFFF
  const U64_MAX: u64 := 0xFFFF_FFFF_FFFF_FFFF
  const ZERO_HASH: Hash := Zeros(32)

  /** The `width` low-order bytes of `x`, least significant first. */
  function LittleEndian(x: nat, width: nat): (r: seq<byte>)
    ensures |r| == width
  {
    if width == 0 then [] else [x % 256] + LittleEndian(x / 256, width - 1)
  }

  function FromLittleEndian(b: seq<byte>): (r: nat) {
    if b == [] then 0 else b[0] + 256 * FromLittleEndian(b[1..])
  }

  function Pow256(n: nat): (r: nat)
    ensures r > 0
  {
    if n == 0 then 1 else 256 * Pow256(n - 1)
  }

  lemma {:induction false} DecodesWhatItEncodes(x: nat, width: nat)
    requires x < Pow256(width)
    ensures FromLittleEndian(LittleEndian(x, width)) == x
  {
    if width == 0 {
    } else {
      DecodesWhatItEncodes(x / 256, width - 1);
      var b := LittleEndian(x, width);
      assert b[1..] == LittleEndian(x / 256, width - 1);
    }
  }

  lemma {:induction false} EncodesWhatItDecodes(b: seq<byte>)
    ensures FromLittleEndian(b) < Pow256(|b|)
    ensures LittleEndian(FromLittleEndian(b), |b|) == b
  {
    if b == [] {
    } else {
      EncodesWhatItDecodes(b[1..]);
      var x := FromLittleEndian(b);
      assert x / 256 == FromLittleEndian(b[1..]) && x % 256 == b[0];
      assert b == [b[0]] + b[1..];
    }
  }

  lemma Widths()
    ensures Pow256(4) == 0x1_0000_0000
    ensures Pow256(8) == 0x1_0000_0000_0000_0000
  {
    assert Pow256(2) == 0x1_0000;
    assert Pow256(4) == 256 * (256 * Pow256(2));
    assert Pow256(6) == 256 * (256 * Pow256(4));
    assert Pow256(8) == 256 * (256 * Pow256(6));
  }

  /** Distinct 64-bit integers have distinct encodings. */
  lemma LittleEndian64Injective(x: u64, y: u64)
    requires LittleEndian(x, 8) == LittleEndian(y, 8)
    ensures x == y
  {
    Widths();
    DecodesWhatItEncodes(x, 8);
    DecodesWhatItEncodes(y, 8);
  }

  /** The concatenation of 32-byte strings. */
  function Flatten(parts: seq<Hash>): (r: seq<byte>)
    ensures |r| == 32 * |parts|
  {
    if parts == [] then [] else Flatten(parts[..|parts| - 1]) + parts[|parts| - 1]
  }

  /** Part `k` sits at offset `32k` of the concatenation. */
  lemma {:induction false} FlattenSlice(parts: seq<Hash>, k: nat)
    requires k < |parts|
    ensures Flatten(parts)[32 * k..32 * k + 32] == parts[k]
  {
    var front := parts[..|parts| - 1];
    if k == |front| {
    } else {
      FlattenSlice(front, k);
      assert Flatten(parts)[32 * k..32 * k + 32] == Flatten(front)[32 * k..32 * k + 32];
    }
  }

  /** Writes `src` over `buf[start..start + |src|]`: Rust's `copy_from_slice` on a sub-slice. */
  method CopyFromSlice(buf: array<byte>, start: nat, src: seq<byte>)
    requires start + |src| <= buf.Length
    modifies buf
    ensures buf[..start] == old(buf[..start])
    ensures buf[start..start + |src|] == src
    ensures buf[..start + |src|] == old(buf[..start]) + src
    ensures buf[start + |src|..] == old(buf[start + |src|..])
  {
    for i := 0 to |src|
      invariant buf[..start] == old(buf[..start])
      invariant forall k :: 0 <= k < i ==> buf[start + k] == src[k]
      invariant buf[start + |src|..] == old(buf[start + |src|..])
    {
      buf[start + i] := src[i];
    }
  }
}
