/** Fixed-width unsigned integers and their big-endian byte encoding, as
    produced by htobe32/htobe64 and consumed by be32toh/be64toh. */
module Bytes {

  type byte = x: int | 0 <= x < 256

  const U32_LIMIT: int := 0x1_0000_0000
  const U64_LIMIT: int := 0x1_0000_0000_0000_0000

  type u32 = x: int | 0 <= x < U32_LIMIT
  type u64 = x: int | 0 <= x < U64_LIMIT

  /** (uint64_t)-1: the "no page" sentinel of the free list and of the inode chain */
  const NONE: u64 := 0xFFFF_FFFF_FFFF_FFFF

  function Pow256(n: nat): (r: nat)
    ensures r >= 1
  {
    if n == 0 then 1 else 256 * Pow256(n - 1)
  }

  lemma Pow256Widths()
    ensures Pow256(4) == U32_LIMIT && Pow256(8) == U64_LIMIT
  {
    assert Pow256(1) == 256;
    assert Pow256(2) == 0x1_0000;
    assert Pow256(3) == 0x100_0000;
    assert Pow256(4) == 0x1_0000_0000;
    assert Pow256(5) == 0x100_0000_0000;
    assert Pow256(6) == 0x1_0000_0000_0000;
    assert Pow256(7) == 0x100_0000_0000_0000;
  }

  /** The n bytes of x, most significant first. */
  function ToBigEndian(x: nat, n: nat): (s: seq<byte>)
    requires x < Pow256(n)
    ensures |s| == n
  {
    if n == 0 then [] else ToBigEndian(x / 256, n - 1) + [x % 256]
  }

  /** The number whose big-endian bytes are s. */
  function FromBigEndian(s: seq<byte>): (x: nat)
    ensures x < Pow256(|s|)
  {
    if s == [] then 0
    else
      var high := FromBigEndian(s[..|s| - 1]);
      assert high * 256 + s[|s| - 1] < Pow256(|s| - 1) * 256 by {
        assert high <= Pow256(|s| - 1) - 1;
        assert high * 256 <= (Pow256(|s| - 1) - 1) * 256;
      }
      high * 256 + s[|s| - 1]
  }

  lemma {:induction false} FromToBigEndian(x: nat, n: nat)
    requires x < Pow256(n)
    ensures FromBigEndian(ToBigEndian(x, n)) == x
  {
    if n > 0 {
      var s := ToBigEndian(x, n);
      assert s[..n - 1] == ToBigEndian(x / 256, n - 1);
      FromToBigEndian(x / 256, n - 1);
    }
  }

  lemma {:induction false} ToFromBigEndian(s: seq<byte>)
    ensures ToBigEndian(FromBigEndian(s), |s|) == s
  {
    if s != [] {
      var init := s[..|s| - 1];
      var x := FromBigEndian(s);
      assert x / 256 == FromBigEndian(init) && x % 256 == s[|s| - 1];
      ToFromBigEndian(init);
      assert s == init + [s[|s| - 1]];
    }
  }

  /** htobe32 followed by the 4-byte write */
  function EncodeU32(x: u32): (s: seq<byte>)
    ensures |s| == 4
  {
    Pow256Widths();
    ToBigEndian(x, 4)
  }

  /** the 4-byte read followed by be32toh */
  function DecodeU32(s: seq<byte>): (x: u32)
    requires |s| == 4
    ensures EncodeU32(x) == s
  {
    Pow256Widths();
    ToFromBigEndian(s);
    FromBigEndian(s)
  }

  /** htobe64 followed by the 8-byte write */
  function EncodeU64(x: u64): (s: seq<byte>)
    ensures |s| == 8
  {
    Pow256Widths();
    ToBigEndian(x, 8)
  }

  /** the 8-byte read followed by be64toh */
  function DecodeU64(s: seq<byte>): (x: u64)
    requires |s| == 8
    ensures EncodeU64(x) == s
  {
    Pow256Widths();
    ToFromBigEndian(s);
    FromBigEndian(s)
  }

  lemma U32RoundTrip(x: u32)
    ensures DecodeU32(EncodeU32(x)) == x
  {
    Pow256Widths();
    FromToBigEndian(x, 4);
  }

  lemma U64RoundTrip(x: u64)
    ensures DecodeU64(EncodeU64(x)) == x
  {
    Pow256Widths();
    FromToBigEndian(x, 8);
  }
}
