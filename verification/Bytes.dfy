/** Bytes and little-endian integers, as the on-disk and on-wire formats use them. */
module Bytes {

  type byte = x: int | 0 <= x < 256
  type u32 = x: int | 0 <= x < 0x1_0000_0000
  type u64 = x: int | 0 <= x < 0x1_0000_0000_0000_0000

  /** usize on the 64-bit targets the server is built for; `usize::try_from(u64)` never fails there. */
  const USIZE_MAX: nat := 0xFFFF_FFFF_FFFF_FFFF

  function Pow256(n: nat): (p: nat)
    ensures p > 0
  {
    if n == 0 then 1 else 256 * Pow256(n - 1)
  }

  function FromLe(bs: seq<byte>): nat {
    if bs == [] then 0 else bs[0] + 256 * FromLe(bs[1..])
  }

  function ToLe(x: nat, width: nat): (bs: seq<byte>)
    ensures |bs| == width
  {
    if width == 0 then [] else [x % 256] + ToLe(x / 256, width - 1)
  }

  lemma {:induction false} FromLeBound(bs: seq<byte>)
    ensures FromLe(bs) < Pow256(|bs|)
  {
    if bs != [] {
      FromLeBound(bs[1..]);
    }
  }

  /** Decoding undoes encoding for every value that fits the width. */
  lemma {:induction false} LeRoundTrip(x: nat, width: nat)
    requires x < Pow256(width)
    ensures FromLe(ToLe(x, width)) == x
  {
    if width > 0 {
      LeRoundTrip(x / 256, width - 1);
      assert ToLe(x, width)[1..] == ToLe(x / 256, width - 1);
    }
  }

  /** The encoding is the only byte string of that width that decodes to the value. */
  lemma {:induction false} LeUnique(bs: seq<byte>)
    ensures ToLe(FromLe(bs), |bs|) == bs
  {
    if bs != [] {
      LeUnique(bs[1..]);
      assert bs == [bs[0]] + bs[1..];
    }
  }

  /** `read_u32_le`; callers establish that the four bytes are there. */
  function U32At(buf: seq<byte>, offset: nat): (r: u32)
    requires offset + 4 <= |buf|
  {
    FromLeBound(buf[offset..offset + 4]);
    assert Pow256(4) == 0x1_0000_0000;
    FromLe(buf[offset..offset + 4])
  }

  /** `read_u64_le`. */
  function U64At(buf: seq<byte>, offset: nat): (r: u64)
    requires offset + 8 <= |buf|
  {
    FromLeBound(buf[offset..offset + 8]);
    assert Pow256(8) == 0x1_0000_0000_0000_0000;
    FromLe(buf[offset..offset + 8])
  }

  function U16At(buf: seq<byte>, offset: nat): nat
    requires offset + 2 <= |buf|
  {
    FromLe(buf[offset..offset + 2])
  }

  /** What was written, whatever the pieces it arrived in. */
  function Joined(chunks: seq<seq<byte>>): seq<byte> {
    if chunks == [] then [] else Joined(chunks[..|chunks| - 1]) + chunks[|chunks| - 1]
  }
}
