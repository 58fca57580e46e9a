/** Bytes in memory and the orders multi-byte values are stored in. The
    applications run on little-endian x86: a `uint16_t` or `unsigned int`
    stored directly lands least significant byte first, and `htons` swaps
    the two bytes of a 16-bit value so that it lands in network order. */
module Bytes {
  import opened Machine

  type Byte = x: int | 0 <= x < 256

  function Zeros(n: nat): (z: seq<Byte>)
    ensures |z| == n && forall i :: 0 <= i < n ==> z[i] == 0
  {
    seq(n, i => 0)
  }

  /** `memcpy(buf + off, bs, |bs|)`: the bytes of `bs` at `off`, the rest
      of `buf` as it was. */
  function Overlay(buf: seq<Byte>, off: nat, bs: seq<Byte>): (r: seq<Byte>)
    requires off + |bs| <= |buf|
    ensures |r| == |buf|
    ensures forall i :: 0 <= i < |bs| ==> r[off + i] == bs[i]
    ensures forall i :: 0 <= i < |buf| && !(off <= i < off + |bs|) ==> r[i] == buf[i]
  {
    buf[..off] + bs + buf[off + |bs|..]
  }

  /** A 16-bit value in network order: most significant byte first. */
  function BE16(v: nat): (bs: seq<Byte>)
    requires v < U16_LIMIT
    ensures |bs| == 2
  {
    [v / 256, v % 256]
  }

  function ReadBE16(bs: seq<Byte>, i: nat): (v: nat)
    requires i + 2 <= |bs|
    ensures v < U16_LIMIT
  {
    bs[i] as int * 256 + bs[i + 1]
  }

  /** A 16-bit value as the host stores it. */
  function LE16(v: nat): (bs: seq<Byte>)
    requires v < U16_LIMIT
    ensures |bs| == 2
  {
    [v % 256, v / 256]
  }

  /** An `unsigned int` as the host stores it. */
  function LE32(v: nat): (bs: seq<Byte>)
    requires v < U32_LIMIT
    ensures |bs| == 4
  {
    [v % 256, v / 256 % 256, v / 0x1_0000 % 256, v / 0x100_0000]
  }

  function ReadLE32(bs: seq<Byte>, i: nat): (v: nat)
    requires i + 4 <= |bs|
    ensures v < U32_LIMIT
  {
    bs[i] as int + bs[i + 1] as int * 0x100 + bs[i + 2] as int * 0x1_0000
      + bs[i + 3] as int * 0x100_0000
  }

  /** `htons` on a little-endian host: the two bytes swapped. */
  function Swap16(v: nat): (r: nat)
    requires v < U16_LIMIT
    ensures r < U16_LIMIT
  {
    v % 256 * 256 + v / 256
  }

  /** Network order reads back what it wrote, and every two bytes are the
      network-order encoding of some value. */
  lemma BE16RoundTrip(v: nat, bs: seq<Byte>, i: nat)
    requires v < U16_LIMIT && i + 2 <= |bs|
    ensures ReadBE16(BE16(v), 0) == v
    ensures BE16(ReadBE16(bs, i)) == bs[i..i + 2]
  {
  }

  /** The stored `unsigned int` reads back as itself. */
  lemma LE32ReadsBack(v: nat)
    requires v < U32_LIMIT
    ensures ReadLE32(LE32(v), 0) == v
  {
    var q := v / 256;
    var q2 := q / 256;
    assert v == v % 256 + q * 256;
    assert q == q % 256 + q2 * 256;
    assert q2 == q2 % 256 + q2 / 256 * 256;
    assert v / 0x1_0000 == q2;
    assert v / 0x100_0000 == q2 / 256;
  }

  /** Every four bytes are the stored form of the value read from them. */
  lemma LE32OfRead(bs: seq<Byte>, i: nat)
    requires i + 4 <= |bs|
    ensures LE32(ReadLE32(bs, i)) == bs[i..i + 4]
  {
    var b0, b1, b2, b3 := bs[i] as int, bs[i + 1] as int, bs[i + 2] as int, bs[i + 3] as int;
    var w := ReadLE32(bs, i);
    var q1 := b1 + b2 * 0x100 + b3 * 0x1_0000;
    var q2 := b2 + b3 * 0x100;
    assert w == q1 * 256 + b0;
    assert w / 256 == q1;
    assert q1 == q2 * 256 + b1;
    assert w / 0x1_0000 == q2;
    assert w / 0x100_0000 == b3;
    DivModUnique(w, q1, b0, 256);
    DivModUnique(q1, q2, b1, 256);
    DivModUnique(q2, b3, b2, 256);
  }

  /** Swapping twice gives the value back, and a swapped value stored by
      the host lands in network order: what `htons` is for. */
  lemma SwapStoresNetworkOrder(v: nat)
    requires v < U16_LIMIT
    ensures Swap16(Swap16(v)) == v
    ensures LE16(Swap16(v)) == BE16(v)
  {
  }
}
