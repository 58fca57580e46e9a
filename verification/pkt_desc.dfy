/** The packet descriptor of apps/pkt_desc.h: a packed `struct pkt_desc`
    holding one `unsigned int`, placed in the last four bytes of a buffer
    of `len` bytes. store writes it at the end of each 2048-byte slot and
    nvgen's sender reads the packet length back from there. */
module PktDesc {
  import opened Machine
  import opened Bytes

  const DESC_SIZE: nat := 4
  const SLOT_SIZE: nat := 2048

  /** `get_pkt_desc(buf, len)` as an offset into the buffer; `None` when
      `len - sizeof(struct pkt_desc)` would point before the buffer. */
  function DescOffset(len: int): (o: Option<nat>)
    ensures o.Some? <==> len >= DESC_SIZE
    ensures o.Some? ==> o.value + DESC_SIZE == len
  {
    if len < DESC_SIZE then None else Some(len - DESC_SIZE)
  }

  /** `get_pktlen_from_desc(buf, len) = v`. */
  function WriteLen(buf: seq<Byte>, len: nat, v: nat): (r: seq<Byte>)
    requires DESC_SIZE <= len <= |buf| && v < U32_LIMIT
    ensures |r| == |buf|
  {
    Overlay(buf, DescOffset(len).value, LE32(v))
  }

  /** The value of `get_pktlen_from_desc(buf, len)`. */
  function ReadLen(buf: seq<Byte>, len: nat): (v: nat)
    requires DESC_SIZE <= len <= |buf|
    ensures v < U32_LIMIT
  {
    ReadLE32(buf, DescOffset(len).value)
  }

  /** A length written through the descriptor reads back unchanged, and
      only the four bytes ending at `len` change. */
  lemma WriteThenRead(buf: seq<Byte>, len: nat, v: nat)
    requires DESC_SIZE <= len <= |buf| && v < U32_LIMIT
    ensures ReadLen(WriteLen(buf, len, v), len) == v
    ensures forall i :: 0 <= i < |buf| && !(len - DESC_SIZE <= i < len) ==> WriteLen(buf, len, v)[i] == buf[i]
  {
    var r := WriteLen(buf, len, v);
    var o := len - DESC_SIZE;
    LE32ReadsBack(v);
    assert r[o..o + 4] == LE32(v);
    assert ReadLE32(r, o) == ReadLE32(r[o..o + 4], 0);
  }

  /** Writing back the value just read changes nothing. */
  lemma ReadThenWrite(buf: seq<Byte>, len: nat)
    requires DESC_SIZE <= len <= |buf|
    ensures WriteLen(buf, len, ReadLen(buf, len)) == buf
  {
    var o := len - DESC_SIZE;
    LE32OfRead(buf, o);
    assert buf == buf[..o] + buf[o..o + 4] + buf[o + 4..];
  }

  /** In a 2048-byte slot the trailer starts at byte 2044, so a packet of
      at most 2044 bytes (1500 with store's bound) keeps all its bytes when
      the trailer is written. */
  lemma TrailerClearOfPacket(slot: seq<Byte>, pktlen: nat, v: nat)
    requires |slot| == SLOT_SIZE && pktlen <= SLOT_SIZE - DESC_SIZE && v < U32_LIMIT
    ensures DescOffset(SLOT_SIZE) == Some(SLOT_SIZE - DESC_SIZE)
    ensures WriteLen(slot, SLOT_SIZE, v)[..pktlen] == slot[..pktlen]
  {
    WriteThenRead(slot, SLOT_SIZE, v);
  }
}
