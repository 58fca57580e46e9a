/** The 42 header bytes both packet builders write at the start of a
    buffer (apps/nmgen.c:115-148 and apps/store.c:18-61): an Ethernet
    header, an IPv4 header of five words (RFC 791 section 3.1) and a UDP
    header (RFC 768). The fields the builders leave constant are fixed
    here; the rest are the values a receiver reads in network order. */
module Frame {
  import opened Machine
  import opened Bytes

  const ETHER_LEN: nat := 14
  const IP_LEN: nat := 20
  const UDP_LEN: nat := 8
  const HEADERS_LEN: nat := 42

  const ETHERTYPE_IP: nat := 0x0800
  /** Version 4 in the high half, header length 5 words in the low. */
  const VERSION_IHL: Byte := 0x45
  const IPTOS_LOWDELAY: Byte := 0x10
  const TTL: Byte := 16
  const IPPROTO_UDP: Byte := 17

  /** The header fields that vary: addresses, the IPv4 total length and
      checksum, and the UDP ports and length. */
  datatype Header = Header(dmac: seq<Byte>, smac: seq<Byte>, ipLen: nat, ipSum: nat,
                           src: seq<Byte>, dst: seq<Byte>, sport: nat, dport: nat, ulen: nat)

  predicate Valid(h: Header)
  {
    |h.dmac| == 6 && |h.smac| == 6 && |h.src| == 4 && |h.dst| == 4
    && h.ipLen < U16_LIMIT && h.ipSum < U16_LIMIT
    && h.sport < U16_LIMIT && h.dport < U16_LIMIT && h.ulen < U16_LIMIT
  }

  function EtherBytes(h: Header): (bs: seq<Byte>)
    requires Valid(h)
    ensures |bs| == ETHER_LEN
  {
    h.dmac + h.smac + BE16(ETHERTYPE_IP)
  }

  /** The IPv4 header with identification, fragment offset and options
      zero. */
  function IpBytes(h: Header): (bs: seq<Byte>)
    requires Valid(h)
    ensures |bs| == IP_LEN
  {
    [VERSION_IHL, IPTOS_LOWDELAY] + BE16(h.ipLen) + [0, 0, 0, 0, TTL, IPPROTO_UDP]
    + BE16(h.ipSum) + h.src + h.dst
  }

  /** The UDP header with a zero checksum, which RFC 768 reads as "no
      checksum". */
  function UdpBytes(h: Header): (bs: seq<Byte>)
    requires Valid(h)
    ensures |bs| == UDP_LEN
  {
    BE16(h.sport) + BE16(h.dport) + BE16(h.ulen) + [0, 0]
  }

  function Encode(h: Header): (bs: seq<Byte>)
    requires Valid(h)
    ensures |bs| == HEADERS_LEN
  {
    EtherBytes(h) + IpBytes(h) + UdpBytes(h)
  }

  /** The bytes both builders write the same way whatever the fields. */
  predicate WellFormed(bs: seq<Byte>)
  {
    |bs| >= HEADERS_LEN
    && bs[12] == 0x08 && bs[13] == 0x00
    && bs[14] == VERSION_IHL && bs[15] == IPTOS_LOWDELAY
    && bs[18] == 0 && bs[19] == 0 && bs[20] == 0 && bs[21] == 0
    && bs[22] == TTL && bs[23] == IPPROTO_UDP
    && bs[40] == 0 && bs[41] == 0
  }

  /** The fields a receiver reads from the first 42 bytes. */
  function Decode(bs: seq<Byte>): (h: Header)
    requires |bs| >= HEADERS_LEN
    ensures Valid(h)
  {
    Header(bs[0..6], bs[6..12], ReadBE16(bs, 16), ReadBE16(bs, 24), bs[26..30], bs[30..34],
           ReadBE16(bs, 34), ReadBE16(bs, 36), ReadBE16(bs, 38))
  }

  /** The IPv4 header sits after the Ethernet header. */
  lemma IpInFrame(h: Header)
    requires Valid(h)
    ensures Encode(h)[ETHER_LEN..ETHER_LEN + IP_LEN] == IpBytes(h)
  {
    var e, i, u := EtherBytes(h), IpBytes(h), UdpBytes(h);
    assert Encode(h) == e + i + u;
    assert (e + i + u)[|e|..|e| + |i|] == i;
  }

  /** The IPv4 header's variable fields read back from their places. */
  lemma IpFields(h: Header)
    requires Valid(h)
    ensures var i := IpBytes(h);
            ReadBE16(i, 2) == h.ipLen && ReadBE16(i, 10) == h.ipSum
            && i[12..16] == h.src && i[16..20] == h.dst
  {
    var i := IpBytes(h);
    BE16RoundTrip(h.ipLen, i, 2);
    BE16RoundTrip(h.ipSum, i, 10);
  }

  /** The UDP header's fields read back from their places. */
  lemma UdpFields(h: Header)
    requires Valid(h)
    ensures var u := UdpBytes(h);
            ReadBE16(u, 0) == h.sport && ReadBE16(u, 2) == h.dport && ReadBE16(u, 4) == h.ulen
  {
    var u := UdpBytes(h);
    BE16RoundTrip(h.sport, u, 0);
    BE16RoundTrip(h.dport, u, 2);
    BE16RoundTrip(h.ulen, u, 4);
  }

  /** A receiver reads back exactly the fields that were written, and the
      constant bytes are in place. */
  lemma DecodeEncode(h: Header)
    requires Valid(h)
    ensures WellFormed(Encode(h)) && Decode(Encode(h)) == h
  {
    var bs := Encode(h);
    var e, i, u := EtherBytes(h), IpBytes(h), UdpBytes(h);
    assert bs == e + i + u;
    assert bs[0..6] == h.dmac && bs[6..12] == h.smac;
    IpInFrame(h);
    IpFields(h);
    UdpFields(h);
    assert bs[26..30] == i[12..16];
    assert bs[30..34] == i[16..20];
    assert bs[34..42] == u;
    assert ReadBE16(bs, 16) == ReadBE16(i, 2) && ReadBE16(bs, 24) == ReadBE16(i, 10);
    assert ReadBE16(bs, 34) == ReadBE16(u, 0) && ReadBE16(bs, 36) == ReadBE16(u, 2);
    assert ReadBE16(bs, 38) == ReadBE16(u, 4);
  }

  /** Every well-formed header is the encoding of the fields read from
      it. */
  lemma EncodeDecode(bs: seq<Byte>)
    requires WellFormed(bs)
    ensures Encode(Decode(bs)) == bs[..HEADERS_LEN]
  {
    var h := Decode(bs);
    BE16RoundTrip(0, bs, 16);
    BE16RoundTrip(0, bs, 24);
    BE16RoundTrip(0, bs, 34);
    BE16RoundTrip(0, bs, 36);
    BE16RoundTrip(0, bs, 38);
    assert EtherBytes(h) == bs[0..14];
    assert IpBytes(h) == bs[14..34];
    assert UdpBytes(h) == bs[34..42];
  }

  /** Only the first 42 bytes matter: a buffer that starts with the
      encoding of `h` decodes to `h`, whatever follows. */
  lemma DecodePrefix(bs: seq<Byte>, h: Header)
    requires Valid(h) && |bs| >= HEADERS_LEN && bs[..HEADERS_LEN] == Encode(h)
    ensures WellFormed(bs) && Decode(bs) == h
  {
    var e := Encode(h);
    DecodeEncode(h);
    assert forall i :: 0 <= i < HEADERS_LEN ==> bs[i] == e[i];
    assert bs[0..6] == e[0..6] && bs[6..12] == e[6..12];
    assert bs[26..30] == e[26..30] && bs[30..34] == e[30..34];
  }
}
