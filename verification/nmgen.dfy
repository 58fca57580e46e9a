/** nmgen's packet template and one iteration of its transmit loop
    (apps/nmgen.c:115-223). `build_packet` fills each 2048-byte slot of the
    sender's buffer with an Ethernet/IPv4/UDP header whose IPv4 checksum it
    computes; the loop then posts up to `batch` of those buffers, by
    physical address, on the netmap TX ring. `rand()`, the physical
    addresses and the `NIOCTXSYNC` ioctl are oracles. */
module Nmgen {
  import opened Machine
  import opened Bytes
  import opened Frame
  import IC = InetChecksum
  import NR = NetmapRing

  const MAX_BATCH_NUM: nat := 64
  const UDP_BASE_PORT: nat := 60000

  /** The addresses of `struct nmgen`: MAC addresses and IPv4 addresses,
      already in network order. */
  datatype Addrs = Addrs(dmac: seq<Byte>, smac: seq<Byte>, dst: seq<Byte>, src: seq<Byte>)

  predicate AddrsValid(a: Addrs)
  {
    |a.dmac| == 6 && |a.smac| == 6 && |a.dst| == 4 && |a.src| == 4
  }

  /** The header `build_packet` writes before it fills in `ip_sum`:
      `ip_len = htons(pktlen - 14)`, `uh_ulen = htons(pktlen - 14 - 20)`,
      `uh_dport = htons(60000 + cpu)`, each cut to 16 bits, and
      `uh_sport = rand() & 0xFFFF` stored without `htons`, so a receiver
      reads it byte-swapped. */
  function PlainHeader(a: Addrs, pktlen: int, cpu: int, rnd: nat): (h: Header)
    requires AddrsValid(a)
    ensures Valid(h) && h.ipSum == 0
  {
    Header(a.dmac, a.smac, U16(pktlen - ETHER_LEN), 0, a.src, a.dst,
           Swap16(rnd % U16_LIMIT), U16(UDP_BASE_PORT + cpu), U16(pktlen - ETHER_LEN - IP_LEN))
  }

  /** `ip_sum = wrapsum(checksum(ip, sizeof(*ip), 0))`: the value the host
      stores, read in network order. */
  function Stamped(h: Header): (h': Header)
    requires Valid(h)
    ensures Valid(h') && h' == h.(ipSum := h'.ipSum)
  {
    h.(ipSum := Swap16(IC.WrapSum(IC.Checksum(IpBytes(h), 0))))
  }

  /** `build_packet`: zero the first `pktlen` bytes, then write the
      headers. */
  function BuildPacket(buf: seq<Byte>, a: Addrs, pktlen: int, cpu: int, rnd: nat): (r: seq<Byte>)
    requires AddrsValid(a) && HEADERS_LEN <= |buf| && 0 <= pktlen <= |buf|
    ensures |r| == |buf|
  {
    Overlay(Overlay(buf, 0, Zeros(pktlen)), 0, Encode(Stamped(PlainHeader(a, pktlen, cpu, rnd))))
  }

  /** The packet carries the addresses it was given; the IPv4 total length
      is `pktlen` less the Ethernet header and the UDP length is that less
      the IPv4 header, as RFC 791 and RFC 768 define them, whenever the
      packet is at least 34 bytes; the destination port is 60000 plus the
      CPU; the payload is zero and the rest of the buffer is untouched. */
  lemma BuildPacketFields(buf: seq<Byte>, a: Addrs, pktlen: int, cpu: int, rnd: nat)
    requires AddrsValid(a) && HEADERS_LEN <= |buf| && 0 <= pktlen <= |buf|
    ensures var r := BuildPacket(buf, a, pktlen, cpu, rnd);
            var h := Decode(r);
            WellFormed(r) && h.dmac == a.dmac && h.smac == a.smac && h.src == a.src && h.dst == a.dst
            && h.sport == Swap16(rnd % U16_LIMIT)
            && (ETHER_LEN + IP_LEN <= pktlen < U16_LIMIT ==>
                  h.ipLen + ETHER_LEN == pktlen && h.ulen + IP_LEN == h.ipLen)
            && (0 <= cpu < U16_LIMIT - UDP_BASE_PORT ==> h.dport == UDP_BASE_PORT + cpu)
    ensures var r := BuildPacket(buf, a, pktlen, cpu, rnd);
            (forall i :: HEADERS_LEN <= i < pktlen ==> r[i] == 0)
            && (forall i :: HEADERS_LEN <= i < |buf| && pktlen <= i ==> r[i] == buf[i])
  {
    var h := Stamped(PlainHeader(a, pktlen, cpu, rnd));
    var r := BuildPacket(buf, a, pktlen, cpu, rnd);
    DecodeEncode(h);
    assert r[..HEADERS_LEN] == Encode(h);
    assert Decode(r) == Decode(Encode(h));
  }

  /** A packet shorter than its headers is not refused: its UDP length
      wraps around 16 bits. */
  lemma ShortPacketWraps(buf: seq<Byte>, a: Addrs, cpu: int, rnd: nat)
    requires AddrsValid(a) && HEADERS_LEN <= |buf|
    ensures Decode(BuildPacket(buf, a, 20, cpu, rnd)).ulen == U16_LIMIT - 14
  {
    BuildPacketFields(buf, a, 20, cpu, rnd);
    var h := Stamped(PlainHeader(a, 20, cpu, rnd));
    DecodeEncode(h);
    assert BuildPacket(buf, a, 20, cpu, rnd)[..HEADERS_LEN] == Encode(h);
  }

  /** The IPv4 header of a built packet checks: its ones'-complement sum,
      taken over the header with the stored checksum in place, is 0xFFFF
      (RFC 1071 section 1, RFC 791 section 3.1). */
  lemma BuildPacketChecksum(buf: seq<Byte>, a: Addrs, pktlen: int, cpu: int, rnd: nat)
    requires AddrsValid(a) && HEADERS_LEN <= |buf| && 0 <= pktlen <= |buf|
    ensures var r := BuildPacket(buf, a, pktlen, cpu, rnd);
            IC.Checksum(r[ETHER_LEN..ETHER_LEN + IP_LEN], 0) == IC.ONES
  {
    var h0 := PlainHeader(a, pktlen, cpu, rnd);
    var h := Stamped(h0);
    var data := IpBytes(h0);
    var c := IC.Checksum(data, 0);
    var w := IC.WrapSum(c);
    SwapStoresNetworkOrder(w);
    SwapStoresNetworkOrder(Swap16(w));
    assert BE16(Swap16(w)) == LE16(w);
    assert IpBytes(h) == Overlay(data, 10, LE16(w));
    assert IC.Word(data, 5) == 0;
    assert IC.Word(data, 0) > 0;
    assert IC.Padded(data) == data;
    IC.WordSumGrows(data, 1, 10);
    IC.ComplementVerifies(data, 5);
    var r := BuildPacket(buf, a, pktlen, cpu, rnd);
    IpInFrame(h);
    assert r[..HEADERS_LEN] == Encode(h);
    assert r[ETHER_LEN..ETHER_LEN + IP_LEN] == Encode(h)[ETHER_LEN..ETHER_LEN + IP_LEN];
  }

  /** The sender's TX ring and its two `unsigned long` counters. */
  datatype Sender = Sender(tx: NR.Ring, npkts: nat, nbits: nat)

  predicate SenderValid(s: Sender)
  {
    NR.Valid(s.tx) && s.npkts < U64_LIMIT && s.nbits < U64_LIMIT
  }

  datatype Sync = SyncFailed | Synced(tx: NR.Ring)

  /** `Stopped`: the sync failed and the thread ends. `NoSpace`: the synced
      ring is full. `OutOfBounds`: the batch runs past the 64 entries of
      `pkts_phy`. */
  datatype Outcome = Stopped | NoSpace(tx: NR.Ring) | OutOfBounds | Sent(s: Sender, batch: nat)

  /** `space > gen->batch ? gen->batch : space` with the `int` batch
      converted to `unsigned long`: a non-negative batch caps the space,
      and a negative one becomes a huge unsigned value that caps nothing. */
  function Batch(space: nat, genBatch: int): (b: nat)
    ensures b <= space
    ensures 0 <= genBatch < U64_LIMIT ==> b == Min(space, genBatch)
    ensures IsInt(genBatch) && genBatch < 0 && space < U64_LIMIT - 0x8000_0000 ==> b == space
  {
    NegativeConverts(genBatch, U64_LIMIT);
    if space > U64(genBatch) then U64(genBatch) else space
  }

  /** The b-th buffer of the batch: packet `b`'s physical address, with
      the same length for every packet. */
  function Descs(pktlen: int, phys: seq<nat>, n: nat): (ds: seq<NR.Desc>)
    requires n <= |phys|
    ensures |ds| == n && forall b :: 0 <= b < n ==> ds[b] == NR.Desc(pktlen, phys[b])
  {
    seq(n, b requires 0 <= b < n => NR.Desc(pktlen, phys[b]))
  }

  /** One iteration of the transmit loop (apps/nmgen.c:191-222). Each
      packet adds `pktlen << 3` bits. */
  function Step(s: Sender, genBatch: int, pktlen: int, phys: seq<nat>, sync: Sync): (o: Outcome)
    requires SenderValid(s) && |phys| == MAX_BATCH_NUM
    requires sync.Synced? ==> NR.Valid(sync.tx)
    ensures o.Sent? ==> SenderValid(o.s)
  {
    if sync.SyncFailed? then Stopped
    else
      var tx := sync.tx;
      var space := NR.Space(tx);
      if space == 0 then NoSpace(tx)
      else
        var batch := Batch(space, genBatch);
        if batch > MAX_BATCH_NUM then OutOfBounds
        else
          Sent(Sender(NR.Post(tx.(cur := tx.head), Descs(pktlen, phys, batch)),
                      U64(s.npkts + batch), U64(s.nbits + batch * (pktlen * 8))),
               batch)
  }

  /** The step sends unless the sync fails or the ring is full, and it
      stays inside `pkts_phy` exactly when the batch does. */
  lemma StepCases(s: Sender, genBatch: int, pktlen: int, phys: seq<nat>, sync: Sync)
    requires SenderValid(s) && |phys| == MAX_BATCH_NUM
    requires sync.Synced? ==> NR.Valid(sync.tx)
    ensures var o := Step(s, genBatch, pktlen, phys, sync);
            (o == Stopped <==> sync.SyncFailed?)
            && (o.NoSpace? <==> sync.Synced? && NR.Space(sync.tx) == 0)
            && (o == OutOfBounds <==> sync.Synced? && NR.Space(sync.tx) > 0
                                      && Batch(NR.Space(sync.tx), genBatch) > MAX_BATCH_NUM)
            && (o.Sent? <==> sync.Synced? && NR.Space(sync.tx) > 0
                             && Batch(NR.Space(sync.tx), genBatch) <= MAX_BATCH_NUM)
  {
  }

  /** With `-b` between 0 and 64, as the option check and the buffer
      allocation leave it, the step never leaves `pkts_phy` and sends
      `min(space, batch)` packets. */
  lemma BatchStaysInTable(s: Sender, genBatch: int, pktlen: int, phys: seq<nat>, sync: Sync)
    requires SenderValid(s) && |phys| == MAX_BATCH_NUM
    requires sync.Synced? && NR.Valid(sync.tx) && NR.Space(sync.tx) > 0
    requires 0 <= genBatch <= MAX_BATCH_NUM
    ensures var o := Step(s, genBatch, pktlen, phys, sync);
            o.Sent? && o.batch == Min(NR.Space(sync.tx), genBatch)
  {
  }

  /** When it sends, `head` and `cur` both end `batch` slots on, `tail` is
      untouched, and the counters grow by the batch and its bits. */
  lemma StepMoves(s: Sender, genBatch: int, pktlen: int, phys: seq<nat>, sync: Sync)
    requires SenderValid(s) && |phys| == MAX_BATCH_NUM
    requires sync.Synced? ==> NR.Valid(sync.tx)
    requires Step(s, genBatch, pktlen, phys, sync).Sent?
    ensures var o := Step(s, genBatch, pktlen, phys, sync);
            var tx := sync.tx;
            o.s.tx.head == o.s.tx.cur == NR.Ahead(tx.head, o.batch, tx.numSlots)
            && o.s.tx.tail == tx.tail && o.s.tx.numSlots == tx.numSlots
            && o.s.npkts == U64(s.npkts + o.batch)
            && o.s.nbits == U64(s.nbits + o.batch * (pktlen * 8))
  {
    var o := Step(s, genBatch, pktlen, phys, sync);
    NR.PostCursors(sync.tx.(cur := sync.tx.head), Descs(pktlen, phys, o.batch));
  }

  /** The TX slot `i` places after the old `head` carries packet `i` of the
      template, with length `pktlen`, when `i < batch`; every other slot is
      as the sync left it. */
  lemma StepSlot(s: Sender, genBatch: int, pktlen: int, phys: seq<nat>, sync: Sync, j: nat)
    requires SenderValid(s) && |phys| == MAX_BATCH_NUM
    requires sync.Synced? ==> NR.Valid(sync.tx)
    requires Step(s, genBatch, pktlen, phys, sync).Sent? && j < sync.tx.numSlots
    ensures var o := Step(s, genBatch, pktlen, phys, sync);
            var tx := sync.tx;
            var i := NR.Rel(j, tx.head, tx.numSlots);
            (i < o.batch ==> o.s.tx.slots[j] == NR.Describe(tx.slots[j], NR.Desc(pktlen, phys[i])))
            && (i >= o.batch ==> o.s.tx.slots[j] == tx.slots[j])
  {
    var o := Step(s, genBatch, pktlen, phys, sync);
    NR.PostSlots(sync.tx.(cur := sync.tx.head), Descs(pktlen, phys, o.batch), j);
  }

  /** With `head` and `cur` together, the step uses up exactly `batch`
      slots of TX space. */
  lemma StepConsumesSpace(s: Sender, genBatch: int, pktlen: int, phys: seq<nat>, sync: Sync)
    requires SenderValid(s) && |phys| == MAX_BATCH_NUM
    requires sync.Synced? && NR.Valid(sync.tx) && sync.tx.head == sync.tx.cur
    requires Step(s, genBatch, pktlen, phys, sync).Sent?
    ensures var o := Step(s, genBatch, pktlen, phys, sync);
            NR.Space(o.s.tx) == NR.Space(sync.tx) - o.batch
  {
    var o := Step(s, genBatch, pktlen, phys, sync);
    NR.PostConsumesSpace(sync.tx, Descs(pktlen, phys, o.batch));
  }
}
