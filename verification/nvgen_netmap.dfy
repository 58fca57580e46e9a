/** One iteration of nvgen's transmit loop, `nvgen_sender_netmap_body`
    (apps/nvgen.c:245-292): take the slots the NVMe reader has filled from
    the bridge ring and post them, by physical address, on the netmap TX
    ring. The `NIOCTXSYNC` ioctl is an oracle that either fails or hands back
    the ring as the kernel left it; the packet addresses and the lengths in
    the slots' trailers are tables read from the shared buffer. */
module NvgenNetmap {
  import opened Machine
  import BR = BridgeRing
  import NR = NetmapRing

  /** The sender's state: the bridge ring (it owns `tail`), the TX ring and
      its two `unsigned long` counters. */
  datatype Sender = Sender(ring: BR.Ring, tx: NR.Ring, npkts: nat, nbits: nat)

  predicate SenderValid(s: Sender)
  {
    BR.Valid(s.ring) && NR.Valid(s.tx) && s.npkts < U64_LIMIT && s.nbits < U64_LIMIT
  }

  /** `pkts_phy[]`, the physical address of each 2048-byte slot, and the
      packet length in each slot's trailer as `get_pktlen_from_desc` reads
      it. */
  datatype Packets = Packets(phys: seq<nat>, lens: seq<nat>)

  predicate PacketsValid(p: Packets)
  {
    |p.phys| == BR.SLOT_NUM && |p.lens| == BR.SLOT_NUM
  }

  datatype Sync = SyncFailed | Synced(tx: NR.Ring)

  /** `Waiting`: fewer than two loaded slots. `Stopped`: the sync failed and
      the loop ends. `NoSpace`: the synced TX ring has no room. */
  datatype Outcome = Waiting | Stopped | NoSpace(tx: NR.Ring) | Sent(s: Sender, batch: nat)

  /** `batch = min(space & ~1, gen->batch, loaded)`, the `int` batch
      compared as `unsigned int`: a non-negative batch caps the even part of
      the space, and a negative one caps nothing. */
  function Batch(space: nat, genBatch: int, loaded: nat): (b: nat)
    ensures b <= space && b <= loaded && b <= U32(genBatch)
    ensures 0 <= genBatch < U32_LIMIT ==> b == Min(Min(space - space % 2, genBatch), loaded)
    ensures IsInt(genBatch) && genBatch < 0 && space < 0x8000_0000 ==>
              b == Min(space - space % 2, loaded)
  {
    NegativeConverts(genBatch, U32_LIMIT);
    var even := space - space % 2;
    var b := if even > U32(genBatch) then U32(genBatch) else even;
    if b > loaded then loaded else b
  }

  /** The buffers of `k` bridge slots from `tail` on, wrapping at the ring
      size, each as its trailer length and physical address. */
  function Loaded(p: Packets, tail: nat, k: nat): (ds: seq<NR.Desc>)
    requires PacketsValid(p)
    ensures |ds| == k
    ensures forall i :: 0 <= i < k ==>
              ds[i] == NR.Desc(p.lens[(tail + i) % BR.SLOT_NUM], p.phys[(tail + i) % BR.SLOT_NUM])
  {
    seq(k, i requires 0 <= i < k =>
             NR.Desc(p.lens[(tail + i) % BR.SLOT_NUM], p.phys[(tail + i) % BR.SLOT_NUM]))
  }

  datatype Gathered = Gathered(descs: seq<NR.Desc>, tail: nat)

  /** The bridge-ring side of the copy loop (apps/nvgen.c:273-286): read
      slot `tail`'s address and trailer length and move `tail` with
      `ring_read_next`, `k` times. It gathers the `k` slots from `tail` on
      and leaves `tail` `k` slots further on. */
  method Gather(r: BR.Ring, p: Packets, tail0: nat, k: nat) returns (g: Gathered)
    requires BR.Valid(r) && PacketsValid(p) && tail0 < BR.SLOT_NUM
    ensures g.descs == Loaded(p, tail0, k)
    ensures g.tail == (tail0 + k) % BR.SLOT_NUM
  {
    var tail := tail0;
    var descs: seq<NR.Desc> := [];
    var b := 0;
    while b < k
      invariant b <= k && tail < BR.SLOT_NUM
      invariant tail == (tail0 + b) % BR.SLOT_NUM
      invariant descs == Loaded(p, tail0, b)
    {
      descs := descs + [NR.Desc(p.lens[tail], p.phys[tail])];
      AddMod(tail0 + b, 1, BR.SLOT_NUM);
      tail := BR.ReadNext(r, tail);
      b := b + 1;
      assert descs == Loaded(p, tail0, b);
    }
    g := Gathered(descs, tail);
  }

  /** `nbits += slot->len << 3` over the posted slots, with the length as
      the slot's `uint16_t`. */
  function Bits(ds: seq<NR.Desc>): nat
  {
    if ds == [] then 0 else U16(ds[0].len) * 8 + Bits(ds[1..])
  }

  /** One iteration of the transmit loop, with the bridge-ring side as
      `Gather` computes it. The copy starts at the TX ring's `head` and ends
      with `cur = head` after the last slot. */
  function Step(s: Sender, genBatch: int, p: Packets, sync: Sync): (o: Outcome)
    requires SenderValid(s) && PacketsValid(p)
    requires sync.Synced? ==> NR.Valid(sync.tx)
    ensures o.Sent? ==> SenderValid(o.s) && o.s.ring.head == s.ring.head
  {
    var loaded := BR.ReadAvail(s.ring);
    if loaded < 2 then Waiting
    else if sync.SyncFailed? then Stopped
    else
      var tx := sync.tx;
      var space := NR.Space(tx);
      if space == 0 then NoSpace(tx)
      else
        var batch := Batch(space, genBatch, loaded);
        var ds := Loaded(p, s.ring.tail, batch);
        Sent(Sender(s.ring.(tail := (s.ring.tail + batch) % BR.SLOT_NUM),
                    NR.Post(tx.(cur := tx.head), ds),
                    U64(s.npkts + batch), U64(s.nbits + Bits(ds))),
             batch)
  }

  /** The step sends only with two loaded slots, a successful sync and TX
      space. */
  lemma StepCases(s: Sender, genBatch: int, p: Packets, sync: Sync)
    requires SenderValid(s) && PacketsValid(p)
    requires sync.Synced? ==> NR.Valid(sync.tx)
    ensures var o := Step(s, genBatch, p, sync);
            (o == Waiting <==> BR.ReadAvail(s.ring) < 2)
            && (o == Stopped <==> BR.ReadAvail(s.ring) >= 2 && sync.SyncFailed?)
            && (o.NoSpace? <==> BR.ReadAvail(s.ring) >= 2 && sync.Synced? && NR.Space(sync.tx) == 0)
            && (o.Sent? <==> BR.ReadAvail(s.ring) >= 2 && sync.Synced? && NR.Space(sync.tx) > 0)
  {
  }

  /** When it sends, `tail` and the TX ring's `head` and `cur` all move by
      exactly `batch`, and the counters by `batch` packets. */
  lemma StepMoves(s: Sender, genBatch: int, p: Packets, sync: Sync)
    requires SenderValid(s) && PacketsValid(p)
    requires sync.Synced? ==> NR.Valid(sync.tx)
    requires Step(s, genBatch, p, sync).Sent?
    ensures var o := Step(s, genBatch, p, sync);
            var tx := sync.tx;
            o.batch == Batch(NR.Space(tx), genBatch, BR.ReadAvail(s.ring))
            && o.s.ring == s.ring.(tail := (s.ring.tail + o.batch) % BR.SLOT_NUM)
            && o.s.tx.head == o.s.tx.cur == NR.Ahead(tx.head, o.batch, tx.numSlots)
            && o.s.tx.tail == tx.tail && o.s.tx.numSlots == tx.numSlots
            && o.s.npkts == U64(s.npkts + o.batch)
  {
    var o := Step(s, genBatch, p, sync);
    NR.PostCursors(sync.tx.(cur := sync.tx.head), Loaded(p, s.ring.tail, o.batch));
  }

  /** The TX slot `i` places after the old `head` carries the packet of
      bridge slot `tail + i` when `i < batch`; every other TX slot is as the
      sync left it. */
  lemma StepSlot(s: Sender, genBatch: int, p: Packets, sync: Sync, j: nat)
    requires SenderValid(s) && PacketsValid(p)
    requires sync.Synced? ==> NR.Valid(sync.tx)
    requires Step(s, genBatch, p, sync).Sent? && j < sync.tx.numSlots
    ensures var o := Step(s, genBatch, p, sync);
            var tx := sync.tx;
            var i := NR.Rel(j, tx.head, tx.numSlots);
            var src := (s.ring.tail + i) % BR.SLOT_NUM;
            (i < o.batch ==> o.s.tx.slots[j] == NR.Describe(tx.slots[j], NR.Desc(p.lens[src], p.phys[src])))
            && (i >= o.batch ==> o.s.tx.slots[j] == tx.slots[j])
  {
    var o := Step(s, genBatch, p, sync);
    NR.PostSlots(sync.tx.(cur := sync.tx.head), Loaded(p, s.ring.tail, o.batch), j);
  }

  /** With the TX ring's `head` and `cur` together, as this program keeps
      them, the step uses up exactly `batch` slots of TX space. */
  lemma StepConsumesSpace(s: Sender, genBatch: int, p: Packets, sync: Sync)
    requires SenderValid(s) && PacketsValid(p)
    requires sync.Synced? && NR.Valid(sync.tx) && sync.tx.head == sync.tx.cur
    requires Step(s, genBatch, p, sync).Sent?
    ensures var o := Step(s, genBatch, p, sync);
            NR.Space(o.s.tx) == NR.Space(sync.tx) - o.batch
  {
    var o := Step(s, genBatch, p, sync);
    NR.PostConsumesSpace(sync.tx, Loaded(p, s.ring.tail, o.batch));
  }

  /** While `head` is not behind `tail`, the sender never takes more slots
      than the reader has filled, and what it takes leaves the ring. */
  lemma SendsOnlyFilled(s: Sender, genBatch: int, p: Packets, sync: Sync)
    requires SenderValid(s) && PacketsValid(p)
    requires sync.Synced? ==> NR.Valid(sync.tx)
    requires s.ring.head >= s.ring.tail && Step(s, genBatch, p, sync).Sent?
    ensures var o := Step(s, genBatch, p, sync);
            o.batch <= BR.ReadAvailIntended(s.ring)
            && BR.ReadAvailIntended(o.s.ring) == BR.ReadAvailIntended(s.ring) - o.batch
  {
    BR.ReadAvailAsWritten(s.ring);
  }

  /** Once the reader's `head` has wrapped behind `tail`, `ring_read_avail`
      answers more than 2^32 - 256, so the loaded count stops limiting the
      batch: the sender takes as many slots as TX space and `-b` allow,
      whatever the reader has filled. */
  lemma WrappedHeadUnlimitsBatch(s: Sender, genBatch: int, p: Packets, sync: Sync)
    requires SenderValid(s) && PacketsValid(p)
    requires sync.Synced? && NR.Valid(sync.tx)
    requires s.ring.head < s.ring.tail && NR.Space(sync.tx) > 0
    requires sync.tx.numSlots <= U32_LIMIT - BR.SLOT_NUM
    ensures var o := Step(s, genBatch, p, sync);
            var space := NR.Space(sync.tx);
            o.Sent? && o.batch == Min(space - space % 2, U32(genBatch))
  {
    BR.ReadAvailAsWritten(s.ring);
    assert BR.ReadAvail(s.ring) >= 2;
  }
}
