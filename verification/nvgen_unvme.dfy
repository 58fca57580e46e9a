/** One iteration of nvgen's NVMe reader loop, `nvgen_sender_unvme_body`
    (apps/nvgen.c:365-414): ask the bridge ring for room, read that many
    2048-byte slots' worth of 4096-byte blocks from the NVMe device into the
    ring, poll every command, then publish the new `head`. Only the reader's
    side is modelled; the sender thread and the device are not. `rand()` and
    the polls are oracles, and the reads themselves are events. */
module NvgenUnvme {
  import opened Machine
  import BR = BridgeRing
  import opened LbaWalk
  import opened UnvmeIo

  /** `MAX_NVBATCH_NUM`, the size of the command array. */
  const MAX_NVBATCH: nat := 128

  /** The reader's own state: its ring, the next LBA (`unsigned int`) and
      its byte counter (`unsigned long`). */
  datatype Reader = Reader(ring: BR.Ring, lba: nat, nbytes: nat)

  predicate ReaderValid(rd: Reader)
  {
    BR.Valid(rd.ring) && rd.lba < U32_LIMIT && rd.nbytes < U64_LIMIT
  }

  /** The walk, the per-command batch from `-B`, and the thread's LBA
      range. */
  datatype Config = Config(walk: Walk, nvbatch: int, lbaStart: nat, lbaEnd: nat)

  predicate ConfigValid(c: Config)
  {
    c.lbaStart < U64_LIMIT && c.lbaEnd < U64_LIMIT && IsInt(c.nvbatch)
  }

  /** What the step does to the outside world, in order: asynchronous reads
      of `nblocks` blocks at `lba` into ring slot `slot`, polls of the i-th
      command, and the store of the new `head` that hands the slots over to
      the sender. */
  datatype Event = Submit(slot: nat, lba: nat, nblocks: nat) | Poll(index: nat) | PublishHead(head: nat)

  /** `Idle`: fewer than two free slots, nothing happens. `Stopped`: a walk
      other than SEQ and RANDOM ends the loop. `Fault`: the RANDOM walk
      divides by zero right after its first read. */
  datatype Outcome = Idle | Stopped | Fault(events: seq<Event>) | Stepped(rd: Reader, events: seq<Event>)

  /** `space &= ~1` on the free-slot count. */
  function EvenSpace(r: BR.Ring): (s: nat)
    requires BR.Valid(r)
    ensures s <= BR.WriteAvail(r) && s % 2 == 0 && BR.WriteAvail(r) - s < 2
  {
    BR.WriteAvail(r) - BR.WriteAvail(r) % 2
  }

  /** `space >> 1 > nvbatch ? nvbatch : space >> 1`, where the `int`
      `nvbatch` is compared as `unsigned int`: the number of 4096-byte
      blocks the step reads, each filling two slots. */
  function Batch(r: BR.Ring, nvbatch: int): (b: nat)
    requires BR.Valid(r) && IsInt(nvbatch)
    ensures 2 * b <= EvenSpace(r) && b <= MAX_NVBATCH
    ensures 0 <= nvbatch ==> b == Min(EvenSpace(r) / 2, nvbatch)
    ensures nvbatch < 0 ==> b == EvenSpace(r) / 2
  {
    BR.WriteAvailCases(r);
    NegativeConverts(nvbatch, U32_LIMIT);
    var half := EvenSpace(r) / 2;
    if half > U32(nvbatch) then U32(nvbatch) else half
  }

  /** SEQ reads the whole batch with one command; RANDOM issues one
      single-block command per block. */
  function NBlocks(c: Config, batch: nat): nat
  {
    if c.walk == Seq then batch else 1
  }

  function Commands(c: Config, batch: nat): nat
  {
    if c.walk == Seq then 1 else batch
  }

  /** Does `next_lba` divide by zero for this command size? */
  predicate DividesByZero(c: Config, nblocks: nat)
  {
    c.walk == Random && U64(c.lbaEnd - c.lbaStart - nblocks) == 0
  }

  /** The walk's successor of `lba`, stored back into the `unsigned int`. */
  function NextU32(c: Config, lba: nat, nblocks: nat, rnd: nat): (n: nat)
    requires ConfigValid(c) && lba < U32_LIMIT && nblocks <= MAX_NVBATCH && rnd <= RAND_MAX
    requires !DividesByZero(c, nblocks)
    ensures n < U32_LIMIT
  {
    U32(NextLba(c.walk, lba, c.lbaStart, c.lbaEnd, nblocks, rnd).lba)
  }

  /** The LBA of the i-th command of a step that starts at `lba`: the walk
      applied i times, the j-th time with the j-th value of `rand()`. */
  function LbaAt(c: Config, rnd: nat -> nat, lba: nat, nblocks: nat, i: nat): (n: nat)
    requires ConfigValid(c) && lba < U32_LIMIT && nblocks <= MAX_NVBATCH
    requires forall j :: rnd(j) <= RAND_MAX
    requires i > 0 ==> !DividesByZero(c, nblocks)
    ensures n < U32_LIMIT
  {
    if i == 0 then lba else NextU32(c, LbaAt(c, rnd, lba, nblocks, i - 1), nblocks, rnd(i - 1))
  }

  /** Slot `head + m*k`, wrapped at the ring size. */
  function Stride(head: nat, m: nat, k: nat): (slot: nat)
    ensures slot < BR.SLOT_NUM
  {
    (head + m * k) % BR.SLOT_NUM
  }

  /** One more stride of `m` slots. */
  lemma StrideStep(head: nat, m: nat, k: nat)
    ensures (Stride(head, m, k) + m) % BR.SLOT_NUM == Stride(head, m, k + 1)
  {
    AddMod(head + m * k, m, BR.SLOT_NUM);
    assert m * (k + 1) == m * k + m;
  }

  /** The reads of a step: the i-th is into slot `head + 2*nblocks*i` at
      the i-th LBA of the walk. */
  function Submits(c: Config, rnd: nat -> nat, head: nat, lba: nat, nblocks: nat, count: nat)
    : (es: seq<Event>)
    requires ConfigValid(c) && lba < U32_LIMIT && nblocks <= MAX_NVBATCH
    requires forall j :: rnd(j) <= RAND_MAX
    requires count > 0 ==> !DividesByZero(c, nblocks)
    ensures |es| == count
    ensures forall i :: 0 <= i < count ==>
              es[i] == Submit(Stride(head, 2 * nblocks, i), LbaAt(c, rnd, lba, nblocks, i), nblocks)
  {
    seq(count, i requires 0 <= i < count =>
                 Submit(Stride(head, 2 * nblocks, i), LbaAt(c, rnd, lba, nblocks, i), nblocks))
  }

  /** One more command extends the reads by one. */
  lemma SubmitsSnoc(c: Config, rnd: nat -> nat, head: nat, lba: nat, nblocks: nat, count: nat)
    requires ConfigValid(c) && lba < U32_LIMIT && nblocks <= MAX_NVBATCH
    requires forall j :: rnd(j) <= RAND_MAX
    requires !DividesByZero(c, nblocks)
    ensures Submits(c, rnd, head, lba, nblocks, count + 1)
            == Submits(c, rnd, head, lba, nblocks, count)
               + [Submit(Stride(head, 2 * nblocks, count), LbaAt(c, rnd, lba, nblocks, count), nblocks)]
  {
  }

  /** One turn of the submission loop moves `head` one stride and the LBA
      one step of the walk. */
  lemma IssueTurn(c: Config, r: BR.Ring, rnd: nat -> nat, head0: nat, lba0: nat, nblocks: nat, b: nat)
    requires ConfigValid(c) && BR.Valid(r) && lba0 < U32_LIMIT
    requires nblocks <= MAX_NVBATCH && !DividesByZero(c, nblocks)
    requires forall j :: rnd(j) <= RAND_MAX
    ensures BR.WriteNextBatch(r, Stride(head0, 2 * nblocks, b), U32(nblocks * 2))
            == Stride(head0, 2 * nblocks, b + 1)
    ensures NextU32(c, LbaAt(c, rnd, lba0, nblocks, b), nblocks, rnd(b))
            == LbaAt(c, rnd, lba0, nblocks, b + 1)
  {
    StrideStep(head0, 2 * nblocks, b);
  }

  datatype Issued = Issued(head: nat, lba: nat, events: seq<Event>)

  /** The submission loop of apps/nvgen.c:384-395: read into slot `head`,
      step the LBA with `next_lba`, and advance `head` with
      `ring_write_next_batch` by `nblocks << 1` slots. The result is the
      stride of two slots per block, the walk's LBAs, and one read per
      command. */
  method Issue(c: Config, r: BR.Ring, rnd: nat -> nat, head0: nat, lba0: nat, nblocks: nat, count: nat)
    returns (s: Issued)
    requires ConfigValid(c) && BR.Valid(r) && head0 < BR.SLOT_NUM && lba0 < U32_LIMIT
    requires nblocks <= MAX_NVBATCH && (count > 0 ==> !DividesByZero(c, nblocks))
    requires forall j :: rnd(j) <= RAND_MAX
    ensures s.head == Stride(head0, 2 * nblocks, count)
    ensures s.lba == LbaAt(c, rnd, lba0, nblocks, count)
    ensures s.events == Submits(c, rnd, head0, lba0, nblocks, count)
  {
    var head := head0;
    var lba := lba0;
    var events: seq<Event> := [];
    var b := 0;
    assert head0 == Stride(head0, 2 * nblocks, 0);
    while b < count
      invariant b <= count && head < BR.SLOT_NUM && lba < U32_LIMIT
      invariant head == Stride(head0, 2 * nblocks, b)
      invariant lba == LbaAt(c, rnd, lba0, nblocks, b)
      invariant events == Submits(c, rnd, head0, lba0, nblocks, b)
    {
      SubmitsSnoc(c, rnd, head0, lba0, nblocks, b);
      IssueTurn(c, r, rnd, head0, lba0, nblocks, b);
      events := events + [Submit(head, lba, nblocks)];
      lba := NextU32(c, lba, nblocks, rnd(b));
      head := BR.WriteNextBatch(r, head, U32(nblocks * 2));
      b := b + 1;
    }
    s := Issued(head, lba, events);
  }

  /** The polls of commands `0 .. n-1`, in order. */
  function Polls(n: nat): (ps: seq<Event>)
    ensures |ps| == n && forall i :: 0 <= i < n ==> ps[i] == Poll(i)
  {
    seq(n, i requires 0 <= i < n => Poll(i))
  }

  /** One iteration of the reader loop: the reads as `Issue` computes them,
      the polls, the byte counter, and `head` published last. */
  function Step(c: Config, rd: Reader, rnd: nat -> nat, ok: Polls): (o: Outcome)
    requires ConfigValid(c) && ReaderValid(rd)
    requires forall i :: rnd(i) <= RAND_MAX
    ensures o.Stepped? ==> ReaderValid(o.rd) && o.rd.ring.tail == rd.ring.tail
  {
    if BR.WriteAvail(rd.ring) < 2 then Idle
    else if c.walk != Seq && c.walk != Random then Stopped
    else
      var batch := Batch(rd.ring, c.nvbatch);
      var nblocks := NBlocks(c, batch);
      var count := Commands(c, batch);
      if count > 0 && DividesByZero(c, nblocks) then Fault([Submit(rd.ring.head, rd.lba, nblocks)])
      else
        var head := Stride(rd.ring.head, 2 * nblocks, count);
        Stepped(Reader(rd.ring.(head := head), LbaAt(c, rnd, rd.lba, nblocks, count),
                       U64(rd.nbytes + Completed(ok, count) * (nblocks * 4096))),
                Submits(c, rnd, rd.ring.head, rd.lba, nblocks, count) + Polls(count) + [PublishHead(head)])
  }

  /** The step reads only when the ring reports two free slots and the walk
      is SEQ or RANDOM; then the block count is `min(space / 2, nvbatch)`,
      `head` moves by two slots per block, which is at most the even part of
      the reported space, and nothing else of the ring changes. */
  lemma StepAdvance(c: Config, rd: Reader, rnd: nat -> nat, ok: Polls)
    requires ConfigValid(c) && ReaderValid(rd)
    requires forall i :: rnd(i) <= RAND_MAX
    ensures var o := Step(c, rd, rnd, ok);
            (o == Idle <==> BR.WriteAvail(rd.ring) < 2)
            && (o == Stopped <==> BR.WriteAvail(rd.ring) >= 2 && c.walk != Seq && c.walk != Random)
            && (o.Stepped? <==>
                  BR.WriteAvail(rd.ring) >= 2 && (c.walk == Seq || c.walk == Random)
                  && !(Commands(c, Batch(rd.ring, c.nvbatch)) > 0
                       && DividesByZero(c, NBlocks(c, Batch(rd.ring, c.nvbatch)))))
    ensures var o := Step(c, rd, rnd, ok);
            var batch := Batch(rd.ring, c.nvbatch);
            o.Stepped? ==>
              o.rd.ring == rd.ring.(head := (rd.ring.head + 2 * batch) % BR.SLOT_NUM)
              && 2 * batch <= EvenSpace(rd.ring)
              && (0 <= c.nvbatch ==> batch == Min(EvenSpace(rd.ring) / 2, c.nvbatch))
  {
    var o := Step(c, rd, rnd, ok);
    if o.Stepped? {
      StrideOfBatch(c, rd.ring.head, Batch(rd.ring, c.nvbatch));
    }
  }

  /** A step that reads moves `head` by two slots per block of the batch. */
  lemma StepMoves(c: Config, rd: Reader, rnd: nat -> nat, ok: Polls)
    requires ConfigValid(c) && ReaderValid(rd)
    requires forall i :: rnd(i) <= RAND_MAX
    requires BR.WriteAvail(rd.ring) >= 2 && (c.walk == Seq || c.walk == Random)
    requires !DividesByZero(c, NBlocks(c, Batch(rd.ring, c.nvbatch)))
    ensures Step(c, rd, rnd, ok).Stepped?
    ensures Step(c, rd, rnd, ok).rd.ring
            == rd.ring.(head := (rd.ring.head + 2 * Batch(rd.ring, c.nvbatch)) % BR.SLOT_NUM)
  {
    StrideOfBatch(c, rd.ring.head, Batch(rd.ring, c.nvbatch));
  }

  /** Whichever walk, the commands of a step cover `batch` blocks, so the
      slot after them is `2 * batch` past `head`. */
  lemma StrideOfBatch(c: Config, head: nat, batch: nat)
    requires c.walk == Seq || c.walk == Random
    ensures NBlocks(c, batch) * Commands(c, batch) == batch
    ensures Stride(head, 2 * NBlocks(c, batch), Commands(c, batch)) == (head + 2 * batch) % BR.SLOT_NUM
  {
    var nblocks, count := NBlocks(c, batch), Commands(c, batch);
    assert nblocks * count == batch;
    assert 2 * nblocks * count == 2 * batch;
  }

  /** The reads are all issued first, then every command is polled, and
      `head` is published last, after the polls. */
  lemma PublishesAfterPolls(c: Config, rd: Reader, rnd: nat -> nat, ok: Polls)
    requires ConfigValid(c) && ReaderValid(rd)
    requires forall i :: rnd(i) <= RAND_MAX
    requires Step(c, rd, rnd, ok).Stepped?
    ensures var o := Step(c, rd, rnd, ok);
            var count := Commands(c, Batch(rd.ring, c.nvbatch));
            |o.events| == 2 * count + 1
            && (forall i :: 0 <= i < count ==> o.events[i].Submit? && o.events[count + i] == Poll(i))
            && o.events[2 * count] == PublishHead(o.rd.ring.head)
  {
    StepEvents(c, rd, rnd, ok);
  }

  /** The events of a step that reads: its reads, its polls, then the
      store of `head`. */
  lemma StepEvents(c: Config, rd: Reader, rnd: nat -> nat, ok: Polls)
    requires ConfigValid(c) && ReaderValid(rd)
    requires forall i :: rnd(i) <= RAND_MAX
    requires Step(c, rd, rnd, ok).Stepped?
    ensures var o := Step(c, rd, rnd, ok);
            var batch := Batch(rd.ring, c.nvbatch);
            var count := Commands(c, batch);
            o.events == Submits(c, rnd, rd.ring.head, rd.lba, NBlocks(c, batch), count)
                        + Polls(count) + [PublishHead(o.rd.ring.head)]
  {
  }

  /** SEQ reads the whole batch with one command at the reader's LBA;
      RANDOM reads one block per command, each at the walk's successor of
      the one before. */
  lemma WalkShapesCommands(c: Config, rd: Reader, rnd: nat -> nat, ok: Polls)
    requires ConfigValid(c) && ReaderValid(rd)
    requires forall i :: rnd(i) <= RAND_MAX
    requires Step(c, rd, rnd, ok).Stepped?
    ensures var o := Step(c, rd, rnd, ok);
            var batch := Batch(rd.ring, c.nvbatch);
            c.walk == Seq ==> o.events[0] == Submit(rd.ring.head, rd.lba, batch)
    ensures var o := Step(c, rd, rnd, ok);
            var batch := Batch(rd.ring, c.nvbatch);
            c.walk == Random ==>
              (forall i :: 0 <= i < batch ==> o.events[i].Submit? && o.events[i].nblocks == 1)
              && (forall i :: 0 < i < batch ==>
                    o.events[i].lba == NextU32(c, o.events[i - 1].lba, 1, rnd(i - 1)))
  {
    var o := Step(c, rd, rnd, ok);
    var batch := Batch(rd.ring, c.nvbatch);
    var nblocks := NBlocks(c, batch);
    var count := Commands(c, batch);
    var subs := Submits(c, rnd, rd.ring.head, rd.lba, nblocks, count);
    StepEvents(c, rd, rnd, ok);
    assert o.events[..count] == subs;
    if c.walk == Seq {
      assert o.events[0] == subs[0];
    }
    if c.walk == Random {
      RandomReads(c, rnd, rd.ring.head, rd.lba, batch);
      assert forall i :: 0 <= i < batch ==> o.events[i] == subs[i];
    }
  }

  /** The RANDOM reads: single blocks, each at the walk's successor of the
      LBA before it. */
  lemma RandomReads(c: Config, rnd: nat -> nat, head: nat, lba: nat, count: nat)
    requires ConfigValid(c) && lba < U32_LIMIT && c.walk == Random
    requires forall j :: rnd(j) <= RAND_MAX
    requires count > 0 ==> !DividesByZero(c, 1)
    ensures var subs := Submits(c, rnd, head, lba, 1, count);
            (forall i :: 0 <= i < count ==> subs[i].Submit? && subs[i].nblocks == 1)
            && (forall i :: 0 < i < count ==> subs[i].lba == NextU32(c, subs[i - 1].lba, 1, rnd(i - 1)))
  {
    var subs := Submits(c, rnd, head, lba, 1, count);
    forall i | 0 < i < count
      ensures subs[i].lba == NextU32(c, subs[i - 1].lba, 1, rnd(i - 1))
    {
      assert subs[i].lba == LbaAt(c, rnd, lba, 1, i);
      assert subs[i - 1].lba == LbaAt(c, rnd, lba, 1, i - 1);
    }
  }

  /** On an empty ring `ring_write_avail` reports 256 slots; with `-B 128`
      or more the step fills all of them and `head` comes back to `tail`:
      the 256 slots just read look like an empty ring. */
  lemma EmptyRingLooksEmptyAgain(c: Config, rd: Reader, rnd: nat -> nat, ok: Polls)
    requires ConfigValid(c) && ReaderValid(rd) && BR.Empty(rd.ring)
    requires c.walk == Seq || c.walk == Random
    requires c.nvbatch >= MAX_NVBATCH && !DividesByZero(c, NBlocks(c, MAX_NVBATCH))
    requires forall i :: rnd(i) <= RAND_MAX
    ensures Batch(rd.ring, c.nvbatch) == MAX_NVBATCH
    ensures Step(c, rd, rnd, ok).Stepped?
    ensures BR.Empty(Step(c, rd, rnd, ok).rd.ring)
  {
    var r := rd.ring;
    var batch := Batch(r, c.nvbatch);
    assert BR.WriteAvail(r) == BR.SLOT_NUM && batch == MAX_NVBATCH by {
      BR.WriteAvailCases(r);
      assert EvenSpace(r) == BR.SLOT_NUM;
    }
    StepMoves(c, rd, rnd, ok);
    DivModUnique(r.head + 2 * batch, 1, r.head, BR.SLOT_NUM);
  }

  /** When `tail` is ahead of `head` by an even distance, the reported
      space is that whole distance, so a large enough batch moves `head`
      onto `tail` and the filled ring looks empty. */
  lemma HeadCanReachTail(c: Config, rd: Reader, rnd: nat -> nat, ok: Polls)
    requires ConfigValid(c) && ReaderValid(rd)
    requires rd.ring.head < rd.ring.tail && (rd.ring.tail - rd.ring.head) % 2 == 0
    requires c.walk == Seq || c.walk == Random
    requires c.nvbatch >= MAX_NVBATCH
    requires !DividesByZero(c, NBlocks(c, Batch(rd.ring, c.nvbatch)))
    requires forall i :: rnd(i) <= RAND_MAX
    ensures Step(c, rd, rnd, ok).Stepped?
    ensures Step(c, rd, rnd, ok).rd.ring.head == rd.ring.tail
    ensures BR.Empty(Step(c, rd, rnd, ok).rd.ring)
  {
    BatchFillsGap(rd.ring, c.nvbatch);
    StepMoves(c, rd, rnd, ok);
    DivModUnique(rd.ring.tail, 0, rd.ring.tail, BR.SLOT_NUM);
  }

  /** With `tail` an even distance ahead of `head` and `-B 128` or more, the
      batch is exactly half that distance. */
  lemma BatchFillsGap(r: BR.Ring, nvbatch: int)
    requires BR.Valid(r) && IsInt(nvbatch) && nvbatch >= MAX_NVBATCH
    requires r.head < r.tail && (r.tail - r.head) % 2 == 0
    ensures BR.WriteAvail(r) >= 2 && r.head + 2 * Batch(r, nvbatch) == r.tail
  {
    BR.WriteAvailCases(r);
    assert EvenSpace(r) == r.tail - r.head;
  }

  /** Measured against the slots really free, the step can overshoot by
      one: two slots per block never exceed one more than the free count. */
  lemma AdvanceAtMostOnePastFree(r: BR.Ring, nvbatch: int)
    requires BR.Valid(r) && IsInt(nvbatch)
    ensures 2 * Batch(r, nvbatch) <= BR.Free(r) + 1
  {
    BR.WriteAvailOffByOne(r);
  }
}
