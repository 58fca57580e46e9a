/** apps/store.c: build `batch` identical UDP packets in 2048-byte slots,
    each with its own id and its length in the slot's trailer, and write
    the whole buffer to consecutive LBAs of the NVMe device until
    `lba_end`. The device write is an oracle that succeeds or fails. */
module Store {
  import opened Machine
  import opened Bytes
  import opened Frame
  import PD = PktDesc

  const MIN_PKTLEN: nat := 64
  const MAX_PKTLEN: nat := 1500
  const BLOCK_SIZE: nat := 512
  const STORE_PORT: nat := 60000

  const BROADCAST: seq<Byte> := [0xff, 0xff, 0xff, 0xff, 0xff, 0xff]
  const SRC_MAC: seq<Byte> := [0x01, 0x02, 0x03, 0x04, 0x05, 0x06]
  /** `inet_addr("10.0.0.2")` and `inet_addr("10.0.0.1")`. */
  const SRC_IP: seq<Byte> := [10, 0, 0, 2]
  const DST_IP: seq<Byte> := [10, 0, 0, 1]

  /** The headers `build_pkt` writes (apps/store.c:26-61): broadcast
      destination, fixed addresses, no IPv4 checksum, and the id as the
      UDP source port, cut to 16 bits by `htons`. */
  function PktHeader(len: int, id: nat): (h: Header)
    ensures Valid(h) && h.ipSum == 0
  {
    Header(BROADCAST, SRC_MAC, U16(len - ETHER_LEN), 0, SRC_IP, DST_IP, U16(id), STORE_PORT,
           U16(len - ETHER_LEN - IP_LEN))
  }

  /** `build_pkt(buf, len, id)` on one slot: zero `len` bytes, write the
      headers, then store `len` in the slot's trailer. */
  function BuildPkt(slot: seq<Byte>, len: nat, id: nat): (r: seq<Byte>)
    requires |slot| == PD.SLOT_SIZE && len <= PD.SLOT_SIZE
    ensures |r| == PD.SLOT_SIZE
  {
    PD.WriteLen(Overlay(Overlay(slot, 0, Zeros(len)), 0, Encode(PktHeader(len, id))), PD.SLOT_SIZE, len)
  }

  /** The slot before its trailer is written: the headers, then zeros up
      to `len`, then the slot's old bytes. */
  lemma FilledSlot(slot: seq<Byte>, len: nat, h: Header)
    requires |slot| == PD.SLOT_SIZE && HEADERS_LEN <= len <= PD.SLOT_SIZE && Valid(h)
    ensures var b := Overlay(Overlay(slot, 0, Zeros(len)), 0, Encode(h));
            b[..HEADERS_LEN] == Encode(h)
            && (forall i :: HEADERS_LEN <= i < len ==> b[i] == 0)
            && (forall i :: len <= i < PD.SLOT_SIZE ==> b[i] == slot[i])
  {
    var z := Overlay(slot, 0, Zeros(len));
    var b := Overlay(z, 0, Encode(h));
    assert b[..HEADERS_LEN] == Encode(h);
  }

  /** The trailer leaves the headers in place, so a receiver reads back
      exactly the header `build_pkt` wrote. */
  lemma BuildPktHeaders(slot: seq<Byte>, len: nat, id: nat)
    requires |slot| == PD.SLOT_SIZE && HEADERS_LEN <= len <= PD.SLOT_SIZE - PD.DESC_SIZE
    ensures var r := BuildPkt(slot, len, id);
            WellFormed(r) && Decode(r) == PktHeader(len, id)
  {
    var h := PktHeader(len, id);
    var built := Overlay(Overlay(slot, 0, Zeros(len)), 0, Encode(h));
    var r := BuildPkt(slot, len, id);
    FilledSlot(slot, len, h);
    PD.WriteThenRead(built, PD.SLOT_SIZE, len);
    assert r[..HEADERS_LEN] == built[..HEADERS_LEN];
    DecodePrefix(r, h);
  }

  /** After the headers: a zero payload up to `len`, the slot's old bytes
      up to the trailer, and a trailer that reads back `len`. */
  lemma BuildPktBody(slot: seq<Byte>, len: nat, id: nat)
    requires |slot| == PD.SLOT_SIZE && HEADERS_LEN <= len <= PD.SLOT_SIZE - PD.DESC_SIZE
    ensures var r := BuildPkt(slot, len, id);
            PD.ReadLen(r, PD.SLOT_SIZE) == len
            && (forall i :: HEADERS_LEN <= i < len ==> r[i] == 0)
            && (forall i :: len <= i < PD.SLOT_SIZE - PD.DESC_SIZE ==> r[i] == slot[i])
  {
    var h := PktHeader(len, id);
    var built := Overlay(Overlay(slot, 0, Zeros(len)), 0, Encode(h));
    FilledSlot(slot, len, h);
    PD.WriteThenRead(built, PD.SLOT_SIZE, len);
  }

  /** For a length the options accept, the IPv4 total length is `len - 14`,
      the UDP length 20 less, and the source port the id's low 16 bits. */
  lemma BuildPktLengths(slot: seq<Byte>, len: nat, id: nat)
    requires |slot| == PD.SLOT_SIZE && MIN_PKTLEN <= len <= MAX_PKTLEN
    ensures var h := Decode(BuildPkt(slot, len, id));
            h.ipLen + ETHER_LEN == len && h.ulen + IP_LEN == h.ipLen && h.sport == id % U16_LIMIT
  {
    BuildPktHeaders(slot, len, id);
  }

  /** The options store checks, with the values `atoi` and `sscanf` gave;
      an LBA option holds `None` when `sscanf` matched nothing, and its
      value lands in an `unsigned long`. `Unknown` is a letter `getopt`
      does not know, which prints the usage and stops; `-u` is left out. */
  datatype Opt = LenOpt(len: int) | BatchOpt(batch: int) | StartOpt(start: Option<nat>)
               | EndOpt(end: Option<nat>) | Unknown

  /** The packet length, the number of packets per write, and the LBA
      range; the defaults are 64 bytes, 512 packets and an empty range
      (apps/store.c:80-83). */
  datatype Params = Params(pktlen: int, batch: int, lbaStart: nat, lbaEnd: nat)

  const DEFAULTS := Params(MIN_PKTLEN, 512, 0, 0)

  /** One option (apps/store.c:93-124); `None` is the `return -1`. */
  function ApplyOpt(p: Params, o: Opt): (r: Option<Params>)
  {
    match o
    case LenOpt(v) => if v < MIN_PKTLEN || v > MAX_PKTLEN then None else Some(p.(pktlen := v))
    case BatchOpt(v) => if v < 0 then None else Some(p.(batch := v))
    case StartOpt(v) => if v.None? then None else Some(p.(lbaStart := U64(v.value)))
    case EndOpt(v) => if v.None? then None else Some(p.(lbaEnd := U64(v.value)))
    case Unknown => None
  }

  predicate OptOk(o: Opt)
  {
    match o
    case LenOpt(v) => MIN_PKTLEN <= v <= MAX_PKTLEN
    case BatchOpt(v) => v >= 0
    case StartOpt(v) => v.Some?
    case EndOpt(v) => v.Some?
    case Unknown => false
  }

  /** The option loop, in command-line order. */
  function ParseOpts(p: Params, opts: seq<Opt>): (r: Option<Params>)
    decreases |opts|
  {
    if opts == [] then Some(p)
    else
      match ApplyOpt(p, opts[0])
      case None => None
      case Some(p') => ParseOpts(p', opts[1..])
  }

  predicate InBounds(p: Params)
  {
    MIN_PKTLEN <= p.pktlen <= MAX_PKTLEN && p.batch >= 0
    && p.lbaStart < U64_LIMIT && p.lbaEnd < U64_LIMIT
  }

  /** The command line is refused exactly when one of its options fails
      its check, and accepted parameters have a packet length in
      [64, 1500], a non-negative batch and 64-bit LBAs, starting from
      defaults that do. */
  lemma {:induction false} ParseChecksBounds(p: Params, opts: seq<Opt>)
    requires InBounds(p)
    ensures ParseOpts(p, opts).None? <==> exists i :: 0 <= i < |opts| && !OptOk(opts[i])
    ensures ParseOpts(p, opts).Some? ==> InBounds(ParseOpts(p, opts).value)
    decreases |opts|
  {
    if opts != [] {
      var r := ApplyOpt(p, opts[0]);
      if r.Some? {
        ParseChecksBounds(r.value, opts[1..]);
        if exists i :: 0 <= i < |opts| && !OptOk(opts[i]) {
          var i :| 0 <= i < |opts| && !OptOk(opts[i]);
          assert opts[1..][i - 1] == opts[i];
        }
        forall i | 0 <= i < |opts[1..]| && !OptOk(opts[1..][i])
          ensures exists k :: 0 <= k < |opts| && !OptOk(opts[k])
        {
          assert opts[i + 1] == opts[1..][i];
        }
      }
    }
  }

  lemma DefaultsInBounds()
    ensures InBounds(DEFAULTS)
  {
  }

  /** C's `/` on `int`, which truncates toward zero (section 6.5.5 of
      ISO/IEC 9899:1999): the remainder `a - q * b` takes the sign of `a`
      and is smaller than `b` in magnitude. */
  function TruncDiv(a: int, b: nat): (q: int)
    requires b > 0
    ensures a >= 0 ==> 0 <= a - q * b < b
    ensures a < 0 ==> -(b as int) < a - q * b <= 0
  {
    if a >= 0 then a / b else -((-a) / b)
  }

  /** `int buflen = 2048 * batch; int nblocks = buflen / 512;` in 32-bit
      arithmetic. */
  function NBlocks(batch: int): int
  {
    TruncDiv(I32(PD.SLOT_SIZE * batch), BLOCK_SIZE)
  }

  /** `batch * 4 * 512`, the size of the buffer allocated and put. */
  function BufferSize(batch: int): int
  {
    I32(batch * 4 * BLOCK_SIZE)
  }

  /** For any batch below 2^20 each write covers exactly the buffer: four
      512-byte blocks per 2048-byte slot. */
  lemma WriteCoversBuffer(batch: int)
    requires 0 <= batch < 0x10_0000
    ensures NBlocks(batch) == 4 * batch
    ensures NBlocks(batch) * BLOCK_SIZE == BufferSize(batch) == PD.SLOT_SIZE * batch
  {
  }

  /** The options accept any non-negative batch, but from 2^20 on
      `2048 * batch` no longer fits in an `int` and the block count turns
      negative. */
  lemma LargeBatchOverflows()
    ensures NBlocks(0x10_0000) < 0 && BufferSize(0x10_0000) < 0
  {
    assert I32(PD.SLOT_SIZE * 0x10_0000) == -0x8000_0000 by {
      DivModUnique(0x8000_0000, 0, 0x8000_0000, U32_LIMIT);
    }
  }

  /** The packets of one write: slot `b` built with id `lba + b` as an
      `unsigned int`. */
  function Fill(slots: seq<seq<Byte>>, len: nat, lba: nat, batch: nat): (r: seq<seq<Byte>>)
    requires |slots| == batch && len <= PD.SLOT_SIZE
    requires forall b :: 0 <= b < batch ==> |slots[b]| == PD.SLOT_SIZE
    ensures |r| == batch
  {
    seq(batch, b requires 0 <= b < batch => BuildPkt(slots[b], len, U32(lba + b)))
  }

  /** Packet `b` of the write at `lba` carries `lba + b` as its UDP source
      port, modulo 2^16, and its length in its trailer. */
  lemma FillIds(slots: seq<seq<Byte>>, len: nat, lba: nat, batch: nat, b: nat)
    requires |slots| == batch && MIN_PKTLEN <= len <= MAX_PKTLEN && b < batch
    requires forall i :: 0 <= i < batch ==> |slots[i]| == PD.SLOT_SIZE
    ensures var r := Fill(slots, len, lba, batch);
            Decode(r[b]).sport == (lba + b) % U16_LIMIT && PD.ReadLen(r[b], PD.SLOT_SIZE) == len
  {
    BuildPktHeaders(slots[b], len, U32(lba + b));
    BuildPktBody(slots[b], len, U32(lba + b));
    ModOfMod(lba + b, U32_LIMIT, U16_LIMIT);
  }

  /** The LBA of the k-th write: `lba_start` plus `k` times the block count
      converted to `unsigned long`, modulo 2^64. */
  function LbaAt(start: nat, nblocks: int, k: nat): (lba: nat)
    ensures lba < U64_LIMIT
  {
    U64(start + k * U64(nblocks))
  }

  /** Where the loop stops after at most `rounds` writes: every LBA written,
      or the write that failed, or still below `lba_end`. */
  datatype Outcome = Finished(num: nat) | WriteFailed(lba: nat, num: nat) | Running(lba: nat, num: nat)

  /** One more step of `k * step` kept modulo `p`. */
  lemma StepMod(start: nat, step: nat, k: nat, p: nat)
    requires p > 0
    ensures ((start + k * step) % p + step) % p == (start + (k + 1) * step) % p
  {
    var x := start + k * step;
    assert start + (k + 1) * step == x + step by {
      assert (k + 1) * step == k * step + step;
    }
    AddMod(x, step, p);
  }

  /** The next write's LBA, as the loop computes it. */
  lemma NextLba(start: nat, nblocks: int, k: nat)
    ensures U64(LbaAt(start, nblocks, k) + U64(nblocks)) == LbaAt(start, nblocks, k + 1)
  {
    StepMod(start, U64(nblocks), k, U64_LIMIT);
  }

  /** Before any write: the loop starts at `lba_start` with no packet
      counted. */
  lemma FirstWrite(start: nat, nblocks: int, batch: nat)
    requires start < U64_LIMIT
    ensures LbaAt(start, nblocks, 0) == start && U64(0 * batch) == 0
  {
  }

  /** The packet count after one more write of `batch` packets. */
  lemma NextNum(batch: nat, k: nat)
    ensures U64(U64(k * batch) + batch) == U64((k + 1) * batch)
  {
    StepMod(0, batch, k, U64_LIMIT);
  }

  /** The write loop (apps/store.c:147-165), for at most `rounds` writes:
      `ok(k)` says whether the k-th `unvme_write` returned 0. `writes` lists
      the LBAs written, in order. */
  method Run(p: Params, rounds: nat, ok: nat -> bool) returns (o: Outcome, writes: seq<nat>)
    requires p.lbaStart < U64_LIMIT && p.batch >= 0
    ensures |writes| <= rounds
    ensures forall k :: 0 <= k < |writes| ==>
              writes[k] == LbaAt(p.lbaStart, NBlocks(p.batch), k) && writes[k] < p.lbaEnd
    ensures forall k :: 0 <= k < |writes| - 1 ==> ok(k)
    ensures o.Finished? ==>
              (forall k :: 0 <= k < |writes| ==> ok(k))
              && LbaAt(p.lbaStart, NBlocks(p.batch), |writes|) >= p.lbaEnd
              && o.num == U64(|writes| * p.batch)
    ensures o.WriteFailed? ==>
              |writes| > 0 && !ok(|writes| - 1) && o.lba == writes[|writes| - 1]
              && o.num == U64(|writes| * p.batch)
    ensures o.Running? ==>
              |writes| == rounds && (forall k :: 0 <= k < rounds ==> ok(k))
              && o.lba == LbaAt(p.lbaStart, NBlocks(p.batch), rounds) < p.lbaEnd
              && o.num == U64(rounds * p.batch)
  {
    var nblocks := NBlocks(p.batch);
    var step := U64(nblocks);
    var lba := p.lbaStart;
    var num := 0;
    writes := [];
    var k := 0;
    FirstWrite(p.lbaStart, nblocks, p.batch);
    while lba < p.lbaEnd && k < rounds
      invariant k == |writes| <= rounds
      invariant lba == LbaAt(p.lbaStart, nblocks, k)
      invariant num == U64(k * p.batch)
      invariant forall i :: 0 <= i < k ==>
                  writes[i] == LbaAt(p.lbaStart, nblocks, i) && writes[i] < p.lbaEnd && ok(i)
      decreases rounds - k
    {
      NextNum(p.batch, k);
      num := U64(num + p.batch);
      writes := writes + [lba];
      if !ok(k) {
        o := WriteFailed(lba, num);
        return;
      }
      NextLba(p.lbaStart, nblocks, k);
      lba := U64(lba + step);
      k := k + 1;
    }
    if lba < p.lbaEnd {
      o := Running(lba, num);
    } else {
      o := Finished(num);
    }
  }

  /** While nothing wraps, the k-th write starts `k * 4 * batch` blocks
      after `lba_start`. */
  lemma LbaSteps(start: nat, batch: int, k: nat)
    requires 0 <= batch < 0x10_0000 && start + k * (4 * batch) < U64_LIMIT
    ensures LbaAt(start, NBlocks(batch), k) == start + k * (4 * batch)
  {
    WriteCoversBuffer(batch);
  }

  /** With `-b 0` the block count is 0, the LBA never moves and the loop
      never reaches a non-empty range's end: it writes at `lba_start`
      forever unless a write fails. */
  lemma ZeroBatchNeverAdvances(p: Params, k: nat)
    requires p.batch == 0 && p.lbaStart < p.lbaEnd && p.lbaStart < U64_LIMIT
    ensures LbaAt(p.lbaStart, NBlocks(p.batch), k) == p.lbaStart < p.lbaEnd
  {
  }
}
