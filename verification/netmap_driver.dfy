/** libpop's netmap driver (lib/pop_netmap.c): one netmap descriptor per
    online CPU, each bound to the hardware ring pair with the CPU's number.
    `read` posts buffers to the RX ring of a queue and `write` to its TX ring,
    by filling slot descriptors and moving `cur` and `head`; the kernel is
    told with a sync ioctl whose answer is an oracle. The number of CPUs, the
    allocations and `nm_open` are oracles too. */
module NetmapDriver {
  import opened Machine
  import PopBuf
  import opened NetmapRing

  /** `IFNAMSIZ`: the size of the interface name field. */
  const IFNAMSIZ: nat := 16

  /** `drv->type`: only a netmap driver may be closed by this driver. */
  datatype DriverType = Netmap | OtherType(code: int)

  /** `struct pop_driver_netmap` together with the driver's type and the
      rings its descriptors map: `rx[i]` and `tx[i]` are the rings with
      number `i` of descriptor `d[i]`. */
  datatype Driver = Driver(kind: DriverType, devname: string, ncpus: int,
                           rx: seq<Ring>, tx: seq<Ring>)

  predicate RingsValid(rs: seq<Ring>)
  {
    forall i :: 0 <= i < |rs| ==> NetmapRing.Valid(rs[i])
  }

  /** One ring pair per CPU. */
  predicate Valid(d: Driver)
  {
    d.ncpus >= 0 && |d.rx| == d.ncpus && |d.tx| == d.ncpus
    && RingsValid(d.rx) && RingsValid(d.tx)
  }

  /** The answer of `ioctl(fd, NIOCRXSYNC or NIOCTXSYNC)`. */
  datatype SyncReply = SyncOk | SyncFailed

  /** What `read` and `write` do: return with a value, an errno and the
      driver's rings, possibly after a sync ioctl; or, for a negative queue
      number, index the descriptor array before its start, which C leaves
      undefined. */
  datatype XferOutcome =
    | Xfer(ret: int, errno: Errno, synced: bool, drv: Driver)
    | OutOfBounds

  /** `budget`: the unsigned ring space compared with the signed `nbufs`, so
      a negative `nbufs` converts to a huge unsigned value and the whole
      space is used. */
  function Budget(r: Ring, nbufs: int): (b: nat)
    requires NetmapRing.Valid(r) && IsInt(nbufs)
    ensures b <= Space(r)
    ensures nbufs >= 0 ==> b == Min(Space(r), nbufs)
    ensures nbufs < 0 && Space(r) < 0x8000_0000 ==> b == Space(r)
  {
    if Space(r) > U32(nbufs) then U32(nbufs) else Space(r)
  }

  /** Every buffer has 64-bit `size_t` fields; its window may lie anywhere. */
  predicate AllSized(bufs: seq<PopBuf.Buf>)
  {
    forall i :: 0 <= i < |bufs| ==> PopBuf.Sized(bufs[i])
  }

  /** What the driver writes into a slot for a libpop buffer:
      `pop_buf_len` and `pop_buf_paddr`. */
  function BufDesc(b: PopBuf.Buf): (d: Desc)
    requires PopBuf.Sized(b)
    ensures d.len == PopBuf.Len(b) && d.ptr == PopBuf.Paddr(b)
  {
    Desc(PopBuf.Len(b), PopBuf.Paddr(b))
  }

  function Descs(bufs: seq<PopBuf.Buf>): (ds: seq<Desc>)
    requires AllSized(bufs)
    ensures |ds| == |bufs| && forall i :: 0 <= i < |bufs| ==> ds[i] == BufDesc(bufs[i])
  {
    if bufs == [] then [] else [BufDesc(bufs[0])] + Descs(bufs[1..])
  }

  /** The callers' side of the contract: the array holds at least as many
      buffers as will be posted. */
  predicate EnoughBuffers(rs: seq<Ring>, pbufs: seq<PopBuf.Buf>, nbufs: int, qid: int)
    requires RingsValid(rs) && IsInt(nbufs)
  {
    0 <= qid < |rs| ==> Budget(rs[qid], nbufs) <= |pbufs|
  }

  /** The body shared by `read` and `write` once the queue is known: an
      empty ring is left alone and no ioctl is made; otherwise `budget`
      buffers are posted and the kernel is synced. */
  function Transfer(r: Ring, pbufs: seq<PopBuf.Buf>, nbufs: int): (r': Ring)
    requires NetmapRing.Valid(r) && AllSized(pbufs) && IsInt(nbufs) && Budget(r, nbufs) <= |pbufs|
    ensures NetmapRing.Valid(r') && r'.numSlots == r.numSlots && r'.tail == r.tail
    ensures Empty(r) ==> r' == r
    ensures !Empty(r) ==> Space(r') == Space(r) - Budget(r, nbufs)
  {
    if Empty(r) then r
    else
      var ds := Descs(pbufs[..Budget(r, nbufs)]);
      PostConsumesSpace(r, ds);
      Post(r, ds)
  }

  /** `pop_driver_netmap_read` (lib/pop_netmap.c:36-74). Success is 0 even
      when buffers were posted. */
  function Read(d: Driver, pbufs: seq<PopBuf.Buf>, nbufs: int, qid: int, sync: SyncReply)
    : (r: XferOutcome)
    requires Valid(d) && AllSized(pbufs) && IsInt(nbufs) && EnoughBuffers(d.rx, pbufs, nbufs, qid)
    ensures qid > d.ncpus - 1 ==> r == Xfer(-1, Set(-EINVAL), false, d)
    ensures qid < 0 <==> r.OutOfBounds?
    ensures 0 <= qid < d.ncpus ==>
              r.Xfer? && r.drv.tx == d.tx && r.drv.kind == d.kind && r.drv.ncpus == d.ncpus
              && |r.drv.rx| == |d.rx|
              && (forall q :: 0 <= q < |d.rx| && q != qid ==> r.drv.rx[q] == d.rx[q])
              && r.drv.rx[qid] == Transfer(d.rx[qid], pbufs, nbufs)
    ensures 0 <= qid < d.ncpus ==> (r.synced <==> !Empty(d.rx[qid]))
    ensures r.Xfer? && r.synced ==> (r.ret == 0 <==> sync == SyncOk) && (r.ret != 0 ==> r.ret == -1)
    ensures r.Xfer? && !r.synced && qid >= 0 ==> r.ret == 0 || (r.ret == -1 && qid >= d.ncpus)
  {
    if qid > d.ncpus - 1 then Xfer(-1, Set(-EINVAL), false, d)
    else if qid < 0 then OutOfBounds
    else
      var ring := d.rx[qid];
      if Empty(ring) then Xfer(0, FromCall, false, d)
      else
        var d' := d.(rx := d.rx[qid := Transfer(ring, pbufs, nbufs)]);
        if sync == SyncOk then Xfer(0, FromCall, true, d') else Xfer(-1, FromCall, true, d')
  }

  /** `pop_driver_netmap_write` (lib/pop_netmap.c:76-114). Success is the
      number of buffers posted. */
  function Write(d: Driver, pbufs: seq<PopBuf.Buf>, nbufs: int, qid: int, sync: SyncReply)
    : (r: XferOutcome)
    requires Valid(d) && AllSized(pbufs) && IsInt(nbufs) && EnoughBuffers(d.tx, pbufs, nbufs, qid)
    ensures qid > d.ncpus - 1 ==> r == Xfer(-1, Set(-EINVAL), false, d)
    ensures qid < 0 <==> r.OutOfBounds?
    ensures 0 <= qid < d.ncpus ==>
              r.Xfer? && r.drv.rx == d.rx && r.drv.kind == d.kind && r.drv.ncpus == d.ncpus
              && |r.drv.tx| == |d.tx|
              && (forall q :: 0 <= q < |d.tx| && q != qid ==> r.drv.tx[q] == d.tx[q])
              && r.drv.tx[qid] == Transfer(d.tx[qid], pbufs, nbufs)
    ensures 0 <= qid < d.ncpus ==> (r.synced <==> !Empty(d.tx[qid]))
    ensures 0 <= qid < d.ncpus && r.synced ==>
              (sync == SyncOk ==> r.ret == Budget(d.tx[qid], nbufs)) && (sync == SyncFailed ==> r.ret == -1)
    ensures 0 <= qid < d.ncpus && !r.synced ==> r.ret == 0
  {
    if qid > d.ncpus - 1 then Xfer(-1, Set(-EINVAL), false, d)
    else if qid < 0 then OutOfBounds
    else
      var ring := d.tx[qid];
      if Empty(ring) then Xfer(0, FromCall, false, d)
      else
        var d' := d.(tx := d.tx[qid := Transfer(ring, pbufs, nbufs)]);
        if sync == SyncFailed then Xfer(-1, FromCall, true, d')
        else Xfer(Budget(ring, nbufs), FromCall, true, d')
  }

  datatype PollOutcome = Polled(ret: int, errno: Errno) | PollOutOfBounds

  /** `pop_driver_netmap_poll` (lib/pop_netmap.c:116-132): the answer of
      `poll` on the queue's descriptor, which is an oracle. */
  function Poll(d: Driver, qid: int, pollRet: int): (r: PollOutcome)
    requires d.ncpus >= 0
    ensures qid > d.ncpus - 1 ==> r == Polled(-1, Set(-EINVAL))
    ensures qid < 0 <==> r.PollOutOfBounds?
    ensures 0 <= qid <= d.ncpus - 1 ==> r == Polled(pollRet, FromCall)
  {
    if qid > d.ncpus - 1 then Polled(-1, Set(-EINVAL))
    else if qid < 0 then PollOutOfBounds
    else Polled(pollRet, FromCall)
  }

  /** The slots posted by a transfer on a non-empty ring: the i-th buffer in
      the i-th slot from the old `cur`, the rest unchanged, and `head` and
      `cur` moved on by the budget. */
  lemma TransferFillsSlots(r: Ring, pbufs: seq<PopBuf.Buf>, nbufs: int)
    requires NetmapRing.Valid(r) && AllSized(pbufs) && IsInt(nbufs) && Budget(r, nbufs) <= |pbufs|
    requires !Empty(r)
    ensures var r' := Transfer(r, pbufs, nbufs);
            var k := Budget(r, nbufs);
            r'.cur == Ahead(r.cur, k, r.numSlots)
            && (k > 0 ==> r'.head == r'.cur) && (k == 0 ==> r'.head == r.head)
            && forall j :: 0 <= j < r.numSlots ==>
                 (Rel(j, r.cur, r.numSlots) < k ==>
                    r'.slots[j] == Describe(r.slots[j], BufDesc(pbufs[Rel(j, r.cur, r.numSlots)])))
                 && (Rel(j, r.cur, r.numSlots) >= k ==> r'.slots[j] == r.slots[j])
  {
    var k := Budget(r, nbufs);
    var ds := Descs(pbufs[..k]);
    PostSpec(r, ds);
  }

  /** A successful `write` reports exactly the slots it used up, and a
      successful `read` reports 0 whatever it posted. */
  lemma SuccessfulReturnValues(d: Driver, pbufs: seq<PopBuf.Buf>, nbufs: int, qid: int)
    requires Valid(d) && AllSized(pbufs) && IsInt(nbufs) && 0 <= qid < d.ncpus
    requires EnoughBuffers(d.tx, pbufs, nbufs, qid) && EnoughBuffers(d.rx, pbufs, nbufs, qid)
    requires nbufs > 0 && !Empty(d.tx[qid]) && !Empty(d.rx[qid])
    ensures var w := Write(d, pbufs, nbufs, qid, SyncOk);
            w.ret > 0 && w.ret == Space(d.tx[qid]) - Space(w.drv.tx[qid])
    ensures var rd := Read(d, pbufs, nbufs, qid, SyncOk);
            rd.ret == 0 && Space(rd.drv.rx[qid]) < Space(d.rx[qid])
  {
  }

  /** `nm_open` for ring `i`: its rings, or a failure. */
  datatype OpenReply = OpenFailed | Opened(rx: Ring, tx: Ring)

  /** What `pop_driver_netmap_init` asks of its environment: `malloc` of the
      driver record, the number of online CPUs (-1 when it cannot be read),
      `calloc` of the descriptor array, and one `nm_open` answer per CPU. */
  datatype InitHost = InitHost(mallocOk: bool, ncpus: int, callocOk: bool,
                               opens: seq<OpenReply>)

  /** The netmap calls made: `nm_open` of a ring number and `NIOCRXSYNC` on
      the descriptor of a ring number, handing over the ring as primed. */
  datatype NmCall = NmOpen(ringId: nat) | RxSync(ringId: nat, ring: Ring)

  /** Round the RX ring up: `cur` and `head` on the last slot. */
  function Prime(r: Ring): (p: Ring)
    requires NetmapRing.Valid(r)
    ensures NetmapRing.Valid(p) && p.slots == r.slots && p.tail == r.tail
    ensures Next(p, p.cur) == 0 && p.head == p.cur
  {
    r.(cur := r.numSlots - 1, head := r.numSlots - 1)
  }

  predicate RepliesValid(opens: seq<OpenReply>)
  {
    forall i :: 0 <= i < |opens| && opens[i].Opened? ==>
      NetmapRing.Valid(opens[i].rx) && NetmapRing.Valid(opens[i].tx)
  }

  /** The calls made for the rings `0..n`: open, then sync the primed RX
      ring. */
  function OpenCalls(opens: seq<OpenReply>, n: nat): (cs: seq<NmCall>)
    requires n <= |opens| && RepliesValid(opens)
    requires forall i :: 0 <= i < n ==> opens[i].Opened?
    ensures |cs| == 2 * n
  {
    if n == 0 then []
    else OpenCalls(opens, n - 1) + [NmOpen(n - 1), RxSync(n - 1, Prime(opens[n - 1].rx))]
  }

  /** The first ring number whose `nm_open` fails, or `n`. */
  function FirstFailure(opens: seq<OpenReply>, n: nat): (k: nat)
    requires n <= |opens|
    ensures k <= n
    ensures forall i :: 0 <= i < k ==> opens[i].Opened?
    ensures k < n ==> opens[k].OpenFailed?
  {
    if n == 0 then 0
    else if FirstFailure(opens, n - 1) < n - 1 then FirstFailure(opens, n - 1)
    else if opens[n - 1].OpenFailed? then n - 1
    else n
  }

  /** `pop_driver_netmap_init` (lib/pop_netmap.c:134-194). A CPU count of
      -1 makes `calloc` ask for more than the address space, which fails.
      On a failure the descriptors already opened stay open and the driver
      is not set up; `drv` is then meaningless. */
  method Init(devname: string, h: InitHost) returns (ret: int, drv: Driver, calls: seq<NmCall>)
    requires h.ncpus >= -1 && h.ncpus <= |h.opens| && RepliesValid(h.opens)
    ensures ret == 0 || ret == -1
    ensures ret == 0 <==>
              h.mallocOk && h.ncpus >= 0 && h.callocOk && FirstFailure(h.opens, Nat(h.ncpus)) == h.ncpus
    ensures !h.mallocOk || h.ncpus < 0 || !h.callocOk ==> calls == []
    ensures h.mallocOk && h.ncpus >= 0 && h.callocOk && ret != 0 ==>
              var k := FirstFailure(h.opens, h.ncpus);
              calls == OpenCalls(h.opens, k) + [NmOpen(k)]
    ensures ret == 0 ==>
              Valid(drv) && drv.kind == Netmap && drv.ncpus == h.ncpus
              && drv.devname == Truncate(devname, IFNAMSIZ)
              && calls == OpenCalls(h.opens, drv.ncpus)
              && (forall i :: 0 <= i < drv.ncpus ==>
                    drv.rx[i] == Prime(h.opens[i].rx) && drv.tx[i] == h.opens[i].tx)
  {
    drv := Driver(OtherType(0), [], 0, [], []);
    calls := [];
    if !h.mallocOk || h.ncpus < 0 || !h.callocOk {
      return -1, drv, calls;
    }
    var n: nat := h.ncpus;
    var allOpen, rx, tx, cs := OpenRings(h.opens, n);
    calls := cs;
    if !allOpen {
      return -1, drv, calls;
    }
    drv := Driver(Netmap, Truncate(devname, IFNAMSIZ), n, rx, tx);
    ret := 0;
  }

  /** The loop of `pop_driver_netmap_init` over rings `0..n`: open each
      ring, prime its RX ring and sync it; stop at the first `nm_open` that
      fails. */
  method OpenRings(opens: seq<OpenReply>, n: nat)
    returns (allOpen: bool, rx: seq<Ring>, tx: seq<Ring>, calls: seq<NmCall>)
    requires n <= |opens| && RepliesValid(opens)
    ensures allOpen <==> FirstFailure(opens, n) == n
    ensures !allOpen ==>
              var k := FirstFailure(opens, n);
              calls == OpenCalls(opens, k) + [NmOpen(k)]
    ensures allOpen ==>
              calls == OpenCalls(opens, n) && |rx| == n && |tx| == n
              && RingsValid(rx) && RingsValid(tx)
              && (forall i :: 0 <= i < n ==> rx[i] == Prime(opens[i].rx) && tx[i] == opens[i].tx)
  {
    rx, tx, calls := [], [], [];
    var i := 0;
    while i < n
      invariant 0 <= i <= n
      invariant forall j :: 0 <= j < i ==> opens[j].Opened?
      invariant FirstFailure(opens, i) == i
      invariant calls == OpenCalls(opens, i)
      invariant |rx| == i && |tx| == i
      invariant forall j :: 0 <= j < i ==> rx[j] == Prime(opens[j].rx) && tx[j] == opens[j].tx
    {
      calls := calls + [NmOpen(i)];
      if opens[i].OpenFailed? {
        FailureIsFirst(opens, i, n);
        return false, rx, tx, calls;
      }
      var primed := Prime(opens[i].rx);
      OpenedOneMore(opens, i);
      calls := calls + [RxSync(i, primed)];
      rx := rx + [primed];
      tx := tx + [opens[i].tx];
      i := i + 1;
    }
    allOpen := true;
  }

  /** One more ring opened: still no failure, and its two calls follow
      those of the rings before it. */
  lemma OpenedOneMore(opens: seq<OpenReply>, i: nat)
    requires i < |opens| && RepliesValid(opens) && opens[i].Opened?
    requires FirstFailure(opens, i) == i
    ensures FirstFailure(opens, i + 1) == i + 1
    ensures forall j :: 0 <= j < i + 1 ==> opens[j].Opened?
    ensures OpenCalls(opens, i + 1) == OpenCalls(opens, i) + [NmOpen(i), RxSync(i, Prime(opens[i].rx))]
  {
  }

  /** The non-negative part of an `int`; a CPU count of -1 runs no loop. */
  function Nat(x: int): (r: nat)
    ensures x >= 0 ==> r == x
    ensures x < 0 ==> r == 0
  {
    if x >= 0 then x else 0
  }

  /** A failure at ring `i`, after every earlier ring opened, is the first
      failure of the whole run. */
  lemma {:induction false} FailureIsFirst(opens: seq<OpenReply>, i: nat, n: nat)
    requires i < n <= |opens| && opens[i].OpenFailed?
    requires FirstFailure(opens, i) == i
    ensures FirstFailure(opens, n) == i
    decreases n
  {
    if n > i + 1 {
      FailureIsFirst(opens, i, n - 1);
    }
  }

  datatype ExitOutcome = ExitOutcome(ret: int, closed: seq<nat>)

  /** The ring numbers `0..n`. */
  function Range(n: nat): (r: seq<nat>)
    ensures |r| == n && forall i :: 0 <= i < n ==> r[i] == i
  {
    if n == 0 then [] else Range(n - 1) + [n - 1]
  }

  /** `pop_driver_netmap_exit` (lib/pop_netmap.c:196-215): any other driver
      type is refused with -EINVAL; otherwise every descriptor is closed. */
  function Exit(d: Driver): (r: ExitOutcome)
    ensures d.kind != Netmap <==> r.ret == -EINVAL
    ensures d.kind != Netmap ==> r.closed == []
    ensures d.kind == Netmap ==> r.ret == 0 && |r.closed| == Nat(d.ncpus)
    ensures forall i :: 0 <= i < |r.closed| ==> r.closed[i] == i
  {
    if d.kind != Netmap then ExitOutcome(-EINVAL, [])
    else ExitOutcome(0, Range(Nat(d.ncpus)))
  }

  /** Every descriptor a successful `init` opened is closed by `exit`: the
      ring numbers closed are exactly those opened. */
  lemma {:induction false} ExitClosesWhatInitOpened(h: InitHost, n: nat, d: Driver)
    requires n <= |h.opens| && RepliesValid(h.opens)
    requires forall i :: 0 <= i < n ==> h.opens[i].Opened?
    requires d.kind == Netmap && d.ncpus == n
    ensures var cs := OpenCalls(h.opens, n);
            |Exit(d).closed| * 2 == |cs|
            && forall i :: 0 <= i < n ==> cs[2 * i] == NmOpen(Exit(d).closed[i])
    decreases n
  {
    if n > 0 {
      ExitClosesWhatInitOpened(h, n - 1, d.(ncpus := n - 1));
      var cs := OpenCalls(h.opens, n);
      var prev := OpenCalls(h.opens, n - 1);
      assert forall i :: 0 <= i < n - 1 ==> cs[2 * i] == prev[2 * i];
    }
  }
}
