/** The libpop context of lib/libpop.c: a memory region mapped either from a
    PCI device's p2pmem (registered with the kernel module first) or from
    hugepages, divided by a bump allocator into page-multiple buffers.
    System calls are not executed: their results are parameters, and every
    call the context code issues is recorded in a trace so that contracts can
    say what was asked of the kernel. */
module Arena {
  import opened Machine
  import opened PciName
  import PopBuf

  const DEVNAME_MAX: nat := 16
  const DEVPOP: string := "/dev/pop/pop"
  /** `MAP_FAILED`, i.e. `(void *)-1`. */
  const MAP_FAILED: nat := U64_LIMIT - 1
  /** A pagemap entry keeps the page frame number in bits 0-54. */
  const PFN_LIMIT: nat := 0x80_0000_0000_0000

  /** `pop_ctx_t` */
  datatype Ctx = Ctx(fd: int, devname: string, reg: Reg, mem: nat, size: nat,
                     numPages: nat, allocedPages: nat, verbose: int)

  /** What every successfully initialised context satisfies, and what the
      allocator keeps: the pages handed out never exceed the pages mapped. */
  predicate Valid(c: Ctx)
  {
    c.size < U64_LIMIT && c.numPages * PAGE_SIZE == c.size && c.allocedPages <= c.numPages
  }

  /** The size test shared by `pop_ctx_init` and `pop_buf_alloc`. */
  predicate PageMultiple(size: nat)
  {
    size % PAGE_SIZE == 0 && size >= PAGE_SIZE
  }

  /** The system calls the context code issues. */
  datatype Call =
    | Open(path: string)
    | RegIoctl(reg: Reg)
    | UnregIoctl(reg: Reg)
    | Close(fd: int)
    | Mmap(len: nat, shared: bool, fd: int)

  /** What the kernel wrote back into the user's `struct pop_p2pmem_reg`. */
  datatype CopyBack = NotCopied | Copied(size: nat)

  datatype MapReply = MapFailed | Mapped(addr: nat)

  /** Results of the system calls `pop_ctx_init` may issue, in order. */
  datatype InitHost = InitHost(popFd: int, regRet: int, regCopy: CopyBack,
                               devFd: int, mapped: MapReply)

  /** Either hugepages (`dev == NULL`) or a PCI slot string. */
  datatype Backing = Hugepage | PciSlot(name: string)

  datatype InitOutcome = InitOutcome(ret: int, errno: Errno, ctx: Ctx, calls: seq<Call>)

  /** The trailing `mmap` of `pop_ctx_init` (lib/libpop.c:128-137). */
  function MapArena(c: Ctx, shared: bool, calls: seq<Call>, h: InitHost): (r: InitOutcome)
    ensures |r.calls| > |calls| && r.calls[..|calls| + 1] == calls + [Mmap(c.size, shared, c.fd)]
    ensures r.ret == 0 <==> h.mapped.Mapped?
    ensures r.ret == 0 ==> r.ctx == c.(mem := h.mapped.addr) && r.calls == calls + [Mmap(c.size, shared, c.fd)]
    ensures r.ret != 0 ==> r.ret == -1 && r.ctx == c.(mem := MAP_FAILED)
    ensures r.ret != 0 ==> r.calls == calls + [Mmap(c.size, shared, c.fd)]
                                    + (if c.fd != -1 then [Close(c.fd)] else [])
  {
    var mapped := calls + [Mmap(c.size, shared, c.fd)];
    match h.mapped
    case MapFailed =>
      var closing := if c.fd != -1 then [Close(c.fd)] else [];
      assert (mapped + closing)[..|calls| + 1] == mapped;
      InitOutcome(-1, FromCall, c.(mem := MAP_FAILED), mapped + closing)
    case Mapped(a) =>
      InitOutcome(0, FromCall, c.(mem := a), mapped)
  }

  /** The device branch of `pop_ctx_init` (lib/libpop.c:79-125 and the
      mmap after it), starting from the zeroed context `z`, given the
      outcome `p` of parsing the slot name `name`. */
  function DeviceInit(z: Ctx, name: string, p: SlotParse, h: InitHost): (r: InitOutcome)
    ensures r.ret == 0 || r.ret == -1
    ensures r.ret == 0 <==>
              p.accepted && h.popFd >= 0 && h.regRet == 0 && h.devFd >= 0
              && h.mapped.Mapped?
    ensures !p.accepted ==> r.ret == -1 && r.errno == Set(EINVAL) && r.calls == []
    ensures |r.calls| >= 2 ==> r.calls[..2] == [Open(DEVPOP), RegIoctl(Reg(p.addr, z.size))]
    ensures r.ret == 0 ==>
              r.ctx.fd == h.devFd && r.ctx.reg.addr == p.addr
              && r.ctx.devname == Truncate(name, DEVNAME_MAX) && r.ctx.mem == h.mapped.addr
              && r.ctx.size == z.size && r.ctx.numPages == z.numPages
              && r.ctx.allocedPages == z.allocedPages && r.ctx.verbose == z.verbose
              && r.calls == [Open(DEVPOP), RegIoctl(Reg(r.ctx.reg.addr, z.size)), Close(h.popFd),
                             Open(DevicePath(r.ctx.reg.addr)), Mmap(z.size, true, h.devFd)]
    ensures forall i :: 0 <= i < |r.calls| && r.calls[i].Mmap? ==> r.calls[i].len == z.size
  {
    var c1 := z.(devname := Truncate(name, DEVNAME_MAX), reg := Reg(p.addr, 0));
    if !p.accepted then InitOutcome(-1, Set(EINVAL), c1, [])
    else
      var reg := Reg(p.addr, z.size);
      var c2 := c1.(reg := reg);
      if h.popFd < 0 then InitOutcome(-1, FromCall, c2, [Open(DEVPOP)])
      else
        var c3 := if h.regCopy.Copied? then c2.(reg := reg.(size := h.regCopy.size)) else c2;
        var asked := [Open(DEVPOP), RegIoctl(reg)];
        if h.regRet != 0 then InitOutcome(-1, FromCall, c3, asked + [Close(h.popFd)])
        else
          OpenAndMap(c3, asked + [Close(h.popFd), Open(DevicePath(p.addr))], h)
  }

  /** The device file is opened (lib/libpop.c:118-125) and, when that
      succeeds, mapped shared. */
  function OpenAndMap(c: Ctx, reached: seq<Call>, h: InitHost): (r: InitOutcome)
    ensures r.ret == 0 || r.ret == -1
    ensures r.ret == 0 <==> h.devFd >= 0 && h.mapped.Mapped?
    ensures |r.calls| >= |reached| && r.calls[..|reached|] == reached
    ensures r.ret == 0 ==>
              r.ctx == c.(fd := h.devFd, mem := h.mapped.addr)
              && r.calls == reached + [Mmap(c.size, true, h.devFd)]
    ensures forall i :: |reached| <= i < |r.calls| && r.calls[i].Mmap? ==> r.calls[i].len == c.size
  {
    var c4 := c.(fd := h.devFd);
    if h.devFd < 0 then
      assert reached[..|reached|] == reached;
      InitOutcome(-1, FromCall, c4, reached)
    else
      var r := MapArena(c4, true, reached, h);
      assert r.calls[..|reached|] == r.calls[..|reached| + 1][..|reached|];
      r
  }

  /** `pop_ctx_init` (lib/libpop.c:52-138). */
  function CtxInit(c: Ctx, dev: Backing, size: nat, h: InitHost): (r: InitOutcome)
    requires size < U64_LIMIT
    ensures !PageMultiple(size) ==> r.ret == -1 && r.ctx == c && r.calls == []
    ensures r.ret == 0 || r.ret == -1
    ensures r.ret == 0 <==>
              PageMultiple(size) && h.mapped.Mapped?
              && (dev.PciSlot? ==> ParsePciSlot(dev.name).accepted && h.popFd >= 0
                                   && h.regRet == 0 && h.devFd >= 0)
    ensures r.ret == 0 ==> Valid(r.ctx) && r.ctx.size == size && r.ctx.numPages == size / PAGE_SIZE
                           && r.ctx.allocedPages == 0 && r.ctx.mem == h.mapped.addr
                           && r.ctx.verbose == c.verbose
    ensures r.ret == 0 && dev.Hugepage? ==>
              r.ctx.fd == -1 && r.ctx.devname == "hugepage" && r.calls == [Mmap(size, false, -1)]
    ensures PageMultiple(size) && dev.PciSlot? && !ParsePciSlot(dev.name).accepted ==>
              r.ret == -1 && r.errno == Set(EINVAL) && r.calls == []
    ensures dev.PciSlot? && |r.calls| >= 2 ==>
              r.calls[..2] == [Open(DEVPOP), RegIoctl(Reg(ParsePciSlot(dev.name).addr, size))]
    ensures r.ret == 0 && dev.PciSlot? ==>
              r.ctx.fd == h.devFd && r.ctx.reg.addr == ParsePciSlot(dev.name).addr
              && r.ctx.devname == Truncate(dev.name, DEVNAME_MAX)
              && r.calls == [Open(DEVPOP), RegIoctl(Reg(r.ctx.reg.addr, size)), Close(h.popFd),
                             Open(DevicePath(r.ctx.reg.addr)), Mmap(size, true, h.devFd)]
    ensures forall i :: 0 <= i < |r.calls| && r.calls[i].Mmap? ==> r.calls[i].len == size
  {
    if !PageMultiple(size) then InitOutcome(-1, FromCall, c, [])
    else
      var z := Ctx(0, [], Reg(PciAddr(0, 0, 0, 0), 0), 0, size, size / PAGE_SIZE, 0, c.verbose);
      match dev
      case Hugepage =>
        var r := MapArena(z.(devname := Truncate("hugepage", DEVNAME_MAX), fd := -1), false, [], h);
        assert r.calls[..1] == r.calls;
        r
      case PciSlot(name) => DeviceInit(z, name, ParsePciSlot(name), h)
  }

  /** Results of the system calls `pop_ctx_exit` may issue. */
  datatype ExitHost = ExitHost(popFd: int, unregRet: int, closeRet: int)

  datatype ExitOutcome = ExitOutcome(ret: int, calls: seq<Call>)

  /** `pop_ctx_exit` (lib/libpop.c:141-175). A hugepage context is left
      mapped. For a device, the registration is withdrawn through
      /dev/pop/pop, whose descriptor is never closed, and the result is the
      result of closing the device file. */
  function CtxExit(c: Ctx, h: ExitHost): (r: ExitOutcome)
    ensures c.fd == -1 ==> r == ExitOutcome(0, [])
    ensures c.fd != -1 && h.popFd < 0 ==> r == ExitOutcome(-1, [Open(DEVPOP)])
    ensures c.fd != -1 && h.popFd >= 0 ==> |r.calls| >= 2 && r.calls[..2] == [Open(DEVPOP), UnregIoctl(c.reg)]
    ensures c.fd != -1 && h.popFd >= 0 && h.unregRet == 0 ==>
              r == ExitOutcome(h.closeRet, [Open(DEVPOP), UnregIoctl(c.reg), Close(c.fd)])
    ensures c.fd != -1 && h.popFd >= 0 && h.unregRet != 0 ==> r.ret == -1
    ensures Close(h.popFd) !in r.calls || h.popFd == c.fd
  {
    if c.fd == -1 then ExitOutcome(0, [])
    else if h.popFd < 0 then ExitOutcome(-1, [Open(DEVPOP)])
    else if h.unregRet != 0 then ExitOutcome(-1, [Open(DEVPOP), UnregIoctl(c.reg)])
    else ExitOutcome(h.closeRet, [Open(DEVPOP), UnregIoctl(c.reg), Close(c.fd)])
  }

  // ---------------------------------------------------------------------
  // virt_to_phys

  /** What reading `/proc/self/pagemap` at one offset gives. */
  datatype PagemapRead = PmOpenFailed | PmSeekFailed | PmRead(rc: int, entry: nat)

  /** The page size reported by `sysconf` and the pagemap contents. */
  datatype Pagemap = Pagemap(pagesize: nat, read: nat -> PagemapRead)

  /** The byte offset of the pagemap entry for `addr`. */
  function PagemapOffset(addr: nat, pm: Pagemap): nat
    requires pm.pagesize > 0
  {
    U64(addr / pm.pagesize * 8)
  }

  /** The page frame number of a 64-bit pagemap entry. */
  function Pfn(entry: nat): (r: nat)
    ensures r < PFN_LIMIT
  {
    U64(entry) % PFN_LIMIT
  }

  predicate PagemapHit(addr: nat, pm: Pagemap)
    requires pm.pagesize > 0
  {
    var rd := pm.read(PagemapOffset(addr, pm));
    rd.PmRead? && rd.rc >= 1 && U64(rd.entry) != 0
  }

  /** `virt_to_phys` (lib/libpop.c:313-350). Any failure yields 0. */
  function VirtToPhys(addr: nat, pm: Pagemap): (r: nat)
    requires pm.pagesize > 0 && addr < U64_LIMIT
    ensures r < U64_LIMIT
    ensures !PagemapHit(addr, pm) ==> r == 0
  {
    var rd := pm.read(PagemapOffset(addr, pm));
    if !(rd.PmRead? && rd.rc >= 1 && U64(rd.entry) != 0) then 0
    else U64(Pfn(rd.entry) * pm.pagesize + addr % pm.pagesize)
  }

  /** On a pagemap hit the physical address is the frame's base plus the
      offset inside the page, taken modulo 2^64; when the page size divides
      2^64, the offset inside the page survives even the wrap. */
  lemma VirtToPhysHit(addr: nat, pm: Pagemap)
    requires pm.pagesize > 0 && addr < U64_LIMIT && PagemapHit(addr, pm)
    ensures var phys := Pfn(pm.read(PagemapOffset(addr, pm)).entry) * pm.pagesize + addr % pm.pagesize;
            (phys < U64_LIMIT ==> VirtToPhys(addr, pm) == phys)
            && (U64_LIMIT % pm.pagesize == 0 ==> VirtToPhys(addr, pm) % pm.pagesize == addr % pm.pagesize)
  {
    var rd := pm.read(PagemapOffset(addr, pm));
    var phys := Pfn(rd.entry) * pm.pagesize + addr % pm.pagesize;
    PageOffsetSurvivesWrap(phys, Pfn(rd.entry), addr, pm.pagesize);
  }

  lemma PageOffsetSurvivesWrap(phys: nat, pfn: nat, addr: nat, ps: nat)
    requires ps > 0 && phys == pfn * ps + addr % ps
    ensures phys % ps == addr % ps
    ensures U64_LIMIT % ps == 0 ==> U64(phys) % ps == addr % ps
  {
    var b := addr % ps;
    ShiftByMultiple(b, pfn, ps);
    DivModUnique(b, 0, b, ps);
    if U64_LIMIT % ps == 0 {
      ModOfMod(phys, U64_LIMIT, ps);
    }
  }

  // ---------------------------------------------------------------------
  // The bump allocator

  datatype AllocOutcome = Allocated(ctx: Ctx, buf: PopBuf.Buf) | Failed(ctx: Ctx, errno: Errno)

  /** The address of the next buffer `pop_buf_alloc` would hand out. */
  function NextVaddr(c: Ctx): nat
  {
    U64(c.mem + c.allocedPages * PAGE_SIZE)
  }

  /** `pop_buf_alloc` (lib/libpop.c:180-215). `mallocOk` is whether the
      buffer descriptor could be allocated; the physical address comes from
      the pagemap. */
  function BufAlloc(c: Ctx, size: nat, mallocOk: bool, pm: Pagemap): (r: AllocOutcome)
    requires Valid(c) && size < U64_LIMIT && pm.pagesize > 0
    ensures r.Failed? ==> r.ctx == c
    ensures !PageMultiple(size) ==> r == Failed(c, FromCall)
    ensures PageMultiple(size) && c.numPages - c.allocedPages < size / PAGE_SIZE ==>
              r == Failed(c, Set(ENOBUFS))
    ensures r.Allocated? <==>
              PageMultiple(size) && c.allocedPages + size / PAGE_SIZE <= c.numPages && mallocOk
    ensures r.Allocated? ==>
              Valid(r.ctx) && r.ctx == c.(allocedPages := c.allocedPages + size / PAGE_SIZE)
    ensures r.Allocated? ==>
              r.buf.vaddr == NextVaddr(c) && r.buf.size == size
              && r.buf.offset == 0 && r.buf.length == 0
              && r.buf.paddr == VirtToPhys(r.buf.vaddr, pm) && PopBuf.Valid(r.buf)
  {
    if !PageMultiple(size) then Failed(c, FromCall)
    else if c.numPages - c.allocedPages < size / PAGE_SIZE then Failed(c, Set(ENOBUFS))
    else if !mallocOk then Failed(c, FromCall)
    else
      var vaddr := NextVaddr(c);
      var buf := PopBuf.Buf(vaddr, VirtToPhys(vaddr, pm), size, 0, 0);
      Allocated(c.(allocedPages := c.allocedPages + size / PAGE_SIZE), buf)
  }

  /** `pop_buf_free` (lib/libpop.c:217-222): only the descriptor is freed;
      the context keeps its page count. */
  function BufFree(c: Ctx, b: PopBuf.Buf): (r: Ctx)
    ensures r.allocedPages == c.allocedPages && r.numPages == c.numPages
  {
    c
  }

  /** The bytes a buffer covers. */
  predicate Within(b: PopBuf.Buf, lo: nat, hi: nat)
  {
    lo <= b.vaddr && b.vaddr + b.size <= hi
  }

  predicate Disjoint(a: PopBuf.Buf, b: PopBuf.Buf)
  {
    a.vaddr + a.size <= b.vaddr || b.vaddr + b.size <= a.vaddr
  }

  /** Two successful allocations in a row are contiguous: the second buffer
      starts where the first ends, and both lie inside the mapping. */
  lemma AllocationsAreContiguous(c: Ctx, s1: nat, s2: nat, pm: Pagemap)
    requires Valid(c) && s1 < U64_LIMIT && s2 < U64_LIMIT && pm.pagesize > 0
    requires c.mem + c.size < U64_LIMIT
    requires BufAlloc(c, s1, true, pm).Allocated?
    requires BufAlloc(BufAlloc(c, s1, true, pm).ctx, s2, true, pm).Allocated?
    ensures var b1 := BufAlloc(c, s1, true, pm).buf;
            var b2 := BufAlloc(BufAlloc(c, s1, true, pm).ctx, s2, true, pm).buf;
            b2.vaddr == b1.vaddr + b1.size && Disjoint(b1, b2)
            && Within(b1, c.mem, c.mem + c.size) && Within(b2, c.mem, c.mem + c.size)
  {
    var c1 := BufAlloc(c, s1, true, pm).ctx;
    assert s1 == s1 / PAGE_SIZE * PAGE_SIZE;
    assert s2 == s2 / PAGE_SIZE * PAGE_SIZE;
    assert (c.allocedPages + s1 / PAGE_SIZE) * PAGE_SIZE
           == c.allocedPages * PAGE_SIZE + s1 / PAGE_SIZE * PAGE_SIZE;
    assert c1.allocedPages * PAGE_SIZE + s2 <= c.size by {
      assert (c1.allocedPages + s2 / PAGE_SIZE) * PAGE_SIZE
             == c1.allocedPages * PAGE_SIZE + s2 / PAGE_SIZE * PAGE_SIZE;
      assert (c1.allocedPages + s2 / PAGE_SIZE) * PAGE_SIZE <= c.numPages * PAGE_SIZE;
    }
  }

  /** Freeing a buffer does not let the next allocation reuse its pages. */
  lemma FreeDoesNotReusePages(c: Ctx, s: nat, pm: Pagemap)
    requires Valid(c) && s < U64_LIMIT && pm.pagesize > 0 && c.mem + c.size < U64_LIMIT
    requires BufAlloc(c, s, true, pm).Allocated?
    ensures var a := BufAlloc(c, s, true, pm);
            NextVaddr(BufFree(a.ctx, a.buf)) == a.buf.vaddr + a.buf.size
  {
    var a := BufAlloc(c, s, true, pm);
    assert s == s / PAGE_SIZE * PAGE_SIZE;
    assert (c.allocedPages + s / PAGE_SIZE) * PAGE_SIZE
           == c.allocedPages * PAGE_SIZE + s / PAGE_SIZE * PAGE_SIZE;
    assert (c.allocedPages + s / PAGE_SIZE) * PAGE_SIZE <= c.numPages * PAGE_SIZE;
  }

  /** Once every page is handed out, every well-formed request fails with
      ENOBUFS. */
  lemma ExhaustedArenaRefuses(c: Ctx, size: nat, mallocOk: bool, pm: Pagemap)
    requires Valid(c) && c.allocedPages == c.numPages && size < U64_LIMIT && pm.pagesize > 0
    requires PageMultiple(size)
    ensures BufAlloc(c, size, mallocOk, pm) == Failed(c, Set(ENOBUFS))
  {
  }

  /** Sum of the page counts of a sequence of request sizes. */
  function Pages(sizes: seq<nat>): nat
  {
    if sizes == [] then 0 else Pages(sizes[..|sizes| - 1]) + sizes[|sizes| - 1] / PAGE_SIZE
  }

  /** A run of allocations that all fit: the buffers come out in address
      order, each inside the mapping, pairwise disjoint, and the context has
      handed out exactly their pages. */
  method AllocAll(c: Ctx, sizes: seq<nat>, pm: Pagemap) returns (r: Ctx, bufs: seq<PopBuf.Buf>)
    requires Valid(c) && pm.pagesize > 0 && c.mem + c.size < U64_LIMIT
    requires forall i :: 0 <= i < |sizes| ==> PageMultiple(sizes[i]) && sizes[i] < U64_LIMIT
    requires c.allocedPages + Pages(sizes) <= c.numPages
    ensures Valid(r) && r.allocedPages == c.allocedPages + Pages(sizes)
    ensures |bufs| == |sizes|
    ensures forall i :: 0 <= i < |bufs| ==>
              bufs[i].size == sizes[i] && Within(bufs[i], c.mem, c.mem + c.size)
              && bufs[i].offset == 0 && bufs[i].length == 0
    ensures forall i, j :: 0 <= i < j < |bufs| ==> bufs[i].vaddr + bufs[i].size <= bufs[j].vaddr
  {
    r := c;
    bufs := [];
    assert sizes[..0] == [];
    while |bufs| < |sizes|
      invariant Laid(c, r, sizes, bufs)
      decreases |sizes| - |bufs|
    {
      var a := BufAlloc(r, sizes[|bufs|], true, pm);
      AllocNext(c, r, sizes, |bufs|, pm);
      LaidStep(c, r, sizes, bufs, a.ctx, a.buf);
      bufs := bufs + [a.buf];
      r := a.ctx;
    }
    assert sizes[..|bufs|] == sizes;
  }

  /** The state of `AllocAll` after handing out `bufs`, the first `|bufs|`
      of the sizes asked for. */
  predicate Laid(c: Ctx, r: Ctx, sizes: seq<nat>, bufs: seq<PopBuf.Buf>)
  {
    |bufs| <= |sizes| && LaidCtx(c, r, sizes, |bufs|)
    && LaidBufs(bufs, sizes, c.mem, c.mem + c.size, NextVaddr(r))
  }

  /** The context has handed out the pages of the first `n` sizes. */
  predicate LaidCtx(c: Ctx, r: Ctx, sizes: seq<nat>, n: nat)
    requires n <= |sizes|
  {
    Valid(r) && r.allocedPages == c.allocedPages + Pages(sizes[..n])
    && r.mem == c.mem && r.size == c.size && r.numPages == c.numPages
    && NextVaddr(r) == c.mem + r.allocedPages * PAGE_SIZE
  }

  /** The buffers have the sizes asked for, lie in order inside `[lo, hi)`
      and end at or before `next`. */
  predicate LaidBufs(bufs: seq<PopBuf.Buf>, sizes: seq<nat>, lo: nat, hi: nat, next: nat)
    requires |bufs| <= |sizes|
  {
    (forall i :: 0 <= i < |bufs| ==>
       bufs[i].size == sizes[i] && Within(bufs[i], lo, hi)
       && bufs[i].offset == 0 && bufs[i].length == 0
       && bufs[i].vaddr + bufs[i].size <= next)
    && (forall i, j :: 0 <= i < j < |bufs| ==> bufs[i].vaddr + bufs[i].size <= bufs[j].vaddr)
  }

  /** Appending a buffer placed at the next free address keeps `Laid`. */
  lemma LaidStep(c: Ctx, r: Ctx, sizes: seq<nat>, bufs: seq<PopBuf.Buf>, r2: Ctx, b: PopBuf.Buf)
    requires Laid(c, r, sizes, bufs) && |bufs| < |sizes|
    requires LaidCtx(c, r2, sizes, |bufs| + 1)
    requires b.vaddr == NextVaddr(r) && b.vaddr + b.size == NextVaddr(r2) && NextVaddr(r2) <= c.mem + c.size
    requires c.mem <= b.vaddr && b.size == sizes[|bufs|] && b.offset == 0 && b.length == 0
    ensures Laid(c, r2, sizes, bufs + [b])
  {
    var more := bufs + [b];
    assert |more| == |bufs| + 1;
    PlacedInOrder(bufs, sizes, b, c.mem, c.mem + c.size, NextVaddr(r), NextVaddr(r2));
  }

  /** The context after the allocation of `sizes[k]`. */
  lemma AllocNext(c: Ctx, r: Ctx, sizes: seq<nat>, k: nat, pm: Pagemap)
    requires Valid(c) && pm.pagesize > 0 && c.mem + c.size < U64_LIMIT
    requires k < |sizes| && PageMultiple(sizes[k]) && sizes[k] < U64_LIMIT
    requires c.allocedPages + Pages(sizes) <= c.numPages
    requires LaidCtx(c, r, sizes, k)
    ensures BufAlloc(r, sizes[k], true, pm).Allocated?
    ensures var a := BufAlloc(r, sizes[k], true, pm);
            LaidCtx(c, a.ctx, sizes, k + 1)
            && a.buf.vaddr == NextVaddr(r) && a.buf.vaddr + sizes[k] == NextVaddr(a.ctx)
            && NextVaddr(a.ctx) <= c.mem + c.size && c.mem <= a.buf.vaddr
            && a.buf.size == sizes[k] && a.buf.offset == 0 && a.buf.length == 0
  {
    PagesPrefix(sizes, k);
    PagesMonotone(sizes, k + 1);
    AllocFits(r, sizes[k], pm);
  }

  /** Appending a buffer that starts where the previous ones end and stays
      inside `[lo, hi)` keeps the run inside, in order and disjoint. */
  lemma PlacedInOrder(bufs: seq<PopBuf.Buf>, sizes: seq<nat>, b: PopBuf.Buf, lo: nat, hi: nat,
                      start: nat, next: nat)
    requires |bufs| < |sizes| && b.size == sizes[|bufs|]
    requires b.vaddr == start && lo <= start && start + b.size == next && next <= hi
    requires b.offset == 0 && b.length == 0
    requires LaidBufs(bufs, sizes, lo, hi, start)
    ensures LaidBufs(bufs + [b], sizes, lo, hi, next)
  {
    var k := |bufs|;
    var more := bufs + [b];
    assert more[k] == b && forall i :: 0 <= i < k ==> more[i] == bufs[i];
    forall i, j | 0 <= i < j < k + 1
      ensures more[i].vaddr + more[i].size <= more[j].vaddr
    {
      if j == k {
        assert more[i] == bufs[i];
      }
    }
  }

  /** One allocation that fits takes the next `size` bytes of the mapping. */
  lemma AllocFits(c: Ctx, size: nat, pm: Pagemap)
    requires Valid(c) && pm.pagesize > 0 && c.mem + c.size < U64_LIMIT
    requires PageMultiple(size) && size < U64_LIMIT
    requires c.allocedPages + size / PAGE_SIZE <= c.numPages
    ensures var a := BufAlloc(c, size, true, pm);
            a.Allocated? && NextVaddr(c) == c.mem + c.allocedPages * PAGE_SIZE
            && NextVaddr(a.ctx) == c.mem + a.ctx.allocedPages * PAGE_SIZE
            && a.buf.vaddr + size == NextVaddr(a.ctx) && NextVaddr(a.ctx) <= c.mem + c.size
            && c.mem <= a.buf.vaddr
  {
    var n := size / PAGE_SIZE;
    assert size == n * PAGE_SIZE;
    assert (c.allocedPages + n) * PAGE_SIZE == c.allocedPages * PAGE_SIZE + n * PAGE_SIZE;
    assert (c.allocedPages + n) * PAGE_SIZE <= c.numPages * PAGE_SIZE;
    assert c.allocedPages * PAGE_SIZE <= c.numPages * PAGE_SIZE;
  }

  lemma PagesPrefix(sizes: seq<nat>, k: nat)
    requires k < |sizes|
    ensures Pages(sizes[..k + 1]) == Pages(sizes[..k]) + sizes[k] / PAGE_SIZE
  {
    assert sizes[..k + 1][..k] == sizes[..k];
  }

  lemma {:induction false} PagesMonotone(sizes: seq<nat>, k: nat)
    requires k <= |sizes|
    ensures Pages(sizes[..k]) <= Pages(sizes)
    decreases |sizes| - k
  {
    if k < |sizes| {
      PagesMonotone(sizes, k + 1);
      PagesPrefix(sizes, k);
    } else {
      assert sizes[..k] == sizes;
    }
  }

  // ---------------------------------------------------------------------
  // Relations between calls

  /** The file `pop_ctx_init` maps is the one the kernel module creates for
      the device: "/dev/" followed by its misc device name "pop/<pci_name>",
      cut to the 31 characters `popdev` holds, so the very file whenever the
      slot name has at most 22 characters (every address whose fields fit
      the printed widths); and the address it registers is the one the
      name was formatted from. */
  lemma InitOpensKernelDeviceFile(c: Ctx, a: PciAddr, size: nat, h: InitHost)
    requires size < U64_LIMIT && Fits(a)
    requires CtxInit(c, PciSlot(SlotName(a)), size, h).ret == 0
    ensures CtxInit(c, PciSlot(SlotName(a)), size, h).ctx.reg.addr == a
    ensures CtxInit(c, PciSlot(SlotName(a)), size, h).calls[3] == Open(DevicePath(a))
    ensures |SlotName(a)| <= 22 ==>
              CtxInit(c, PciSlot(SlotName(a)), size, h).calls[3] == Open("/dev/" + KernelDevName(a))
  {
    FourFieldSlotAccepted(a);
    DevicePathTruncation(a);
  }

  /** `pop_ctx_exit` unregisters exactly the PCI address `pop_ctx_init`
      registered, and closes the descriptor it mapped. */
  lemma ExitUndoesInit(c: Ctx, dev: Backing, size: nat, h: InitHost, e: ExitHost)
    requires size < U64_LIMIT && dev.PciSlot?
    requires CtxInit(c, dev, size, h).ret == 0
    requires e.popFd >= 0 && e.unregRet == 0
    ensures var r := CtxInit(c, dev, size, h);
            var x := CtxExit(r.ctx, e);
            r.calls[1].RegIoctl? && x.calls[1].UnregIoctl?
            && x.calls[1].reg.addr == r.calls[1].reg.addr
            && Close(r.ctx.fd) in x.calls && Mmap(size, true, r.ctx.fd) in r.calls
  {
    var r := CtxInit(c, dev, size, h);
    assert r.calls[4] == Mmap(size, true, r.ctx.fd);
    var x := CtxExit(r.ctx, e);
    assert x.calls[2] == Close(r.ctx.fd);
  }

  /** When the device file cannot be opened after a successful REG ioctl,
      `pop_ctx_init` fails without asking the kernel to undo the
      registration, whichever accepted slot name was given. */
  lemma FailedInitKeepsRegistration(c: Ctx, name: string, size: nat, h: InitHost)
    requires size < U64_LIMIT && PageMultiple(size) && ParsePciSlot(name).accepted
    requires h.popFd >= 0 && h.regRet == 0 && h.devFd < 0
    ensures var r := CtxInit(c, PciSlot(name), size, h);
            r.ret == -1 && RegIoctl(Reg(ParsePciSlot(name).addr, size)) in r.calls
            && forall i :: 0 <= i < |r.calls| ==> !r.calls[i].UnregIoctl?
  {
    var p := ParsePciSlot(name);
    var z := Ctx(0, [], Reg(PciAddr(0, 0, 0, 0), 0), 0, size, size / PAGE_SIZE, 0, c.verbose);
    DeviceOpenFails(z, name, p, h);
    assert CtxInit(c, PciSlot(name), size, h) == DeviceInit(z, name, p, h);
    RegisteredWithoutUnreg(DeviceInit(z, name, p, h).calls, Reg(p.addr, size), h.popFd, DevicePath(p.addr));
  }

  lemma RegisteredWithoutUnreg(calls: seq<Call>, reg: Reg, fd: int, path: string)
    requires calls == [Open(DEVPOP), RegIoctl(reg), Close(fd), Open(path)]
    ensures RegIoctl(reg) in calls && forall i :: 0 <= i < |calls| ==> !calls[i].UnregIoctl?
  {
    assert calls[1] == RegIoctl(reg);
  }

  /** When the device file does not open, the device branch has issued
      exactly the open of /dev/pop/pop, the REG ioctl, the close and the
      failed open. */
  lemma DeviceOpenFails(z: Ctx, name: string, p: SlotParse, h: InitHost)
    requires p.accepted && h.popFd >= 0 && h.regRet == 0 && h.devFd < 0
    ensures var r := DeviceInit(z, name, p, h);
            r.ret == -1
            && r.calls == [Open(DEVPOP), RegIoctl(Reg(p.addr, z.size)), Close(h.popFd), Open(DevicePath(p.addr))]
  {
  }

  /** An arena of one page holds one page-sized buffer; the next request
      fails with ENOBUFS. */
  lemma OnePageArena(c: Ctx, h: InitHost, pm: Pagemap)
    requires CtxInit(c, Hugepage, PAGE_SIZE, h).ret == 0 && pm.pagesize > 0
    ensures var ctx := CtxInit(c, Hugepage, PAGE_SIZE, h).ctx;
            var a := BufAlloc(ctx, PAGE_SIZE, true, pm);
            a.Allocated? && a.buf.vaddr == ctx.mem % U64_LIMIT
            && BufAlloc(a.ctx, PAGE_SIZE, true, pm) == Failed(a.ctx, Set(ENOBUFS))
  {
  }
}
