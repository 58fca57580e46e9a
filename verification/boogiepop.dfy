/** The boogiepop kernel module (kmod/boogiepop.c): registers a PCI device's
    p2pmem as the misc device /dev/pop/<pci_name>, keeps the registered
    devices in a list, and serves open, release and mmap on those files.
    Every kernel service whose result the code tests (copies from and to
    user space, p2pmem and structure allocation, misc device registration)
    is a parameter. */
module Boogiepop {
  import opened Machine
  import opened PciName
  import opened P2pRegistry

  /** The results of the kernel services one request may use. */
  datatype Services = Services(copyIn: bool, p2pAlloc: bool, kmalloc: bool,
                               miscRegister: bool, copyOut: bool)

  /** The misc device name of a newly registered device: `"pop/%s"` of its
      `pci_name`, in a 32-byte buffer. */
  const DEVNAMELEN: nat := 32

  function DevName(pdev: PciDev): string
  {
    Truncate("pop/" + PciNameOf(pdev), DEVNAMELEN - 1)
  }

  datatype RegOutcome = RegOutcome(ret: int, list: DevList)

  /** `pop_register_p2pmem` (kmod/boogiepop.c:201-259). The result is the
      registered size as an `int`; a size of 0 asks for the whole pool. */
  function RegisterP2pmem(l: DevList, pdev: PciDev, info: DevInfo, size: nat, s: Services)
    : (r: RegOutcome)
    requires size < U64_LIMIT
    ensures Registered(l, pdev) ==> r == RegOutcome(I32(l[Find(l, pdev)].size), l)
    ensures !Registered(l, pdev) && !(s.p2pAlloc && s.kmalloc) ==> r == RegOutcome(-ENOMEM, l)
    ensures !Registered(l, pdev) && s.p2pAlloc && s.kmalloc && !s.miscRegister ==>
              r == RegOutcome(-EINVAL, l)
    ensures !Registered(l, pdev) && s.p2pAlloc && s.kmalloc && s.miscRegister ==>
              var granted := if size == 0 && info.pool.Pool? then info.pool.size else size;
              r.list == l + [PopDev(pdev, DevName(pdev), granted, 0)] && r.ret == I32(granted)
    ensures r.list == l || |r.list| == |l| + 1
  {
    var i := Find(l, pdev);
    if i < |l| then RegOutcome(I32(l[i].size), l)
    else
      var granted := if size == 0 && info.pool.Pool? then info.pool.size else size;
      if !s.p2pAlloc || !s.kmalloc then RegOutcome(-ENOMEM, l)
      else if !s.miscRegister then RegOutcome(-EINVAL, l)
      else RegOutcome(I32(granted), l + [PopDev(pdev, DevName(pdev), granted, 0)])
  }

  /** `pop_unregister_p2pmem` (kmod/boogiepop.c:261-270): the entry leaves
      the list. */
  function UnregisterP2pmem(l: DevList, i: nat): (r: DevList)
    requires NoDup(l) && i < |l|
    ensures NoDup(r) && !Registered(r, l[i].pdev) && |r| == |l| - 1
    ensures forall pdev :: pdev != l[i].pdev && Registered(l, pdev) ==> Registered(r, pdev)
  {
    RemoveKeepsNoDup(l, i);
    var r := Remove(l, i);
    forall pdev | pdev != l[i].pdev && Registered(l, pdev)
      ensures Registered(r, pdev)
    {
      var j := Find(l, pdev);
      if j < i {
        assert r[j] == l[j];
      } else {
        assert r[j - 1] == l[j];
      }
    }
    r
  }

  /** What an ioctl returns, the registry after it and the caller's
      `struct pop_p2pmem_reg` after it. */
  datatype IoctlOutcome = IoctlOutcome(ret: int, list: DevList, user: Reg)

  /** `pop_ioctl` (kmod/boogiepop.c:283-362). */
  function Ioctl(l: DevList, bus: Bus, cmd: nat, user: Reg, s: Services): (r: IoctlOutcome)
    requires NoDup(l) && user.size < U64_LIMIT
    ensures NoDup(r.list)
    ensures cmd != POP_P2PMEM_REG && cmd != POP_P2PMEM_UNREG ==> r == IoctlOutcome(-EINVAL, l, user)
    ensures !s.copyIn && (cmd == POP_P2PMEM_REG || cmd == POP_P2PMEM_UNREG) ==>
              r == IoctlOutcome(-EFAULT, l, user)
    ensures s.copyIn && (cmd == POP_P2PMEM_REG || cmd == POP_P2PMEM_UNREG) && DevOf(user.addr) !in bus ==>
              r == IoctlOutcome(-ENODEV, l, user)
    // REG
    ensures cmd == POP_P2PMEM_REG && s.copyIn && DevOf(user.addr) in bus && !bus[DevOf(user.addr)].hasP2p ==>
              r == IoctlOutcome(-EINVAL, l, user)
    ensures cmd == POP_P2PMEM_REG && s.copyIn && DevOf(user.addr) in bus && bus[DevOf(user.addr)].hasP2p ==>
              var reg := RegisterP2pmem(l, DevOf(user.addr), bus[DevOf(user.addr)], user.size, s);
              r.list == reg.list
              && (reg.ret < 0 ==> r.ret == 0 && r.user == user)
              && (reg.ret >= 0 ==> r.user == (if s.copyOut then user.(size := reg.ret) else user)
                                   && r.ret == (if s.copyOut then 0 else -EFAULT))
    // UNREG
    ensures cmd == POP_P2PMEM_UNREG && s.copyIn && DevOf(user.addr) in bus ==>
              r.user == user
              && (!Registered(l, DevOf(user.addr)) ==> r.ret == -ENODEV && r.list == l)
              && (Registered(l, DevOf(user.addr)) ==>
                    r.ret == 0 && r.list == Remove(l, Find(l, DevOf(user.addr))))
  {
    if cmd == POP_P2PMEM_REG then
      if !s.copyIn then IoctlOutcome(-EFAULT, l, user)
      else
        var pdev := DevOf(user.addr);
        if pdev !in bus then IoctlOutcome(-ENODEV, l, user)
        else if !bus[pdev].hasP2p then IoctlOutcome(-EINVAL, l, user)
        else
          var reg := RegisterP2pmem(l, pdev, bus[pdev], user.size, s);
          assert NoDup(reg.list) by {
            if reg.list != l { AppendKeepsNoDup(l, reg.list[|l|]); assert reg.list == l + [reg.list[|l|]]; }
          }
          if reg.ret < 0 then IoctlOutcome(0, reg.list, user)
          else
            if !s.copyOut then IoctlOutcome(-EFAULT, reg.list, user)
            else IoctlOutcome(0, reg.list, user.(size := reg.ret))
    else if cmd == POP_P2PMEM_UNREG then
      if !s.copyIn then IoctlOutcome(-EFAULT, l, user)
      else
        var pdev := DevOf(user.addr);
        if pdev !in bus then IoctlOutcome(-ENODEV, l, user)
        else
          var i := Find(l, pdev);
          if i == |l| then IoctlOutcome(-ENODEV, l, user)
          else IoctlOutcome(0, UnregisterP2pmem(l, i), user)
    else IoctlOutcome(-EINVAL, l, user)
  }

  /** The open file's `private_data`: no device, or the registered device. */
  datatype Handle = NoDev | Dev(pdev: PciDev)

  datatype OpenOutcome = OpenOutcome(ret: int, list: DevList, handle: Handle)

  /** `pop_dev_open` (kmod/boogiepop.c:84-110): the file name is parsed as
      `%x:%x:%x.%x` and the device must be registered. */
  function DevOpen(l: DevList, bus: Bus, name: string): (r: OpenOutcome)
    ensures r.ret == 0 || r.ret == -EINVAL
    ensures r.ret == -EINVAL ==> r.list == l && r.handle == NoDev
    ensures ParseDevName(name).None4? ==> r.ret == -EINVAL
    ensures r.ret == 0 <==>
              ParseDevName(name).Some4? && DevOf(ParseDevName(name).addr) in bus
              && Registered(l, DevOf(ParseDevName(name).addr))
    ensures r.ret == 0 ==>
              var i := Find(l, DevOf(ParseDevName(name).addr));
              r.handle == Dev(l[i].pdev) && r.list == l[i := l[i].(refcnt := l[i].refcnt + 1)]
  {
    match ParseDevName(name)
    case None4 => OpenOutcome(-EINVAL, l, NoDev)
    case Some4(a) =>
      var pdev := DevOf(a);
      if pdev !in bus then OpenOutcome(-EINVAL, l, NoDev)
      else
        var i := Find(l, pdev);
        if i == |l| then OpenOutcome(-EINVAL, l, NoDev)
        else OpenOutcome(0, l[i := l[i].(refcnt := l[i].refcnt + 1)], Dev(pdev))
  }

  /** A file whose device was unregistered while it was open: UNREG frees
      the `struct pop_dev` whatever its open count, and the file's
      `private_data` still points at the freed memory. */
  predicate Dangling(l: DevList, h: Handle)
  {
    h.Dev? && !Registered(l, h.pdev)
  }

  /** `pop_dev_release` (kmod/boogiepop.c:112-119): the count goes back down
      and the file forgets the device. The kernel releases only files whose
      open succeeded, so the handle names a device. When that device was
      unregistered in between, the decrement lands in freed memory and no
      listed entry changes. */
  function DevRelease(l: DevList, h: Handle): (r: OpenOutcome)
    requires h.Dev?
    ensures r.ret == 0 && r.handle == NoDev && |r.list| == |l|
    ensures Registered(l, h.pdev) ==>
              var i := Find(l, h.pdev);
              r.list[i].refcnt == l[i].refcnt - 1
              && forall k :: 0 <= k < |l| && k != i ==> r.list[k] == l[k]
    ensures Dangling(l, h) ==> r.list == l
  {
    var i := Find(l, h.pdev);
    if i == |l| then OpenOutcome(0, l, NoDev)
    else OpenOutcome(0, l[i := l[i].(refcnt := l[i].refcnt - 1)], NoDev)
  }

  /** `pop_dev_mmap` (kmod/boogiepop.c:171-192): the mapped range, from the
      page offset `pgoff` for `len` bytes, must lie inside the p2pmem.
      Offset and end are computed in `unsigned long`. For a dangling handle
      the size is read from freed memory: `stale` is whatever it holds. */
  function DevMmap(l: DevList, h: Handle, pgoff: nat, len: nat, stale: nat): (r: int)
    requires pgoff < U64_LIMIT && len < U64_LIMIT
    ensures h.NoDev? ==> r == -EINVAL
    ensures r == 0 || r == -EINVAL || r == -ENOMEM
    ensures h.Dev? && Registered(l, h.pdev) ==>
              (r == 0 <==> U64(U64(pgoff * PAGE_SIZE) + len) <= l[Find(l, h.pdev)].size)
    ensures Dangling(l, h) ==> (r == 0 <==> U64(U64(pgoff * PAGE_SIZE) + len) <= stale)
    ensures h.Dev? ==> r != -EINVAL
  {
    match h
    case NoDev => -EINVAL
    case Dev(pdev) =>
      var i := Find(l, pdev);
      var size := if i < |l| then l[i].size else stale;
      var off := U64(pgoff * PAGE_SIZE);
      if U64(off + len) > size then -ENOMEM else 0
  }

  // ---------------------------------------------------------------------
  // Properties of the protocol

  /** A first registration adds one entry with refcount 0 and hands its
      size back to the caller; UNREG of the same address then restores the
      list it started from. */
  lemma RegisterThenUnregister(l: DevList, bus: Bus, user: Reg, s: Services)
    requires NoDup(l) && user.size < U64_LIMIT
    requires s.copyIn && s.p2pAlloc && s.kmalloc && s.miscRegister && s.copyOut
    requires DevOf(user.addr) in bus && bus[DevOf(user.addr)].hasP2p
    requires !Registered(l, DevOf(user.addr))
    requires user.size < 0x8000_0000 && (user.size == 0 ==> bus[DevOf(user.addr)].pool.NoPool?)
    ensures var r := Ioctl(l, bus, POP_P2PMEM_REG, user, s);
            r.ret == 0 && r.user == user
            && r.list == l + [PopDev(DevOf(user.addr), DevName(DevOf(user.addr)), user.size, 0)]
            && Ioctl(r.list, bus, POP_P2PMEM_UNREG, user, s) == IoctlOutcome(0, l, user)
  {
    var pdev := DevOf(user.addr);
    var e := PopDev(pdev, DevName(pdev), user.size, 0);
    AppendRemoveRoundTrip(l, e);
  }

  /** Registering an already registered device is answered with its existing
      size, whatever size was asked for, and changes nothing. */
  lemma DuplicateRegisterReturnsExistingSize(l: DevList, bus: Bus, user: Reg, s: Services)
    requires NoDup(l) && user.size < U64_LIMIT && s.copyIn && s.copyOut
    requires DevOf(user.addr) in bus && bus[DevOf(user.addr)].hasP2p
    requires Registered(l, DevOf(user.addr))
    requires l[Find(l, DevOf(user.addr))].size < 0x8000_0000
    ensures var r := Ioctl(l, bus, POP_P2PMEM_REG, user, s);
            r.ret == 0 && r.list == l && r.user.size == l[Find(l, DevOf(user.addr))].size
  {
  }

  /** A register that fails for lack of memory is reported as success: the
      ioctl returns 0, and neither the list nor the caller's size changes. */
  lemma FailedRegisterReportsSuccess(l: DevList, bus: Bus, user: Reg, s: Services)
    requires NoDup(l) && user.size < U64_LIMIT && s.copyIn && !s.p2pAlloc
    requires DevOf(user.addr) in bus && bus[DevOf(user.addr)].hasP2p
    requires !Registered(l, DevOf(user.addr))
    ensures Ioctl(l, bus, POP_P2PMEM_REG, user, s) == IoctlOutcome(0, l, user)
  {
  }

  /** A REG whose `copy_to_user` fails reports -EFAULT, yet the device stays
      registered, and the caller's struct keeps the size it asked for. */
  lemma FailedCopyOutKeepsRegistration(l: DevList, bus: Bus, user: Reg, s: Services)
    requires NoDup(l) && user.size < U64_LIMIT
    requires s.copyIn && s.p2pAlloc && s.kmalloc && s.miscRegister && !s.copyOut
    requires DevOf(user.addr) in bus && bus[DevOf(user.addr)].hasP2p
    requires !Registered(l, DevOf(user.addr))
    requires user.size < 0x8000_0000 && (user.size == 0 ==> bus[DevOf(user.addr)].pool.NoPool?)
    ensures var r := Ioctl(l, bus, POP_P2PMEM_REG, user, s);
            r.ret == -EFAULT && r.user == user
            && r.list == l + [PopDev(DevOf(user.addr), DevName(DevOf(user.addr)), user.size, 0)]
  {
  }

  /** A pool of 2 GiB or more does not fit the `int` that carries the size:
      the device is registered, but the ioctl looks like the failed case and
      the caller's size is left as it was. */
  lemma LargePoolSizeIsLost(l: DevList, bus: Bus, user: Reg, s: Services)
    requires NoDup(l) && s.copyIn && s.p2pAlloc && s.kmalloc && s.miscRegister
    requires user.size == 0x8000_0000
    requires DevOf(user.addr) in bus && bus[DevOf(user.addr)].hasP2p
    requires !Registered(l, DevOf(user.addr))
    ensures var r := Ioctl(l, bus, POP_P2PMEM_REG, user, s);
            r.ret == 0 && r.user == user && |r.list| == |l| + 1
            && r.list[|l|].size == 0x8000_0000
  {
    assert I32(0x8000_0000) == -0x8000_0000;
  }

  /** Opening a file and releasing it leaves every open count as it was. */
  lemma OpenReleaseRoundTrip(l: DevList, bus: Bus, name: string)
    requires DevOpen(l, bus, name).ret == 0
    ensures var o := DevOpen(l, bus, name);
            o.handle.Dev? && Registered(o.list, o.handle.pdev)
            && DevRelease(o.list, o.handle).list == l
  {
    var o := DevOpen(l, bus, name);
    var i := Find(l, o.handle.pdev);
    assert Find(o.list, o.handle.pdev) == i by {
      FindUnchangedByUpdate(l, i, o.list[i], o.handle.pdev);
    }
  }

  /** Updating an entry without changing its device does not move `Find`. */
  lemma FindUnchangedByUpdate(l: DevList, i: nat, e: PopDev, pdev: PciDev)
    requires i < |l| && e.pdev == l[i].pdev
    ensures Find(l[i := e], pdev) == Find(l, pdev)
  {
    var m := l[i := e];
    var j := Find(l, pdev);
    var k := Find(m, pdev);
    if j < |l| {
      assert m[j].pdev == pdev;
    }
    if k < |m| {
      assert l[k].pdev == pdev;
    }
  }

  /** After a successful REG of an address whose slot and function fit
      their fields, the file libpop opens for it, named by that address,
      opens. */
  lemma RegisteredNameOpens(l: DevList, bus: Bus, user: Reg, s: Services)
    requires NoDup(l) && user.size < U64_LIMIT && user.addr.slot < 32 && user.addr.func < 8
    requires Fits(user.addr)
    requires s.copyIn && DevOf(user.addr) in bus && bus[DevOf(user.addr)].hasP2p
    requires Registered(Ioctl(l, bus, POP_P2PMEM_REG, user, s).list, DevOf(user.addr))
    ensures DevOpen(Ioctl(l, bus, POP_P2PMEM_REG, user, s).list, bus, SlotName(user.addr)).ret == 0
  {
    SlotNameRoundTrip(user.addr);
  }

  /** The bounds check accepts a mapping of the whole p2pmem from offset 0
      and rejects one a byte longer. */
  lemma MmapWholeRegion(l: DevList, h: Handle, stale: nat)
    requires h.Dev? && Registered(l, h.pdev)
    requires l[Find(l, h.pdev)].size + 1 < U64_LIMIT
    ensures DevMmap(l, h, 0, l[Find(l, h.pdev)].size, stale) == 0
    ensures DevMmap(l, h, 0, l[Find(l, h.pdev)].size + 1, stale) == -ENOMEM
  {
  }

  /** UNREG does not look at the open count: with a file open on a device
      (so its count is positive when no count was negative before), UNREG
      of that device still succeeds and frees the entry, leaving the file
      dangling. Releasing it then changes no listed entry, and mapping it
      is checked against whatever size the freed memory holds. */
  lemma UnregisterWhileOpen(l: DevList, bus: Bus, name: string, user: Reg, s: Services,
                            pgoff: nat, len: nat, stale: nat)
    requires NoDup(l) && user.size < U64_LIMIT && s.copyIn
    requires forall k :: 0 <= k < |l| ==> l[k].refcnt >= 0
    requires DevOpen(l, bus, name).ret == 0
    requires DevOf(user.addr) == DevOpen(l, bus, name).handle.pdev
    requires pgoff < U64_LIMIT && len < U64_LIMIT
    ensures var o := DevOpen(l, bus, name);
            NoDup(o.list) && Registered(o.list, o.handle.pdev)
            && o.list[Find(o.list, o.handle.pdev)].refcnt > 0
    ensures var o := DevOpen(l, bus, name);
            var u := Ioctl(o.list, bus, POP_P2PMEM_UNREG, user, s);
            u.ret == 0 && Dangling(u.list, o.handle) && |u.list| == |l| - 1
            && DevRelease(u.list, o.handle) == OpenOutcome(0, u.list, NoDev)
            && (DevMmap(u.list, o.handle, pgoff, len, stale) == 0 <==>
                  U64(U64(pgoff * PAGE_SIZE) + len) <= stale)
  {
    var o := DevOpen(l, bus, name);
    var i := Find(l, o.handle.pdev);
    FindUnchangedByUpdate(l, i, o.list[i], o.handle.pdev);
    assert NoDup(o.list) by {
      forall p, q | 0 <= p < q < |o.list|
        ensures o.list[p].pdev != o.list[q].pdev
      {
        assert o.list[p].pdev == l[p].pdev && o.list[q].pdev == l[q].pdev;
      }
    }
  }
}
