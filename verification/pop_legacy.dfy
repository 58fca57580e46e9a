/** The earlier kernel module, kmod/pop.c: the same list of registered
    devices, but the size is validated before any lookup, a second
    registration of a device is an error, the misc device is named without
    the PCI domain, and success is reported as 0 rather than as a size. */
module PopLegacy {
  import opened Machine
  import opened PciName
  import opened P2pRegistry
  import Boogiepop

  /** `"pop/%02x:%02x.%x"` of bus number, slot and function. */
  function DevName(pdev: PciDev): string
  {
    Truncate("pop/" + ShortSlotName(pdev.bus, SlotOf(pdev.devfn), FuncOf(pdev.devfn)),
             Boogiepop.DEVNAMELEN - 1)
  }

  datatype RegOutcome = RegOutcome(ret: int, list: DevList)

  /** `pop_register_p2pmem` (kmod/pop.c:56-114). */
  function RegisterP2pmem(l: DevList, pdev: PciDev, size: nat, s: Boogiepop.Services)
    : (r: RegOutcome)
    ensures r.ret != 0 ==> r.list == l
    ensures Registered(l, pdev) ==> r == RegOutcome(-EINVAL, l)
    ensures r.ret == 0 <==>
              !Registered(l, pdev) && s.p2pAlloc && s.kmalloc && s.miscRegister
    ensures r.ret == 0 ==> r.list == l + [PopDev(pdev, DevName(pdev), size, 0)]
    ensures r.ret == 0 || r.ret == -EINVAL || r.ret == -ENOMEM
  {
    if Registered(l, pdev) then RegOutcome(-EINVAL, l)
    else if !s.p2pAlloc || !s.kmalloc then RegOutcome(-ENOMEM, l)
    else if !s.miscRegister then RegOutcome(-EINVAL, l)
    else RegOutcome(0, l + [PopDev(pdev, DevName(pdev), size, 0)])
  }

  datatype IoctlOutcome = IoctlOutcome(ret: int, list: DevList)

  /** `pop_ioctl` (kmod/pop.c:138-215). The caller's structure is never
      written. */
  function Ioctl(l: DevList, bus: Bus, cmd: nat, user: Reg, s: Boogiepop.Services)
    : (r: IoctlOutcome)
    requires NoDup(l)
    ensures NoDup(r.list)
    ensures r.ret != 0 ==> r.list == l
    ensures cmd != POP_P2PMEM_REG && cmd != POP_P2PMEM_UNREG ==> r == IoctlOutcome(-EINVAL, l)
    ensures !s.copyIn && (cmd == POP_P2PMEM_REG || cmd == POP_P2PMEM_UNREG) ==>
              r == IoctlOutcome(-EFAULT, l)
    // REG
    ensures cmd == POP_P2PMEM_REG && s.copyIn && (user.size < PAGE_SIZE || user.size % PAGE_SIZE != 0) ==>
              r == IoctlOutcome(-EINVAL, l)
    ensures cmd == POP_P2PMEM_REG && r.ret == 0 ==>
              user.size >= PAGE_SIZE && user.size % PAGE_SIZE == 0
              && DevOf(user.addr) in bus && bus[DevOf(user.addr)].hasP2p
              && r.list == l + [PopDev(DevOf(user.addr), DevName(DevOf(user.addr)), user.size, 0)]
    ensures cmd == POP_P2PMEM_REG && s.copyIn && user.size >= PAGE_SIZE && user.size % PAGE_SIZE == 0 ==>
              (DevOf(user.addr) !in bus ==> r.ret == -ENODEV)
              && (DevOf(user.addr) in bus && !bus[DevOf(user.addr)].hasP2p ==> r.ret == -EINVAL)
              && (DevOf(user.addr) in bus && bus[DevOf(user.addr)].hasP2p ==>
                    r == IoctlOutcome(RegisterP2pmem(l, DevOf(user.addr), user.size, s).ret,
                                      RegisterP2pmem(l, DevOf(user.addr), user.size, s).list))
    // UNREG
    ensures cmd == POP_P2PMEM_UNREG && s.copyIn ==>
              (DevOf(user.addr) !in bus || !Registered(l, DevOf(user.addr)) ==> r.ret == -ENODEV)
              && (DevOf(user.addr) in bus && Registered(l, DevOf(user.addr)) ==>
                    r.ret == 0 && r.list == Remove(l, Find(l, DevOf(user.addr))))
  {
    if cmd == POP_P2PMEM_REG then
      if !s.copyIn then IoctlOutcome(-EFAULT, l)
      else if user.size < PAGE_SIZE || user.size % PAGE_SIZE != 0 then IoctlOutcome(-EINVAL, l)
      else
        var pdev := DevOf(user.addr);
        if pdev !in bus then IoctlOutcome(-ENODEV, l)
        else if !bus[pdev].hasP2p then IoctlOutcome(-EINVAL, l)
        else
          var reg := RegisterP2pmem(l, pdev, user.size, s);
          assert NoDup(reg.list) by {
            if reg.ret == 0 {
              AppendKeepsNoDup(l, reg.list[|l|]);
              assert reg.list == l + [reg.list[|l|]];
            }
          }
          IoctlOutcome(reg.ret, reg.list)
    else if cmd == POP_P2PMEM_UNREG then
      if !s.copyIn then IoctlOutcome(-EFAULT, l)
      else
        var pdev := DevOf(user.addr);
        if pdev !in bus then IoctlOutcome(-ENODEV, l)
        else
          var i := Find(l, pdev);
          if i == |l| then IoctlOutcome(-ENODEV, l)
          else
            RemoveKeepsNoDup(l, i);
            IoctlOutcome(0, Remove(l, i))
    else IoctlOutcome(-EINVAL, l)
  }

  /** A bad size is refused before the bus is consulted: the answer is the
      same whichever devices exist. */
  lemma SizeCheckedBeforeLookup(l: DevList, bus1: Bus, bus2: Bus, user: Reg, s: Boogiepop.Services)
    requires NoDup(l) && s.copyIn && (user.size < PAGE_SIZE || user.size % PAGE_SIZE != 0)
    ensures Ioctl(l, bus1, POP_P2PMEM_REG, user, s) == Ioctl(l, bus2, POP_P2PMEM_REG, user, s)
    ensures Ioctl(l, bus1, POP_P2PMEM_REG, user, s).ret == -EINVAL
  {
  }

  /** A successful REG followed by UNREG of the same address restores the
      list. */
  lemma RegisterThenUnregister(l: DevList, bus: Bus, user: Reg, s: Boogiepop.Services)
    requires NoDup(l) && Ioctl(l, bus, POP_P2PMEM_REG, user, s).ret == 0
    requires s.copyIn
    ensures Ioctl(Ioctl(l, bus, POP_P2PMEM_REG, user, s).list, bus, POP_P2PMEM_UNREG, user, s)
            == IoctlOutcome(0, l)
  {
    var pdev := DevOf(user.addr);
    var e := PopDev(pdev, DevName(pdev), user.size, 0);
    AppendRemoveRoundTrip(l, e);
  }

  /** The two versions disagree on a second registration of the same
      device: the earlier one refuses it with -EINVAL, boogiepop accepts it
      and answers with the size registered first. Neither changes the list. */
  lemma SecondRegistrationDiffers(l: DevList, bus: Bus, first: Reg, second: Reg, s: Boogiepop.Services)
    requires NoDup(l) && !Registered(l, DevOf(first.addr)) && first.addr == second.addr
    requires s.copyIn && s.p2pAlloc && s.kmalloc && s.miscRegister && s.copyOut
    requires DevOf(first.addr) in bus && bus[DevOf(first.addr)].hasP2p
    requires PAGE_SIZE <= first.size < 0x8000_0000 && first.size % PAGE_SIZE == 0
    requires second.size < U64_LIMIT
    ensures var old1 := Ioctl(l, bus, POP_P2PMEM_REG, first, s);
            old1.ret == 0
            && Ioctl(old1.list, bus, POP_P2PMEM_REG, second, s) == IoctlOutcome(-EINVAL, old1.list)
    ensures var new1 := Boogiepop.Ioctl(l, bus, POP_P2PMEM_REG, first, s);
            var new2 := Boogiepop.Ioctl(new1.list, bus, POP_P2PMEM_REG, second, s);
            new1.ret == 0 && new2.ret == 0 && new2.list == new1.list && new2.user.size == first.size
  {
    var pdev := DevOf(first.addr);
    var l1 := Ioctl(l, bus, POP_P2PMEM_REG, first, s).list;
    assert l1 == l + [PopDev(pdev, DevName(pdev), first.size, 0)];
    AppendRemoveRoundTrip(l, PopDev(pdev, DevName(pdev), first.size, 0));
    assert Registered(l1, pdev);
    var b1 := Boogiepop.Ioctl(l, bus, POP_P2PMEM_REG, first, s).list;
    var e := PopDev(pdev, Boogiepop.DevName(pdev), first.size, 0);
    assert b1 == l + [e];
    AppendRemoveRoundTrip(l, e);
  }
}
