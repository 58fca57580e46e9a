/** What the two kernel modules (kmod/boogiepop.c and kmod/pop.c) share: the
    PCI bus as the kernel presents it, and the list of registered devices
    (`pop.dev_list`). The bus is an oracle: which functions exist, whether
    they publish p2pmem and how large their p2pmem pool is. */
module P2pRegistry {
  import opened Machine
  import opened PciName

  /** `POP_P2PMEM_REG` and `POP_P2PMEM_UNREG`: `_IOW('i', n, struct
      pop_p2pmem_reg)` with a 24-byte argument (include/libpop.h:25-26). */
  const POP_P2PMEM_REG: nat := 0x4018_6901
  const POP_P2PMEM_UNREG: nat := 0x4018_6902

  /** A PCI function as the kernel identifies it. */
  datatype PciDev = PciDev(domain: nat, bus: nat, devfn: nat)

  /** `PCI_DEVFN(slot, func)`: five bits of slot, three of function. */
  function Devfn(slot: nat, func: nat): (r: nat)
    ensures r < 256
  {
    (slot % 32) * 8 + func % 8
  }

  /** `PCI_SLOT(devfn)` and `PCI_FUNC(devfn)` */
  function SlotOf(devfn: nat): nat { devfn / 8 % 32 }
  function FuncOf(devfn: nat): nat { devfn % 8 }

  /** `pci_name`: the device's address as `%04x:%02x:%02x.%d`, which for a
      function number below 8 is the same text as `%x`. */
  function PciNameOf(d: PciDev): string
  {
    SlotName(PciAddr(d.domain, d.bus, SlotOf(d.devfn), FuncOf(d.devfn)))
  }

  /** A p2pmem pool exists, with its size, or not. */
  datatype Pool = NoPool | Pool(size: nat)

  /** What the kernel knows about a PCI function: `pci_has_p2pmem` and the
      size of its p2pdma pool. */
  datatype DevInfo = DevInfo(hasP2p: bool, pool: Pool)

  type Bus = map<PciDev, DevInfo>

  /** The key `pci_get_domain_bus_and_slot` looks up for a register request. */
  function DevOf(a: PciAddr): PciDev
  {
    PciDev(a.domain, a.bus, Devfn(a.slot, a.func))
  }

  /** `struct pop_dev`: the device, its misc device name, the p2pmem size and
      the number of open files. */
  datatype PopDev = PopDev(pdev: PciDev, devname: string, size: nat, refcnt: int)

  type DevList = seq<PopDev>

  /** Each PCI function is registered at most once. */
  predicate NoDup(l: DevList)
  {
    forall i, j :: 0 <= i < j < |l| ==> l[i].pdev != l[j].pdev
  }

  /** `pop_find_dev`: the index of the first entry for `pdev`, or `|l|`. */
  function Find(l: DevList, pdev: PciDev): (r: nat)
    ensures r <= |l|
    ensures r < |l| ==> l[r].pdev == pdev
    ensures forall i :: 0 <= i < r ==> l[i].pdev != pdev
  {
    if l == [] then 0
    else if l[0].pdev == pdev then 0
    else 1 + Find(l[1..], pdev)
  }

  predicate Registered(l: DevList, pdev: PciDev)
  {
    Find(l, pdev) < |l|
  }

  /** `list_del` of the entry at index `i`. */
  function Remove(l: DevList, i: nat): (r: DevList)
    requires i < |l|
    ensures |r| == |l| - 1
    ensures forall k :: 0 <= k < i ==> r[k] == l[k]
    ensures forall k :: i <= k < |r| ==> r[k] == l[k + 1]
  {
    l[..i] + l[i + 1..]
  }

  /** Adding a device that is not yet listed keeps the list duplicate-free. */
  lemma AppendKeepsNoDup(l: DevList, e: PopDev)
    requires NoDup(l) && !Registered(l, e.pdev)
    ensures NoDup(l + [e])
  {
  }

  /** Removing an entry keeps the list duplicate-free, and afterwards the
      removed device is no longer found. */
  lemma RemoveKeepsNoDup(l: DevList, i: nat)
    requires NoDup(l) && i < |l|
    ensures NoDup(Remove(l, i))
    ensures !Registered(Remove(l, i), l[i].pdev)
  {
    var r := Remove(l, i);
    var k := Find(r, l[i].pdev);
  }

  /** Appending a new device and removing it again restores the list. */
  lemma AppendRemoveRoundTrip(l: DevList, e: PopDev)
    requires !Registered(l, e.pdev)
    ensures Find(l + [e], e.pdev) == |l|
    ensures Remove(l + [e], |l|) == l
  {
    assert (l + [e])[..|l|] == l;
  }

  /** Finding a device in a list with one more entry at the end. */
  lemma FindInAppended(l: DevList, e: PopDev, pdev: PciDev)
    requires Registered(l, pdev)
    ensures Find(l + [e], pdev) == Find(l, pdev)
  {
    var j := Find(l, pdev);
    assert (l + [e])[j] == l[j];
  }

  /** A PCI address whose slot and function fit their fields names the
      device it selects: `pci_name` of the device looked up for `a` is the
      name libpop formats for `a`. */
  lemma DevOfNamesAddress(a: PciAddr)
    requires a.slot < 32 && a.func < 8
    ensures PciNameOf(DevOf(a)) == SlotName(a)
  {
    DevfnFields(a.slot, a.func);
    var d := DevOf(a);
    assert PciAddr(d.domain, d.bus, SlotOf(d.devfn), FuncOf(d.devfn)) == a;
  }

  /** `PCI_SLOT` and `PCI_FUNC` undo `PCI_DEVFN` for fields that fit. */
  lemma DevfnFields(slot: nat, func: nat)
    requires slot < 32 && func < 8
    ensures SlotOf(Devfn(slot, func)) == slot && FuncOf(Devfn(slot, func)) == func
  {
    var d := Devfn(slot, func);
    assert d == slot * 8 + func;
    DivModUnique(d, slot, func, 8);
    assert d / 8 == slot;
  }
}
