# libpop in Dafny

libpop lets a network interface (through netmap) and an NVMe drive
(through UNVMe) share one region of DMA-capable memory without copies. The
region is either a PCI device's p2pmem window or hugepages. This project
models the sequential, integer-only logic of the library, its kernel
module and the applications built on it, and proves properties of that
logic:

- **The libpop context and buffers** (`lib/libpop.c`).
  - `pop_ctx_init` checks the size and parses a `D:B:S.F` or `B:S.F` PCI
    slot string. It registers the device with the kernel module through
    `/dev/pop/pop`, then maps the device file.
  - `pop_ctx_exit` withdraws the registration.
  - `pop_buf_alloc` is a bump allocator over the mapped pages, and
    `pop_buf_free` never returns pages.
  - `pop_buf_put`, `trim`, `pull`, `push`, `data`, `len` and `paddr` adjust
    an (offset, length) data window in the style of an sk_buff.
  - `virt_to_phys` turns a pagemap entry into a physical address.
- **PCI slot names.** These are the `%04x:%02x:%02x.%x` names libpop
  formats. The kernel module scans them back with `sscanf("%x:%x:%x.%x")`.
  `%x` is modelled in both implementations involved:
  - both skip leading white space (the kernel also counts 0xA0) and take a
    `0x` prefix;
  - glibc also takes a sign and saturates at `ULONG_MAX`, while the kernel
    wraps;
  - fields are stored as 32-bit values.
  The path libpop opens is cut to the 32 bytes of `popdev`.
- **The kernel modules.** `kmod/boogiepop.c` keeps the list of registered
  devices. It serves the REG and UNREG ioctls, and open, release and the
  mmap bounds check on `/dev/pop/<pci_name>`. `kmod/pop.c` is its earlier
  version, and the two differ on a second registration.
- **The netmap driver** (`lib/pop_netmap.c`). It posts libpop buffers, by
  physical address, into the RX or TX slots of a queue. It also primes the
  RX rings at init and closes the rings at exit.
- **nvgen** (`apps/nvgen.c`). A 256-slot bridge ring couples an NVMe reader
  thread and a netmap sender thread. The model covers:
  - the ring helpers;
  - one reader step and one sender step;
  - `next_lba`;
  - the split of the LBA range between threads;
  - the option checks.
- **bench-nvme** (`apps/bench-nvme.c`): the elapsed-time arithmetic, the
  block count of one I/O, the LBAs of a batch, the completion counters and
  the option checks.
- **nmgen** (`apps/nmgen.c`). The Internet checksum of RFC 1071 section 1
  and the Ethernet, IPv4 and UDP header of its packets. The IPv4 checksum
  follows RFC 791 section 3.1 and the UDP header follows RFC 768. Also
  one iteration of its transmit loop.
- **store** (`apps/store.c` and `apps/pkt_desc.h`): packets laid out in
  2048-byte slots with a 4-byte length trailer, the option checks, and the
  write loop's block count and LBA stepping.

System calls, kernel services, `rand()`, the clock, netmap syncs and UNVMe
completions are not executed. Their answers are parameters of the model
functions (oracles). For the context code, the calls made are recorded in
a trace, so that contracts can say what was asked of the kernel. C's
fixed-width integers are modelled as `nat`/`int` with every wrap written
out: `U16`, `U32` and `U64` reduce modulo 2^16, 2^32 and 2^64, and `I32`
reinterprets a 32-bit value as two's complement. This covers the bridge
ring's `uint32_t` cursors, `size_t` arithmetic and `int` results.

Several quirks of the code are modelled as written and exposed by lemmas,
not repaired:

- `ring_write_avail` answers 256 on an empty ring. When `tail` is ahead of
  `head` it answers one slot more than is free, so the reader can move
  `head` onto `tail` and the ring then looks empty.
- `ring_read_avail` tests an unsigned difference for `< 0`.
- `pop_buf_len` returns `length - offset`.
- The `size_t` bound test of `pop_buf_put` can wrap.
- boogiepop reports a failed registration as success.
- boogiepop loses a pool size of 2 GiB or more in its `int` result.

## Model

Some model functions carry only a range bound in their own contract, for example `Frame.Encode`, `InetChecksum.Checksum` and `Nmgen.Step`. What they compute is stated by the lemmas in the rows below, which name them.

| member | source | states |
|---|---|---|
| PopBuf.Put | lib/libpop.c:229-241 | takes any buffer with 64-bit fields; refused exactly when the 64-bit sum `offset + length + len` exceeds the size; when nothing wraps, that is the plain bound, and success grows the window by `len` at the tail, keeps a valid window valid, and keeps offset, size and addresses |
| PopBuf.Trim | lib/libpop.c:243-255 | takes any buffer with 64-bit fields; refused exactly when `len` exceeds the window length; otherwise only the length shrinks by `len`, a valid window stays valid, and the result is the new data pointer |
| PopBuf.Pull | lib/libpop.c:257-270 | takes any buffer with 64-bit fields; refused exactly when `len` exceeds the window length; otherwise the offset advances by `len` modulo 2^64, the window's end stays put unless the offset wraps, and a valid window stays valid |
| PopBuf.Push | lib/libpop.c:272-285 | takes any buffer with 64-bit fields; refused exactly when `len` exceeds the offset; otherwise the offset moves back by `len`, the length grows by `len` modulo 2^64, the window's end stays put unless the length wraps, and a valid window stays valid |
| PopBuf.Len | lib/libpop.c:287-290 | takes any buffer with 64-bit fields; the result is `length - offset` when offset is not larger, and wraps to `2^64 - (offset - length)` otherwise |
| PopBuf.PullPushRoundTrip | lib/libpop.c:257-285 | pulling `k` bytes and pushing them back restores the buffer exactly |
| PopBuf.PutTrimRoundTrip | lib/libpop.c:229-255 | putting `k` bytes that fit and trimming them restores the buffer, and put does not move the offset |
| PopBuf.DataAndPaddrInLockstep | lib/libpop.c:224-310 | for any buffer with 64-bit fields, whichever of put, trim, pull and push succeeds with the same `k`, the buffer keeps its virtual and physical base, and `pop_buf_data` and `pop_buf_paddr` move by the same amount and stay the same distance from their bases |
| PopBuf.FreshBufferFillsExactly | lib/libpop.c:229-241 | a fresh buffer of size S accepts `put(S)`, and then refuses `put(1)` |
| PopBuf.LenIsNotWindowLength | lib/libpop.c:287-290 | after pulling `k` bytes from offset 0 the window holds `length - k` bytes, but `pop_buf_len` reports `length - 2k`, which wraps once `2k > length` |
| PopBuf.PutWrapBreaksWindow | lib/libpop.c:229-241 | a `len` near 2^64 passes the wrapped bound test and leaves a window that runs past the end of the allocation, for which `pop_buf_len` reports `2^64 - 15` bytes of a 4096-byte buffer |
| Arena.CtxInit | lib/libpop.c:52-138 | a size that is not a positive page multiple fails, leaving the context and the kernel untouched; success needs the mapping and, for a device, an accepted slot name, open, REG and device open; it gives `size / 4096` pages, none handed out, and the exact call sequence |
| Arena.DeviceInit | lib/libpop.c:79-125 | a rejected slot name is EINVAL with no call made; the calls start with the open of /dev/pop/pop and REG for the parsed address; success closes that descriptor, then opens and maps the device file of that address |
| Arena.OpenAndMap | lib/libpop.c:118-137 | succeeds exactly when the device file opens and the shared mapping succeeds; the calls already made are kept as a prefix |
| Arena.MapArena | lib/libpop.c:128-137 | mmap of the whole size is always issued; a failure returns -1, records `MAP_FAILED` and closes the descriptor when there is one |
| Arena.CtxExit | lib/libpop.c:141-175 | a hugepage context does nothing and returns 0; a device context opens /dev/pop/pop and issues UNREG for its own registration, then closes its device file and returns that close's result; either failure returns -1; the descriptor opened on /dev/pop/pop is never closed |
| Arena.VirtToPhys | lib/libpop.c:313-350 | any pagemap failure (open, seek, short read or zero entry) yields 0 |
| Arena.PageOffsetSurvivesWrap | lib/libpop.c:329-345 | a physical address made of a frame and the virtual address's page offset keeps that offset, also after the 64-bit wrap |
| Arena.VirtToPhysHit | lib/libpop.c:329-345 | on a hit the result is the 55-bit frame number times the page size plus the offset inside the page, and that offset survives the 64-bit wrap |
| Arena.BufAlloc | lib/libpop.c:180-215 | a size that is not a page multiple fails; too few free pages fail with ENOBUFS; failures leave the context unchanged; success hands out the next page-aligned address with an empty window and adds the pages to the count, so the count stays within the mapped pages |
| Arena.BufFree | lib/libpop.c:217-222 | freeing a buffer gives no pages back to the context |
| Arena.AllocFits | lib/libpop.c:187-212 | a page-multiple request that fits the free pages succeeds, at the first unallocated page, and ends at the new first unallocated page inside the mapping |
| Arena.AllocationsAreContiguous | lib/libpop.c:205-212 | two successive allocations are adjacent, disjoint and inside the mapping |
| Arena.FreeDoesNotReusePages | lib/libpop.c:217-222 | after a free, the next allocation still starts after the freed buffer |
| Arena.ExhaustedArenaRefuses | lib/libpop.c:192-196 | once every page is handed out, every page-multiple request fails with ENOBUFS |
| Arena.AllocAll | lib/libpop.c:180-215 | a run of requests that fit yields buffers of the requested sizes, in address order, pairwise disjoint and inside the mapping, and the context counts exactly their pages |
| Arena.InitOpensKernelDeviceFile | lib/libpop.c:114-125 | a context initialised from a formatted slot name registers that address and opens "/dev/pop/<name>" cut to the 31 characters `popdev` holds, which is the kernel module's file whenever the name has at most 22 characters |
| Arena.ExitUndoesInit | lib/libpop.c:141-175 | exit unregisters the same PCI address init registered and closes the descriptor init mapped |
| Arena.FailedInitKeepsRegistration | lib/libpop.c:104-125 | when the device file does not open after a successful REG, init fails without ever asking to unregister |
| Arena.DeviceOpenFails | lib/libpop.c:104-125 | when the device file does not open, init returns -1 after opening /dev/pop/pop, registering, closing it and trying the device file |
| Arena.OnePageArena | lib/libpop.c:187-212 | an arena of one page serves one page-sized buffer at its base, and the next request fails with ENOBUFS |
| PciName.ParsePciSlot | lib/libpop.c:81-95 | accepted exactly when the four-field scan converts four fields or the three-field scan converts three; four fields are kept as scanned; otherwise the domain is 0; every stored field is a 32-bit value |
| PciName.ParseDevName | kmod/boogiepop.c:90-96 | a name is a device address exactly when all four `%x` fields convert, and the address is made of 32-bit values |
| PciName.SlotNameRoundTrip | lib/libpop.c:114-116 | the kernel scans every `%04x:%02x:%02x.%x` name of an address with 32-bit fields back to that address |
| PciName.ScanFormatted | kmod/boogiepop.c:90-96 | a `%x` conversion reads a formatted 32-bit field back as its value when neither a digit nor an `x` follows, and the scan goes on after it |
| PciName.SlotNameScans | lib/libpop.c:114-116 | in either implementation, the four-field scan of a formatted name stores the four fields it was formatted from |
| PciName.HexFieldSpaced | lib/libpop.c:81-83 | in either implementation, `%x` skips a leading blank and reads the digits after it |
| PciName.HexFieldPrefixed | lib/libpop.c:81-83 | in either implementation, `%x` takes a `0x` prefix before the digits |
| PciName.BarePrefixReadsZero | lib/libpop.c:81-83 | a `0x` with no digit after it is consumed and stores 0 |
| PciName.HexFieldSigned | lib/libpop.c:81-83 | glibc's `%x` takes a `-` and stores the value negated modulo 2^32; the kernel's `%x` stops at the sign and converts nothing |
| PciName.SlotNameSpellings | lib/libpop.c:81-95 | a slot name with a leading blank or a `0x` prefix is accepted by `pop_ctx_init` as the same address, and `pop_dev_open` reads the same address from it |
| PciName.NegatedSlotName | lib/libpop.c:81-95 | `-D:B:S.F` is accepted by `pop_ctx_init` with the domain negated modulo 2^32, and refused by `pop_dev_open` |
| PciName.DevicePathTruncation | lib/libpop.c:114-116 | the path opened is the kernel module's file exactly when the slot name has at most 22 characters; an address whose fields fit the printed widths has a 12-character name, and four fields of 2^28 or more give a cut path |
| PciName.ShortNameScans | lib/libpop.c:81-95 | a `B:S.F` name gives two fields to the four-field format and all three to the three-field format |
| PciName.ShortNameStopsFourFieldScan | lib/libpop.c:81-95 | in a `B:S.F` name the four-field format's third `:` meets the `.`, so its scan stops after the slot |
| PciName.FourFieldSlotAccepted | lib/libpop.c:81-95 | a full `D:B:S.F` name is accepted with every field as written |
| PciName.ThreeFieldSlotAccepted | lib/libpop.c:81-95 | a `B:S.F` name stops the four-field scan after two fields and is accepted by the three-field scan with domain 0 |
| PciName.AcceptedSlotHasSeparators | lib/libpop.c:81-95 | every accepted slot string contains a ':' and a '.', so an empty or bare-number string is EINVAL |
| PciName.ToHexValue | lib/libpop.c:114-116 | the hexadecimal digits printed for a number read back as that number |
| PciName.FormatHexValue | lib/libpop.c:114-116 | zero padding to a field width does not change the value read back |
| P2pRegistry.Find | kmod/boogiepop.c:54-64 | the result is the first entry for the device, or the list's length when there is none |
| P2pRegistry.Remove | kmod/boogiepop.c:261-270 | removal drops exactly the one entry and keeps the order of the others |
| P2pRegistry.AppendKeepsNoDup | kmod/boogiepop.c:212-254 | appending a device that is not listed keeps every device listed at most once |
| P2pRegistry.FindInAppended | kmod/boogiepop.c:54-64 | appending an entry does not change where an already listed device is found |
| P2pRegistry.RemoveKeepsNoDup | kmod/boogiepop.c:261-270 | removing an entry keeps every device listed at most once, and the removed device is no longer found |
| P2pRegistry.AppendRemoveRoundTrip | kmod/boogiepop.c:254-266 | appending a new device and removing it again restores the list |
| P2pRegistry.DevOfNamesAddress | kmod/boogiepop.c:67-81 | the device looked up for an address whose slot and function fit their fields has that address as its `pci_name` |
| P2pRegistry.Devfn | kmod/boogiepop.c:297-299 | the packed device-and-function number fits in one byte |
| P2pRegistry.DevfnFields | kmod/boogiepop.c:297-299 | `PCI_SLOT` and `PCI_FUNC` recover the slot and function packed by `PCI_DEVFN` |
| Boogiepop.RegisterP2pmem | kmod/boogiepop.c:201-259 | a listed device answers with its existing size and no change; an allocation failure is -ENOMEM and a misc registration failure -EINVAL, both with no change; success appends one entry named `pop/<pci_name>` with the granted size (the whole pool for 0) and refcount 0 |
| Boogiepop.UnregisterP2pmem | kmod/boogiepop.c:261-270 | the device leaves the list and every other registered device stays registered |
| Boogiepop.Ioctl | kmod/boogiepop.c:283-362 | an unknown command is -EINVAL; a failed copy-in is -EFAULT; an unknown device is -ENODEV; REG without p2pmem is -EINVAL; REG copies the granted size back, and when that copy fails it returns -EFAULT, keeps the registration and leaves the caller's struct as it was; UNREG of an unregistered device is -ENODEV and otherwise removes it; the list never holds a device twice |
| Boogiepop.DevOpen | kmod/boogiepop.c:84-110 | open succeeds exactly when the name scans as four fields and names a registered device, and success raises that device's refcount by one; failure is -EINVAL with no change |
| Boogiepop.DevRelease | kmod/boogiepop.c:112-119 | release returns 0 and clears the handle; for a registered device it lowers that device's refcount by one and changes nothing else, and for a device unregistered while the file was open it changes no listed entry |
| Boogiepop.DevMmap | kmod/boogiepop.c:171-192 | a file with no device is -EINVAL; otherwise the mapping is accepted exactly when the 64-bit end `pgoff * 4096 + len` is within the registered p2pmem size (or, for a dangling file, the size left in freed memory), else -ENOMEM |
| Boogiepop.RegisterThenUnregister | kmod/boogiepop.c:283-362 | a first REG adds one entry and reports its size, and UNREG of the same address restores the original list |
| Boogiepop.DuplicateRegisterReturnsExistingSize | kmod/boogiepop.c:212-215 | REG of a registered device returns 0, leaves the list alone and copies back the size registered first |
| Boogiepop.FailedCopyOutKeepsRegistration | kmod/boogiepop.c:313-322 | a REG whose `copy_to_user` fails returns -EFAULT, yet the device is appended to the list and the caller's size is not updated |
| Boogiepop.FailedRegisterReportsSuccess | kmod/boogiepop.c:283-316 | a REG whose p2pmem allocation fails still returns 0, with the list and the caller's size unchanged |
| Boogiepop.LargePoolSizeIsLost | kmod/boogiepop.c:201-259 | a 2 GiB registration is added to the list, but its size turns negative in the `int` result, so the caller's size is not updated |
| Boogiepop.OpenReleaseRoundTrip | kmod/boogiepop.c:84-119 | opening a file and releasing it restores every refcount |
| Boogiepop.RegisteredNameOpens | kmod/boogiepop.c:84-110 | after a REG, the name libpop formats for that address opens |
| Boogiepop.MmapWholeRegion | kmod/boogiepop.c:183-191 | mapping the whole p2pmem from offset 0 is accepted, and one byte more is refused |
| Boogiepop.UnregisterWhileOpen | kmod/boogiepop.c:327-351 | UNREG, which frees the entry through `pop_unregister_p2pmem` (kmod/boogiepop.c:261-270) without looking at its open count, succeeds on a device a file has open with a positive count and leaves the file dangling; its release then touches no listed entry and its mmap is checked against the size in freed memory |
| PopLegacy.RegisterP2pmem | kmod/pop.c:56-114 | a second registration is -EINVAL; success needs every allocation and appends one entry named `pop/%02x:%02x.%x` with the requested size; any failure leaves the list unchanged |
| PopLegacy.Ioctl | kmod/pop.c:138-215 | a size below 4096 or not a page multiple is -EINVAL; a successful REG appends the device; UNREG of an unknown or unregistered device is -ENODEV and otherwise removes exactly that entry; an unknown command is -EINVAL |
| PopLegacy.SizeCheckedBeforeLookup | kmod/pop.c:153-157 | a bad size gets the same -EINVAL whatever devices the bus holds |
| PopLegacy.RegisterThenUnregister | kmod/pop.c:138-215 | a successful REG followed by UNREG of the same address restores the list |
| PopLegacy.SecondRegistrationDiffers | kmod/pop.c:65-70 | a second REG is refused by the earlier module and answered with the first size by boogiepop; neither changes the list |
| NetmapRing.Next | lib/pop_netmap.c:55-65 | the next slot index is `(i + 1) mod num_slots` |
| NetmapRing.Space | lib/pop_netmap.c:55 | the free space is below `num_slots` and is zero exactly when `cur == tail` |
| NetmapRing.Describe | lib/pop_netmap.c:57-63 | a filled slot gets a 16-bit length and a 64-bit pointer, gains `NS_PHY_INDIRECT` and keeps its other flags |
| NetmapRing.Post | lib/pop_netmap.c:57-65 | posting keeps the ring valid and leaves its size and `tail` alone |
| NetmapRing.PostSlots | lib/pop_netmap.c:57-65 | the slot `i` places after the old `cur` is described by the `i`-th buffer for `i` below the count, and every other slot is unchanged |
| NetmapRing.PostCursors | lib/pop_netmap.c:57-65 | `cur` ends one count on, and `head` follows it unless nothing was posted |
| NetmapRing.PostSpec | lib/pop_netmap.c:55-65 | posting `k` buffers fills the i-th slot after the old `cur` with the i-th buffer, leaves every other slot alone, and leaves `cur` and `head` `k` slots on |
| NetmapRing.PostConsumesSpace | lib/pop_netmap.c:55-65 | posting `k` buffers uses up exactly `k` slots of space, and empties the ring exactly when `k` was all of it |
| NetmapDriver.Budget | lib/pop_netmap.c:55 | the number of buffers posted is `min(space, nbufs)`; a negative `nbufs` compares as unsigned and uses the whole space |
| NetmapDriver.Transfer | lib/pop_netmap.c:50-65 | takes buffers with any window, as `pop_buf_len` does; an empty ring is left alone; otherwise the space shrinks by exactly the budget |
| NetmapDriver.TransferFillsSlots | lib/pop_netmap.c:57-65 | the i-th posted slot holds `pop_buf_len` and `pop_buf_paddr` of the i-th buffer, every other slot is unchanged, and `cur` moves one budget on with `head` following it |
| NetmapDriver.Read | lib/pop_netmap.c:36-74 | buffers with any window are accepted; a queue above the CPU count is -1 with errno -EINVAL; a negative queue indexes out of bounds; only the chosen RX ring changes; the sync is made exactly when that ring was not empty; success is 0 |
| NetmapDriver.Write | lib/pop_netmap.c:76-114 | as `Read` for the TX ring, but a successful sync returns the number of buffers posted and a failed one -1 |
| NetmapDriver.Poll | lib/pop_netmap.c:116-132 | a queue above the CPU count is -1 with errno -EINVAL, a negative one is out of bounds, and otherwise the answer is poll's |
| NetmapDriver.SuccessfulReturnValues | lib/pop_netmap.c:67-113 | a successful write reports exactly the slots it used, and a successful read reports 0 although it posted buffers |
| NetmapDriver.Init | lib/pop_netmap.c:134-194 | succeeds exactly when the allocations succeed, the CPU count is known and every ring opens; ring `i` is opened with id `i`, and its RX ring is synced once with `head == cur == num_slots - 1`; a failure stops at the first ring that does not open |
| NetmapDriver.OpenRings | lib/pop_netmap.c:150-183 | opens and primes the rings in order, stopping at the first failure, with exactly the calls for the rings before it |
| NetmapDriver.FirstFailure | lib/pop_netmap.c:150-183 | every ring before the result opened, and the ring at the result did not |
| NetmapDriver.Prime | lib/pop_netmap.c:174-181 | a primed RX ring has `head == cur` on the slot before 0, and keeps its slots and `tail` |
| NetmapDriver.FailureIsFirst | lib/pop_netmap.c:157-172 | once a ring fails to open, rings after it do not change which ring is reported first |
| NetmapDriver.Exit | lib/pop_netmap.c:196-215 | a driver of another type is -EINVAL with nothing closed; otherwise descriptors `0..ncpus-1` are closed in order |
| NetmapDriver.ExitClosesWhatInitOpened | lib/pop_netmap.c:134-215 | the rings exit closes are exactly the rings init opened, in the same order |
| BridgeRing.Init | apps/nvgen.c:120-125 | a fresh ring is valid, empty and not full |
| BridgeRing.WriteNext | apps/nvgen.c:137-141 | the next head is `(head + 1) mod 256` |
| BridgeRing.WriteNextBatch | apps/nvgen.c:143-147 | the head after a batch is `(head + batch) mod 256`, also when the 32-bit sum wraps |
| BridgeRing.ReadNext | apps/nvgen.c:148-152 | the next tail is `(tail + 1) mod 256` |
| BridgeRing.ReadAvailIntended | apps/nvgen.c:160-167 | the commented-out version counts the filled slots: `head - tail`, or `256 - (tail - head)` once `head` has wrapped |
| BridgeRing.ReadAvailAsWritten | apps/nvgen.c:155-158 | the macro's answer is the 32-bit difference `head - tail`; it equals the filled count exactly when `head >= tail`, and is at least 2^32 - 255 otherwise |
| BridgeRing.WriteAvailCases | apps/nvgen.c:170-181 | the answer is 256 when `head == tail`, `tail - head` when tail is ahead, `tail - head + 255` otherwise, and never above 256 |
| BridgeRing.WriteAvailOffByOne | apps/nvgen.c:170-181 | the answer is the free slot count when `tail < head`, and one more than that otherwise, the empty ring included |
| BridgeRing.NotEmptyAndFull | apps/nvgen.c:127-135 | no ring is both empty and full |
| BridgeRing.FullMeansNoneFree | apps/nvgen.c:127-135 | a ring is full exactly when 255 slots are filled and none is free |
| LbaWalk.NvgenWalk | apps/nvgen.c:57-59 | nvgen numbers SEQ 0, RANDOM 1 and SAME 2 |
| LbaWalk.BenchWalk | apps/bench-nvme.c:30-34 | bench-nvme numbers RANDOM 0, SEQ 1 and SAME 2 |
| LbaWalk.NextLba | apps/nvgen.c:316-337 | RANDOM divides by zero exactly when the 64-bit span `lba_end - lba_start - nblocks` is 0; SAME keeps the LBA; an unknown walk gives 0; results fit in 64 bits |
| LbaWalk.SeqWalk | apps/nvgen.c:322-326 | SEQ moves on by `nblocks` while `lba + 2 * nblocks < lba_end` and otherwise restarts at `lba_start`, so an I/O that starts in range stays in range |
| LbaWalk.RandomWalkInRange | apps/nvgen.c:327-330 | RANDOM lands in `[lba_start, lba_end - nblocks)` when the range holds more than `nblocks` blocks |
| LbaWalk.WalkNumbering | apps/bench-nvme.c:30-34 | the same walk number means SEQ in one program and RANDOM in the other, while SAME agrees |
| LbaWalk.ThreadRange | apps/nvgen.c:188-189 | thread `k` gets `[lba_end / ncpus * k, lba_end / ncpus * (k + 1))`, one share long and within `lba_end` |
| LbaWalk.ShareFits | apps/nvgen.c:188-189 | a thread's range ends one share after it starts, within `lba_end`, and neither bound wraps in 64 bits |
| LbaWalk.ThreadRangesPartition | apps/bench-nvme.c:408-409 | the ranges start at 0, meet end to start, and stop at `lba_end` rounded down to a multiple of `ncpus` |
| LbaWalk.ThreadRangesDisjoint | apps/nvgen.c:188-189 | no block belongs to two threads |
| UnvmeIo.CompletedCounts | apps/nvgen.c:406-411 | every command completes exactly when every poll succeeds, and none does exactly when every poll times out |
| NvgenUnvme.Submits | apps/nvgen.c:392-404 | command `i` reads `nblocks` blocks into slot `head + 2 * nblocks * i` modulo 256, at the `i`-th LBA of the walk |
| NvgenUnvme.EvenSpace | apps/nvgen.c:367-374 | the space used is the reported space rounded down to even |
| NvgenUnvme.Batch | apps/nvgen.c:374 | the block count is `min(space / 2, nvbatch)`, a negative `nvbatch` comparing as unsigned; two slots per block never exceed the even space |
| NvgenUnvme.Issue | apps/nvgen.c:392-404 | the submission loop reads into slots two per block apart, at the LBAs of the walk, one read per command, and leaves `head` past the last one |
| NvgenUnvme.StepAdvance | apps/nvgen.c:365-414 | the reader idles below two reported free slots, stops on a walk other than SEQ or RANDOM, and otherwise reads unless a RANDOM walk would divide by zero; a read moves `head` by two slots per block and changes nothing else of the ring |
| NvgenUnvme.StepMoves | apps/nvgen.c:365-414 | a step that reads moves `head` by exactly twice the batch |
| NvgenUnvme.PublishesAfterPolls | apps/nvgen.c:406-413 | all reads come first, then every command is polled, and `head` is published last |
| NvgenUnvme.StepEvents | apps/nvgen.c:381-413 | a step that reads submits its commands, then polls each of them, then publishes `head` |
| NvgenUnvme.RandomReads | apps/nvgen.c:392-404 | a RANDOM walk issues single-block reads, each at the walk's successor of the one before |
| NvgenUnvme.WalkShapesCommands | apps/nvgen.c:381-404 | SEQ issues one read of the whole batch at the reader's LBA; RANDOM issues single-block reads, each at the walk's successor of the one before |
| NvgenUnvme.EmptyRingLooksEmptyAgain | apps/nvgen.c:170-181 | on an empty ring with `-B 128` or more, the reader fills all 256 slots and `head` returns to `tail`, so the full ring looks empty |
| NvgenUnvme.HeadCanReachTail | apps/nvgen.c:170-181 | when `tail` is an even distance ahead of `head`, a large batch moves `head` onto `tail` |
| NvgenUnvme.BatchFillsGap | apps/nvgen.c:367-374 | when `tail` is an even distance ahead of `head` and `-B` is at least 128, the batch is exactly half that distance |
| NvgenUnvme.AdvanceAtMostOnePastFree | apps/nvgen.c:367-374 | a step overshoots the slots really free by at most one |
| NvgenNetmap.Batch | apps/nvgen.c:261-264 | the batch never exceeds the space or the loaded slots; a non-negative `-b` gives the least of the even part of the space, `-b` and the loaded count, and a negative `-b`, which converts to a huge unsigned value, limits nothing, so the batch is the lesser of the even space and the loaded count |
| NvgenNetmap.Loaded | apps/nvgen.c:273-286 | the `i`-th descriptor is the length and physical address of bridge slot `tail + i`, modulo 256 |
| NvgenNetmap.Gather | apps/nvgen.c:273-286 | the sender takes the trailer length and physical address of each slot from `tail` on, wrapping, and leaves `tail` past them |
| NvgenNetmap.StepCases | apps/nvgen.c:245-292 | the sender waits below two loaded slots, stops when the sync fails, skips when the TX ring has no space, and sends otherwise |
| NvgenNetmap.StepMoves | apps/nvgen.c:245-292 | when it sends, `tail` and the TX ring's `head` and `cur` all move by exactly the batch, and the packet counter by the batch |
| NvgenNetmap.StepSlot | apps/nvgen.c:273-286 | TX slot `i` after the old `head` carries bridge slot `tail + i` for `i` below the batch, and every other TX slot is as the sync left it |
| NvgenNetmap.StepConsumesSpace | apps/nvgen.c:245-292 | with `head == cur`, the step uses up exactly the batch of TX space |
| NvgenNetmap.SendsOnlyFilled | apps/nvgen.c:255-264 | while `head` is not behind `tail`, the sender takes no more than the filled slots, and what it takes leaves the ring |
| NvgenNetmap.WrappedHeadUnlimitsBatch | apps/nvgen.c:155-158 | once `head` has wrapped behind `tail`, the loaded count no longer limits the batch, whatever the reader has filled |
| NvgenCli.ParseOptsChecks | apps/nvgen.c:625-702 | the option loop refuses the command line exactly when an option fails its check, and what it accepts keeps the CPU count, batch and nvbatch within their bounds and the walk SEQ or RANDOM |
| NvgenCli.ParseAccepts | apps/nvgen.c:607-720 | the command line is accepted exactly when every option passes, a port and a device are given and twice the CPU count fits the online CPUs; RX then takes every online CPU |
| NvgenCli.NegativeCountsPass | apps/nvgen.c:649-678 | only upper bounds are checked: a negative `-n` or `-B` passes |
| BenchNvme.UsecElapsed | apps/bench-nvme.c:112-124 | the result is the difference of the two instants in microseconds, modulo 2^64: the borrow never changes it |
| BenchNvme.ElapsedIsDifference | apps/bench-nvme.c:112-124 | for clock values and an end no earlier than the start, the result is the exact difference, and the borrowed microsecond part is in `[0, 10^6)` |
| BenchNvme.NBlocks | apps/bench-nvme.c:240-241 | the block count is the ceiling: it covers the size with less than one block to spare |
| BenchNvme.BufferFitsOneIo | apps/bench-nvme.c:240-245 | the buffer allocated for one I/O holds the size with less than one block to spare, exactly for a block multiple |
| BenchNvme.BatchLbas | apps/bench-nvme.c:192-213 | a batch starts at the current LBA and has one LBA per I/O, unless RANDOM divides by zero: that happens exactly when the 64-bit span `lba_end - lba_start - nblocks` is zero, right after the first submission |
| BenchNvme.DefaultWalkCanDivideByZero | apps/bench-nvme.c:198 | with the default RANDOM walk and 64-byte size, a one-block range (`-e 0x1` on one CPU) makes the first `next_lba` divide by zero |
| BenchNvme.BatchStaysInRange | apps/bench-nvme.c:192-262 | a SEQ or SAME batch never divides by zero; every I/O of a SEQ batch that starts in range stays in range, and a SAME batch repeats one LBA |
| BenchNvme.AccountTotals | apps/bench-nvme.c:264-272 | the I/O counter grows by the successful polls, and the byte counter by `size` for each, modulo 2^64 |
| BenchNvme.AccountWholeBatch | apps/bench-nvme.c:264-272 | a batch of successes adds `batch` I/Os and `batch * size` bytes, and a batch of timeouts adds nothing |
| BenchNvme.ParseChecksBounds | apps/bench-nvme.c:319-370 | the option loop refuses exactly when an option is out of bounds; accepted parameters keep a known walk, a non-negative size, a batch in `[0, 64]` and a CPU count in `[1, online]`, and name a device exactly when some option is `-u` |
| BenchNvme.ParseAccepts | apps/bench-nvme.c:319-399 | the whole command line is accepted exactly when every option is within bounds and one of them is `-u` |
| BenchNvme.DefaultsInBounds | apps/bench-nvme.c:294-302 | the defaults are within those bounds on any machine with a CPU |
| BenchNvme.LaxOptions | apps/bench-nvme.c:350-399 | a negative `-t` is accepted, `-n` may exceed the 32 thread slots, and a command line without `-u` is refused |
| PktDesc.DescOffset | apps/pkt_desc.h:14-15 | the descriptor exists exactly when `len >= 4`, and then ends exactly at `len` |
| PktDesc.WriteThenRead | apps/pkt_desc.h:17-18 | a length written through the descriptor reads back unchanged, and only the four bytes before `len` change |
| PktDesc.ReadThenWrite | apps/pkt_desc.h:17-18 | writing back the value just read changes nothing |
| PktDesc.TrailerClearOfPacket | apps/pkt_desc.h:14-18 | in a 2048-byte slot the trailer starts at byte 2044, so a packet of up to 2044 bytes keeps every byte |
| Frame.DecodeEncode | apps/nmgen.c:122-147 | a receiver reads back exactly the header fields written, and the constant bytes are in place |
| Frame.EncodeDecode | apps/store.c:24-61 | every well-formed header is the encoding of the fields read from it |
| Frame.DecodePrefix | apps/store.c:24-61 | only the first 42 bytes decide the header read |
| Bytes.BE16RoundTrip | apps/store.c:41-61 | a 16-bit field stored in network order reads back as its value, and the bytes are the encoding of what is read |
| Bytes.LE32ReadsBack | apps/pkt_desc.h:17-18 | a 32-bit value stored by the little-endian host reads back unchanged |
| Bytes.LE32OfRead | apps/pkt_desc.h:17-18 | four bytes read as a 32-bit value and stored again are the same bytes |
| Bytes.SwapStoresNetworkOrder | apps/nmgen.c:108-113 | swapping twice is the identity, and a swapped value stored by the little-endian host lands in network order |
| InetChecksum.ChecksumLoop | apps/nmgen.c:87-106 | the loop as written computes the checksum: whole words, then an odd last byte in the high half |
| InetChecksum.ChecksumIsOnesSum | apps/nmgen.c:87-106 | from an initial sum of at most 0xFFFF, `checksum` is the 16-bit ones'-complement sum of RFC 1071 section 1 of the initial sum and the zero-padded words |
| InetChecksum.OnesSum | apps/nmgen.c:87-106 | the ones'-complement sum of RFC 1071 section 1 is at most 0xFFFF, zero only for a zero total, and congruent to the total modulo 0xFFFF |
| InetChecksum.OnesSumUnique | apps/nmgen.c:87-106 | those three properties determine the ones'-complement sum, so any fold that keeps them computes it |
| InetChecksum.RunningFolds | apps/nmgen.c:93-97 | the running sum stays at most 0xFFFF, is congruent modulo 0xFFFF to the plain sum, and is zero only while that sum is |
| InetChecksum.ZeroPadding | apps/nmgen.c:99-103 | an odd-length block sums as if padded with one zero byte |
| InetChecksum.WrapSum | apps/nmgen.c:108-113 | the host stores the complement of the sum's low 16 bits in network order |
| InetChecksum.ComplementSumsToOnes | apps/nmgen.c:108-113 | adding the complement of a nonzero total's sum gives a total whose sum is 0xFFFF |
| InetChecksum.ComplementVerifies | apps/nmgen.c:138-141 | when the checksum word was zero while summing, storing the complement there makes the receiver's sum 0xFFFF |
| Nmgen.BuildPacketFields | apps/nmgen.c:115-148 | the packet carries the given addresses; IPv4 length is `pktlen - 14` and UDP length 20 less for packets of at least 34 bytes; the destination port is 60000 plus the CPU; the payload is zero and the rest of the buffer untouched |
| Nmgen.ShortPacketWraps | apps/nmgen.c:144 | a packet shorter than its headers is not refused: its UDP length wraps around 16 bits |
| Nmgen.BuildPacketChecksum | apps/nmgen.c:129-141 | the IPv4 header of a built packet checks: its ones'-complement sum with the stored checksum in place is 0xFFFF |
| Nmgen.Batch | apps/nmgen.c:204 | the batch never exceeds the space; a non-negative `-b` gives the lesser of the space and `-b`, and a negative `-b`, which converts to a huge unsigned value, gives the whole space |
| Nmgen.StepCases | apps/nmgen.c:191-222 | the sender stops when the sync fails, skips when the ring is full, runs past `pkts_phy` exactly when the batch exceeds 64, and sends otherwise |
| Nmgen.BatchStaysInTable | apps/nmgen.c:201-204 | with `-b` in `[0, 64]` a step with space sends `min(space, batch)` packets and stays inside `pkts_phy` |
| Nmgen.StepMoves | apps/nmgen.c:205-222 | `head` and `cur` end one batch on, `tail` is untouched, and the counters grow by the batch and its bits |
| Nmgen.StepSlot | apps/nmgen.c:207-217 | TX slot `i` after the old `head` carries packet `i` with length `pktlen` for `i` below the batch, and every other slot is as the sync left it |
| Nmgen.StepConsumesSpace | apps/nmgen.c:201-219 | with `head == cur`, the step uses up exactly the batch of TX space |
| Store.BuildPktHeaders | apps/store.c:18-64 | the trailer leaves the headers in place, so a receiver reads back exactly the header `build_pkt` wrote |
| Store.BuildPktBody | apps/store.c:18-64 | after the headers the payload is zero up to `len`, the old bytes survive up to the trailer, and the trailer reads back `len` |
| Store.FilledSlot | apps/store.c:18-64 | after the zero fill and the header write, a slot holds the headers, zeros up to `len` and its old bytes after `len` |
| Store.BuildPktLengths | apps/store.c:48-58 | for an accepted length, the IPv4 length is `len - 14`, the UDP length 20 less, and the source port the id's low 16 bits |
| Store.ParseChecksBounds | apps/store.c:93-124 | the command line is refused exactly when an option fails its check; accepted parameters have a length in `[64, 1500]`, a non-negative batch and 64-bit LBAs |
| Store.DefaultsInBounds | apps/store.c:80-83 | the defaults are within those bounds |
| Store.TruncDiv | apps/store.c:137 | C's division rule: the remainder `a - q * b` has the sign of `a` and is smaller than `b` in magnitude, so the quotient is rounded toward zero |
| Store.WriteCoversBuffer | apps/store.c:136-142 | below 2^20 packets each write covers exactly the buffer: four 512-byte blocks per slot |
| Store.LargeBatchOverflows | apps/store.c:136-142 | from 2^20 packets on, `2048 * batch` overflows `int` and the block count turns negative |
| Store.FillIds | apps/store.c:151-155 | packet `b` of the write at `lba` carries `lba + b` modulo 2^16 as its source port, and its length in its trailer |
| Store.Run | apps/store.c:147-165 | the write loop writes `lba_start`, `lba_start + nblocks`, ... while below `lba_end`; it stops at the first failed write; the packet count grows by `batch` per write |
| Store.NextLba | apps/store.c:164 | one step of the loop's LBA is the next write's LBA, modulo 2^64 |
| Store.LbaSteps | apps/store.c:147-165 | while nothing wraps, the k-th write starts `4 * batch * k` blocks after `lba_start` |
| Store.ZeroBatchNeverAdvances | apps/store.c:147-165 | with `-b 0` the LBA never moves and the loop never reaches a non-empty range's end |

## Left out

- Concurrency. The threads, CPU pinning, signal handlers and the unsynchronised sharing of the bridge ring's `head` and `tail` are not modelled: each reader or sender step is one sequential transition.
- Real I/O. `open`, `ioctl`, `mmap`, `close`, `poll`, pagemap reads, netmap syncs, `nm_open`, UNVMe reads, writes and polls, kernel allocations and `misc_register` are oracles whose answers are parameters.
- The netmap helpers `nm_ring_next`, `nm_ring_space` and `nm_ring_empty` are not shown; they are given the netmap library's definitions over `cur`, `tail` and `num_slots`.
- `NS_PHY_INDIRECT` belongs to a patched netmap whose bit value is not shown, so slot flags are a set of flag names.
- Cursors and counters are `nat` values reduced explicitly (`U32`, `U64`, `I32`) rather than bit-vector types; the reductions are the C conversions.
- Byte order: the host is taken to be little-endian, as `htons`, `ntohs` and the packed trailer assume on the x86 machines the programs target.
- `pop_dev_mem_fault`, the module's page-fault handler, and its use of `pfn_valid` and `virt_to_phys` are kernel memory management, not modelled.
- The applications call `pop_mem_init`, `pop_buf_alloc` on a `pop_mem_t` and `pop_virt_to_phys`, a later libpop interface that is not part of this model; the applications' buffers are taken as given, with their physical addresses as parameters.
- Rate reporting, `print_result`, `count_thread`, the interval reports and `apps/mb.c` use floating point and timing, and are left out.
- nmgen's `main` and option parsing are left out; its transmit step takes the batch and packet length as given, including the negative batch the options let through, which `Nmgen.Batch` compares as unsigned.
- `apps/generator.c`, `apps/put_packet.c`, `tools/pop-ioctl.c`, `tools/pop-mmap.c` and the programs under `test/` are not part of this model.
- store's `-u` option, its device open and its final report are left out.
- bench-nvme's `-u` is modelled only as "given" (its absence refuses the command line); `-p` and `-v` are stored unchecked, can never refuse it, and are not modelled. nvgen's `-p` and `-u` are modelled only as "given"; its `-P`, `-i` and `-t` are stored unchecked, cannot refuse the command line, and are not modelled.
- The fields of `struct pop_p2pmem_reg` are C `int`s holding the bit patterns `%x` stores. The model keeps them as values below 2^32 (`PciName.Fits`). The lemmas about a name formatted from an address take such an address, since neither the scans nor a REG argument can hold anything else.
- Boogiepop.DevRelease: when UNREG has freed the device of an open file, the C decrement writes into freed memory; the model only shows that no listed entry changes, and it identifies a handle's device by its PCI address, so after UNREG and a fresh REG of the same device an old file is taken to refer to the new entry, whereas C still points at the freed one.
- Boogiepop.Ioctl: a failed `copy_to_user` is taken to write nothing back. The kernel may have copied a leading part of the struct, which holds only the caller's own address fields and part of `size`.
- Boogiepop.DevMmap: the size of a dangling file is read from freed memory and is the parameter `stale`; the page-fault handler that would then map freed p2pmem is not modelled.
- Nmgen.BuildPacket: requires `0 <= pktlen <= |buf|`. nmgen reads `-l` with a bare `atoi` (apps/nmgen.c:468-470) and builds each packet in a 2048-byte slot (apps/nmgen.c:176-180), so a negative length, whose `memset` size converts to a huge `size_t`, and a length above 2048, which overruns the next packet's slot and, for the last packet, the end of the allocation, are undefined behaviour in C that the model does not cover.
- Nmgen.BuildPacketFields: shares that requirement on `pktlen`, for the same reason.
- Nmgen.BuildPacketChecksum: shares that requirement on `pktlen`, for the same reason.
- Nmgen.StepMoves: the bit counter adds `pktlen * 8`, so the `int` overflow of `pktlen << 3` for huge lengths is not modelled.
- NvgenNetmap.Step: the bit counter adds `len * 8` of each slot's 16-bit length, which cannot overflow, and no property is stated about it.
- NvgenCli.ParseAccepts: `ncpus * 2` is computed without `int` overflow, so an `atoi` value below -2^30 is not modelled as wrapping.
- BenchNvme.UsecElapsed: the `long` arithmetic is taken without signed overflow, which needs clock values beyond 2^63 microseconds.
- Store.Run: the loop is bounded by a number of rounds, since with `-b 0` the C loop never ends; the `Running` outcome reports where it stood.
- NvgenUnvme.Step: the byte counter is `unsigned long` and `nblocks * 4096` is taken without `int` overflow; nvbatch is at most 128, so it cannot overflow.
