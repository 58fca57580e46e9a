/** A netmap ring as libpop and its applications see it: `num_slots` slots,
    the `head`, `cur` and `tail` cursors, and the three helpers of the netmap
    user header, `nm_ring_next`, `nm_ring_space` and `nm_ring_empty`, whose
    bodies follow the netmap library. Posting a run of buffer descriptors
    fills consecutive slots from `cur`, wrapping at the end of the ring,
    marks each slot as holding a physical address, and leaves `head` and
    `cur` after the last slot filled. */
module NetmapRing {
  import opened Machine

  /** Slot flags. `NS_PHY_INDIRECT` belongs to a patched netmap and its bit
      value is not known here, so flags are a set of names. */
  datatype SlotFlag = PhyIndirect | OtherFlag(bit: nat)

  /** `struct netmap_slot`: a 16-bit length, a 64-bit buffer pointer and the
      flags. */
  datatype Slot = Slot(len: nat, ptr: nat, flags: set<SlotFlag>)

  datatype Ring = Ring(numSlots: nat, head: nat, cur: nat, tail: nat, slots: seq<Slot>)

  predicate Valid(r: Ring)
  {
    r.numSlots == |r.slots| && r.numSlots > 0
    && r.head < r.numSlots && r.cur < r.numSlots && r.tail < r.numSlots
  }

  /** `nm_ring_next` */
  function Next(r: Ring, i: nat): (n: nat)
    requires Valid(r) && i < r.numSlots
    ensures n < r.numSlots
    ensures n == (i + 1) % r.numSlots
  {
    if i + 1 == r.numSlots then 0 else i + 1
  }

  /** `nm_ring_space`: the slots from `cur` up to, not including, `tail`. */
  function Space(r: Ring): (s: nat)
    requires Valid(r)
    ensures s < r.numSlots
    ensures s == 0 <==> r.cur == r.tail
  {
    if r.tail >= r.cur then r.tail - r.cur else r.tail - r.cur + r.numSlots
  }

  /** `nm_ring_empty` */
  predicate Empty(r: Ring)
  {
    r.cur == r.tail
  }

  /** Distance from `cur` forward to slot `j`. */
  function Rel(j: nat, cur: nat, n: nat): nat
    requires j < n && cur < n
  {
    if j >= cur then j - cur else j - cur + n
  }

  /** Slot `k` positions after `cur`. */
  function Ahead(cur: nat, k: nat, n: nat): (r: nat)
    requires cur < n && k <= n
    ensures r < n
  {
    if cur + k < n then cur + k else cur + k - n
  }

  /** What is written into a slot: a length and a buffer address. */
  datatype Desc = Desc(len: int, ptr: int)

  /** Filling one slot: `len` as `uint16_t`, `ptr` as `uint64_t`, and
      `NS_PHY_INDIRECT` OR-ed into the flags, which are otherwise kept. */
  function Describe(s: Slot, d: Desc): (s': Slot)
    ensures s'.len < U16_LIMIT && s'.ptr < U64_LIMIT
    ensures PhyIndirect in s'.flags && s.flags <= s'.flags
    ensures s'.flags - {PhyIndirect} == s.flags - {PhyIndirect}
  {
    Slot(U16(d.len), U64(d.ptr), s.flags + {PhyIndirect})
  }

  /** One iteration of a posting loop: the slot at `cur` describes the
      buffer, and `cur` and `head` both move to the next slot. */
  function PostOne(r: Ring, d: Desc): (r': Ring)
    requires Valid(r)
    ensures Valid(r')
  {
    var c := Next(r, r.cur);
    r.(slots := r.slots[r.cur := Describe(r.slots[r.cur], d)], cur := c, head := c)
  }

  /** The whole posting loop over `ds`. */
  function Post(r: Ring, ds: seq<Desc>): (r': Ring)
    requires Valid(r)
    ensures Valid(r') && r'.numSlots == r.numSlots && r'.tail == r.tail
    decreases |ds|
  {
    if ds == [] then r else Post(PostOne(r, ds[0]), ds[1..])
  }

  /** Moving `cur` one slot on brings every other slot one step closer. */
  lemma RelAfterNext(r: Ring, j: nat)
    requires Valid(r) && j < r.numSlots
    ensures j == r.cur ==> Rel(j, Next(r, r.cur), r.numSlots) == r.numSlots - 1
    ensures j != r.cur ==> Rel(j, Next(r, r.cur), r.numSlots) == Rel(j, r.cur, r.numSlots) - 1
  {
  }

  /** The slot-by-slot effect of posting: the slot `i` places after the old
      `cur` holds the i-th buffer and every slot further on is unchanged. */
  lemma {:induction false} PostSlots(r: Ring, ds: seq<Desc>, j: nat)
    requires Valid(r) && |ds| <= r.numSlots && j < r.numSlots
    ensures Rel(j, r.cur, r.numSlots) < |ds| ==>
              Post(r, ds).slots[j] == Describe(r.slots[j], ds[Rel(j, r.cur, r.numSlots)])
    ensures Rel(j, r.cur, r.numSlots) >= |ds| ==> Post(r, ds).slots[j] == r.slots[j]
    decreases |ds|
  {
    if ds != [] {
      var r1 := PostOne(r, ds[0]);
      var rest := ds[1..];
      PostSlots(r1, rest, j);
      RelAfterNext(r, j);
      if j != r.cur && Rel(j, r.cur, r.numSlots) < |ds| {
        assert rest[Rel(j, r.cur, r.numSlots) - 1] == ds[Rel(j, r.cur, r.numSlots)];
      }
    }
  }

  /** Where the cursors end after posting. */
  lemma {:induction false} PostCursors(r: Ring, ds: seq<Desc>)
    requires Valid(r) && |ds| <= r.numSlots
    ensures Post(r, ds).cur == Ahead(r.cur, |ds|, r.numSlots)
    ensures ds == [] ==> Post(r, ds).head == r.head
    ensures ds != [] ==> Post(r, ds).head == Post(r, ds).cur
    decreases |ds|
  {
    if ds != [] {
      var r1 := PostOne(r, ds[0]);
      var rest := ds[1..];
      PostCursors(r1, rest);
    }
  }

  /** What posting `k` buffers does: the i-th buffer lands in the slot i
      places after the old `cur`, every other slot is unchanged, and `cur`
      and `head` end `k` places after the old `cur`. */
  lemma PostSpec(r: Ring, ds: seq<Desc>)
    requires Valid(r) && |ds| <= r.numSlots
    ensures var p := Post(r, ds);
            p.cur == Ahead(r.cur, |ds|, r.numSlots)
            && (ds != [] ==> p.head == p.cur) && (ds == [] ==> p.head == r.head)
    ensures var p := Post(r, ds);
            forall j :: 0 <= j < r.numSlots ==>
              (Rel(j, r.cur, r.numSlots) < |ds| ==>
                 p.slots[j] == Describe(r.slots[j], ds[Rel(j, r.cur, r.numSlots)]))
              && (Rel(j, r.cur, r.numSlots) >= |ds| ==> p.slots[j] == r.slots[j])
  {
    PostCursors(r, ds);
    forall j | 0 <= j < r.numSlots
      ensures Rel(j, r.cur, r.numSlots) < |ds| ==>
                Post(r, ds).slots[j] == Describe(r.slots[j], ds[Rel(j, r.cur, r.numSlots)])
      ensures Rel(j, r.cur, r.numSlots) >= |ds| ==> Post(r, ds).slots[j] == r.slots[j]
    {
      PostSlots(r, ds, j);
    }
  }

  /** Posting `k` buffers uses up exactly `k` slots of space. */
  lemma PostConsumesSpace(r: Ring, ds: seq<Desc>)
    requires Valid(r) && |ds| <= Space(r)
    ensures Space(Post(r, ds)) == Space(r) - |ds|
    ensures Empty(Post(r, ds)) <==> |ds| == Space(r)
  {
    PostCursors(r, ds);
  }
}
