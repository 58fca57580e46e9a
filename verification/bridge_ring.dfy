/** The ring that couples nvgen's two threads on one CPU
    (`struct nvgen_ring`, apps/nvgen.c:84-89): 256 packet slots of 2048
    bytes, `head` where the NVMe reader writes next, `tail` where the netmap
    sender reads next, and `mask` = 255. Cursors are `uint32_t`; every
    subtraction and addition on them is reduced to 32 bits explicitly, and a
    difference stored in an `int` is reinterpreted as two's complement. The
    helpers are modelled as written, including the two whose answers differ
    from the ring's real contents. */
module BridgeRing {
  import opened Machine

  const SLOT_NUM: nat := 256

  datatype Ring = Ring(head: nat, tail: nat, mask: nat)

  /** Cursors are always reduced by the mask. */
  predicate Valid(r: Ring)
  {
    r.mask == SLOT_NUM - 1 && r.head < SLOT_NUM && r.tail < SLOT_NUM
  }

  /** `x & mask` for the ring's mask of 255. */
  function Wrap(x: nat): (n: nat)
    ensures n < SLOT_NUM
  {
    x % SLOT_NUM
  }

  /** `nvgen_ring_init` (apps/nvgen.c:120-125) */
  function Init(): (r: Ring)
    ensures Valid(r) && Empty(r) && !Full(r)
  {
    Ring(0, 0, SLOT_NUM - 1)
  }

  /** `ring_empty` */
  predicate Empty(r: Ring)
  {
    r.head == r.tail
  }

  /** `ring_full` */
  predicate Full(r: Ring)
  {
    Wrap(U32(r.head + 1)) == r.tail
  }

  /** `ring_write_next_batch`: the 32-bit sum, masked. Reducing to 32 bits
      first does not change the low eight bits. */
  function WriteNextBatch(r: Ring, head: nat, batch: nat): (n: nat)
    requires Valid(r) && head < U32_LIMIT && batch < U32_LIMIT
    ensures n < SLOT_NUM && n == (head + batch) % SLOT_NUM
  {
    ModOfMod(head + batch, U32_LIMIT, SLOT_NUM);
    Wrap(U32(head + batch))
  }

  /** `ring_write_next` */
  function WriteNext(r: Ring, head: nat): (n: nat)
    requires Valid(r) && head < U32_LIMIT
    ensures n < SLOT_NUM && n == (head + 1) % SLOT_NUM
  {
    ModOfMod(head + 1, U32_LIMIT, SLOT_NUM);
    Wrap(U32(head + 1))
  }

  /** `ring_read_next` */
  function ReadNext(r: Ring, tail: nat): (n: nat)
    requires Valid(r) && tail < U32_LIMIT
    ensures n < SLOT_NUM && n == (tail + 1) % SLOT_NUM
  {
    ModOfMod(tail + 1, U32_LIMIT, SLOT_NUM);
    Wrap(U32(tail + 1))
  }

  /** The `ring_read_avail` macro (apps/nvgen.c:155-158). The difference is
      unsigned, so the test for a negative value never holds and the
      correction by `SLOT_NUM` is never applied. */
  function ReadAvail(r: Ring): (n: nat)
  {
    var d := U32(r.head - r.tail);
    if d < 0 then U32(d + SLOT_NUM) else d
  }

  /** The version left in a comment next to the macro (apps/nvgen.c:160-167):
      the difference is kept in a signed `int`, and a negative one is
      corrected by `SLOT_NUM`. This is the number of filled slots. */
  function ReadAvailIntended(r: Ring): (n: nat)
    requires Valid(r)
    ensures n < SLOT_NUM
    ensures r.head >= r.tail ==> n == r.head - r.tail
    ensures r.head < r.tail ==> n == SLOT_NUM - (r.tail - r.head)
  {
    var remain := I32(U32(r.head - r.tail));
    U32(if remain < 0 then remain + SLOT_NUM else remain)
  }

  /** `ring_write_avail` (apps/nvgen.c:170-181): the unsigned difference
      `tail - head` kept in a signed `int`; 0 answers `SLOT_NUM`, a negative
      value is corrected by `SLOT_NUM - 1`. */
  function WriteAvail(r: Ring): (n: nat)
  {
    var remain := I32(U32(r.tail - r.head));
    if remain == 0 then SLOT_NUM
    else U32(if remain < 0 then remain + (SLOT_NUM - 1) else remain)
  }

  /** The free slots of a ring that keeps one slot unused, so that full and
      empty differ. */
  function Free(r: Ring): (n: nat)
    requires Valid(r)
    ensures n < SLOT_NUM
  {
    (SLOT_NUM - 1) - ReadAvailIntended(r)
  }

  /** The three cases of `ring_write_avail`, and its bound of 256: an empty
      ring answers 256, more than the ring can take. */
  lemma WriteAvailCases(r: Ring)
    requires Valid(r)
    ensures r.head == r.tail ==> WriteAvail(r) == SLOT_NUM
    ensures r.tail > r.head ==> WriteAvail(r) == r.tail - r.head
    ensures r.tail < r.head ==> WriteAvail(r) == r.tail - r.head + (SLOT_NUM - 1)
    ensures WriteAvail(r) <= SLOT_NUM
  {
  }

  /** `ring_write_avail` against the real free space: exact when `tail` is
      behind `head`, one slot too many otherwise, the empty ring included. */
  lemma WriteAvailOffByOne(r: Ring)
    requires Valid(r)
    ensures r.tail < r.head ==> WriteAvail(r) == Free(r)
    ensures r.tail >= r.head ==> WriteAvail(r) == Free(r) + 1
  {
  }

  /** The macro's answer is the 32-bit difference `head - tail`, which is the
      filled count exactly when `head` is not behind `tail`; otherwise it is
      at least 2^32 - 255. */
  lemma ReadAvailAsWritten(r: Ring)
    requires Valid(r)
    ensures ReadAvail(r) == U32(r.head - r.tail)
    ensures r.head >= r.tail <==> ReadAvail(r) == ReadAvailIntended(r)
    ensures r.head >= r.tail ==> ReadAvail(r) < SLOT_NUM
    ensures r.head < r.tail ==> ReadAvail(r) >= U32_LIMIT - (SLOT_NUM - 1)
  {
  }

  /** No valid state is both empty and full. */
  lemma NotEmptyAndFull(r: Ring)
    requires Valid(r)
    ensures !(Empty(r) && Full(r))
  {
  }

  /** Full means one slot is left unused: 255 filled slots and none free. */
  lemma FullMeansNoneFree(r: Ring)
    requires Valid(r)
    ensures Full(r) <==> ReadAvailIntended(r) == SLOT_NUM - 1
    ensures Full(r) <==> Free(r) == 0
  {
  }
}
