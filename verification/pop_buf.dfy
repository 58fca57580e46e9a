/** The buffer of lib/libpop.c: a page-multiple sub-allocation of the arena with
    an (offset, length) data window that is adjusted in place, in the style of
    the Linux sk_buff. Every adjustment either moves the window and returns the
    new data pointer, or refuses (the C code returns NULL) and changes nothing. */
module PopBuf {
  import opened Machine

  /** `pop_buf_t`: virtual and physical base of the sub-allocation, its size
      and the data window. All four size fields are `size_t`. */
  datatype Buf = Buf(vaddr: nat, paddr: nat, size: nat, offset: nat, length: nat)

  /** Every `size_t` field holds a 64-bit value. The C functions take any
      such buffer, including one whose window has left the allocation. */
  predicate Sized(b: Buf)
  {
    b.size < U64_LIMIT && b.offset < U64_LIMIT && b.length < U64_LIMIT
  }

  /** The window invariant: the data never runs past the allocation. */
  predicate Valid(b: Buf)
  {
    b.size < U64_LIMIT && b.offset + b.length <= b.size
  }

  /** Result of an adjustment: the adjusted buffer and its new data pointer,
      or a refusal that leaves the buffer as it was. */
  datatype Adjusted = Moved(buf: Buf, data: nat) | Refused

  /** `pop_buf_data`: the address of the first data byte. */
  function Data(b: Buf): nat
  {
    b.vaddr + b.offset
  }

  /** `pop_buf_paddr`: the physical address of the first data byte. */
  function Paddr(b: Buf): nat
  {
    b.paddr + b.offset
  }

  /** `pop_buf_len`: the C code returns `length - offset` in `size_t`
      arithmetic, which is neither the window length nor its end. */
  function Len(b: Buf): (r: nat)
    requires Sized(b)
    ensures r < U64_LIMIT
    ensures b.offset <= b.length ==> r == b.length - b.offset
    ensures b.offset > b.length ==> r == U64_LIMIT - (b.offset - b.length)
  {
    U64BorrowsOnce(b.length - b.offset);
    U64(b.length - b.offset)
  }

  /** `pop_buf_put`: grows the window at the tail. The bound test
      `offset + length + len > size` is evaluated in `size_t`, so a `len`
      that makes the sum wrap passes the test. */
  function Put(b: Buf, len: nat): (r: Adjusted)
    requires Sized(b) && len < U64_LIMIT
    ensures r.Refused? <==> U64(b.offset + b.length + len) > b.size
    ensures b.offset + b.length + len < U64_LIMIT ==>
              (r.Refused? <==> b.offset + b.length + len > b.size)
    ensures r.Moved? ==> r.data == Data(r.buf) && Sized(r.buf)
    ensures r.Moved? ==> r.buf.offset == b.offset && r.buf.size == b.size
                         && r.buf.vaddr == b.vaddr && r.buf.paddr == b.paddr
    ensures r.Moved? && b.offset + b.length + len < U64_LIMIT ==>
              Valid(r.buf) && r.buf.length == b.length + len
  {
    if U64(b.offset + b.length + len) > b.size then Refused
    else
      var nb := b.(length := U64(b.length + len));
      Moved(nb, Data(nb))
  }

  /** `pop_buf_trim`: shrinks the window at the tail. */
  function Trim(b: Buf, len: nat): (r: Adjusted)
    requires Sized(b)
    ensures r.Refused? <==> len > b.length
    ensures r.Moved? ==> Sized(r.buf) && r.data == Data(r.buf)
    ensures r.Moved? && Valid(b) ==> Valid(r.buf)
    ensures r.Moved? ==> r.buf == b.(length := b.length - len)
  {
    if b.length < len then Refused
    else
      var nb := b.(length := b.length - len);
      Moved(nb, Data(nb))
  }

  /** `pop_buf_pull`: consumes `len` bytes at the head of the window. The
      new offset is computed in `size_t`, so it wraps only for a window
      that had already left the allocation. */
  function Pull(b: Buf, len: nat): (r: Adjusted)
    requires Sized(b)
    ensures r.Refused? <==> len > b.length
    ensures r.Moved? ==> Sized(r.buf) && r.data == Data(r.buf) && r.buf.size == b.size
    ensures r.Moved? && Valid(b) ==> Valid(r.buf)
    ensures r.Moved? && b.offset + len < U64_LIMIT ==>
              r.buf.offset == b.offset + len && r.buf.offset + r.buf.length == b.offset + b.length
    ensures r.Moved? && b.offset + len >= U64_LIMIT ==>
              r.buf.offset == b.offset + len - U64_LIMIT && r.buf.length == b.length - len
  {
    if b.length < len then Refused
    else
      U64WrapsOnce(b.offset + len);
      var nb := b.(length := b.length - len, offset := U64(b.offset + len));
      Moved(nb, Data(nb))
  }

  /** `pop_buf_push`: prepends `len` bytes of headroom to the window. The
      new length is computed in `size_t`, so it wraps only for a window
      that had already left the allocation. */
  function Push(b: Buf, len: nat): (r: Adjusted)
    requires Sized(b)
    ensures r.Refused? <==> len > b.offset
    ensures r.Moved? ==> Sized(r.buf) && r.data == Data(r.buf)
    ensures r.Moved? ==> r.buf.offset + len == b.offset && r.buf.size == b.size
    ensures r.Moved? && Valid(b) ==> Valid(r.buf)
    ensures r.Moved? && b.length + len < U64_LIMIT ==>
              r.buf.offset + r.buf.length == b.offset + b.length
    ensures r.Moved? && b.length + len >= U64_LIMIT ==>
              r.buf.length == b.length + len - U64_LIMIT
  {
    if b.offset < len then Refused
    else
      U64WrapsOnce(b.length + len);
      var nb := b.(length := U64(b.length + len), offset := b.offset - len);
      Moved(nb, Data(nb))
  }

  /** Pulling `k` bytes and pushing them back restores the window. */
  lemma PullPushRoundTrip(b: Buf, k: nat)
    requires Valid(b) && k <= b.length
    ensures Pull(b, k).Moved?
    ensures Push(Pull(b, k).buf, k) == Moved(b, Data(b))
  {
  }

  /** Putting `k` bytes and trimming them again restores the window, and
      neither adjustment touches the offset. */
  lemma PutTrimRoundTrip(b: Buf, k: nat)
    requires Valid(b) && b.offset + b.length + k <= b.size
    ensures Put(b, k).Moved? && Put(b, k).buf.offset == b.offset
    ensures Trim(Put(b, k).buf, k) == Moved(b, Data(b))
  {
  }

  /** An adjustment that succeeded kept the buffer's virtual and physical
      base, so its data pointer and the physical address of that pointer
      are the same distance from their bases and moved by the same amount. */
  predicate Lockstep(b: Buf, r: Adjusted)
  {
    r.Moved? ==>
      r.buf.vaddr == b.vaddr && r.buf.paddr == b.paddr
      && r.data - b.vaddr == Paddr(r.buf) - b.paddr
      && r.data - Data(b) == Paddr(r.buf) - Paddr(b)
  }

  /** `pop_buf_data` and `pop_buf_paddr` stay in lockstep whichever of
      put, trim, pull and push is applied. */
  lemma DataAndPaddrInLockstep(b: Buf, k: nat)
    requires Sized(b) && k < U64_LIMIT
    ensures Lockstep(b, Put(b, k)) && Lockstep(b, Trim(b, k))
    ensures Lockstep(b, Pull(b, k)) && Lockstep(b, Push(b, k))
  {
  }

  /** A fresh buffer of size S takes exactly S bytes: `put(S)` succeeds and
      a further `put(1)` is refused. */
  lemma FreshBufferFillsExactly(b: Buf)
    requires Valid(b) && b.offset == 0 && b.length == 0 && b.size + 1 < U64_LIMIT
    ensures Put(b, b.size).Moved?
    ensures Put(Put(b, b.size).buf, 1).Refused?
  {
    var full := Put(b, b.size).buf;
    assert full.offset == 0 && full.length == b.size && full.size == b.size;
    assert Valid(full);
    U64WrapsOnce(full.offset + full.length + 1);
  }

  /** `pop_buf_len` is not the window length: after pulling `k` bytes from
      a window at offset 0 the window holds `length - k` bytes, but the
      function reports `length - 2k`, which wraps to nearly 2^64 once more
      than half the window is pulled. */
  lemma LenIsNotWindowLength(b: Buf, k: nat)
    requires Valid(b) && b.offset == 0 && k <= b.length
    ensures Pull(b, k).Moved? && Pull(b, k).buf.length == b.length - k
    ensures 2 * k <= b.length ==> Len(Pull(b, k).buf) == b.length - 2 * k
    ensures 2 * k > b.length ==> Len(Pull(b, k).buf) == U64_LIMIT - (2 * k - b.length)
  {
  }

  /** With a `len` near 2^64 the wrapped bound test accepts a `put` whose
      window then runs far past the end of the allocation; `pop_buf_len`
      then reports nearly 2^64 bytes for a 4096-byte buffer. */
  lemma PutWrapBreaksWindow()
    ensures var b := Buf(0, 0, 4096, 10, 0);
            var r := Put(b, U64_LIMIT - 5);
            r.Moved? && r.buf.offset + r.buf.length > r.buf.size
            && !Valid(r.buf) && Len(r.buf) == U64_LIMIT - 15
  {
    var b := Buf(0, 0, 4096, 10, 0);
    U64WrapsOnce(b.offset + b.length + (U64_LIMIT - 5));
    U64WrapsOnce(b.length + (U64_LIMIT - 5));
  }
}
