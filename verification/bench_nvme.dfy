/** The arithmetic of the NVMe benchmark, apps/bench-nvme.c: the elapsed
    time in microseconds, the number of blocks one I/O of `-s` bytes needs,
    the LBAs of one batch, the completion counters, and the bounds its
    options are checked against. The clock, `rand()` and the device are
    oracles. */
module BenchNvme {
  import opened Machine
  import opened LbaWalk
  import opened UnvmeIo

  const MAX_BATCH_SIZE: nat := 64
  const MAX_CPU_NUM: nat := 32
  const USEC_PER_SEC: nat := 1_000_000

  /** `struct timeval`, both fields `long`. */
  datatype Timeval = Timeval(sec: int, usec: int)

  function Micros(t: Timeval): int
  {
    t.sec * USEC_PER_SEC + t.usec
  }

  /** `get_usec_elapsed` (apps/bench-nvme.c:112-124): borrow a second when
      the end's microseconds are below the start's, then combine, and
      return the result as `unsigned long`. The borrow never changes the
      value: it is always the difference of the two instants. */
  function UsecElapsed(start: Timeval, end: Timeval): (r: nat)
    ensures r == U64(Micros(end) - Micros(start))
  {
    var e := if end.usec < start.usec then Timeval(end.sec - 1, end.usec + USEC_PER_SEC) else end;
    U64((e.sec - start.sec) * USEC_PER_SEC + e.usec - start.usec)
  }

  /** For `gettimeofday` values (microseconds in `[0, 10^6)`) and an end no
      earlier than the start, the result is the exact number of
      microseconds between them, and after the borrow the microsecond part
      of the difference is itself in `[0, 10^6)`. */
  lemma ElapsedIsDifference(start: Timeval, end: Timeval)
    requires 0 <= start.usec < USEC_PER_SEC && 0 <= end.usec < USEC_PER_SEC
    requires Micros(start) <= Micros(end) < Micros(start) + U64_LIMIT
    ensures UsecElapsed(start, end) == Micros(end) - Micros(start)
    ensures var du := if end.usec < start.usec then end.usec + USEC_PER_SEC - start.usec
                      else end.usec - start.usec;
            0 <= du < USEC_PER_SEC
  {
  }

  /** The number of blocks of one I/O (apps/bench-nvme.c:240-241):
      `size >> blockshift`, plus one when `size % blocksize` is not zero,
      with `blocksize == 1 << blockshift`. For a non-negative `size` the
      shift is the quotient. */
  function NBlocks(size: nat, blockshift: nat): (n: nat)
    ensures n * Pow2(blockshift) >= size
    ensures n * Pow2(blockshift) < size + Pow2(blockshift)
  {
    var bs := Pow2(blockshift);
    assert size == size / bs * bs + size % bs;
    if size % bs != 0 then size / bs + 1 else size / bs
  }

  /** Each I/O buffer is allocated as `nblocks << blockshift` bytes
      (apps/bench-nvme.c:243-245): enough for `size` bytes, with less than
      one block to spare, whatever the size. */
  lemma BufferFitsOneIo(size: nat, blockshift: nat)
    requires size < 0x8000_0000 && Pow2(blockshift) < U32_LIMIT
    ensures U64(NBlocks(size, blockshift) * Pow2(blockshift)) >= size
    ensures U64(NBlocks(size, blockshift) * Pow2(blockshift)) - size < Pow2(blockshift)
    ensures size % Pow2(blockshift) == 0 ==> NBlocks(size, blockshift) * Pow2(blockshift) == size
  {
  }

  /** The LBAs one batch submits, and whether `next_lba` divided by zero
      after the last of them. */
  datatype Batch = Batch(lbas: seq<nat>, divisionByZero: bool)

  /** One batch of `n` commands (apps/bench-nvme.c:256-262): each command
      is submitted at `lba`, then `next_lba` with the i-th value of `rand()`
      gives the address of the one after. RANDOM over a range that holds
      exactly `nblocks` blocks divides by zero right after the first
      submission, which ends the model's batch there. */
  function BatchLbas(walk: Walk, lba: nat, lbaStart: nat, lbaEnd: nat, nblocks: nat,
                     rnd: nat -> nat, i: nat, n: nat): (r: Batch)
    requires lba < U64_LIMIT && lbaStart < U64_LIMIT && lbaEnd < U64_LIMIT && nblocks < U64_LIMIT
    requires forall j :: rnd(j) <= RAND_MAX
    requires i <= n
    ensures r.divisionByZero <==> i < n && walk == Random && U64(lbaEnd - lbaStart - nblocks) == 0
    ensures r.divisionByZero ==> r.lbas == [lba]
    ensures !r.divisionByZero ==> |r.lbas| == n - i
    ensures i < n ==> r.lbas[0] == lba
    decreases n - i
  {
    if i == n then Batch([], false)
    else
      match NextLba(walk, lba, lbaStart, lbaEnd, nblocks, rnd(i))
      case DivisionByZero => Batch([lba], true)
      case Lba(next) =>
        var rest := BatchLbas(walk, next, lbaStart, lbaEnd, nblocks, rnd, i + 1, n);
        Batch([lba] + rest.lbas, rest.divisionByZero)
  }

  /** The default walk and size hit the division by zero when `-e` leaves a
      single block to one thread: `-e 0x1` on one CPU with a 512-byte block
      gives `lba_end - lba_start - nblocks == 0`. */
  lemma DefaultWalkCanDivideByZero(rnd: nat -> nat)
    requires forall j :: rnd(j) <= RAND_MAX
    ensures NBlocks(64, 9) == 1
    ensures BatchLbas(Random, 0, 0, 1, 1, rnd, 0, 1) == Batch([0], true)
  {
    assert Pow2(9) == 512;
  }

  /** A SEQ batch that starts inside the thread's range keeps every I/O
      inside it, provided the range holds one I/O and nothing wraps; a SAME
      batch repeats one LBA. Neither divides by zero. */
  lemma {:induction false} BatchStaysInRange(walk: Walk, lba: nat, lbaStart: nat, lbaEnd: nat,
                                             nblocks: nat, rnd: nat -> nat, i: nat, n: nat)
    requires lbaStart <= lba && lba + nblocks <= lbaEnd && lbaEnd + nblocks < U64_LIMIT
    requires walk == Seq || walk == Same
    requires forall j :: rnd(j) <= RAND_MAX
    requires i <= n
    ensures !BatchLbas(walk, lba, lbaStart, lbaEnd, nblocks, rnd, i, n).divisionByZero
    ensures forall k :: 0 <= k < n - i ==>
              var l := BatchLbas(walk, lba, lbaStart, lbaEnd, nblocks, rnd, i, n).lbas[k];
              lbaStart <= l && l + nblocks <= lbaEnd && (walk == Same ==> l == lba)
    decreases n - i
  {
    if i < n {
      var next := NextLba(walk, lba, lbaStart, lbaEnd, nblocks, rnd(i));
      if walk == Seq {
        SeqWalk(lba, lbaStart, lbaEnd, nblocks, rnd(i));
      }
      assert lbaStart <= next.lba && next.lba + nblocks <= lbaEnd;
      BatchStaysInRange(walk, next.lba, lbaStart, lbaEnd, nblocks, rnd, i + 1, n);
      var ls := BatchLbas(walk, lba, lbaStart, lbaEnd, nblocks, rnd, i, n).lbas;
      var rest := BatchLbas(walk, next.lba, lbaStart, lbaEnd, nblocks, rnd, i + 1, n).lbas;
      assert ls == [lba] + rest;
      forall k | 0 <= k < n - i
        ensures lbaStart <= ls[k] && ls[k] + nblocks <= lbaEnd && (walk == Same ==> ls[k] == lba)
      {
        if k > 0 {
          assert ls[k] == rest[k - 1];
        }
      }
    }
  }

  /** A thread's two counters, both `unsigned long`. */
  datatype Counters = Counters(count: nat, bytes: nat)

  /** The completion loop (apps/bench-nvme.c:264-271): every poll that
      returns 0 adds `size` bytes and one I/O; a timeout adds nothing. */
  function Account(c: Counters, size: nat, ok: Polls, batch: nat): (c': Counters)
    ensures c'.count < U64_LIMIT && c'.bytes < U64_LIMIT
  {
    if batch == 0 then Counters(U64(c.count), U64(c.bytes))
    else
      var c0 := Account(c, size, ok, batch - 1);
      if ok(batch - 1) then Counters(U64(c0.count + 1), U64(c0.bytes + size)) else c0
  }

  /** Adding to a counter kept modulo 2^64. */
  lemma ModAdd(x: nat, y: nat)
    ensures U64(U64(x) + y) == U64(x + y)
  {
    AddMod(x, y, U64_LIMIT);
  }

  /** The counters grow by the number of successful polls, and the bytes by
      `size` for each, modulo 2^64. */
  lemma {:induction false} AccountTotals(c: Counters, size: nat, ok: Polls, batch: nat)
    ensures Account(c, size, ok, batch).count == U64(c.count + Completed(ok, batch))
    ensures Account(c, size, ok, batch).bytes == U64(c.bytes + Completed(ok, batch) * size)
  {
    if batch > 0 {
      AccountTotals(c, size, ok, batch - 1);
      var prev := Account(c, size, ok, batch - 1);
      var k := Completed(ok, batch - 1);
      if ok(batch - 1) {
        assert Completed(ok, batch) == k + 1;
        CounterStep(prev.count, c.count, k, 1);
        CounterStep(prev.bytes, c.bytes, k, size);
      } else {
        assert Completed(ok, batch) == k;
      }
    }
  }

  /** One more completion on a counter that holds `base + k * size` modulo
      2^64. */
  lemma CounterStep(prev: nat, base: nat, k: nat, size: nat)
    requires prev == U64(base + k * size)
    ensures U64(prev + size) == U64(base + (k + 1) * size)
  {
    var x := base + k * size;
    assert x + size == base + (k + 1) * size by {
      assert (k + 1) * size == k * size + size;
    }
    ModAdd(x, size);
  }

  /** A batch whose every poll succeeds counts `batch` I/Os of `size`
      bytes; one whose every poll times out leaves the counters as they
      were. */
  lemma AccountWholeBatch(c: Counters, size: nat, ok: Polls, batch: nat)
    requires c.count < U64_LIMIT && c.bytes < U64_LIMIT
    ensures (forall i :: 0 <= i < batch ==> ok(i)) ==>
              Account(c, size, ok, batch) == Counters(U64(c.count + batch), U64(c.bytes + batch * size))
    ensures (forall i :: 0 <= i < batch ==> !ok(i)) ==> Account(c, size, ok, batch) == c
  {
    CompletedCounts(ok, batch);
    AccountTotals(c, size, ok, batch);
  }

  /** The options the benchmark checks, with the values `atoi` gave.
      `LbaEndOpt` holds `None` when `sscanf(optarg, "0x%lx", ...)` matched
      nothing. `NvmeOpt` is `-u`, of which only its presence matters; `-p`
      and `-v` are stored unchecked, can never refuse the command line and
      are not modelled. */
  datatype Opt = ModeOpt(arg: string) | WalkOpt(arg: string) | SizeOpt(size: int)
               | BatchOpt(batch: int) | CpusOpt(ncpus: int) | LbaEndOpt(lbaEnd: Option<nat>)
               | TimeOpt(time: int) | NvmeOpt | Unknown

  /** The checked parameters, and whether an NVMe device was named; the
      defaults are READ, RANDOM, 64 bytes, batch 1, one CPU, one second, the
      hard-coded last LBA 0xe8e088b0 and no device
      (apps/bench-nvme.c:294-302). */
  datatype Params = Params(write: bool, walk: int, size: int, batch: int, ncpus: int, time: int,
                           lbaEnd: nat, nvme: bool)

  const DEFAULTS := Params(false, 0, 64, 1, 1, 1, 0xe8e088b0, false)

  /** One option (apps/bench-nvme.c:319-370); `None` is the `return -1`.
      `online` is what `count_online_cpus` answered. `Unknown` is a letter
      `getopt` does not know, which prints the usage and stops. */
  function ApplyOpt(p: Params, o: Opt, online: int): (r: Option<Params>)
  {
    match o
    case ModeOpt(arg) =>
      if HasPrefix("read", arg) then Some(p.(write := false))
      else if HasPrefix("write", arg) then Some(p.(write := true))
      else None
    case SizeOpt(v) => if v < 0 then None else Some(p.(size := v))
    case BatchOpt(v) => if v < 0 || v > MAX_BATCH_SIZE then None else Some(p.(batch := v))
    case CpusOpt(v) => if v < 1 || v > online then None else Some(p.(ncpus := v))
    case LbaEndOpt(v) => if v.None? then None else Some(p.(lbaEnd := v.value))
    case TimeOpt(v) => Some(p.(time := v))
    case NvmeOpt => Some(p.(nvme := true))
    case WalkOpt(arg) =>
      if HasPrefix("random", arg) then Some(p.(walk := 0))
      else if HasPrefix("seq", arg) then Some(p.(walk := 1))
      else if HasPrefix("same", arg) then Some(p.(walk := 2))
      else None
    case Unknown => None
  }

  /** Is one option within bounds? */
  predicate OptOk(o: Opt, online: int)
  {
    match o
    case ModeOpt(arg) => HasPrefix("read", arg) || HasPrefix("write", arg)
    case SizeOpt(v) => v >= 0
    case BatchOpt(v) => 0 <= v <= MAX_BATCH_SIZE
    case CpusOpt(v) => 1 <= v <= online
    case LbaEndOpt(v) => v.Some?
    case TimeOpt(_) => true
    case NvmeOpt => true
    case WalkOpt(arg) => HasPrefix("random", arg) || HasPrefix("seq", arg) || HasPrefix("same", arg)
    case Unknown => false
  }

  /** The option loop, in command-line order. */
  function ParseOpts(p: Params, opts: seq<Opt>, online: int): (r: Option<Params>)
    decreases |opts|
  {
    if opts == [] then Some(p)
    else
      match ApplyOpt(p, opts[0], online)
      case None => None
      case Some(p') => ParseOpts(p', opts[1..], online)
  }

  predicate InBounds(p: Params, online: int)
  {
    0 <= p.walk <= 2 && p.size >= 0 && 0 <= p.batch <= MAX_BATCH_SIZE && 1 <= p.ncpus <= online
  }

  /** The check after the loop (apps/bench-nvme.c:396-399): without `-u`
      the benchmark stops. */
  function Finish(p: Params): (r: Option<Params>)
  {
    if !p.nvme then None else Some(p)
  }

  function Parse(opts: seq<Opt>, online: int): (r: Option<Params>)
  {
    match ParseOpts(DEFAULTS, opts, online)
    case None => None
    case Some(p) => Finish(p)
  }

  /** The option loop refuses the command line exactly when one of its
      options is out of bounds; what it accepts is within the bounds the
      threads rely on when it starts from parameters that are, and it has a
      device exactly when it started with one or some option is `-u`. */
  lemma {:induction false} ParseChecksBounds(p: Params, opts: seq<Opt>, online: int)
    ensures ParseOpts(p, opts, online).None? <==> exists i :: 0 <= i < |opts| && !OptOk(opts[i], online)
    ensures InBounds(p, online) && ParseOpts(p, opts, online).Some? ==>
              InBounds(ParseOpts(p, opts, online).value, online)
    ensures ParseOpts(p, opts, online).Some? ==>
              (ParseOpts(p, opts, online).value.nvme <==>
                 p.nvme || exists i :: 0 <= i < |opts| && opts[i] == NvmeOpt)
    decreases |opts|
  {
    if opts != [] {
      BadInTail(opts, online);
      NvmeInTail(opts);
      ApplyOptChecks(p, opts[0], online);
      var r := ApplyOpt(p, opts[0], online);
      if r.Some? {
        ParseChecksBounds(r.value, opts[1..], online);
      }
    }
  }

  /** One option is applied exactly when it is within bounds, keeps the
      bounds, and sets the device flag only for `-u`. */
  lemma ApplyOptChecks(p: Params, o: Opt, online: int)
    ensures ApplyOpt(p, o, online).Some? <==> OptOk(o, online)
    ensures InBounds(p, online) && ApplyOpt(p, o, online).Some? ==> InBounds(ApplyOpt(p, o, online).value, online)
    ensures ApplyOpt(p, o, online).Some? ==> (ApplyOpt(p, o, online).value.nvme <==> p.nvme || o == NvmeOpt)
  {
  }

  lemma BadInTail(opts: seq<Opt>, online: int)
    requires opts != []
    ensures (exists i :: 0 <= i < |opts| && !OptOk(opts[i], online))
            <==> !OptOk(opts[0], online) || exists i :: 0 <= i < |opts[1..]| && !OptOk(opts[1..][i], online)
  {
    if exists i :: 0 <= i < |opts| && !OptOk(opts[i], online) {
      var i :| 0 <= i < |opts| && !OptOk(opts[i], online);
      if i > 0 { assert opts[1..][i - 1] == opts[i]; }
    }
    if exists i :: 0 <= i < |opts[1..]| && !OptOk(opts[1..][i], online) {
      var i :| 0 <= i < |opts[1..]| && !OptOk(opts[1..][i], online);
      assert opts[i + 1] == opts[1..][i];
    }
  }

  lemma NvmeInTail(opts: seq<Opt>)
    requires opts != []
    ensures (exists i :: 0 <= i < |opts| && opts[i] == NvmeOpt)
            <==> opts[0] == NvmeOpt || exists i :: 0 <= i < |opts[1..]| && opts[1..][i] == NvmeOpt
  {
    if exists i :: 0 <= i < |opts| && opts[i] == NvmeOpt {
      var i :| 0 <= i < |opts| && opts[i] == NvmeOpt;
      if i > 0 { assert opts[1..][i - 1] == opts[i]; }
    }
    if exists i :: 0 <= i < |opts[1..]| && opts[1..][i] == NvmeOpt {
      var i :| 0 <= i < |opts[1..]| && opts[1..][i] == NvmeOpt;
      assert opts[i + 1] == opts[1..][i];
    }
  }

  /** The whole command line is accepted exactly when every option is
      within bounds and one of them is `-u`; what is accepted has a device
      and, on a machine with a CPU, the bounds the threads rely on. */
  lemma ParseAccepts(opts: seq<Opt>, online: int)
    ensures Parse(opts, online).Some? <==>
              (forall i :: 0 <= i < |opts| ==> OptOk(opts[i], online))
              && exists i :: 0 <= i < |opts| && opts[i] == NvmeOpt
    ensures Parse(opts, online).Some? ==> Parse(opts, online).value.nvme
    ensures online >= 1 && Parse(opts, online).Some? ==> InBounds(Parse(opts, online).value, online)
  {
    ParseChecksBounds(DEFAULTS, opts, online);
  }

  /** The defaults are within bounds on any machine with a CPU. */
  lemma DefaultsInBounds(online: int)
    requires online >= 1
    ensures InBounds(DEFAULTS, online)
  {
  }

  /** A negative `-t` is reported but not refused, and `-n` is bounded by
      the online CPUs only, not by the 32 entries of the thread array; the
      defaults alone are refused for want of a device. */
  lemma LaxOptions()
    ensures Parse([NvmeOpt, TimeOpt(-1)], 1) == Some(DEFAULTS.(time := -1, nvme := true))
    ensures Parse([NvmeOpt, CpusOpt(MAX_CPU_NUM + 1)], 64).Some?
    ensures Parse([NvmeOpt, CpusOpt(MAX_CPU_NUM + 1)], 64).value.ncpus > MAX_CPU_NUM
    ensures Parse([], 1).None?
  {
    var opts := [NvmeOpt, CpusOpt(MAX_CPU_NUM + 1)];
    assert opts[1..] == [CpusOpt(MAX_CPU_NUM + 1)];
    assert ParseOpts(DEFAULTS, opts, 64) == ParseOpts(DEFAULTS.(nvme := true), opts[1..], 64);
  }
}
