/** How the NVMe applications choose logical block addresses: `next_lba`,
    which exists twice (apps/nvgen.c:316-337 and apps/bench-nvme.c:192-213)
    with the same three walks but different numbers for them, and the split
    of the block range between threads (apps/nvgen.c:188-189 and
    apps/bench-nvme.c:408-409). All arithmetic is on `unsigned long`. The
    value of `rand()` is an oracle. */
module LbaWalk {
  import opened Machine

  /** `RAND_MAX` of glibc. */
  const RAND_MAX: nat := 0x7FFF_FFFF

  datatype Walk = Seq | Random | Same | Unknown

  /** nvgen's numbering: SEQ 0, RANDOM 1, SAME 2 (apps/nvgen.c:57-59). */
  function NvgenWalk(w: int): (k: Walk)
    ensures k == Seq <==> w == 0
    ensures k == Random <==> w == 1
    ensures k == Same <==> w == 2
  {
    if w == 0 then Seq else if w == 1 then Random else if w == 2 then Same else Unknown
  }

  /** bench-nvme's numbering: RANDOM 0, SEQ 1, SAME 2
      (apps/bench-nvme.c:30-34). */
  function BenchWalk(w: int): (k: Walk)
    ensures k == Random <==> w == 0
    ensures k == Seq <==> w == 1
    ensures k == Same <==> w == 2
  {
    if w == 0 then Random else if w == 1 then Seq else if w == 2 then Same else Unknown
  }

  /** The next address, or the division by zero that RANDOM performs when
      the range holds exactly `nblocks` blocks (C leaves it undefined). */
  datatype Step = Lba(lba: nat) | DivisionByZero

  /** `next_lba` of either program once the walk number is decoded. */
  function NextLba(walk: Walk, lba: nat, lbaStart: nat, lbaEnd: nat, nblocks: nat, rnd: nat)
    : (r: Step)
    requires lba < U64_LIMIT && lbaStart < U64_LIMIT && lbaEnd < U64_LIMIT && nblocks < U64_LIMIT
    requires rnd <= RAND_MAX
    ensures r.DivisionByZero? <==> walk == Random && U64(lbaEnd - lbaStart - nblocks) == 0
    ensures r.Lba? ==> r.lba < U64_LIMIT
    ensures walk == Same ==> r == Lba(lba)
    ensures walk == Unknown ==> r == Lba(0)
  {
    match walk
    case Seq =>
      if U64(lba + U64(nblocks * 2)) < lbaEnd then Lba(U64(lba + nblocks)) else Lba(lbaStart)
    case Random =>
      var span := U64(lbaEnd - lbaStart - nblocks);
      if span == 0 then DivisionByZero else Lba(U64(rnd % span + lbaStart))
    case Same => Lba(lba)
    case Unknown => Lba(0)
  }

  /** SEQ moves on by `nblocks` while the I/O after the next one would still
      start below `lba_end`, and otherwise starts over at `lba_start`; when
      nothing wraps, every I/O it issues from a start inside the range stays
      inside the range. */
  lemma SeqWalk(lba: nat, lbaStart: nat, lbaEnd: nat, nblocks: nat, rnd: nat)
    requires lbaStart <= lba && lba + 2 * nblocks < U64_LIMIT && lbaEnd < U64_LIMIT
    requires rnd <= RAND_MAX
    ensures var r := NextLba(Seq, lba, lbaStart, lbaEnd, nblocks, rnd);
            r.Lba?
            && (lba + 2 * nblocks < lbaEnd ==> r.lba == lba + nblocks)
            && (lba + 2 * nblocks >= lbaEnd ==> r.lba == lbaStart)
    ensures var r := NextLba(Seq, lba, lbaStart, lbaEnd, nblocks, rnd);
            lbaStart + nblocks <= lbaEnd ==> lbaStart <= r.lba && r.lba + nblocks <= lbaEnd
  {
  }

  /** RANDOM lands in `[lba_start, lba_end - nblocks)` when the range holds
      more than `nblocks` blocks, so the I/O fits in the range. */
  lemma RandomWalkInRange(lbaStart: nat, lbaEnd: nat, nblocks: nat, lba: nat, rnd: nat)
    requires lbaStart + nblocks < lbaEnd < U64_LIMIT && lba < U64_LIMIT
    requires rnd <= RAND_MAX
    ensures var r := NextLba(Random, lba, lbaStart, lbaEnd, nblocks, rnd);
            r.Lba? && lbaStart <= r.lba < lbaEnd - nblocks
  {
    var span := lbaEnd - lbaStart - nblocks;
    assert U64(lbaEnd - lbaStart - nblocks) == span;
    assert rnd % span + lbaStart < lbaEnd - nblocks;
  }

  /** The two programs agree once their walk numbers are decoded, but the
      same number means different walks: 0 is SEQ for nvgen and RANDOM for
      bench-nvme, 1 the other way round. */
  lemma WalkNumbering()
    ensures NvgenWalk(0) == Seq && BenchWalk(0) == Random
    ensures NvgenWalk(1) == Random && BenchWalk(1) == Seq
    ensures forall w :: NvgenWalk(w) == Same <==> BenchWalk(w) == Same
  {
  }

  /** The block range of thread `k` of `ncpus`: an equal share
      `lba_end / ncpus` of the blocks, in thread order. */
  datatype Range = Range(start: nat, end: nat)

  function ThreadRange(lbaEnd: nat, ncpus: nat, k: nat): (r: Range)
    requires 0 < ncpus && k < ncpus && lbaEnd < U64_LIMIT
    ensures r.start == lbaEnd / ncpus * k && r.end == lbaEnd / ncpus * (k + 1)
    ensures r.end - r.start == lbaEnd / ncpus
    ensures r.end <= lbaEnd
  {
    var share := lbaEnd / ncpus;
    ShareFits(lbaEnd, ncpus, k);
    Range(U64(share * k), U64(share * (k + 1)))
  }

  /** Thread `k`'s share ends within `lba_end` and is one share long. */
  lemma ShareFits(lbaEnd: nat, ncpus: nat, k: nat)
    requires 0 < ncpus && k < ncpus
    ensures var share := lbaEnd / ncpus;
            share * k + share == share * (k + 1) && share * k <= share * (k + 1) <= lbaEnd
    ensures lbaEnd < U64_LIMIT ==>
              var share := lbaEnd / ncpus;
              U64(share * k) == share * k && U64(share * (k + 1)) == share * (k + 1)
  {
    var share := lbaEnd / ncpus;
    assert share * ncpus + lbaEnd % ncpus == lbaEnd;
    assert share * (k + 1) <= share * ncpus by { MonotoneMul(share, k + 1, ncpus); }
    assert share * (k + 1) == share * k + share;
  }

  lemma MonotoneMul(a: nat, b: nat, c: nat)
    requires b <= c
    ensures a * b <= a * c
  {
  }

  /** Consecutive threads' ranges meet without overlapping; the first starts
      at 0 and the last ends at `lba_end` rounded down to a multiple of
      `ncpus`, so at most `ncpus - 1` blocks at the end are never used. */
  lemma ThreadRangesPartition(lbaEnd: nat, ncpus: nat)
    requires 0 < ncpus && lbaEnd < U64_LIMIT
    ensures ThreadRange(lbaEnd, ncpus, 0).start == 0
    ensures forall k :: 0 <= k < ncpus - 1 ==>
              ThreadRange(lbaEnd, ncpus, k).end == ThreadRange(lbaEnd, ncpus, k + 1).start
    ensures ThreadRange(lbaEnd, ncpus, ncpus - 1).end == lbaEnd - lbaEnd % ncpus
    ensures lbaEnd % ncpus < ncpus
  {
    var share := lbaEnd / ncpus;
    assert share * ncpus + lbaEnd % ncpus == lbaEnd;
    forall k | 0 <= k < ncpus - 1
      ensures ThreadRange(lbaEnd, ncpus, k).end == ThreadRange(lbaEnd, ncpus, k + 1).start
    {
    }
  }

  /** Two different threads never share a block. */
  lemma ThreadRangesDisjoint(lbaEnd: nat, ncpus: nat, i: nat, j: nat, lba: nat)
    requires 0 < ncpus && i < j < ncpus && lbaEnd < U64_LIMIT
    requires ThreadRange(lbaEnd, ncpus, i).start <= lba < ThreadRange(lbaEnd, ncpus, i).end
    ensures !(ThreadRange(lbaEnd, ncpus, j).start <= lba < ThreadRange(lbaEnd, ncpus, j).end)
  {
    var share := lbaEnd / ncpus;
    MonotoneMul(share, i + 1, j);
  }
}
