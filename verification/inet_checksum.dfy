/** The Internet checksum of nmgen (apps/nmgen.c:87-113), taken from
    netmap's pkt-gen: `checksum` adds 16-bit big-endian words into a
    `uint32_t`, folding the carry back in after every word, and pads an odd
    last byte with a zero byte; `wrapsum` complements the result for the
    header. RFC 1071 section 1 defines the sum it computes: the 16-bit
    ones'-complement sum, which is the sum modulo 0xFFFF written in
    [1, 0xFFFF] unless every word is zero. */
module InetChecksum {
  import opened Machine
  import opened Bytes

  /** The modulus of 16-bit ones'-complement arithmetic. */
  const ONES: nat := 0xFFFF

  /** The j-th 16-bit word, `ntohs` of the two bytes at `2 * j`. */
  function Word(data: seq<Byte>, j: nat): (w: nat)
    requires 2 * j + 2 <= |data|
    ensures w < U16_LIMIT
  {
    ReadBE16(data, 2 * j)
  }

  /** `sum += w; if (sum > 0xFFFF) sum -= 0xFFFF;` on the `uint32_t`. */
  function AddFold(sum: nat, w: nat): (r: nat)
    requires sum < U32_LIMIT
    ensures r < U32_LIMIT
  {
    var s := U32(sum + w);
    if s > ONES then s - ONES else s
  }

  /** The running sum once the first `k` words are added. */
  function Running(data: seq<Byte>, sum0: nat, k: nat): (s: nat)
    requires sum0 < U32_LIMIT && 2 * k <= |data|
    ensures s < U32_LIMIT
  {
    if k == 0 then sum0 else AddFold(Running(data, sum0, k - 1), Word(data, k - 1))
  }

  /** The sum `checksum` ends with: every whole word, then an odd last
      byte shifted into the high half of a word. */
  function Folded(data: seq<Byte>, sum0: nat): (s: nat)
    requires sum0 < U32_LIMIT
    ensures s < U32_LIMIT
  {
    var k := |data| / 2;
    var s := Running(data, sum0, k);
    if 2 * k < |data| then AddFold(s, data[2 * k] as int * 256) else s
  }

  /** `checksum(data, len, sum)`: the final sum returned as `uint16_t`. */
  function Checksum(data: seq<Byte>, sum0: nat): (c: nat)
    requires |data| < U16_LIMIT && sum0 < U32_LIMIT
    ensures c < U16_LIMIT
  {
    U16(Folded(data, sum0))
  }

  /** The loop of `checksum` as written, with `i` stepping by two up to
      `len & ~1U`: it computes `Checksum`. */
  method ChecksumLoop(data: seq<Byte>, sum0: nat) returns (c: nat)
    requires |data| < U16_LIMIT && sum0 < U32_LIMIT
    ensures c == Checksum(data, sum0)
  {
    var len := |data|;
    var sum := sum0;
    var i := 0;
    ghost var k := 0;
    while i < len - len % 2
      invariant i == 2 * k && i <= len - len % 2
      invariant sum == Running(data, sum0, k)
    {
      assert ReadBE16(data, i) == Word(data, k);
      sum := U32(sum + ReadBE16(data, i));
      if sum > ONES {
        sum := sum - ONES;
      }
      i := i + 2;
      k := k + 1;
    }
    assert k == len / 2;
    if i < len {
      sum := U32(sum + data[i] as int * 256);
      if sum > ONES {
        sum := sum - ONES;
      }
    }
    c := U16(sum);
  }

  /** The plain sum of the first `k` words. */
  function WordSum(data: seq<Byte>, k: nat): nat
    requires 2 * k <= |data|
  {
    if k == 0 then 0 else WordSum(data, k - 1) + Word(data, k - 1)
  }

  /** More words never make a smaller sum. */
  lemma {:induction false} WordSumGrows(data: seq<Byte>, j: nat, k: nat)
    requires j <= k && 2 * k <= |data|
    ensures WordSum(data, j) <= WordSum(data, k)
    decreases k
  {
    if j < k {
      WordSumGrows(data, j, k - 1);
    }
  }

  /** The data with a zero byte appended when its length is odd
      (RFC 1071 section 1). */
  function Padded(data: seq<Byte>): (p: seq<Byte>)
    ensures |p| % 2 == 0 && |p| == |data| + |data| % 2 && p[..|data|] == data
  {
    if |data| % 2 == 1 then data + [0] else data
  }

  /** The initial sum plus every word of the padded data. */
  function Total(data: seq<Byte>, sum0: nat): nat
  {
    sum0 + WordSum(Padded(data), |Padded(data)| / 2)
  }

  /** The 16-bit ones'-complement sum of a total: 0 for 0, otherwise the
      value in [1, 0xFFFF] congruent to it modulo 0xFFFF. */
  function OnesSum(t: nat): (r: nat)
    ensures r <= ONES
    ensures r == 0 <==> t == 0
    ensures r % ONES == t % ONES
  {
    if t == 0 then 0
    else
      var r := (t - 1) % ONES + 1;
      assert t == (t - 1) / ONES * ONES + r;
      ShiftByMultiple(r, (t - 1) / ONES, ONES);
      r
  }

  /** A value in [0, 0xFFFF] that is zero exactly when the total is and
      agrees with it modulo 0xFFFF is the ones'-complement sum. */
  lemma OnesSumUnique(r: nat, t: nat)
    requires r <= ONES && r % ONES == t % ONES && (r == 0 <==> t == 0)
    ensures r == OnesSum(t)
  {
    var o := OnesSum(t);
    if t != 0 {
      assert r == ONES <==> r % ONES == 0;
      assert o == ONES <==> o % ONES == 0;
    }
  }

  /** From an initial sum of at most 0xFFFF the running sum never needs
      more than 16 bits, keeps the total modulo 0xFFFF, and is zero only
      while every word so far is. */
  lemma {:induction false} RunningFolds(data: seq<Byte>, sum0: nat, k: nat)
    requires sum0 <= ONES && 2 * k <= |data|
    ensures Running(data, sum0, k) <= ONES
    ensures Running(data, sum0, k) % ONES == (sum0 + WordSum(data, k)) % ONES
    ensures Running(data, sum0, k) == 0 <==> sum0 + WordSum(data, k) == 0
  {
    if k > 0 {
      RunningFolds(data, sum0, k - 1);
      FoldStep(Running(data, sum0, k - 1), sum0 + WordSum(data, k - 1), Word(data, k - 1));
    }
  }

  /** One fold keeps a running sum of at most 0xFFFF in 16 bits, congruent
      to the plain total modulo 0xFFFF and zero only with it. */
  lemma FoldStep(s: nat, t: nat, w: nat)
    requires s <= ONES && w < U16_LIMIT
    requires s % ONES == t % ONES && (s == 0 <==> t == 0)
    ensures AddFold(s, w) <= ONES
    ensures AddFold(s, w) % ONES == (t + w) % ONES
    ensures AddFold(s, w) == 0 <==> t + w == 0
  {
    assert U32(s + w) == s + w;
    AddMod(s, w, ONES);
    AddMod(t, w, ONES);
    if s + w > ONES {
      ShiftByMultiple(s + w - ONES, 1, ONES);
    }
  }

  /** Two byte strings with the same first `k` words have the same running
      sum over them. */
  lemma {:induction false} RunningAgree(a: seq<Byte>, b: seq<Byte>, sum0: nat, k: nat)
    requires sum0 < U32_LIMIT && 2 * k <= |a| && 2 * k <= |b| && a[..2 * k] == b[..2 * k]
    ensures Running(a, sum0, k) == Running(b, sum0, k)
  {
    if k > 0 {
      assert a[..2 * (k - 1)] == a[..2 * k][..2 * (k - 1)];
      assert b[..2 * (k - 1)] == b[..2 * k][..2 * (k - 1)];
      RunningAgree(a, b, sum0, k - 1);
      assert a[2 * k - 2] == a[..2 * k][2 * k - 2] && a[2 * k - 1] == a[..2 * k][2 * k - 1];
      assert b[2 * k - 2] == b[..2 * k][2 * k - 2] && b[2 * k - 1] == b[..2 * k][2 * k - 1];
    }
  }

  /** Folding the data is folding its zero-padded words. */
  lemma FoldedPadded(data: seq<Byte>, sum0: nat)
    requires sum0 < U32_LIMIT
    ensures Folded(data, sum0) == Running(Padded(data), sum0, |Padded(data)| / 2)
  {
    var p := Padded(data);
    var k := |data| / 2;
    assert data[..2 * k] == p[..2 * k] by {
      assert data[..2 * k] == p[..|data|][..2 * k];
    }
    RunningAgree(data, p, sum0, k);
    if 2 * k < |data| {
      assert |p| / 2 == k + 1;
      assert p[2 * k] == data[2 * k] && p[2 * k + 1] == 0;
      assert Word(p, k) == data[2 * k] as int * 256;
    } else {
      assert |p| / 2 == k;
    }
  }

  /** `checksum` computes the ones'-complement sum of RFC 1071 section 1
      over the initial sum and the zero-padded words, whenever the initial
      sum fits in 16 bits. */
  lemma ChecksumIsOnesSum(data: seq<Byte>, sum0: nat)
    requires |data| < U16_LIMIT && sum0 <= ONES
    ensures Checksum(data, sum0) == OnesSum(Total(data, sum0))
  {
    var p := Padded(data);
    FoldedPadded(data, sum0);
    RunningFolds(p, sum0, |p| / 2);
    OnesSumUnique(Folded(data, sum0), Total(data, sum0));
  }

  /** An odd-length block sums as if padded with one zero byte. */
  lemma ZeroPadding(data: seq<Byte>, sum0: nat)
    requires |data| % 2 == 1 && |data| + 1 < U16_LIMIT && sum0 <= ONES
    ensures Checksum(data, sum0) == Checksum(data + [0], sum0)
  {
    ChecksumIsOnesSum(data, sum0);
    ChecksumIsOnesSum(data + [0], sum0);
    assert Padded(data) == data + [0] == Padded(data + [0]);
  }

  /** Writing `v` into word `w` changes the sum of the words by the
      difference. */
  lemma {:induction false} WordSumReplace(data: seq<Byte>, w: nat, v: nat, k: nat)
    requires v < U16_LIMIT && 2 * w + 2 <= |data| && 2 * k <= |data|
    ensures var d := Overlay(data, 2 * w, BE16(v));
            WordSum(d, k) + (if w < k then Word(data, w) else 0)
              == WordSum(data, k) + (if w < k then v else 0)
  {
    var d := Overlay(data, 2 * w, BE16(v));
    if k > 0 {
      WordSumReplace(data, w, v, k - 1);
      if k - 1 == w {
        assert Word(d, w) == v;
      } else {
        assert d[2 * (k - 1)] == data[2 * (k - 1)] && d[2 * (k - 1) + 1] == data[2 * (k - 1) + 1];
      }
    }
  }

  /** `wrapsum(sum)`: `~sum & 0xFFFF` through `htons`, so that the host
      stores the complement of the sum in network order. */
  function WrapSum(sum: nat): (r: nat)
    requires sum < U32_LIMIT
    ensures r < U16_LIMIT
    ensures LE16(r) == BE16(ONES - sum % U16_LIMIT)
  {
    var v := U16(U32_LIMIT - 1 - sum);
    assert v == ONES - sum % U16_LIMIT by {
      DivModUnique(U32_LIMIT - 1 - sum, 0xFFFF - sum / U16_LIMIT, ONES - sum % U16_LIMIT, U16_LIMIT);
    }
    SwapStoresNetworkOrder(v);
    Swap16(v)
  }

  /** Adding the complement of a ones'-complement sum to its total gives
      a total whose ones'-complement sum is 0xFFFF, the all-ones word. */
  lemma ComplementSumsToOnes(t: nat)
    requires t > 0
    ensures OnesSum(t + (ONES - OnesSum(t))) == ONES
  {
    var q := (t - 1) / ONES;
    var c := OnesSum(t);
    assert c == (t - 1) % ONES + 1;
    assert t - c == q * ONES;
    assert t + (ONES - c) - 1 == (q + 1) * ONES - 1;
    DivModUnique(t + (ONES - c) - 1, q, ONES - 1, ONES);
  }

  /** The receiver's check of RFC 1071 section 1: when the word at `w`
      was zero while the sum `c` was computed and then receives
      `wrapsum(c)` as the host stores it, the sum over the block is 0xFFFF,
      provided the block is not all zeros. */
  lemma ComplementVerifies(data: seq<Byte>, w: nat)
    requires |data| % 2 == 0 && |data| < U16_LIMIT && 2 * w + 2 <= |data|
    requires Word(data, w) == 0 && Total(data, 0) > 0
    ensures var c := Checksum(data, 0);
            Checksum(Overlay(data, 2 * w, LE16(WrapSum(c))), 0) == ONES
  {
    var c := Checksum(data, 0);
    ChecksumIsOnesSum(data, 0);
    var v := ONES - c;
    assert LE16(WrapSum(c)) == BE16(v) by {
      assert c % U16_LIMIT == c;
    }
    var d := Overlay(data, 2 * w, BE16(v));
    OverlaidTotal(data, w, v);
    ChecksumIsOnesSum(d, 0);
    ComplementCloses(Total(data, 0), c, Total(d, 0), Checksum(d, 0));
  }

  /** Adding the complement of a nonzero total's ones'-complement sum gives
      a total whose sum is 0xFFFF. */
  lemma ComplementCloses(t: nat, c: nat, t2: nat, r: nat)
    requires t > 0 && c == OnesSum(t) && t2 == t + (ONES - c) && r == OnesSum(t2)
    ensures r == ONES
  {
    ComplementSumsToOnes(t);
  }

  /** Writing `v` over a zero word of even-length data adds `v` to the
      total. */
  lemma OverlaidTotal(data: seq<Byte>, w: nat, v: nat)
    requires |data| % 2 == 0 && v < U16_LIMIT && 2 * w + 2 <= |data| && Word(data, w) == 0
    ensures Total(Overlay(data, 2 * w, BE16(v)), 0) == Total(data, 0) + v
  {
    var d := Overlay(data, 2 * w, BE16(v));
    var k := |data| / 2;
    WordSumReplace(data, w, v, k);
    assert Padded(data) == data && Padded(d) == d;
  }
}
