/** C integer widths, page constants and errno values shared by every module.
    The source is C on x86_64 Linux: `size_t`, `unsigned long` and `uintptr_t`
    are 64 bits wide, `unsigned int` and `uint32_t` 32 bits, `uint16_t` 16 bits.
    Dafny integers are unbounded, so every place where the C code relies on an
    unsigned wrap-around applies one of the reductions below explicitly. */
module Machine {

  const PAGE_SHIFT: nat := 12
  const PAGE_SIZE: nat := 4096

  const U16_LIMIT: nat := 0x1_0000
  const U32_LIMIT: nat := 0x1_0000_0000
  const U64_LIMIT: nat := 0x1_0000_0000_0000_0000

  /* errno values of Linux (asm-generic/errno-base.h and errno.h) */
  const ENOMEM: int := 12
  const EFAULT: int := 14
  const ENODEV: int := 19
  const EINVAL: int := 22
  const ENOBUFS: int := 105

  /** A value that may be missing: a refused input, an absent result. */
  datatype Option<T> = None | Some(value: T)

  /** The value a failing call leaves in `errno`: set explicitly by the
      modelled code, or left to whatever the failing system call stored. */
  datatype Errno = FromCall | Set(code: int)

  /** Conversion of any integer to `uint16_t`. */
  function U16(x: int): (r: nat)
    ensures r < U16_LIMIT
    ensures 0 <= x < U16_LIMIT ==> r == x
  {
    x % U16_LIMIT
  }

  /** Conversion of any integer to `uint32_t` / `unsigned int`. */
  function U32(x: int): (r: nat)
    ensures r < U32_LIMIT
    ensures 0 <= x < U32_LIMIT ==> r == x
  {
    x % U32_LIMIT
  }

  /** Conversion of any integer to `size_t` / `unsigned long`. */
  function U64(x: int): (r: nat)
    ensures r < U64_LIMIT
    ensures 0 <= x < U64_LIMIT ==> r == x
  {
    x % U64_LIMIT
  }

  /** A sum of two `size_t` values wraps at most once. */
  lemma U64WrapsOnce(x: int)
    requires 0 <= x < 2 * U64_LIMIT
    ensures x < U64_LIMIT ==> U64(x) == x
    ensures x >= U64_LIMIT ==> U64(x) == x - U64_LIMIT
  {
    if x >= U64_LIMIT {
      assert x - U64_LIMIT < U64_LIMIT;
      assert x == 1 * U64_LIMIT + (x - U64_LIMIT);
    }
  }

  /** A difference of two `size_t` values wraps at most once. */
  lemma U64BorrowsOnce(x: int)
    requires 0 <= x + U64_LIMIT && x < U64_LIMIT
    ensures x < 0 ==> U64(x) == x + U64_LIMIT
  {
    if x < 0 {
      assert x == -1 * U64_LIMIT + (x + U64_LIMIT);
    }
  }

  /** Conversion of any integer to a two's complement `int`. */
  function I32(x: int): (r: int)
    ensures -0x8000_0000 <= r < 0x8000_0000
    ensures -0x8000_0000 <= x < 0x8000_0000 ==> r == x
  {
    var u := x % U32_LIMIT;
    if u < 0x8000_0000 then u else u - U32_LIMIT
  }

  /** Copying a string into a fixed buffer (`strncpy`, `snprintf`): at most
      `n` characters are kept. */
  function Truncate(s: string, n: nat): (r: string)
    ensures |r| == Min(|s|, n) && r == s[..|r|]
  {
    if |s| <= n then s else s[..n]
  }

  /** `strncmp(arg, word, |word|) == 0`: `arg` starts with `word`. */
  predicate HasPrefix(word: string, arg: string)
  {
    |word| <= |arg| && arg[..|word|] == word
  }

  function Pow2(k: nat): (r: nat)
    ensures r >= 1
  {
    if k == 0 then 1 else 2 * Pow2(k - 1)
  }

  function Min(a: int, b: int): int
  {
    if a < b then a else b
  }

  /** The range of a C `int`. */
  predicate IsInt(x: int)
  {
    -0x8000_0000 <= x < 0x8000_0000
  }

  /** A negative `int` converted to an unsigned type of `2^k` values. */
  lemma NegativeConverts(x: int, limit: int)
    requires limit >= 0x8000_0000
    ensures IsInt(x) && x < 0 ==> x % limit == x + limit
  {
    if IsInt(x) && x < 0 {
      DivModUnique(x, -1, x + limit, limit);
    }
  }

  /** A product with a factor of at least one is at least the other factor. */
  lemma MulAtLeast(d: int, p: int)
    requires d >= 1 && p > 0
    ensures d * p >= p
  {
    var e := d - 1;
    assert d * p == e * p + p;
    assert e * p >= 0;
  }

  /** Quotient and remainder are unique. */
  lemma DivModUnique(x: int, q: int, b: int, p: int)
    requires p > 0 && 0 <= b < p && x == q * p + b
    ensures x % p == b
  {
    var q' := x / p;
    var b' := x % p;
    assert q * p + b == q' * p + b';
    assert (q - q') * p == b' - b;
    if q - q' >= 1 {
      MulAtLeast(q - q', p);
    } else if q' - q >= 1 {
      MulAtLeast(q' - q, p);
    }
  }

  /** Adding a multiple of `p` does not change the remainder modulo `p`. */
  lemma ShiftByMultiple(r: nat, n: nat, p: nat)
    requires p > 0
    ensures (n * p + r) % p == r % p
  {
    var a := r / p;
    var b := r % p;
    assert r == a * p + b;
    assert n * p + r == (n + a) * p + b;
    DivModUnique(n * p + r, n + a, b, p);
  }

  /** Reducing modulo a multiple of `p` keeps the remainder modulo `p`. */
  lemma ModOfMod(x: nat, m: nat, p: nat)
    requires p > 0 && m > 0 && m % p == 0
    ensures (x % m) % p == x % p
  {
    var k := m / p;
    var q := x / m;
    var r := x % m;
    assert m == k * p;
    assert x == q * m + r;
    assert x == (q * k) * p + r by {
      assert q * m == q * (k * p) == (q * k) * p;
    }
    ShiftByMultiple(r, q * k, p);
  }

  /** Reducing a summand first does not change the sum's remainder. */
  lemma AddMod(x: nat, y: nat, p: nat)
    requires p > 0
    ensures (x % p + y) % p == (x + y) % p
  {
    ShiftByMultiple(x % p + y, x / p, p);
    assert x / p * p + x % p == x;
  }
}
