/** PCI slot names as text: the `%04x:%02x:%02x.%x` names that lib/libpop.c
    formats for the per-device file and the kernel module's `pop_dev_open`
    scans back, and the `D:B:S.F` / `B:S.F` strings that `pop_ctx_init`
    accepts. `sscanf` is modelled for the only conversions used here, `%x`
    into an `unsigned int` and literal characters, in both of the
    implementations involved: glibc's in the library and the kernel's
    `vsscanf` in the module. Both skip leading white space and take a `0x`
    prefix; glibc also takes a sign and saturates on overflow, the kernel
    wraps. */
module PciName {
  import opened Machine

  const HEX_DIGITS: string := "0123456789abcdef"

  /** Value of a hexadecimal digit of either case, or -1. */
  function HexValue(c: char): (r: int)
    ensures -1 <= r < 16
  {
    if '0' <= c <= '9' then c as int - '0' as int
    else if 'a' <= c <= 'f' then c as int - 'a' as int + 10
    else if 'A' <= c <= 'F' then c as int - 'A' as int + 10
    else -1
  }

  predicate IsHex(c: char)
  {
    HexValue(c) >= 0
  }

  predicate AllHex(s: string)
  {
    forall i :: 0 <= i < |s| ==> IsHex(s[i])
  }

  /** Length of the longest prefix of `s` made of hexadecimal digits. */
  function HexRun(s: string): (n: nat)
    ensures n <= |s|
    ensures AllHex(s[..n])
    ensures n < |s| ==> !IsHex(s[n])
  {
    if |s| == 0 || !IsHex(s[0]) then 0
    else
      var n := 1 + HexRun(s[1..]);
      assert s[..n] == [s[0]] + s[1..][..n - 1];
      n
  }

  /** The number a string of hexadecimal digits denotes. */
  function DigitsValue(ds: string): nat
    requires AllHex(ds)
  {
    if ds == [] then 0
    else DigitsValue(ds[..|ds| - 1]) * 16 + HexValue(ds[|ds| - 1])
  }

  /** One piece of a `sscanf` format: a `%x` conversion or a literal. */
  datatype Directive = Hex | Lit(c: char)

  /** What `sscanf` returns: the number of conversions stored, and the
      stored values in format order. A scan that fails before its first
      conversion returns 0 or EOF, which the callers treat alike. */
  datatype Scanned = Scanned(count: nat, values: seq<nat>)

  function Conversions(fmt: seq<Directive>): nat
  {
    if fmt == [] then 0 else (if fmt[0] == Hex then 1 else 0) + Conversions(fmt[1..])
  }

  /** Which `sscanf` runs: glibc's (lib/libpop.c) or the kernel's
      (kmod/boogiepop.c). */
  datatype Flavor = Libc | Kernel

  /** `isspace` of the C locale; the kernel's table also counts the
      Latin-1 no-break space 0xA0. */
  predicate IsSpace(c: char, f: Flavor)
  {
    c == ' ' || ('\t' <= c <= '\r') || (f == Kernel && c as int == 0xA0)
  }

  /** Length of the longest prefix of `s` made of white space. */
  function SpaceRun(s: string, f: Flavor): (n: nat)
    ensures n <= |s|
    ensures forall i :: 0 <= i < n ==> IsSpace(s[i], f)
    ensures n < |s| ==> !IsSpace(s[n], f)
  {
    if |s| == 0 || !IsSpace(s[0], f) then 0 else 1 + SpaceRun(s[1..], f)
  }

  /** Length of the `0x` or `0X` prefix a `%x` conversion consumes at the
      start of `u`. Both implementations take it whatever follows, so a
      bare `0x` reads as 0: glibc cannot push two characters back, and the
      kernel's radix fix-up skips the prefix whenever the base is 16. */
  function PrefixLen(u: string): (x: nat)
    ensures x == 0 || x == 2
    ensures x == 2 ==> |u| >= 2 && u[0] == '0' && (u[1] == 'x' || u[1] == 'X')
  {
    if |u| >= 2 && u[0] == '0' && (u[1] == 'x' || u[1] == 'X') then 2 else 0
  }

  /** The number stored into the `unsigned int`. glibc converts with
      `strtoul`, which saturates at `ULONG_MAX` and negates a signed
      number modulo 2^64, then keeps the low 32 bits; the kernel's
      `simple_strtoul` wraps modulo 2^64 and has no sign for `%x`. */
  function FieldValue(f: Flavor, neg: bool, mag: nat): (v: nat)
    ensures v < U32_LIMIT
    ensures mag < U32_LIMIT && !neg ==> v == mag
    ensures f == Kernel ==> v == mag % U32_LIMIT
  {
    if f == Kernel then U32(mag)
    else if mag >= U64_LIMIT then U32_LIMIT - 1
    else if neg then U32(0 - mag)
    else U32(mag)
  }

  /** The digits of a `%x` conversion once white space and sign are
      skipped: their value and the characters they take, prefix included. */
  datatype Digits = NoDigits | Digits(mag: nat, used: nat)

  /** An optional `0x` prefix and a maximal run of hexadecimal digits;
      without a prefix at least one digit is needed. */
  function Unsigned(u: string): (d: Digits)
    ensures d.Digits? ==> 0 < d.used <= |u|
    ensures |u| > 0 && IsHex(u[0]) ==> d.Digits?
  {
    var x := PrefixLen(u);
    var n := HexRun(u[x..]);
    if x == 0 && n == 0 then NoDigits else Digits(DigitsValue(u[x..][..n]), x + n)
  }

  /** One `%x` conversion at the start of the input: the value stored and
      the number of characters consumed, or a matching failure. */
  datatype Field = NoField | Field(value: nat, used: nat)

  /** `%x`: white space, then (glibc only) a sign, then the digits. */
  function HexField(s: string, f: Flavor): (r: Field)
    ensures r.Field? ==> 0 < r.used <= |s| && r.value < U32_LIMIT
    ensures |s| > 0 && IsHex(s[0]) ==> r.Field?
  {
    DigitStartsField(s, f);
    var w := SpaceRun(s, f);
    var t := s[w..];
    var p := if f == Libc && |t| > 0 && (t[0] == '+' || t[0] == '-') then 1 else 0;
    match Unsigned(t[p..])
    case NoDigits => NoField
    case Digits(m, k) => Field(FieldValue(f, p == 1 && t[0] == '-', m), w + p + k)
  }

  /** A digit is neither white space nor a sign. */
  lemma DigitStartsField(s: string, f: Flavor)
    ensures |s| > 0 && IsHex(s[0]) ==>
              !IsSpace(s[0], f) && SpaceRun(s, f) == 0 && s[0] != '+' && s[0] != '-'
  {
  }

  /** `sscanf(s, fmt, ...)`: conversions are stored left to right until the
      first directive that does not match; the rest of the string is
      ignored. A literal must match the next character exactly. */
  function Scan(s: string, fmt: seq<Directive>, f: Flavor): (r: Scanned)
    ensures |r.values| == r.count <= Conversions(fmt)
    ensures forall i :: 0 <= i < |r.values| ==> r.values[i] < U32_LIMIT
  {
    if fmt == [] then Scanned(0, [])
    else match fmt[0]
      case Lit(c) =>
        if |s| > 0 && s[0] == c then Scan(s[1..], fmt[1..], f) else Scanned(0, [])
      case Hex =>
        match HexField(s, f)
        case NoField => Scanned(0, [])
        case Field(v, k) =>
          var rest := Scan(s[k..], fmt[1..], f);
          Scanned(rest.count + 1, [v] + rest.values)
  }

  /** `".%x"` */
  const DOT_HEX: seq<Directive> := [Lit('.'), Hex]
  /** `":%x.%x"` */
  const SLOT_TAIL: seq<Directive> := [Lit(':'), Hex] + DOT_HEX
  /** `":%x:%x.%x"` */
  const BUS_TAIL: seq<Directive> := [Lit(':'), Hex] + SLOT_TAIL
  /** `"%x:%x:%x.%x"` */
  const PCI4: seq<Directive> := [Hex] + BUS_TAIL
  /** `"%x:%x.%x"` */
  const PCI3: seq<Directive> := [Hex] + SLOT_TAIL

  /** Lower-case hexadecimal digits of `v`, without leading zeros. */
  function ToHex(v: nat): (s: string)
    ensures |s| >= 1 && AllHex(s)
  {
    if v < 16 then [HEX_DIGITS[v]]
    else ToHex(v / 16) + [HEX_DIGITS[v % 16]]
  }

  function Zeros(n: nat): (s: string)
    ensures |s| == n && AllHex(s)
  {
    if n == 0 then [] else "0" + Zeros(n - 1)
  }

  /** `printf("%0<width>x", v)`. */
  function FormatHex(v: nat, width: nat): (s: string)
    ensures AllHex(s) && |s| >= 1
  {
    var ds := ToHex(v);
    if |ds| < width then Zeros(width - |ds|) + ds else ds
  }

  /** The PCI address fields carried by `struct pop_p2pmem_reg`, each the
      bit pattern of a 32-bit `int`. */
  datatype PciAddr = PciAddr(domain: nat, bus: nat, slot: nat, func: nat)

  /** Every field fits its 32 bits. */
  predicate Fits(a: PciAddr)
  {
    a.domain < U32_LIMIT && a.bus < U32_LIMIT && a.slot < U32_LIMIT && a.func < U32_LIMIT
  }

  /** `struct pop_p2pmem_reg` of include/libpop.h, the argument of both
      ioctls: the PCI address and the p2pmem size. */
  datatype Reg = Reg(addr: PciAddr, size: nat)

  /** `"%04x:%02x:%02x.%x"`, the name libpop opens under /dev/pop/
      (lib/libpop.c:114-116), which is also the kernel's `pci_name`. */
  function SlotName(a: PciAddr): string
  {
    FormatHex(a.domain, 4) + BusTail(a.bus, a.slot, a.func)
  }

  /** `"%02x:%02x.%x"`, the short form without a domain. */
  function ShortSlotName(bus: nat, slot: nat, func: nat): string
  {
    FormatHex(bus, 2) + (":" + (FormatHex(slot, 2) + ("." + FormatHex(func, 1))))
  }

  /** The misc device name the kernel module gives a registered device:
      `"pop/%s"` of its `pci_name`, i.e. a file under /dev/pop/. */
  function KernelDevName(a: PciAddr): string
  {
    "pop/" + SlotName(a)
  }

  /** `char popdev[32]` in `pop_ctx_init`. */
  const POPDEV_LEN: nat := 32

  /** The path `pop_ctx_init` opens for mmap: `snprintf` of
      `"/dev/pop/%04x:%02x:%02x.%x"` into `popdev`, which keeps at most 31
      characters. */
  function DevicePath(a: PciAddr): (p: string)
    ensures |p| == Min(|"/dev/" + KernelDevName(a)|, POPDEV_LEN - 1)
    ensures p == ("/dev/" + KernelDevName(a))[..|p|]
  {
    Truncate("/dev/" + KernelDevName(a), POPDEV_LEN - 1)
  }

  function Nth(vs: seq<nat>, i: nat): nat
  {
    if i < |vs| then vs[i] else 0
  }

  /** Outcome of the slot parse in `pop_ctx_init`: the field values left in
      `ctx->reg`, and whether the parse was accepted. */
  datatype SlotParse = SlotParse(accepted: bool, addr: PciAddr)

  /** lib/libpop.c:81-95, with glibc's `sscanf`. The four-field scan
      stores what it converted into the zeroed context; if it stored fewer
      than four, the domain is reset to 0 and the three-field scan runs over
      the same string, overwriting bus, slot and function as far as it gets.
      Fewer than three conversions is EINVAL. */
  function ParsePciSlot(dev: string): (r: SlotParse)
    ensures Fits(r.addr)
    ensures r.accepted <==> Scan(dev, PCI4, Libc).count == 4 || Scan(dev, PCI3, Libc).count == 3
    ensures Scan(dev, PCI4, Libc).count == 4 ==>
              var vs := Scan(dev, PCI4, Libc).values;
              r.addr == PciAddr(vs[0], vs[1], vs[2], vs[3])
    ensures Scan(dev, PCI4, Libc).count < 4 ==> r.addr.domain == 0
    ensures Scan(dev, PCI4, Libc).count < 4 && Scan(dev, PCI3, Libc).count == 3 ==>
              var ws := Scan(dev, PCI3, Libc).values;
              r.addr == PciAddr(0, ws[0], ws[1], ws[2])
  {
    var s4 := Scan(dev, PCI4, Libc);
    var vs := s4.values;
    var a4 := PciAddr(Nth(vs, 0), Nth(vs, 1), Nth(vs, 2), Nth(vs, 3));
    if s4.count == 4 then SlotParse(true, a4)
    else
      var s3 := Scan(dev, PCI3, Libc);
      var ws := s3.values;
      var a3 := PciAddr(0,
                        if s3.count > 0 then ws[0] else a4.bus,
                        if s3.count > 1 then ws[1] else a4.slot,
                        if s3.count > 2 then ws[2] else a4.func);
      SlotParse(s3.count == 3, a3)
  }

  /** `pop_dev_open` in kmod/boogiepop.c:90-96, with the kernel's
      `vsscanf`: the device file name must scan as four fields. */
  function ParseDevName(name: string): (r: Option4)
    ensures r.Some4? <==> Scan(name, PCI4, Kernel).count == 4
    ensures r.Some4? ==>
              var vs := Scan(name, PCI4, Kernel).values;
              r.addr == PciAddr(vs[0], vs[1], vs[2], vs[3]) && Fits(r.addr)
  {
    FormatLayouts();
    var s := Scan(name, PCI4, Kernel);
    if s.count < 4 then None4
    else Some4(PciAddr(s.values[0], s.values[1], s.values[2], s.values[3]))
  }

  datatype Option4 = None4 | Some4(addr: PciAddr)

  // ---------------------------------------------------------------------
  // Formatting and scanning are inverse

  lemma {:induction false} DigitsValueAppend(ds: string, c: char)
    requires AllHex(ds) && IsHex(c)
    ensures AllHex(ds + [c])
    ensures DigitsValue(ds + [c]) == DigitsValue(ds) * 16 + HexValue(c)
  {
    assert (ds + [c])[..|ds + [c]| - 1] == ds;
  }

  lemma {:induction false} ToHexValue(v: nat)
    ensures DigitsValue(ToHex(v)) == v
  {
    if v < 16 {
      DigitRoundTrip(v);
      assert ToHex(v)[..0] == [];
    } else {
      var q, d := v / 16, v % 16;
      ToHexValue(q);
      DigitRoundTrip(d);
      DigitsValueAppend(ToHex(q), HEX_DIGITS[d]);
      assert q * 16 + d == v;
    }
  }

  /** Each digit `%x` prints reads back as its value. */
  lemma DigitRoundTrip(d: nat)
    requires d < 16
    ensures IsHex(HEX_DIGITS[d]) && HexValue(HEX_DIGITS[d]) == d
  {
  }

  /** Leading zeros do not change the value of a digit string. */
  lemma {:induction false} LeadingZeroValue(ds: string)
    requires AllHex(ds)
    ensures DigitsValue("0" + ds) == DigitsValue(ds)
    decreases |ds|
  {
    if ds == [] {
      assert ("0" + ds)[..0] == [];
    } else {
      var init := ds[..|ds| - 1];
      var last := ds[|ds| - 1];
      assert ds == init + [last];
      assert "0" + ds == ("0" + init) + [last];
      LeadingZeroValue(init);
      DigitsValueAppend("0" + init, last);
    }
  }

  lemma {:induction false} ZerosValue(n: nat, ds: string)
    requires AllHex(ds)
    ensures DigitsValue(Zeros(n) + ds) == DigitsValue(ds)
  {
    if n > 0 {
      var tail := Zeros(n - 1) + ds;
      assert AllHex(tail);
      assert Zeros(n) + ds == "0" + tail;
      ZerosValue(n - 1, ds);
      LeadingZeroValue(tail);
    } else {
      assert Zeros(n) + ds == ds;
    }
  }

  lemma FormatHexValue(v: nat, width: nat)
    ensures DigitsValue(FormatHex(v, width)) == v
  {
    ToHexValue(v);
    var ds := ToHex(v);
    if |ds| < width {
      ZerosValue(width - |ds|, ds);
    }
  }

  /** The `%x` run stops exactly where the digits stop. */
  lemma {:induction false} HexRunOfDigits(ds: string, rest: string)
    requires AllHex(ds)
    requires rest == [] || !IsHex(rest[0])
    ensures HexRun(ds + rest) == |ds|
    decreases |ds|
  {
    if ds != [] {
      assert (ds + rest)[1..] == ds[1..] + rest;
      HexRunOfDigits(ds[1..], rest);
    }
  }

  /** What may follow a field so that its conversion stops there: the end,
      or a character that is neither a digit nor the `x` of a prefix. */
  predicate Stop(rest: string)
  {
    rest == [] || (!IsHex(rest[0]) && rest[0] != 'x' && rest[0] != 'X')
  }

  /** Digits followed by a stop do not start with a prefix. */
  lemma NoPrefix(ds: string, rest: string)
    requires AllHex(ds) && |ds| > 0 && Stop(rest)
    ensures PrefixLen(ds + rest) == 0
  {
    var u := ds + rest;
    if |ds| >= 2 { assert u[1] == ds[1]; } else if |u| >= 2 { assert u[1] == rest[0]; }
  }

  /** A run of digits followed by a stop converts to its value. */
  lemma UnsignedBare(ds: string, rest: string)
    requires AllHex(ds) && |ds| > 0 && Stop(rest)
    ensures Unsigned(ds + rest) == Digits(DigitsValue(ds), |ds|)
  {
    var u := ds + rest;
    NoPrefix(ds, rest);
    HexRunOfDigits(ds, rest);
    assert u[0..] == u;
    assert u[..|ds|] == ds;
  }

  /** So does the same run after `0x`, in both implementations. */
  lemma UnsignedPrefixed(ds: string, rest: string)
    requires AllHex(ds) && |ds| > 0 && Stop(rest)
    ensures Unsigned("0x" + (ds + rest)) == Digits(DigitsValue(ds), 2 + |ds|)
  {
    var u := ds + rest;
    var px := "0x" + u;
    HexRunOfDigits(ds, rest);
    assert px[2..] == u;
    assert u[..|ds|] == ds;
    assert px[2] == ds[0];
    assert PrefixLen(px) == 2;
  }

  /** A `0x` with no digit after it is still taken, and reads as 0. */
  lemma BarePrefixReadsZero(rest: string, f: Flavor)
    requires rest == [] || !IsHex(rest[0])
    ensures HexField("0x" + rest, f) == Field(0, 2)
  {
    var px := "0x" + rest;
    assert px[2..] == rest;
    assert HexRun(rest) == 0;
    assert px[2..][..0] == [];
    assert Unsigned(px) == Digits(0, 2);
    HexFieldPlain(px, f);
  }

  /** On input that starts with neither white space nor a sign, `%x`
      reads the digits right there. */
  lemma HexFieldPlain(s: string, f: Flavor)
    requires |s| > 0 && !IsSpace(s[0], f) && s[0] != '+' && s[0] != '-'
    ensures HexField(s, f) == match Unsigned(s)
                              case NoDigits => NoField
                              case Digits(m, k) => Field(FieldValue(f, false, m), k)
  {
    assert SpaceRun(s, f) == 0;
    assert s[0..] == s;
  }

  /** Leading white space is skipped: it only adds to the characters
      consumed. */
  lemma HexFieldSkipsSpace(c: char, s: string, f: Flavor)
    requires IsSpace(c, f)
    ensures HexField([c] + s, f) == match HexField(s, f)
                                    case NoField => NoField
                                    case Field(v, k) => Field(v, k + 1)
  {
    SpaceThen(c, s, [c] + s, f);
  }

  lemma SpaceThen(c: char, s: string, cs: string, f: Flavor)
    requires IsSpace(c, f) && cs == [c] + s
    ensures SpaceRun(cs, f) == 1 + SpaceRun(s, f)
    ensures cs[SpaceRun(cs, f)..] == s[SpaceRun(s, f)..]
  {
    assert cs[1..] == s;
  }

  /** Bare digits convert to their value. */
  lemma HexFieldBare(ds: string, rest: string, f: Flavor)
    requires AllHex(ds) && |ds| > 0 && Stop(rest)
    ensures HexField(ds + rest, f) == Field(FieldValue(f, false, DigitsValue(ds)), |ds|)
  {
    BareDigits(ds, rest, f, ds + rest, DigitsValue(ds));
  }

  lemma BareDigits(ds: string, rest: string, f: Flavor, u: string, m: nat)
    requires AllHex(ds) && |ds| > 0 && Stop(rest) && u == ds + rest && m == DigitsValue(ds)
    ensures HexField(u, f) == Field(FieldValue(f, false, m), |ds|)
  {
    assert u[0] == ds[0];
    UnsignedBare(ds, rest);
    PlainDigits(u, f, m, |ds|);
  }

  lemma PlainDigits(u: string, f: Flavor, m: nat, k: nat)
    requires |u| > 0 && IsHex(u[0]) && Unsigned(u) == Digits(m, k)
    ensures HexField(u, f) == Field(FieldValue(f, false, m), k)
  {
    DigitStartsField(u, f);
    HexFieldPlain(u, f);
  }

  /** Leading white space is skipped. */
  lemma HexFieldSpaced(ds: string, rest: string, f: Flavor)
    requires AllHex(ds) && |ds| > 0 && Stop(rest)
    ensures HexField(" " + (ds + rest), f) == Field(FieldValue(f, false, DigitsValue(ds)), 1 + |ds|)
  {
    HexFieldBare(ds, rest, f);
    HexFieldSkipsSpace(' ', ds + rest, f);
  }

  /** A `0x` prefix is taken when a digit follows. */
  lemma HexFieldPrefixed(ds: string, rest: string, f: Flavor)
    requires AllHex(ds) && |ds| > 0 && Stop(rest)
    ensures HexField("0x" + (ds + rest), f) == Field(FieldValue(f, false, DigitsValue(ds)), 2 + |ds|)
  {
    UnsignedPrefixed(ds, rest);
    HexFieldPlain("0x" + (ds + rest), f);
  }

  /** glibc takes a `-` and stores the value negated; the kernel's `%x`
      has no sign and stops at it. */
  lemma HexFieldSigned(ds: string, rest: string)
    requires AllHex(ds) && |ds| > 0 && Stop(rest)
    ensures HexField("-" + (ds + rest), Libc) == Field(FieldValue(Libc, true, DigitsValue(ds)), 1 + |ds|)
    ensures HexField("-" + (ds + rest), Kernel) == NoField
  {
    UnsignedBare(ds, rest);
    SignedDigits(ds + rest, "-" + (ds + rest), DigitsValue(ds), |ds|);
  }

  lemma SignedDigits(u: string, ng: string, m: nat, k: nat)
    requires |u| > 0 && IsHex(u[0]) && ng == "-" + u && Unsigned(u) == Digits(m, k)
    ensures HexField(ng, Libc) == Field(FieldValue(Libc, true, m), 1 + k)
    ensures HexField(ng, Kernel) == NoField
  {
    assert ng[1..] == u;
    assert SpaceRun(ng, Libc) == 0 && SpaceRun(ng, Kernel) == 0;
    assert ng[0..] == ng;
    assert PrefixLen(ng) == 0 && HexRun(ng) == 0;
  }

  /** A field printed for a 32-bit value, followed by a stop, scans back
      as that value, and the scan goes on after it. */
  lemma ScanFormatted(v: nat, width: nat, rest: string, fmt: seq<Directive>, f: Flavor)
    requires v < U32_LIMIT && Stop(rest)
    ensures Scan(FormatHex(v, width) + rest, [Hex] + fmt, f)
            == Scanned(Scan(rest, fmt, f).count + 1, [v] + Scan(rest, fmt, f).values)
  {
    var ds := FormatHex(v, width);
    FormatHexValue(v, width);
    HexFieldBare(ds, rest, f);
    DropFront([], ds, rest);
    assert [] + (ds + rest) == ds + rest;
    ScanHexFirst(ds + rest, fmt, f);
  }

  lemma ScanLiteral(c: char, rest: string, fmt: seq<Directive>, f: Flavor)
    ensures Scan([c] + rest, [Lit(c)] + fmt, f) == Scan(rest, fmt, f)
  {
    assert ([c] + rest)[1..] == rest;
    assert ([Lit(c)] + fmt)[1..] == fmt;
  }

  /** A literal that is not there stops the scan: literals skip no white
      space. */
  lemma ScanLiteralMismatch(c: char, s: string, fmt: seq<Directive>, f: Flavor)
    requires |fmt| > 0 && fmt[0] == Lit(c) && |s| > 0 && s[0] != c
    ensures Scan(s, fmt, f) == Scanned(0, [])
  {
  }

  /** A separator followed by a field. */
  lemma ScanSeparatedField(c: char, v: nat, width: nat, rest: string, fmt: seq<Directive>, f: Flavor)
    requires v < U32_LIMIT && Stop(rest)
    ensures Scan([c] + (FormatHex(v, width) + rest), [Lit(c), Hex] + fmt, f)
            == Scanned(Scan(rest, fmt, f).count + 1, [v] + Scan(rest, fmt, f).values)
  {
    ScanLiteral(c, FormatHex(v, width) + rest, [Hex] + fmt, f);
    assert [Lit(c)] + ([Hex] + fmt) == [Lit(c), Hex] + fmt;
    ScanFormatted(v, width, rest, fmt, f);
  }

  /** `".F"` scans as the tail `".%x"`. */
  lemma ScanFuncTail(func: nat, f: Flavor)
    requires func < U32_LIMIT
    ensures Scan("." + FormatHex(func, 1), DOT_HEX, f) == Scanned(1, [func])
  {
    ScanSeparatedField('.', func, 1, [], [], f);
    assert "." + (FormatHex(func, 1) + []) == "." + FormatHex(func, 1);
    assert [Lit('.'), Hex] + [] == DOT_HEX;
    assert Scan([], [], f) == Scanned(0, []);
  }

  /** `":S.F"` scans as the tail `":%x.%x"`. */
  lemma ScanSlotTail(slot: nat, func: nat, f: Flavor)
    requires slot < U32_LIMIT && func < U32_LIMIT
    ensures Scan(":" + (FormatHex(slot, 2) + ("." + FormatHex(func, 1))), SLOT_TAIL, f)
            == Scanned(2, [slot, func])
  {
    ScanFuncTail(func, f);
    ScanSeparatedField(':', slot, 2, "." + FormatHex(func, 1), DOT_HEX, f);
    PrependOne(slot, func);
  }

  /** `":B:S.F"` scans as the tail `":%x:%x.%x"`. */
  lemma ScanBusTail(bus: nat, slot: nat, func: nat, f: Flavor)
    requires bus < U32_LIMIT && slot < U32_LIMIT && func < U32_LIMIT
    ensures Scan(BusTail(bus, slot, func), BUS_TAIL, f) == Scanned(3, [bus, slot, func])
  {
    ScanSlotTail(slot, func, f);
    ScanSeparatedField(':', bus, 2, ":" + (FormatHex(slot, 2) + ("." + FormatHex(func, 1))), SLOT_TAIL, f);
    PrependTwo(bus, slot, func);
  }

  /** The text of a slot name after its domain. */
  function BusTail(bus: nat, slot: nat, func: nat): (t: string)
    ensures |t| > 0 && t[0] == ':'
  {
    ":" + (FormatHex(bus, 2) + (":" + (FormatHex(slot, 2) + ("." + FormatHex(func, 1)))))
  }

  /** Every name formatted as `%04x:%02x:%02x.%x` from 32-bit fields scans
      back, with the four directives of `"%x:%x:%x.%x"` in either
      implementation, to the four fields it was made from. */
  lemma SlotNameScans(a: PciAddr, f: Flavor)
    requires Fits(a)
    ensures Scan(SlotName(a), PCI4, f) == Scanned(4, [a.domain, a.bus, a.slot, a.func])
  {
    var t := BusTail(a.bus, a.slot, a.func);
    ScanBusTail(a.bus, a.slot, a.func, f);
    ScanFormatted(a.domain, 4, t, BUS_TAIL, f);
    PrependValue(a.domain, a.bus, a.slot, a.func);
    assert SlotName(a) == FormatHex(a.domain, 4) + t;
  }

  /** The kernel's `pop_dev_open` recovers the device from the file name
      libpop opens. */
  lemma SlotNameRoundTrip(a: PciAddr)
    requires Fits(a)
    ensures ParseDevName(SlotName(a)) == Some4(a)
  {
    SlotNameScans(a, Kernel);
  }

  /** A full `D:B:S.F` name is accepted by `pop_ctx_init` with all four
      fields as written. */
  lemma FourFieldSlotAccepted(a: PciAddr)
    requires Fits(a)
    ensures ParsePciSlot(SlotName(a)) == SlotParse(true, a)
  {
    SlotNameScans(a, Libc);
  }

  lemma PrependOne(v: nat, x: nat)
    ensures [v] + [x] == [v, x]
  {}

  lemma PrependTwo(v: nat, x: nat, y: nat)
    ensures [v] + [x, y] == [v, x, y]
  {}

  lemma PrependValue(v: nat, x: nat, y: nat, z: nat)
    ensures [v] + [x, y, z] == [v, x, y, z]
  {}

  /** A format that starts with `%x` stores that conversion's value first
      and goes on where it stopped. */
  lemma ScanHexFirst(s: string, fmt: seq<Directive>, f: Flavor)
    requires HexField(s, f).Field?
    ensures var k := HexField(s, f).used;
            Scan(s, [Hex] + fmt, f)
            == Scanned(Scan(s[k..], fmt, f).count + 1, [HexField(s, f).value] + Scan(s[k..], fmt, f).values)
  {
    assert ([Hex] + fmt)[0] == Hex && ([Hex] + fmt)[1..] == fmt;
  }

  /** Dropping the first `|p| + |q|` characters of `p + (q + t)` leaves `t`. */
  lemma DropFront(p: string, q: string, t: string)
    ensures (p + (q + t))[|p| + |q|..] == t
  {}

  /** A slot name `ds + t` behind a prefix `pre`, where the domain's `%x`
      conversion reads through the domain digits `ds` and stops at the
      bus tail `t`, scans as that conversion's value followed by the bus,
      slot and function. */
  lemma ScanBehindPrefix(s: string, pre: string, ds: string, t: string, a: PciAddr, f: Flavor, v: nat)
    requires Fits(a) && t == BusTail(a.bus, a.slot, a.func) && s == pre + (ds + t)
    requires HexField(s, f) == Field(v, |pre| + |ds|)
    ensures Scan(s, PCI4, f) == Scanned(4, [v, a.bus, a.slot, a.func])
  {
    DropFront(pre, ds, t);
    ScanBusTail(a.bus, a.slot, a.func, f);
    ScanHexFirst(s, BUS_TAIL, f);
    PrependValue(v, a.bus, a.slot, a.func);
  }

  /** The digits of a 32-bit domain followed by a bus tail. */
  predicate DomainThenTail(ds: string, t: string, a: PciAddr)
  {
    Fits(a) && AllHex(ds) && |ds| > 0 && DigitsValue(ds) == a.domain
    && t == BusTail(a.bus, a.slot, a.func)
  }

  lemma DomainThenTailOfSlotName(a: PciAddr)
    requires Fits(a)
    ensures DomainThenTail(FormatHex(a.domain, 4), BusTail(a.bus, a.slot, a.func), a)
    ensures SlotName(a) == FormatHex(a.domain, 4) + BusTail(a.bus, a.slot, a.func)
  {
    FormatHexValue(a.domain, 4);
  }

  /** `" D:B:S.F"`: the blank is skipped. */
  lemma SpacedScan(ds: string, t: string, a: PciAddr, f: Flavor)
    requires DomainThenTail(ds, t, a)
    ensures Scan(" " + (ds + t), PCI4, f) == Scanned(4, [a.domain, a.bus, a.slot, a.func])
  {
    HexFieldSpaced(ds, t, f);
    ScanBehindPrefix(" " + (ds + t), " ", ds, t, a, f, a.domain);
  }

  /** `"0xD:B:S.F"`: the prefix is taken. */
  lemma PrefixedScan(ds: string, t: string, a: PciAddr, f: Flavor)
    requires DomainThenTail(ds, t, a)
    ensures Scan("0x" + (ds + t), PCI4, f) == Scanned(4, [a.domain, a.bus, a.slot, a.func])
  {
    HexFieldPrefixed(ds, t, f);
    ScanBehindPrefix("0x" + (ds + t), "0x", ds, t, a, f, a.domain);
  }

  /** `"-D:B:S.F"` under glibc: the domain is stored negated. */
  lemma NegatedScan(ds: string, t: string, a: PciAddr)
    requires DomainThenTail(ds, t, a)
    ensures Scan("-" + (ds + t), PCI4, Libc) == Scanned(4, [U32(0 - a.domain), a.bus, a.slot, a.func])
  {
    HexFieldSigned(ds, t);
    NegatedValue(a.domain);
    ScanBehindPrefix("-" + (ds + t), "-", ds, t, a, Libc, U32(0 - a.domain));
  }

  /** `"-D:B:S.F"` under the kernel: `%x` takes no sign, nothing is stored. */
  lemma NegatedScanFails(ds: string, t: string, a: PciAddr)
    requires DomainThenTail(ds, t, a)
    ensures Scan("-" + (ds + t), PCI4, Kernel).count == 0
  {
    HexFieldSigned(ds, t);
    KernelStopsAtSign("-" + (ds + t));
  }

  /** glibc's `-` on a 32-bit magnitude: its negation modulo 2^32. */
  lemma NegatedValue(m: nat)
    requires m < U32_LIMIT
    ensures FieldValue(Libc, true, m) == U32(0 - m)
  {}

  /** The spellings `%x` takes besides bare digits: a name with leading
      white space or a `0x` prefix names the same device to both
      `pop_ctx_init` and `pop_dev_open`. */
  lemma SlotNameSpellings(a: PciAddr)
    requires Fits(a)
    ensures ParsePciSlot(" " + SlotName(a)) == SlotParse(true, a)
    ensures ParsePciSlot("0x" + SlotName(a)) == SlotParse(true, a)
    ensures ParseDevName(" " + SlotName(a)) == Some4(a)
    ensures ParseDevName("0x" + SlotName(a)) == Some4(a)
  {
    DomainThenTailOfSlotName(a);
    var ds, t := FormatHex(a.domain, 4), BusTail(a.bus, a.slot, a.func);
    SpacedScan(ds, t, a, Libc);
    SpacedScan(ds, t, a, Kernel);
    PrefixedScan(ds, t, a, Libc);
    PrefixedScan(ds, t, a, Kernel);
  }

  /** A leading `-` is taken by glibc, which stores the domain negated
      modulo 2^32, and refused by the kernel. */
  lemma NegatedSlotName(a: PciAddr)
    requires Fits(a)
    ensures ParsePciSlot("-" + SlotName(a)) == SlotParse(true, a.(domain := U32(0 - a.domain)))
    ensures ParseDevName("-" + SlotName(a)) == None4
  {
    DomainThenTailOfSlotName(a);
    NegatedScan(FormatHex(a.domain, 4), BusTail(a.bus, a.slot, a.func), a);
    NegatedScanFails(FormatHex(a.domain, 4), BusTail(a.bus, a.slot, a.func), a);
  }

  /** The kernel's `%x` fails on a sign, so nothing is stored. */
  lemma KernelStopsAtSign(s: string)
    requires HexField(s, Kernel) == NoField
    ensures Scan(s, PCI4, Kernel).count == 0
  {
    assert PCI4[0] == Hex;
  }

  /** `".F"` does not match the tail `":%x.%x"` of the four-field format. */
  lemma ShortNameStopsFourFieldScan(slot: nat, func: nat, f: Flavor)
    requires slot < U32_LIMIT && func < U32_LIMIT
    ensures Scan(":" + (FormatHex(slot, 2) + ("." + FormatHex(func, 1))), BUS_TAIL, f)
            == Scanned(1, [slot])
  {
    var t3 := "." + FormatHex(func, 1);
    ScanLiteralMismatch(':', t3, SLOT_TAIL, f);
    ScanSeparatedField(':', slot, 2, t3, SLOT_TAIL, f);
  }

  /** A `B:S.F` name fails the four-field scan after two conversions and is
      then accepted by the three-field scan, with domain 0. */
  lemma ThreeFieldSlotAccepted(bus: nat, slot: nat, func: nat)
    requires bus < U32_LIMIT && slot < U32_LIMIT && func < U32_LIMIT
    ensures Scan(ShortSlotName(bus, slot, func), PCI4, Libc).count == 2
    ensures ParsePciSlot(ShortSlotName(bus, slot, func))
            == SlotParse(true, PciAddr(0, bus, slot, func))
  {
    ShortNameScans(bus, slot, func, Libc);
  }

  /** The two scans of a `B:S.F` name: two conversions of `"%x:%x:%x.%x"`,
      all three of `"%x:%x.%x"`. */
  lemma ShortNameScans(bus: nat, slot: nat, func: nat, f: Flavor)
    requires bus < U32_LIMIT && slot < U32_LIMIT && func < U32_LIMIT
    ensures Scan(ShortSlotName(bus, slot, func), PCI4, f) == Scanned(2, [bus, slot])
    ensures Scan(ShortSlotName(bus, slot, func), PCI3, f) == Scanned(3, [bus, slot, func])
  {
    var t2 := ":" + (FormatHex(slot, 2) + ("." + FormatHex(func, 1)));
    assert ShortSlotName(bus, slot, func) == FormatHex(bus, 2) + t2;
    ShortNameFourScan(bus, slot, func, t2, f);
    ShortNameThreeScan(bus, slot, func, t2, f);
  }

  lemma ShortNameFourScan(bus: nat, slot: nat, func: nat, t2: string, f: Flavor)
    requires bus < U32_LIMIT && slot < U32_LIMIT && func < U32_LIMIT
    requires t2 == ":" + (FormatHex(slot, 2) + ("." + FormatHex(func, 1)))
    ensures Scan(FormatHex(bus, 2) + t2, PCI4, f) == Scanned(2, [bus, slot])
  {
    ShortNameStopsFourFieldScan(slot, func, f);
    LeadingField(bus, t2, BUS_TAIL, Scanned(1, [slot]), f);
  }

  lemma ShortNameThreeScan(bus: nat, slot: nat, func: nat, t2: string, f: Flavor)
    requires bus < U32_LIMIT && slot < U32_LIMIT && func < U32_LIMIT
    requires t2 == ":" + (FormatHex(slot, 2) + ("." + FormatHex(func, 1)))
    ensures Scan(FormatHex(bus, 2) + t2, PCI3, f) == Scanned(3, [bus, slot, func])
  {
    ScanSlotTail(slot, func, f);
    LeadingField(bus, t2, SLOT_TAIL, Scanned(2, [slot, func]), f);
  }

  /** A two-digit field before a tail starting with `:` adds one conversion
      in front of the tail's. */
  lemma LeadingField(v: nat, t: string, fmt: seq<Directive>, tail: Scanned, f: Flavor)
    requires v < U32_LIMIT && |t| > 0 && t[0] == ':' && Scan(t, fmt, f) == tail
    ensures Scan(FormatHex(v, 2) + t, [Hex] + fmt, f) == Scanned(tail.count + 1, [v] + tail.values)
  {
    ScanFormatted(v, 2, t, fmt, f);
  }

  // ---------------------------------------------------------------------
  // The length of the device path

  function Pow16(k: nat): (r: nat)
    ensures r >= 1
  {
    if k == 0 then 1 else 16 * Pow16(k - 1)
  }

  /** A number below 16^k has at most k digits, and one of at least 16^k
      more than k. */
  lemma {:induction false} ToHexLength(v: nat, k: nat)
    ensures 1 <= k && v < Pow16(k) ==> |ToHex(v)| <= k
    ensures v >= Pow16(k) ==> |ToHex(v)| > k
  {
    if v >= 16 {
      if k >= 1 {
        ToHexLength(v / 16, k - 1);
      }
    }
  }

  /** `%0<width>x` of a number below 16^width takes exactly `width`
      characters, and of a number of at least 16^k more than k. */
  lemma FormatHexLength(v: nat, width: nat, k: nat)
    ensures 1 <= width && v < Pow16(width) ==> |FormatHex(v, width)| == width
    ensures v >= Pow16(k) ==> |FormatHex(v, width)| > k
  {
    ToHexLength(v, width);
    ToHexLength(v, k);
  }

  /** `popdev` holds the whole path exactly when the slot name has at most
      22 characters. Fields within their conventional widths (a 16-bit
      domain, 8-bit bus and slot, 4-bit function) give a 12-character name,
      so the path is complete; four fields of 2^28 or more give at least 35,
      so the path is cut and names no file the kernel module creates. */
  lemma DevicePathTruncation(a: PciAddr)
    ensures DevicePath(a) == "/dev/" + KernelDevName(a) <==> |SlotName(a)| <= 22
    ensures a.domain < 0x1_0000 && a.bus < 0x100 && a.slot < 0x100 && a.func < 0x10 ==>
              |SlotName(a)| == 12 && DevicePath(a) == "/dev/" + KernelDevName(a)
    ensures a.domain >= 0x1000_0000 && a.bus >= 0x1000_0000 && a.slot >= 0x1000_0000
            && a.func >= 0x1000_0000 ==>
              |SlotName(a)| >= 35 && DevicePath(a) != "/dev/" + KernelDevName(a)
  {
    assert Pow16(1) == 0x10 && Pow16(2) == 0x100 && Pow16(4) == 0x1_0000;
    assert Pow16(7) == 0x1000_0000;
    FormatHexLength(a.domain, 4, 7);
    FormatHexLength(a.bus, 2, 7);
    FormatHexLength(a.slot, 2, 7);
    FormatHexLength(a.func, 1, 7);
  }

  /** A scan that converts every field of a format ending in a conversion
      has matched each of its literals, so the string contains them. */
  lemma {:induction false} FullScanMatchesLiterals(s: string, fmt: seq<Directive>, c: char, f: Flavor)
    requires Lit(c) in fmt && fmt[|fmt| - 1] == Hex
    requires Scan(s, fmt, f).count == Conversions(fmt)
    ensures c in s
    decreases |fmt|, 1
  {
    ConversionsPositive(fmt, |fmt| - 1);
    if fmt[0].Lit? {
      LiteralFirstMatched(s, fmt, c, f);
    } else {
      FieldFirstMatched(s, fmt, c, f);
    }
  }

  /** The step of `FullScanMatchesLiterals` over a leading literal. */
  lemma {:induction false} LiteralFirstMatched(s: string, fmt: seq<Directive>, c: char, f: Flavor)
    requires Lit(c) in fmt && fmt[|fmt| - 1] == Hex && fmt[0].Lit?
    requires Scan(s, fmt, f).count == Conversions(fmt) > 0
    ensures c in s
    decreases |fmt|, 0
  {
    ScanLitCount(s, fmt, f);
    if fmt[0].c != c {
      var k :| 0 <= k < |fmt| && fmt[k] == Lit(c);
      assert fmt[1..][k - 1] == Lit(c);
      assert fmt[1..][|fmt[1..]| - 1] == Hex;
      FullScanMatchesLiterals(s[1..], fmt[1..], c, f);
      InSuffix(s, 1, c);
    }
  }

  /** The step of `FullScanMatchesLiterals` over a leading `%x`. */
  lemma {:induction false} FieldFirstMatched(s: string, fmt: seq<Directive>, c: char, f: Flavor)
    requires Lit(c) in fmt && fmt[|fmt| - 1] == Hex && fmt[0] == Hex
    requires Scan(s, fmt, f).count == Conversions(fmt) > 0
    ensures c in s
    decreases |fmt|, 0
  {
    ScanHexCount(s, fmt, f);
    var r := HexField(s, f);
    var k :| 0 <= k < |fmt| && fmt[k] == Lit(c);
    assert fmt[1..][k - 1] == Lit(c);
    assert fmt[1..][|fmt[1..]| - 1] == Hex;
    FullScanMatchesLiterals(s[r.used..], fmt[1..], c, f);
    InSuffix(s, r.used, c);
  }

  lemma InSuffix(s: string, k: nat, c: char)
    requires k <= |s| && c in s[k..]
    ensures c in s
  {
    var j :| 0 <= j < |s[k..]| && s[k..][j] == c;
    assert s[k + j] == c;
  }

  /** A scan that stores anything through a leading literal has matched it
      and goes on after it. */
  lemma ScanLitCount(s: string, fmt: seq<Directive>, f: Flavor)
    requires |fmt| > 0 && fmt[0].Lit? && Scan(s, fmt, f).count > 0
    ensures |s| > 0 && s[0] == fmt[0].c
    ensures Scan(s, fmt, f) == Scan(s[1..], fmt[1..], f)
  {
  }

  /** A scan that stores anything through a leading `%x` has converted
      that field and stored the rest after it. */
  lemma ScanHexCount(s: string, fmt: seq<Directive>, f: Flavor)
    requires |fmt| > 0 && fmt[0] == Hex && Scan(s, fmt, f).count > 0
    ensures HexField(s, f).Field?
    ensures Scan(s, fmt, f).count == Scan(s[HexField(s, f).used..], fmt[1..], f).count + 1
  {
  }

  lemma {:induction false} ConversionsPositive(fmt: seq<Directive>, k: nat)
    requires k < |fmt| && fmt[k] == Hex
    ensures Conversions(fmt) > 0
  {
    if k > 0 {
      assert fmt[1..][k - 1] == Hex;
      ConversionsPositive(fmt[1..], k - 1);
    }
  }

  /** The two formats, directive by directive. */
  lemma FormatLayouts()
    ensures PCI4 == [Hex, Lit(':'), Hex, Lit(':'), Hex, Lit('.'), Hex]
    ensures PCI3 == [Hex, Lit(':'), Hex, Lit('.'), Hex]
    ensures Conversions(PCI4) == 4 && Conversions(PCI3) == 3
  {
    assert PCI4 == [Hex, Lit(':'), Hex, Lit(':'), Hex, Lit('.'), Hex];
    assert Conversions([Hex, Lit(':'), Hex, Lit(':'), Hex, Lit('.'), Hex]) == 4;
    assert PCI3 == [Hex, Lit(':'), Hex, Lit('.'), Hex];
    assert Conversions([Hex, Lit(':'), Hex, Lit('.'), Hex]) == 3;
  }

  /** Any string `pop_ctx_init` accepts as a PCI slot contains a ':' and a
      '.'; in particular a bare number or an empty string is EINVAL. */
  lemma AcceptedSlotHasSeparators(dev: string)
    requires ParsePciSlot(dev).accepted
    ensures ':' in dev && '.' in dev
  {
    FormatLayouts();
    if Scan(dev, PCI4, Libc).count == 4 {
      assert PCI4[1] == Lit(':') && PCI4[5] == Lit('.') && PCI4[6] == Hex;
      FullScanMatchesLiterals(dev, PCI4, ':', Libc);
      FullScanMatchesLiterals(dev, PCI4, '.', Libc);
    } else {
      assert PCI3[1] == Lit(':') && PCI3[3] == Lit('.') && PCI3[4] == Hex;
      FullScanMatchesLiterals(dev, PCI3, ':', Libc);
      FullScanMatchesLiterals(dev, PCI3, '.', Libc);
    }
  }
}
