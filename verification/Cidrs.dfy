/**
 IPv4 prefixes in canonical form: the host bits of the address are zero (section 3.1 of
 RFC 4632). Addresses are the 32-bit numbers of their four octets, most significant first.
 */
module Cidrs {
  import opened Wrappers

  const TWO32: nat := 0x1_0000_0000

  type U32 = x: nat | x < TWO32
  type Octet = x: nat | x < 256

  function Addr(a: Octet, b: Octet, c: Octet, d: Octet): U32 {
    a * 0x100_0000 + b * 0x1_0000 + c * 0x100 + d
  }

  function Octets(x: U32): (r: (Octet, Octet, Octet, Octet))
    ensures Addr(r.0, r.1, r.2, r.3) == x
  {
    (x / 0x100_0000, x / 0x1_0000 % 0x100, x / 0x100 % 0x100, x % 0x100)
  }

  // ---------------------------------------------------------------- bits

  function Pow2(n: nat): (r: nat)
    ensures r > 0
  {
    if n == 0 then 1 else 2 * Pow2(n - 1)
  }

  /** Bitwise and of two numbers. */
  function BitAnd(x: nat, y: nat): nat
    decreases y
  {
    if y == 0 then 0
    else (if x % 2 == 1 && y % 2 == 1 then 1 else 0) + 2 * BitAnd(x / 2, y / 2)
  }

  /** Bitwise complement in 32 bits. */
  function Complement(x: U32): U32 {
    TWO32 - 1 - x
  }

  /** A left shift in 32 bits, one position at a time. */
  function ShiftLeft(x: U32, n: nat): U32
    decreases n
  {
    if n == 0 then x else ShiftLeft(2 * x % TWO32, n - 1)
  }

  /** All ones shifted left by 32 - prefix; a shift by 32 overflows and gives zero. */
  function Mask(prefix: nat): U32
    requires prefix <= 32
  {
    if prefix == 0 then 0 else ShiftLeft(TWO32 - 1, 32 - prefix)
  }

  lemma Pow2Values()
    ensures Pow2(32) == TWO32
  {
    assert Pow2(8) == 256;
    Pow2Splits(8, 8);
    Pow2Splits(16, 16);
  }

  lemma {:induction false} Pow2Splits(a: nat, b: nat)
    ensures Pow2(a + b) == Pow2(a) * Pow2(b)
  {
    if a > 0 {
      Pow2Splits(a - 1, b);
      assert Pow2(a + b) == 2 * (Pow2(a - 1) * Pow2(b));
    }
  }

  /** Shifting ones leaves everything above the shifted-in zeros. */
  lemma {:induction false} ShiftOnes(k: nat, n: nat)
    requires k + n <= 31
    ensures Pow2(k) <= TWO32 && Pow2(k + n) <= TWO32
    ensures ShiftLeft(TWO32 - Pow2(k), n) == TWO32 - Pow2(k + n)
    decreases n
  {
    Pow2Bound(k);
    Pow2Bound(k + n);
    if n > 0 {
      assert Pow2(k + 1) == 2 * Pow2(k);
      Pow2Bound(k + 1);
      var x := TWO32 - Pow2(k);
      assert 2 * x == TWO32 + (TWO32 - Pow2(k + 1));
      assert 2 * x % TWO32 == TWO32 - Pow2(k + 1);
      ShiftOnes(k + 1, n - 1);
    }
  }

  lemma {:induction false} Pow2Bound(k: nat)
    requires k <= 32
    ensures Pow2(k) <= TWO32
    decreases 32 - k
  {
    if k == 32 { Pow2Values(); } else { Pow2Bound(k + 1); assert Pow2(k + 1) == 2 * Pow2(k); }
  }

  lemma MaskValue(prefix: nat)
    requires prefix <= 32
    ensures Pow2(32 - prefix) <= TWO32 && Mask(prefix) == TWO32 - Pow2(32 - prefix)
  {
    Pow2Values();
    if prefix > 0 { ShiftOnes(0, 32 - prefix); }
  }

  lemma DivModUnique(m: nat, x: nat, q: nat, r: nat)
    requires r < m && x == m * q + r
    ensures x % m == r && x / m == q
  {
    assert x == m * (x / m) + x % m;
    var d: int := x / m - q;
    assert m * d == r - x % m;
    MulBounds(m, d);
  }

  lemma MulBounds(m: int, d: int)
    requires m > 0
    ensures d >= 1 ==> m * d >= m
    ensures d <= -1 ==> m * d <= -m
  {
  }

  /** The remainder modulo 2m in terms of the remainder of the half modulo m. */
  lemma RemainderOfDouble(x: nat, m: nat)
    requires m > 0
    ensures x % (2 * m) == 2 * (x / 2 % m) + x % 2
  {
    var h, q, r := x / 2, x / 2 / m, x / 2 % m;
    assert h == m * q + r;
    assert x == 2 * h + x % 2;
    assert (2 * m) * q == 2 * (m * q);
    DivModUnique(2 * m, x, q, 2 * r + x % 2);
  }

  lemma HalveOdd(x: nat, h: nat)
    requires x == 2 * h + 1
    ensures x % 2 == 1 && x / 2 == h
  {
  }

  /** Masking with 2^k - 1 leaves the remainder modulo 2^k. */
  lemma {:induction false} LowBits(x: nat, k: nat)
    ensures BitAnd(x, Pow2(k) - 1) == x % Pow2(k)
    decreases k
  {
    if k > 0 {
      var half := Pow2(k - 1);
      var low := Pow2(k) - 1;
      HalveOdd(low, half - 1);
      LowBits(x / 2, k - 1);
      RemainderOfDouble(x, half);
      BitAndStep(x, low);
    }
  }

  /** A mask and its complement split the bits of a number. */
  lemma {:induction false} BitsSplit(x: nat, y: nat, n: nat)
    requires x < Pow2(n) && y < Pow2(n)
    ensures BitAnd(x, y) + BitAnd(x, Pow2(n) - 1 - y) == x
    decreases n
  {
    if n > 0 {
      var z := Pow2(n) - 1 - y;
      assert Pow2(n) == 2 * Pow2(n - 1);
      assert z % 2 == 1 - y % 2 && z / 2 == Pow2(n - 1) - 1 - y / 2;
      BitsSplit(x / 2, y / 2, n - 1);
      BitAndStep(x, y);
      BitAndStep(x, z);
    }
  }

  lemma BitAndStep(x: nat, y: nat)
    ensures BitAnd(x, y) == (if x % 2 == 1 && y % 2 == 1 then 1 else 0) + 2 * BitAnd(x / 2, y / 2)
  {
  }

  // ---------------------------------------------------------------- prefixes

  /** The fields are private in the source: every prefix comes from `New` or `Host` and is canonical. */
  datatype Ipv4Cidr = Cidr(addr: U32, prefix: nat)

  /** The bits of an address below a prefix length. */
  function HostBits(addr: U32, prefix: nat): nat
    requires prefix <= 32
  {
    BitAnd(addr, Complement(Mask(prefix)))
  }

  /** The bits of an address within a prefix length. */
  function NetworkBits(addr: U32, prefix: nat): nat
    requires prefix <= 32
  {
    BitAnd(addr, Mask(prefix))
  }

  predicate Canonical(c: Ipv4Cidr) {
    c.prefix <= 32 && HostBits(c.addr, c.prefix) == 0
  }

  /** The number of addresses that share a prefix of this length. */
  function Span(prefix: nat): nat
    requires prefix <= 32
  {
    Pow2(32 - prefix)
  }

  /** In numbers: the host bits are the remainder, and the network bits are the rest. */
  lemma BitsAsNumbers(addr: U32, prefix: nat)
    requires prefix <= 32
    ensures HostBits(addr, prefix) == addr % Span(prefix)
    ensures NetworkBits(addr, prefix) == addr - addr % Span(prefix)
  {
    MaskValue(prefix);
    LowBits(addr, 32 - prefix);
    Pow2Values();
    BitsSplit(addr, Mask(prefix), 32);
  }

  lemma ZeroIsCanonical()
    ensures Canonical(Cidr(0, 0))
  {
    BitsAsNumbers(0, 0);
    assert 0 % Span(0) == 0;
  }

  /** Accepts an address and a prefix length unless the length is above 32 or host bits are set. */
  function New(addr: U32, prefix: nat): (r: Result<Ipv4Cidr>)
    ensures r.Ok? <==> Canonical(Cidr(addr, prefix))
    ensures r.Ok? ==> r.value == Cidr(addr, prefix)
  {
    if prefix > 32 then Err
    else if BitAnd(addr, Complement(Mask(prefix))) != 0 then Err
    else Ok(Cidr(addr, prefix))
  }

  /** In numbers: exactly the multiples of the prefix's span are accepted. */
  lemma NewAcceptsMultiples(addr: U32, prefix: nat)
    ensures New(addr, prefix).Ok? <==> prefix <= 32 && addr % Span(prefix) == 0
  {
    if prefix <= 32 { BitsAsNumbers(addr, prefix); }
  }

  function Host(addr: U32): (c: Ipv4Cidr)
    ensures c.addr == addr && c.prefix == 32 && Canonical(c)
  {
    BitsAsNumbers(addr, 32);
    assert Span(32) == 1;
    Cidr(addr, 32)
  }

  /** `a` starts with the prefix of `c`. */
  predicate Covers(c: Ipv4Cidr, a: U32) {
    c.prefix <= 32 && NetworkBits(a, c.prefix) == NetworkBits(c.addr, c.prefix)
  }

  lemma SameFloor(m: nat, x: nat, y: nat)
    requires m > 0
    ensures x - x % m == y - y % m <==> x / m == y / m
  {
    assert x == m * (x / m) + x % m && y == m * (y / m) + y % m;
    var q, r := x / m, y / m;
    if m * q == m * r {
      assert m * (q - r) == 0;
      MulBounds(m, q - r);
    }
  }

  /** In numbers: the same quotient by the span. */
  lemma CoversSameQuotient(c: Ipv4Cidr, a: U32)
    ensures Covers(c, a) <==> c.prefix <= 32 && a / Span(c.prefix) == c.addr / Span(c.prefix)
  {
    if c.prefix <= 32 {
      BitsAsNumbers(a, c.prefix);
      BitsAsNumbers(c.addr, c.prefix);
      SameFloor(Span(c.prefix), a, c.addr);
    }
  }

  /** Two canonical prefixes of equal length that cover a common address are the same key. */
  lemma SameLengthSameKey(c: Ipv4Cidr, d: Ipv4Cidr, a: U32)
    requires Canonical(c) && Canonical(d)
    requires c.prefix == d.prefix && Covers(c, a) && Covers(d, a)
    ensures c == d
  {
    BitsAsNumbers(c.addr, c.prefix);
    BitsAsNumbers(d.addr, d.prefix);
  }

  /** Without canonicality that is false: setting a host bit gives another key that covers the same addresses. */
  lemma HostBitsBreakKeys(c: Ipv4Cidr, a: U32)
    requires Canonical(c) && c.prefix < 32 && c.addr + 1 < TWO32
    ensures var d := Cidr(c.addr + 1, c.prefix); d != c && !Canonical(d) && (Covers(c, a) <==> Covers(d, a))
  {
    var m, d := Span(c.prefix), Cidr(c.addr + 1, c.prefix);
    assert m == 2 * Pow2(31 - c.prefix);
    assert m > 1;
    BitsAsNumbers(c.addr, c.prefix);
    BitsAsNumbers(d.addr, d.prefix);
    AddOne(c.addr, m);
  }

  lemma AddOne(x: nat, m: nat)
    requires m > 1 && x % m == 0
    ensures (x + 1) % m == 1
  {
    DivModUnique(m, x + 1, x / m, 1);
  }
}
