/**
 Prefixes as text: dotted decimal octets, a slash and a decimal prefix length, as the helper
 processes pass them to each other on the command line.
 */
module CidrText {
  import opened Wrappers
  import opened Cidrs

  // ---------------------------------------------------------------- decimal numbers

  predicate IsDigit(c: char) {
    '0' <= c <= '9'
  }

  predicate AllDigits(s: string) {
    forall i :: 0 <= i < |s| ==> IsDigit(s[i])
  }

  function Digit(n: nat): (c: char)
    requires n < 10
    ensures IsDigit(c) && DigitValue(c) == n && (c == '0' <==> n == 0)
  {
    n as char + '0'
  }

  function DigitValue(c: char): nat
    requires IsDigit(c)
  {
    (c - '0') as nat
  }

  function Decimal(n: nat): string {
    if n < 10 then [Digit(n)] else Decimal(n / 10) + [Digit(n % 10)]
  }

  function Value(s: string): nat
    requires AllDigits(s)
  {
    if s == [] then 0 else 10 * Value(s[..|s| - 1]) + DigitValue(s[|s| - 1])
  }

  /** Decimal digits read back to the number, without a leading zero. */
  lemma {:induction false} DecimalRoundTrip(n: nat)
    ensures Decimal(n) != [] && AllDigits(Decimal(n)) && Value(Decimal(n)) == n
    ensures Decimal(n)[0] == '0' ==> n == 0 && |Decimal(n)| == 1
    ensures n < 256 ==> |Decimal(n)| <= 3
  {
    if n >= 10 {
      DecimalRoundTrip(n / 10);
      var s := Decimal(n);
      assert s[..|s| - 1] == Decimal(n / 10);
      if n < 256 { assert n / 10 < 26 && n / 10 / 10 < 10; }
    }
  }

  // ---------------------------------------------------------------- splitting

  function SplitOnce(s: string, sep: char): Option<(string, string)> {
    if s == [] then None
    else if s[0] == sep then Some(([], s[1..]))
    else match SplitOnce(s[1..], sep)
         case None => None
         case Some((a, b)) => Some(([s[0]] + a, b))
  }

  lemma {:induction false} SplitOnceAt(a: string, sep: char, b: string)
    requires sep !in a
    ensures SplitOnce(a + [sep] + b, sep) == Some((a, b))
  {
    var s := a + [sep] + b;
    if a == [] {
      assert s[1..] == b;
    } else {
      assert s[1..] == a[1..] + [sep] + b;
      SplitOnceAt(a[1..], sep, b);
      assert [a[0]] + a[1..] == a;
    }
  }

  // ---------------------------------------------------------------- parsing

  /** An unsigned byte: an optional plus sign, then digits; leading zeros are accepted. */
  function ParseU8(s: string): Result<nat> {
    var digits := if s != [] && s[0] == '+' then s[1..] else s;
    if digits == [] || !AllDigits(digits) || Value(digits) > 255 then Err else Ok(Value(digits))
  }

  /** An address octet: up to three digits, no sign, no leading zero. */
  function ParseOctet(s: string): (r: Result<Octet>) {
    if s == [] || |s| > 3 || !AllDigits(s) || (|s| > 1 && s[0] == '0') || Value(s) > 255 then Err
    else Ok(Value(s))
  }

  function ParseAddr(s: string): Result<U32> {
    match SplitOnce(s, '.')
    case None => Err
    case Some((a, s1)) =>
      match SplitOnce(s1, '.')
      case None => Err
      case Some((b, s2)) =>
        match SplitOnce(s2, '.')
        case None => Err
        case Some((c, d)) =>
          var (a, b, c, d) := (ParseOctet(a), ParseOctet(b), ParseOctet(c), ParseOctet(d));
          if a.Ok? && b.Ok? && c.Ok? && d.Ok? then Ok(Addr(a.value, b.value, c.value, d.value)) else Err
  }

  /** Without a slash the text is a single host. */
  function Parse(s: string): (r: Result<Ipv4Cidr>)
    ensures r.Ok? ==> Canonical(r.value)
  {
    match SplitOnce(s, '/')
    case None => (match ParseAddr(s) case Err => Err case Ok(addr) => New(addr, 32))
    case Some((a, p)) =>
      match ParseU8(p)
      case Err => Err
      case Ok(prefix) => match ParseAddr(a) case Err => Err case Ok(addr) => New(addr, prefix)
  }

  // ---------------------------------------------------------------- printing

  function ShowAddr(addr: U32): string {
    var (a, b, c, d) := Octets(addr);
    Decimal(a) + ['.'] + (Decimal(b) + ['.'] + (Decimal(c) + ['.'] + Decimal(d)))
  }

  function Show(c: Ipv4Cidr): string {
    ShowAddr(c.addr) + ['/'] + Decimal(c.prefix)
  }

  lemma OctetRoundTrip(n: Octet)
    ensures ParseOctet(Decimal(n)) == Ok(n) && '.' !in Decimal(n) && '/' !in Decimal(n)
  {
    DecimalRoundTrip(n);
  }

  lemma AddrRoundTrip(addr: U32)
    ensures ParseAddr(ShowAddr(addr)) == Ok(addr) && '/' !in ShowAddr(addr)
  {
    var (a, b, c, d) := Octets(addr);
    OctetRoundTrip(a);
    OctetRoundTrip(b);
    OctetRoundTrip(c);
    OctetRoundTrip(d);
    SplitOnceAt(Decimal(a), '.', Decimal(b) + ['.'] + (Decimal(c) + ['.'] + Decimal(d)));
    SplitOnceAt(Decimal(b), '.', Decimal(c) + ['.'] + Decimal(d));
    SplitOnceAt(Decimal(c), '.', Decimal(d));
  }

  /** The canonicality check accepts every printed prefix, and the parser gives it back. */
  lemma RoundTrip(c: Ipv4Cidr)
    requires Canonical(c)
    ensures Parse(Show(c)) == Ok(c)
  {
    AddrRoundTrip(c.addr);
    DecimalRoundTrip(c.prefix);
    SplitOnceAt(ShowAddr(c.addr), '/', Decimal(c.prefix));
    assert ParseU8(Decimal(c.prefix)) == Ok(c.prefix);
  }

  // ---------------------------------------------------------------- what is accepted

  /** Decimal notation, digit by digit. */
  lemma DecimalDigits(a: nat, b: nat)
    requires b < 10
    ensures Decimal(b) == ["0123456789"[b]]
    ensures a > 0 ==> Decimal(10 * a + b) == Decimal(a) + ["0123456789"[b]]
  {
    DigitChar(b);
    if a > 0 { assert (10 * a + b) / 10 == a && (10 * a + b) % 10 == b; }
  }

  lemma DigitChar(b: nat)
    requires b < 10
    ensures Digit(b) == "0123456789"[b]
  {
  }

  lemma {:induction false} ValueIsPositive(s: string)
    requires AllDigits(s) && s != [] && s[0] != '0'
    ensures Value(s) > 0
    decreases |s|
  {
    if |s| > 1 { ValueIsPositive(s[..|s| - 1]); }
  }

  /** Digits without a leading zero are the decimal notation of their value. */
  lemma {:induction false} DecimalOfValue(s: string)
    requires AllDigits(s) && s != [] && (|s| > 1 ==> s[0] != '0')
    ensures Decimal(Value(s)) == s
    decreases |s|
  {
    var last := s[|s| - 1];
    assert Digit(DigitValue(last)) == last;
    if |s| == 1 {
      assert s == [last] && Value(s[..0]) == 0;
    } else {
      var init := s[..|s| - 1];
      ValueIsPositive(init);
      DecimalOfValue(init);
      assert Value(s) / 10 == Value(init) && Value(s) % 10 == DigitValue(last);
      assert s == init + [last];
    }
  }

  /** An octet is accepted exactly if it is the decimal notation of a number below 256. */
  lemma OctetAcceptedIff(s: string, n: Octet)
    ensures ParseOctet(s) == Ok(n) <==> s == Decimal(n)
  {
    OctetRoundTrip(n);
    if ParseOctet(s) == Ok(n) { DecimalOfValue(s); }
  }

  lemma {:induction false} SplitOnceIs(s: string, sep: char)
    ensures SplitOnce(s, sep).None? <==> sep !in s
    ensures SplitOnce(s, sep).Some? ==>
              var (a, b) := SplitOnce(s, sep).value; s == a + [sep] + b && sep !in a
  {
    if s != [] && s[0] != sep {
      SplitOnceIs(s[1..], sep);
      assert s == [s[0]] + s[1..];
    }
  }

  lemma AddrOfOctets(a: Octet, b: Octet, c: Octet, d: Octet)
    ensures Octets(Addr(a, b, c, d)) == (a, b, c, d)
  {
    var (w, x, y, z) := Octets(Addr(a, b, c, d));
    SameAddress(w, x, y, z, a, b, c, d);
  }

  lemma SameAddress(a: Octet, b: Octet, c: Octet, d: Octet, w: Octet, x: Octet, y: Octet, z: Octet)
    requires Addr(a, b, c, d) == Addr(w, x, y, z)
    ensures a == w && b == x && c == y && d == z
  {
  }

  /** The text of four octets. */
  function Joined(a: string, b: string, c: string, d: string): string {
    a + ['.'] + (b + ['.'] + (c + ['.'] + d))
  }

  /** An accepted address is four accepted octets with dots between them. */
  lemma AcceptedParts(s: string, addr: U32) returns (a: Octet, b: Octet, c: Octet, d: Octet)
    requires ParseAddr(s) == Ok(addr)
    ensures s == Joined(Decimal(a), Decimal(b), Decimal(c), Decimal(d)) && addr == Addr(a, b, c, d)
  {
    SplitOnceIs(s, '.');
    var (t1, s1) := SplitOnce(s, '.').value;
    SplitOnceIs(s1, '.');
    var (t2, s2) := SplitOnce(s1, '.').value;
    SplitOnceIs(s2, '.');
    var (t3, t4) := SplitOnce(s2, '.').value;
    a, b, c, d := ParseOctet(t1).value, ParseOctet(t2).value, ParseOctet(t3).value, ParseOctet(t4).value;
    OctetAcceptedIff(t1, a);
    OctetAcceptedIff(t2, b);
    OctetAcceptedIff(t3, c);
    OctetAcceptedIff(t4, d);
  }

  /** An address is accepted exactly in the notation in which it is printed. */
  lemma AddrAcceptedIff(s: string, addr: U32)
    ensures ParseAddr(s) == Ok(addr) <==> s == ShowAddr(addr)
  {
    AddrRoundTrip(addr);
    if ParseAddr(s) == Ok(addr) {
      var a, b, c, d := AcceptedParts(s, addr);
      AddrOfOctets(a, b, c, d);
    }
  }

  /** The printed address: the four octets, most significant first, in decimal. */
  lemma ShowAddrIs(a: Octet, b: Octet, c: Octet, d: Octet)
    ensures ShowAddr(Addr(a, b, c, d)) == Decimal(a) + "." + (Decimal(b) + "." + (Decimal(c) + "." + Decimal(d)))
  {
    AddrOfOctets(a, b, c, d);
  }

  /** A prefix length as it may be written: digits, leading zeros allowed, after an optional plus sign. */
  predicate IsPrefixText(p: string, n: nat) {
    var digits := if p != [] && p[0] == '+' then p[1..] else p;
    digits != [] && AllDigits(digits) && Value(digits) == n
  }

  lemma NoSlash(addr: U32)
    ensures '/' !in ShowAddr(addr)
  {
    AddrRoundTrip(addr);
  }

  /** Exactly the canonical prefixes are accepted: a printed address, alone or before a slash and a prefix length. */
  lemma ParseAcceptsIff(s: string, c: Ipv4Cidr)
    ensures Parse(s) == Ok(c) <==>
            Canonical(c) && ((c.prefix == 32 && s == ShowAddr(c.addr))
                             || exists p :: IsPrefixText(p, c.prefix) && s == ShowAddr(c.addr) + ['/'] + p)
  {
    SplitOnceIs(s, '/');
    NoSlash(c.addr);
    if SplitOnce(s, '/').None? {
      AddrAcceptedIff(s, c.addr);
    } else {
      var (a, p) := SplitOnce(s, '/').value;
      AddrAcceptedIff(a, c.addr);
      if q :| IsPrefixText(q, c.prefix) && s == ShowAddr(c.addr) + ['/'] + q { SplitOnceAt(ShowAddr(c.addr), '/', q); }
    }
  }
}
