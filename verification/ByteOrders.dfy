/**
 Numbers as bytes. Most fields of a message are in the machine's byte order, addresses are
 always sent most significant byte first. A codec bundles the conversions; what the message
 code needs of it is that each number has a fixed width and reads back.
 */
module ByteOrders {
  import opened Cidrs

  type Bytes = seq<Octet>
  type U16 = x: nat | x < 0x1_0000

  datatype Endian = Little | Big

  datatype Codec = Codec(
    put16: U16 -> Bytes, get16: Bytes -> U16,
    put32: U32 -> Bytes, get32: Bytes -> U32,
    putAddr: U32 -> Bytes, getAddr: Bytes -> U32)

  ghost predicate Lawful(k: Codec) {
    && (forall x :: |k.put16(x)| == 2 && k.get16(k.put16(x)) == x)
    && (forall x :: |k.put32(x)| == 4 && k.get32(k.put32(x)) == x)
    && (forall x :: |k.putAddr(x)| == 4 && k.getAddr(k.putAddr(x)) == x)
    && (forall b :: |b| == 2 ==> k.put16(k.get16(b)) == b)
    && (forall b :: |b| == 4 ==> k.put32(k.get32(b)) == b)
  }

  function PutU16(e: Endian, x: U16): (r: Bytes)
    ensures |r| == 2
  {
    if e == Little then [x % 0x100, x / 0x100] else [x / 0x100, x % 0x100]
  }

  function GetU16(e: Endian, b: Bytes): U16 {
    if |b| != 2 then 0
    else
      var first: nat, second: nat := b[0], b[1];
      if e == Little then first + 0x100 * second else second + 0x100 * first
  }

  /** Most significant byte first. */
  function PutAddr(x: U32): (r: Bytes)
    ensures |r| == 4
  {
    var (a, b, c, d) := Octets(x);
    [a, b, c, d]
  }

  function GetAddr(b: Bytes): U32 {
    if |b| != 4 then 0 else Addr(b[0], b[1], b[2], b[3])
  }

  function Reverse4(b: Bytes): Bytes {
    if |b| != 4 then b else [b[3], b[2], b[1], b[0]]
  }

  function PutU32(e: Endian, x: U32): Bytes {
    if e == Big then PutAddr(x) else Reverse4(PutAddr(x))
  }

  function GetU32(e: Endian, b: Bytes): U32 {
    GetAddr(if e == Big then b else Reverse4(b))
  }

  /** The machine's conversions. */
  function Native(e: Endian): Codec {
    Codec(x => PutU16(e, x), b => GetU16(e, b), x => PutU32(e, x), b => GetU32(e, b), x => PutAddr(x), b => GetAddr(b))
  }

  lemma U16RoundTrip(e: Endian, x: U16)
    ensures |PutU16(e, x)| == 2 && GetU16(e, PutU16(e, x)) == x
  {
  }

  lemma U16Unique(e: Endian, b: Bytes)
    requires |b| == 2
    ensures PutU16(e, GetU16(e, b)) == b
  {
    assert b == [b[0], b[1]];
  }

  lemma U32RoundTrip(e: Endian, x: U32)
    ensures |PutU32(e, x)| == 4 && GetU32(e, PutU32(e, x)) == x && GetAddr(PutAddr(x)) == x
  {
    var b := PutAddr(x);
    assert Reverse4(Reverse4(b)) == b;
  }

  lemma AddrUnique(b: Bytes)
    requires |b| == 4
    ensures PutAddr(GetAddr(b)) == b
  {
    var (w, x, y, z) := Octets(GetAddr(b));
    OctetsUnique(w, x, y, z, b[0], b[1], b[2], b[3]);
    assert b == [b[0], b[1], b[2], b[3]];
  }

  lemma OctetsUnique(a: Octet, b: Octet, c: Octet, d: Octet, a': Octet, b': Octet, c': Octet, d': Octet)
    requires Addr(a, b, c, d) == Addr(a', b', c', d')
    ensures a == a' && b == b' && c == c' && d == d'
  {
  }

  lemma U32Unique(e: Endian, b: Bytes)
    requires |b| == 4
    ensures PutU32(e, GetU32(e, b)) == b
  {
    AddrUnique(b);
    AddrUnique(Reverse4(b));
    assert Reverse4(Reverse4(b)) == b;
  }

  /** On either kind of machine numbers are encoded without loss. */
  lemma NativeIsLawful(e: Endian)
    ensures Lawful(Native(e))
  {
    var k := Native(e);
    forall x: U16 ensures |k.put16(x)| == 2 && k.get16(k.put16(x)) == x { U16RoundTrip(e, x); }
    forall x: U32 ensures |k.put32(x)| == 4 && k.get32(k.put32(x)) == x { U32RoundTrip(e, x); }
    forall x: U32 ensures |k.putAddr(x)| == 4 && k.getAddr(k.putAddr(x)) == x { U32RoundTrip(e, x); }
    forall b: Bytes | |b| == 2 ensures k.put16(k.get16(b)) == b { U16Unique(e, b); }
    forall b: Bytes | |b| == 4 ensures k.put32(k.get32(b)) == b { U32Unique(e, b); }
  }

  /** Least significant byte first on a little-endian machine, most significant first on a big-endian one and in addresses. */
  lemma BytesInOrder(a: Octet, b: Octet, c: Octet, d: Octet)
    ensures PutU16(Little, a + 0x100 * b) == [a, b] && PutU16(Big, 0x100 * a + b) == [a, b]
    ensures PutU32(Little, a + 0x100 * b + 0x1_0000 * c + 0x100_0000 * d) == [a, b, c, d]
    ensures PutU32(Big, 0x100_0000 * a + 0x1_0000 * b + 0x100 * c + d) == [a, b, c, d]
    ensures PutAddr(0x100_0000 * a + 0x1_0000 * b + 0x100 * c + d) == [a, b, c, d]
  {
    var x, y := Addr(a, b, c, d), Addr(d, c, b, a);
    AddrUnique([a, b, c, d]);
    AddrUnique([d, c, b, a]);
    assert Reverse4([d, c, b, a]) == [a, b, c, d];
  }
}
