/**
 Route requests as rtnetlink messages (sections 2.3.2 and 3.1.1 of RFC 3549): a message
 header, a route header and a list of aligned attributes.
 */
module Netlinks {
  import opened Wrappers
  import opened Cidrs
  import opened ByteOrders
  import opened RouteTables
  import opened RoutePlans

  const NLMSG_ERROR: U16 := 2
  const RTM_NEWROUTE: U16 := 24
  const NLM_F_REQUEST_ACK_CREATE_REPLACE: U16 := 0x505
  const AF_INET: Octet := 2
  const RT_TABLE_MAIN: Octet := 254
  const RTPROT_STATIC: Octet := 4
  const RTN_UNICAST: Octet := 1
  const RTN_UNREACHABLE: Octet := 7
  const RT_SCOPE_UNIVERSE: Octet := 0
  const RT_SCOPE_NOWHERE: Octet := 255
  const RTNH_F_ONLINK: U32 := 4
  const RTA_DST: U16 := 1
  const RTA_OIF: U16 := 4
  const RTA_GATEWAY: U16 := 5

  // ---------------------------------------------------------------- encoding

  function Zeros(n: nat): (r: Bytes)
    ensures |r| == n
  {
    seq(n, _ => 0)
  }

  /** How far an attribute of this length reaches with its padding. */
  function Aligned(len: nat): (r: nat)
    ensures r % 4 == 0 && len <= r < len + 4
  {
    len + (4 - len % 4) % 4
  }

  /** An attribute: length and kind, the data, and zeros up to the next multiple of four. */
  function Attr(k: Codec, kind: U16, data: Bytes): Bytes
    requires |data| <= 0xFFF0
  {
    k.put16(4 + |data|) + k.put16(kind) + data + Zeros(Aligned(4 + |data|) - (4 + |data|))
  }

  function RtMsg(k: Codec, cidr: Ipv4Cidr, kind: Octet, scope: Octet, flags: U32): Bytes
    requires cidr.prefix <= 32
  {
    [AF_INET, cidr.prefix, 0, 0, RT_TABLE_MAIN, RTPROT_STATIC, scope, kind] + k.put32(flags)
  }

  function RouteHeader(k: Codec, route: Ipv4Route): Bytes
    requires route.cidr.prefix <= 32
  {
    match route
    case Unreachable(c) => RtMsg(k, c, RTN_UNREACHABLE, RT_SCOPE_NOWHERE, 0)
    case ViaGateway(c) => RtMsg(k, c, RTN_UNICAST, RT_SCOPE_UNIVERSE, RTNH_F_ONLINK)
  }

  /** The destination is left out when the prefix is empty. */
  function DestinationAttr(k: Codec, cidr: Ipv4Cidr): Bytes
    requires Lawful(k)
  {
    if cidr.prefix > 0 then Attr(k, RTA_DST, k.putAddr(cidr.addr)) else []
  }

  function GatewayAttrs(k: Codec, route: Ipv4Route, ifindex: U32, gw: U32): Bytes
    requires Lawful(k)
  {
    if route.ViaGateway? then Attr(k, RTA_GATEWAY, k.putAddr(gw)) + Attr(k, RTA_OIF, k.put32(ifindex)) else []
  }

  function Header(k: Codec, length: U32, sequence: U32): Bytes {
    k.put32(length) + k.put16(RTM_NEWROUTE) + k.put16(NLM_F_REQUEST_ACK_CREATE_REPLACE) + k.put32(sequence) + k.put32(0)
  }

  function Body(k: Codec, route: Ipv4Route, ifindex: U32, gw: U32): Bytes
    requires Lawful(k) && route.cidr.prefix <= 32
  {
    RouteHeader(k, route) + (DestinationAttr(k, route.cidr) + GatewayAttrs(k, route, ifindex, gw))
  }

  lemma AttrLength(k: Codec, kind: U16, data: Bytes)
    requires Lawful(k) && |data| <= 0xFFF0
    ensures |Attr(k, kind, data)| == Aligned(4 + |data|)
  {
  }

  /** A route header, at most three attributes of eight bytes, nothing unaligned. */
  lemma BodyLength(k: Codec, route: Ipv4Route, ifindex: U32, gw: U32)
    requires Lawful(k) && route.cidr.prefix <= 32
    ensures |RouteHeader(k, route)| == 12
    ensures |Body(k, route, ifindex, gw)| ==
            12 + (if route.cidr.prefix > 0 then 8 else 0) + (if route.ViaGateway? then 16 else 0)
  {
    AttrLength(k, RTA_DST, k.putAddr(route.cidr.addr));
    AttrLength(k, RTA_GATEWAY, k.putAddr(gw));
    AttrLength(k, RTA_OIF, k.put32(ifindex));
  }

  function RouteMessage(k: Codec, route: Ipv4Route, ifindex: U32, gw: U32, sequence: U32): Bytes
    requires Lawful(k) && route.cidr.prefix <= 32
  {
    var body := Body(k, route, ifindex, gw);
    BodyLength(k, route, ifindex, gw);
    Header(k, 16 + |body|, sequence) + body
  }

  /** The socket numbers its requests. */
  class Netlink {
    const codec: Codec
    var seqno: U32

    constructor (codec: Codec)
      ensures this.codec == codec && seqno == 0
    {
      this.codec, seqno := codec, 0;
    }

    /** The message of the next request. The counter wraps, as it does without overflow checks. */
    method NextRequest(route: Ipv4Route, ifindex: U32, gw: U32) returns (msg: Bytes)
      requires Lawful(codec) && route.cidr.prefix <= 32
      modifies this`seqno
      ensures seqno == (old(seqno) + 1) % TWO32
      ensures msg == RouteMessage(codec, route, ifindex, gw, seqno)
    {
      seqno := (seqno + 1) % TWO32;
      msg := RouteMessage(codec, route, ifindex, gw, seqno);
    }
  }

  // ---------------------------------------------------------------- decoding

  /** The data of the first attribute of a kind, walking the list by the attributes' own lengths. */
  function FindAttr(k: Codec, kind: U16, b: Bytes): Option<Bytes>
    decreases |b|
  {
    if |b| < 4 then None
    else
      var len := k.get16(b[..2]);
      if len < 4 || len > |b| then None
      else if k.get16(b[2..4]) == kind then Some(b[4..len])
      else if Aligned(len) > |b| then None
      else FindAttr(k, kind, b[Aligned(len)..])
  }

  /** What a route request asks for, as the receiver reads it: the flags of the request and the table it is for, too. */
  datatype Request = Request(
    route: Ipv4Route,
    gateway: Option<U32>,
    ifindex: Option<U32>,
    sequence: U32,
    flags: U16,
    table: Octet)

  /** Whether the flags contain the given one, a power of two. */
  predicate HasFlag(flags: U16, flag: nat)
    requires flag > 0
  {
    flags / flag % 2 == 1
  }

  function AddrAttr(k: Codec, kind: U16, b: Bytes): Option<U32> {
    match FindAttr(k, kind, b)
    case None => None
    case Some(data) => if |data| == 4 then Some(k.getAddr(data)) else None
  }

  function IndexAttr(k: Codec, b: Bytes): Option<U32> {
    match FindAttr(k, RTA_OIF, b)
    case None => None
    case Some(data) => if |data| == 4 then Some(k.get32(data)) else None
  }

  /** A missing destination means the zero address. */
  function DestinationOf(k: Codec, attrs: Bytes): U32 {
    match AddrAttr(k, RTA_DST, attrs) case None => 0 case Some(a) => a
  }

  function DecodeBody(k: Codec, flags: U16, sequence: U32, header: Bytes, attrs: Bytes): Result<Request>
    requires |header| == 12
  {
    var cidr := Cidr(DestinationOf(k, attrs), header[1]);
    var gw, oif := AddrAttr(k, RTA_GATEWAY, attrs), IndexAttr(k, attrs);
    if header[0] != AF_INET then Err
    else if header[7] == RTN_UNREACHABLE then Ok(Request(Unreachable(cidr), gw, oif, sequence, flags, header[4]))
    else if header[7] == RTN_UNICAST then Ok(Request(ViaGateway(cidr), gw, oif, sequence, flags, header[4]))
    else Err
  }

  function Decode(k: Codec, msg: Bytes): Result<Request> {
    if |msg| < 28 || k.get32(msg[..4]) != |msg| || k.get16(msg[4..6]) != RTM_NEWROUTE then Err
    else DecodeBody(k, k.get16(msg[6..8]), k.get32(msg[8..12]), msg[16..28], msg[28..])
  }

  // ---------------------------------------------------------------- round trip

  /** Where the parts of a concatenation lie. */
  lemma PartsOfAttr<T>(a: seq<T>, b: seq<T>, c: seq<T>, d: seq<T>, rest: seq<T>)
    ensures var s := a + b + c + d + rest;
            && |s| == |a| + |b| + |c| + |d| + |rest|
            && s[..|a|] == a && s[|a|..|a| + |b|] == b && s[|a| + |b|..|a| + |b| + |c|] == c
            && s[|a| + |b| + |c| + |d|..] == rest
  {
  }

  lemma AttrFields(k: Codec, kind: U16, data: Bytes, rest: Bytes)
    requires Lawful(k) && |data| <= 0xFFF0
    ensures var b := Attr(k, kind, data) + rest; var len := 4 + |data|;
            && |b| == Aligned(len) + |rest| && b[..2] == k.put16(len) && b[2..4] == k.put16(kind)
            && b[4..len] == data && b[Aligned(len)..] == rest
  {
    var len := 4 + |data|;
    PartsOfAttr(k.put16(len), k.put16(kind), data, Zeros(Aligned(len) - len), rest);
  }

  /** An attribute is found where it was put and skipped when another one is looked for. */
  lemma FindAttrHead(k: Codec, kind: U16, data: Bytes, rest: Bytes, wanted: U16)
    requires Lawful(k) && |data| <= 0xFFF0
    ensures FindAttr(k, wanted, Attr(k, kind, data) + rest)
         == if wanted == kind then Some(data) else FindAttr(k, wanted, rest)
  {
    AttrFields(k, kind, data, rest);
  }

  lemma FindInGateway(k: Codec, route: Ipv4Route, ifindex: U32, gw: U32, wanted: U16)
    requires Lawful(k)
    ensures FindAttr(k, wanted, GatewayAttrs(k, route, ifindex, gw)) ==
            if route.Unreachable? then None
            else if wanted == RTA_GATEWAY then Some(k.putAddr(gw))
            else if wanted == RTA_OIF then Some(k.put32(ifindex))
            else None
  {
    if route.ViaGateway? {
      var oif := Attr(k, RTA_OIF, k.put32(ifindex));
      FindAttrHead(k, RTA_GATEWAY, k.putAddr(gw), oif, wanted);
      FindAttrHead(k, RTA_OIF, k.put32(ifindex), [], wanted);
      assert oif + [] == oif;
    }
  }

  lemma FindInAttrs(k: Codec, route: Ipv4Route, ifindex: U32, gw: U32, wanted: U16)
    requires Lawful(k)
    ensures FindAttr(k, wanted, DestinationAttr(k, route.cidr) + GatewayAttrs(k, route, ifindex, gw)) ==
            if wanted == RTA_DST then (if route.cidr.prefix > 0 then Some(k.putAddr(route.cidr.addr)) else None)
            else if route.Unreachable? then None
            else if wanted == RTA_GATEWAY then Some(k.putAddr(gw))
            else if wanted == RTA_OIF then Some(k.put32(ifindex))
            else None
  {
    var rest := GatewayAttrs(k, route, ifindex, gw);
    FindInGateway(k, route, ifindex, gw, wanted);
    if route.cidr.prefix > 0 {
      FindAttrHead(k, RTA_DST, k.putAddr(route.cidr.addr), rest, wanted);
    } else {
      assert [] + rest == rest;
    }
  }

  /** The request as it was meant: the gateway and the interface only matter for a gateway route. */
  function Meant(route: Ipv4Route, ifindex: U32, gw: U32, sequence: U32): Request {
    if route.Unreachable? then Request(route, None, None, sequence, 0x505, 254)
    else Request(route, Some(gw), Some(ifindex), sequence, 0x505, 254)
  }

  lemma HeaderFields(k: Codec, route: Ipv4Route)
    requires Lawful(k) && route.cidr.prefix <= 32
    ensures var h := RouteHeader(k, route);
            && |h| == 12 && h[0] == AF_INET && h[1] == route.cidr.prefix && h[4] == 254
            && h[7] == if route.Unreachable? then RTN_UNREACHABLE else RTN_UNICAST
  {
  }

  /** The only canonical prefix of length zero is 0.0.0.0/0. */
  lemma ZeroPrefixIsZero(c: Ipv4Cidr)
    requires Canonical(c) && c.prefix == 0
    ensures c.addr == 0
  {
    BitsAsNumbers(c.addr, 0);
    Pow2Values();
  }

  lemma AttrsOf(k: Codec, route: Ipv4Route, ifindex: U32, gw: U32)
    requires Lawful(k) && Canonical(route.cidr)
    ensures var attrs := DestinationAttr(k, route.cidr) + GatewayAttrs(k, route, ifindex, gw);
            && DestinationOf(k, attrs) == route.cidr.addr
            && AddrAttr(k, RTA_GATEWAY, attrs) == (if route.Unreachable? then None else Some(gw))
            && IndexAttr(k, attrs) == (if route.Unreachable? then None else Some(ifindex))
  {
    FindInAttrs(k, route, ifindex, gw, RTA_DST);
    FindInAttrs(k, route, ifindex, gw, RTA_GATEWAY);
    FindInAttrs(k, route, ifindex, gw, RTA_OIF);
    if route.cidr.prefix == 0 { ZeroPrefixIsZero(route.cidr); }
  }

  lemma DecodeBodyOf(k: Codec, route: Ipv4Route, ifindex: U32, gw: U32, sequence: U32)
    requires Lawful(k) && Canonical(route.cidr)
    ensures |RouteHeader(k, route)| == 12
    ensures DecodeBody(k, 0x505, sequence, RouteHeader(k, route), DestinationAttr(k, route.cidr) + GatewayAttrs(k, route, ifindex, gw))
         == Ok(Meant(route, ifindex, gw, sequence))
  {
    HeaderFields(k, route);
    AttrsOf(k, route, ifindex, gw);
  }

  lemma PartsOfMessage<T>(a: seq<T>, b: seq<T>, c: seq<T>, d: seq<T>, p: seq<T>, header: seq<T>, attrs: seq<T>)
    requires |a| == 4 && |b| == 2 && |c| == 2 && |d| == 4 && |p| == 4 && |header| == 12
    ensures var s := a + b + c + d + p + (header + attrs);
            && |s| == 28 + |attrs| && s[..4] == a && s[4..6] == b && s[6..8] == c && s[8..12] == d && s[16..28] == header && s[28..] == attrs
  {
  }

  lemma MessageParts(k: Codec, length: U32, sequence: U32, header: Bytes, attrs: Bytes)
    requires Lawful(k) && |header| == 12
    ensures var msg := Header(k, length, sequence) + (header + attrs);
            && |msg| == 28 + |attrs|
            && k.get32(msg[..4]) == length && k.get16(msg[4..6]) == RTM_NEWROUTE && k.get16(msg[6..8]) == 0x505
            && k.get32(msg[8..12]) == sequence
            && msg[16..28] == header && msg[28..] == attrs
  {
    PartsOfMessage(k.put32(length), k.put16(RTM_NEWROUTE), k.put16(NLM_F_REQUEST_ACK_CREATE_REPLACE),
                   k.put32(sequence), k.put32(0), header, attrs);
  }

  lemma DecodeParts(k: Codec, sequence: U32, header: Bytes, attrs: Bytes)
    requires Lawful(k) && |header| == 12 && |attrs| <= 0xFFFF
    ensures var msg := Header(k, 28 + |attrs|, sequence) + (header + attrs);
            && |msg| == 28 + |attrs| && k.get32(msg[..4]) == |msg|
            && Decode(k, msg) == DecodeBody(k, 0x505, sequence, header, attrs)
  {
    MessageParts(k, 28 + |attrs|, sequence, header, attrs);
  }

  lemma MessageForm(k: Codec, route: Ipv4Route, ifindex: U32, gw: U32, sequence: U32)
    requires Lawful(k) && route.cidr.prefix <= 32
    ensures var header, attrs := RouteHeader(k, route), DestinationAttr(k, route.cidr) + GatewayAttrs(k, route, ifindex, gw);
            && |header| == 12 && |attrs| <= 24 && |attrs| % 4 == 0
            && RouteMessage(k, route, ifindex, gw, sequence) == Header(k, 28 + |attrs|, sequence) + (header + attrs)
  {
    BodyLength(k, route, ifindex, gw);
  }

  /** The receiver reads back the request, and the header's length is the message's length. */
  lemma RoundTrip(k: Codec, route: Ipv4Route, ifindex: U32, gw: U32, sequence: U32)
    requires Lawful(k) && Canonical(route.cidr)
    ensures var msg := RouteMessage(k, route, ifindex, gw, sequence);
            && |msg| >= 4 && k.get32(msg[..4]) == |msg| && |msg| % 4 == 0
            && Decode(k, msg) == Ok(Meant(route, ifindex, gw, sequence))
  {
    var header, attrs := RouteHeader(k, route), DestinationAttr(k, route.cidr) + GatewayAttrs(k, route, ifindex, gw);
    MessageForm(k, route, ifindex, gw, sequence);
    DecodeParts(k, sequence, header, attrs);
    DecodeBodyOf(k, route, ifindex, gw, sequence);
  }

  /** Walking the attributes by their own lengths visits aligned offsets only and ends where `b` ends. */
  predicate AlignedWalk(k: Codec, b: Bytes, at: nat)
    decreases |b|
  {
    && at % 4 == 0
    && (b != [] ==>
          && |b| >= 4
          && var len := k.get16(b[..2]);
             4 <= len && Aligned(len) <= |b| && AlignedWalk(k, b[Aligned(len)..], at + Aligned(len)))
  }

  lemma WalkOverAttr(k: Codec, kind: U16, data: Bytes, rest: Bytes, at: nat)
    requires Lawful(k) && |data| <= 0xFFF0 && at % 4 == 0
    requires AlignedWalk(k, rest, at + Aligned(4 + |data|))
    ensures AlignedWalk(k, Attr(k, kind, data) + rest, at)
  {
    AttrFields(k, kind, data, rest);
  }

  lemma WalkOverGateway(k: Codec, route: Ipv4Route, ifindex: U32, gw: U32, at: nat)
    requires Lawful(k) && at % 4 == 0
    ensures AlignedWalk(k, GatewayAttrs(k, route, ifindex, gw), at)
  {
    if route.ViaGateway? {
      var oif := Attr(k, RTA_OIF, k.put32(ifindex));
      WalkOverAttr(k, RTA_OIF, k.put32(ifindex), [], at + 8);
      assert oif + [] == oif;
      WalkOverAttr(k, RTA_GATEWAY, k.putAddr(gw), oif, at);
    }
  }

  lemma WalkOverAttrs(k: Codec, route: Ipv4Route, ifindex: U32, gw: U32, at: nat)
    requires Lawful(k) && at % 4 == 0
    ensures AlignedWalk(k, DestinationAttr(k, route.cidr) + GatewayAttrs(k, route, ifindex, gw), at)
  {
    var rest := GatewayAttrs(k, route, ifindex, gw);
    if route.cidr.prefix > 0 {
      WalkOverGateway(k, route, ifindex, gw, at + 8);
      WalkOverAttr(k, RTA_DST, k.putAddr(route.cidr.addr), rest, at);
    } else {
      WalkOverGateway(k, route, ifindex, gw, at);
      assert [] + rest == rest;
    }
  }

  /** Every attribute of a message starts at a multiple of four bytes from its beginning. */
  lemma AttributesAreAligned(k: Codec, route: Ipv4Route, ifindex: U32, gw: U32, sequence: U32)
    requires Lawful(k) && route.cidr.prefix <= 32
    ensures var msg := RouteMessage(k, route, ifindex, gw, sequence);
            |msg| >= 28 && AlignedWalk(k, msg[28..], 28)
  {
    var attrs := DestinationAttr(k, route.cidr) + GatewayAttrs(k, route, ifindex, gw);
    MessageForm(k, route, ifindex, gw, sequence);
    MessageParts(k, 28 + |attrs|, sequence, RouteHeader(k, route), attrs);
    WalkOverAttrs(k, route, ifindex, gw, 28);
  }

  /** A prefix of length zero is sent without its address: only canonicality makes that lossless. */
  lemma ZeroPrefixForgetsAddress(k: Codec, a: U32, b: U32, ifindex: U32, gw: U32, sequence: U32)
    requires Lawful(k)
    ensures RouteMessage(k, ViaGateway(Cidr(a, 0)), ifindex, gw, sequence)
         == RouteMessage(k, ViaGateway(Cidr(b, 0)), ifindex, gw, sequence)
  {
    var x, y := ViaGateway(Cidr(a, 0)), ViaGateway(Cidr(b, 0));
    assert RouteHeader(k, x) == RouteHeader(k, y);
    assert Body(k, x, ifindex, gw) == Body(k, y, ifindex, gw);
  }

  // ---------------------------------------------------------------- acknowledgements

  datatype Ack = Acked | Malformed | Refused(error: U32)

  /** A reply is an acknowledgement if it is an error message with error number zero. */
  function ParseAck(k: Codec, reply: Bytes): Ack {
    if |reply| < 6 || k.get16(reply[4..6]) != NLMSG_ERROR then Malformed
    else if |reply| < 20 then Malformed
    else if k.get32(reply[16..20]) == 0 then Acked
    else Refused(k.get32(reply[16..20]))
  }

  /** Exactly the replies with the error kind and four zero bytes count as success. */
  lemma AckedIff(k: Codec, reply: Bytes)
    requires Lawful(k)
    ensures ParseAck(k, reply).Acked? <==>
            |reply| >= 20 && reply[4..6] == k.put16(2) && reply[16..20] == k.put32(0)
  {
    if |reply| >= 20 {
      var kind, error := reply[4..6], reply[16..20];
      assert k.put16(k.get16(kind)) == kind && k.put32(k.get32(error)) == error;
    }
  }

  /** A reply that is too short or of another kind is malformed; otherwise a number other than zero is a refusal with that number. */
  lemma NotAckedIs(k: Codec, reply: Bytes)
    ensures |reply| < 20 || k.get16(reply[4..6]) != 2 ==> ParseAck(k, reply) == Malformed
    ensures |reply| >= 20 && k.get16(reply[4..6]) == 2 && k.get32(reply[16..20]) != 0 ==>
              ParseAck(k, reply) == Refused(k.get32(reply[16..20]))
  {
  }

  lemma AckParts<T>(a: seq<T>, b: seq<T>, c: seq<T>, d: seq<T>)
    requires |a| == 4 && |b| == 2 && |c| == 10 && |d| == 4
    ensures var s := a + b + c + d; |s| == 20 && s[4..6] == b && s[16..20] == d
  {
  }

  /** There is an acknowledgement. */
  lemma AckExists(k: Codec) returns (reply: Bytes)
    requires Lawful(k)
    ensures ParseAck(k, reply).Acked?
  {
    reply := Zeros(4) + k.put16(2) + Zeros(10) + k.put32(0);
    AckParts(Zeros(4), k.put16(2), Zeros(10), k.put32(0));
    AckedIff(k, reply);
  }

  // ---------------------------------------------------------------- the bytes

  /** An attribute of four bytes. */
  function Attr4(k: Codec, kind: U16, data: Bytes): Bytes {
    k.put16(8) + k.put16(kind) + data
  }

  lemma AttrIsAttr4(k: Codec, kind: U16, data: Bytes)
    requires |data| == 4
    ensures Attr(k, kind, data) == Attr4(k, kind, data)
  {
    assert Aligned(8) == 8 && Zeros(0) == [];
    assert Attr4(k, kind, data) + [] == Attr4(k, kind, data);
  }

  /** The route header of an unreachable route and of a gateway route, byte by byte. */
  lemma RouteHeaderBytes(k: Codec, c: Ipv4Cidr)
    requires c.prefix <= 32
    ensures RouteHeader(k, Unreachable(c)) == [2, c.prefix, 0, 0, 254, 4, 255, 7] + k.put32(0)
    ensures RouteHeader(k, ViaGateway(c)) == [2, c.prefix, 0, 0, 254, 4, 0, 1] + k.put32(4)
  {
  }

  /** The attributes: destination 1 unless the prefix is empty, then gateway 5 and interface 4 for a gateway route. */
  lemma AttributeBytes(k: Codec, route: Ipv4Route, ifindex: U32, gw: U32)
    requires Lawful(k)
    ensures DestinationAttr(k, route.cidr) == if route.cidr.prefix > 0 then Attr4(k, 1, k.putAddr(route.cidr.addr)) else []
    ensures GatewayAttrs(k, route, ifindex, gw) ==
            if route.ViaGateway? then Attr4(k, 5, k.putAddr(gw)) + Attr4(k, 4, k.put32(ifindex)) else []
  {
    AttrIsAttr4(k, 1, k.putAddr(route.cidr.addr));
    AttrIsAttr4(k, 5, k.putAddr(gw));
    AttrIsAttr4(k, 4, k.put32(ifindex));
  }

  /**
   The whole message: its length, type 24, the flags request, acknowledge, create and replace,
   the sequence number, port zero, the route header and the attributes.
   */
  lemma MessageBytes(k: Codec, route: Ipv4Route, ifindex: U32, gw: U32, sequence: U32)
    requires Lawful(k) && route.cidr.prefix <= 32
    ensures var attrs := DestinationAttr(k, route.cidr) + GatewayAttrs(k, route, ifindex, gw);
            && |attrs| <= 24
            && RouteMessage(k, route, ifindex, gw, sequence) ==
               k.put32(28 + |attrs|) + k.put16(24) + k.put16(0x1 + 0x4 + 0x400 + 0x100) + k.put32(sequence) + k.put32(0)
               + (RouteHeader(k, route) + attrs)
  {
    MessageForm(k, route, ifindex, gw, sequence);
  }
}
