/**
 The route plan of a filtered sandbox: the built-in private ranges, the host's own addresses
 and the policy's deny list become unreachable; the default route, the DNS forwarder and the
 policy's allow list go to the gateway.
 */
module RoutePlans {
  import opened Cidrs
  import opened NetDefaults
  import opened RouteTables

  type Ipv4Route = Route<Ipv4Cidr>
  type Table = map<Ipv4Cidr, Target>

  datatype NetworkPolicy = NetworkPolicy(allow: seq<Ipv4Cidr>, deny: seq<Ipv4Cidr>)

  const DEFAULT_ROUTE := Cidr(0, 0)

  function DefaultPrefixes(): seq<Ipv4Cidr> {
    seq(|DEFAULT_DENY|, i requires 0 <= i < |DEFAULT_DENY| => Cidr(DEFAULT_DENY[i].0, DEFAULT_DENY[i].1))
  }

  function HostPrefixes(hosts: seq<U32>): seq<Ipv4Cidr> {
    seq(|hosts|, i requires 0 <= i < |hosts| => Host(hosts[i]))
  }

  /** Everything the plan makes unreachable, in plan order. */
  function Denied(policy: NetworkPolicy, hosts: seq<U32>): seq<Ipv4Cidr> {
    DefaultPrefixes() + HostPrefixes(hosts) + policy.deny
  }

  /** Everything the plan sends to the gateway, in plan order. */
  function Allowed(policy: NetworkPolicy): seq<Ipv4Cidr> {
    [DEFAULT_ROUTE, Host(DNS_ADDR)] + policy.allow
  }

  function RoutePlan(policy: NetworkPolicy, hosts: seq<U32>): seq<Ipv4Route> {
    PlanOf(Denied(policy, hosts), Allowed(policy))
  }

  /** Every prefix of a policy went through a constructor. */
  predicate WellFormed(policy: NetworkPolicy) {
    (forall c :: c in policy.allow ==> Canonical(c)) && (forall c :: c in policy.deny ==> Canonical(c))
  }

  lemma DefaultsAreCanonical(c: Ipv4Cidr)
    requires c in DefaultPrefixes()
    ensures Canonical(c)
  {
    var i :| 0 <= i < |DEFAULT_DENY| && DefaultPrefixes()[i] == c;
    DefaultDenyIsValid(i);
  }

  lemma HostsAreCanonical(hosts: seq<U32>, c: Ipv4Cidr)
    requires c in HostPrefixes(hosts)
    ensures Canonical(c)
  {
  }

  /** Every prefix of a plan is canonical. */
  lemma PlanIsCanonical(policy: NetworkPolicy, hosts: seq<U32>, c: Ipv4Cidr)
    requires WellFormed(policy) && (c in Denied(policy, hosts) || c in Allowed(policy))
    ensures Canonical(c)
  {
    if c in policy.allow || c in policy.deny {
    } else if c in DefaultPrefixes() {
      DefaultsAreCanonical(c);
    } else if c in HostPrefixes(hosts) {
      HostsAreCanonical(hosts, c);
    } else if c == DEFAULT_ROUTE {
      ZeroIsCanonical();
    }
  }

  function Covering(a: U32): Ipv4Cidr -> bool {
    (c: Ipv4Cidr) => Covers(c, a)
  }

  function PrefixLength(): Ipv4Cidr -> nat {
    (c: Ipv4Cidr) => c.prefix
  }

  /** Where a table sends an address. */
  ghost function Destination(table: Table, a: U32): Target {
    Lookup(table, Covering(a), PrefixLength())
  }

  // ---------------------------------------------------------------- the policy read directly

  /** The address `a.b.c.d`. */
  predicate Dotted(x: U32, a: nat, b: nat, c: nat, d: nat) {
    x / 0x100_0000 == a && x / 0x1_0000 % 0x100 == b && x / 0x100 % 0x100 == c && x % 0x100 == d
  }

  /** The private and special ranges that are closed to every sandbox. */
  predicate BuiltIn(c: Ipv4Cidr) {
    || (Dotted(c.addr, 0, 0, 0, 0) && c.prefix == 8)
    || (Dotted(c.addr, 10, 0, 0, 0) && c.prefix == 8)
    || (Dotted(c.addr, 100, 64, 0, 0) && c.prefix == 10)
    || (Dotted(c.addr, 169, 254, 0, 0) && c.prefix == 16)
    || (Dotted(c.addr, 172, 16, 0, 0) && c.prefix == 12)
    || (Dotted(c.addr, 192, 0, 0, 0) && c.prefix == 24)
    || (Dotted(c.addr, 192, 0, 2, 0) && c.prefix == 24)
    || (Dotted(c.addr, 192, 168, 0, 0) && c.prefix == 16)
    || (Dotted(c.addr, 198, 18, 0, 0) && c.prefix == 15)
    || (Dotted(c.addr, 198, 51, 100, 0) && c.prefix == 24)
    || (Dotted(c.addr, 203, 0, 113, 0) && c.prefix == 24)
    || (Dotted(c.addr, 224, 0, 0, 0) && c.prefix == 4)
    || (Dotted(c.addr, 240, 0, 0, 0) && c.prefix == 4)
  }

  /** What leads to the gateway: the default route, the DNS forwarder and the allow list. */
  predicate Opens(policy: NetworkPolicy, c: Ipv4Cidr) {
    || (Dotted(c.addr, 0, 0, 0, 0) && c.prefix == 0)
    || (Dotted(c.addr, 192, 0, 2, 53) && c.prefix == 32)
    || c in policy.allow
  }

  /** What leads nowhere: the built-in ranges, each of the host's addresses and the deny list. */
  predicate Closes(policy: NetworkPolicy, hosts: seq<U32>, c: Ipv4Cidr) {
    BuiltIn(c) || (c.prefix == 32 && c.addr in hosts) || c in policy.deny
  }

  /** Something that opens the address is at least as specific as everything that closes it. */
  ghost predicate Permitted(policy: NetworkPolicy, hosts: seq<U32>, a: U32) {
    exists c :: Opens(policy, c) && Covers(c, a) && forall d :: Closes(policy, hosts, d) && Covers(d, a) ==> d.prefix <= c.prefix
  }

  lemma SameOctets(a: Octet, b: Octet, c: Octet, d: Octet, w: Octet, x: Octet, y: Octet, z: Octet)
    requires a * 0x100_0000 + b * 0x1_0000 + c * 0x100 + d == w * 0x100_0000 + x * 0x1_0000 + y * 0x100 + z
    ensures a == w && b == x && c == y && d == z
  {
  }

  lemma DottedIs(x: U32, a: Octet, b: Octet, c: Octet, d: Octet, v: U32)
    requires v == a * 0x100_0000 + b * 0x1_0000 + c * 0x100 + d
    ensures Dotted(x, a, b, c, d) <==> x == v
  {
    var (o1, o2, o3, o4) := Octets(x);
    assert x == o1 * 0x100_0000 + o2 * 0x1_0000 + o3 * 0x100 + o4;
    if x == v { SameOctets(o1, o2, o3, o4, a, b, c, d); }
  }

  /** The addresses of the gateway and of the DNS forwarder. */
  lemma FixedAddresses()
    ensures Dotted(GATEWAY, 192, 0, 2, 1) && Dotted(DNS_ADDR, 192, 0, 2, 53)
  {
    DottedIs(GATEWAY, 192, 0, 2, 1, 0xC000_0201);
    DottedIs(DNS_ADDR, 192, 0, 2, 53, 0xC000_0235);
  }

  lemma DefaultsAre(c: Ipv4Cidr)
    ensures c in DefaultPrefixes() <==> (c.addr, c.prefix) in DEFAULT_DENY
  {
    if c in DefaultPrefixes() {
      var i :| 0 <= i < |DEFAULT_DENY| && DefaultPrefixes()[i] == c;
      assert DEFAULT_DENY[i] == (c.addr, c.prefix);
    }
    if (c.addr, c.prefix) in DEFAULT_DENY {
      var i :| 0 <= i < |DEFAULT_DENY| && DEFAULT_DENY[i] == (c.addr, c.prefix);
      assert DefaultPrefixes()[i] == c;
    }
  }

  lemma BuiltInIsDefault(c: Ipv4Cidr)
    ensures BuiltIn(c) <==> (c.addr, c.prefix) in DEFAULT_DENY
  {
    DottedIs(c.addr, 0, 0, 0, 0, 0x0000_0000);
    DottedIs(c.addr, 10, 0, 0, 0, 0x0A00_0000);
    DottedIs(c.addr, 100, 64, 0, 0, 0x6440_0000);
    DottedIs(c.addr, 169, 254, 0, 0, 0xA9FE_0000);
    DottedIs(c.addr, 172, 16, 0, 0, 0xAC10_0000);
    DottedIs(c.addr, 192, 0, 0, 0, 0xC000_0000);
    DottedIs(c.addr, 192, 0, 2, 0, 0xC000_0200);
    DottedIs(c.addr, 192, 168, 0, 0, 0xC0A8_0000);
    DottedIs(c.addr, 198, 18, 0, 0, 0xC612_0000);
    DottedIs(c.addr, 198, 51, 100, 0, 0xC633_6400);
    DottedIs(c.addr, 203, 0, 113, 0, 0xCB00_7100);
    DottedIs(c.addr, 224, 0, 0, 0, 0xE000_0000);
    DottedIs(c.addr, 240, 0, 0, 0, 0xF000_0000);
  }

  lemma HostsAre(hosts: seq<U32>, c: Ipv4Cidr)
    ensures c in HostPrefixes(hosts) <==> c.prefix == 32 && c.addr in hosts
  {
    if c.prefix == 32 && c.addr in hosts {
      var i :| 0 <= i < |hosts| && hosts[i] == c.addr;
      assert HostPrefixes(hosts)[i] == c;
    }
  }

  lemma DeniedAre(policy: NetworkPolicy, hosts: seq<U32>, c: Ipv4Cidr)
    ensures c in Denied(policy, hosts) <==> Closes(policy, hosts, c)
  {
    DefaultsAre(c);
    BuiltInIsDefault(c);
    HostsAre(hosts, c);
  }

  lemma AllowedAre(policy: NetworkPolicy, c: Ipv4Cidr)
    ensures c in Allowed(policy) <==> Opens(policy, c)
  {
    DottedIs(c.addr, 0, 0, 0, 0, 0);
    DottedIs(c.addr, 192, 0, 2, 53, 0xC000_0235);
  }

  lemma LongestDecides(allowed: seq<Ipv4Cidr>, denied: seq<Ipv4Cidr>, covers: Ipv4Cidr -> bool, length: Ipv4Cidr -> nat)
    requires exists c :: c in allowed && covers(c)
    ensures Longest(allowed, covers, length) >= Longest(denied, covers, length) <==>
            exists c :: c in allowed && covers(c) && forall d :: d in denied && covers(d) ==> length(d) <= length(c)
  {
    var up, down := Longest(allowed, covers, length), Longest(denied, covers, length);
    if up >= down {
      var c :| c in allowed && covers(c) && length(c) == up;
    }
  }

  lemma PermittedIsLongest(policy: NetworkPolicy, hosts: seq<U32>, a: U32)
    ensures Permitted(policy, hosts, a) <==>
            Longest(Allowed(policy), Covering(a), PrefixLength()) >= Longest(Denied(policy, hosts), Covering(a), PrefixLength())
  {
    var allowed, denied := Allowed(policy), Denied(policy, hosts);
    var covers, length := Covering(a), PrefixLength();
    DefaultCoversAll(a);
    assert DEFAULT_ROUTE == allowed[0] && covers(DEFAULT_ROUTE);
    LongestDecides(allowed, denied, covers, length);
    forall c ensures c in allowed <==> Opens(policy, c) { AllowedAre(policy, c); }
    forall d ensures d in denied <==> Closes(policy, hosts, d) { DeniedAre(policy, hosts, d); }
    if Permitted(policy, hosts, a) {
      var c :| Opens(policy, c) && Covers(c, a) && forall d :: Closes(policy, hosts, d) && Covers(d, a) ==> d.prefix <= c.prefix;
      assert c in allowed && covers(c) && forall d :: d in denied && covers(d) ==> length(d) <= length(c);
    }
    if c :| c in allowed && covers(c) && forall d :: d in denied && covers(d) ==> length(d) <= length(c) {
      assert Opens(policy, c) && Covers(c, a);
      forall d | Closes(policy, hosts, d) && Covers(d, a) ensures d.prefix <= c.prefix { assert d in denied && covers(d); }
    }
  }

  // ---------------------------------------------------------------- what the plan does

  /** The prefixes that pasta sets up before the replay: the default route and the guest's subnet. */
  predicate SetByPasta(c: Ipv4Cidr) {
    (Dotted(c.addr, 0, 0, 0, 0) && c.prefix == 0) || (Dotted(c.addr, 192, 0, 2, 0) && c.prefix == 24)
  }

  lemma SetByPastaIsReplaced(policy: NetworkPolicy, hosts: seq<U32>, c: Ipv4Cidr)
    requires SetByPasta(c)
    ensures c in Denied(policy, hosts) || c in Allowed(policy)
  {
    AllowedAre(policy, c);
    DeniedAre(policy, hosts, c);
  }

  lemma DefaultCoversAll(a: U32)
    ensures Covers(DEFAULT_ROUTE, a)
  {
    Pow2Values();
    BitsAsNumbers(a, 0);
    BitsAsNumbers(0, 0);
  }

  /**
   Replaying the plan over the routes that are already there sends an address to the gateway
   exactly if the policy permits it, and nowhere otherwise.
   */
  lemma PlanEnforcesPolicy(table: Table, policy: NetworkPolicy, hosts: seq<U32>, a: U32)
    requires (forall c :: c in table ==> SetByPasta(c)) && WellFormed(policy)
    ensures Destination(Replay(table, RoutePlan(policy, hosts)), a) == Gateway <==> Permitted(policy, hosts, a)
  {
    var denied, allowed := Denied(policy, hosts), Allowed(policy);
    var covers, length := Covering(a), PrefixLength();
    forall c, d | (c in denied || c in allowed) && (d in denied || d in allowed)
      && covers(c) && covers(d) && length(c) == length(d) ensures c == d
    {
      PlanIsCanonical(policy, hosts, c);
      PlanIsCanonical(policy, hosts, d);
      SameLengthSameKey(c, d, a);
    }
    forall c | c in table ensures c in denied || c in allowed {
      SetByPastaIsReplaced(policy, hosts, c);
    }
    DefaultCoversAll(a);
    assert DEFAULT_ROUTE == allowed[0] && DEFAULT_ROUTE in allowed && covers(DEFAULT_ROUTE);
    PlanDecides(table, denied, allowed, covers, length);
    PermittedIsLongest(policy, hosts, a);
  }

  /** The plan in order: the built-in ranges, the hosts, the deny list, the default route, the DNS forwarder, the allow list. */
  lemma PlanInOrder(policy: NetworkPolicy, hosts: seq<U32>)
    ensures var plan, h, d := RoutePlan(policy, hosts), 13 + |hosts|, 13 + |hosts| + |policy.deny|;
            && |plan| == d + 2 + |policy.allow|
            && (forall i :: 0 <= i < 13 ==> plan[i].Unreachable? && BuiltIn(plan[i].cidr))
            && (forall i :: 0 <= i < |hosts| ==> plan[13 + i] == Unreachable(Cidr(hosts[i], 32)))
            && (forall i :: 0 <= i < |policy.deny| ==> plan[h + i] == Unreachable(policy.deny[i]))
            && plan[d].ViaGateway? && Dotted(plan[d].cidr.addr, 0, 0, 0, 0) && plan[d].cidr.prefix == 0
            && plan[d + 1].ViaGateway? && Dotted(plan[d + 1].cidr.addr, 192, 0, 2, 53) && plan[d + 1].cidr.prefix == 32
            && (forall i :: 0 <= i < |policy.allow| ==> plan[d + 2 + i] == ViaGateway(policy.allow[i]))
  {
    FixedAddresses();
    var plan, denied := RoutePlan(policy, hosts), Denied(policy, hosts);
    assert |DefaultPrefixes()| == 13 && |denied| == 13 + |hosts| + |policy.deny|;
    forall i | 0 <= i < 13 ensures plan[i].Unreachable? && BuiltIn(plan[i].cidr) {
      assert plan[i].cidr == DefaultPrefixes()[i];
      DefaultsAre(plan[i].cidr);
      BuiltInIsDefault(plan[i].cidr);
    }
  }
}
