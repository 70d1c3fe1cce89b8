/** The fixed addresses and ranges of the sandbox network. */
module NetDefaults {
  import opened Wrappers
  import opened Cidrs

  const GATEWAY: U32 := 0xC000_0201      // 192.0.2.1
  const DNS_ADDR: U32 := 0xC000_0235     // 192.0.2.53

  const DEFAULT_DENY: seq<(U32, nat)> := [
    (0x0000_0000, 8),    // 0.0.0.0/8
    (0x0A00_0000, 8),    // 10.0.0.0/8
    (0x6440_0000, 10),   // 100.64.0.0/10
    (0xA9FE_0000, 16),   // 169.254.0.0/16
    (0xAC10_0000, 12),   // 172.16.0.0/12
    (0xC000_0000, 24),   // 192.0.0.0/24
    (0xC000_0200, 24),   // 192.0.2.0/24
    (0xC0A8_0000, 16),   // 192.168.0.0/16
    (0xC612_0000, 15),   // 198.18.0.0/15
    (0xC633_6400, 24),   // 198.51.100.0/24
    (0xCB00_7100, 24),   // 203.0.113.0/24
    (0xE000_0000, 4),    // 224.0.0.0/4
    (0xF000_0000, 4)     // 240.0.0.0/4
  ]

  lemma SpanValues()
    ensures Span(4) == 0x1000_0000 && Span(8) == 0x100_0000 && Span(10) == 0x40_0000 && Span(12) == 0x10_0000
    ensures Span(15) == 0x2_0000 && Span(16) == 0x1_0000 && Span(24) == 0x100
  {
    assert Pow2(8) == 0x100;
    Pow2Splits(8, 8);
    Pow2Splits(8, 16);
    assert Pow2(17) == 2 * Pow2(16) && Pow2(4) == 0x10 && Pow2(6) == 0x40;
    Pow2Splits(4, 16);
    Pow2Splits(6, 16);
    Pow2Splits(4, 24);
  }

  /** The built-in entries are all canonical, so that turning them into prefixes cannot fail. */
  lemma DefaultDenyIsValid(i: nat)
    requires i < |DEFAULT_DENY|
    ensures New(DEFAULT_DENY[i].0, DEFAULT_DENY[i].1) == Ok(Cidr(DEFAULT_DENY[i].0, DEFAULT_DENY[i].1))
  {
    SpanValues();
    var (a, p) := DEFAULT_DENY[i];
    assert p in {4, 8, 10, 12, 15, 16, 24};
    var m := Span(p);
    assert m in {0x1000_0000, 0x100_0000, 0x40_0000, 0x10_0000, 0x2_0000, 0x1_0000, 0x100};
    assert a % m == 0;
    NewAcceptsMultiples(a, p);
  }
}
