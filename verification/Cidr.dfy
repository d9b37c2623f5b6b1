/**
 The private-range gate of `isPrivateCIDR`. The code looks at the two ends of a
 prefix only; the theorem here is that this decides whether every address of
 the prefix is private, for every prefix of either family, IPv4-mapped IPv6
 prefixes included.
 */
module Cidr {
  import opened Address

  /** `netip.Addr.IsPrivate`: a test on the leading bytes. The masks of the
      library (`& 0xf0 == 16`, `& 0xfe == 0xfc`) are written as divisions. */
  predicate IsPrivate(a: Addr) {
    if a.family.V4? then
      IsPrivate4(a.value)
    else if a.Is4In6() then
      IsPrivate4(a.value % 0x1_0000_0000)
    else
      a.value / 0x100_0000_0000_0000_0000_0000_0000_0000 / 2 == 0xfc / 2
  }

  predicate IsPrivate4(v: nat) {
    var b0, b1 := v / 0x100_0000, v / 0x1_0000 % 256;
    b0 == 10 || (b0 == 172 && b1 / 16 == 1) || (b0 == 192 && b1 == 168)
  }

  /** The gate: both ends of the masked prefix are private. */
  predicate IsPrivateCidr(p: Prefix)
    requires p.Valid()
  {
    IsPrivate(p.Masked()) && IsPrivate(p.Last())
  }

  /** The ranges as the standards name them: section 3 of RFC 1918, section 3.1
      of RFC 4193, and the RFC 1918 ranges seen through `::ffff:0:0/96`. */
  function PrivateBlocks(): (r: seq<Prefix>) {
    [ Prefix(Addr(V4, 10 * 0x100_0000), 8),
      Prefix(Addr(V4, 172 * 0x100_0000 + 16 * 0x1_0000), 12),
      Prefix(Addr(V4, 192 * 0x100_0000 + 168 * 0x1_0000), 16),
      Prefix(Addr(V6, 0xfc * 0x100_0000_0000_0000_0000_0000_0000_0000), 7),
      Prefix(Addr(V6, 0xffff_0000_0000 + 10 * 0x100_0000), 104),
      Prefix(Addr(V6, 0xffff_0000_0000 + 172 * 0x100_0000 + 16 * 0x1_0000), 108),
      Prefix(Addr(V6, 0xffff_0000_0000 + 192 * 0x100_0000 + 168 * 0x1_0000), 112) ]
  }

  ghost predicate InPrivateBlock(a: Addr, i: nat) {
    i < 7 && PrivateBlocks()[i].bits <= PrivateBlocks()[i].addr.family.Width() && PrivateBlocks()[i].Contains(a)
  }

  /** The powers of two that size the blocks, built by doubling. */
  lemma SmallPowers()
    ensures Pow2(16) == 0x1_0000 && Pow2(20) == 0x10_0000 && Pow2(24) == 0x100_0000
    ensures Pow2(32) == 0x1_0000_0000
  {
    assert Pow2(8) == 256 && Pow2(4) == 16;
    Pow2Add(8, 8);
    Pow2Add(16, 4);
    Pow2Add(16, 8);
    Pow2Add(16, 16);
  }

  lemma LargePowers()
    ensures Pow2(96) == 0x1_0000_0000_0000_0000_0000_0000
    ensures Pow2(121) == 0x200_0000_0000_0000_0000_0000_0000_0000
    ensures Pow2(128) == 0x1_0000_0000_0000_0000_0000_0000_0000_0000
  {
    SmallPowers();
    assert Pow2(1) == 2;
    Pow2Add(32, 32);
    Pow2Add(64, 32);
    Pow2Add(96, 24);
    Pow2Add(120, 1);
    Pow2Add(64, 64);
  }

  /** How many addresses block `i` holds, and its number among blocks that size. */
  ghost function Span(i: nat): (r: nat) {
    if i == 0 || i == 4 then 0x100_0000
    else if i == 1 || i == 5 then 0x10_0000
    else if i == 2 || i == 6 then 0x1_0000
    else 0x200_0000_0000_0000_0000_0000_0000_0000
  }

  ghost function Number(i: nat): nat {
    if i == 0 then 10
    else if i == 1 then 172 * 16 + 1
    else if i == 2 then 192 * 256 + 168
    else if i == 3 then 126
    else if i == 4 then 0xffff00 + 10
    else if i == 5 then 0xffff000 + 172 * 16 + 1
    else 0xffff0000 + 192 * 256 + 168
  }

  ghost predicate HasShape(i: nat, family: Family)
    requires i < 7
  {
    var b := PrivateBlocks()[i];
    b.Valid() && b.Size() == Span(i) && b.addr.value == Number(i) * Span(i) && b.addr.family == family
  }

  lemma BlockShape(i: nat)
    requires i < 7
    ensures HasShape(i, if i < 3 then V4 else V6)
  {
    if i < 3 {
      BlockShape4(i);
    } else if i == 3 {
      LargePowers();
    } else {
      BlockShapeMapped(i);
    }
  }

  lemma BlockShape4(i: nat)
    requires i < 3
    ensures HasShape(i, V4)
  {
    SmallPowers();
  }

  lemma BlockShapeMapped(i: nat)
    requires 4 <= i < 7
    ensures HasShape(i, V6)
  {
    SmallPowers();
    LargePowers();
    var b := PrivateBlocks()[i];
    if i == 4 {
      assert b.Size() == Pow2(24);
    } else if i == 5 {
      assert b.Size() == Pow2(20);
    } else {
      assert b.Size() == Pow2(16);
    }
  }

  /** Membership in a block as a test on the block number of the address. */
  lemma BlockMembership(a: Addr, i: nat)
    requires i < 7
    ensures InPrivateBlock(a, i) <==> a.family == (if i < 3 then V4 else V6) && a.value / Span(i) == Number(i)
  {
    BlockShape(i);
    DivUnique(Number(i) * Span(i), Span(i), Number(i), 0);
  }

  ghost predicate InBlocks4(v: nat) {
    v / 0x100_0000 == 10 || v / 0x10_0000 == 172 * 16 + 1 || v / 0x1_0000 == 192 * 256 + 168
  }

  ghost predicate InBlocks6(v: nat) {
    || v / 0x200_0000_0000_0000_0000_0000_0000_0000 == 126
    || v / 0x100_0000 == 0xffff00 + 10
    || v / 0x10_0000 == 0xffff000 + 172 * 16 + 1
    || v / 0x1_0000 == 0xffff0000 + 192 * 256 + 168
  }

  lemma AllBlocks(a: Addr)
    ensures (exists i :: InPrivateBlock(a, i)) <==> if a.family.V4? then InBlocks4(a.value) else InBlocks6(a.value)
  {
    forall i: nat | i < 7
      ensures InPrivateBlock(a, i) <==> a.family == (if i < 3 then V4 else V6) && a.value / Span(i) == Number(i)
    {
      BlockMembership(a, i);
    }
    var v := a.value;
    if a.family.V4? {
      if InBlocks4(v) {
        assert InPrivateBlock(a, if v / Span(0) == Number(0) then 0 else if v / Span(1) == Number(1) then 1 else 2);
      }
    } else if InBlocks6(v) {
      assert InPrivateBlock(a, if v / Span(3) == Number(3) then 3 else if v / Span(4) == Number(4) then 4
                               else if v / Span(5) == Number(5) then 5 else 6);
    }
  }

  lemma IsPrivate4Blocks(v: nat)
    requires v < 0x1_0000_0000
    ensures IsPrivate4(v) <==> InBlocks4(v)
  {
  }

  lemma MappedBlocks(v: nat, s: nat, n: nat)
    requires s in {0x100_0000, 0x10_0000, 0x1_0000} && n < 0x1_0000_0000 / s
    ensures v / s == 0xffff_0000_0000 / s + n <==> v / 0x1_0000_0000 == 0xffff && v % 0x1_0000_0000 / s == n
  {
    var h, l := v / 0x1_0000_0000, v % 0x1_0000_0000;
    assert v / s == h * (0x1_0000_0000 / s) + l / s;
  }

  lemma IsPrivate6Blocks(v: nat)
    ensures IsPrivate(Addr(V6, v)) <==> InBlocks6(v)
  {
    var h, l := v / 0x1_0000_0000, v % 0x1_0000_0000;
    MappedBlocks(v, 0x100_0000, 10);
    MappedBlocks(v, 0x10_0000, 172 * 16 + 1);
    MappedBlocks(v, 0x1_0000, 192 * 256 + 168);
    assert InBlocks6(v) <==> v / 0x200_0000_0000_0000_0000_0000_0000_0000 == 126 || (h == 0xffff && InBlocks4(l));
    if h == 0xffff {
      IsPrivate4Blocks(l);
    } else {
      DivMul(v, 0x100_0000_0000_0000_0000_0000_0000_0000, 2);
    }
  }

  /** The byte tests of the code are exactly the ranges of the standards. */
  lemma IsPrivateIsBlocks(a: Addr)
    requires a.Valid()
    ensures IsPrivate(a) <==> exists i :: InPrivateBlock(a, i)
  {
    AllBlocks(a);
    if a.family.V4? {
      SmallPowers();
      IsPrivate4Blocks(a.value);
    } else {
      IsPrivate6Blocks(a.value);
    }
  }

  /** Where a prefix strictly wider than a block ends, when it starts inside the
      block: block numbers not divisible by 16 leave only three widenings. */
  lemma WiderPrefixEnd(b: Prefix, p: Prefix) returns (m: nat)
    requires b.Valid() && p.Valid() && p.bits < b.bits
    requires b.Contains(p.Masked())
    requires b.addr.value / b.Size() % 16 != 0
    ensures m in {1, 3, 7} && p.Last().value / b.Size() == b.addr.value / b.Size() + m
  {
    var k := b.bits - p.bits;
    Pow2Add(b.addr.family.Width() - b.bits, k);
    assert p.Size() == b.Size() * Pow2(k);
    WiderEnd(p.addr.value, b.Size(), k);
    m := Pow2(k) - 1;
  }

  /** The same on numbers: blocks of size `s`, one of size `s * Pow2(k)` that starts
      at a block of size `s` whose number 16 does not divide. */
  lemma WiderEnd(v: nat, s: nat, k: nat)
    requires s > 0 && k > 0
    requires s * Pow2(k) > 0 && BlockStart(v, s * Pow2(k)) / s % 16 != 0
    ensures Pow2(k) in {2, 4, 8}
    ensures (BlockStart(v, s * Pow2(k)) + s * Pow2(k) - 1) / s == BlockStart(v, s * Pow2(k)) / s + Pow2(k) - 1
  {
    var q := v / (s * Pow2(k));
    WiderBlock(s, Pow2(k), q);
    ShortWidening(q, k);
  }

  lemma ShortWidening(q: nat, k: nat)
    requires k > 0 && q * Pow2(k) % 16 != 0
    ensures Pow2(k) in {2, 4, 8}
  {
    if k >= 4 {
      Pow2Add(4, k - 4);
      MultipleOf16(q, Pow2(k - 4));
    } else {
      assert Pow2(1) == 2 && Pow2(2) == 4 && Pow2(3) == 8;
    }
  }

  lemma MultipleOf16(q: nat, e: nat)
    ensures q * (Pow2(4) * e) % 16 == 0
  {
    assert Pow2(4) == 16;
    assert q * (16 * e) == 16 * (q * e);
  }

  lemma WiderBlock(s: nat, d: nat, q: nat)
    requires s > 0 && d > 0
    ensures q * (s * d) / s == q * d
    ensures (q * (s * d) + s * d - 1) / s == q * d + d - 1
  {
    assert q * (s * d) == (q * d) * s;
    assert s * d == (d - 1) * s + s;
    assert (q * d + d - 1) * s == (q * d) * s + (d - 1) * s;
    DivUnique(q * (s * d), s, q * d, 0);
    DivUnique(q * (s * d) + s * d - 1, s, q * d + d - 1, s - 1);
  }

  /** The blocks one, three and seven further on are public. */
  lemma NextBlocksArePublic(a: Addr, i: nat, m: nat)
    requires i < 7 && a.Valid() && a.family == (if i < 3 then V4 else V6)
    requires m in {1, 3, 7} && a.value / Span(i) == Number(i) + m
    ensures !IsPrivate(a)
  {
    if i < 3 {
      SmallPowers();
      NextBlocks4(a.value, i, m);
    } else if i == 3 {
      DivMul(a.value, 0x100_0000_0000_0000_0000_0000_0000_0000, 2);
    } else {
      NextMappedBlocks(a.value, i, m);
    }
  }

  lemma NextBlocks4(v: nat, i: nat, m: nat)
    requires i < 3 && v < 0x1_0000_0000
    requires m in {1, 3, 7} && v / Span(i) == Number(i) + m
    ensures !IsPrivate4(v)
  {
    IsPrivate4Blocks(v);
  }

  lemma NextMappedBlocks(v: nat, i: nat, m: nat)
    requires 4 <= i < 7
    requires m in {1, 3, 7} && v / Span(i) == Number(i) + m
    ensures !IsPrivate(Addr(V6, v))
  {
    MappedBlocks(v, Span(i), Number(i - 4) + m);
    NextBlocks4(v % 0x1_0000_0000, i - 4, m);
  }

  lemma BlockNumber(i: nat)
    requires i < 7
    ensures HasShape(i, if i < 3 then V4 else V6)
    ensures PrivateBlocks()[i].addr.value / PrivateBlocks()[i].Size() == Number(i) && Number(i) % 16 != 0
  {
    BlockShape(i);
    DivUnique(Number(i) * Span(i), Span(i), Number(i), 0);
  }

  /** A prefix that starts in a block and leaves it does not end in private space. */
  lemma WiderPrefixIsPublic(p: Prefix, i: nat)
    requires p.Valid() && InPrivateBlock(p.Masked(), i) && p.bits < PrivateBlocks()[i].bits
    ensures !IsPrivate(p.Last())
  {
    BlockNumber(i);
    EndsAreValid(p);
    var m := WiderPrefixEnd(PrivateBlocks()[i], p);
    NextBlocksArePublic(p.Last(), i, m);
  }

  /** A prefix that fits in a private block is private throughout. */
  lemma NarrowerPrefixIsPrivate(p: Prefix, i: nat, a: Addr, x: Addr)
    requires p.Valid() && i < 7 && PrivateBlocks()[i].bits <= p.bits
    requires InPrivateBlock(a, i) && p.Contains(a) && x.Valid() && p.Contains(x)
    ensures IsPrivate(x)
  {
    BlockShape(i);
    NestOrDisjoint(PrivateBlocks()[i], p, a, x);
    IsPrivateIsBlocks(x);
    assert InPrivateBlock(x, i);
  }

  lemma PrivateStartCoversPrefix(p: Prefix, i: nat, a: Addr)
    requires p.Valid() && InPrivateBlock(p.Masked(), i) && a.Valid() && p.Contains(a)
    ensures IsPrivate(p.Last()) ==> IsPrivate(a)
  {
    if p.bits < PrivateBlocks()[i].bits {
      WiderPrefixIsPublic(p, i);
    } else {
      EndsAreValid(p);
      NarrowerPrefixIsPrivate(p, i, p.Masked(), a);
    }
  }

  lemma PrivateEndsCoverPrefix(p: Prefix, a: Addr)
    requires p.Valid() && a.Valid() && p.Contains(a)
    ensures IsPrivateCidr(p) ==> IsPrivate(a)
  {
    if IsPrivateCidr(p) {
      EndsAreValid(p);
      IsPrivateIsBlocks(p.Masked());
      var i :| InPrivateBlock(p.Masked(), i);
      PrivateStartCoversPrefix(p, i, a);
    }
  }

  /** The two-endpoint test is exact: it accepts a prefix if and only if every
      address in the prefix is private. */
  lemma TwoEndpointTestIsExact(p: Prefix)
    requires p.Valid()
    ensures IsPrivateCidr(p) <==> forall a: Addr | a.Valid() && p.Contains(a) :: IsPrivate(a)
  {
    EndsAreValid(p);
    forall a: Addr | IsPrivateCidr(p) && a.Valid() && p.Contains(a)
      ensures IsPrivate(a)
    {
      PrivateEndsCoverPrefix(p, a);
    }
  }
}
