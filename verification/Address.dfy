/**
 IP addresses and CIDR prefixes as numbers. An address is the big-endian value
 of its bytes; a prefix of `bits` bits is an aligned block of 2^(width - bits)
 consecutive addresses. The facts that carry the rest of the project are that
 two blocks of one family nest or are disjoint, and what a block's ends are.
 */
module Address {

  function Pow2(n: nat): (r: nat)
    ensures r > 0
  {
    if n == 0 then 1 else 2 * Pow2(n - 1)
  }

  /** `v` with everything below the block size `d` cleared. */
  function BlockStart(v: nat, d: nat): (r: nat)
    requires d > 0
    ensures r <= v < r + d
  {
    assert v == v / d * d + v % d;
    v / d * d
  }

  datatype Family = V4 | V6 {
    function Width(): nat {
      if V4? then 32 else 128
    }
  }

  datatype Addr = Addr(family: Family, value: nat) {
    ghost predicate Valid() {
      value < Pow2(family.Width())
    }

    /** An IPv6 address that embeds an IPv4 one: `::ffff:a.b.c.d`. */
    predicate Is4In6() {
      family.V6? && value / 0x1_0000_0000 == 0xffff
    }
  }

  datatype Prefix = Prefix(addr: Addr, bits: nat) {
    ghost predicate Valid() {
      addr.Valid() && bits <= addr.family.Width()
    }

    /** The number of addresses in the prefix. */
    function Size(): (r: nat)
      requires bits <= addr.family.Width()
      ensures r > 0
    {
      Pow2(addr.family.Width() - bits)
    }

    /** The lowest address of the prefix: host bits cleared. */
    function Masked(): Addr
      requires bits <= addr.family.Width()
    {
      Addr(addr.family, BlockStart(addr.value, Size()))
    }

    /** The highest address of the prefix: host bits set. */
    function Last(): Addr
      requires bits <= addr.family.Width()
    {
      Addr(addr.family, BlockStart(addr.value, Size()) + Size() - 1)
    }

    /** Membership: same family and the same leading `bits` bits. */
    predicate Contains(a: Addr)
      requires bits <= addr.family.Width()
    {
      a.family == addr.family && a.value / Size() == addr.value / Size()
    }
  }

  lemma {:induction false} Pow2Add(m: nat, n: nat)
    ensures Pow2(m + n) == Pow2(m) * Pow2(n)
  {
    if m > 0 {
      Pow2Add(m - 1, n);
      assert Pow2(m + n) == 2 * (Pow2(m - 1) * Pow2(n));
    }
  }

  lemma Pow2Of32()
    ensures Pow2(32) == 0x1_0000_0000
  {
    assert Pow2(8) == 256;
    Pow2Add(8, 8);
    Pow2Add(16, 16);
  }

  lemma Distribute(x: nat, y: nat, d: nat)
    ensures (x + y) * d == x * d + y * d
  {
  }

  lemma Associate(x: nat, y: nat, d: nat)
    ensures x * y * d == x * (d * y)
  {
  }

  lemma MulLess(x: nat, y: nat, d: nat)
    requires x < y
    ensures x * d + d <= y * d
  {
    var k := y - x - 1;
    Distribute(x + 1, k, d);
    Distribute(x, 1, d);
    assert k * d >= 0;
  }

  lemma DivUnique(x: nat, d: nat, q: nat, r: nat)
    requires r < d && x == q * d + r
    ensures x / d == q
  {
    var p := x / d;
    assert x == p * d + x % d;
    if p > q {
      MulLess(q, p, d);
    } else if p < q {
      MulLess(p, q, d);
    }
  }

  lemma DivModParts(m: nat, k: nat, q: nat, r: nat, s: nat)
    requires r < k && s < m
    ensures (q * k + r) * m + s == q * (m * k) + (r * m + s)
    ensures r * m + s < m * k
  {
    Distribute(q * k, r, m);
    Associate(q, k, m);
    MulLess(r, k, m);
    Commute(k, m);
  }

  lemma Commute(x: nat, y: nat)
    ensures x * y == y * x
  {
  }

  lemma Positive(x: nat, y: nat)
    requires x > 0 && y > 0
    ensures x * y > 0
  {
  }

  lemma DivMod(x: nat, d: nat)
    requires d > 0
    ensures x == x / d * d + x % d && 0 <= x % d < d
  {
  }

  lemma DivMulParts(x: nat, m: nat, k: nat, y: nat, q: nat, r: nat, s: nat)
    requires m > 0 && k > 0 && r < k && s < m
    requires x == y * m + s && y == q * k + r
    ensures m * k > 0 && x / (m * k) == q
  {
    Positive(m, k);
    DivModParts(m, k, q, r, s);
    DivUnique(x, m * k, q, r * m + s);
  }

  lemma DivMul(x: nat, m: nat, k: nat)
    requires m > 0 && k > 0
    ensures m * k > 0
    ensures x / m / k == x / (m * k)
  {
    DivMod(x, m);
    DivMod(x / m, k);
    DivMulParts(x, m, k, x / m, x / m / k, x / m % k, x % m);
  }

  lemma BlockRange(x: nat, d: nat, v: nat)
    requires d > 0
    ensures x / d == v / d <==> BlockStart(v, d) <= x <= BlockStart(v, d) + d - 1
  {
    assert x == x / d * d + x % d;
    var q := v / d;
    if q * d <= x <= q * d + d - 1 {
      DivUnique(x, d, q, x - q * d);
    }
  }

  lemma BlockFits(x: nat, d: nat, n: nat)
    requires d > 0 && x < n * d
    ensures BlockStart(x, d) + d <= n * d
  {
    assert x == x / d * d + x % d;
    if x / d > n {
      MulLess(n, x / d, d);
    } else if x / d < n {
      MulLess(x / d, n, d);
    }
  }

  /** A prefix holds exactly the addresses from its masked to its last address. */
  lemma ContainsIsRange(p: Prefix, a: Addr)
    requires p.Valid() && a.family == p.addr.family
    ensures p.Contains(a) <==> p.Masked().value <= a.value <= p.Last().value
  {
    BlockRange(a.value, p.Size(), p.addr.value);
  }

  lemma EndsAreValid(p: Prefix)
    requires p.Valid()
    ensures p.Masked().Valid() && p.Last().Valid()
    ensures p.Contains(p.Masked()) && p.Contains(p.Last()) && p.Contains(p.addr)
  {
    ContainsIsRange(p, p.Masked());
    ContainsIsRange(p, p.Last());
    Pow2Add(p.bits, p.addr.family.Width() - p.bits);
    BlockFits(p.addr.value, p.Size(), Pow2(p.bits));
  }

  /** CIDR blocks nest or are disjoint: when a longer prefix shares one address
      with a shorter one, all of it lies inside. */
  lemma NestOrDisjoint(outer: Prefix, inner: Prefix, a: Addr, x: Addr)
    requires outer.Valid() && inner.Valid() && outer.bits <= inner.bits
    requires outer.Contains(a) && inner.Contains(a)
    requires inner.Contains(x)
    ensures outer.Contains(x)
  {
    var w := outer.addr.family.Width();
    var k := Pow2(inner.bits - outer.bits);
    Pow2Add(w - inner.bits, inner.bits - outer.bits);
    assert outer.Size() == inner.Size() * k;
    DivMul(a.value, inner.Size(), k);
    DivMul(x.value, inner.Size(), k);
  }

  // ---------- bit by bit ----------

  /** Bit `j` of `v`, counted from the lowest. */
  function Bit(v: nat, j: nat): nat {
    v / Pow2(j) % 2
  }

  lemma Halves(v: nat, j: nat)
    ensures v / Pow2(j) == 2 * (v / Pow2(j + 1)) + Bit(v, j)
  {
    DivMul(v, Pow2(j), 2);
    Commute(Pow2(j), 2);
  }

  lemma {:induction false} UpperBitsDecide(x: nat, y: nat, n: nat, w: nat)
    requires n <= w && x < Pow2(w) && y < Pow2(w)
    ensures x / Pow2(n) == y / Pow2(n) <==> forall j | n <= j < w :: Bit(x, j) == Bit(y, j)
    decreases w - n
  {
    if n < w {
      UpperBitsDecide(x, y, n + 1, w);
      Halves(x, n);
      Halves(y, n);
    } else {
      DivUnique(x, Pow2(w), 0, x);
      DivUnique(y, Pow2(w), 0, y);
    }
  }

  /** Membership, bit by bit: the leading `bits` bits are those of the prefix. */
  lemma ContainsExactlyWhen(p: Prefix, a: Addr)
    requires p.Valid() && a.Valid()
    ensures p.Contains(a) <==>
            && a.family == p.addr.family
            && forall j | a.family.Width() - p.bits <= j < a.family.Width() :: Bit(a.value, j) == Bit(p.addr.value, j)
  {
    if a.family == p.addr.family {
      var w := a.family.Width();
      UpperBitsDecide(a.value, p.addr.value, w - p.bits, w);
    }
  }

  /** The ends of a prefix are its least and its greatest address. */
  lemma EndsAreExtreme(p: Prefix, a: Addr)
    requires p.Valid() && a.Valid()
    ensures p.Contains(a) <==> a.family == p.addr.family && p.Masked().value <= a.value <= p.Last().value
    ensures p.Contains(p.Masked()) && p.Contains(p.Last())
    ensures p.Masked().Valid() && p.Last().Valid()
  {
    EndsAreValid(p);
    if a.family == p.addr.family {
      ContainsIsRange(p, a);
    }
  }
}
