/**
 IPv4 addresses as 32-bit patterns: JavaScript's bitwise operators, masks and ranges.
 A signed 32-bit intermediate is represented by its bit pattern.
 */
module Ipv4 {

  // ----- Bit patterns -----

  function Pow2(n: nat): (r: nat)
    ensures r > 0
  {
    if n == 0 then 1 else 2 * Pow2(n - 1)
  }

  /** The unsigned 32-bit pattern of an integer. */
  function U32(x: int): (r: nat)
    ensures r < 0x1_0000_0000
  {
    x % 0x1_0000_0000
  }

  /** The shift count is taken modulo 32. */
  function Shl(x: int, s: nat): nat {
    U32(U32(x) * Pow2(s % 32))
  }

  function Shr(x: int, s: nat): nat {
    Halved(U32(x), s % 32)
  }

  function Halved(x: nat, n: nat): nat {
    if n == 0 then x else Halved(x / 2, n - 1)
  }

  /** A shift by 32 is a shift by nothing, and one by 33 a shift by one. */
  lemma ShiftsWrap(x: int, s: nat)
    ensures Shl(x, s + 32) == Shl(x, s) && Shr(x, s + 32) == Shr(x, s)
    ensures Shl(x, 32) == Shr(x, 32) == U32(x)
  {
    assert (s + 32) % 32 == s % 32;
    assert Pow2(0) == 1 && 32 % 32 == 0;
  }

  function And(a: nat, b: nat): nat {
    if a == 0 || b == 0 then 0
    else 2 * And(a / 2, b / 2) + if a % 2 == 1 && b % 2 == 1 then 1 else 0
  }

  function Or(a: nat, b: nat): nat {
    if a == 0 then b else if b == 0 then a
    else 2 * Or(a / 2, b / 2) + if a % 2 == 1 || b % 2 == 1 then 1 else 0
  }

  /** A shift by 32 would shift by nothing, so prefix 0 is a case of its own. */
  function MaskForPrefix(prefix: nat): nat
    requires prefix <= 32
  {
    if prefix == 0 then 0 else Shl(0xffff_ffff, 32 - prefix)
  }

  function SizeOf(prefix: nat): (r: nat)
    requires prefix <= 32
    ensures r > 0
  {
    Pow2(32 - prefix)
  }

  lemma {:induction false} Pow2Adds(a: nat, b: nat)
    ensures Pow2(a + b) == Pow2(a) * Pow2(b)
  {
    if a > 0 {
      Pow2Adds(a - 1, b);
      Associate(2, Pow2(a - 1), Pow2(b));
    }
  }

  lemma Associate(a: int, b: int, c: int)
    ensures a * (b * c) == (a * b) * c
  {
  }

  lemma PowersUpTo32()
    ensures Pow2(8) == 0x100 && Pow2(16) == 0x1_0000 && Pow2(24) == 0x100_0000 && Pow2(32) == 0x1_0000_0000
  {
    assert Pow2(4) == 16;
    Pow2Adds(4, 4);
    Pow2Adds(8, 8);
    Pow2Adds(16, 8);
    Pow2Adds(16, 16);
  }

  /** Masking with n low ones is the remainder by 2^n. */
  lemma {:induction false} AndLowOnes(x: nat, n: nat)
    ensures And(x, Pow2(n) - 1) == x % Pow2(n)
  {
    if n > 0 {
      AndLowOnes(x / 2, n - 1);
      Pow2Step(n - 1);
      hide Pow2, And;
      LowOnesStep(x, Pow2(n - 1), Pow2(n));
    } else {
      assert Pow2(0) == 1;
    }
  }

  lemma LowOnesStep(x: nat, m: nat, p: nat)
    requires m > 0 && p == 2 * m && And(x / 2, m - 1) == x / 2 % m
    ensures And(x, p - 1) == x % p
  {
    hide And;
    AndWithOdd(x, m);
    HalfOfRemainder(x, m);
  }

  lemma AndWithOdd(x: nat, m: nat)
    requires m > 0
    ensures And(x, 2 * m - 1) == 2 * And(x / 2, m - 1) + x % 2
  {
    assert (2 * m - 1) / 2 == m - 1 && (2 * m - 1) % 2 == 1;
  }

  lemma HalfOfRemainder(x: nat, m: nat)
    requires m > 0
    ensures x % (2 * m) == 2 * (x / 2 % m) + x % 2
  {
    var q := x / 2 / m;
    assert x / 2 == m * q + x / 2 % m;
    assert x == 2 * (x / 2) + x % 2;
    Associate(2, m, q);
    RemainderIs(x, 2 * m, q, 2 * (x / 2 % m) + x % 2);
  }

  lemma RemainderIs(x: int, k: int, q: int, r: int)
    requires k > 0 && 0 <= r < k && x == k * q + r
    ensures x / k == q && x % k == r
  {
    var q', r' := x / k, x % k;
    assert k * (q - q') == r' - r;
    SmallMultiple(k, q - q');
  }

  lemma SmallMultiple(k: int, n: int)
    requires k > 0 && -k < k * n < k
    ensures n == 0
  {
  }

  lemma Pow2Step(n: nat)
    ensures Pow2(n + 1) == 2 * Pow2(n)
  {
  }

  /** n ones above k zeros. */
  function HighOnes(n: nat, k: nat): nat {
    if k == 0 then Pow2(n) - 1 else 2 * HighOnes(n, k - 1)
  }

  lemma {:induction false} HighOnesAre(n: nat, k: nat)
    ensures HighOnes(n, k) == Pow2(n + k) - Pow2(k)
  {
    if k > 0 {
      HighOnesAre(n, k - 1);
      Pow2Step(n + k - 1);
    }
  }

  /** Masking with ones above k zeros drops the remainder by 2^k. */
  lemma {:induction false} AndHighOnes(x: nat, n: nat, k: nat)
    requires x < Pow2(n + k)
    ensures And(x, HighOnes(n, k)) == x - x % Pow2(k)
  {
    hide Pow2, And;
    if k == 0 {
      AndNoZeros(x, n);
    } else {
      Pow2Step(k - 1);
      Pow2Step(n + k - 1);
      AndHighOnes(x / 2, n, k - 1);
      AndWithEven(x, HighOnes(n, k - 1));
      HalfOfRemainder(x, Pow2(k - 1));
    }
  }

  lemma AndNoZeros(x: nat, n: nat)
    requires x < Pow2(n)
    ensures And(x, HighOnes(n, 0)) == x - x % Pow2(0)
  {
    hide And;
    AndLowOnes(x, n);
    RemainderIs(x, Pow2(n), 0, x);
  }

  lemma AndWithEven(x: nat, m: nat)
    ensures And(x, 2 * m) == 2 * And(x / 2, m)
  {
    assert 2 * m / 2 == m && 2 * m % 2 == 0;
  }

  lemma MaskIsHighOnes(prefix: nat)
    requires prefix <= 32
    ensures MaskForPrefix(prefix) == HighOnes(prefix, 32 - prefix)
  {
    hide Pow2;
    PowersUpTo32();
    HighOnesAre(prefix, 32 - prefix);
    if prefix > 0 {
      Pow2Grows(32 - prefix, 31);
      Pow2Grows(31, 32);
      var m := Pow2(32 - prefix);
      RemainderIs(0xffff_ffff * m, 0x1_0000_0000, m - 1, 0x1_0000_0000 - m);
    }
  }

  lemma {:induction false} Pow2Grows(a: nat, b: nat)
    requires a <= b
    ensures Pow2(a) <= Pow2(b)
    decreases b - a
  {
    if a < b {
      Pow2Grows(a, b - 1);
    }
  }

  /** Masking an address gives the start of its aligned block. */
  lemma MaskedAddress(ip: nat, prefix: nat)
    requires ip < 0x1_0000_0000 && prefix <= 32
    ensures And(ip, MaskForPrefix(prefix)) == ip - ip % SizeOf(prefix)
  {
    PowersUpTo32();
    MaskIsHighOnes(prefix);
    AndHighOnes(ip, prefix, 32 - prefix);
  }

  // ----- Subnets -----

  /** A subnet by any address in it and its prefix length. */
  datatype Subnet = Subnet(ip: nat, prefix: nat) {
    predicate IsValid() {
      ip < 0x1_0000_0000 && prefix <= 32
    }
  }

  function NetworkOf(s: Subnet): nat
    requires s.IsValid()
  {
    And(s.ip, MaskForPrefix(s.prefix))
  }

  function IsInSubnet(ip: nat, s: Subnet): bool
    requires s.IsValid()
  {
    And(ip, MaskForPrefix(s.prefix)) == NetworkOf(s)
  }

  /** The first and last address. */
  function RangeOf(s: Subnet): (nat, int)
    requires s.IsValid()
  {
    var size := if s.prefix == 32 then 1 else SizeOf(s.prefix);
    (NetworkOf(s), NetworkOf(s) + size - 1)
  }

  predicate Overlaps(a: Subnet, b: Subnet)
    requires a.IsValid() && b.IsValid()
  {
    RangeOf(a).0 <= RangeOf(b).1 && RangeOf(b).0 <= RangeOf(a).1
  }

  predicate UsableHost(ip: nat, s: Subnet)
    requires s.IsValid()
  {
    s.prefix < 31 && RangeOf(s).0 < ip < RangeOf(s).1
  }

  lemma BlockBounds(s: Subnet)
    requires s.IsValid()
    ensures RangeOf(s).0 % SizeOf(s.prefix) == 0 && RangeOf(s).1 == RangeOf(s).0 + SizeOf(s.prefix) - 1
    ensures RangeOf(s).0 <= s.ip <= RangeOf(s).1 < 0x1_0000_0000
  {
    hide And, MaskForPrefix, SizeOf;
    LastSize();
    MaskedAddress(s.ip, s.prefix);
    BlockStart(s.ip, SizeOf(s.prefix));
    BlocksFit(s.ip / SizeOf(s.prefix), s.prefix);
  }

  lemma LastSize()
    ensures SizeOf(32) == 1 && forall p: nat | p <= 32 :: SizeOf(p) > 0
  {
  }

  /** Dropping the remainder leaves the start of the block of that size. */
  lemma BlockStart(x: nat, m: nat)
    requires m > 0
    ensures x - x % m == m * (x / m) && (x - x % m) % m == 0 && x - x % m <= x < x - x % m + m
  {
    RemainderIs(m * (x / m), m, x / m, 0);
  }

  /** Blocks of one size tile the address space, so a block that starts in it ends in it. */
  lemma BlocksFit(q: nat, prefix: nat)
    requires prefix <= 32 && SizeOf(prefix) * q < 0x1_0000_0000
    ensures SizeOf(prefix) * q + SizeOf(prefix) <= 0x1_0000_0000
  {
    hide Pow2;
    PowersUpTo32();
    Pow2Adds(32 - prefix, prefix);
    Fits(SizeOf(prefix), Pow2(prefix), q, 0x1_0000_0000);
  }

  lemma Fits(m: nat, n: nat, q: nat, total: nat)
    requires m * n == total && m * q < total
    ensures m * q + m <= total
  {
    if q >= n {
      Scale(m, n, q);
      assert false;
    }
    Scale(m, q + 1, n);
  }

  /** Mask membership is interval membership, for every prefix from 0 to 32. */
  lemma MaskMembershipIsInterval(ip: nat, s: Subnet)
    requires s.IsValid() && ip < 0x1_0000_0000
    ensures IsInSubnet(ip, s) <==> RangeOf(s).0 <= ip <= RangeOf(s).1
  {
    hide And, MaskForPrefix, SizeOf, RangeOf;
    MaskedAddress(ip, s.prefix);
    MaskedAddress(s.ip, s.prefix);
    BlockBounds(s);
    RangeStart(s);
    BlockStart(ip, SizeOf(s.prefix));
    if RangeOf(s).0 <= ip <= RangeOf(s).1 {
      SameBlock(ip, RangeOf(s).0, SizeOf(s.prefix));
    }
  }

  lemma RangeStart(s: Subnet)
    requires s.IsValid()
    ensures RangeOf(s).0 == NetworkOf(s)
  {
  }

  lemma SameBlock(x: nat, base: nat, m: nat)
    requires m > 0 && base % m == 0 && base <= x < base + m
    ensures x - x % m == base
  {
    assert base == m * (base / m);
    RemainderIs(x, m, base / m, x - base);
  }

  /** Two subnets overlap exactly when they share an address. */
  lemma OverlapIffShared(a: Subnet, b: Subnet)
    requires a.IsValid() && b.IsValid()
    ensures Overlaps(a, b) <==> exists ip: nat | ip < 0x1_0000_0000 :: IsInSubnet(ip, a) && IsInSubnet(ip, b)
  {
    hide RangeOf, NetworkOf, IsInSubnet;
    BlockBounds(a);
    BlockBounds(b);
    if Overlaps(a, b) {
      var ip: nat := if RangeOf(a).0 <= RangeOf(b).0 then RangeOf(b).0 else RangeOf(a).0;
      MaskMembershipIsInterval(ip, a);
      MaskMembershipIsInterval(ip, b);
    }
    if ip: nat :| ip < 0x1_0000_0000 && IsInSubnet(ip, a) && IsInSubnet(ip, b) {
      MaskMembershipIsInterval(ip, a);
      MaskMembershipIsInterval(ip, b);
    }
  }

  /** Overlapping subnets are nested: the longer prefix lies inside the shorter one. */
  lemma OverlapIsNesting(a: Subnet, b: Subnet)
    requires a.IsValid() && b.IsValid() && a.prefix <= b.prefix && Overlaps(a, b)
    ensures RangeOf(a).0 <= RangeOf(b).0 && RangeOf(b).1 <= RangeOf(a).1
  {
    hide RangeOf, NetworkOf, Pow2;
    BlockBounds(a);
    BlockBounds(b);
    Pow2Adds(32 - b.prefix, b.prefix - a.prefix);
    Aligned(RangeOf(a).0, SizeOf(b.prefix), Pow2(b.prefix - a.prefix));
    Aligned(RangeOf(b).0, SizeOf(b.prefix), 1);
    Nested(SizeOf(b.prefix), RangeOf(a).0 / SizeOf(b.prefix), Pow2(b.prefix - a.prefix),
           RangeOf(b).0 / SizeOf(b.prefix));
  }

  /** A multiple of m * f is a multiple of m. */
  lemma Aligned(x: nat, m: nat, f: nat)
    requires m > 0 && f > 0 && m * f > 0 && x % (m * f) == 0
    ensures x == m * (x / m)
  {
    var q := x / (m * f);
    assert x == (m * f) * q;
    Associate(m, f, q);
    RemainderIs(x, m, f * q, 0);
  }

  /** In units of the small block: overlapping means starting within. */
  lemma Nested(m: nat, first: nat, count: nat, j: nat)
    requires m > 0 && count > 0
    requires m * first <= m * j + m - 1 && m * j <= m * first + m * count - 1
    ensures m * first <= m * j && m * j + m - 1 <= m * first + m * count - 1
  {
    if j < first {
      Scale(m, j + 1, first);
      assert false;
    }
    if first + count < j + 1 {
      Scale(m, first + count, j);
      assert false;
    }
    Scale(m, first, j);
    Scale(m, j + 1, first + count);
  }

  lemma Scale(m: nat, a: nat, b: nat)
    requires a <= b
    ensures m * a <= m * b
  {
  }
}
