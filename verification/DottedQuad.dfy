/** Dotted quads: text to number by shifts and ors, number to text by shifts and masks. */
module DottedQuad {
  import opened Common
  import opened Decimal
  import opened Ipv4

  // ----- Text -----

  /** The parts between the points. */
  function Split(s: string): (parts: seq<string>)
    ensures |parts| >= 1
    decreases |s|
  {
    var i := PointAt(s);
    if i < |s| then [s[..i]] + Split(s[i + 1..]) else [s]
  }

  function Join(parts: seq<string>): string
    requires |parts| >= 1
  {
    if |parts| == 1 then parts[0] else parts[0] + "." + Join(parts[1..])
  }

  predicate IsOctet(part: string) {
    IsNumeral(part) && |part| <= 3 && Read(part) <= 255
  }

  predicate IsQuad(parts: seq<string>) {
    |parts| == 4 && forall i | 0 <= i < 4 :: IsOctet(parts[i])
  }

  /** Octets combined as 32-bit patterns. */
  function Combined(a: nat, b: nat, c: nat, d: nat): nat {
    U32(Or(Or(Or(Shl(a, 24), Shl(b, 16)), Shl(c, 8)), d))
  }

  function IpToNumber(ip: string): Option<nat> {
    var parts := Split(ip);
    if IsQuad(parts) then Some(Combined(Read(parts[0]), Read(parts[1]), Read(parts[2]), Read(parts[3]))) else None
  }

  function OctetAt(value: int, shift: nat): nat {
    And(Shr(value, shift), 255)
  }

  function NumberToIp(value: int): string {
    Join([Print(OctetAt(value, 24)), Print(OctetAt(value, 16)), Print(OctetAt(value, 8)), Print(And(U32(value), 255))])
  }

  // ----- Octets -----

  function Doubled(a: nat, k: nat): nat {
    if k == 0 then a else 2 * Doubled(a, k - 1)
  }

  lemma {:induction false} DoubledIs(a: nat, k: nat)
    ensures Doubled(a, k) == a * Pow2(k)
  {
    if k > 0 {
      DoubledIs(a, k - 1);
      Associate(a, 2, Pow2(k - 1));
    }
  }

  /** Patterns without a common one bit are added. */
  lemma {:induction false} OrIsSum(a: nat, b: nat, k: nat)
    requires b < Pow2(k)
    ensures Or(Doubled(a, k), b) == Doubled(a, k) + b
  {
    if k > 0 {
      OrIsSum(a, b / 2, k - 1);
      OrOfEven(Doubled(a, k - 1), b);
    }
  }

  lemma OrOfEven(x: nat, b: nat)
    ensures Or(2 * x, b) == 2 * Or(x, b / 2) + b % 2
  {
  }

  lemma ShiftedIs(x: nat, k: nat, w: nat)
    requires k < 32 && w == Pow2(k) && x * w < 0x1_0000_0000
    ensures Shl(x, k) == x * w
  {
    hide Pow2;
    Scale(x, 1, w);
  }

  lemma OrAbove(x: nat, b: nat, k: nat)
    requires b < Pow2(k)
    ensures Or(x * Pow2(k), b) == x * Pow2(k) + b
  {
    DoubledIs(x, k);
    OrIsSum(x, b, k);
  }

  lemma OrSteps(a: nat, b: nat, c: nat, d: nat)
    requires a < 256 && b < 256 && c < 256 && d < 256
    ensures Or(a * 0x100_0000, b * 0x1_0000) == a * 0x100_0000 + b * 0x1_0000
    ensures Or(a * 0x100_0000 + b * 0x1_0000, c * 0x100) == a * 0x100_0000 + b * 0x1_0000 + c * 0x100
    ensures Or(a * 0x100_0000 + b * 0x1_0000 + c * 0x100, d) == a * 0x100_0000 + b * 0x1_0000 + c * 0x100 + d
  {
    hide Or, Pow2;
    PowersUpTo32();
    OrAbove(a, b * 0x1_0000, 24);
    OrAbove(a * 0x100 + b, c * 0x100, 16);
    OrAbove(a * 0x1_0000 + b * 0x100 + c, d, 8);
  }

  /** Combining octets by shifts and ors is the sum of octets by place. */
  lemma CombinedIsSum(a: nat, b: nat, c: nat, d: nat)
    requires a < 256 && b < 256 && c < 256 && d < 256
    ensures Combined(a, b, c, d) == a * 0x100_0000 + b * 0x1_0000 + c * 0x100 + d
  {
    hide Or, Pow2, Shl;
    PowersUpTo32();
    ShiftedIs(a, 24, 0x100_0000);
    ShiftedIs(b, 16, 0x1_0000);
    ShiftedIs(c, 8, 0x100);
    OrSteps(a, b, c, d);
  }

  lemma {:induction false} HalvedIs(x: nat, n: nat)
    ensures Halved(x, n) == x / Pow2(n)
  {
    if n > 0 {
      HalvedIs(x / 2, n - 1);
      HalfOfQuotient(x, Pow2(n - 1));
    }
  }

  lemma HalfOfQuotient(x: nat, m: nat)
    requires m > 0
    ensures x / 2 / m == x / (2 * m)
  {
    var q := x / 2 / m;
    Associate(2, m, q);
    RemainderIs(x, 2 * m, q, 2 * (x / 2 % m) + x % 2);
  }

  lemma OctetIs(n: nat, k: nat, w: nat)
    requires n < 0x1_0000_0000 && k < 32 && w == Pow2(k)
    ensures OctetAt(n, k) == n / w % 0x100
  {
    hide And, Pow2, Halved;
    PowersUpTo32();
    HalvedIs(n, k);
    AndLowOnes(Shr(n, k), 8);
  }

  /** The octets of a value are its digits in base 256. */
  lemma OctetsAre(n: nat)
    requires n < 0x1_0000_0000
    ensures OctetAt(n, 24) == n / 0x100_0000 && OctetAt(n, 16) == n / 0x1_0000 % 0x100
    ensures OctetAt(n, 8) == n / 0x100 % 0x100 && And(U32(n), 255) == n % 0x100
  {
    hide And, Pow2, OctetAt;
    PowersUpTo32();
    OctetIs(n, 24, 0x100_0000);
    OctetIs(n, 16, 0x1_0000);
    OctetIs(n, 8, 0x100);
    AndLowOnes(n, 8);
  }

  /** Octets are recovered from their sum by place. */
  lemma Places(a: nat, b: nat, c: nat, d: nat)
    requires a < 256 && b < 256 && c < 256 && d < 256
    ensures var n := a * 0x100_0000 + b * 0x1_0000 + c * 0x100 + d;
            && n < 0x1_0000_0000 && n / 0x100_0000 == a && n / 0x1_0000 % 0x100 == b
            && n / 0x100 % 0x100 == c && n % 0x100 == d
  {
    var n := a * 0x100_0000 + b * 0x1_0000 + c * 0x100 + d;
    assert n / 0x1_0000 == a * 0x100 + b;
    assert n / 0x100 == a * 0x1_0000 + b * 0x100 + c;
  }

  /** A value is the sum by place of its octets. */
  lemma SumOfPlaces(n: nat)
    requires n < 0x1_0000_0000
    ensures n / 0x100_0000 < 256
    ensures n == (n / 0x100_0000) * 0x100_0000 + (n / 0x1_0000 % 0x100) * 0x1_0000
                 + (n / 0x100 % 0x100) * 0x100 + n % 0x100
  {
    assert n / 0x1_0000 == n / 0x100 / 0x100;
    assert n / 0x100_0000 == n / 0x1_0000 / 0x100;
  }

  // ----- Round trips -----

  lemma SplitAfterHead(head: string, rest: string)
    requires IsNumeral(head)
    ensures Split(head + "." + rest) == [head] + Split(rest)
  {
    hide PointAt, IsNumeral;
    var s := head + "." + rest;
    PointAfterNumeral(head, "." + rest);
    assert s == head + ("." + rest);
    assert s[..|head|] == head && s[|head| + 1..] == rest;
  }

  lemma SplitNumeral(s: string)
    requires IsNumeral(s)
    ensures Split(s) == [s]
  {
    hide PointAt, IsNumeral;
    PointAfterNumeral(s, "");
    assert s + "" == s;
  }

  lemma PointAfterNumeral(s: string, rest: string)
    requires IsNumeral(s) && (rest == [] || rest[0] == '.')
    ensures PointAt(s + rest) == |s|
  {
    PointAfterDigits(s, rest);
  }

  lemma {:induction false} SplitOfJoin(parts: seq<string>)
    requires |parts| >= 1 && forall i | 0 <= i < |parts| :: IsNumeral(parts[i])
    ensures Split(Join(parts)) == parts
  {
    hide Split, IsNumeral;
    if |parts| == 1 {
      SplitNumeral(parts[0]);
    } else {
      SplitOfJoin(parts[1..]);
      SplitAfterHead(parts[0], Join(parts[1..]));
    }
  }

  lemma {:induction false} JoinOfSplit(s: string)
    ensures Join(Split(s)) == s
    decreases |s|
  {
    hide PointAt;
    var i := PointAt(s);
    if i < |s| {
      JoinOfSplit(s[i + 1..]);
      assert Split(s)[1..] == Split(s[i + 1..]);
      assert s == s[..i] + "." + s[i + 1..];
    }
  }

  /** Reading a printed address gives it back, for all 2^32 of them. */
  lemma NumberRoundTrip(n: nat)
    requires n < 0x1_0000_0000
    ensures IpToNumber(NumberToIp(n)) == Some(n)
  {
    hide Print, Read, Split, Join, Combined, NumberToIp;
    SumOfPlaces(n);
    var parts := PartsOfNumber(n);
    SplitOfJoin(parts);
    CombinedIsSum(n / 0x100_0000, n / 0x1_0000 % 0x100, n / 0x100 % 0x100, n % 0x100);
    assert IsQuad(parts);
  }

  lemma PartsOfNumber(n: nat) returns (parts: seq<string>)
    requires n < 0x1_0000_0000
    ensures |parts| == 4 && NumberToIp(n) == Join(parts)
    ensures parts[0] == Print(n / 0x100_0000) && parts[1] == Print(n / 0x1_0000 % 0x100)
    ensures parts[2] == Print(n / 0x100 % 0x100) && parts[3] == Print(n % 0x100)
    ensures forall i | 0 <= i < 4 :: IsOctet(parts[i])
    ensures Read(parts[0]) == n / 0x100_0000 && Read(parts[1]) == n / 0x1_0000 % 0x100
    ensures Read(parts[2]) == n / 0x100 % 0x100 && Read(parts[3]) == n % 0x100
  {
    hide Print, Read, Join, And, Shr, U32;
    OctetsAre(n);
    OctetPrints(n / 0x100_0000);
    OctetPrints(n / 0x1_0000 % 0x100);
    OctetPrints(n / 0x100 % 0x100);
    OctetPrints(n % 0x100);
    parts := [Print(n / 0x100_0000), Print(n / 0x1_0000 % 0x100), Print(n / 0x100 % 0x100), Print(n % 0x100)];
  }

  lemma OctetPrints(x: nat)
    requires x < 256
    ensures IsOctet(Print(x)) && Read(Print(x)) == x
  {
    ThreeDigits(x);
    ReadOfPrint(x);
  }

  predicate HasNoLeadingZeros(parts: seq<string>) {
    forall i | 0 <= i < |parts| :: parts[i] != [] && (parts[i][0] == '0' ==> |parts[i]| == 1)
  }

  /** Printing a read address gives the text back exactly when no octet has a leading zero. */
  lemma TextRoundTrip(ip: string)
    requires IpToNumber(ip).Some?
    ensures IpToNumber(ip).value < 0x1_0000_0000
    ensures NumberToIp(IpToNumber(ip).value) == ip <==> HasNoLeadingZeros(Split(ip))
  {
    hide Print, Read, Split, Join, Combined, NumberToIp;
    var p := Split(ip);
    var a, b, c, d := Read(p[0]), Read(p[1]), Read(p[2]), Read(p[3]);
    CombinedIsSum(a, b, c, d);
    Places(a, b, c, d);
    var n := IpToNumber(ip).value;
    var parts := PartsOfNumber(n);
    SplitOfJoin(parts);
    JoinOfSplit(ip);
    forall i | 0 <= i < 4
      ensures parts[i] == p[i] <==> (p[i][0] == '0' ==> |p[i]| == 1)
    {
      assert parts[i] == Print(Read(p[i]));
      PrintsBackIff(p[i]);
    }
    if HasNoLeadingZeros(p) {
      assert parts == p;
    }
  }

  lemma PrintsBackIff(s: string)
    requires IsNumeral(s)
    ensures Print(Read(s)) == s <==> (s[0] == '0' ==> |s| == 1)
  {
    if s[0] == '0' ==> |s| == 1 {
      PrintOfRead(s);
    }
  }

  // ----- Which texts are addresses -----

  /** One to three decimal digits and the number they stand for. */
  predicate IsDecimal(p: string, v: int) {
    && 1 <= |p| <= 3 && (forall i | 0 <= i < |p| :: '0' <= p[i] <= '9')
    && v == if |p| == 1 then p[0] as int - 48
            else if |p| == 2 then 10 * (p[0] as int - 48) + (p[1] as int - 48)
            else 100 * (p[0] as int - 48) + 10 * (p[1] as int - 48) + (p[2] as int - 48)
  }

  lemma DecimalIsRead(p: string, v: int)
    ensures IsDecimal(p, v) <==> IsNumeral(p) && |p| <= 3 && Read(p) == v
  {
    if IsNumeral(p) && |p| <= 3 {
      assert Read(p[..0]) == 0;
      assert |p| >= 2 ==> p[..2][..1] == p[..1];
      assert Read(p[..1]) == p[0] as int - 48 by {
        assert p[..1][..0] == p[..0];
      }
      if |p| == 1 {
        assert p[..1] == p;
      } else if |p| == 2 {
        assert p[..|p| - 1] == p[..1];
      } else {
        assert Read(p[..2]) == 10 * (p[0] as int - 48) + (p[1] as int - 48);
        assert p[..|p| - 1] == p[..2];
      }
    }
  }

  /** Four such numbers of at most 255, most significant first, make the text and the address. */
  predicate AreOctetsOf(a: string, b: string, c: string, d: string, v: int, w: int, x: int, y: int,
                        ip: string, n: int)
  {
    && IsDecimal(a, v) && IsDecimal(b, w) && IsDecimal(c, x) && IsDecimal(d, y)
    && v <= 255 && w <= 255 && x <= 255 && y <= 255
    && ip == a + "." + (b + "." + (c + "." + d))
    && n == v * 16_777_216 + w * 65_536 + x * 256 + y
  }

  ghost predicate IsAddress(ip: string, n: int) {
    exists a, b, c, d, v, w, x, y :: AreOctetsOf(a, b, c, d, v, w, x, y, ip, n)
  }

  lemma JoinOfFour(p: seq<string>)
    requires |p| == 4
    ensures Join(p) == p[0] + "." + (p[1] + "." + (p[2] + "." + p[3]))
  {
    assert p[1..][1..] == p[2..] && p[2..][1..] == p[3..];
    assert Join(p[3..]) == p[3];
    assert Join(p[2..]) == p[2] + "." + p[3];
    assert Join(p[1..]) == p[1] + "." + Join(p[2..]);
  }

  /** A text is read as an address, and as which, by its characters alone. */
  lemma AddressByText(ip: string, n: int)
    ensures (IpToNumber(ip).Some? && IpToNumber(ip).value == n) <==> IsAddress(ip, n)
  {
    if IpToNumber(ip).Some? && IpToNumber(ip).value == n {
      hide Read, Split, Join, Combined, IsDecimal, IsNumeral;
      var p := Split(ip);
      OctetIsDecimal(p[0]);
      OctetIsDecimal(p[1]);
      OctetIsDecimal(p[2]);
      OctetIsDecimal(p[3]);
      CombinedIsSum(Read(p[0]), Read(p[1]), Read(p[2]), Read(p[3]));
      JoinOfSplit(ip);
      JoinOfFour(p);
      assert AreOctetsOf(p[0], p[1], p[2], p[3], Read(p[0]), Read(p[1]), Read(p[2]), Read(p[3]), ip, n);
    }
    hide AreOctetsOf, IpToNumber;
    if a, b, c, d, v, w, x, y :| AreOctetsOf(a, b, c, d, v, w, x, y, ip, n) {
      OctetsAreRead(a, b, c, d, v, w, x, y, ip, n);
    }
  }

  lemma OctetIsDecimal(p: string)
    requires IsOctet(p)
    ensures IsDecimal(p, Read(p)) && Read(p) <= 255
  {
    DecimalIsRead(p, Read(p));
  }

  lemma DecimalIsOctet(p: string, v: int)
    requires IsDecimal(p, v) && v <= 255
    ensures IsOctet(p) && Read(p) == v
  {
    DecimalIsRead(p, v);
  }

  lemma OctetsAreRead(a: string, b: string, c: string, d: string, v: int, w: int, x: int, y: int, ip: string, n: int)
    requires AreOctetsOf(a, b, c, d, v, w, x, y, ip, n)
    ensures IpToNumber(ip) == Some(n)
  {
    DecimalIsOctet(a, v);
    DecimalIsOctet(b, w);
    DecimalIsOctet(c, x);
    DecimalIsOctet(d, y);
    JoinOfFour([a, b, c, d]);
    hide IsDecimal;
    PartsAreRead([a, b, c, d]);
    hide Read, Join, IpToNumber;
  }

  lemma PartsAreRead(p: seq<string>)
    requires |p| == 4 && IsOctet(p[0]) && IsOctet(p[1]) && IsOctet(p[2]) && IsOctet(p[3])
    ensures IpToNumber(Join(p))
            == Some(Read(p[0]) * 16_777_216 + Read(p[1]) * 65_536 + Read(p[2]) * 256 + Read(p[3]))
  {
    hide Read, Split, Join, Combined;
    SplitOfJoin(p);
    CombinedIsSum(Read(p[0]), Read(p[1]), Read(p[2]), Read(p[3]));
  }
}
