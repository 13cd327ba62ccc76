/** The gateway of a client subnet, and the DHCP pools around it. */
module DhcpPools {
  import opened Common
  import opened Ipv4
  import opened DottedQuad

  // ----- The gateway -----

  /** The highest usable one of the interface's own addresses, or the first host. */
  method DeriveGateway(addresses: seq<nat>, s: Subnet) returns (r: Option<nat>)
    requires s.IsValid() && forall i | 0 <= i < |addresses| :: addresses[i] < 0x1_0000_0000
    ensures r.Some? ==> UsableHost(r.value, s)
    ensures r.None? <==> s.prefix >= 31
    ensures r.Some? ==> forall a | a in addresses && UsableHost(a, s) :: a <= r.value
    ensures r.Some? ==> r.value in addresses || r.value == RangeOf(s).0 + 1
    ensures (exists a | a in addresses :: UsableHost(a, s)) ==> r.Some? && r.value in addresses
  {
    hide UsableHost, RangeOf, IpToNumber, NumberToIp;
    var best: Option<nat> := None;
    for i := 0 to |addresses|
      invariant best.Some? ==> best.value in addresses && UsableHost(best.value, s)
      invariant forall a | a in addresses[..i] && UsableHost(a, s) :: best.Some? && a <= best.value
    {
      if UsableHost(addresses[i], s) && (best.None? || best.value < addresses[i]) {
        best := Some(addresses[i]);
      }
    }
    assert addresses[..|addresses|] == addresses;
    FirstHost(s);
    if best.Some? {
      return best;
    }
    var candidate := IpToNumber(NumberToIp(RangeOf(s).0 + 1));
    WrappedRoundTrip(RangeOf(s).0 + 1);
    return if UsableHost(candidate.value, s) then candidate else None;
  }

  /** The first address after the network's is usable exactly below prefix 31. */
  lemma FirstHost(s: Subnet)
    requires s.IsValid()
    ensures s.prefix < 31 ==> U32(RangeOf(s).0 + 1) == RangeOf(s).0 + 1 && UsableHost(RangeOf(s).0 + 1, s)
    ensures s.prefix >= 31 ==> forall ip: nat :: !UsableHost(ip, s)
  {
    hide SizeOf, RangeOf;
    BlockBounds(s);
    BlockSizes(s);
  }

  /** Printing takes the 32-bit pattern of any integer, and reading gives that pattern. */
  lemma WrappedRoundTrip(x: int)
    ensures IpToNumber(NumberToIp(x)) == Some(U32(x))
  {
    hide Split, Join, Combined, And, Halved;
    NumberRoundTrip(U32(x));
    assert U32(U32(x)) == U32(x);
    assert NumberToIp(x) == NumberToIp(U32(x));
  }

  /** How many addresses short prefixes leave. */
  lemma BlockSizes(s: Subnet)
    requires s.IsValid()
    ensures s.prefix <= 28 ==> SizeOf(s.prefix) >= 16
    ensures 29 <= s.prefix ==> SizeOf(s.prefix) <= 8
    ensures s.prefix == 30 ==> SizeOf(s.prefix) == 4
    ensures s.prefix >= 31 ==> SizeOf(s.prefix) <= 2
    ensures s.prefix < 31 ==> SizeOf(s.prefix) >= 4
  {
    hide Pow2;
    SmallPowers();
    if s.prefix <= 28 {
      Pow2Grows(4, 32 - s.prefix);
    } else {
      Pow2Grows(32 - s.prefix, 3);
    }
    if s.prefix < 31 {
      Pow2Grows(2, 32 - s.prefix);
    } else {
      Pow2Grows(32 - s.prefix, 1);
    }
  }

  lemma SmallPowers()
    ensures Pow2(1) == 2 && Pow2(2) == 4 && Pow2(3) == 8 && Pow2(4) == 16
  {
  }

  // ----- The pools -----

  datatype Pool = Pool(first: nat, last: int)

  /** The pools around the gateway, from the tenth address to the one before broadcast. */
  method RenderPools(s: Subnet, gateway: nat) returns (pools: seq<Pool>)
    requires s.IsValid()
    ensures pools == PoolsOf(U32(RangeOf(s).0 + 10), U32(RangeOf(s).1 - 1), gateway)
  {
    var start := IpToNumber(NumberToIp(RangeOf(s).0 + 10));
    var end := IpToNumber(NumberToIp(RangeOf(s).1 - 1));
    WrappedRoundTrip(RangeOf(s).0 + 10);
    WrappedRoundTrip(RangeOf(s).1 - 1);
    pools := [];
    if start.value <= gateway <= end.value {
      if start.value < gateway {
        pools := pools + [Pool(start.value, gateway - 1)];
      }
      if gateway < end.value {
        pools := pools + [Pool(gateway + 1, end.value)];
      }
    } else {
      pools := pools + [Pool(start.value, end.value)];
    }
  }

  /** No pool at all is reported as an error by the caller. */
  function PoolsOf(start: nat, end: nat, gateway: nat): seq<Pool> {
    if start <= gateway <= end then
      (if start < gateway then [Pool(start, gateway - 1)] else [])
      + (if gateway < end then [Pool(gateway + 1, end)] else [])
    else [Pool(start, end)]
  }

  predicate IsPooled(pools: seq<Pool>, ip: int) {
    exists i | 0 <= i < |pools| :: pools[i].first <= ip <= pools[i].last
  }

  /** At least one pool, each non-empty and of usable hosts only, in ascending order without overlap. */
  predicate AreValid(pools: seq<Pool>, s: Subnet)
    requires s.IsValid()
  {
    && pools != []
    && (forall i | 0 <= i < |pools| ::
          pools[i].first <= pools[i].last && RangeOf(s).0 < pools[i].first && pools[i].last < RangeOf(s).1)
    && (forall i, j | 0 <= i < j < |pools| :: pools[i].last < pools[j].first)
  }

  function Rendered(s: Subnet, gateway: nat): seq<Pool>
    requires s.IsValid()
  {
    PoolsOf(U32(RangeOf(s).0 + 10), U32(RangeOf(s).1 - 1), gateway)
  }

  /** With a usable gateway, which every prefix up to 30 has, the pools are valid exactly up to prefix 28. */
  lemma PoolsAreValidIffRoom(s: Subnet, gateway: nat)
    requires s.IsValid() && UsableHost(gateway, s)
    ensures AreValid(Rendered(s, gateway), s) <==> s.prefix <= 28
  {
    hide SizeOf, RangeOf;
    BlockBounds(s);
    BlockSizes(s);
    PoolBounds(RangeOf(s).0, RangeOf(s).1, gateway);
    var pools := Rendered(s, gateway);
    if s.prefix > 28 {
      assert pools == [] || pools[0].last < pools[0].first || pools[0].first <= RangeOf(s).0;
    }
  }

  /** The bounds do not wrap when there is room, and are no bounds of usable hosts when there is none. */
  lemma PoolBounds(low: nat, high: int, gateway: nat)
    requires low < gateway < high < 0x1_0000_0000
    ensures high - low >= 15 ==> U32(low + 10) == low + 10 && U32(high - 1) == high - 1
    ensures high - low <= 7 ==> U32(high - 1) == high - 1 && (U32(low + 10) == low + 10 || U32(low + 10) <= low)
  {
  }

  /** Up to prefix 28 the pools hold exactly the tenth address to the one before broadcast, without the gateway. */
  lemma PoolsCoverAllButGateway(s: Subnet, gateway: nat, ip: int)
    requires s.IsValid() && UsableHost(gateway, s) && s.prefix <= 28
    ensures IsPooled(Rendered(s, gateway), ip) <==> RangeOf(s).0 + 10 <= ip <= RangeOf(s).1 - 1 && ip != gateway
  {
    hide SizeOf, RangeOf;
    BlockBounds(s);
    BlockSizes(s);
    PoolBounds(RangeOf(s).0, RangeOf(s).1, gateway);
    var pools := Rendered(s, gateway);
    if RangeOf(s).0 + 10 <= ip <= RangeOf(s).1 - 1 && ip != gateway {
      var i := if |pools| == 2 && gateway < ip then 1 else 0;
      assert pools[i].first <= ip <= pools[i].last;
    }
  }
}
