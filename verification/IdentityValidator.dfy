/**
 Which device identities a reading of leases, neighbours and captures supports.
 The validator's own debouncing is off, as the server constructs it.
 */
module IdentityValidator {
  import opened Common
  import opened DottedQuad
  import opened Ipv4
  import opened MacAddress
  import opened Observations

  datatype Identity = Identity(
    mac: Mac,
    ip: Ip,
    neighborState: string,
    l2Visible: bool,
    proxyMac: Option<Mac>,
    validated: bool,
    source: IdentitySource,
    deferred: bool)

  datatype Reading = Reading(
    leases: seq<Lease>,
    neighbors: seq<Neighbor>,
    captures: seq<Capture>,
    renewals: set<Mac>,
    now: int,
    subnet: Subnet)

  predicate IsInLan(ip: Ip, subnet: Subnet) {
    subnet.IsValid() && IpToNumber(ip).Some? && IsInSubnet(IpToNumber(ip).value, subnet)
  }

  /** A lease counts while it has not expired; its last second still counts. */
  predicate IsLive(l: Lease, r: Reading) {
    IsMac(l.mac) && IsInLan(l.ip, r.subnet) && !(0 < l.expiry < r.now)
  }

  /** The last live lease of an address, or of a device. */
  function LeaseAt(leases: seq<Lease>, r: Reading, ip: Ip): Option<Lease> {
    if leases == [] then None
    else if IsLive(leases[|leases| - 1], r) && leases[|leases| - 1].ip == ip then Some(leases[|leases| - 1])
    else LeaseAt(leases[..|leases| - 1], r, ip)
  }

  function LeaseOf(leases: seq<Lease>, r: Reading, mac: Mac): Option<Lease> {
    if leases == [] then None
    else if IsLive(leases[|leases| - 1], r) && leases[|leases| - 1].mac == mac then Some(leases[|leases| - 1])
    else LeaseOf(leases[..|leases| - 1], r, mac)
  }

  /** A neighbour entry that is evidence. */
  predicate IsHeard(n: Neighbor, r: Reading) {
    IsUsableState(n.state) && IsMac(n.mac) && IsInLan(n.ip, r.subnet)
  }

  predicate IsUsableCapture(c: Capture) {
    IsMac(c.mac) && (c.sourceIp.Some? ==> IpToNumber(c.sourceIp.value).Some? && c.sourceIp.value != "0.0.0.0")
  }

  predicate Confirms(c: Capture, mac: Mac, ip: Ip) {
    IsUsableCapture(c) && c.mac == mac && (c.sourceIp.Some? ==> c.sourceIp.value == ip)
  }

  predicate IsConfirmed(r: Reading, mac: Mac, ip: Ip) {
    exists c | c in r.captures :: Confirms(c, mac, ip)
  }

  /** The neighbour answers for an address that DHCP gave to another device. */
  predicate ActsAsProxy(n: Neighbor, r: Reading) {
    && IsUsableState(n.state) && IsMac(n.mac)
    && LeaseAt(r.leases, r, n.ip).Some? && LeaseAt(r.leases, r, n.ip).value.mac != n.mac
  }

  predicate IsProxy(r: Reading, mac: Mac) {
    exists n | n in r.neighbors :: ActsAsProxy(n, r) && n.mac == mac
  }

  // ----- The three kinds of identity -----

  /** A leased device whose address a neighbour entry holds. */
  function Judged(r: Reading, mac: Mac, n: Neighbor): Identity {
    var matches := n.mac == mac;
    if !matches && !IsConfirmed(r, mac, n.ip) then
      Identity(mac, n.ip, n.state, false, Some(n.mac), false,
               if mac in r.renewals then ProxyUnconfirmed else Dhcp, true)
    else
      Identity(mac, n.ip, n.state, matches, if matches then None else Some(n.mac), true,
               if matches then Dhcp else DhcpConfirmedProxy, false)
  }

  /** A neighbour without a lease. */
  function Static(n: Neighbor): Identity {
    Identity(n.mac, n.ip, n.state, true, None, true, StaticArp, false)
  }

  /** A leased device that no neighbour entry shows. */
  function Unobserved(l: Lease): Identity {
    Identity(l.mac, l.ip, "UNOBSERVED", false, None, false, Dhcp, true)
  }

  ghost predicate IsJudged(id: Identity, r: Reading, n: Neighbor) {
    && n in r.neighbors && IsHeard(n, r)
    && HoldsLeaseOf(n, r, id.mac)
    && id == Judged(r, id.mac, n)
  }

  ghost predicate IsStatic(id: Identity, r: Reading, n: Neighbor) {
    && n in r.neighbors && IsHeard(n, r) && LeaseAt(r.leases, r, n.ip).None?
    && !IsProxy(r, n.mac) && id == Static(n)
  }

  /** Some heard neighbour holds an address leased to the device. */
  predicate IsObserved(r: Reading, mac: Mac) {
    exists n | n in r.neighbors :: IsHeard(n, r) && HoldsLeaseOf(n, r, mac)
  }

  predicate HoldsLeaseOf(n: Neighbor, r: Reading, mac: Mac) {
    LeaseAt(r.leases, r, n.ip).Some? && LeaseAt(r.leases, r, n.ip).value.mac == mac
  }

  ghost predicate IsUnobserved(id: Identity, r: Reading) {
    LeaseOf(r.leases, r, id.mac).Some? && id == Unobserved(LeaseOf(r.leases, r, id.mac).value) && !IsObserved(r, id.mac)
  }

  /** Every identity has one of the three explanations. */
  ghost predicate IsExplained(id: Identity, r: Reading) {
    (exists n :: IsJudged(id, r, n)) || (exists n :: IsStatic(id, r, n)) || IsUnobserved(id, r)
  }

  predicate Lists(result: seq<Identity>, mac: Mac) {
    exists i | 0 <= i < |result| :: result[i].mac == mac
  }

  predicate OnePerMac(result: seq<Identity>) {
    forall i, j | 0 <= i < j < |result| :: result[i].mac != result[j].mac
  }

  /** Every heard neighbour that says something has its device listed. */
  predicate Covers(result: seq<Identity>, r: Reading, neighbors: seq<Neighbor>) {
    forall n | n in neighbors && IsHeard(n, r) ::
      match LeaseAt(r.leases, r, n.ip)
      case Some(l) => Lists(result, l.mac)
      case None => Lists(result, n.mac) || IsProxy(r, n.mac)
  }

  /** The MAC that a neighbour says something about: the one that leases its address, or its own static one. */
  ghost function About(r: Reading, i: nat): Option<Mac> {
    if i >= |r.neighbors| || !IsHeard(r.neighbors[i], r) then None
    else
      match LeaseAt(r.leases, r, r.neighbors[i].ip)
      case Some(l) => Some(l.mac)
      case None => if IsProxy(r, r.neighbors[i].mac) then None else Some(r.neighbors[i].mac)
  }

  /** Neighbour i is the first that says something about the MAC. */
  ghost predicate IsFirstAbout(r: Reading, i: nat, mac: Mac) {
    About(r, i) == Some(mac) && forall j: nat | j < i :: About(r, j) != Some(mac)
  }

  function IdentityAt(r: Reading, i: nat, mac: Mac): Identity
    requires i < |r.neighbors|
  {
    if LeaseAt(r.leases, r, r.neighbors[i].ip).Some? then Judged(r, mac, r.neighbors[i]) else Static(r.neighbors[i])
  }

  /** The identity is what the first neighbour about its MAC shows. */
  ghost predicate IsReported(id: Identity, r: Reading) {
    exists i: nat | i < |r.neighbors| :: IsFirstAbout(r, i, id.mac) && id == IdentityAt(r, i, id.mac)
  }

  /** No neighbour is about the leased MAC. */
  ghost predicate IsUnseen(id: Identity, r: Reading) {
    && LeaseOf(r.leases, r, id.mac).Some? && id == Unobserved(LeaseOf(r.leases, r, id.mac).value)
    && forall i: nat :: About(r, i) != Some(id.mac)
  }

  /** The listed MACs are those that the first n neighbours are about, each by the first of these. */
  ghost predicate ReportsFirst(result: seq<Identity>, r: Reading, n: nat) {
    && (forall id | id in result :: IsReported(id, r))
    && (forall mac :: Lists(result, mac) <==> exists i: nat :: i < n && About(r, i) == Some(mac))
  }

  lemma NobodyReported(r: Reading)
    ensures ReportsFirst([], r, 0)
  {
  }

  /** One more neighbour adds the MAC it is about, unless that is listed already. */
  lemma ReportsOneMore(result: seq<Identity>, after: seq<Identity>, r: Reading, i: nat)
    requires i < |r.neighbors| && ReportsFirst(result, r, i)
    requires var mac := About(r, i);
             if mac.Some? && !Lists(result, mac.value)
             then IdentityAt(r, i, mac.value).mac == mac.value && after == result + [IdentityAt(r, i, mac.value)]
             else after == result
    ensures ReportsFirst(after, r, i + 1)
  {
    hide About, IdentityAt, Lists;
    var about := About(r, i);
    if about.Some? && !Lists(result, about.value) {
      assert IsFirstAbout(r, i, about.value);
      forall mac
        ensures Lists(after, mac) <==> Lists(result, mac) || about.value == mac
      {
        ListsAfter(result, IdentityAt(r, i, about.value), mac);
      }
    }
    forall mac
      ensures Lists(after, mac) <==> exists k: nat :: k < i + 1 && About(r, k) == Some(mac)
    {
      if Lists(after, mac) {
        if Lists(result, mac) {
          var k: nat :| k < i && About(r, k) == Some(mac);
          assert k < i + 1;
        } else {
          assert About(r, i) == Some(mac);
        }
      }
    }
  }

  // ----- The validator -----

  /**
   One identity per MAC, each with one of the three explanations; every live lease
   and every heard neighbour is accounted for.
   */
  method Validate(r: Reading) returns (result: seq<Identity>)
    ensures OnePerMac(result)
    ensures forall id | id in result :: IsExplained(id, r)
    ensures Covers(result, r, r.neighbors)
    ensures forall l | l in r.leases && IsLive(l, r) :: Lists(result, l.mac)
    ensures forall id | id in result :: IsReported(id, r) || IsUnseen(id, r)
    ensures forall mac :: Lists(result, mac) <==>
              (exists i: nat :: i < |r.neighbors| && About(r, i) == Some(mac)) || LeaseOf(r.leases, r, mac).Some?
  {
    hide IsLive, IsHeard, IsProxy, IsConfirmed, IsExplained, About, IsReported, IsUnseen, Lists, Covers;
    hide ReportsFirst;
    var leaseByMac, leaseByIp := ReadLeases(r);
    var proxyMacs := FindProxies(r, leaseByIp);
    result := [];
    NobodyReported(r);
    assert Covers(result, r, r.neighbors[..0]) by {
      NothingToCover(result, r);
    }
    for i := 0 to |r.neighbors|
      invariant OnePerMac(result) && Covers(result, r, r.neighbors[..i]) && ReportsFirst(result, r, i)
      invariant forall id | id in result :: IsExplained(id, r)
    {
      result := AddNeighbor(r, leaseByIp, proxyMacs, result, i);
    }
    assert r.neighbors[..|r.neighbors|] == r.neighbors;
    ghost var reported := result;
    ReportedAll(reported, r);
    result := AddUnobserved(r, leaseByMac, result);
  }

  lemma ReportedAll(result: seq<Identity>, r: Reading)
    requires ReportsFirst(result, r, |r.neighbors|)
    ensures forall id | id in result :: IsReported(id, r)
    ensures forall mac :: Lists(result, mac) <==> exists i: nat :: i < |r.neighbors| && About(r, i) == Some(mac)
  {
    hide IsReported, Lists, About;
  }

  /** Two maps filled lease by lease: a later lease replaces an earlier one. */
  method ReadLeases(r: Reading) returns (leaseByMac: map<Mac, Lease>, leaseByIp: map<Ip, Lease>)
    ensures forall mac :: LeaseOf(r.leases, r, mac) == if mac in leaseByMac then Some(leaseByMac[mac]) else None
    ensures forall ip :: LeaseAt(r.leases, r, ip) == if ip in leaseByIp then Some(leaseByIp[ip]) else None
  {
    hide IsLive;
    leaseByMac, leaseByIp := map[], map[];
    for i := 0 to |r.leases|
      invariant forall mac :: LeaseOf(r.leases[..i], r, mac) ==
                        if mac in leaseByMac then Some(leaseByMac[mac]) else None
      invariant forall ip :: LeaseAt(r.leases[..i], r, ip) == if ip in leaseByIp then Some(leaseByIp[ip]) else None
    {
      var lease := r.leases[i];
      assert r.leases[..i + 1][..i] == r.leases[..i];
      if IsLive(lease, r) {
        leaseByMac, leaseByIp := leaseByMac[lease.mac := lease], leaseByIp[lease.ip := lease];
      }
    }
    assert r.leases[..|r.leases|] == r.leases;
  }

  method FindProxies(r: Reading, leaseByIp: map<Ip, Lease>) returns (proxyMacs: set<Mac>)
    requires forall ip :: LeaseAt(r.leases, r, ip) == if ip in leaseByIp then Some(leaseByIp[ip]) else None
    ensures forall mac :: mac in proxyMacs <==> IsProxy(r, mac)
  {
    hide IsMac, LeaseAt;
    proxyMacs := {};
    for i := 0 to |r.neighbors|
      invariant forall mac :: mac in proxyMacs <==>
                        exists k | 0 <= k < i :: ActsAsProxy(r.neighbors[k], r) && r.neighbors[k].mac == mac
    {
      var n := r.neighbors[i];
      if n.ip in leaseByIp && IsUsableState(n.state) && IsMac(n.mac) && n.mac != leaseByIp[n.ip].mac {
        proxyMacs := proxyMacs + {n.mac};
      }
    }
  }

  predicate HasMac(result: seq<Identity>, mac: Mac)
    ensures HasMac(result, mac) <==> Lists(result, mac)
  {
    exists id | id in result :: id.mac == mac
  }

  lemma ListsAfter(result: seq<Identity>, id: Identity, mac: Mac)
    ensures Lists(result + [id], mac) <==> Lists(result, mac) || id.mac == mac
  {
    assert (result + [id])[|result|] == id;
    if Lists(result, mac) {
      var i :| 0 <= i < |result| && result[i].mac == mac;
      assert (result + [id])[i].mac == mac;
    }
  }

  /** What one neighbour adds: its leased device, or itself, or nothing. */
  method AddNeighbor(r: Reading, leaseByIp: map<Ip, Lease>, proxyMacs: set<Mac>, result: seq<Identity>, i: nat)
    returns (after: seq<Identity>)
    requires forall ip :: LeaseAt(r.leases, r, ip) == if ip in leaseByIp then Some(leaseByIp[ip]) else None
    requires forall mac :: mac in proxyMacs <==> IsProxy(r, mac)
    requires i < |r.neighbors| && OnePerMac(result) && Covers(result, r, r.neighbors[..i])
    requires forall id | id in result :: IsExplained(id, r)
    requires ReportsFirst(result, r, i)
    ensures OnePerMac(after) && Covers(after, r, r.neighbors[..i + 1])
    ensures forall id | id in after :: IsExplained(id, r)
    ensures ReportsFirst(after, r, i + 1)
  {
    hide IsHeard, IsProxy, IsConfirmed, LeaseAt, IsExplained, Covers, Lists, ReportsFirst;
    var n := r.neighbors[i];
    after := result;
    if IsHeard(n, r) {
      if n.ip in leaseByIp {
        var mac := leaseByIp[n.ip].mac;
        if !HasMac(result, mac) {
          var id := Judged(r, mac, n);
          JudgedIsExplained(id, r, n);
          after := result + [id];
          Added(result, id);
        }
      } else if !HasMac(result, n.mac) && n.mac !in proxyMacs {
        var id := Static(n);
        StaticIsExplained(id, r, n);
        after := result + [id];
        Added(result, id);
      }
    }
    CoversOneMore(result, after, r, i);
    ReportsOneMore(result, after, r, i);
  }

  lemma NothingToCover(result: seq<Identity>, r: Reading)
    ensures Covers(result, r, r.neighbors[..0])
  {
  }

  lemma JudgedIsExplained(id: Identity, r: Reading, n: Neighbor)
    requires IsJudged(id, r, n)
    ensures IsExplained(id, r)
  {
  }

  lemma StaticIsExplained(id: Identity, r: Reading, n: Neighbor)
    requires IsStatic(id, r, n)
    ensures IsExplained(id, r)
  {
  }

  lemma Added(result: seq<Identity>, id: Identity)
    requires OnePerMac(result) && !Lists(result, id.mac)
    ensures OnePerMac(result + [id])
    ensures forall mac :: Lists(result + [id], mac) <==> Lists(result, mac) || id.mac == mac
  {
    forall mac
      ensures Lists(result + [id], mac) <==> Lists(result, mac) || id.mac == mac
    {
      ListsAfter(result, id, mac);
    }
  }

  lemma CoversOneMore(result: seq<Identity>, after: seq<Identity>, r: Reading, i: nat)
    requires i < |r.neighbors| && Covers(result, r, r.neighbors[..i])
    requires forall mac | Lists(result, mac) :: Lists(after, mac)
    requires IsHeard(r.neighbors[i], r) ==>
               match LeaseAt(r.leases, r, r.neighbors[i].ip)
               case Some(l) => Lists(after, l.mac)
               case None => Lists(after, r.neighbors[i].mac) || IsProxy(r, r.neighbors[i].mac)
    ensures Covers(after, r, r.neighbors[..i + 1])
  {
    hide IsHeard, IsProxy, LeaseAt, Lists;
    forall n | n in r.neighbors[..i + 1] && IsHeard(n, r)
      ensures match LeaseAt(r.leases, r, n.ip)
              case Some(l) => Lists(after, l.mac)
              case None => Lists(after, n.mac) || IsProxy(r, n.mac)
    {
      assert r.neighbors[..i + 1] == r.neighbors[..i] + [r.neighbors[i]];
      assert n in r.neighbors[..i] || n == r.neighbors[i];
    }
  }

  /** Leased devices that no neighbour showed come last. */
  method AddUnobserved(r: Reading, leaseByMac: map<Mac, Lease>, result: seq<Identity>) returns (after: seq<Identity>)
    requires forall mac :: LeaseOf(r.leases, r, mac) == if mac in leaseByMac then Some(leaseByMac[mac]) else None
    requires OnePerMac(result) && Covers(result, r, r.neighbors)
    requires forall id | id in result :: IsExplained(id, r)
    requires ReportsFirst(result, r, |r.neighbors|)
    ensures OnePerMac(after) && Covers(after, r, r.neighbors)
    ensures forall id | id in after :: IsExplained(id, r)
    ensures forall l | l in r.leases && IsLive(l, r) :: Lists(after, l.mac)
    ensures forall id | id in after && id !in result :: IsUnseen(id, r)
    ensures forall mac :: Lists(after, mac) <==> Lists(result, mac) || LeaseOf(r.leases, r, mac).Some?
  {
    hide IsLive, IsHeard, IsProxy, IsConfirmed, LeaseAt, LeaseOf, IsExplained, Covers, Lists, About;
    hide ReportsFirst, IsUnseen;
    after := result;
    var left := leaseByMac.Keys;
    while left != {}
      invariant left <= leaseByMac.Keys
      invariant OnePerMac(after) && forall id | id in after :: IsExplained(id, r)
      invariant forall mac | Lists(result, mac) :: Lists(after, mac)
      invariant forall mac | mac in leaseByMac && mac !in left :: Lists(after, mac)
      invariant forall mac | Lists(after, mac) :: Lists(result, mac) || mac in leaseByMac
      invariant forall id | id in after && id !in result :: IsUnseen(id, r)
      decreases left
    {
      var mac :| mac in left;
      left := left - {mac};
      if !HasMac(after, mac) {
        var id := Unobserved(leaseByMac[mac]);
        LeaseOfIsOf(r.leases, r, mac);
        UnobservedIsExplained(result, id, r);
        UnobservedIsUnseen(result, id, r);
        Added(after, id);
        after := after + [id];
      }
    }
    CoversMore(result, after, r);
    forall l | l in r.leases && IsLive(l, r)
      ensures Lists(after, l.mac)
    {
      LeaseOfFinds(r.leases, r, l);
    }
  }

  lemma CoversMore(result: seq<Identity>, after: seq<Identity>, r: Reading)
    requires Covers(result, r, r.neighbors) && forall mac | Lists(result, mac) :: Lists(after, mac)
    ensures Covers(after, r, r.neighbors)
  {
    hide IsHeard, IsProxy, LeaseAt, Lists;
  }

  lemma UnobservedIsExplained(result: seq<Identity>, id: Identity, r: Reading)
    requires Covers(result, r, r.neighbors) && !Lists(result, id.mac)
    requires LeaseOf(r.leases, r, id.mac).Some? && id == Unobserved(LeaseOf(r.leases, r, id.mac).value)
    ensures IsExplained(id, r)
  {
    hide IsHeard, IsProxy, LeaseAt, LeaseOf, Lists;
    assert !IsObserved(r, id.mac);
  }

  lemma UnobservedIsUnseen(result: seq<Identity>, id: Identity, r: Reading)
    requires ReportsFirst(result, r, |r.neighbors|) && !Lists(result, id.mac)
    requires LeaseOf(r.leases, r, id.mac).Some? && id == Unobserved(LeaseOf(r.leases, r, id.mac).value)
    ensures IsUnseen(id, r)
  {
    hide LeaseOf, Lists, IsReported, IsHeard, LeaseAt, IsProxy;
  }

  lemma {:induction false} LeaseOfIsOf(leases: seq<Lease>, r: Reading, mac: Mac)
    ensures LeaseOf(leases, r, mac).Some? ==> LeaseOf(leases, r, mac).value.mac == mac
  {
    hide IsLive;
    if leases != [] {
      LeaseOfIsOf(leases[..|leases| - 1], r, mac);
    }
  }

  lemma {:induction false} LeaseOfFinds(leases: seq<Lease>, r: Reading, l: Lease)
    requires l in leases && IsLive(l, r)
    ensures LeaseOf(leases, r, l.mac).Some?
  {
    hide IsLive;
    var last := leases[|leases| - 1];
    if !(IsLive(last, r) && last.mac == l.mac) {
      LeaseOfFinds(leases[..|leases| - 1], r, l);
    }
  }

  // ----- What an explained identity is worth -----

  /** Evidence for a leased device at an address: the neighbour entry is its own, or a capture confirms it. */
  predicate HasEvidence(r: Reading, mac: Mac, ip: Ip) {
    exists n | n in r.neighbors ::
      && IsHeard(n, r) && n.ip == ip && HoldsLeaseOf(n, r, mac)
      && (n.mac == mac || IsConfirmed(r, mac, ip))
  }

  /** A heard neighbour entry at the address with the device's own MAC. */
  predicate IsOwnNeighbor(r: Reading, mac: Mac, ip: Ip) {
    exists n | n in r.neighbors :: IsHeard(n, r) && n.ip == ip && n.mac == mac
  }

  /** Validation never comes without a usable neighbour at the address that matches or that a capture backs up. */
  lemma ValidatedHasEvidence(id: Identity, r: Reading)
    requires IsExplained(id, r) && id.validated
    ensures if id.source == StaticArp then IsOwnNeighbor(r, id.mac, id.ip) else HasEvidence(r, id.mac, id.ip)
  {
    hide IsHeard, IsConfirmed, LeaseAt, LeaseOf;
  }

  predicate UniqueNeighborIps(r: Reading) {
    forall i, j | 0 <= i < j < |r.neighbors| :: r.neighbors[i].ip != r.neighbors[j].ip
  }

  /** With one neighbour entry per address, a leased device is validated exactly on evidence. */
  lemma ValidatedIffEvidence(id: Identity, r: Reading)
    requires IsExplained(id, r) && UniqueNeighborIps(r) && id.source != StaticArp
    ensures id.validated <==> HasEvidence(r, id.mac, id.ip)
  {
    hide IsHeard, IsConfirmed, LeaseAt, LeaseOf;
    if id.validated {
      ValidatedHasEvidence(id, r);
    } else {
      NotEvidence(id, r);
    }
  }

  lemma NotEvidence(id: Identity, r: Reading)
    requires IsExplained(id, r) && UniqueNeighborIps(r) && id.source != StaticArp && !id.validated
    ensures !HasEvidence(r, id.mac, id.ip)
  {
    hide IsHeard, IsConfirmed, LeaseAt, LeaseOf;
    forall n | n in r.neighbors && IsHeard(n, r) && n.ip == id.ip && HoldsLeaseOf(n, r, id.mac)
      ensures n.mac != id.mac && !IsConfirmed(r, id.mac, id.ip)
    {
      assert IsObserved(r, id.mac);
      var judged :| IsJudged(id, r, judged);
      SameEntry(r, n, judged);
    }
  }

  lemma SameEntry(r: Reading, a: Neighbor, b: Neighbor)
    requires UniqueNeighborIps(r) && a in r.neighbors && b in r.neighbors && a.ip == b.ip
    ensures a == b
  {
  }

  /** A MAC that answers for another device's address is never listed as a static device. */
  lemma ProxyIsNeverStatic(id: Identity, r: Reading)
    requires IsExplained(id, r) && IsProxy(r, id.mac)
    ensures id.source != StaticArp
  {
    hide IsHeard, IsConfirmed, IsProxy, LeaseAt, LeaseOf;
  }

  /** The source, the proxy and the visibility of an identity agree with each other. */
  lemma IdentityIsCoherent(id: Identity, r: Reading)
    requires IsExplained(id, r)
    ensures id.proxyMac != Some(id.mac)
    ensures id.l2Visible ==> id.validated && id.proxyMac.None?
    ensures id.source == DhcpConfirmedProxy <==> id.validated && id.proxyMac.Some?
    ensures id.source == ProxyUnconfirmed ==> id.proxyMac.Some? && !id.validated && id.mac in r.renewals
    ensures id.deferred <==> !id.validated
  {
    hide IsHeard, IsConfirmed, IsProxy, LeaseAt, LeaseOf;
  }
}
