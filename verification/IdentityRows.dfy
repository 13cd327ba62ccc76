/**
 What identity validation reports, said of the rows of the reading themselves: leases,
 neighbours and captures as texts and numbers.
 */
module IdentityRows {
  import opened Common
  import opened DottedQuad
  import opened Ipv4
  import opened MacAddress
  import opened Observations
  import opened IdentityValidator

  // ----- Rows that count -----

  /** The text is an address of the network: it lies between the network's first and last one. */
  ghost predicate IsLanText(ip: Ip, subnet: Subnet) {
    && subnet.ip < 0x1_0000_0000 && subnet.prefix <= 32
    && exists n: nat :: IsAddress(ip, n) && RangeOf(subnet).0 <= n <= RangeOf(subnet).1
  }

  /** Lease row j has no end or has not yet passed it, and names a MAC and an address of the network. */
  ghost predicate IsLeaseRow(r: Reading, j: nat) {
    && j < |r.leases| && (r.leases[j].expiry <= 0 || r.now <= r.leases[j].expiry)
    && IsMacText(r.leases[j].mac) && IsLanText(r.leases[j].ip, r.subnet)
  }

  /** The last such row of an address. */
  ghost predicate IsLeaseRowAt(r: Reading, ip: Ip, j: nat) {
    && IsLeaseRow(r, j) && r.leases[j].ip == ip
    && forall k: nat | j < k && IsLeaseRow(r, k) :: r.leases[k].ip != ip
  }

  /** The last such row of a MAC. */
  ghost predicate IsLeaseRowOf(r: Reading, mac: Mac, j: nat) {
    && IsLeaseRow(r, j) && r.leases[j].mac == mac
    && forall k: nat | j < k && IsLeaseRow(r, k) :: r.leases[k].mac != mac
  }

  predicate IsUsable(n: Neighbor) {
    n.state == "REACHABLE" || n.state == "STALE" || n.state == "PERMANENT"
  }

  /** The address of neighbour row i is leased to the MAC. */
  ghost predicate IsLeasedTo(r: Reading, ip: Ip, mac: Mac) {
    exists j: nat | j < |r.leases| :: IsLeaseRowAt(r, ip, j) && r.leases[j].mac == mac
  }

  ghost predicate IsUnleased(r: Reading, ip: Ip) {
    forall j: nat | IsLeaseRow(r, j) :: r.leases[j].ip != ip
  }

  /** The MAC answers for an address that is leased to another one. */
  ghost predicate AnswersForOthers(r: Reading, mac: Mac) {
    exists i, other | 0 <= i < |r.neighbors| && IsLeasedTo(r, r.neighbors[i].ip, other) ::
      IsUsable(r.neighbors[i]) && IsMacText(mac) && r.neighbors[i].mac == mac && other != mac
  }

  /** A capture names the MAC, with no source address or with exactly this one. */
  ghost predicate IsSeenAt(r: Reading, mac: Mac, ip: Ip) {
    exists c | c in r.captures ::
      && c.mac == mac && IsMacText(mac)
      && (c.sourceIp == None || (c.sourceIp == Some(ip) && ip != "0.0.0.0" && exists n :: IsAddress(ip, n)))
  }

  // ----- The validator's tests are these rows -----

  lemma LanByText(ip: Ip, subnet: Subnet)
    ensures IsInLan(ip, subnet) <==> IsLanText(ip, subnet)
  {
    hide IpToNumber, IsInSubnet, RangeOf, IsAddress;
    if subnet.IsValid() {
      if IpToNumber(ip).Some? {
        var n := IpToNumber(ip).value;
        AddressByText(ip, n);
        AddressIsWord(ip, n);
        MaskMembershipIsInterval(n, subnet);
      }
      forall n: nat | IsAddress(ip, n)
        ensures IpToNumber(ip) == Some(n)
      {
        AddressByText(ip, n);
      }
    }
  }

  lemma AddressIsWord(ip: Ip, n: nat)
    requires IsAddress(ip, n)
    ensures n < 0x1_0000_0000
  {
    hide IsDecimal;
    var a, b, c, d, v, w, x, y :| AreOctetsOf(a, b, c, d, v, w, x, y, ip, n);
  }

  lemma LiveByRow(r: Reading, j: nat)
    requires j < |r.leases|
    ensures IsLive(r.leases[j], r) <==> IsLeaseRow(r, j)
  {
    hide IsMac, IsMacText, IsInLan, IsLanText;
    MacByText(r.leases[j].mac);
    LanByText(r.leases[j].ip, r.subnet);
  }

  lemma LeaseRowAtOneMore(r: Reading, front: Reading, ip: Ip)
    requires r.leases != [] && front == r.(leases := r.leases[..|r.leases| - 1])
    ensures var n := |r.leases| - 1;
            forall j: nat :: IsLeaseRowAt(r, ip, j) <==>
              if IsLeaseRow(r, n) && r.leases[n].ip == ip then j == n else IsLeaseRowAt(front, ip, j)
  {
    hide IsMacText, IsLanText;
    var n := |r.leases| - 1;
    forall j: nat
      ensures IsLeaseRow(front, j) <==> IsLeaseRow(r, j) && j < n
      ensures IsLeaseRow(r, j) ==> j <= n
    {
    }
    assert forall j | 0 <= j < n :: front.leases[j] == r.leases[j];
    hide IsLeaseRow;
  }

  lemma LeaseRowOfOneMore(r: Reading, front: Reading, mac: Mac)
    requires r.leases != [] && front == r.(leases := r.leases[..|r.leases| - 1])
    ensures var n := |r.leases| - 1;
            forall j: nat :: IsLeaseRowOf(r, mac, j) <==>
              if IsLeaseRow(r, n) && r.leases[n].mac == mac then j == n else IsLeaseRowOf(front, mac, j)
  {
    hide IsMacText, IsLanText;
    var n := |r.leases| - 1;
    forall j: nat
      ensures IsLeaseRow(front, j) <==> IsLeaseRow(r, j) && j < n
      ensures IsLeaseRow(r, j) ==> j <= n
    {
    }
    assert forall j | 0 <= j < n :: front.leases[j] == r.leases[j];
    hide IsLeaseRow;
  }

  /** Whether a lease counts depends on the reading's time and network alone. */
  lemma {:induction false} LeaseAtIgnoresLeases(leases: seq<Lease>, r: Reading, front: Reading, ip: Ip, mac: Mac)
    requires front.now == r.now && front.subnet == r.subnet
    ensures LeaseAt(leases, front, ip) == LeaseAt(leases, r, ip)
    ensures LeaseOf(leases, front, mac) == LeaseOf(leases, r, mac)
  {
    hide IsMac, IsInLan;
    if leases != [] {
      LeaseAtIgnoresLeases(leases[..|leases| - 1], r, front, ip, mac);
    }
  }

  lemma LeaseAtStep(r: Reading, front: Reading, ip: Ip)
    requires r.leases != [] && front == r.(leases := r.leases[..|r.leases| - 1])
    ensures var n := |r.leases| - 1;
            LeaseAt(r.leases, r, ip) ==
            if IsLeaseRow(r, n) && r.leases[n].ip == ip then Some(r.leases[n]) else LeaseAt(front.leases, front, ip)
  {
    LeaseAtIgnoresLeases(front.leases, r, front, ip, "");
    LiveByRow(r, |r.leases| - 1);
    hide IsLeaseRow, IsLive;
  }

  lemma {:induction false} LeaseAtByRows(r: Reading, ip: Ip)
    ensures LeaseAt(r.leases, r, ip).Some? <==> exists j: nat :: IsLeaseRowAt(r, ip, j)
    ensures forall j: nat | IsLeaseRowAt(r, ip, j) ::
              j < |r.leases| && LeaseAt(r.leases, r, ip) == Some(r.leases[j])
    decreases |r.leases|
  {
    hide IsMacText, IsLanText, IsMac, IsInLan;
    if r.leases != [] {
      var n := |r.leases| - 1;
      var front := r.(leases := r.leases[..n]);
      LeaseAtByRows(front, ip);
      LeaseAtStep(r, front, ip);
      LeaseRowAtOneMore(r, front, ip);
      hide IsLeaseRowAt, IsLeaseRow, LeaseAt;
      if IsLeaseRow(r, n) && r.leases[n].ip == ip {
        assert IsLeaseRowAt(r, ip, n);
      } else {
        assert forall j: nat :: IsLeaseRowAt(r, ip, j) <==> IsLeaseRowAt(front, ip, j);
      }
    }
  }

  lemma LeaseOfStep(r: Reading, front: Reading, mac: Mac)
    requires r.leases != [] && front == r.(leases := r.leases[..|r.leases| - 1])
    ensures var n := |r.leases| - 1;
            LeaseOf(r.leases, r, mac) ==
            if IsLeaseRow(r, n) && r.leases[n].mac == mac then Some(r.leases[n]) else LeaseOf(front.leases, front, mac)
  {
    LeaseAtIgnoresLeases(front.leases, r, front, "", mac);
    LiveByRow(r, |r.leases| - 1);
    hide IsLeaseRow, IsLive;
  }

  lemma {:induction false} LeaseOfByRows(r: Reading, mac: Mac)
    ensures LeaseOf(r.leases, r, mac).Some? <==> exists j: nat :: IsLeaseRowOf(r, mac, j)
    ensures forall j: nat | IsLeaseRowOf(r, mac, j) ::
              j < |r.leases| && LeaseOf(r.leases, r, mac) == Some(r.leases[j])
    decreases |r.leases|
  {
    hide IsMacText, IsLanText, IsMac, IsInLan;
    if r.leases != [] {
      var n := |r.leases| - 1;
      var front := r.(leases := r.leases[..n]);
      LeaseOfByRows(front, mac);
      LeaseOfStep(r, front, mac);
      LeaseRowOfOneMore(r, front, mac);
      hide IsLeaseRowOf, IsLeaseRow, LeaseOf;
      if IsLeaseRow(r, n) && r.leases[n].mac == mac {
        assert IsLeaseRowOf(r, mac, n);
      } else {
        assert forall j: nat :: IsLeaseRowOf(r, mac, j) <==> IsLeaseRowOf(front, mac, j);
      }
    }
  }

  lemma {:induction false} SomeRowIsLast(r: Reading, ip: Ip, j: nat)
    requires IsLeaseRow(r, j) && r.leases[j].ip == ip
    ensures exists k: nat :: IsLeaseRowAt(r, ip, k)
    decreases |r.leases| - j
  {
    hide IsMacText, IsLanText;
    if k: nat :| j < k && IsLeaseRow(r, k) && r.leases[k].ip == ip {
      SomeRowIsLast(r, ip, k);
    } else {
      assert IsLeaseRowAt(r, ip, j);
    }
  }

  lemma LeasedByRows(r: Reading, ip: Ip, mac: Mac)
    ensures IsLeasedTo(r, ip, mac) <==> LeaseAt(r.leases, r, ip).Some? && LeaseAt(r.leases, r, ip).value.mac == mac
    ensures IsUnleased(r, ip) <==> LeaseAt(r.leases, r, ip).None?
  {
    hide IsMacText, IsLanText, LeaseAt;
    LeaseAtByRows(r, ip);
    if j: nat :| IsLeaseRow(r, j) && r.leases[j].ip == ip {
      SomeRowIsLast(r, ip, j);
    }
  }

  lemma ProxyByRows(r: Reading, mac: Mac)
    ensures IsProxy(r, mac) <==> AnswersForOthers(r, mac)
  {
    hide IsMac, IsMacText, LeaseAt, IsLeasedTo;
    MacByText(mac);
    forall ip, other
      ensures IsLeasedTo(r, ip, other) <==>
                LeaseAt(r.leases, r, ip).Some? && LeaseAt(r.leases, r, ip).value.mac == other
    {
      LeasedByRows(r, ip, other);
    }
    if n :| n in r.neighbors && ActsAsProxy(n, r) && n.mac == mac {
      var i :| 0 <= i < |r.neighbors| && r.neighbors[i] == n;
      assert IsLeasedTo(r, r.neighbors[i].ip, LeaseAt(r.leases, r, n.ip).value.mac);
    }
    if i, other :| 0 <= i < |r.neighbors| && IsLeasedTo(r, r.neighbors[i].ip, other)
                   && IsUsable(r.neighbors[i]) && IsMacText(mac) && r.neighbors[i].mac == mac && other != mac {
      assert ActsAsProxy(r.neighbors[i], r) && r.neighbors[i] in r.neighbors;
    }
  }

  lemma ConfirmedByRows(r: Reading, mac: Mac, ip: Ip)
    ensures IsConfirmed(r, mac, ip) <==> IsSeenAt(r, mac, ip)
  {
    hide IsMac, IsMacText, IpToNumber, IsAddress;
    MacByText(mac);
    if IpToNumber(ip).Some? {
      AddressByText(ip, IpToNumber(ip).value);
    }
    forall n | IsAddress(ip, n)
      ensures IpToNumber(ip).Some?
    {
      AddressByText(ip, n);
    }
  }

  // ----- What is reported -----

  /** Neighbour row i is usable and names a MAC and an address of the network. */
  ghost predicate IsHeardRow(r: Reading, i: nat) {
    && i < |r.neighbors| && IsUsable(r.neighbors[i])
    && IsMacText(r.neighbors[i].mac) && IsLanText(r.neighbors[i].ip, r.subnet)
  }

  /** Neighbour row i tells of the MAC: it has the MAC's leased address, or an unleased one and the MAC itself. */
  ghost predicate TellsOf(r: Reading, i: nat, mac: Mac) {
    && IsHeardRow(r, i)
    && (IsLeasedTo(r, r.neighbors[i].ip, mac)
        || (IsUnleased(r, r.neighbors[i].ip) && r.neighbors[i].mac == mac && !AnswersForOthers(r, mac)))
  }

  ghost predicate IsFirstToTell(r: Reading, i: nat, mac: Mac) {
    TellsOf(r, i, mac) && forall j: nat | j < i :: !TellsOf(r, j, mac)
  }

  lemma AboutByRows(r: Reading, i: nat, mac: Mac)
    ensures About(r, i) == Some(mac) <==> TellsOf(r, i, mac)
  {
    hide IsMac, IsMacText, IsInLan, IsLanText, LeaseAt, IsLeasedTo, IsUnleased, IsProxy, AnswersForOthers;
    if i < |r.neighbors| {
      MacByText(r.neighbors[i].mac);
      LanByText(r.neighbors[i].ip, r.subnet);
      LeasedByRows(r, r.neighbors[i].ip, mac);
      ProxyByRows(r, mac);
    }
  }

  /** What a neighbour row says of a leased device: it is validated by its own MAC or by a capture. */
  ghost predicate IsTold(id: Identity, r: Reading, n: Neighbor) {
    var own, seen := n.mac == id.mac, IsSeenAt(r, id.mac, n.ip);
    && id.ip == n.ip && id.neighborState == n.state
    && (id.l2Visible <==> own)
    && (id.validated <==> own || seen)
    && (id.deferred <==> !own && !seen)
    && id.proxyMac == (if own then None else Some(n.mac))
    && id.source == (if own then Dhcp
                     else if seen then DhcpConfirmedProxy
                     else if id.mac in r.renewals then ProxyUnconfirmed
                     else Dhcp)
  }

  /** The identity is what the rows say about its MAC. */
  ghost predicate IsByRows(id: Identity, r: Reading) {
    || (exists i: nat | i < |r.neighbors| && IsFirstToTell(r, i, id.mac) ::
          if IsUnleased(r, r.neighbors[i].ip)
          then id == Identity(id.mac, r.neighbors[i].ip, r.neighbors[i].state, true, None, true, StaticArp, false)
          else IsTold(id, r, r.neighbors[i]))
    || (exists j: nat | j < |r.leases| && IsLeaseRowOf(r, id.mac, j) ::
          && (forall i: nat :: !TellsOf(r, i, id.mac))
          && id == Identity(id.mac, r.leases[j].ip, "UNOBSERVED", false, None, false, Dhcp, true))
  }

  lemma ReportedByRows(id: Identity, r: Reading)
    requires IsReported(id, r)
    ensures IsByRows(id, r)
  {
    hide About, LeaseAt, TellsOf, IsUnleased, IsConfirmed, IsSeenAt;
    var i: nat :| i < |r.neighbors| && IsFirstAbout(r, i, id.mac) && id == IdentityAt(r, i, id.mac);
    forall j: nat
      ensures About(r, j) == Some(id.mac) <==> TellsOf(r, j, id.mac)
    {
      AboutByRows(r, j, id.mac);
    }
    assert IsFirstToTell(r, i, id.mac);
    LeasedByRows(r, r.neighbors[i].ip, id.mac);
    ConfirmedByRows(r, id.mac, r.neighbors[i].ip);
    if LeaseAt(r.leases, r, r.neighbors[i].ip).None? {
      StaticIsOwn(r, i, id.mac);
    }
  }

  lemma StaticIsOwn(r: Reading, i: nat, mac: Mac)
    requires i < |r.neighbors| && About(r, i) == Some(mac) && LeaseAt(r.leases, r, r.neighbors[i].ip).None?
    ensures r.neighbors[i].mac == mac
  {
    hide IsHeard, LeaseAt, IsProxy;
  }

  /**
   Every identity that validation lists is what the rows say: the first neighbour row that
   tells of its MAC decides, and without one its last lease row leaves it unobserved.
   */
  lemma IdentityByRows(id: Identity, r: Reading)
    requires IsReported(id, r) || IsUnseen(id, r)
    ensures IsByRows(id, r)
  {
    hide IsReported, LeaseOf, About, IsLeaseRowOf, TellsOf, IsTold, IsFirstToTell, IsUnleased;
    if IsReported(id, r) {
      hide IsByRows;
      ReportedByRows(id, r);
    } else {
      LeaseOfByRows(r, id.mac);
      var j: nat :| IsLeaseRowOf(r, id.mac, j);
      forall i: nat
        ensures !TellsOf(r, i, id.mac)
      {
        AboutByRows(r, i, id.mac);
      }
      LeaseOfIsOf(r.leases, r, id.mac);
    }
  }

  /** A MAC is listed exactly when a neighbour row tells of it or a lease row names it. */
  lemma ListedByRows(r: Reading, mac: Mac)
    ensures (exists i: nat :: i < |r.neighbors| && About(r, i) == Some(mac)) || LeaseOf(r.leases, r, mac).Some? <==>
            (exists i: nat :: TellsOf(r, i, mac)) || (exists j: nat :: IsLeaseRowOf(r, mac, j))
  {
    hide About, LeaseOf, IsLeaseRowOf;
    LeaseOfByRows(r, mac);
    forall i: nat
      ensures About(r, i) == Some(mac) <==> TellsOf(r, i, mac)
      ensures TellsOf(r, i, mac) ==> i < |r.neighbors|
    {
      AboutByRows(r, i, mac);
    }
    hide TellsOf;
  }
}
