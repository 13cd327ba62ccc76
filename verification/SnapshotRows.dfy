/**
 What the two blocked-IP passes decide, said of the rows of the snapshot themselves: which
 lease, neighbour and capture rows prove a device present, which make a binding follow its
 device, and which say nothing.
 */
module SnapshotRows {
  import opened Common
  import opened Observations
  import opened BindingEffects
  import BlockedIpPlan
  import LifecyclePlan
  import opened Convergence

  // ----- The last row that counts -----

  /** Lease row i has no end or its end is to come; the blocked-IP pass wants both its fields filled too. */
  predicate IsLive(s: Snapshot, i: nat, filled: bool) {
    && i < |s.leases| && (s.leases[i].expiry == 0 || s.now < s.leases[i].expiry)
    && (filled ==> s.leases[i].mac != "" && s.leases[i].ip != "")
  }

  /** Row i is the last live lease of the MAC. */
  ghost predicate IsLastOfMac(s: Snapshot, mac: Mac, i: nat, filled: bool) {
    && IsLive(s, i, filled) && s.leases[i].mac == mac
    && forall j: nat | i < j && IsLive(s, j, filled) :: s.leases[j].mac != mac
  }

  /** Row i is the last live lease of the IP. */
  ghost predicate IsLastOfIp(s: Snapshot, ip: Ip, i: nat, filled: bool) {
    && IsLive(s, i, filled) && s.leases[i].ip == ip
    && forall j: nat | i < j && IsLive(s, j, filled) :: s.leases[j].ip != ip
  }

  /** Neighbour row i is a usable entry with both fields filled. */
  predicate IsHeard(s: Snapshot, i: nat) {
    && i < |s.neighbors| && s.neighbors[i].mac != "" && s.neighbors[i].ip != ""
    && (s.neighbors[i].state == "REACHABLE" || s.neighbors[i].state == "STALE" || s.neighbors[i].state == "PERMANENT")
  }

  ghost predicate IsLastHeardAt(s: Snapshot, ip: Ip, i: nat) {
    && IsHeard(s, i) && s.neighbors[i].ip == ip
    && forall j: nat | i < j && IsHeard(s, j) :: s.neighbors[j].ip != ip
  }

  // ----- The maps hold the last rows -----

  lemma IsLastOfMacOneMore(s: Snapshot, front: Snapshot, mac: Mac, filled: bool)
    requires s.leases != [] && front == s.(leases := s.leases[..|s.leases| - 1])
    ensures var n := |s.leases| - 1;
            forall i: nat :: IsLastOfMac(s, mac, i, filled) <==>
              if IsLive(s, n, filled) && s.leases[n].mac == mac then i == n else IsLastOfMac(front, mac, i, filled)
  {
    var n := |s.leases| - 1;
    forall i: nat
      ensures IsLive(front, i, filled) <==> IsLive(s, i, filled) && i < n
      ensures IsLive(s, i, filled) ==> i <= n
    {
    }
    assert forall i | 0 <= i < n :: front.leases[i] == s.leases[i];
    hide IsLive;
  }

  lemma {:induction false} IpByMacIsLast(s: Snapshot, mac: Mac, filled: bool)
    ensures mac in LeaseIpByMac(s.leases, s.now, filled) <==> exists i: nat :: IsLastOfMac(s, mac, i, filled)
    ensures forall i: nat | IsLastOfMac(s, mac, i, filled) ::
              && i < |s.leases| && mac in LeaseIpByMac(s.leases, s.now, filled)
              && LeaseIpByMac(s.leases, s.now, filled)[mac] == s.leases[i].ip
    decreases |s.leases|
  {
    if s.leases != [] {
      var front := s.(leases := s.leases[..|s.leases| - 1]);
      IpByMacIsLast(front, mac, filled);
      IsLastOfMacOneMore(s, front, mac, filled);
      hide IsLastOfMac;
      if IsLive(s, |s.leases| - 1, filled) && s.leases[|s.leases| - 1].mac == mac {
        assert IsLastOfMac(s, mac, |s.leases| - 1, filled);
      } else {
        assert forall i: nat :: IsLastOfMac(s, mac, i, filled) <==> IsLastOfMac(front, mac, i, filled);
      }
    }
  }

  lemma IsLastOfIpOneMore(s: Snapshot, front: Snapshot, ip: Ip, filled: bool)
    requires s.leases != [] && front == s.(leases := s.leases[..|s.leases| - 1])
    ensures var n := |s.leases| - 1;
            forall i: nat :: IsLastOfIp(s, ip, i, filled) <==>
              if IsLive(s, n, filled) && s.leases[n].ip == ip then i == n else IsLastOfIp(front, ip, i, filled)
  {
    var n := |s.leases| - 1;
    forall i: nat
      ensures IsLive(front, i, filled) <==> IsLive(s, i, filled) && i < n
      ensures IsLive(s, i, filled) ==> i <= n
    {
    }
    assert forall i | 0 <= i < n :: front.leases[i] == s.leases[i];
    hide IsLive;
  }

  lemma {:induction false} MacByIpIsLast(s: Snapshot, ip: Ip, filled: bool)
    ensures ip in LeaseMacByIp(s.leases, s.now, filled) <==> exists i: nat :: IsLastOfIp(s, ip, i, filled)
    ensures forall i: nat | IsLastOfIp(s, ip, i, filled) ::
              && i < |s.leases| && ip in LeaseMacByIp(s.leases, s.now, filled)
              && LeaseMacByIp(s.leases, s.now, filled)[ip] == s.leases[i].mac
    decreases |s.leases|
  {
    if s.leases != [] {
      var front := s.(leases := s.leases[..|s.leases| - 1]);
      MacByIpIsLast(front, ip, filled);
      IsLastOfIpOneMore(s, front, ip, filled);
      hide IsLastOfIp;
      if IsLive(s, |s.leases| - 1, filled) && s.leases[|s.leases| - 1].ip == ip {
        assert IsLastOfIp(s, ip, |s.leases| - 1, filled);
      } else {
        assert forall i: nat :: IsLastOfIp(s, ip, i, filled) <==> IsLastOfIp(front, ip, i, filled);
      }
    }
  }

  lemma IsLastHeardOneMore(s: Snapshot, front: Snapshot, ip: Ip)
    requires s.neighbors != [] && front == s.(neighbors := s.neighbors[..|s.neighbors| - 1])
    ensures var n := |s.neighbors| - 1;
            forall i: nat :: IsLastHeardAt(s, ip, i) <==>
              if IsHeard(s, n) && s.neighbors[n].ip == ip then i == n else IsLastHeardAt(front, ip, i)
  {
    var n := |s.neighbors| - 1;
    forall i: nat
      ensures IsHeard(front, i) <==> IsHeard(s, i) && i < n
      ensures IsHeard(s, i) ==> i <= n
    {
    }
    assert forall i | 0 <= i < n :: front.neighbors[i] == s.neighbors[i];
    hide IsHeard;
  }

  lemma {:induction false} NeighborIsLast(s: Snapshot, ip: Ip)
    ensures ip in NeighborMacByIp(s.neighbors) <==> exists i: nat :: IsLastHeardAt(s, ip, i)
    ensures forall i: nat | IsLastHeardAt(s, ip, i) ::
              && i < |s.neighbors| && ip in NeighborMacByIp(s.neighbors)
              && NeighborMacByIp(s.neighbors)[ip] == s.neighbors[i].mac
    decreases |s.neighbors|
  {
    if s.neighbors != [] {
      var front := s.(neighbors := s.neighbors[..|s.neighbors| - 1]);
      NeighborIsLast(front, ip);
      IsLastHeardOneMore(s, front, ip);
      hide IsLastHeardAt;
      if IsHeard(s, |s.neighbors| - 1) && s.neighbors[|s.neighbors| - 1].ip == ip {
        assert IsLastHeardAt(s, ip, |s.neighbors| - 1);
      } else {
        assert forall i: nat :: IsLastHeardAt(s, ip, i) <==> IsLastHeardAt(front, ip, i);
      }
    }
  }

  /** The last filled live lease of the MAC is for the IP. */
  ghost predicate Leases(s: Snapshot, mac: Mac, ip: Ip) {
    exists i: nat :: IsLastOfMac(s, mac, i, true) && s.leases[i].ip == ip
  }

  /** The last filled live lease of the IP is the MAC's. */
  ghost predicate Owns(s: Snapshot, mac: Mac, ip: Ip) {
    exists i: nat :: IsLastOfIp(s, ip, i, true) && s.leases[i].mac == mac
  }

  lemma LeasedIpByRows(s: Snapshot, mac: Mac, ip: Ip)
    ensures LeasedIp(s, mac) == Some(ip) <==> Leases(s, mac, ip)
    ensures LeaseOwner(s, ip) == Some(mac) <==> Owns(s, mac, ip)
  {
    hide LeaseIpByMac, LeaseMacByIp;
    IpByMacIsLast(s, mac, true);
    MacByIpIsLast(s, ip, true);
  }

  // ----- Proof of presence -----

  /** The last usable neighbour entry of the IP carries the MAC. */
  ghost predicate IsHeardAs(s: Snapshot, ip: Ip, mac: Mac) {
    exists i: nat :: IsLastHeardAt(s, ip, i) && s.neighbors[i].mac == mac
  }

  /** A capture names the MAC, and no other IP than this one. */
  predicate IsCaptured(s: Snapshot, mac: Mac, ip: Ip) {
    exists c | c in s.captures :: c.mac == mac && (c.sourceIp == None || c.sourceIp == Some(ip))
  }

  /** What the rows say when a device is present at an IP. */
  ghost predicate IsPresent(s: Snapshot, d: Device, ip: Ip) {
    || IsHeardAs(s, ip, d.mac)
    || (d.proxyMac.Some? && IsHeardAs(s, ip, d.proxyMac.value))
    || IsCaptured(s, d.mac, ip)
  }

  lemma ConfirmedByRows(s: Snapshot, d: Device, ip: Ip)
    requires d.proxyMac != Some("")
    ensures BlockedIpPlan.IsConfirmed(s, d, ip) <==> IsPresent(s, d, ip)
  {
    hide NeighborMacByIp;
    NeighborIsLast(s, ip);
    assert forall i: nat | IsLastHeardAt(s, ip, i) :: s.neighbors[i].mac != "";
  }

  /** The device is blocked by policy, validated, hidden at layer 2, and not behind an unconfirmed proxy. */
  predicate IsEnforcedByIp(s: Snapshot, d: Device) {
    && d in s.devices && d.id in s.blockedIds && d.identityValidated && !d.l2Visible
    && d.identitySource != ProxyUnconfirmed
  }

  /** A proxy's MAC is a MAC address, so it is not blank. */
  predicate ProxiesAreNamed(s: Snapshot) {
    forall d | d in s.devices :: d.proxyMac != Some("")
  }

  /** What makes a device's own IP one to block. */
  ghost predicate Expects(s: Snapshot, d: Device, ip: Ip) {
    IsEnforcedByIp(s, d) && Leases(s, d.mac, ip) && IsPresent(s, d, ip)
  }

  lemma ExpectsByRows(s: Snapshot, d: Device, ip: Ip)
    requires d in s.devices && d.proxyMac != Some("")
    ensures BlockedIpPlan.ExpectedIp(s, d) == Some(ip) <==> Expects(s, d, ip)
  {
    hide BlockedIpPlan.IsConfirmed, LeasedIp, IsPresent, Leases;
    LeasedIpByRows(s, d.mac, ip);
    ConfirmedByRows(s, d, ip);
  }

  /**
   An IP is expected exactly when some enforced device leases it, by its last live lease
   row, and is present there: by the last neighbour row of the IP, or by a capture.
   */
  lemma ExpectedByRows(s: Snapshot, ip: Ip)
    requires ProxiesAreNamed(s)
    ensures ip in BlockedIpPlan.Expected(s) <==> exists d :: Expects(s, d, ip)
  {
    assert forall d | Expects(s, d, ip) :: d in s.devices;
    hide BlockedIpPlan.ExpectedIp, Expects;
    forall d | d in s.devices
      ensures BlockedIpPlan.ExpectedIp(s, d) == Some(ip) <==> Expects(s, d, ip)
    {
      ExpectsByRows(s, d, ip);
    }
    assert ip in BlockedIpPlan.Expected(s) <==> ip in BlockedIpPlan.ExpectedOrder(s, s.devices);
  }

  lemma {:induction false} LastToExpectIs(s: Snapshot, devices: seq<Device>, ip: Ip, i: nat)
    requires i < |devices| && BlockedIpPlan.ExpectedIp(s, devices[i]) == Some(ip)
    requires forall j | i < j < |devices| :: BlockedIpPlan.ExpectedIp(s, devices[j]) != Some(ip)
    ensures BlockedIpPlan.LastToExpect(s, devices, ip) == Some(devices[i])
  {
    hide BlockedIpPlan.ExpectedIp;
    if i < |devices| - 1 {
      LastToExpectIs(s, devices[..|devices| - 1], ip, i);
    }
  }

  /** An IP that was not blocked is recorded for the last device that expects it. */
  lemma RecordedByRows(s: Snapshot, st: State, listing: seq<Ip>, ip: Ip, i: nat)
    requires ProxiesAreNamed(s) && IsListing(listing, st.kernel) && ip !in st.kernel
    requires i < |s.devices| && Expects(s, s.devices[i], ip)
    requires forall j | i < j < |s.devices| :: !Expects(s, s.devices[j], ip)
    ensures Binding(s.devices[i].id, ip) in BlockedIpPlan.Pass(s, st, listing).rows
  {
    hide BlockedIpPlan.ExpectedIp, Expects, BlockedIpPlan.LastToExpect, BlockedIpPlan.ExpectedDevices;
    forall j | 0 <= j < |s.devices|
      ensures BlockedIpPlan.ExpectedIp(s, s.devices[j]) == Some(ip) <==> Expects(s, s.devices[j], ip)
    {
      ExpectsByRows(s, s.devices[j], ip);
    }
    LastToExpectIs(s, s.devices, ip, i);
    BlockedIpPlan.LastDeviceIsRecorded(s, s.devices, ip);
    BlockedIpPlan.PassResult(s, st, listing);
    hide BlockedIpPlan.Pass;
  }

  // ----- Evidence for a release -----

  /** The last binding at the IP is the device's. */
  ghost predicate IsBoundTo(s: Snapshot, rows: seq<Binding>, ip: Ip, d: Device) {
    && d in s.devices
    && exists k | 0 <= k < |rows| ::
         && rows[k] == Binding(d.id, ip)
         && forall j | k < j < |rows| :: rows[j].ip != ip
  }

  lemma {:induction false} LastAtIsLast(rows: seq<Binding>, ip: Ip)
    ensures match LastAt(rows, ip)
            case None => forall k | 0 <= k < |rows| :: rows[k].ip != ip
            case Some(b) =>
              exists k | 0 <= k < |rows| :: rows[k] == b && b.ip == ip && forall j | k < j < |rows| :: rows[j].ip != ip
  {
    if rows != [] && rows[|rows| - 1].ip != ip {
      LastAtIsLast(rows[..|rows| - 1], ip);
    }
  }

  lemma BoundByRows(s: Snapshot, rows: seq<Binding>, ip: Ip, d: Device)
    requires UniqueIds(s.devices)
    ensures BlockedIpPlan.BoundDevice(s, rows, ip) == Some(d) <==> IsBoundTo(s, rows, ip, d)
  {
    LastAtIsLast(rows, ip);
    if LastAt(rows, ip).Some? {
      DeviceByIdIsMember(s.devices, LastAt(rows, ip).value.device);
    }
    if d in s.devices {
      DeviceByIdFinds(s.devices, d);
    }
  }

  /** The bound device leases another IP, or the IP is leased to a MAC that is not the bound device's. */
  ghost predicate IsContradicted(s: Snapshot, rows: seq<Binding>, ip: Ip) {
    || (exists d, other :: IsBoundTo(s, rows, ip, d) && Leases(s, d.mac, other) && other != ip)
    || (exists mac :: Owns(s, mac, ip) && forall d | IsBoundTo(s, rows, ip, d) :: d.mac != mac)
  }

  lemma ReleasedByRows(s: Snapshot, rows: seq<Binding>, ip: Ip)
    requires UniqueIds(s.devices)
    ensures BlockedIpPlan.MustRelease(s, rows, ip) <==>
              ip !in BlockedIpPlan.Expected(s) && IsContradicted(s, rows, ip)
  {
    hide LeasedIp, LeaseOwner, Leases, Owns, IsBoundTo, BlockedIpPlan.BoundDevice, BlockedIpPlan.Expected;
    var bound := BlockedIpPlan.BoundDevice(s, rows, ip);
    forall d
      ensures bound == Some(d) <==> IsBoundTo(s, rows, ip, d)
    {
      BoundByRows(s, rows, ip, d);
    }
    forall mac, other
      ensures LeasedIp(s, mac) == Some(other) <==> Leases(s, mac, other)
      ensures LeaseOwner(s, other) == Some(mac) <==> Owns(s, mac, other)
    {
      LeasedIpByRows(s, mac, other);
    }
    if BlockedIpPlan.HasMoved(s, rows, ip) {
      assert IsBoundTo(s, rows, ip, bound.value) && Leases(s, bound.value.mac, LeasedIp(s, bound.value.mac).value);
    }
    if BlockedIpPlan.IsReassigned(s, rows, ip) {
      assert Owns(s, LeaseOwner(s, ip).value, ip);
    }
  }

  /**
   After a whole pass an IP is blocked exactly when the rows prove a device present there, or
   when it was blocked and no lease row contradicts its binding.
   */
  lemma BlockedByRows(s: Snapshot, st: State, listing: seq<Ip>, ip: Ip)
    requires ProxiesAreNamed(s) && UniqueIds(s.devices) && IsListing(listing, st.kernel)
    ensures ip in BlockedIpPlan.Pass(s, st, listing).kernel <==>
              || (exists d :: Expects(s, d, ip))
              || (ip in st.kernel && !IsContradicted(s, st.rows, ip))
  {
    hide Expects, IsContradicted, BlockedIpPlan.Expected;
    ExpectedByRows(s, ip);
    ReleasedByRows(s, st.rows, ip);
    BlockedIpPlan.PassResult(s, st, listing);
    hide BlockedIpPlan.Pass, BlockedIpPlan.MustRelease;
  }

  // ----- What a binding's turn does -----

  /** The last live lease of the IP, filled or not, names another MAC. */
  ghost predicate IsClaimed(s: Snapshot, d: Device, ip: Ip) {
    exists i: nat :: IsLastOfIp(s, ip, i, false) && s.leases[i].mac != "" && s.leases[i].mac != d.mac
  }

  /** The last live lease of the MAC, filled or not, names the IP. */
  ghost predicate IsNowAt(s: Snapshot, d: Device, ip: Ip) {
    exists i: nat :: IsLastOfMac(s, d.mac, i, false) && s.leases[i].ip == ip && ip != ""
  }

  predicate IsManaged(s: Snapshot, d: Device) {
    d in s.devices && d.id in s.blockedIds && d.identityValidated && !d.l2Visible
  }

  /** The calls that end a binding: its IP stays blocked while another binding is there. */
  function EndCalls(b: Binding, rows: seq<Binding>): seq<Effect> {
    if exists x | x in rows :: x != b && x.ip == b.ip then [Release(b.device, b.ip)]
    else [Release(b.device, b.ip), Unblock(b.ip)]
  }

  lemma EndCallsAre(b: Binding, st: State)
    ensures LifecyclePlan.ReleaseThenUnblock(b, st) == EndCalls(b, st.rows)
  {
  }

  lemma ClaimantByRows(s: Snapshot, d: Device, ip: Ip)
    ensures IsClaimed(s, d, ip) <==>
              var claimant := Lookup(LeaseMacByIp(s.leases, s.now, false), ip);
              claimant.Some? && claimant.value != d.mac
  {
    hide LeaseMacByIp, IsLive;
    MacByIpIsLast(s, ip, false);
  }

  lemma CurrentByRows(s: Snapshot, d: Device, ip: Ip)
    ensures IsNowAt(s, d, ip) <==> Lookup(LeaseIpByMac(s.leases, s.now, false), d.mac) == Some(ip)
  {
    hide LeaseIpByMac, IsLive;
    IpByMacIsLast(s, d.mac, false);
  }

  /** The three cases of a binding's turn, by the lease rows. */
  lemma TurnByRows(s: Snapshot, b: Binding, d: Device, st: State)
    requires UniqueIds(s.devices) && d in s.devices && b.device == d.id
    ensures IsManaged(s, d) && IsClaimed(s, d, b.ip) ==> LifecyclePlan.StepCalls(s, b, st) == EndCalls(b, st.rows)
    ensures forall ip | IsManaged(s, d) && !IsClaimed(s, d, b.ip) && IsNowAt(s, d, ip) && ip != b.ip ::
              LifecyclePlan.StepCalls(s, b, st) == [Block(ip), Record(d.id, ip)] + EndCalls(b, st.rows)
    ensures !IsManaged(s, d) || (!IsClaimed(s, d, b.ip) && forall ip | IsNowAt(s, d, ip) :: ip == b.ip) ==>
              LifecyclePlan.StepCalls(s, b, st) == []
  {
    hide LeaseIpByMac, LeaseMacByIp, IsClaimed, IsNowAt, LifecyclePlan.ReleaseThenUnblock, Replay;
    DeviceByIdFinds(s.devices, d);
    ClaimantByRows(s, d, b.ip);
    EndCallsAre(b, st);
    var current := Lookup(LeaseIpByMac(s.leases, s.now, false), d.mac);
    forall ip
      ensures IsNowAt(s, d, ip) <==> current == Some(ip)
    {
      CurrentByRows(s, d, ip);
    }
    if current.Some? && current.value != b.ip {
      var follow := [Block(current.value), Record(d.id, current.value)];
      BlockedIpPlan.ReplayTwo(follow[0], follow[1], st);
      EndCallsAre(b, Replay(follow, st));
      assert EndCalls(b, Replay(follow, st).rows) == EndCalls(b, st.rows);
    }
  }

  // ----- What a pass does to a binding -----

  lemma EndResult(b: Binding, st: State)
    ensures var r := Replay(EndCalls(b, st.rows), st);
            && r.rows == Without(st.rows, b)
            && (forall ip | ip in st.kernel && ip !in r.kernel :: ip == b.ip && !IsBound(r.rows, ip))
            && r.kernel <= st.kernel
  {
    if |EndCalls(b, st.rows)| == 2 {
      BlockedIpPlan.ReplayTwo(Release(b.device, b.ip), Unblock(b.ip), st);
    } else {
      BlockedIpPlan.ReplayOne(Release(b.device, b.ip), st);
    }
  }

  lemma FollowResult(b: Binding, target: Binding, st: State)
    requires target.ip != b.ip
    ensures var r := Replay([Block(target.ip), Record(target.device, target.ip)] + EndCalls(b, st.rows), st);
            && (forall x :: x in r.rows <==> (x in st.rows || x == target) && x != b)
            && target.ip in r.kernel
            && (forall ip | ip in st.kernel && ip !in r.kernel :: ip == b.ip && !IsBound(r.rows, ip))
  {
    var follow := [Block(target.ip), Record(target.device, target.ip)];
    BlockedIpPlan.ReplayTwo(follow[0], follow[1], st);
    var mid := Replay(follow, st);
    assert EndCalls(b, mid.rows) == EndCalls(b, st.rows);
    EndResult(b, mid);
    ReplayConcat(follow, EndCalls(b, st.rows), st);
  }

  /** One turn: it can only take its own binding away and only bring the current lease of its device. */
  lemma TurnResult(s: Snapshot, b: Binding, st: State)
    requires UniqueIds(s.devices)
    ensures var r := Replay(LifecyclePlan.StepCalls(s, b, st), st);
            && (forall x | x in st.rows && x != b :: x in r.rows)
            && (forall x | x in r.rows && x !in st.rows ::
                  x != b && exists d :: IsManaged(s, d) && d.id == x.device == b.device && IsNowAt(s, d, x.ip))
            && (forall ip | ip in st.kernel && ip !in r.kernel :: ip == b.ip && !IsBound(r.rows, ip))
  {
    assert Replay([], st) == st;
    hide IsNowAt, IsClaimed, EndCalls, LifecyclePlan.StepCalls, Replay;
    DeviceByIdIsMember(s.devices, b.device);
    var found := DeviceById(s.devices, b.device);
    if found.None? {
      NoDeviceNoCalls(s, b, st);
    } else {
      var d := found.value;
      TurnByRows(s, b, d, st);
      EndResult(b, st);
      if IsManaged(s, d) && !IsClaimed(s, d, b.ip) && exists ip :: IsNowAt(s, d, ip) && ip != b.ip {
        var ip :| IsNowAt(s, d, ip) && ip != b.ip;
        FollowResult(b, Binding(d.id, ip), st);
      }
    }
  }

  lemma NoDeviceNoCalls(s: Snapshot, b: Binding, st: State)
    requires DeviceById(s.devices, b.device).None?
    ensures LifecyclePlan.StepCalls(s, b, st) == []
  {
  }

  /** The binding's turn makes no call, whatever the state. */
  ghost predicate IsLeftAlone(s: Snapshot, b: Binding) {
    forall st :: LifecyclePlan.StepCalls(s, b, st) == []
  }

  lemma {:induction false} LeftAloneStays(s: Snapshot, visited: seq<Binding>, st: State, b: Binding)
    requires UniqueIds(s.devices) && IsLeftAlone(s, b) && b in st.rows
    ensures var r := Replay(LifecyclePlan.Plan(s, visited, st), st);
            b in r.rows && (b.ip in st.kernel ==> b.ip in r.kernel)
  {
    assert Replay([], st) == st;
    hide LifecyclePlan.StepCalls, Replay;
    if visited != [] {
      var front, last := visited[..|visited| - 1], visited[|visited| - 1];
      LeftAloneStays(s, front, st, b);
      var plan := LifecyclePlan.Plan(s, front, st);
      var mid := Replay(plan, st);
      ReplayConcat(plan, LifecyclePlan.StepCalls(s, last, mid), st);
      TurnResult(s, last, mid);
      if last == b {
        assert LifecyclePlan.StepCalls(s, b, mid) == [];
        assert plan + [] == plan;
      }
    }
  }

  lemma NowAtOnlyOne(s: Snapshot, d: Device, ip: Ip, other: Ip)
    requires IsNowAt(s, d, ip) && IsNowAt(s, d, other)
    ensures ip == other
  {
    CurrentByRows(s, d, ip);
    CurrentByRows(s, d, other);
  }

  lemma SettledIsLeftAlone(s: Snapshot, d: Device, ip: Ip)
    requires UniqueIds(s.devices) && d in s.devices && IsNowAt(s, d, ip) && !IsClaimed(s, d, ip)
    ensures IsLeftAlone(s, Binding(d.id, ip))
  {
    hide IsNowAt, IsClaimed, LifecyclePlan.StepCalls;
    forall st: State
      ensures LifecyclePlan.StepCalls(s, Binding(d.id, ip), st) == []
    {
      forall other | IsNowAt(s, d, other)
        ensures other == ip
      {
        NowAtOnlyOne(s, d, ip, other);
      }
      TurnByRows(s, Binding(d.id, ip), d, st);
    }
  }

  lemma {:induction false} MovedIsFollowed(s: Snapshot, visited: seq<Binding>, st: State, b: Binding, d: Device, ip: Ip)
    requires UniqueIds(s.devices) && IsManaged(s, d) && b.device == d.id && b in visited
    requires IsNowAt(s, d, ip) && ip != b.ip && !IsClaimed(s, d, b.ip) && !IsClaimed(s, d, ip)
    ensures var r := Replay(LifecyclePlan.Plan(s, visited, st), st);
            Binding(d.id, ip) in r.rows && ip in r.kernel && b !in r.rows
  {
    hide LifecyclePlan.StepCalls, Replay, IsNowAt, IsClaimed, EndCalls;
    var target := Binding(d.id, ip);
    var front, last := visited[..|visited| - 1], visited[|visited| - 1];
    assert visited == front + [last];
    var plan := LifecyclePlan.Plan(s, front, st);
    var mid := Replay(plan, st);
    ReplayConcat(plan, LifecyclePlan.StepCalls(s, last, mid), st);
    if last == b {
      TurnByRows(s, b, d, mid);
      FollowResult(b, target, mid);
    } else {
      MovedIsFollowed(s, front, st, b, d, ip);
      TurnResult(s, last, mid);
      SettledIsLeftAlone(s, d, ip);
      LeftAloneTurn(s, target, last, mid);
      BroughtBackNever(s, last, mid, b, d, ip);
    }
  }

  lemma LeftAloneTurn(s: Snapshot, b: Binding, last: Binding, st: State)
    requires UniqueIds(s.devices) && IsLeftAlone(s, b) && b in st.rows && b.ip in st.kernel
    ensures var r := Replay(LifecyclePlan.StepCalls(s, last, st), st);
            b in r.rows && b.ip in r.kernel
  {
    assert Replay([], st) == st;
    hide LifecyclePlan.StepCalls, Replay;
    TurnResult(s, last, st);
    if last == b {
      assert LifecyclePlan.StepCalls(s, b, st) == [];
    }
  }

  lemma OnlyDevice(s: Snapshot, d: Device)
    requires UniqueIds(s.devices) && d in s.devices
    ensures forall other | IsManaged(s, other) && other.id == d.id :: other == d
  {
    DeviceByIdFinds(s.devices, d);
    forall other | IsManaged(s, other) && other.id == d.id
      ensures other == d
    {
      DeviceByIdFinds(s.devices, other);
    }
  }

  lemma BroughtBackNever(s: Snapshot, last: Binding, st: State, b: Binding, d: Device, ip: Ip)
    requires UniqueIds(s.devices) && d in s.devices && b.device == d.id && b !in st.rows
    requires IsNowAt(s, d, ip) && ip != b.ip
    ensures b !in Replay(LifecyclePlan.StepCalls(s, last, st), st).rows
  {
    hide LifecyclePlan.StepCalls, Replay, IsNowAt;
    TurnResult(s, last, st);
    OnlyDevice(s, d);
    if IsNowAt(s, d, b.ip) {
      NowAtOnlyOne(s, d, ip, b.ip);
    }
  }

  /**
   A binding of a blocked, validated, hidden device whose last live lease row names another
   IP is replaced by one at that IP, which is blocked afterwards, whatever the other bindings
   are, as long as the last live lease row of neither IP names another MAC.
   */
  lemma PassFollowsTheLease(s: Snapshot, st: State, b: Binding, d: Device, ip: Ip)
    requires UniqueIds(s.devices) && IsManaged(s, d) && b in st.rows && b.device == d.id
    requires IsNowAt(s, d, ip) && ip != b.ip && !IsClaimed(s, d, b.ip) && !IsClaimed(s, d, ip)
    ensures var r := LifecyclePlan.Pass(s, st);
            Binding(d.id, ip) in r.rows && ip in r.kernel && b !in r.rows
  {
    MovedIsFollowed(s, st.rows, st, b, d, ip);
  }

  /**
   When every lease row of the device's MAC and every lease row of the binding's IP has run
   out, the pass makes no call for the binding: it stays, and its IP stays blocked.
   */
  lemma RunOutLeasesSayNothing(s: Snapshot, st: State, b: Binding, d: Device)
    requires UniqueIds(s.devices) && d in s.devices && b in st.rows && b.device == d.id
    requires forall i | 0 <= i < |s.leases| && (s.leases[i].mac == d.mac || s.leases[i].ip == b.ip) ::
               s.leases[i].expiry != 0 && s.leases[i].expiry <= s.now
    ensures IsLeftAlone(s, b)
    ensures var r := LifecyclePlan.Pass(s, st);
            b in r.rows && (b.ip in st.kernel ==> b.ip in r.kernel)
  {
    hide LifecyclePlan.StepCalls;
    forall any: State
      ensures LifecyclePlan.StepCalls(s, b, any) == []
    {
      TurnByRows(s, b, d, any);
    }
    LeftAloneStays(s, st.rows, st, b);
  }

  /**
   A binding whose IP a live lease row gives to another MAC is ended, whatever the other
   bindings are, unless the device itself now leases the IP.
   */
  lemma ClaimEndsTheBinding(s: Snapshot, visited: seq<Binding>, st: State, b: Binding, d: Device)
    requires UniqueIds(s.devices) && IsManaged(s, d) && b in visited && b.device == d.id
    requires IsClaimed(s, d, b.ip) && !IsNowAt(s, d, b.ip)
    ensures b !in Replay(LifecyclePlan.Plan(s, visited, st), st).rows
  {
    hide LifecyclePlan.StepCalls, Replay, IsNowAt, IsClaimed, EndCalls;
    var front, last := visited[..|visited| - 1], visited[|visited| - 1];
    assert visited == front + [last];
    var plan := LifecyclePlan.Plan(s, front, st);
    var mid := Replay(plan, st);
    ReplayConcat(plan, LifecyclePlan.StepCalls(s, last, mid), st);
    if last == b {
      TurnByRows(s, b, d, mid);
      EndResult(b, mid);
    } else {
      ClaimEndsTheBinding(s, front, st, b, d);
      TurnResult(s, last, mid);
      OnlyDevice(s, d);
    }
  }
}
