/**
 One consistent reading of the world outside the two blocked-IP passes: the
 device rows, their policies, the DHCP leases, the neighbour table and the
 passive captures. MAC and IP texts are already trimmed and lower-cased.
 */
module Observations {
  import opened Common

  type Mac = string
  type Ip = string

  datatype IdentitySource =
    | Dhcp
    | DhcpConfirmedProxy
    | StaticArp
    | ProxyUnconfirmed
    | ProxyAcceptedByAdmin

  datatype Lease = Lease(expiry: int, mac: Mac, ip: Ip)

  datatype Neighbor = Neighbor(ip: Ip, mac: Mac, state: string)

  datatype Capture = Capture(mac: Mac, sourceIp: Option<Ip>)

  datatype Device = Device(
    id: nat,
    mac: Mac,
    l2Visible: bool,
    proxyMac: Option<Mac>,
    identityValidated: bool,
    identitySource: IdentitySource)

  datatype Snapshot = Snapshot(
    devices: seq<Device>,
    blockedIds: set<nat>,
    leases: seq<Lease>,
    neighbors: seq<Neighbor>,
    captures: seq<Capture>,
    now: int)

  predicate IsLeaseActive(lease: Lease, now: int) {
    lease.expiry == 0 || lease.expiry > now
  }

  predicate IsUsableState(state: string) {
    state in {"REACHABLE", "STALE", "PERMANENT"}
  }

  /** A lookup whose empty answers count as absent, as in a truthiness test. */
  function Lookup(m: map<string, string>, key: string): Option<string> {
    if key in m && m[key] != "" then Some(m[key]) else None
  }

  /** The last row with a given id wins, as when a Map is built from pairs. */
  function DeviceById(devices: seq<Device>, id: nat): Option<Device> {
    if devices == [] then None
    else if devices[|devices| - 1].id == id then Some(devices[|devices| - 1])
    else DeviceById(devices[..|devices| - 1], id)
  }

  /** Active leases as MAC to IP; the blocked-IP pass skips blank fields, the lifecycle pass does not. */
  function LeaseIpByMac(leases: seq<Lease>, now: int, skipBlank: bool): map<Mac, Ip> {
    if leases == [] then map[]
    else
      var rest := LeaseIpByMac(leases[..|leases| - 1], now, skipBlank);
      var last := leases[|leases| - 1];
      if IsLeaseActive(last, now) && (skipBlank ==> last.mac != "" && last.ip != "")
      then rest[last.mac := last.ip] else rest
  }

  function LeaseMacByIp(leases: seq<Lease>, now: int, skipBlank: bool): map<Ip, Mac> {
    if leases == [] then map[]
    else
      var rest := LeaseMacByIp(leases[..|leases| - 1], now, skipBlank);
      var last := leases[|leases| - 1];
      if IsLeaseActive(last, now) && (skipBlank ==> last.mac != "" && last.ip != "")
      then rest[last.ip := last.mac] else rest
  }

  function NeighborMacByIp(neighbors: seq<Neighbor>): map<Ip, Mac> {
    if neighbors == [] then map[]
    else
      var rest := NeighborMacByIp(neighbors[..|neighbors| - 1]);
      var last := neighbors[|neighbors| - 1];
      if IsUsableState(last.state) && last.mac != "" && last.ip != ""
      then rest[last.ip := last.mac] else rest
  }

  /** Active leases pair each MAC with one IP and each IP with one MAC. */
  predicate OneToOneLeases(s: Snapshot) {
    forall a, b | a in s.leases && b in s.leases && IsLeaseActive(a, s.now) && IsLeaseActive(b, s.now) ::
      a.mac == b.mac <==> a.ip == b.ip
  }

  /** Device ids are primary keys. */
  predicate UniqueIds(devices: seq<Device>) {
    forall i, j | 0 <= i < j < |devices| :: devices[i].id != devices[j].id
  }

  /** The IP that DHCP currently gives this MAC. */
  function LeasedIp(s: Snapshot, mac: Mac): Option<Ip> {
    Lookup(LeaseIpByMac(s.leases, s.now, true), mac)
  }

  /** The MAC to which DHCP currently gives this IP. */
  function LeaseOwner(s: Snapshot, ip: Ip): Option<Mac> {
    Lookup(LeaseMacByIp(s.leases, s.now, true), ip)
  }

  /** Every entry of either lease map comes from an active lease, and every such lease has an entry. */
  lemma LeaseMapEntries(leases: seq<Lease>, now: int, skipBlank: bool)
    ensures forall mac | mac in LeaseIpByMac(leases, now, skipBlank) ::
              exists l :: l in leases && IsLeaseActive(l, now) && (skipBlank ==> l.mac != "" && l.ip != "")
                          && l.mac == mac && l.ip == LeaseIpByMac(leases, now, skipBlank)[mac]
    ensures forall ip | ip in LeaseMacByIp(leases, now, skipBlank) ::
              exists l :: l in leases && IsLeaseActive(l, now) && (skipBlank ==> l.mac != "" && l.ip != "")
                          && l.ip == ip && l.mac == LeaseMacByIp(leases, now, skipBlank)[ip]
    ensures forall l | l in leases && IsLeaseActive(l, now) && (skipBlank ==> l.mac != "" && l.ip != "") ::
              l.mac in LeaseIpByMac(leases, now, skipBlank) && l.ip in LeaseMacByIp(leases, now, skipBlank)
  {
    hide LeaseIpByMac, LeaseMacByIp, IsLeaseActive;
    LeaseIpEntries(leases, now, skipBlank);
    LeaseMacEntries(leases, now, skipBlank);
  }

  lemma {:induction false} LeaseIpEntries(leases: seq<Lease>, now: int, skipBlank: bool)
    ensures forall mac | mac in LeaseIpByMac(leases, now, skipBlank) ::
              exists l :: l in leases && IsLeaseActive(l, now) && (skipBlank ==> l.mac != "" && l.ip != "")
                          && l.mac == mac && l.ip == LeaseIpByMac(leases, now, skipBlank)[mac]
    ensures forall l | l in leases && IsLeaseActive(l, now) && (skipBlank ==> l.mac != "" && l.ip != "") ::
              l.mac in LeaseIpByMac(leases, now, skipBlank)
  {
    hide IsLeaseActive;
    if leases != [] {
      var front := leases[..|leases| - 1];
      LeaseIpEntries(front, now, skipBlank);
      assert leases == front + [leases[|leases| - 1]];
    }
  }

  lemma {:induction false} LeaseMacEntries(leases: seq<Lease>, now: int, skipBlank: bool)
    ensures forall ip | ip in LeaseMacByIp(leases, now, skipBlank) ::
              exists l :: l in leases && IsLeaseActive(l, now) && (skipBlank ==> l.mac != "" && l.ip != "")
                          && l.ip == ip && l.mac == LeaseMacByIp(leases, now, skipBlank)[ip]
    ensures forall l | l in leases && IsLeaseActive(l, now) && (skipBlank ==> l.mac != "" && l.ip != "") ::
              l.ip in LeaseMacByIp(leases, now, skipBlank)
  {
    hide IsLeaseActive;
    if leases != [] {
      var front := leases[..|leases| - 1];
      LeaseMacEntries(front, now, skipBlank);
      assert leases == front + [leases[|leases| - 1]];
    }
  }

  /** With one-to-one leases the two directions are inverse. */
  lemma LeasesAreInverse(s: Snapshot, mac: Mac, ip: Ip)
    requires OneToOneLeases(s)
    ensures LeasedIp(s, mac) == Some(ip) <==> LeaseOwner(s, ip) == Some(mac)
  {
    LeaseMapEntries(s.leases, s.now, true);
  }

  /** With one-to-one leases the two passes read the same lease facts despite their different blank handling. */
  lemma PassesReadTheSameLeases(s: Snapshot, key: string)
    requires OneToOneLeases(s) && key != ""
    ensures Lookup(LeaseIpByMac(s.leases, s.now, false), key) == LeasedIp(s, key)
    ensures Lookup(LeaseMacByIp(s.leases, s.now, false), key) == LeaseOwner(s, key)
  {
    SameLeasedIp(s, key);
    SameLeaseOwner(s, key);
  }

  lemma SameLeasedIp(s: Snapshot, mac: Mac)
    requires OneToOneLeases(s) && mac != ""
    ensures Lookup(LeaseIpByMac(s.leases, s.now, false), mac) == LeasedIp(s, mac)
  {
    hide LeaseIpByMac, IsLeaseActive;
    LeaseIpEntries(s.leases, s.now, true);
    LeaseIpEntries(s.leases, s.now, false);
  }

  lemma SameLeaseOwner(s: Snapshot, ip: Ip)
    requires OneToOneLeases(s) && ip != ""
    ensures Lookup(LeaseMacByIp(s.leases, s.now, false), ip) == LeaseOwner(s, ip)
  {
    hide LeaseMacByIp, IsLeaseActive;
    LeaseMacEntries(s.leases, s.now, true);
    LeaseMacEntries(s.leases, s.now, false);
  }

  lemma {:induction false} DeviceByIdIsMember(devices: seq<Device>, id: nat)
    ensures DeviceById(devices, id).Some? ==>
              DeviceById(devices, id).value in devices && DeviceById(devices, id).value.id == id
  {
    if devices != [] && devices[|devices| - 1].id != id {
      DeviceByIdIsMember(devices[..|devices| - 1], id);
    }
  }

  lemma {:induction false} DeviceByIdFinds(devices: seq<Device>, d: Device)
    requires UniqueIds(devices) && d in devices
    ensures DeviceById(devices, d.id) == Some(d)
  {
    var front, last := devices[..|devices| - 1], devices[|devices| - 1];
    if last.id != d.id {
      DeviceByIdFinds(front, d);
    } else {
      var i :| 0 <= i < |devices| && devices[i] == d;
    }
  }
}
