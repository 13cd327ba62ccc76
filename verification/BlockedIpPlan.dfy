/**
 The calls that one blocked-IP pass makes, as a function of its snapshot, the
 binding rows it read and the order in which the kernel listed its set.
 */
module BlockedIpPlan {
  import opened Common
  import opened Observations
  import opened BindingEffects

  /** Blocked by policy, identified, and hidden behind a proxy at layer 2. */
  predicate IsProxyManaged(s: Snapshot, d: Device) {
    d.id in s.blockedIds && d.identityValidated && !d.l2Visible
  }

  /** The proof of presence that lets a leased IP be blocked on a device's behalf. */
  predicate IsConfirmed(s: Snapshot, d: Device, ip: Ip) {
    var owners := NeighborMacByIp(s.neighbors);
    || (ip in owners && owners[ip] == d.mac)
    || (exists c | c in s.captures :: c.mac == d.mac && (c.sourceIp.None? || c.sourceIp.value == ip))
    || (d.proxyMac.Some? && d.proxyMac.value == (if ip in owners then owners[ip] else ""))
  }

  /** The IP that must be blocked for a device, if any. */
  function ExpectedIp(s: Snapshot, d: Device): Option<Ip> {
    if !IsProxyManaged(s, d) || d.identitySource == ProxyUnconfirmed then None
    else
      match LeasedIp(s, d.mac)
      case None => None
      case Some(ip) => if IsConfirmed(s, d, ip) then Some(ip) else None
  }

  /** The expected IPs in the order the device loop first adds them. */
  function ExpectedOrder(s: Snapshot, devices: seq<Device>): (order: seq<Ip>)
    ensures forall ip :: ip in order <==> exists d | d in devices :: ExpectedIp(s, d) == Some(ip)
  {
    if devices == [] then []
    else
      var front := ExpectedOrder(s, devices[..|devices| - 1]);
      var last := ExpectedIp(s, devices[|devices| - 1]);
      assert devices == devices[..|devices| - 1] + [devices[|devices| - 1]];
      if last.Some? && last.value !in front then front + [last.value] else front
  }

  /** The device on whose behalf each expected IP is blocked; a later device replaces an earlier one. */
  function ExpectedDevices(s: Snapshot, devices: seq<Device>): (m: map<Ip, Device>)
    ensures forall ip | ip in m :: m[ip] in devices && ExpectedIp(s, m[ip]) == Some(ip)
    ensures forall ip :: ip in m <==> ip in ExpectedOrder(s, devices)
  {
    if devices == [] then map[]
    else
      var front := ExpectedDevices(s, devices[..|devices| - 1]);
      var last := devices[|devices| - 1];
      if ExpectedIp(s, last).Some? then front[ExpectedIp(s, last).value := last] else front
  }

  lemma OneMoreDevice(s: Snapshot, devices: seq<Device>, i: nat)
    requires i < |devices|
    ensures var ip := ExpectedIp(s, devices[i]);
            && ExpectedOrder(s, devices[..i + 1])
               == (if ip.Some? && ip.value !in ExpectedOrder(s, devices[..i])
                   then ExpectedOrder(s, devices[..i]) + [ip.value] else ExpectedOrder(s, devices[..i]))
            && ExpectedDevices(s, devices[..i + 1])
               == (if ip.Some? then ExpectedDevices(s, devices[..i])[ip.value := devices[i]]
                   else ExpectedDevices(s, devices[..i]))
  {
    hide ExpectedIp;
    assert devices[..i + 1][..i] == devices[..i];
  }

  function Expected(s: Snapshot): set<Ip> {
    ExpectedDevices(s, s.devices).Keys
  }

  /** The device behind the binding seen at an IP. */
  function BoundDevice(s: Snapshot, rows: seq<Binding>, ip: Ip): Option<Device> {
    match LastAt(rows, ip)
    case None => None
    case Some(b) => DeviceById(s.devices, b.device)
  }

  /** DHCP gives the bound device another address. */
  predicate HasMoved(s: Snapshot, rows: seq<Binding>, ip: Ip) {
    var d := BoundDevice(s, rows, ip);
    d.Some? && LeasedIp(s, d.value.mac).Some? && LeasedIp(s, d.value.mac).value != ip
  }

  /** DHCP gives the address to a MAC other than the bound device's. */
  predicate IsReassigned(s: Snapshot, rows: seq<Binding>, ip: Ip) {
    var d := BoundDevice(s, rows, ip);
    LeaseOwner(s, ip).Some? && (d.None? || LeaseOwner(s, ip).value != d.value.mac)
  }

  predicate MustRelease(s: Snapshot, rows: seq<Binding>, ip: Ip) {
    ip !in Expected(s) && (HasMoved(s, rows, ip) || IsReassigned(s, rows, ip))
  }

  function ReleaseCalls(s: Snapshot, rows: seq<Binding>, ip: Ip): seq<Effect> {
    if !MustRelease(s, rows, ip) then []
    else
      match LastAt(rows, ip)
      case None => [Unblock(ip)]
      case Some(b) => [Unblock(ip), Release(b.device, ip)]
  }

  function ReleasePlan(s: Snapshot, rows: seq<Binding>, listing: seq<Ip>): seq<Effect> {
    if listing == [] then []
    else
      ReleasePlan(s, rows, listing[..|listing| - 1]) + ReleaseCalls(s, rows, listing[|listing| - 1])
  }

  function InstallCalls(ip: Ip, device: nat, current: set<Ip>): seq<Effect> {
    if ip in current then [] else [Block(ip), Record(device, ip)]
  }

  function InstallPlan(s: Snapshot, order: seq<Ip>, current: set<Ip>): seq<Effect>
    requires Elements(order) <= Expected(s)
  {
    if order == [] then []
    else
      var ip := order[|order| - 1];
      assert ip in Elements(order);
      InstallPlan(s, order[..|order| - 1], current) + InstallCalls(ip, ExpectedDevices(s, s.devices)[ip].id, current)
  }

  /** The kernel set the pass reads back after its releases. */
  function AfterReleases(s: Snapshot, rows: seq<Binding>, listing: seq<Ip>): set<Ip> {
    set ip | ip in listing && !MustRelease(s, rows, ip)
  }

  function Plan(s: Snapshot, rows: seq<Binding>, listing: seq<Ip>): seq<Effect> {
    ReleasePlan(s, rows, listing) +
    InstallPlan(s, ExpectedOrder(s, s.devices), AfterReleases(s, rows, listing))
  }

  function Pass(s: Snapshot, st: State, listing: seq<Ip>): State {
    Replay(Plan(s, st.rows, listing), st)
  }

  // ----- What a pass achieves -----

  /** State r is st after releasing every released IP of the listing and touching nothing else. */
  ghost predicate AreReleased(s: Snapshot, st: State, listing: seq<Ip>, r: State) {
    && (forall ip :: ip in r.kernel <==> ip in st.kernel && !(ip in listing && MustRelease(s, st.rows, ip)))
    && (forall b | b in r.rows :: b in st.rows)
    && (forall b | b in st.rows && b !in r.rows :: b.ip in listing && MustRelease(s, st.rows, b.ip))
    && (forall ip | !(ip in listing && MustRelease(s, st.rows, ip)) ::
          LastAt(r.rows, ip) == LastAt(st.rows, ip))
  }

  lemma ReleaseCallsResult(s: Snapshot, rows: seq<Binding>, ip: Ip, mid: State)
    requires MustRelease(s, rows, ip)
    ensures var r := Replay(ReleaseCalls(s, rows, ip), mid);
            && r.kernel == mid.kernel - {ip}
            && (forall b | b in r.rows :: b in mid.rows)
            && (forall b | b in mid.rows && b !in r.rows :: b.ip == ip)
            && (forall other | other != ip :: LastAt(r.rows, other) == LastAt(mid.rows, other))
  {
    LastAtIsMember(rows, ip);
    match LastAt(rows, ip) {
      case None =>
        ReplayOne(Unblock(ip), mid);
      case Some(b) =>
        ReplayTwo(Unblock(ip), Release(b.device, ip), mid);
        forall other | other != ip
          ensures LastAt(Without(mid.rows, b), other) == LastAt(mid.rows, other)
        {
          LastAtFrame(mid.rows, b, other);
        }
    }
  }

  lemma NoneReleased(s: Snapshot, st: State)
    ensures AreReleased(s, st, [], Replay([], st))
  {
  }

  /** Releasing one more IP of the listing. */
  lemma ReleaseOne(s: Snapshot, st: State, front: seq<Ip>, ip: Ip, mid: State)
    requires AreReleased(s, st, front, mid)
    ensures AreReleased(s, st, front + [ip], Replay(ReleaseCalls(s, st.rows, ip), mid))
  {
    assert forall x :: x in front + [ip] <==> x in front || x == ip;
    if MustRelease(s, st.rows, ip) {
      ReleaseCallsResult(s, st.rows, ip, mid);
      hide MustRelease, LastAt, Replay, ReleaseCalls;
    }
  }

  lemma {:induction false} ReleasePlanResult(s: Snapshot, st: State, listing: seq<Ip>)
    ensures AreReleased(s, st, listing, Replay(ReleasePlan(s, st.rows, listing), st))
  {
    if listing == [] {
      NoneReleased(s, st);
    } else {
      hide AreReleased, Replay, ReleaseCalls, MustRelease, LastAt;
      var front, ip := listing[..|listing| - 1], listing[|listing| - 1];
      assert listing == front + [ip];
      ReleasePlanResult(s, st, front);
      var plan, calls := ReleasePlan(s, st.rows, front), ReleaseCalls(s, st.rows, ip);
      assert ReleasePlan(s, st.rows, listing) == plan + calls;
      ReplayConcat(plan, calls, st);
      ReleaseOne(s, st, front, ip, Replay(plan, st));
    }
  }

  lemma ReplayOne(e: Effect, st: State)
    ensures Replay([e], st) == Apply(e, st)
  {
    assert [e][..0] == [];
  }

  lemma ReplayTwo(e: Effect, f: Effect, st: State)
    ensures Replay([e, f], st) == Apply(f, Apply(e, st))
  {
    assert [e, f][..1] == [e];
    ReplayOne(e, st);
  }

  /** State r is st after blocking and recording every missing expected IP of the order, and nothing else. */
  ghost predicate AreInstalled(s: Snapshot, st: State, order: seq<Ip>, current: set<Ip>, r: State) {
    && (forall ip :: ip in r.kernel <==> ip in st.kernel || (ip in order && ip !in current))
    && (forall b | b in st.rows :: b in r.rows)
    && (forall b | b in r.rows && b !in st.rows :: IsInstalledBinding(s, b))
    && (forall ip | ip in order && ip !in current && ip in ExpectedDevices(s, s.devices) ::
          Binding(ExpectedDevices(s, s.devices)[ip].id, ip) in r.rows)
    && (forall ip | ip !in Expected(s) :: LastAt(r.rows, ip) == LastAt(st.rows, ip))
  }

  /** A binding that the install loop may record: the device expected at that IP. */
  predicate IsInstalledBinding(s: Snapshot, b: Binding) {
    b.ip in ExpectedDevices(s, s.devices) && b.device == ExpectedDevices(s, s.devices)[b.ip].id
  }

  /** Blocking and recording one more missing expected IP. */
  lemma InstallOne(s: Snapshot, st: State, front: seq<Ip>, ip: Ip, current: set<Ip>, mid: State)
    requires ip in ExpectedDevices(s, s.devices) && ip in Expected(s) && ip !in current
    requires IsInstalledBinding(s, Binding(ExpectedDevices(s, s.devices)[ip].id, ip))
    requires AreInstalled(s, st, front, current, mid)
    ensures var b := Binding(ExpectedDevices(s, s.devices)[ip].id, ip);
            AreInstalled(s, st, front + [ip], current, Apply(Record(b.device, ip), Apply(Block(ip), mid)))
  {
    hide ExpectedDevices, Expected, LastAt, IsInstalledBinding;
    var b := Binding(ExpectedDevices(s, s.devices)[ip].id, ip);
    var rows := if b in mid.rows then mid.rows else mid.rows + [b];
    var r := mid.(kernel := mid.kernel + {ip}, rows := rows);
    assert r == Apply(Record(b.device, ip), Apply(Block(ip), mid));
    hide Apply;
    assert forall x :: x in front + [ip] <==> x in front || x == ip;
    assert forall x :: x in rows <==> x in mid.rows || x == b;
    forall other | other !in Expected(s)
      ensures LastAt(rows, other) == LastAt(mid.rows, other)
    {
      LastAtFrame(mid.rows, b, other);
    }
    InstalledAfter(s, st, front, ip, current, mid, r);
  }

  lemma InstalledAfter(s: Snapshot, st: State, front: seq<Ip>, ip: Ip, current: set<Ip>, mid: State, r: State)
    requires ip in ExpectedDevices(s, s.devices) && ip !in current && AreInstalled(s, st, front, current, mid)
    requires var b := Binding(ExpectedDevices(s, s.devices)[ip].id, ip);
             IsInstalledBinding(s, b) && forall x :: x in r.rows <==> x in mid.rows || x == b
    requires r.kernel == mid.kernel + {ip}
    requires forall other | other !in Expected(s) :: LastAt(r.rows, other) == LastAt(mid.rows, other)
    ensures AreInstalled(s, st, front + [ip], current, r)
  {
    hide ExpectedDevices, Expected, LastAt, IsInstalledBinding;
    assert forall x :: x in front + [ip] <==> x in front || x == ip;
  }

  lemma InstalledAlready(s: Snapshot, st: State, front: seq<Ip>, ip: Ip, current: set<Ip>, mid: State)
    requires ip in current && AreInstalled(s, st, front, current, mid)
    ensures AreInstalled(s, st, front + [ip], current, mid)
  {
    hide ExpectedDevices, Expected, LastAt, IsInstalledBinding;
    assert forall x :: x in front + [ip] <==> x in front || x == ip;
  }

  lemma {:induction false} InstallPlanResult(s: Snapshot, st: State, order: seq<Ip>, current: set<Ip>)
    requires Elements(order) <= Expected(s)
    ensures AreInstalled(s, st, order, current, Replay(InstallPlan(s, order, current), st))
  {
    if order == [] {
      NoneInstalled(s, st, current);
    } else {
      hide ExpectedDevices, AreInstalled, Replay, Apply;
      var front, ip := order[..|order| - 1], order[|order| - 1];
      assert order == front + [ip];
      assert ip in Elements(order);
      InstallPlanResult(s, st, front, current);
      var plan := InstallPlan(s, front, current);
      var mid := Replay(plan, st);
      if ip in current {
        assert InstallPlan(s, order, current) == plan;
        InstalledAlready(s, st, front, ip, current, mid);
      } else {
        var b := Binding(ExpectedDevices(s, s.devices)[ip].id, ip);
        ReplayConcat(plan, [Block(ip), Record(b.device, ip)], st);
        ReplayTwo(Block(ip), Record(b.device, ip), mid);
        InstallOne(s, st, front, ip, current, mid);
      }
    }
  }

  lemma NoneInstalled(s: Snapshot, st: State, current: set<Ip>)
    ensures AreInstalled(s, st, [], current, Replay([], st))
  {
  }

  /**
   The outcome of a successful pass: exactly the initial kernel set, minus the
   unexpected IPs with positive DHCP evidence, plus the expected IPs; bindings
   appear only for expected IPs and disappear only at released ones.
   */
  lemma PassResult(s: Snapshot, st: State, listing: seq<Ip>)
    requires IsListing(listing, st.kernel)
    ensures var r := Pass(s, st, listing);
            && r.kernel == (set ip | ip in st.kernel && !MustRelease(s, st.rows, ip)) + Expected(s)
            && (forall b | b in r.rows && b !in st.rows :: IsInstalledBinding(s, b))
            && (forall b | b in st.rows && b !in r.rows :: b.ip in st.kernel && MustRelease(s, st.rows, b.ip))
            && (forall ip | ip in Expected(s) && ip !in st.kernel ::
                  Binding(ExpectedDevices(s, s.devices)[ip].id, ip) in r.rows)
            && (forall ip | ip !in Expected(s) && (ip !in st.kernel || !MustRelease(s, st.rows, ip)) ::
                  LastAt(r.rows, ip) == LastAt(st.rows, ip))
  {
    var order := ExpectedOrder(s, s.devices);
    ReleasePlanResult(s, st, listing);
    var release := ReleasePlan(s, st.rows, listing);
    var current := AfterReleases(s, st.rows, listing);
    InstallPlanResult(s, Replay(release, st), order, current);
    ReplayConcat(release, InstallPlan(s, order, current), st);
    assert forall ip :: ip in listing <==> ip in st.kernel by {
      assert Elements(listing) == st.kernel;
    }
  }

  /** A missing lease or a quiet device is no evidence: every release names an active lease against the block. */
  lemma ReleaseNeedsPositiveEvidence(s: Snapshot, rows: seq<Binding>, ip: Ip)
    requires MustRelease(s, rows, ip)
    ensures exists l :: l in s.leases && IsLeaseActive(l, s.now) &&
              var d := BoundDevice(s, rows, ip);
              || (d.Some? && l.mac == d.value.mac && l.ip != ip)
              || (l.ip == ip && (d.None? || l.mac != d.value.mac))
  {
    LeaseMapEntries(s.leases, s.now, true);
  }

  lemma {:induction false} ReleasesSpareExpected(s: Snapshot, rows: seq<Binding>, listing: seq<Ip>, ip: Ip)
    requires ip in Expected(s)
    ensures Unblock(ip) !in ReleasePlan(s, rows, listing)
  {
    hide Expected, HasMoved, IsReassigned, LastAt;
    if listing != [] {
      ReleasesSpareExpected(s, rows, listing[..|listing| - 1], ip);
    }
  }

  lemma {:induction false} InstallsUnblockNothing(s: Snapshot, order: seq<Ip>, current: set<Ip>, ip: Ip)
    requires Elements(order) <= Expected(s)
    ensures Unblock(ip) !in InstallPlan(s, order, current)
  {
    hide Expected, ExpectedDevices;
    if order != [] {
      assert Elements(order[..|order| - 1]) <= Elements(order);
      InstallsUnblockNothing(s, order[..|order| - 1], current, ip);
    }
  }

  lemma {:induction false} UnblockedOnlyByUnblock(effects: seq<Effect>, st: State, ip: Ip)
    requires ip in st.kernel && Unblock(ip) !in effects
    ensures ip in Replay(effects, st).kernel
  {
    if effects != [] {
      assert effects == effects[..|effects| - 1] + [effects[|effects| - 1]];
      UnblockedOnlyByUnblock(effects[..|effects| - 1], st, ip);
    }
  }

  /** However far a pass gets before a call fails, an expected IP that was blocked stays blocked. */
  lemma ExpectedIpNeverAbsent(s: Snapshot, st: State, listing: seq<Ip>, done: nat, ip: Ip)
    requires ip in Expected(s) && ip in st.kernel
    requires done <= |Plan(s, st.rows, listing)|
    ensures ip in Replay(Plan(s, st.rows, listing)[..done], st).kernel
  {
    hide ReleasePlan, InstallPlan, Replay, AfterReleases;
    var release := ReleasePlan(s, st.rows, listing);
    var current := AfterReleases(s, st.rows, listing);
    ReleasesSpareExpected(s, st.rows, listing, ip);
    InstallsUnblockNothing(s, ExpectedOrder(s, s.devices), current, ip);
    var plan := release + InstallPlan(s, ExpectedOrder(s, s.devices), current);
    assert plan == plan[..done] + plan[done..];
    UnblockedOnlyByUnblock(plan[..done], st, ip);
  }

  // ----- The order of the calls -----

  /** A binding is released right after its IP is unblocked, and nothing expected is. */
  predicate IsReleaseAt(s: Snapshot, calls: seq<Effect>, i: nat)
    requires i < |calls|
  {
    && (calls[i].Unblock? || (calls[i].Release? && i > 0 && calls[i - 1] == Unblock(calls[i].ip)))
    && calls[i].ip !in Expected(s)
  }

  /** An IP is recorded right after it is blocked, and only an expected one is. */
  predicate IsInstallAt(s: Snapshot, calls: seq<Effect>, i: nat)
    requires i < |calls|
  {
    && (calls[i].Block? || (calls[i].Record? && i > 0 && calls[i - 1] == Block(calls[i].ip)))
    && calls[i].ip in Expected(s)
  }

  predicate AreReleases(s: Snapshot, calls: seq<Effect>) {
    forall i | 0 <= i < |calls| :: IsReleaseAt(s, calls, i)
  }

  predicate AreInstalls(s: Snapshot, calls: seq<Effect>) {
    forall i | 0 <= i < |calls| :: IsInstallAt(s, calls, i)
  }

  lemma ReleasesConcat(s: Snapshot, a: seq<Effect>, b: seq<Effect>)
    requires AreReleases(s, a) && AreReleases(s, b)
    ensures AreReleases(s, a + b)
  {
    hide Expected;
    forall i | 0 <= i < |a + b|
      ensures IsReleaseAt(s, a + b, i)
    {
      assert if i < |a| then IsReleaseAt(s, a, i) else IsReleaseAt(s, b, i - |a|);
    }
  }

  lemma InstallsConcat(s: Snapshot, a: seq<Effect>, b: seq<Effect>)
    requires AreInstalls(s, a) && AreInstalls(s, b)
    ensures AreInstalls(s, a + b)
  {
    hide Expected;
    forall i | 0 <= i < |a + b|
      ensures IsInstallAt(s, a + b, i)
    {
      assert if i < |a| then IsInstallAt(s, a, i) else IsInstallAt(s, b, i - |a|);
    }
  }

  lemma {:induction false} ReleasesInOrder(s: Snapshot, rows: seq<Binding>, listing: seq<Ip>)
    ensures AreReleases(s, ReleasePlan(s, rows, listing))
  {
    hide Expected, HasMoved, IsReassigned, LastAt;
    if listing != [] {
      var front, ip := listing[..|listing| - 1], listing[|listing| - 1];
      ReleasesInOrder(s, rows, front);
      assert AreReleases(s, ReleaseCalls(s, rows, ip)) by {
        LastAtIsMember(rows, ip);
      }
      hide AreReleases;
      ReleasesConcat(s, ReleasePlan(s, rows, front), ReleaseCalls(s, rows, ip));
    }
  }

  lemma InstallInOrder(s: Snapshot, ip: Ip, device: nat, current: set<Ip>)
    requires ip in Expected(s)
    ensures AreInstalls(s, InstallCalls(ip, device, current))
  {
    hide Expected;
  }

  lemma {:induction false} InstallsInOrder(s: Snapshot, order: seq<Ip>, current: set<Ip>)
    requires Elements(order) <= Expected(s)
    ensures AreInstalls(s, InstallPlan(s, order, current))
  {
    if order != [] {
      var front, ip := order[..|order| - 1], order[|order| - 1];
      assert ip in Elements(order) && Elements(front) <= Elements(order);
      var device := ExpectedDevices(s, s.devices)[ip].id;
      hide Expected, ExpectedDevices, InstallCalls, AreInstalls;
      InstallsInOrder(s, front, current);
      InstallInOrder(s, ip, device, current);
      InstallsConcat(s, InstallPlan(s, front, current), InstallCalls(ip, device, current));
    }
  }

  /** Every new binding has its IP blocked, and every binding that has gone has its IP released. */
  ghost predicate IsOrderly(s: Snapshot, st: State, r: State) {
    && (forall b | b in r.rows && b !in st.rows :: b.ip in r.kernel)
    && (forall b | b in st.rows && b !in r.rows :: b.ip !in r.kernel && b.ip !in Expected(s))
  }

  lemma OrderlyRelease(s: Snapshot, st: State, calls: seq<Effect>, n: nat, r: State, r': State)
    requires AreReleases(s, calls) && n < |calls| && r' == Apply(calls[n], r)
    requires IsOrderly(s, st, r) && (forall b | b in r.rows :: b in st.rows)
    requires n > 0 ==> calls[n - 1].Unblock? ==> calls[n - 1].ip !in r.kernel
    ensures IsOrderly(s, st, r') && (forall b | b in r'.rows :: b in st.rows)
    ensures calls[n].Unblock? ==> calls[n].ip !in r'.kernel
  {
    hide Expected;
    assert IsReleaseAt(s, calls, n);
  }

  lemma OrderlyInstall(s: Snapshot, st: State, calls: seq<Effect>, n: nat, r: State, r': State)
    requires AreInstalls(s, calls) && n < |calls| && r' == Apply(calls[n], r)
    requires IsOrderly(s, st, r)
    requires n > 0 ==> calls[n - 1].Block? ==> calls[n - 1].ip in r.kernel
    ensures IsOrderly(s, st, r')
    ensures calls[n].Block? ==> calls[n].ip in r'.kernel
  {
    hide Expected;
    assert IsInstallAt(s, calls, n);
  }

  lemma {:induction false} OrderlyReleases(s: Snapshot, st: State, calls: seq<Effect>, n: nat)
    requires AreReleases(s, calls) && n <= |calls|
    ensures var r := Replay(calls[..n], st);
            && IsOrderly(s, st, r) && (forall b | b in r.rows :: b in st.rows)
            && (n > 0 ==> calls[n - 1].Unblock? ==> calls[n - 1].ip !in r.kernel)
  {
    hide AreReleases, IsOrderly;
    if n > 0 {
      OrderlyReleases(s, st, calls, n - 1);
      assert calls[..n][..n - 1] == calls[..n - 1];
      OrderlyRelease(s, st, calls, n - 1, Replay(calls[..n - 1], st), Replay(calls[..n], st));
    } else {
      NothingIsOrderly(s, st);
    }
  }

  lemma NothingIsOrderly(s: Snapshot, st: State)
    ensures IsOrderly(s, st, st)
  {
  }

  lemma {:induction false} OrderlyInstalls(s: Snapshot, st: State, mid: State, calls: seq<Effect>, n: nat)
    requires AreInstalls(s, calls) && n <= |calls| && IsOrderly(s, st, mid)
    ensures var r := Replay(calls[..n], mid);
            IsOrderly(s, st, r) && (n > 0 ==> calls[n - 1].Block? ==> calls[n - 1].ip in r.kernel)
  {
    hide AreInstalls, IsOrderly;
    if n > 0 {
      OrderlyInstalls(s, st, mid, calls, n - 1);
      assert calls[..n][..n - 1] == calls[..n - 1];
      OrderlyInstall(s, st, calls, n - 1, Replay(calls[..n - 1], mid), Replay(calls[..n], mid));
    }
  }

  /**
   However far a pass gets before a call fails: every binding it recorded has its IP blocked,
   and every binding it ended has its IP unblocked and not expected.
   */
  lemma PartialPassIsOrderly(s: Snapshot, st: State, listing: seq<Ip>, done: nat)
    requires done <= |Plan(s, st.rows, listing)|
    ensures IsOrderly(s, st, Replay(Plan(s, st.rows, listing)[..done], st))
  {
    var order := ExpectedOrder(s, s.devices);
    var release := ReleasePlan(s, st.rows, listing);
    var install := InstallPlan(s, order, AfterReleases(s, st.rows, listing));
    ReleasesInOrder(s, st.rows, listing);
    InstallsInOrder(s, order, AfterReleases(s, st.rows, listing));
    OrderlyPrefix(s, st, release, install, done);
  }

  lemma OrderlyPrefix(s: Snapshot, st: State, release: seq<Effect>, install: seq<Effect>, done: nat)
    requires AreReleases(s, release) && AreInstalls(s, install) && done <= |release + install|
    ensures IsOrderly(s, st, Replay((release + install)[..done], st))
  {
    hide Replay, IsOrderly, AreReleases, AreInstalls;
    var plan := release + install;
    if done <= |release| {
      OrderlyReleases(s, st, release, done);
      assert plan[..done] == release[..done];
    } else {
      OrderlyReleases(s, st, release, |release|);
      assert release[..|release|] == release;
      OrderlyInstalls(s, st, Replay(release, st), install, done - |release|);
      ReplayConcat(release, install[..done - |release|], st);
      assert plan[..done] == release + install[..done - |release|];
    }
  }

  // ----- Which device an IP is recorded for -----

  /** The last of the devices that expects the IP. */
  function LastToExpect(s: Snapshot, devices: seq<Device>, ip: Ip): Option<Device> {
    if devices == [] then None
    else if ExpectedIp(s, devices[|devices| - 1]) == Some(ip) then Some(devices[|devices| - 1])
    else LastToExpect(s, devices[..|devices| - 1], ip)
  }

  /** Of the devices that expect an IP the last one is recorded. */
  lemma {:induction false} LastDeviceIsRecorded(s: Snapshot, devices: seq<Device>, ip: Ip)
    ensures LastToExpect(s, devices, ip) ==
            if ip in ExpectedDevices(s, devices) then Some(ExpectedDevices(s, devices)[ip]) else None
  {
    if devices != [] {
      var n := |devices| - 1;
      LastDeviceIsRecorded(s, devices[..n], ip);
      OneMoreDevice(s, devices, n);
      assert devices[..n + 1] == devices;
      hide ExpectedIp, ExpectedOrder, ExpectedDevices;
    }
  }

  /** The expected IPs are visited once each. */
  lemma {:induction false} ExpectedOnce(s: Snapshot, devices: seq<Device>)
    ensures NoDuplicates(ExpectedOrder(s, devices))
  {
    hide ExpectedIp;
    if devices != [] {
      ExpectedOnce(s, devices[..|devices| - 1]);
    }
  }
}
