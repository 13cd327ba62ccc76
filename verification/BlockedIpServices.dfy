/**
 The two services that run the passes against a kernel set and a binding table.
 Each pass is proved to make exactly the calls of its plan, in order, up to the
 first call that fails.
 */
module BlockedIpServices {
  import opened Common
  import opened Observations
  import opened BindingEffects
  import BlockedIpPlan
  import LifecyclePlan
  import opened BindingTable

  /** The first n calls of a plan, or all of them. */
  function Prefix(plan: seq<Effect>, n: nat): seq<Effect> {
    plan[..Min(n, |plan|)]
  }

  /** The kernel set and the table; `budget` is the number of mutating calls that will still succeed. */
  class Enforcement {
    var blocked: set<Ip>
    const table: BindingTable
    /** The MACs of the devices, which the database keeps unique. */
    const macOf: map<nat, Mac>
    var budget: nat

    constructor (table: BindingTable, macOf: map<nat, Mac>, blocked: set<Ip>, budget: nat)
      ensures this.table == table && this.macOf == macOf && this.blocked == blocked && this.budget == budget
    {
      this.table, this.macOf, this.blocked, this.budget := table, macOf, blocked, budget;
    }

    ghost predicate Valid()
      reads this, table
    {
      table.Valid() && HoldOwnMacs(table.records, macOf) && AreDistinctMacs(macOf)
    }

    ghost function State(): State
      reads this, table
    {
      BindingEffects.State(blocked, table.Active())
    }

    /**
     One external call: it takes effect completely, or it fails and changes neither the kernel
     set nor an active binding. A failing recording may have made the device's record active.
     */
    method Perform(e: Effect) returns (ok: bool)
      requires Valid() && (e.Record? ==> e.ip != "")
      modifies this, table
      ensures Valid()
      ensures ok == (old(budget) > 0)
      ensures ok ==> budget == old(budget) - 1 && State() == Apply(e, old(State()))
      ensures !ok ==> budget == old(budget) && State() == old(State())
    {
      if budget == 0 {
        if e.Record? {
          var working: nat :| working < 2;
          ok := RecordOwn(e.device, e.ip, working);
        }
        return false;
      }
      budget := budget - 1;
      ok := true;
      match e {
        case Block(ip) => blocked := blocked + {ip};
        case Unblock(ip) => blocked := blocked - {ip};
        case Record(device, ip) => ok := RecordOwn(device, ip, 2);
        case Release(device, ip) => table.ReleaseIp(device, ip, "released by reconciliation");
      }
    }

    /** The record holds the device's own MAC, or none where the device is enforced by IP alone. */
    method RecordOwn(device: nat, ip: Ip, working: nat) returns (ok: bool)
      requires Valid() && ip != ""
      modifies table
      ensures Valid()
      ensures ok <==> working >= 2
      ensures table.Active() == if ok then Apply(Record(device, ip), BindingEffects.State({}, old(table.Active()))).rows
                                else old(table.Active())
    {
      var mac: Option<Mac> := None;
      if * {
        mac := if device in macOf then Some(macOf[device]) else None;
      }
      OwnMacIsNeverTaken(table.records, macOf, device, mac);
      ok := table.RecordBlock(device, mac, ip, Some("ip-enforced-proxy"), working);
    }

    /** The kernel's listing, in an order of its own. */
    method ListBlocked() returns (listing: seq<Ip>)
      ensures IsListing(listing, blocked)
    {
      listing := [];
      var left := blocked;
      while left != {}
        invariant NoDuplicates(listing)
        invariant forall ip :: ip in blocked <==> ip in listing || ip in left
        invariant forall ip | ip in listing :: ip !in left
        decreases left
      {
        var ip :| ip in left;
        listing := listing + [ip];
        left := left - {ip};
      }
    }
  }

  /** Exactly the calls `done` have been made, and each used up one unit of budget. */
  twostate predicate HasPerformed(w: Enforcement, done: seq<Effect>)
    reads w, w.table
  {
    && w.Valid()
    && w.State() == Replay(done, old(w.State()))
    && |done| + w.budget == old(w.budget)
  }

  /** A prefix that used up the budget, or the whole plan within the budget, is what Prefix selects. */
  lemma PrefixReached(done: seq<Effect>, plan: seq<Effect>, budget: nat)
    requires done <= plan && |done| <= budget
    requires |done| == budget || done == plan
    ensures done == Prefix(plan, budget)
  {
  }

  /** Part of the next calls extends a prefix of the plan to a prefix of the plan. */
  lemma PrefixExtends(done: seq<Effect>, step: seq<Effect>, calls: seq<Effect>, plan: seq<Effect>)
    requires step <= calls && done + calls <= plan
    ensures done + step <= plan
  {
    assert forall k | 0 <= k < |done + step| :: (done + step)[k] == (done + calls)[k];
  }

  lemma ReplayNone(st: State)
    ensures Replay([], st) == st
  {
  }

  /** After `done`, one more call succeeded. */
  lemma ReplayMore(done: seq<Effect>, e: Effect, st: State)
    ensures Replay(done + [e], st) == Apply(e, Replay(done, st))
  {
    assert (done + [e])[..|done|] == done;
  }

  class BlockedIpReconciliationService {
    var running: bool

    constructor ()
      ensures !running
    {
      running := false;
    }

    method ReadLeases(s: Snapshot) returns (ipByMac: map<Mac, Ip>, macByIp: map<Ip, Mac>)
      ensures ipByMac == LeaseIpByMac(s.leases, s.now, true)
      ensures macByIp == LeaseMacByIp(s.leases, s.now, true)
    {
      ipByMac, macByIp := map[], map[];
      for i := 0 to |s.leases|
        invariant ipByMac == LeaseIpByMac(s.leases[..i], s.now, true)
        invariant macByIp == LeaseMacByIp(s.leases[..i], s.now, true)
      {
        assert s.leases[..i + 1][..i] == s.leases[..i];
        var lease := s.leases[i];
        if IsLeaseActive(lease, s.now) && lease.mac != "" && lease.ip != "" {
          ipByMac := ipByMac[lease.mac := lease.ip];
          macByIp := macByIp[lease.ip := lease.mac];
        }
      }
      assert s.leases[..|s.leases|] == s.leases;
    }

    method ReadNeighbors(s: Snapshot) returns (macByIp: map<Ip, Mac>)
      ensures macByIp == NeighborMacByIp(s.neighbors)
    {
      macByIp := map[];
      for i := 0 to |s.neighbors|
        invariant macByIp == NeighborMacByIp(s.neighbors[..i])
      {
        assert s.neighbors[..i + 1][..i] == s.neighbors[..i];
        var neighbor := s.neighbors[i];
        if IsUsableState(neighbor.state) && neighbor.mac != "" && neighbor.ip != "" {
          macByIp := macByIp[neighbor.ip := neighbor.mac];
        }
      }
      assert s.neighbors[..|s.neighbors|] == s.neighbors;
    }

    /** One turn of the device loop: the IP to block for this device, if any. */
    method ConfirmedIp(s: Snapshot, device: Device, ipByMac: map<Mac, Ip>, owners: map<Ip, Mac>)
      returns (result: Option<Ip>)
      requires ipByMac == LeaseIpByMac(s.leases, s.now, true) && owners == NeighborMacByIp(s.neighbors)
      ensures result == BlockedIpPlan.ExpectedIp(s, device)
    {
      result := None;
      if device.id !in s.blockedIds || !device.identityValidated || device.identitySource == ProxyUnconfirmed {
        return;
      }
      if device.l2Visible {
        return;
      }
      var dhcpIp := Lookup(ipByMac, device.mac);
      if dhcpIp.Some? {
        var ip := dhcpIp.value;
        var neighborOwner := if ip in owners then owners[ip] else "";
        var captureConfirms :=
          exists c | c in s.captures :: c.mac == device.mac && (c.sourceIp.None? || c.sourceIp.value == ip);
        var persistedProxyConfirms := device.proxyMac.Some? && device.proxyMac.value == neighborOwner;
        if (ip in owners && owners[ip] == device.mac) || captureConfirms || persistedProxyConfirms {
          return Some(ip);
        }
      }
    }

    /** The expected IPs in insertion order, with the device behind each. */
    method ComputeExpected(s: Snapshot, ipByMac: map<Mac, Ip>) returns (order: seq<Ip>, devices: map<Ip, Device>)
      requires ipByMac == LeaseIpByMac(s.leases, s.now, true)
      ensures order == BlockedIpPlan.ExpectedOrder(s, s.devices)
      ensures devices == BlockedIpPlan.ExpectedDevices(s, s.devices)
    {
      hide BlockedIpPlan.ExpectedIp;
      order, devices := [], map[];
      var owners := ReadNeighbors(s);
      for i := 0 to |s.devices|
        invariant order == BlockedIpPlan.ExpectedOrder(s, s.devices[..i])
        invariant devices == BlockedIpPlan.ExpectedDevices(s, s.devices[..i])
      {
        BlockedIpPlan.OneMoreDevice(s, s.devices, i);
        var ip := ConfirmedIp(s, s.devices[i], ipByMac, owners);
        if ip.Some? {
          if ip.value !in order {
            order := order + [ip.value];
          }
          devices := devices[ip.value := s.devices[i]];
        }
      }
      assert s.devices[..|s.devices|] == s.devices;
    }

    /** One turn of the release loop: positive DHCP evidence only, unblock before the binding is released. */
    method ReleaseIfStale(w: Enforcement, s: Snapshot, bindings: seq<Binding>, ip: Ip, expected: map<Ip, Device>,
                          ipByMac: map<Mac, Ip>, macByIp: map<Ip, Mac>)
      returns (ok: bool, ghost done: seq<Effect>)
      requires w.Valid()
      requires expected == BlockedIpPlan.ExpectedDevices(s, s.devices)
      requires ipByMac == LeaseIpByMac(s.leases, s.now, true) && macByIp == LeaseMacByIp(s.leases, s.now, true)
      modifies w, w.table
      ensures HasPerformed(w, done)
      ensures done <= BlockedIpPlan.ReleaseCalls(s, bindings, ip)
      ensures ok ==> done == BlockedIpPlan.ReleaseCalls(s, bindings, ip)
      ensures !ok ==> w.budget == 0
    {
      done := [];
      ok := true;
      if ip in expected {
        return;
      }
      var binding := LastAt(bindings, ip);
      LastAtIsMember(bindings, ip);
      var boundDevice := if binding.Some? then DeviceById(s.devices, binding.value.device) else None;
      var release := false;
      if boundDevice.Some? {
        var currentIp := Lookup(ipByMac, boundDevice.value.mac);
        release := currentIp.Some? && currentIp.value != ip;
      }
      if !release {
        var dhcpOwner := Lookup(macByIp, ip);
        release := dhcpOwner.Some? && (boundDevice.None? || dhcpOwner.value != boundDevice.value.mac);
      }
      if release {
        ghost var st := w.State();
        ok := w.Perform(Unblock(ip));
        if !ok {
          return;
        }
        ReplayMore([], Unblock(ip), st);
        done := [Unblock(ip)];
        if binding.Some? {
          ok := w.Perform(Release(binding.value.device, ip));
          if !ok {
            return;
          }
          ReplayMore(done, Release(binding.value.device, ip), st);
          done := done + [Release(binding.value.device, ip)];
        }
      }
    }

    method ReleaseStale(w: Enforcement, s: Snapshot, bindings: seq<Binding>,
                        listing: seq<Ip>, expected: map<Ip, Device>,
                        ipByMac: map<Mac, Ip>, macByIp: map<Ip, Mac>)
      returns (ok: bool, ghost done: seq<Effect>)
      requires w.Valid()
      requires expected == BlockedIpPlan.ExpectedDevices(s, s.devices)
      requires ipByMac == LeaseIpByMac(s.leases, s.now, true) && macByIp == LeaseMacByIp(s.leases, s.now, true)
      modifies w, w.table
      ensures HasPerformed(w, done)
      ensures done <= BlockedIpPlan.ReleasePlan(s, bindings, listing)
      ensures ok ==> done == BlockedIpPlan.ReleasePlan(s, bindings, listing)
      ensures !ok ==> w.budget == 0
    {
      hide BlockedIpPlan.ReleaseCalls, Replay;
      done := [];
      ghost var st := w.State();
      ReplayNone(st);
      for i := 0 to |listing|
        invariant HasPerformed(w, done)
        invariant done == BlockedIpPlan.ReleasePlan(s, bindings, listing[..i])
      {
        assert listing[..i + 1][..i] == listing[..i];
        ReleasePlanGrows(s, bindings, listing, i + 1);
        ghost var step;
        ok, step := ReleaseIfStale(w, s, bindings, listing[i], expected, ipByMac, macByIp);
        ReplayConcat(done, step, st);
        done := done + step;
        if !ok {
          return;
        }
      }
      assert listing[..|listing|] == listing;
      ok := true;
    }

    /** One turn of the install loop: the IP is blocked first and recorded second. */
    method Install(w: Enforcement, ip: Ip, device: nat) returns (ok: bool, ghost done: seq<Effect>)
      requires w.Valid() && ip != ""
      modifies w, w.table
      ensures HasPerformed(w, done)
      ensures done <= [Block(ip), Record(device, ip)]
      ensures ok ==> done == [Block(ip), Record(device, ip)]
      ensures !ok ==> w.budget == 0
    {
      hide Replay, Apply, ActiveOf, UniqueKeys, UniqueMacs, HoldOwnMacs, AreDistinctMacs;
      done := [];
      ghost var st := w.State();
      ReplayNone(st);
      ok := w.Perform(Block(ip));
      if !ok {
        return;
      }
      ReplayMore(done, Block(ip), st);
      done := done + [Block(ip)];
      ok := w.Perform(Record(device, ip));
      if !ok {
        return;
      }
      ReplayMore(done, Record(device, ip), st);
      done := done + [Record(device, ip)];
    }

    /** One turn of the install loop: an IP the kernel holds already is skipped. */
    method InstallIfMissing(w: Enforcement, ip: Ip, device: nat, current: set<Ip>)
      returns (ok: bool, ghost done: seq<Effect>)
      requires w.Valid() && ip != ""
      modifies w, w.table
      ensures HasPerformed(w, done)
      ensures done <= BlockedIpPlan.InstallCalls(ip, device, current)
      ensures ok ==> done == BlockedIpPlan.InstallCalls(ip, device, current)
      ensures !ok ==> w.budget == 0
    {
      if ip in current {
        return true, [];
      }
      ok, done := Install(w, ip, device);
    }

    method InstallMissing(w: Enforcement, s: Snapshot, order: seq<Ip>, expected: map<Ip, Device>, current: set<Ip>)
      returns (ok: bool, ghost done: seq<Effect>)
      requires w.Valid()
      requires Elements(order) <= BlockedIpPlan.Expected(s) && "" !in order
      requires expected == BlockedIpPlan.ExpectedDevices(s, s.devices)
      modifies w, w.table
      ensures HasPerformed(w, done)
      ensures done <= BlockedIpPlan.InstallPlan(s, order, current)
      ensures ok ==> done == BlockedIpPlan.InstallPlan(s, order, current)
      ensures !ok ==> w.budget == 0
    {
      ExpectedAreMapped(s, order);
      hide BlockedIpPlan.ExpectedDevices, BlockedIpPlan.Expected, BlockedIpPlan.InstallPlan, BlockedIpPlan.InstallCalls;
      hide Replay, ActiveOf, UniqueKeys, Elements;
      InstallPlanStep(s, order, current, 0);
      done := [];
      ghost var st := w.State();
      ReplayNone(st);
      for i := 0 to |order|
        invariant HasPerformed(w, done)
        invariant Elements(order[..i]) <= BlockedIpPlan.Expected(s)
        invariant done == BlockedIpPlan.InstallPlan(s, order[..i], current)
      {
        ghost var step;
        ok, step := InstallIfMissing(w, order[i], expected[order[i]].id, current);
        ReplayConcat(done, step, st);
        InstallTurn(s, order, current, i, done, step);
        done := done + step;
        if !ok {
          return;
        }
      }
      assert order[..|order|] == order;
      ok := true;
    }

    /** The calls of one pass up to the first failure; a pass that is already running makes none. */
    method Reconcile(w: Enforcement, s: Snapshot) returns (ghost listing: seq<Ip>)
      requires w.Valid()
      modifies this, w, w.table
      ensures w.Valid() && running == old(running)
      ensures old(running) ==> w.State() == old(w.State())
      ensures !old(running) ==>
                && IsListing(listing, old(w.blocked))
                && w.State() == Replay(Prefix(BlockedIpPlan.Plan(s, old(w.table.Active()), listing), old(w.budget)),
                                       old(w.State()))
                && w.budget == old(w.budget)
                               - |Prefix(BlockedIpPlan.Plan(s, old(w.table.Active()), listing), old(w.budget))|
    {
      listing := [];
      if running {
        return;
      }
      running := true;
      var blockedIps := w.ListBlocked();
      listing := blockedIps;
      var bindings := w.table.ActiveBindings();
      var ipByMac, macByIp := ReadLeases(s);
      var order, expected := ComputeExpected(s, ipByMac);
      ghost var st := w.State();
      ghost var releases := BlockedIpPlan.ReleasePlan(s, bindings, listing);
      ghost var after := BlockedIpPlan.AfterReleases(s, bindings, listing);
      ghost var installs := BlockedIpPlan.InstallPlan(s, order, after);
      ghost var released, installed;
      var ok;
      ok, released := ReleaseStale(w, s, bindings, blockedIps, expected, ipByMac, macByIp);
      if !ok {
        assert released <= releases + installs;
        PrefixReached(released, releases + installs, old(w.budget));
      } else {
        var current := w.ListBlocked();
        var currentSet := set ip | ip in current;
        SameAfterReleases(s, st, listing, current);
        ExpectedIsNotBlank(s);
        ok, installed := InstallMissing(w, s, order, expected, currentSet);
        ReplayConcat(released, installed, st);
        assert released + installed <= releases + installs;
        PrefixReached(released + installed, releases + installs, old(w.budget));
      }
      running := false;
    }
  }

  /** Listing the kernel again after the releases gives the set the plan predicts. */
  lemma SameAfterReleases(s: Snapshot, st: State, listing: seq<Ip>, current: seq<Ip>)
    requires IsListing(listing, st.kernel)
    requires IsListing(current, Replay(BlockedIpPlan.ReleasePlan(s, st.rows, listing), st).kernel)
    ensures (set ip | ip in current) == BlockedIpPlan.AfterReleases(s, st.rows, listing)
  {
    BlockedIpPlan.ReleasePlanResult(s, st, listing);
    assert Elements(listing) == st.kernel;
    assert Elements(current) == Replay(BlockedIpPlan.ReleasePlan(s, st.rows, listing), st).kernel;
    assert forall ip :: ip in listing <==> ip in st.kernel;
  }

  lemma {:induction false} ReleasePlanGrows(s: Snapshot, rows: seq<Binding>, listing: seq<Ip>, i: nat)
    requires i <= |listing|
    ensures BlockedIpPlan.ReleasePlan(s, rows, listing[..i]) <= BlockedIpPlan.ReleasePlan(s, rows, listing)
    decreases |listing| - i
  {
    hide BlockedIpPlan.ReleaseCalls;
    if i < |listing| {
      ReleasePlanGrows(s, rows, listing, i + 1);
      assert listing[..i + 1][..i] == listing[..i];
    } else {
      assert listing[..i] == listing;
    }
  }

  /** The plan begins empty and grows by the calls of one IP at a time. */
  lemma InstallPlanStep(s: Snapshot, order: seq<Ip>, current: set<Ip>, i: nat)
    requires i <= |order| && Elements(order) <= BlockedIpPlan.Expected(s)
    ensures Elements(order[..i]) <= BlockedIpPlan.Expected(s)
    ensures i == 0 ==> BlockedIpPlan.InstallPlan(s, order[..i], current) == []
    ensures i < |order| ==>
              && order[i] in BlockedIpPlan.ExpectedDevices(s, s.devices)
              && Elements(order[..i + 1]) <= BlockedIpPlan.Expected(s)
              && BlockedIpPlan.InstallPlan(s, order[..i + 1], current)
                 == BlockedIpPlan.InstallPlan(s, order[..i], current)
                    + BlockedIpPlan.InstallCalls(order[i],
                                                  BlockedIpPlan.ExpectedDevices(s, s.devices)[order[i]].id, current)
  {
    hide BlockedIpPlan.ExpectedDevices;
    assert Elements(order[..i]) <= Elements(order);
    if i < |order| {
      assert order[i] in Elements(order);
      assert Elements(order[..i + 1]) <= Elements(order);
      assert order[..i + 1][..i] == order[..i];
    }
  }

  lemma {:induction false} InstallPlanGrows(s: Snapshot, order: seq<Ip>, current: set<Ip>, i: nat)
    requires i <= |order| && Elements(order) <= BlockedIpPlan.Expected(s)
    ensures Elements(order[..i]) <= BlockedIpPlan.Expected(s)
    ensures BlockedIpPlan.InstallPlan(s, order[..i], current) <= BlockedIpPlan.InstallPlan(s, order, current)
    decreases |order| - i
  {
    assert Elements(order[..i]) <= Elements(order);
    if i < |order| {
      InstallPlanGrows(s, order, current, i + 1);
      assert order[..i + 1][..i] == order[..i];
    } else {
      assert order[..i] == order;
    }
  }

  lemma ExpectedAreMapped(s: Snapshot, order: seq<Ip>)
    requires Elements(order) <= BlockedIpPlan.Expected(s)
    ensures forall ip | ip in order :: ip in BlockedIpPlan.ExpectedDevices(s, s.devices)
  {
    assert forall ip | ip in order :: ip in Elements(order);
  }

  /** Some of the calls of one turn keep the calls made so far a prefix of the plan; all of them are one more turn. */
  lemma InstallTurn(s: Snapshot, order: seq<Ip>, current: set<Ip>, i: nat, done: seq<Effect>, step: seq<Effect>)
    requires i < |order| && Elements(order) <= BlockedIpPlan.Expected(s)
    requires Elements(order[..i]) <= BlockedIpPlan.Expected(s)
    requires done == BlockedIpPlan.InstallPlan(s, order[..i], current)
    requires order[i] in BlockedIpPlan.ExpectedDevices(s, s.devices)
    requires step <= BlockedIpPlan.InstallCalls(order[i], BlockedIpPlan.ExpectedDevices(s, s.devices)[order[i]].id,
                                                current)
    ensures Elements(order[..i + 1]) <= BlockedIpPlan.Expected(s)
    ensures done + step <= BlockedIpPlan.InstallPlan(s, order, current)
    ensures step == BlockedIpPlan.InstallCalls(order[i], BlockedIpPlan.ExpectedDevices(s, s.devices)[order[i]].id,
                                               current)
            ==> done + step == BlockedIpPlan.InstallPlan(s, order[..i + 1], current)
  {
    hide BlockedIpPlan.ExpectedDevices, BlockedIpPlan.Expected, BlockedIpPlan.InstallPlan, BlockedIpPlan.InstallCalls;
    InstallPlanStep(s, order, current, i);
    InstallPlanGrows(s, order, current, i + 1);
    var device := BlockedIpPlan.ExpectedDevices(s, s.devices)[order[i]].id;
    PrefixExtends(done, step, BlockedIpPlan.InstallCalls(order[i], device, current),
                  BlockedIpPlan.InstallPlan(s, order, current));
  }

  lemma ExpectedIsNotBlank(s: Snapshot)
    ensures "" !in BlockedIpPlan.ExpectedOrder(s, s.devices)
  {
  }

  class IpBindingLifecycleService {
    var running: bool

    constructor ()
      ensures !running
    {
      running := false;
    }

    /** Release one binding; unblock its IP only if the rows as they now are bind no device there. */
    method ReleaseBinding(w: Enforcement, binding: Binding) returns (ok: bool, ghost done: seq<Effect>)
      requires w.Valid()
      modifies w, w.table
      ensures HasPerformed(w, done)
      ensures done <= LifecyclePlan.ReleaseThenUnblock(binding, old(w.State()))
      ensures ok ==> done == LifecyclePlan.ReleaseThenUnblock(binding, old(w.State()))
      ensures !ok ==> w.budget == 0
    {
      hide ActiveOf, UniqueKeys, UniqueMacs, HoldOwnMacs, AreDistinctMacs;
      done := [];
      ok := w.Perform(Release(binding.device, binding.ip));
      if !ok {
        return;
      }
      ReplayMore(done, Release(binding.device, binding.ip), old(w.State()));
      done := [Release(binding.device, binding.ip)];
      var remaining := w.table.ActiveBindings();
      if !IsBound(remaining, binding.ip) {
        ok := w.Perform(Unblock(binding.ip));
        if !ok {
          return;
        }
        ReplayMore(done, Unblock(binding.ip), old(w.State()));
        done := done + [Unblock(binding.ip)];
      }
    }

    /** The new IP is blocked and recorded before the old binding is released. */
    method Follow(w: Enforcement, binding: Binding, device: nat, ip: Ip) returns (ok: bool, ghost done: seq<Effect>)
      requires w.Valid() && ip != ""
      modifies w, w.table
      ensures var follow := [Block(ip), Record(device, ip)];
              var calls := follow + LifecyclePlan.ReleaseThenUnblock(binding, Replay(follow, old(w.State())));
              done <= calls && (ok ==> done == calls)
      ensures HasPerformed(w, done)
      ensures !ok ==> w.budget == 0
    {
      hide ActiveOf, UniqueKeys, UniqueMacs, HoldOwnMacs, AreDistinctMacs;
      ghost var st := w.State();
      ghost var follow := [Block(ip), Record(device, ip)];
      done := [];
      ok := w.Perform(Block(ip));
      if !ok {
        return;
      }
      ReplayMore([], follow[0], st);
      done := [follow[0]];
      ok := w.Perform(Record(device, ip));
      if !ok {
        return;
      }
      ReplayMore(done, follow[1], st);
      done := follow;
      ghost var last;
      ok, last := ReleaseBinding(w, binding);
      ReplayConcat(follow, last, st);
      done := follow + last;
    }

    /** Decide and act on one binding of the snapshot. */
    method Visit(w: Enforcement, s: Snapshot, binding: Binding,
                 leaseIpByMac: map<Mac, Ip>, leaseMacByIp: map<Ip, Mac>)
      returns (ok: bool, ghost done: seq<Effect>)
      requires w.Valid()
      requires leaseIpByMac == LeaseIpByMac(s.leases, s.now, false)
      requires leaseMacByIp == LeaseMacByIp(s.leases, s.now, false)
      modifies w, w.table
      ensures HasPerformed(w, done)
      ensures done <= LifecyclePlan.StepCalls(s, binding, old(w.State()))
      ensures ok ==> done == LifecyclePlan.StepCalls(s, binding, old(w.State()))
      ensures !ok ==> w.budget == 0
    {
      done := [];
      ok := true;
      var device := DeviceById(s.devices, binding.device);
      if device.None? {
        return;
      }
      if device.value.id !in s.blockedIds || !device.value.identityValidated || device.value.l2Visible {
        return;
      }
      var claimantMac := Lookup(leaseMacByIp, binding.ip);
      if claimantMac.Some? && claimantMac.value != device.value.mac {
        ok, done := ReleaseBinding(w, binding);
        return;
      }
      var currentIp := Lookup(leaseIpByMac, device.value.mac);
      if currentIp.None? || currentIp.value == binding.ip {
        return;
      }
      ok, done := Follow(w, binding, device.value.id, currentIp.value);
    }

    method VisitAll(w: Enforcement, s: Snapshot, bindings: seq<Binding>) returns (ok: bool, ghost done: seq<Effect>)
      requires w.Valid()
      modifies w, w.table
      ensures HasPerformed(w, done)
      ensures done <= LifecyclePlan.Plan(s, bindings, old(w.State()))
      ensures ok ==> done == LifecyclePlan.Plan(s, bindings, old(w.State()))
      ensures !ok ==> w.budget == 0
    {
      hide LifecyclePlan.StepCalls, Replay;
      done := [];
      ghost var st := w.State();
      ReplayNone(st);
      for i := 0 to |bindings|
        invariant HasPerformed(w, done)
        invariant done == LifecyclePlan.Plan(s, bindings[..i], st)
      {
        assert bindings[..i + 1][..i] == bindings[..i];
        PlanGrows(s, bindings, st, i + 1);
        ghost var step;
        ok, step := Visit(w, s, bindings[i], LeaseIpByMac(s.leases, s.now, false),
                          LeaseMacByIp(s.leases, s.now, false));
        ReplayConcat(done, step, st);
        done := done + step;
        if !ok {
          return;
        }
      }
      assert bindings[..|bindings|] == bindings;
      ok := true;
    }

    /** The calls of one pass up to the first failure; a pass that is already running makes none. */
    method Reconcile(w: Enforcement, s: Snapshot)
      requires w.Valid()
      modifies this, w, w.table
      ensures w.Valid() && running == old(running)
      ensures old(running) ==> w.State() == old(w.State())
      ensures !old(running) ==>
                var done := Prefix(LifecyclePlan.Plan(s, old(w.table.Active()), old(w.State())), old(w.budget));
                w.State() == Replay(done, old(w.State())) && w.budget == old(w.budget) - |done|
    {
      hide LifecyclePlan.Plan;
      if running {
        return;
      }
      running := true;
      var bindings := w.table.ActiveBindings();
      ghost var plan := LifecyclePlan.Plan(s, bindings, w.State());
      var ok;
      ghost var done;
      ok, done := VisitAll(w, s, bindings);
      PrefixReached(done, plan, old(w.budget));
      running := false;
    }
  }

  lemma {:induction false} PlanGrows(s: Snapshot, bindings: seq<Binding>, st: State, i: nat)
    requires i <= |bindings|
    ensures LifecyclePlan.Plan(s, bindings[..i], st) <= LifecyclePlan.Plan(s, bindings, st)
    decreases |bindings| - i
  {
    hide LifecyclePlan.StepCalls, Replay;
    if i < |bindings| {
      PlanGrows(s, bindings, st, i + 1);
      assert bindings[..i + 1][..i] == bindings[..i];
    } else {
      assert bindings[..i] == bindings;
    }
  }
}
