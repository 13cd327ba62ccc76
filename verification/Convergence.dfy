/**
 How the blocked-IP pass and the lifecycle pass act on each other's state when
 the outside world stands still and no call fails.
 */
module Convergence {
  import opened Common
  import opened Observations
  import opened BindingEffects
  import BlockedIpPlan
  import LifecyclePlan

  /** The binding sits at the IP its device leases, or nobody leases anything relevant. */
  predicate IsSettled(s: Snapshot, b: Binding) {
    var d := DeviceById(s.devices, b.device);
    d.Some? && BlockedIpPlan.IsProxyManaged(s, d.value) ==>
      || LeasedIp(s, d.value.mac) == Some(b.ip)
      || (LeasedIp(s, d.value.mac) == None && LeaseOwner(s, b.ip) == None)
  }

  predicate AllSettled(s: Snapshot, rows: seq<Binding>) {
    forall b | b in rows :: IsSettled(s, b)
  }

  /** What the database and the value objects guarantee: ids are keys, MACs are not blank. */
  predicate IsWellFormed(s: Snapshot) {
    UniqueIds(s.devices) && forall d | d in s.devices :: d.mac != ""
  }

  /** recordBlock stores no blank IP. */
  predicate NoBlankIps(rows: seq<Binding>) {
    forall b | b in rows :: b.ip != ""
  }

  /** The lifecycle pass leaves a binding alone exactly when it is settled. */
  lemma StepIsIdleIffSettled(s: Snapshot, b: Binding, st: State)
    requires OneToOneLeases(s) && IsWellFormed(s) && b.ip != ""
    ensures LifecyclePlan.StepCalls(s, b, st) == [] <==> IsSettled(s, b)
  {
    DeviceByIdIsMember(s.devices, b.device);
    var d := DeviceById(s.devices, b.device);
    if d.Some? {
      PassesReadTheSameLeases(s, b.ip);
      PassesReadTheSameLeases(s, d.value.mac);
      LeasesAreInverse(s, d.value.mac, b.ip);
    }
  }

  /** State r follows st by steps that only remove unsettled bindings and only add settled ones. */
  ghost predicate IsSettlingStep(s: Snapshot, st: State, r: State) {
    && (forall x | x in r.rows && x !in st.rows :: IsSettled(s, x) && x.ip != "")
    && (forall x | x in st.rows && x !in r.rows :: !IsSettled(s, x))
  }

  lemma ReleaseThenUnblockResult(b: Binding, st: State)
    ensures Replay(LifecyclePlan.ReleaseThenUnblock(b, st), st).rows == Without(st.rows, b)
  {
    if IsBound(Without(st.rows, b), b.ip) {
      BlockedIpPlan.ReplayOne(Release(b.device, b.ip), st);
    } else {
      BlockedIpPlan.ReplayTwo(Release(b.device, b.ip), Unblock(b.ip), st);
    }
  }

  lemma StepSettles(s: Snapshot, b: Binding, st: State)
    requires OneToOneLeases(s) && IsWellFormed(s) && b.ip != ""
    ensures var r := Replay(LifecyclePlan.StepCalls(s, b, st), st);
            IsSettlingStep(s, st, r) && (b in r.rows ==> IsSettled(s, b))
  {
    StepIsIdleIffSettled(s, b, st);
    if !IsSettled(s, b) {
      DeviceByIdIsMember(s.devices, b.device);
      var d := DeviceById(s.devices, b.device).value;
      PassesReadTheSameLeases(s, b.ip);
      PassesReadTheSameLeases(s, d.mac);
      var claimant := LeaseOwner(s, b.ip);
      if claimant.Some? && claimant.value != d.mac {
        ReleaseThenUnblockResult(b, st);
      } else {
        var current := LeasedIp(s, d.mac);
        var follow := [Block(current.value), Record(d.id, current.value)];
        BlockedIpPlan.ReplayTwo(follow[0], follow[1], st);
        var mid := Replay(follow, st);
        ReplayConcat(follow, LifecyclePlan.ReleaseThenUnblock(b, mid), st);
        ReleaseThenUnblockResult(b, mid);
      }
    }
  }

  lemma {:induction false} PlanSettles(s: Snapshot, bindings: seq<Binding>, st: State)
    requires OneToOneLeases(s) && IsWellFormed(s) && NoBlankIps(bindings)
    ensures var r := Replay(LifecyclePlan.Plan(s, bindings, st), st);
            && IsSettlingStep(s, st, r)
            && (forall b | b in bindings && b in r.rows :: IsSettled(s, b))
  {
    if bindings != [] {
      var front, b := bindings[..|bindings| - 1], bindings[|bindings| - 1];
      assert forall x :: x in bindings <==> x in front || x == b by {
        assert bindings == front + [b];
      }
      PlanSettles(s, front, st);
      var plan := LifecyclePlan.Plan(s, front, st);
      var mid := Replay(plan, st);
      StepSettles(s, b, mid);
      ReplayConcat(plan, LifecyclePlan.StepCalls(s, b, mid), st);
    }
  }

  /** One lifecycle pass settles every binding of a blocked, validated device that is hidden at layer 2. */
  lemma LifecyclePassSettles(s: Snapshot, st: State)
    requires OneToOneLeases(s) && IsWellFormed(s) && NoBlankIps(st.rows)
    ensures AllSettled(s, LifecyclePlan.Pass(s, st).rows)
    ensures NoBlankIps(LifecyclePlan.Pass(s, st).rows)
  {
    PlanSettles(s, st.rows, st);
  }

  lemma {:induction false} SettledPlanIsEmpty(s: Snapshot, bindings: seq<Binding>, st: State)
    requires OneToOneLeases(s) && IsWellFormed(s) && NoBlankIps(bindings) && AllSettled(s, bindings)
    ensures LifecyclePlan.Plan(s, bindings, st) == []
  {
    if bindings != [] {
      assert bindings == bindings[..|bindings| - 1] + [bindings[|bindings| - 1]];
      SettledPlanIsEmpty(s, bindings[..|bindings| - 1], st);
      StepIsIdleIffSettled(s, bindings[|bindings| - 1], st);
    }
  }

  /** Bindings recorded by the blocked-IP pass are settled, so it keeps the lifecycle pass idle. */
  lemma BlockedPassKeepsSettled(s: Snapshot, st: State, listing: seq<Ip>)
    requires IsWellFormed(s) && IsListing(listing, st.kernel)
    requires AllSettled(s, st.rows) && NoBlankIps(st.rows)
    ensures AllSettled(s, BlockedIpPlan.Pass(s, st, listing).rows)
    ensures NoBlankIps(BlockedIpPlan.Pass(s, st, listing).rows)
  {
    BlockedIpPlan.PassResult(s, st, listing);
    var r := BlockedIpPlan.Pass(s, st, listing);
    forall b | b in r.rows
      ensures IsSettled(s, b) && b.ip != ""
    {
      if b !in st.rows {
        assert BlockedIpPlan.IsInstalledBinding(s, b);
        DeviceByIdFinds(s.devices, BlockedIpPlan.ExpectedDevices(s, s.devices)[b.ip]);
      }
    }
  }

  lemma {:induction false} NothingToRelease(s: Snapshot, rows: seq<Binding>, listing: seq<Ip>)
    requires forall ip | ip in listing :: !BlockedIpPlan.MustRelease(s, rows, ip)
    ensures BlockedIpPlan.ReleasePlan(s, rows, listing) == []
  {
    if listing != [] {
      assert listing == listing[..|listing| - 1] + [listing[|listing| - 1]];
      NothingToRelease(s, rows, listing[..|listing| - 1]);
    }
  }

  lemma {:induction false} NothingToInstall(s: Snapshot, order: seq<Ip>, current: set<Ip>)
    requires Elements(order) <= BlockedIpPlan.Expected(s) && Elements(order) <= current
    ensures BlockedIpPlan.InstallPlan(s, order, current) == []
  {
    hide BlockedIpPlan.Expected, BlockedIpPlan.ExpectedDevices;
    if order != [] {
      assert order == order[..|order| - 1] + [order[|order| - 1]];
      assert order[|order| - 1] in Elements(order);
      assert Elements(order[..|order| - 1]) <= Elements(order);
      NothingToInstall(s, order[..|order| - 1], current);
    }
  }

  /** A second blocked-IP pass makes no call, in whatever order the kernel lists its set. */
  lemma BlockedPassIsIdempotent(s: Snapshot, st: State, listing: seq<Ip>, again: seq<Ip>)
    requires IsListing(listing, st.kernel)
    requires IsListing(again, BlockedIpPlan.Pass(s, st, listing).kernel)
    ensures BlockedIpPlan.Plan(s, BlockedIpPlan.Pass(s, st, listing).rows, again) == []
  {
    BlockedIpPlan.PassResult(s, st, listing);
    var r := BlockedIpPlan.Pass(s, st, listing);
    assert Elements(again) == r.kernel;
    forall ip | ip in again
      ensures !BlockedIpPlan.MustRelease(s, r.rows, ip)
    {
      assert ip in r.kernel;
    }
    NothingToRelease(s, r.rows, again);
    var order := BlockedIpPlan.ExpectedOrder(s, s.devices);
    assert Elements(order) <= BlockedIpPlan.AfterReleases(s, r.rows, again) by {
      assert forall ip | ip in order :: ip in r.kernel && ip in again;
    }
    NothingToInstall(s, order, BlockedIpPlan.AfterReleases(s, r.rows, again));
  }

  /** Neither pass makes a call, every expected IP is blocked and every managed binding is settled. */
  ghost predicate IsConverged(s: Snapshot, st: State) {
    && (forall listing | IsListing(listing, st.kernel) :: BlockedIpPlan.Plan(s, st.rows, listing) == [])
    && LifecyclePlan.Plan(s, st.rows, st) == []
    && BlockedIpPlan.Expected(s) <= st.kernel
    && AllSettled(s, st.rows)
  }

  /** Settled bindings and one blocked-IP pass are enough. */
  lemma BlockedPassConverges(s: Snapshot, st: State, listing: seq<Ip>)
    requires OneToOneLeases(s) && IsWellFormed(s) && NoBlankIps(st.rows) && AllSettled(s, st.rows)
    requires IsListing(listing, st.kernel)
    ensures IsConverged(s, BlockedIpPlan.Pass(s, st, listing))
    ensures NoBlankIps(BlockedIpPlan.Pass(s, st, listing).rows)
  {
    var r := BlockedIpPlan.Pass(s, st, listing);
    BlockedIpPlan.PassResult(s, st, listing);
    BlockedPassKeepsSettled(s, st, listing);
    SettledPlanIsEmpty(s, r.rows, r);
    forall again | IsListing(again, r.kernel)
      ensures BlockedIpPlan.Plan(s, r.rows, again) == []
    {
      BlockedPassIsIdempotent(s, st, listing, again);
    }
  }

  lemma BlockedPassKeepsIps(s: Snapshot, st: State, listing: seq<Ip>)
    requires NoBlankIps(st.rows) && IsListing(listing, st.kernel)
    ensures NoBlankIps(BlockedIpPlan.Pass(s, st, listing).rows)
  {
    BlockedIpPlan.PassResult(s, st, listing);
    forall b | b in BlockedIpPlan.Pass(s, st, listing).rows
      ensures b.ip != ""
    {
      if b !in st.rows {
        assert BlockedIpPlan.IsInstalledBinding(s, b);
      }
    }
  }

  /** From any kernel set and any bindings, two rounds of both passes reach a state neither pass changes. */
  lemma TwoRoundsConverge(s: Snapshot, st: State, first: seq<Ip>, second: seq<Ip>)
    requires OneToOneLeases(s) && IsWellFormed(s) && NoBlankIps(st.rows)
    requires IsListing(first, st.kernel)
    requires IsListing(second, LifecyclePlan.Pass(s, BlockedIpPlan.Pass(s, st, first)).kernel)
    ensures var round1 := LifecyclePlan.Pass(s, BlockedIpPlan.Pass(s, st, first));
            var round2 := LifecyclePlan.Pass(s, BlockedIpPlan.Pass(s, round1, second));
            IsConverged(s, round2)
  {
    var afterBlock := BlockedIpPlan.Pass(s, st, first);
    BlockedPassKeepsIps(s, st, first);
    hide BlockedIpPlan.Pass, LifecyclePlan.Pass, AllSettled, NoBlankIps, IsWellFormed, IsConverged, IsListing;
    LifecyclePassSettles(s, afterBlock);
    BlockedPassConverges(s, LifecyclePlan.Pass(s, afterBlock), second);
  }

  // ----- Why the statement needs two rounds and one-to-one leases -----

  const HIDDEN_DEVICE: Device := Device(1, "aa", false, None, true, DhcpConfirmedProxy)
  const OTHER_DEVICE: Device := Device(2, "bb", false, None, true, DhcpConfirmedProxy)

  function Scene(leases: seq<Lease>): Snapshot {
    Snapshot([HIDDEN_DEVICE, OTHER_DEVICE], {1, 2}, leases, [], [Capture("aa", None)], 100)
  }

  lemma SceneFacts(leases: seq<Lease>)
    ensures DeviceById(Scene(leases).devices, 1) == Some(HIDDEN_DEVICE)
    ensures DeviceById(Scene(leases).devices, 2) == Some(OTHER_DEVICE)
    ensures IsWellFormed(Scene(leases))
    ensures BlockedIpPlan.IsConfirmed(Scene(leases), HIDDEN_DEVICE, "10.0.0.5")
    ensures !BlockedIpPlan.IsConfirmed(Scene(leases), OTHER_DEVICE, "10.0.0.5")
  {
    var s := Scene(leases);
    assert s.devices[..1] == [HIDDEN_DEVICE];
    assert Capture("aa", None) in s.captures;
  }

  /** A lone binding whose IP another MAC leases is released and its IP unblocked. */
  lemma LoneBindingIsReleased(s: Snapshot, b: Binding, kernel: set<Ip>)
    requires DeviceById(s.devices, b.device).Some?
    requires BlockedIpPlan.IsProxyManaged(s, DeviceById(s.devices, b.device).value)
    requires Lookup(LeaseMacByIp(s.leases, s.now, false), b.ip).Some?
    requires Lookup(LeaseMacByIp(s.leases, s.now, false), b.ip).value != DeviceById(s.devices, b.device).value.mac
    ensures LifecyclePlan.Pass(s, State(kernel, [b])) == State(kernel - {b.ip}, [])
  {
    var st := State(kernel, [b]);
    assert st.rows[..0] == [] && Without(st.rows[..0], b) == [] && Without(st.rows, b) == [];
    var calls := [Release(b.device, b.ip), Unblock(b.ip)];
    assert LifecyclePlan.Plan(s, st.rows[..0], st) == [];
    assert LifecyclePlan.StepCalls(s, b, st) == calls;
    assert LifecyclePlan.Plan(s, st.rows, st) == [] + calls == calls;
    BlockedIpPlan.ReplayTwo(calls[0], calls[1], st);
  }

  /** A kernel that already holds exactly the one expected IP is left alone, and nothing is recorded. */
  lemma HeldExpectedIpIsNotRecorded(s: Snapshot, st: State, ip: Ip)
    requires st.kernel == {ip} == BlockedIpPlan.Expected(s)
    ensures BlockedIpPlan.Pass(s, st, [ip]) == st
  {
    NothingToRelease(s, st.rows, [ip]);
    var order := BlockedIpPlan.ExpectedOrder(s, s.devices);
    assert Elements(order) == BlockedIpPlan.Expected(s);
    assert ip in BlockedIpPlan.AfterReleases(s, st.rows, [ip]);
    NothingToInstall(s, order, BlockedIpPlan.AfterReleases(s, st.rows, [ip]));
  }

  /** The only expected IP of an empty kernel is blocked and recorded. */
  lemma LoneExpectedIpIsInstalled(s: Snapshot, ip: Ip)
    requires BlockedIpPlan.Expected(s) == {ip}
    ensures BlockedIpPlan.Pass(s, State({}, []), [])
            == State({ip}, [Binding(BlockedIpPlan.ExpectedDevices(s, s.devices)[ip].id, ip)])
  {
    var st := State({}, []);
    var r := BlockedIpPlan.Pass(s, st, []);
    var b := Binding(BlockedIpPlan.ExpectedDevices(s, s.devices)[ip].id, ip);
    BlockedIpPlan.PassResult(s, st, []);
    assert forall x | x in r.rows :: BlockedIpPlan.IsInstalledBinding(s, x) && x == b;
    assert b in r.rows;
    ReplayKeepsRowsUnique(BlockedIpPlan.Plan(s, [], []), st);
    assert r.rows[0] == b && r.rows[|r.rows| - 1] == b;
  }

  lemma {:induction false} WithoutKeepsUnique(rows: seq<Binding>, b: Binding)
    requires NoDuplicates(rows)
    ensures NoDuplicates(Without(rows, b))
  {
    if rows != [] {
      var front, last := rows[..|rows| - 1], rows[|rows| - 1];
      WithoutKeepsUnique(front, b);
      assert last !in front;
      assert last !in Without(front, b);
    }
  }

  /** Rows stay unique on (device, IP), whatever calls are made. */
  lemma {:induction false} ReplayKeepsRowsUnique(effects: seq<Effect>, st: State)
    requires NoDuplicates(st.rows)
    ensures NoDuplicates(Replay(effects, st).rows)
  {
    if effects != [] {
      ReplayKeepsRowsUnique(effects[..|effects| - 1], st);
      var mid, e := Replay(effects[..|effects| - 1], st), effects[|effects| - 1];
      if e.Release? {
        WithoutKeepsUnique(mid.rows, Binding(e.device, e.ip));
      }
    }
  }

  lemma ExpectedInScene(leases: seq<Lease>)
    requires BlockedIpPlan.ExpectedIp(Scene(leases), HIDDEN_DEVICE) == Some("10.0.0.5")
    requires BlockedIpPlan.ExpectedIp(Scene(leases), OTHER_DEVICE) == None
    ensures BlockedIpPlan.Expected(Scene(leases)) == {"10.0.0.5"}
    ensures BlockedIpPlan.ExpectedDevices(Scene(leases), Scene(leases).devices)["10.0.0.5"] == HIDDEN_DEVICE
  {
    var s, ip := Scene(leases), "10.0.0.5";
    assert forall d | d in s.devices :: d == HIDDEN_DEVICE || d == OTHER_DEVICE;
    assert s.devices[0] == HIDDEN_DEVICE;
    assert ip in BlockedIpPlan.ExpectedOrder(s, s.devices);
    var m := BlockedIpPlan.ExpectedDevices(s, s.devices);
    forall x | x in m
      ensures x == ip
    {
      assert m[x] in s.devices;
    }
  }

  /**
   One round is not enough: the kernel already held the expected IP, so no
   binding was recorded, and releasing a stale binding unblocks it.
   */
  lemma OneRoundIsNotEnough()
    ensures var s := Scene([Lease(0, "aa", "10.0.0.5")]);
            var st := State({"10.0.0.5"}, [Binding(2, "10.0.0.5")]);
            && OneToOneLeases(s) && IsWellFormed(s) && NoBlankIps(st.rows)
            && IsListing(["10.0.0.5"], st.kernel)
            && "10.0.0.5" in BlockedIpPlan.Expected(s)
            && "10.0.0.5" !in LifecyclePlan.Pass(s, BlockedIpPlan.Pass(s, st, ["10.0.0.5"])).kernel
  {
    var ip := "10.0.0.5";
    var leases := [Lease(0, "aa", ip)];
    var s := Scene(leases);
    var stale := Binding(2, ip);
    var st := State({ip}, [stale]);
    SceneFacts(leases);
    assert leases[..0] == [] && "aa"[0] != "bb"[0];
    assert LeaseIpByMac(leases, 100, true) == map["aa" := ip];
    assert Lookup(LeaseMacByIp(leases, 100, false), ip) == Some("aa");
    ExpectedInScene(leases);
    assert Elements([ip]) == {ip};
    HeldExpectedIpIsNotRecorded(s, st, ip);
    LoneBindingIsReleased(s, stale, {ip});
  }

  /** The scene in which two MACs hold an active lease on one IP. */
  function SharedScene(): Snapshot {
    Scene([Lease(0, "aa", "10.0.0.5"), Lease(0, "bb", "10.0.0.5")])
  }

  lemma SharedSceneFacts()
    ensures IsWellFormed(SharedScene()) && !OneToOneLeases(SharedScene())
    ensures Lookup(LeaseMacByIp(SharedScene().leases, 100, false), "10.0.0.5") == Some("bb")
    ensures BlockedIpPlan.ExpectedIp(SharedScene(), HIDDEN_DEVICE) == Some("10.0.0.5")
    ensures BlockedIpPlan.ExpectedIp(SharedScene(), OTHER_DEVICE) == None
  {
    var leases := SharedScene().leases;
    SceneFacts(leases);
    assert "aa"[0] != "bb"[0];
    assert leases[0] in leases && leases[1] in leases;
    assert leases[..1] == [leases[0]] && [leases[0]][..0] == [];
    assert LeaseIpByMac([leases[0]], 100, true) == map["aa" := "10.0.0.5"];
    assert LeasedIp(SharedScene(), "aa") == Some("10.0.0.5");
    assert LeasedIp(SharedScene(), "bb") == Some("10.0.0.5");
  }

  /** Without one-to-one leases the passes can undo each other for ever. */
  lemma SharedLeaseNeverConverges()
    ensures var s, st := SharedScene(), State({}, []);
            && IsWellFormed(s) && NoBlankIps(st.rows) && IsListing([], st.kernel)
            && !OneToOneLeases(s)
            && BlockedIpPlan.Pass(s, st, []) != st
            && LifecyclePlan.Pass(s, BlockedIpPlan.Pass(s, st, [])) == st
  {
    var s, ip := SharedScene(), "10.0.0.5";
    SharedSceneFacts();
    SceneFacts(s.leases);
    ExpectedInScene(s.leases);
    LoneExpectedIpIsInstalled(s, ip);
    assert "aa"[0] != "bb"[0];
    LoneBindingIsReleased(s, Binding(1, ip), {ip});
  }
}
