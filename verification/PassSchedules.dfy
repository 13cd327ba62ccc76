/**
 The two services run on timers of their own, so their passes come in any order, and a
 failing call may cut any of them short. The mutation lock keeps two passes apart: see
 PromiseLock.OneAtATime.
 */
module PassSchedules {
  import opened Common
  import opened Observations
  import opened BindingEffects
  import BlockedIpPlan
  import LifecyclePlan
  import opened Convergence
  import opened BlockedIpServices

  /** A pass that makes at most its first `works` calls. */
  datatype Pass =
    | BlockedIpPass(listing: seq<Ip>, works: nat)
    | LifecyclePass(works: nat)

  function PlanOf(s: Snapshot, p: Pass, st: State): seq<Effect> {
    match p
    case BlockedIpPass(listing, _) => BlockedIpPlan.Plan(s, st.rows, listing)
    case LifecyclePass(_) => LifecyclePlan.Plan(s, st.rows, st)
  }

  function Step(s: Snapshot, p: Pass, st: State): State {
    Replay(Prefix(PlanOf(s, p, st), p.works), st)
  }

  function Run(s: Snapshot, passes: seq<Pass>, st: State): State {
    if passes == [] then st
    else Step(s, passes[|passes| - 1], Run(s, passes[..|passes| - 1], st))
  }

  /** The pass lists the kernel set that it finds. */
  predicate IsPossible(p: Pass, st: State) {
    p.BlockedIpPass? ==> IsListing(p.listing, st.kernel)
  }

  predicate ArePossible(s: Snapshot, passes: seq<Pass>, st: State) {
    passes == [] ||
    (var front := passes[..|passes| - 1];
     ArePossible(s, front, st) && IsPossible(passes[|passes| - 1], Run(s, front, st)))
  }

  /** No call of the pass fails. */
  predicate IsWhole(s: Snapshot, p: Pass, st: State) {
    |PlanOf(s, p, st)| <= p.works
  }

  // ----- What a cut pass can record -----

  lemma {:induction false} RowsAreOldOrRecorded(effects: seq<Effect>, st: State, b: Binding)
    requires b in Replay(effects, st).rows && b !in st.rows
    ensures Record(b.device, b.ip) in effects
  {
    if effects != [] {
      var front, last := effects[..|effects| - 1], effects[|effects| - 1];
      assert effects == front + [last];
      if b in Replay(front, st).rows {
        RowsAreOldOrRecorded(front, st, b);
      }
    }
  }

  lemma {:induction false} ReleasesRecordNothing(s: Snapshot, rows: seq<Binding>, listing: seq<Ip>)
    ensures forall e | e in BlockedIpPlan.ReleasePlan(s, rows, listing) :: !e.Record?
  {
    if listing != [] {
      ReleasesRecordNothing(s, rows, listing[..|listing| - 1]);
    }
  }

  lemma {:induction false} InstallsRecordExpected(s: Snapshot, order: seq<Ip>, current: set<Ip>)
    requires Elements(order) <= BlockedIpPlan.Expected(s)
    ensures forall e | e in BlockedIpPlan.InstallPlan(s, order, current) && e.Record? ::
              BlockedIpPlan.IsInstalledBinding(s, Binding(e.device, e.ip))
  {
    hide BlockedIpPlan.ExpectedDevices, BlockedIpPlan.Expected, BlockedIpPlan.InstallCalls;
    if order != [] {
      var front, ip := order[..|order| - 1], order[|order| - 1];
      assert ip in Elements(order);
      assert Elements(front) <= Elements(order);
      InstallsRecordExpected(s, front, current);
      ExpectedAreMapped(s, order);
      InstallRecordsOne(ip, BlockedIpPlan.ExpectedDevices(s, s.devices)[ip].id, current);
    }
  }

  lemma InstallRecordsOne(ip: Ip, device: nat, current: set<Ip>)
    ensures forall e | e in BlockedIpPlan.InstallCalls(ip, device, current) && e.Record? :: e == Record(device, ip)
  {
  }

  lemma FollowRecordsLeased(s: Snapshot, b: Binding, st: State)
    requires OneToOneLeases(s) && IsWellFormed(s)
    ensures forall e | e in LifecyclePlan.StepCalls(s, b, st) && e.Record? :: e.ip != ""
  {
    hide LeaseIpByMac, LeaseMacByIp, Replay, IsBound;
    DeviceByIdIsMember(s.devices, b.device);
    if DeviceById(s.devices, b.device).Some? {
      LeasedIsNotBlank(s, DeviceById(s.devices, b.device).value.mac);
    }
  }

  lemma LeasedIsNotBlank(s: Snapshot, mac: Mac)
    requires OneToOneLeases(s) && mac != ""
    ensures Lookup(LeaseIpByMac(s.leases, s.now, false), mac) != Some("")
  {
    hide LeaseIpByMac, IsLeaseActive;
    SameLeasedIp(s, mac);
    LeaseIpEntries(s.leases, s.now, true);
  }

  lemma {:induction false} FollowsRecordLeased(s: Snapshot, bindings: seq<Binding>, st: State)
    requires OneToOneLeases(s) && IsWellFormed(s)
    ensures forall e | e in LifecyclePlan.Plan(s, bindings, st) && e.Record? :: e.ip != ""
  {
    hide LifecyclePlan.StepCalls, OneToOneLeases, IsWellFormed, Replay;
    if bindings != [] {
      var front, b := bindings[..|bindings| - 1], bindings[|bindings| - 1];
      FollowsRecordLeased(s, front, st);
      FollowRecordsLeased(s, b, Replay(LifecyclePlan.Plan(s, front, st), st));
    }
  }

  // ----- Every step keeps what earlier passes have reached -----

  lemma StepKeepsIps(s: Snapshot, p: Pass, st: State)
    requires OneToOneLeases(s) && IsWellFormed(s) && NoBlankIps(st.rows)
    ensures NoBlankIps(Step(s, p, st).rows)
  {
    hide BlockedIpPlan.ReleasePlan, BlockedIpPlan.InstallPlan, LifecyclePlan.Plan, Replay;
    var calls := Prefix(PlanOf(s, p, st), p.works);
    RecordsAreGood(s, p, st);
    forall b | b in Replay(calls, st).rows
      ensures b.ip != ""
    {
      if b !in st.rows {
        RowsAreOldOrRecorded(calls, st, b);
        assert Record(b.device, b.ip) in PlanOf(s, p, st);
      }
    }
  }

  /** Whatever a pass records has an address, and what the blocked-IP pass records is settled. */
  lemma RecordsAreGood(s: Snapshot, p: Pass, st: State)
    requires OneToOneLeases(s) && IsWellFormed(s)
    ensures forall e | e in PlanOf(s, p, st) && e.Record? ::
              e.ip != "" && (p.BlockedIpPass? ==> IsSettled(s, Binding(e.device, e.ip)))
  {
    hide BlockedIpPlan.ReleasePlan, BlockedIpPlan.InstallPlan, BlockedIpPlan.ExpectedDevices, IsSettled;
    match p {
      case BlockedIpPass(listing, _) =>
        ReleasesRecordNothing(s, st.rows, listing);
        InstallsRecordExpected(s, BlockedIpPlan.ExpectedOrder(s, s.devices),
                               BlockedIpPlan.AfterReleases(s, st.rows, listing));
        ExpectedIsNotBlank(s);
        forall e | e in PlanOf(s, p, st) && e.Record?
          ensures e.ip != "" && IsSettled(s, Binding(e.device, e.ip))
        {
          InstalledIsSettled(s, Binding(e.device, e.ip));
        }
      case LifecyclePass(_) =>
        FollowsRecordLeased(s, st.rows, st);
    }
  }

  lemma InstalledIsSettled(s: Snapshot, b: Binding)
    requires IsWellFormed(s) && BlockedIpPlan.IsInstalledBinding(s, b)
    ensures IsSettled(s, b) && b.ip != ""
  {
    DeviceByIdFinds(s.devices, BlockedIpPlan.ExpectedDevices(s, s.devices)[b.ip]);
  }

  lemma StepKeepsSettled(s: Snapshot, p: Pass, st: State)
    requires OneToOneLeases(s) && IsWellFormed(s) && NoBlankIps(st.rows) && AllSettled(s, st.rows)
    ensures AllSettled(s, Step(s, p, st).rows)
  {
    hide BlockedIpPlan.ReleasePlan, BlockedIpPlan.InstallPlan, LifecyclePlan.Plan, Replay, IsSettled;
    var calls := Prefix(PlanOf(s, p, st), p.works);
    RecordsAreGood(s, p, st);
    if p.LifecyclePass? {
      SettledPlanIsEmpty(s, st.rows, st);
      ReplayNone(st);
    }
    forall b | b in Replay(calls, st).rows
      ensures IsSettled(s, b)
    {
      if b !in st.rows {
        RowsAreOldOrRecorded(calls, st, b);
        assert Record(b.device, b.ip) in PlanOf(s, p, st);
      }
    }
  }

  lemma WholeStepIsPass(s: Snapshot, p: Pass, st: State)
    requires IsWhole(s, p, st)
    ensures Step(s, p, st) == match p
                              case BlockedIpPass(listing, _) => BlockedIpPlan.Pass(s, st, listing)
                              case LifecyclePass(_) => LifecyclePlan.Pass(s, st)
  {
    hide BlockedIpPlan.Plan, LifecyclePlan.Plan, Replay;
    var plan := PlanOf(s, p, st);
    assert plan[..|plan|] == plan;
  }

  lemma StepKeepsConverged(s: Snapshot, p: Pass, st: State)
    requires IsConverged(s, st) && IsPossible(p, st)
    ensures Step(s, p, st) == st
  {
    hide BlockedIpPlan.Plan, LifecyclePlan.Plan;
    assert PlanOf(s, p, st) == [];
    ReplayNone(st);
  }

  // ----- Any schedule -----

  lemma {:induction false} RunKeepsIps(s: Snapshot, passes: seq<Pass>, st: State)
    requires OneToOneLeases(s) && IsWellFormed(s) && NoBlankIps(st.rows)
    ensures NoBlankIps(Run(s, passes, st).rows)
  {
    hide NoBlankIps, Step;
    if passes != [] {
      RunKeepsIps(s, passes[..|passes| - 1], st);
      StepKeepsIps(s, passes[|passes| - 1], Run(s, passes[..|passes| - 1], st));
    }
  }

  /** After one whole lifecycle pass every binding is settled for good. */
  lemma {:induction false} SettledEverAfter(s: Snapshot, passes: seq<Pass>, st: State, i: nat)
    requires OneToOneLeases(s) && IsWellFormed(s) && NoBlankIps(st.rows)
    requires i < |passes| && passes[i].LifecyclePass? && IsWhole(s, passes[i], Run(s, passes[..i], st))
    ensures AllSettled(s, Run(s, passes, st).rows)
  {
    hide NoBlankIps, Step, AllSettled, IsWhole;
    var front, last := passes[..|passes| - 1], passes[|passes| - 1];
    var mid := Run(s, front, st);
    RunKeepsIps(s, front, st);
    if i == |front| {
      assert passes[..i] == front;
      WholeStepIsPass(s, last, mid);
      LifecyclePassSettles(s, mid);
    } else {
      assert passes[..i] == front[..i];
      SettledEverAfter(s, front, st, i);
      StepKeepsSettled(s, last, mid);
    }
  }

  /**
   In every schedule of passes, cut short or not, one whole lifecycle pass and one whole
   blocked-IP pass at any time after it reach a state that no later pass changes.
   */
  lemma {:induction false} AnyScheduleConverges(s: Snapshot, passes: seq<Pass>, st: State, i: nat, j: nat)
    requires OneToOneLeases(s) && IsWellFormed(s) && NoBlankIps(st.rows) && ArePossible(s, passes, st)
    requires i < j < |passes| && passes[i].LifecyclePass? && passes[j].BlockedIpPass?
    requires IsWhole(s, passes[i], Run(s, passes[..i], st)) && IsWhole(s, passes[j], Run(s, passes[..j], st))
    ensures IsConverged(s, Run(s, passes, st))
    ensures Run(s, passes, st) == Run(s, passes[..j + 1], st)
  {
    hide NoBlankIps, Step, AllSettled, IsWhole, IsConverged;
    var front, last := passes[..|passes| - 1], passes[|passes| - 1];
    var mid := Run(s, front, st);
    assert passes[..i] == front[..i] && passes[..j] == front[..j];
    if j == |front| {
      assert passes[..j] == front && passes[..j + 1] == passes;
      SettledEverAfter(s, front, st, i);
      RunKeepsIps(s, front, st);
      WholeStepIsPass(s, last, mid);
      BlockedPassConverges(s, mid, last.listing);
    } else {
      AnyScheduleConverges(s, front, st, i, j);
      StepKeepsConverged(s, last, mid);
      assert passes[..j + 1] == front[..j + 1];
    }
  }
}
