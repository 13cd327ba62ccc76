/**
 When a single round of the two passes is enough: what each pass does to one IP, and
 the condition on the state before the round that decides it.
 */
module OneRound {
  import opened Common
  import opened Observations
  import opened BindingEffects
  import opened Convergence
  import BlockedIpPlan
  import LifecyclePlan

  // ----- What the lifecycle pass does with one binding -----

  /** A binding stays, is dropped because its IP was reassigned, or goes where its device went. */
  datatype Move = Stay | Drop | Go(target: Ip)

  function MoveOf(s: Snapshot, b: Binding): Move {
    if IsSettled(s, b) then Stay
    else if LeaseOwner(s, b.ip).Some? then Drop
    else
      match LeasedIp(s, DeviceById(s.devices, b.device).value.mac)
      case Some(ip) => Go(ip)
      case None => Drop
  }

  lemma MoveCalls(s: Snapshot, b: Binding, st: State)
    requires OneToOneLeases(s) && IsWellFormed(s) && b.ip != ""
    ensures match MoveOf(s, b)
            case Stay => LifecyclePlan.StepCalls(s, b, st) == []
            case Drop => LifecyclePlan.StepCalls(s, b, st) == LifecyclePlan.ReleaseThenUnblock(b, st)
            case Go(ip) =>
              && ip != b.ip && LeaseOwner(s, b.ip).None?
              && var follow := [Block(ip), Record(b.device, ip)];
                 LifecyclePlan.StepCalls(s, b, st)
                 == follow + LifecyclePlan.ReleaseThenUnblock(b, Replay(follow, st))
  {
    hide LifecyclePlan.ReleaseThenUnblock, Replay;
    StepIsIdleIffSettled(s, b, st);
    if !IsSettled(s, b) {
      DeviceByIdIsMember(s.devices, b.device);
      var d := DeviceById(s.devices, b.device).value;
      PassesReadTheSameLeases(s, b.ip);
      PassesReadTheSameLeases(s, d.mac);
      LeasesAreInverse(s, d.mac, b.ip);
    }
  }

  /** A binding that a device was followed to is settled. */
  lemma TargetIsSettled(s: Snapshot, b: Binding, x: Binding)
    requires MoveOf(s, b) == Go(x.ip) && x.device == b.device
    ensures IsSettled(s, x)
  {
  }

  lemma ReleaseResult(b: Binding, st: State)
    ensures var r := Replay(LifecyclePlan.ReleaseThenUnblock(b, st), st);
            && r.rows == Without(st.rows, b)
            && r.kernel == if IsBound(Without(st.rows, b), b.ip) then st.kernel else st.kernel - {b.ip}
  {
    if IsBound(Without(st.rows, b), b.ip) {
      BlockedIpPlan.ReplayOne(Release(b.device, b.ip), st);
    } else {
      BlockedIpPlan.ReplayTwo(Release(b.device, b.ip), Unblock(b.ip), st);
    }
  }

  /** One visit, seen at one IP. */
  ghost predicate VisitAt(s: Snapshot, b: Binding, st: State, r: State, ip: Ip) {
    && (forall x: Binding | x.ip == ip ::
          x in r.rows <==> (x in st.rows && (x == b ==> IsSettled(s, b)))
                           || (MoveOf(s, b) == Go(ip) && x == Binding(b.device, ip)))
    && (ip in r.kernel <==> MoveOf(s, b) == Go(ip)
                            || (ip in st.kernel && (b.ip == ip && !IsSettled(s, b) ==> IsBound(r.rows, ip))))
  }

  lemma VisitResult(s: Snapshot, b: Binding, st: State, ip: Ip)
    requires OneToOneLeases(s) && IsWellFormed(s) && b.ip != ""
    ensures VisitAt(s, b, st, Replay(LifecyclePlan.StepCalls(s, b, st), st), ip)
  {
    hide LifecyclePlan.StepCalls, LifecyclePlan.ReleaseThenUnblock, IsSettled, Replay, VisitAt, OneToOneLeases, Without;
    MoveCalls(s, b, st);
    MoveIsStayIffSettled(s, b);
    match MoveOf(s, b)
    case Stay =>
      NoCalls(st);
      StayAt(s, b, st, ip);
    case Drop =>
      ReleaseResult(b, st);
      ReleaseAt(s, b, st, st, Replay(LifecyclePlan.ReleaseThenUnblock(b, st), st), ip);
    case Go(target) =>
      var follow := [Block(target), Record(b.device, target)];
      BlockedIpPlan.ReplayTwo(follow[0], follow[1], st);
      var mid := Replay(follow, st);
      ReplayConcat(follow, LifecyclePlan.ReleaseThenUnblock(b, mid), st);
      ReleaseResult(b, mid);
      FollowAt(b, target, st, mid);
      ReleaseAt(s, b, st, mid, Replay(LifecyclePlan.ReleaseThenUnblock(b, mid), mid), ip);
  }

  lemma StayAt(s: Snapshot, b: Binding, st: State, ip: Ip)
    requires MoveOf(s, b) == Stay && IsSettled(s, b)
    ensures VisitAt(s, b, st, st, ip)
  {
    hide MoveOf, IsSettled, IsBound;
  }

  /** Blocking and recording the target, before the release. */
  lemma FollowAt(b: Binding, target: Ip, st: State, mid: State)
    requires mid == Apply(Record(b.device, target), Apply(Block(target), st))
    ensures mid.kernel == st.kernel + {target}
    ensures forall x :: x in mid.rows <==> x in st.rows || x == Binding(b.device, target)
  {
  }

  lemma ReleaseAt(s: Snapshot, b: Binding, st: State, mid: State, r: State, ip: Ip)
    requires !IsSettled(s, b)
    requires match MoveOf(s, b)
             case Stay => false
             case Drop => mid == st
             case Go(target) =>
               && target != b.ip && mid.kernel == st.kernel + {target}
               && forall x :: x in mid.rows <==> x in st.rows || x == Binding(b.device, target)
    requires forall x :: x in r.rows <==> x in mid.rows && x != b
    requires r.kernel == if IsBound(r.rows, b.ip) then mid.kernel else mid.kernel - {b.ip}
    ensures VisitAt(s, b, st, r, ip)
  {
    hide MoveOf, IsSettled, IsBound;
  }

  lemma NoCalls(st: State)
    ensures Replay([], st) == st
  {
  }

  lemma MoveIsStayIffSettled(s: Snapshot, b: Binding)
    ensures MoveOf(s, b) == Stay <==> IsSettled(s, b)
  {
  }

  // ----- What the lifecycle pass does to one IP -----

  /** Some visited binding's device is followed to the IP. */
  ghost predicate IsFollowedTo(s: Snapshot, visited: seq<Binding>, ip: Ip) {
    exists b | b in visited :: MoveOf(s, b) == Go(ip)
  }

  ghost predicate IsRecorded(s: Snapshot, visited: seq<Binding>, x: Binding) {
    exists b | b in visited :: MoveOf(s, b) == Go(x.ip) && b.device == x.device
  }

  ghost predicate IsReleased(s: Snapshot, visited: seq<Binding>, x: Binding) {
    x in visited && !IsSettled(s, x)
  }

  ghost predicate HasReleased(s: Snapshot, visited: seq<Binding>, ip: Ip) {
    exists x :: IsReleased(s, visited, x) && x.ip == ip
  }

  /** Some row at the IP has not been released. */
  ghost predicate Remains(s: Snapshot, rows: seq<Binding>, visited: seq<Binding>, ip: Ip) {
    exists x | x in rows :: x.ip == ip && !IsReleased(s, visited, x)
  }

  /** After visiting some bindings: the rows at the IP, and whether it is blocked. */
  ghost predicate VisitedAt(s: Snapshot, visited: seq<Binding>, st: State, r: State, ip: Ip) {
    && (forall x: Binding | x.ip == ip ::
          x in r.rows <==> (x in st.rows && !IsReleased(s, visited, x)) || IsRecorded(s, visited, x))
    && (ip in r.kernel <==>
          || IsFollowedTo(s, visited, ip)
          || (ip in st.kernel && (HasReleased(s, visited, ip) ==> Remains(s, st.rows, visited, ip))))
  }

  lemma NothingVisited(s: Snapshot, st: State, ip: Ip)
    ensures VisitedAt(s, [], st, st, ip)
  {
  }

  lemma OneMoreVisited(s: Snapshot, front: seq<Binding>, b: Binding, st: State, mid: State, r: State, ip: Ip)
    requires VisitedAt(s, front, st, mid, ip) && VisitAt(s, b, mid, r, ip)
    ensures VisitedAt(s, front + [b], st, r, ip)
  {
    hide MoveOf, IsSettled;
    var visited := front + [b];
    forall x: Binding
      ensures IsReleased(s, visited, x) <==> IsReleased(s, front, x) || (x == b && !IsSettled(s, b))
      ensures x.ip == ip ==>
                (IsRecorded(s, visited, x) <==> IsRecorded(s, front, x)
                                                || (MoveOf(s, b) == Go(ip) && x == Binding(b.device, ip)))
      ensures IsRecorded(s, visited, x) ==> IsSettled(s, x)
    {
      RecordedOneMore(s, front, b, x);
    }
    FollowedOneMore(s, front, b, ip);
    RowsAtVisited(s, front, b, st, mid, r, ip);
    KernelAtVisited(s, front, b, st, mid, r, ip);
  }

  lemma RecordedOneMore(s: Snapshot, front: seq<Binding>, b: Binding, x: Binding)
    ensures IsReleased(s, front + [b], x) <==> IsReleased(s, front, x) || (x == b && !IsSettled(s, b))
    ensures IsRecorded(s, front + [b], x) <==> IsRecorded(s, front, x)
                                               || (MoveOf(s, b) == Go(x.ip) && x == Binding(b.device, x.ip))
    ensures IsRecorded(s, front + [b], x) ==> IsSettled(s, x)
  {
    if IsRecorded(s, front + [b], x) {
      var c :| c in front + [b] && MoveOf(s, c) == Go(x.ip) && c.device == x.device;
      TargetIsSettled(s, c, x);
    }
    hide MoveOf, IsSettled;
    assert b in front + [b] && forall c | c in front :: c in front + [b];
  }

  lemma FollowedOneMore(s: Snapshot, front: seq<Binding>, b: Binding, ip: Ip)
    ensures IsFollowedTo(s, front + [b], ip) <==> IsFollowedTo(s, front, ip) || MoveOf(s, b) == Go(ip)
  {
    hide MoveOf;
    assert b in front + [b] && forall c | c in front :: c in front + [b];
  }

  lemma RowsAtVisited(s: Snapshot, front: seq<Binding>, b: Binding, st: State, mid: State, r: State, ip: Ip)
    requires VisitedAt(s, front, st, mid, ip) && VisitAt(s, b, mid, r, ip)
    ensures forall x: Binding | x.ip == ip ::
              x in r.rows <==> (x in st.rows && !IsReleased(s, front + [b], x)) || IsRecorded(s, front + [b], x)
  {
    hide MoveOf, IsSettled, IsReleased, IsRecorded;
    forall x: Binding | x.ip == ip
      ensures x in r.rows <==> (x in st.rows && !IsReleased(s, front + [b], x)) || IsRecorded(s, front + [b], x)
    {
      RecordedOneMore(s, front, b, x);
    }
  }

  lemma KernelAtVisited(s: Snapshot, front: seq<Binding>, b: Binding, st: State, mid: State, r: State, ip: Ip)
    requires VisitedAt(s, front, st, mid, ip) && VisitAt(s, b, mid, r, ip)
    ensures ip in r.kernel <==>
              || IsFollowedTo(s, front + [b], ip)
              || (ip in st.kernel && (HasReleased(s, front + [b], ip) ==> Remains(s, st.rows, front + [b], ip)))
  {
    var visited := front + [b];
    RowsAtVisited(s, front, b, st, mid, r, ip);
    FollowedOneMore(s, front, b, ip);
    FollowedMeansRecorded(s, visited, ip);
    forall x: Binding
      ensures IsReleased(s, visited, x) <==> IsReleased(s, front, x) || (x == b && !IsSettled(s, b))
    {
      RecordedOneMore(s, front, b, x);
    }
    BoundAtVisited(s, visited, st, r, ip);
    ReleasedOneMore(s, front, b, st.rows, ip);
    hide MoveOf, IsSettled, IsReleased, IsRecorded, IsFollowedTo, HasReleased, Remains, IsBound;
  }

  lemma FollowedMeansRecorded(s: Snapshot, visited: seq<Binding>, ip: Ip)
    ensures IsFollowedTo(s, visited, ip) <==> exists x: Binding :: x.ip == ip && IsRecorded(s, visited, x)
  {
    hide MoveOf;
    if IsFollowedTo(s, visited, ip) {
      var b :| b in visited && MoveOf(s, b) == Go(ip);
      assert IsRecorded(s, visited, Binding(b.device, ip));
    }
  }

  lemma BoundAtVisited(s: Snapshot, visited: seq<Binding>, st: State, r: State, ip: Ip)
    requires forall x: Binding | x.ip == ip ::
               x in r.rows <==> (x in st.rows && !IsReleased(s, visited, x)) || IsRecorded(s, visited, x)
    ensures IsBound(r.rows, ip) <==> Remains(s, st.rows, visited, ip) || IsFollowedTo(s, visited, ip)
  {
    FollowedMeansRecorded(s, visited, ip);
    hide MoveOf, IsSettled, IsReleased, IsRecorded, IsFollowedTo;
  }

  lemma ReleasedOneMore(s: Snapshot, front: seq<Binding>, b: Binding, rows: seq<Binding>, ip: Ip)
    ensures HasReleased(s, front + [b], ip) <==> HasReleased(s, front, ip) || (b.ip == ip && !IsSettled(s, b))
    ensures Remains(s, rows, front + [b], ip) ==> Remains(s, rows, front, ip)
    ensures !(b.ip == ip && !IsSettled(s, b)) ==>
              (Remains(s, rows, front + [b], ip) <==> Remains(s, rows, front, ip))
  {
    forall x: Binding
      ensures IsReleased(s, front + [b], x) <==> IsReleased(s, front, x) || (x == b && !IsSettled(s, b))
    {
      RecordedOneMore(s, front, b, x);
    }
    hide IsReleased, IsSettled;
    if b.ip == ip && !IsSettled(s, b) {
      assert IsReleased(s, front + [b], b);
    }
  }

  lemma {:induction false} PlanAt(s: Snapshot, visited: seq<Binding>, st: State, ip: Ip)
    requires OneToOneLeases(s) && IsWellFormed(s) && NoBlankIps(visited)
    ensures VisitedAt(s, visited, st, Replay(LifecyclePlan.Plan(s, visited, st), st), ip)
  {
    hide VisitedAt, VisitAt, LifecyclePlan.StepCalls, Replay, OneToOneLeases, IsWellFormed;
    if visited == [] {
      NoCalls(st);
      NothingVisited(s, st, ip);
    } else {
      var front, b := visited[..|visited| - 1], visited[|visited| - 1];
      assert visited == front + [b];
      PlanAt(s, front, st, ip);
      var plan := LifecyclePlan.Plan(s, front, st);
      var mid := Replay(plan, st);
      VisitResult(s, b, mid, ip);
      ReplayConcat(plan, LifecyclePlan.StepCalls(s, b, mid), st);
      OneMoreVisited(s, front, b, st, mid, Replay(LifecyclePlan.StepCalls(s, b, mid), mid), ip);
    }
  }

  /** An IP that is bound has a settled binding, or some binding is followed to it. */
  ghost predicate IsHeld(s: Snapshot, rows: seq<Binding>, ip: Ip) {
    || (IsBound(rows, ip) ==> exists b | b in rows :: b.ip == ip && IsSettled(s, b))
    || IsFollowedTo(s, rows, ip)
  }

  /** The lifecycle pass blocks exactly the IPs it follows a device to and the held ones that were blocked. */
  lemma LifecyclePassKernel(s: Snapshot, st: State, ip: Ip)
    requires OneToOneLeases(s) && IsWellFormed(s) && NoBlankIps(st.rows)
    ensures ip in LifecyclePlan.Pass(s, st).kernel <==>
              IsFollowedTo(s, st.rows, ip) || (ip in st.kernel && IsHeld(s, st.rows, ip))
  {
    PlanAt(s, st.rows, st, ip);
    AllVisited(s, st.rows, ip);
    hide IsSettled, MoveOf, IsReleased, IsRecorded, Remains, HasReleased, IsFollowedTo, IsBound;
  }

  lemma AllVisited(s: Snapshot, rows: seq<Binding>, ip: Ip)
    ensures IsHeld(s, rows, ip) <==>
              IsFollowedTo(s, rows, ip) || (HasReleased(s, rows, ip) ==> Remains(s, rows, rows, ip))
  {
    hide IsSettled, MoveOf, IsFollowedTo;
    if IsBound(rows, ip) && !HasReleased(s, rows, ip) {
      var b :| b in rows && b.ip == ip;
      assert !IsReleased(s, rows, b);
    }
    if HasReleased(s, rows, ip) {
      var x :| IsReleased(s, rows, x) && x.ip == ip;
      assert IsBound(rows, ip);
    }
  }

  // ----- What the blocked-IP pass does to the rows -----

  /** The release loop found positive evidence, and this is the binding it looked at. */
  predicate IsDropped(s: Snapshot, st: State, b: Binding) {
    && b.ip in st.kernel && BlockedIpPlan.MustRelease(s, st.rows, b.ip) && LastAt(st.rows, b.ip) == Some(b)
  }

  /** The install loop records the device expected at a missing IP. */
  predicate IsInstalled(s: Snapshot, current: set<Ip>, b: Binding) {
    && b.ip in BlockedIpPlan.ExpectedDevices(s, s.devices) && b.ip !in current
    && b.device == BlockedIpPlan.ExpectedDevices(s, s.devices)[b.ip].id
  }

  lemma ReleaseCallsRows(s: Snapshot, rows: seq<Binding>, ip: Ip, st: State)
    ensures forall b :: b in Replay(BlockedIpPlan.ReleaseCalls(s, rows, ip), st).rows <==>
              b in st.rows && !(BlockedIpPlan.MustRelease(s, rows, ip) && LastAt(rows, ip) == Some(b))
  {
    hide BlockedIpPlan.MustRelease, Without;
    LastAtIsMember(rows, ip);
    if !BlockedIpPlan.MustRelease(s, rows, ip) {
      NoCalls(st);
    } else {
      match LastAt(rows, ip)
      case None => BlockedIpPlan.ReplayOne(Unblock(ip), st);
      case Some(b) => BlockedIpPlan.ReplayTwo(Unblock(ip), Release(b.device, ip), st);
    }
  }

  lemma {:induction false} ReleasePlanRows(s: Snapshot, st: State, listing: seq<Ip>)
    ensures forall b :: b in Replay(BlockedIpPlan.ReleasePlan(s, st.rows, listing), st).rows <==>
              b in st.rows && !(b.ip in listing && BlockedIpPlan.MustRelease(s, st.rows, b.ip)
                                && LastAt(st.rows, b.ip) == Some(b))
  {
    hide BlockedIpPlan.MustRelease, BlockedIpPlan.ReleaseCalls, LastAt, Replay;
    if listing == [] {
      NoCalls(st);
    } else {
      var front, ip := listing[..|listing| - 1], listing[|listing| - 1];
      assert listing == front + [ip];
      ReleasePlanRows(s, st, front);
      var plan := BlockedIpPlan.ReleasePlan(s, st.rows, front);
      ReplayConcat(plan, BlockedIpPlan.ReleaseCalls(s, st.rows, ip), st);
      ReleaseCallsRows(s, st.rows, ip, Replay(plan, st));
      LastAtIsMember(st.rows, ip);
    }
  }

  lemma {:induction false} InstallPlanRows(s: Snapshot, st: State, order: seq<Ip>, current: set<Ip>)
    requires Elements(order) <= BlockedIpPlan.Expected(s)
    ensures forall b :: b in Replay(BlockedIpPlan.InstallPlan(s, order, current), st).rows <==>
              b in st.rows || (b.ip in order && IsInstalled(s, current, b))
  {
    hide BlockedIpPlan.ExpectedDevices, Replay;
    if order == [] {
      NoCalls(st);
    } else {
      var front, ip := order[..|order| - 1], order[|order| - 1];
      assert order == front + [ip] && ip in Elements(order);
      assert Elements(front) <= Elements(order);
      InstallPlanRows(s, st, front, current);
      var plan := BlockedIpPlan.InstallPlan(s, front, current);
      var device := BlockedIpPlan.ExpectedDevices(s, s.devices)[ip].id;
      ReplayConcat(plan, BlockedIpPlan.InstallCalls(ip, device, current), st);
      InstallCallsRows(ip, device, current, Replay(plan, st));
    }
  }

  lemma InstallCallsRows(ip: Ip, device: nat, current: set<Ip>, st: State)
    ensures forall b :: b in Replay(BlockedIpPlan.InstallCalls(ip, device, current), st).rows <==>
              b in st.rows || (ip !in current && b == Binding(device, ip))
  {
    if ip in current {
      NoCalls(st);
    } else {
      BlockedIpPlan.ReplayTwo(Block(ip), Record(device, ip), st);
    }
  }

  /** The rows after a pass: the old ones that were not dropped, and the devices of the missing expected IPs. */
  lemma PassRows(s: Snapshot, st: State, listing: seq<Ip>)
    requires IsListing(listing, st.kernel)
    ensures forall b :: b in BlockedIpPlan.Pass(s, st, listing).rows <==>
              (b in st.rows && !IsDropped(s, st, b)) || IsInstalled(s, st.kernel, b)
  {
    var release := BlockedIpPlan.ReleasePlan(s, st.rows, listing);
    var current := BlockedIpPlan.AfterReleases(s, st.rows, listing);
    var order := BlockedIpPlan.ExpectedOrder(s, s.devices);
    assert forall ip :: ip in listing <==> ip in st.kernel by {
      assert Elements(listing) == st.kernel;
    }
    ReleasePlanRows(s, st, listing);
    InstallPlanRows(s, Replay(release, st), order, current);
    ReplayConcat(release, BlockedIpPlan.InstallPlan(s, order, current), st);
    assert forall b: Binding :: b.ip in order && IsInstalled(s, current, b) <==> IsInstalled(s, st.kernel, b);
    hide BlockedIpPlan.MustRelease, LastAt, Replay, BlockedIpPlan.ReleasePlan, BlockedIpPlan.InstallPlan, IsInstalled;
  }

  // ----- One round -----

  /**
   Before the round: the IP has no binding, or a settled one, or a device will be followed
   to it whose binding the blocked-IP pass leaves alone.
   */
  ghost predicate WillBeHeld(s: Snapshot, st: State, ip: Ip) {
    || (IsBound(st.rows, ip) ==> exists b | b in st.rows :: b.ip == ip && IsSettled(s, b))
    || exists b | b in st.rows ::
         MoveOf(s, b) == Go(ip) && !(b.ip in st.kernel && LastAt(st.rows, b.ip) == Some(b))
  }

  lemma InstalledIsSettled(s: Snapshot, current: set<Ip>, b: Binding)
    requires IsWellFormed(s) && IsInstalled(s, current, b)
    ensures IsSettled(s, b)
  {
    DeviceByIdFinds(s.devices, BlockedIpPlan.ExpectedDevices(s, s.devices)[b.ip]);
  }

  /** Expected IPs are leased, so none is dropped; a device that moved away from an unleased IP is evidence. */
  lemma DroppedFacts(s: Snapshot, st: State, b: Binding, ip: Ip)
    requires OneToOneLeases(s) && IsWellFormed(s) && b.ip != ""
    ensures IsDropped(s, st, b) ==> b.ip !in BlockedIpPlan.Expected(s)
    ensures MoveOf(s, b) == Go(ip) ==>
              (IsDropped(s, st, b) <==> b.ip in st.kernel && LastAt(st.rows, b.ip) == Some(b))
  {
    MoveCalls(s, b, st);
    if MoveOf(s, b) == Go(ip) {
      UnleasedIsNotExpected(s, b.ip);
      DeviceByIdIsMember(s.devices, b.device);
    }
    hide LifecyclePlan.StepCalls, LifecyclePlan.ReleaseThenUnblock, Replay;
  }

  lemma UnleasedIsNotExpected(s: Snapshot, ip: Ip)
    requires OneToOneLeases(s) && LeaseOwner(s, ip).None?
    ensures ip !in BlockedIpPlan.Expected(s)
  {
    if ip in BlockedIpPlan.Expected(s) {
      var d := BlockedIpPlan.ExpectedDevices(s, s.devices)[ip];
      LeasesAreInverse(s, d.mac, ip);
      assert false;
    }
  }

  /** For a blocked expected IP, being held after the blocked-IP pass can be told before it. */
  lemma HeldIsKnownBefore(s: Snapshot, st: State, listing: seq<Ip>, ip: Ip)
    requires OneToOneLeases(s) && IsWellFormed(s) && NoBlankIps(st.rows) && IsListing(listing, st.kernel)
    requires ip in BlockedIpPlan.Expected(s) && ip in st.kernel
    ensures IsHeld(s, BlockedIpPlan.Pass(s, st, listing).rows, ip) <==> WillBeHeld(s, st, ip)
  {
    hide BlockedIpPlan.Pass, MoveOf, IsSettled, LastAt, BlockedIpPlan.Expected, OneToOneLeases, IsWellFormed;
    PassRows(s, st, listing);
    var rows := BlockedIpPlan.Pass(s, st, listing).rows;
    forall b | b in st.rows
      ensures b.ip == ip ==> b in rows
      ensures MoveOf(s, b) == Go(ip) ==>
                (b in rows <==> !(b.ip in st.kernel && LastAt(st.rows, b.ip) == Some(b)))
    {
      DroppedFacts(s, st, b, ip);
      if IsInstalled(s, st.kernel, b) {
        InstalledIsSettled(s, st.kernel, b);
        MoveIsStayIffSettled(s, b);
      }
    }
    forall b | b in rows && b !in st.rows
      ensures b.ip != ip && MoveOf(s, b) != Go(ip)
    {
      InstalledIsSettled(s, st.kernel, b);
      MoveIsStayIffSettled(s, b);
    }
    hide IsDropped, IsInstalled;
  }

  /** An expected IP that the kernel does not hold yet gets a settled binding. */
  lemma MissingIsHeld(s: Snapshot, st: State, listing: seq<Ip>, ip: Ip)
    requires IsWellFormed(s) && IsListing(listing, st.kernel)
    requires ip in BlockedIpPlan.Expected(s) && ip !in st.kernel
    ensures IsHeld(s, BlockedIpPlan.Pass(s, st, listing).rows, ip)
  {
    hide BlockedIpPlan.Pass, MoveOf, IsSettled, LastAt, IsDropped;
    PassRows(s, st, listing);
    var b := Binding(BlockedIpPlan.ExpectedDevices(s, s.devices)[ip].id, ip);
    assert IsInstalled(s, st.kernel, b);
    InstalledIsSettled(s, st.kernel, b);
  }

  /**
   One round of both passes leaves every expected IP blocked if and only if every expected
   IP that was blocked before satisfies a condition on the state before the round.
   */
  lemma OneRoundSufficesIff(s: Snapshot, st: State, listing: seq<Ip>)
    requires OneToOneLeases(s) && IsWellFormed(s) && NoBlankIps(st.rows) && IsListing(listing, st.kernel)
    ensures BlockedIpPlan.Expected(s) <= LifecyclePlan.Pass(s, BlockedIpPlan.Pass(s, st, listing)).kernel
            <==> forall ip | ip in BlockedIpPlan.Expected(s) && ip in st.kernel :: WillBeHeld(s, st, ip)
  {
    hide BlockedIpPlan.Pass, LifecyclePlan.Pass, WillBeHeld, IsHeld, IsListing, NoBlankIps;
    hide BlockedIpPlan.Expected, OneToOneLeases, IsWellFormed, IsFollowedTo;
    var r := BlockedIpPlan.Pass(s, st, listing);
    BlockedPassKeepsIps(s, st, listing);
    forall ip | ip in BlockedIpPlan.Expected(s)
      ensures ip in LifecyclePlan.Pass(s, r).kernel <==> (ip in st.kernel ==> WillBeHeld(s, st, ip))
    {
      ExpectedAfterRound(s, st, listing, ip);
    }
  }

  lemma ExpectedAfterRound(s: Snapshot, st: State, listing: seq<Ip>, ip: Ip)
    requires OneToOneLeases(s) && IsWellFormed(s) && NoBlankIps(st.rows) && IsListing(listing, st.kernel)
    requires ip in BlockedIpPlan.Expected(s)
    ensures ip in LifecyclePlan.Pass(s, BlockedIpPlan.Pass(s, st, listing)).kernel
            <==> (ip in st.kernel ==> WillBeHeld(s, st, ip))
  {
    BlockedIpPlan.PassResult(s, st, listing);
    hide BlockedIpPlan.Pass, LifecyclePlan.Pass, WillBeHeld, IsListing, NoBlankIps, OneToOneLeases, IsWellFormed;
    var r := BlockedIpPlan.Pass(s, st, listing);
    BlockedPassKeepsIps(s, st, listing);
    LifecyclePassKernel(s, r, ip);
    if ip in st.kernel {
      HeldIsKnownBefore(s, st, listing, ip);
    } else {
      MissingIsHeld(s, st, listing, ip);
    }
    assert ip in r.kernel;
    assert IsFollowedTo(s, r.rows, ip) ==> IsHeld(s, r.rows, ip);
  }
}
