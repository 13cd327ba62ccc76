/**
 The calls that one binding-lifecycle pass makes. The pass walks a snapshot of
 the bindings, but decides each unblock from the rows as they are at that moment.
 */
module LifecyclePlan {
  import opened Observations
  import opened BindingEffects
  import opened BlockedIpPlan

  /** Release a binding, and unblock its IP once no active binding is left there. */
  function ReleaseThenUnblock(b: Binding, st: State): seq<Effect> {
    if IsBound(Without(st.rows, b), b.ip) then [Release(b.device, b.ip)]
    else [Release(b.device, b.ip), Unblock(b.ip)]
  }

  function StepCalls(s: Snapshot, b: Binding, st: State): seq<Effect> {
    match DeviceById(s.devices, b.device)
    case None => []
    case Some(d) =>
      if !IsProxyManaged(s, d) then []
      else
        var claimant := Lookup(LeaseMacByIp(s.leases, s.now, false), b.ip);
        var current := Lookup(LeaseIpByMac(s.leases, s.now, false), d.mac);
        if claimant.Some? && claimant.value != d.mac then ReleaseThenUnblock(b, st)
        else if current.None? || current.value == b.ip then []
        else
          var follow := [Block(current.value), Record(d.id, current.value)];
          follow + ReleaseThenUnblock(b, Replay(follow, st))
  }

  function Plan(s: Snapshot, bindings: seq<Binding>, st: State): seq<Effect> {
    if bindings == [] then []
    else
      var front := Plan(s, bindings[..|bindings| - 1], st);
      front + StepCalls(s, bindings[|bindings| - 1], Replay(front, st))
  }

  function Pass(s: Snapshot, st: State): State {
    Replay(Plan(s, st.rows, st), st)
  }

  // ----- Safety of every partial pass -----

  /** Every IP that carries an active binding and was blocked in `before` is blocked. */
  predicate IsGuarded(before: set<Ip>, st: State) {
    forall b | b in st.rows && b.ip in before :: b.ip in st.kernel
  }

  /** A record may only follow the block of its IP. */
  predicate IsAdmissible(before: set<Ip>, e: Effect, st: State) {
    && (e.Record? ==> e.ip in st.kernel)
    && IsGuarded(before, Apply(e, st))
  }

  /** Every call of the sequence is admissible where it is made. */
  predicate AreAdmissible(before: set<Ip>, effects: seq<Effect>, st: State) {
    forall i | 0 <= i < |effects| :: IsAdmissible(before, effects[i], Replay(effects[..i], st))
  }

  lemma AdmissibleConcat(before: set<Ip>, a: seq<Effect>, b: seq<Effect>, st: State)
    requires AreAdmissible(before, a, st) && AreAdmissible(before, b, Replay(a, st))
    ensures AreAdmissible(before, a + b, st)
  {
    forall i | 0 <= i < |a + b|
      ensures IsAdmissible(before, (a + b)[i], Replay((a + b)[..i], st))
    {
      if i < |a| {
        assert (a + b)[..i] == a[..i];
      } else {
        assert (a + b)[..i] == a + b[..i - |a|];
        ReplayConcat(a, b[..i - |a|], st);
      }
    }
  }

  lemma ReleaseThenUnblockIsAdmissible(before: set<Ip>, b: Binding, st: State)
    requires IsGuarded(before, st)
    ensures AreAdmissible(before, ReleaseThenUnblock(b, st), st)
    ensures IsGuarded(before, Replay(ReleaseThenUnblock(b, st), st))
  {
    var calls := ReleaseThenUnblock(b, st);
    assert calls[..0] == [];
    ReplayOne(calls[0], st);
    assert calls[..1] == [calls[0]];
    if |calls| == 2 {
      assert calls == [calls[0], calls[1]];
      ReplayTwo(calls[0], calls[1], st);
    }
  }

  lemma StepIsAdmissible(before: set<Ip>, s: Snapshot, b: Binding, st: State)
    requires IsGuarded(before, st)
    ensures AreAdmissible(before, StepCalls(s, b, st), st)
    ensures IsGuarded(before, Replay(StepCalls(s, b, st), st))
  {
    var d := DeviceById(s.devices, b.device);
    if d.Some? && IsProxyManaged(s, d.value) {
      var claimant := Lookup(LeaseMacByIp(s.leases, s.now, false), b.ip);
      var current := Lookup(LeaseIpByMac(s.leases, s.now, false), d.value.mac);
      if claimant.Some? && claimant.value != d.value.mac {
        ReleaseThenUnblockIsAdmissible(before, b, st);
      } else if current.Some? && current.value != b.ip {
        var follow := [Block(current.value), Record(d.value.id, current.value)];
        ReplayTwo(follow[0], follow[1], st);
        assert AreAdmissible(before, follow, st) by {
          assert follow[..0] == [] && follow[..1] == [follow[0]];
          ReplayOne(follow[0], st);
        }
        var mid := Replay(follow, st);
        ReleaseThenUnblockIsAdmissible(before, b, mid);
        AdmissibleConcat(before, follow, ReleaseThenUnblock(b, mid), st);
        ReplayConcat(follow, ReleaseThenUnblock(b, mid), st);
      }
    }
  }

  lemma {:induction false} PlanIsAdmissible(before: set<Ip>, s: Snapshot, bindings: seq<Binding>, st: State)
    requires IsGuarded(before, st)
    ensures AreAdmissible(before, Plan(s, bindings, st), st)
    ensures IsGuarded(before, Replay(Plan(s, bindings, st), st))
  {
    if bindings != [] {
      var front := Plan(s, bindings[..|bindings| - 1], st);
      PlanIsAdmissible(before, s, bindings[..|bindings| - 1], st);
      var step := StepCalls(s, bindings[|bindings| - 1], Replay(front, st));
      StepIsAdmissible(before, s, bindings[|bindings| - 1], Replay(front, st));
      AdmissibleConcat(before, front, step, st);
      ReplayConcat(front, step, st);
    }
  }

  lemma AdmissiblePrefix(before: set<Ip>, effects: seq<Effect>, st: State, done: nat)
    requires IsGuarded(before, st) && AreAdmissible(before, effects, st) && done <= |effects|
    ensures IsGuarded(before, Replay(effects[..done], st))
  {
    if 0 < done {
      assert IsAdmissible(before, effects[done - 1], Replay(effects[..done - 1], st));
      assert effects[..done][..done - 1] == effects[..done - 1];
    }
  }

  /**
   A fault after any number of calls leaves blocked every IP that carries an
   active binding and was blocked before the pass, and the next call, if it
   records a binding, finds that binding's IP already blocked.
   */
  lemma FaultLeavesBoundIpsBlocked(s: Snapshot, st: State, done: nat)
    requires done <= |Plan(s, st.rows, st)|
    ensures var plan := Plan(s, st.rows, st);
            var reached := Replay(plan[..done], st);
            && (forall b | b in reached.rows && b.ip in st.kernel :: b.ip in reached.kernel)
            && (done < |plan| && plan[done].Record? ==> plan[done].ip in reached.kernel)
  {
    var plan := Plan(s, st.rows, st);
    PlanIsAdmissible(st.kernel, s, st.rows, st);
    AdmissiblePrefix(st.kernel, plan, st, done);
    assert done < |plan| ==> IsAdmissible(st.kernel, plan[done], Replay(plan[..done], st));
  }
}
