/**
 Two rounds of both services on one enforcement state: what the plans promise is
 what the services reach.
 */
module BlockedIpRounds {
  import opened Observations
  import opened BindingEffects
  import BlockedIpPlan
  import LifecyclePlan
  import opened Convergence
  import opened BlockedIpServices

  /** A pass that left budget over made all its calls. */
  lemma BudgetLeftMeansWholePlan(plan: seq<Effect>, budget: nat)
    requires |Prefix(plan, budget)| < budget
    ensures Prefix(plan, budget) == plan
  {
  }

  /** One run of each service; with budget left over it is one round of both passes. */
  method RunRound(blocking: BlockedIpReconciliationService, lifecycle: IpBindingLifecycleService,
                  w: Enforcement, s: Snapshot) returns (ghost listing: seq<Ip>)
    requires w.Valid() && !blocking.running && !lifecycle.running
    modifies blocking, lifecycle, w, w.table
    ensures w.Valid() && !blocking.running && !lifecycle.running
    ensures w.budget <= old(w.budget)
    ensures IsListing(listing, old(w.blocked))
    ensures w.budget > 0 ==>
              w.State() == LifecyclePlan.Pass(s, BlockedIpPlan.Pass(s, old(w.State()), listing))
  {
    hide BlockedIpPlan.Plan, LifecyclePlan.Plan, Replay;
    listing := blocking.Reconcile(w, s);
    ghost var left := w.budget;
    ghost var mid := w.State();
    lifecycle.Reconcile(w, s);
    if w.budget > 0 {
      BudgetLeftMeansWholePlan(BlockedIpPlan.Plan(s, old(w.table.Active()), listing), old(w.budget));
      BudgetLeftMeansWholePlan(LifecyclePlan.Plan(s, mid.rows, mid), left);
    }
  }

  /** From any state, two rounds in which no call failed reach a state neither service changes. */
  method RunTwoRounds(blocking: BlockedIpReconciliationService, lifecycle: IpBindingLifecycleService,
                      w: Enforcement, s: Snapshot)
    requires w.Valid() && !blocking.running && !lifecycle.running
    requires OneToOneLeases(s) && IsWellFormed(s) && NoBlankIps(w.table.Active())
    modifies blocking, lifecycle, w, w.table
    ensures w.Valid()
    ensures w.budget > 0 ==> IsConverged(s, w.State())
  {
    hide BlockedIpPlan.Pass, LifecyclePlan.Pass, IsConverged, NoBlankIps, IsWellFormed;
    ghost var st := w.State();
    ghost var first := RunRound(blocking, lifecycle, w, s);
    ghost var second := RunRound(blocking, lifecycle, w, s);
    if w.budget > 0 {
      TwoRoundsConverge(s, st, first, second);
    }
  }
}
