/**
 The promise-chain lock: each caller waits for the promise that was the tail when it
 called, and leaves a promise of its own as the new tail. Callers interleave freely.
 */
module PromiseLock {

  /** An operation settles, by result or by failure, before its caller releases the next one. */
  datatype Phase = Waiting | Running | Settled(ok: bool) | Released

  datatype Caller = Caller(previous: nat, own: nat, phase: Phase)

  /** Promises by number, true once resolved; promise 0 is resolved from the start. */
  datatype State = State(promises: seq<bool>, tail: nat, callers: seq<Caller>, started: seq<nat>)

  datatype Event = Call | Start(caller: nat) | Settle(caller: nat, ok: bool) | Release(caller: nat)

  const INITIAL := State([true], 0, [], [])

  predicate IsEnabled(s: State, e: Event) {
    match e
    case Call => true
    case Start(i) =>
      && i < |s.callers| && s.callers[i].phase == Waiting
      && s.callers[i].previous < |s.promises| && s.promises[s.callers[i].previous]
    case Settle(i, _) => i < |s.callers| && s.callers[i].phase == Running
    case Release(i) => i < |s.callers| && s.callers[i].phase.Settled? && s.callers[i].own < |s.promises|
  }

  function WithPhase(s: State, i: nat, phase: Phase): State
    requires i < |s.callers|
  {
    s.(callers := s.callers[i := s.callers[i].(phase := phase)])
  }

  /** An event that is not enabled does not happen. */
  function Next(s: State, e: Event): State {
    if !IsEnabled(s, e) then s
    else
      match e
      case Call =>
        State(s.promises + [false], |s.promises|, s.callers + [Caller(s.tail, |s.promises|, Waiting)], s.started)
      case Start(i) => WithPhase(s, i, Running).(started := s.started + [i])
      case Settle(i, ok) => WithPhase(s, i, Settled(ok))
      case Release(i) => WithPhase(s, i, Released).(promises := s.promises[s.callers[i].own := true])
  }

  function Run(events: seq<Event>): State {
    if events == [] then INITIAL else Next(Run(events[..|events| - 1]), events[|events| - 1])
  }

  predicate HasStarted(c: Caller) {
    !c.phase.Waiting?
  }

  /** Each caller waits for its predecessor's promise, and has started only after it was resolved. */
  predicate Inv(s: State) {
    && |s.promises| == |s.callers| + 1 && s.tail == |s.callers| && s.promises[0]
    && (forall i | 0 <= i < |s.callers| :: s.callers[i].previous == i && s.callers[i].own == i + 1)
    && (forall i | 0 <= i < |s.callers| :: s.promises[i + 1] <==> s.callers[i].phase == Released)
    && (forall i | 0 <= i < |s.callers| && HasStarted(s.callers[i]) :: s.promises[i])
    && |s.started| <= |s.callers|
    && (forall i | 0 <= i < |s.started| :: s.started[i] == i)
    && (forall i | 0 <= i < |s.callers| :: HasStarted(s.callers[i]) <==> i < |s.started|)
  }

  lemma {:induction false} RunKeepsInv(events: seq<Event>)
    ensures Inv(Run(events))
  {
    hide Inv, Next;
    if events == [] {
      InitialInv();
    } else {
      RunKeepsInv(events[..|events| - 1]);
      NextKeepsInv(Run(events[..|events| - 1]), events[|events| - 1]);
    }
  }

  lemma InitialInv()
    ensures Inv(INITIAL)
  {
  }

  lemma NextKeepsInv(s: State, e: Event)
    requires Inv(s)
    ensures Inv(Next(s, e))
  {
    hide Inv;
    if IsEnabled(s, e) {
      match e
      case Call => CallKeepsInv(s);
      case Start(i) => StartKeepsInv(s, i);
      case Settle(i, ok) => SettleKeepsInv(s, i, ok);
      case Release(i) => ReleaseKeepsInv(s, i);
    }
  }

  lemma CallKeepsInv(s: State)
    requires Inv(s)
    ensures Inv(Next(s, Call))
  {
  }

  lemma StartKeepsInv(s: State, i: nat)
    requires Inv(s) && IsEnabled(s, Start(i))
    ensures Inv(Next(s, Start(i)))
  {
    StartIsNext(s, i);
  }

  lemma SettleKeepsInv(s: State, i: nat, ok: bool)
    requires Inv(s) && IsEnabled(s, Settle(i, ok))
    ensures Inv(Next(s, Settle(i, ok)))
  {
  }

  lemma ReleaseKeepsInv(s: State, i: nat)
    requires Inv(s) && IsEnabled(s, Release(i))
    ensures Inv(Next(s, Release(i)))
  {
  }

  /** The caller that starts is the one after all that have started. */
  lemma StartIsNext(s: State, i: nat)
    requires Inv(s) && IsEnabled(s, Start(i))
    ensures i == |s.started|
  {
    if i > 0 {
      assert s.callers[i - 1].phase == Released;
    }
  }

  predicate IsActive(c: Caller) {
    c.phase.Running? || c.phase.Settled?
  }

  /** At most one operation is under way, every earlier caller is done and no later one has started. */
  lemma OneAtATime(events: seq<Event>, i: nat)
    requires i < |Run(events).callers| && IsActive(Run(events).callers[i])
    ensures forall j | 0 <= j < i :: Run(events).callers[j].phase == Released
    ensures forall j | i < j < |Run(events).callers| :: Run(events).callers[j].phase == Waiting
  {
    hide Run;
    RunKeepsInv(events);
    var s := Run(events);
    AllBeforeAreReleased(s, i);
    forall j | i < j < |s.callers|
      ensures s.callers[j].phase == Waiting
    {
      AllAfterWait(s, i, j);
    }
  }

  lemma {:induction false} AllAfterWait(s: State, i: nat, j: nat)
    requires Inv(s) && i < j < |s.callers| && s.callers[i].phase != Released
    ensures s.callers[j].phase == Waiting
  {
    if i + 1 < j {
      AllAfterWait(s, i, j - 1);
    }
    assert !s.promises[j - 1 + 1];
  }

  lemma {:induction false} AllBeforeAreReleased(s: State, i: nat)
    requires Inv(s) && i < |s.callers| && HasStarted(s.callers[i])
    ensures forall j | 0 <= j < i :: s.callers[j].phase == Released
  {
    if i > 0 {
      assert s.callers[i - 1].phase == Released;
      AllBeforeAreReleased(s, i - 1);
    }
  }

  /** While an operation is under way nobody can start. */
  lemma ActiveAllowsNone(s: State, i: nat)
    requires Inv(s) && i < |s.callers| && IsActive(s.callers[i])
    ensures forall j: nat :: !IsEnabled(s, Start(j))
  {
    forall j: nat | j < |s.callers| && s.callers[j].phase == Waiting
      ensures !IsEnabled(s, Start(j))
    {
      if j < i {
        AllBeforeAreReleased(s, i);
        assert false;
      }
      NotYet(s, i, j);
    }
  }

  lemma NotYet(s: State, i: nat, j: nat)
    requires Inv(s) && i < j < |s.callers| && s.callers[i].phase != Released
    ensures !s.promises[j]
  {
    if i + 1 < j {
      AllAfterWait(s, i, j - 1);
    }
    assert s.promises[j - 1 + 1] <==> s.callers[j - 1].phase == Released;
  }

  /** Once a caller has released, with everyone after it waiting, exactly the next one can start. */
  lemma ReleaseAllowsNext(s: State, i: nat)
    requires Inv(s) && i < |s.callers| && s.callers[i].phase == Released
    requires forall j | i < j < |s.callers| :: s.callers[j].phase == Waiting
    ensures forall j: nat :: IsEnabled(s, Start(j)) <==> j == i + 1 && j < |s.callers|
  {
    AllBeforeAreReleased(s, i);
    forall j: nat | i + 1 < j < |s.callers|
      ensures !IsEnabled(s, Start(j))
    {
      NotYet(s, i + 1, j);
    }
    assert s.promises[i + 1];
  }

  /** Operations start in the order of the calls, without skipping any. */
  lemma StartsInCallOrder(events: seq<Event>)
    ensures forall k | 0 <= k < |Run(events).started| :: Run(events).started[k] == k
  {
    RunKeepsInv(events);
  }

  /** While any caller is not done, some operation can go on, whether earlier ones succeeded or failed. */
  lemma NeverStuck(events: seq<Event>)
    requires exists i | 0 <= i < |Run(events).callers| :: Run(events).callers[i].phase != Released
    ensures exists e: Event :: !e.Call? && IsEnabled(Run(events), e)
  {
    hide Run;
    RunKeepsInv(events);
    var s := Run(events);
    var i := FirstUnreleased(s);
    match s.callers[i].phase
    case Waiting => assert IsEnabled(s, Start(i));
    case Running => assert IsEnabled(s, Settle(i, true));
    case Settled(_) => assert IsEnabled(s, Release(i));
  }

  lemma FirstUnreleased(s: State) returns (i: nat)
    requires Inv(s) && exists k | 0 <= k < |s.callers| :: s.callers[k].phase != Released
    ensures i < |s.callers| && s.callers[i].phase != Released && s.promises[i]
  {
    i := 0;
    while s.callers[i].phase == Released
      invariant i < |s.callers|
      invariant forall j | 0 <= j < i :: s.callers[j].phase == Released
      invariant s.promises[i]
      decreases |s.callers| - i
    {
      assert s.promises[i + 1];
      i := i + 1;
    }
  }

  // ----- Progress -----

  /** Steps left before every caller is done. */
  function Remaining(callers: seq<Caller>): nat {
    if callers == [] then 0
    else
      Remaining(callers[..|callers| - 1])
      + match callers[|callers| - 1].phase
        case Waiting => 3
        case Running => 2
        case Settled(_) => 1
        case Released => 0
  }

  lemma {:induction false} PhaseStepsDown(callers: seq<Caller>, i: nat, phase: Phase)
    requires i < |callers|
    requires match callers[i].phase
             case Waiting => phase == Running
             case Running => phase.Settled?
             case Settled(_) => phase == Released
             case Released => false
    ensures Remaining(callers[i := callers[i].(phase := phase)]) == Remaining(callers) - 1
  {
    var after := callers[i := callers[i].(phase := phase)];
    var n := |callers| - 1;
    if i < n {
      assert after[..n] == callers[..n][i := callers[i].(phase := phase)];
      PhaseStepsDown(callers[..n], i, phase);
    } else {
      assert after[..n] == callers[..n];
    }
  }

  /** Every enabled step other than a call brings the end nearer by one, so the chain always drains. */
  lemma EveryStepIsProgress(events: seq<Event>, e: Event)
    requires !e.Call? && IsEnabled(Run(events), e)
    ensures Remaining(Run(events + [e]).callers) == Remaining(Run(events).callers) - 1
  {
    hide Remaining;
    assert (events + [e])[..|events|] == events;
    var s := Run(events);
    match e
    case Start(i) => PhaseStepsDown(s.callers, i, Running);
    case Settle(i, ok) => PhaseStepsDown(s.callers, i, Settled(ok));
    case Release(i) => PhaseStepsDown(s.callers, i, Released);
  }

  // ----- The module variable -----

  /** The lock as it is kept: the tail, and the promises and callers behind it. */
  class MutationLock {
    var promises: seq<bool>
    var tail: nat
    var callers: seq<Caller>
    ghost var started: seq<nat>

    ghost predicate Valid()
      reads this
    {
      Inv(Abstract())
    }

    constructor ()
      ensures Valid() && Abstract() == INITIAL
    {
      promises, tail, callers, started := [true], 0, [], [];
    }

    ghost function Abstract(): State
      reads this
    {
      State(promises, tail, callers, started)
    }

    ghost predicate IsReleased(i: nat)
      requires i < |callers|
      reads this
    {
      callers[i].phase == Released
    }

    /**
     The caller remembers the old tail and replaces it by its own promise: it may start at
     once exactly when everyone before it is done.
     */
    method WithLock() returns (caller: nat)
      requires Valid()
      modifies this
      ensures Valid() && Abstract() == Next(old(Abstract()), Call)
      ensures caller == |old(callers)| && |callers| == caller + 1
      ensures IsEnabled(Abstract(), Start(caller)) <==> forall j | 0 <= j < caller :: IsReleased(j)
    {
      CallKeepsInv(Abstract());
      var previous := tail;
      tail := |promises|;
      promises := promises + [false];
      caller := |callers|;
      callers := callers + [Caller(previous, tail, Waiting)];
      if caller > 0 && IsReleased(caller - 1) {
        AllBeforeAreReleased(Abstract(), caller - 1);
      }
    }

    /** When an operation starts, everyone before it is done and nobody after it has started. */
    method StartOperation(i: nat)
      requires Valid() && IsEnabled(Abstract(), Start(i))
      modifies this
      ensures Valid() && Abstract() == Next(old(Abstract()), Start(i))
      ensures i < |callers| && (forall j | 0 <= j < i :: IsReleased(j))
      ensures forall j | i < j < |callers| :: callers[j].phase == Waiting
    {
      StartKeepsInv(Abstract(), i);
      callers := callers[i := callers[i].(phase := Running)];
      started := started + [i];
      OthersAround(i);
    }

    lemma OthersAround(i: nat)
      requires Valid() && i < |callers| && IsActive(callers[i])
      ensures forall j | 0 <= j < i :: IsReleased(j)
      ensures forall j | i < j < |callers| :: callers[j].phase == Waiting
    {
      AllBeforeAreReleased(Abstract(), i);
      forall j | i < j < |callers|
        ensures callers[j].phase == Waiting
      {
        AllAfterWait(Abstract(), i, j);
      }
    }

    /** However an operation ends, nobody else starts before its caller has released. */
    method SettleOperation(i: nat, ok: bool)
      requires Valid() && IsEnabled(Abstract(), Settle(i, ok))
      modifies this
      ensures Valid() && Abstract() == Next(old(Abstract()), Settle(i, ok))
      ensures IsEnabled(Abstract(), Release(i)) && forall j: nat :: !IsEnabled(Abstract(), Start(j))
    {
      SettleKeepsInv(Abstract(), i, ok);
      callers := callers[i := callers[i].(phase := Settled(ok))];
      ActiveAllowsNone(Abstract(), i);
    }

    /** The release runs after a failure as after a result, and lets exactly the next caller start. */
    method ReleaseNext(i: nat)
      requires Valid() && IsEnabled(Abstract(), Release(i))
      modifies this
      ensures Valid() && Abstract() == Next(old(Abstract()), Release(i))
      ensures i < |callers| && forall j | 0 <= j <= i :: IsReleased(j)
      ensures forall j: nat :: IsEnabled(Abstract(), Start(j)) <==> j == i + 1 && j < |callers|
    {
      ReleaseKeepsInv(Abstract(), i);
      OthersAround(i);
      promises := promises[callers[i].own := true];
      callers := callers[i := callers[i].(phase := Released)];
      ReleaseAllowsNext(Abstract(), i);
    }
  }
}
