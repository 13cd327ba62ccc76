/**
 The agent's scheduler: a priority queue and a bounded background queue, drained by
 one asynchronous loop that requests start and that sleeps while its job executes.
 */
module AgentScheduler {

  type Job = nat

  const MAX_BACKGROUND_QUEUE := 8

  /** A drain executes a job, or is about to go on after its job has settled. */
  datatype Drain = Executing(job: Job) | Resuming(ok: bool) | Ended

  /** What is remembered of a start: which queue it came from, and how many priority jobs were waiting. */
  datatype Start = Start(job: Job, isBackground: bool, priorityWaiting: nat)

  datatype State = State(
    priority: seq<Job>,
    background: seq<Job>,
    running: bool,
    drains: seq<Drain>,
    started: seq<Start>,
    acceptedPriority: seq<Job>,
    acceptedBackground: seq<Job>)

  datatype Event =
    | Schedule(job: Job, isBackground: bool)
    | Settle(drain: nat, ok: bool)
    | Resume(drain: nat)

  const INITIAL := State([], [], false, [], [], [], [])

  predicate IsEnabled(s: State, e: Event) {
    match e
    case Schedule(_, _) => true
    case Settle(d, _) => d < |s.drains| && s.drains[d].Executing?
    case Resume(d) => d < |s.drains| && s.drains[d].Resuming?
  }

  /** One turn of the loop in drain d: take a priority job, else a background job, else stop. */
  function Turn(s: State, d: nat): State
    requires d < |s.drains|
  {
    if s.priority != [] then
      s.(priority := s.priority[1..],
         drains := s.drains[d := Executing(s.priority[0])],
         started := s.started + [Start(s.priority[0], false, |s.priority|)])
    else if s.background != [] then
      s.(background := s.background[1..],
         drains := s.drains[d := Executing(s.background[0])],
         started := s.started + [Start(s.background[0], true, |s.priority|)])
    else s.(running := false, drains := s.drains[d := Ended])
  }

  /** A new drain returns at once when one is running. */
  function Drained(s: State): State {
    if s.running then s
    else Turn(s.(running := true, drains := s.drains + [Ended]), |s.drains|)
  }

  predicate IsRefused(s: State, isBackground: bool) {
    isBackground && |s.background| >= MAX_BACKGROUND_QUEUE
  }

  function Next(s: State, e: Event): State {
    if !IsEnabled(s, e) then s
    else
      match e
      case Schedule(job, isBackground) =>
        if IsRefused(s, isBackground) then s
        else if isBackground then
          Drained(s.(background := s.background + [job], acceptedBackground := s.acceptedBackground + [job]))
        else
          Drained(s.(priority := s.priority + [job], acceptedPriority := s.acceptedPriority + [job]))
      case Settle(d, ok) => s.(drains := s.drains[d := Resuming(ok)])
      case Resume(d) =>
        if s.drains[d].ok then Turn(s, d)
        else s.(running := false, drains := s.drains[d := Ended])
  }

  function Run(events: seq<Event>): State {
    if events == [] then INITIAL else Next(Run(events[..|events| - 1]), events[|events| - 1])
  }

  /** The jobs started from one queue, in order. */
  function StartedFrom(started: seq<Start>, isBackground: bool): seq<Job> {
    if started == [] then []
    else
      var last := started[|started| - 1];
      StartedFrom(started[..|started| - 1], isBackground) + if last.isBackground == isBackground then [last.job] else []
  }

  lemma StartedAfter(started: seq<Start>, x: Start, isBackground: bool)
    ensures StartedFrom(started + [x], isBackground)
            == StartedFrom(started, isBackground) + if x.isBackground == isBackground then [x.job] else []
  {
    assert (started + [x])[..|started|] == started;
  }

  // ----- What every run keeps -----

  predicate IsActive(d: Drain) {
    !d.Ended?
  }

  /** At most one drain is active, and one is exactly while the flag says so. */
  predicate OneDrain(s: State) {
    && (forall i, j | 0 <= i < |s.drains| && 0 <= j < |s.drains| &&
             IsActive(s.drains[i]) && IsActive(s.drains[j]) :: i == j)
    && (s.running <==> exists i | 0 <= i < |s.drains| :: IsActive(s.drains[i]))
  }

  /** In each queue, what was accepted is what was started followed by what waits. */
  predicate InOrder(s: State) {
    && s.acceptedPriority == StartedFrom(s.started, false) + s.priority
    && s.acceptedBackground == StartedFrom(s.started, true) + s.background
  }

  predicate Inv(s: State) {
    && OneDrain(s) && InOrder(s)
    && |s.background| <= MAX_BACKGROUND_QUEUE
    && (forall i | 0 <= i < |s.started| && s.started[i].isBackground :: s.started[i].priorityWaiting == 0)
  }

  lemma {:induction false} RunKeepsInv(events: seq<Event>)
    ensures Inv(Run(events))
  {
    hide Inv, Next;
    if events == [] {
      InitialInv();
    } else {
      RunKeepsInv(events[..|events| - 1]);
      NextKeepsInv(Run(events[..|events| - 1]), events[|events| - 1]);
    }
  }

  lemma InitialInv()
    ensures Inv(INITIAL)
  {
  }

  lemma NextKeepsInv(s: State, e: Event)
    requires Inv(s)
    ensures Inv(Next(s, e))
  {
    hide Turn, StartedFrom;
    if IsEnabled(s, e) {
      match e
      case Schedule(job, isBackground) =>
        if !IsRefused(s, isBackground) {
          var s' := if isBackground
            then s.(background := s.background + [job], acceptedBackground := s.acceptedBackground + [job])
            else s.(priority := s.priority + [job], acceptedPriority := s.acceptedPriority + [job]);
          assert InOrder(s');
          DrainedKeepsInv(s');
        }
      case Settle(d, ok) =>
        assert IsActive(Next(s, e).drains[d]);
      case Resume(d) =>
        if s.drains[d].ok {
          TurnKeepsInv(s, d);
        }
    }
  }

  lemma DrainedKeepsInv(s: State)
    requires Inv(s)
    ensures Inv(Drained(s))
  {
    hide Turn, StartedFrom;
    if !s.running {
      TurnKeepsInv(s.(running := true, drains := s.drains + [Ended]), |s.drains|);
    }
  }

  /** A turn taken by the one drain that may be active. */
  lemma TurnKeepsInv(s: State, d: nat)
    requires d < |s.drains| && s.running && InOrder(s)
    requires forall i | 0 <= i < |s.drains| && i != d :: !IsActive(s.drains[i])
    requires |s.background| <= MAX_BACKGROUND_QUEUE
    requires forall i | 0 <= i < |s.started| && s.started[i].isBackground :: s.started[i].priorityWaiting == 0
    ensures Inv(Turn(s, d))
  {
    hide StartedFrom;
    var t := Turn(s, d);
    if s.priority != [] || s.background != [] {
      assert IsActive(t.drains[d]);
      var x := t.started[|s.started|];
      StartedAfter(s.started, x, false);
      StartedAfter(s.started, x, true);
    }
  }

  /** One job executes at a time. */
  lemma OneJobAtATime(events: seq<Event>, i: nat, j: nat)
    requires i < |Run(events).drains| && Run(events).drains[i].Executing?
    requires j < |Run(events).drains| && Run(events).drains[j].Executing?
    ensures i == j
  {
    hide Run;
    RunKeepsInv(events);
    var s := Run(events);
    assert IsActive(s.drains[i]) && IsActive(s.drains[j]);
  }

  /** Each queue is first in, first out, and each accepted job starts at most once. */
  lemma QueuesAreFifo(events: seq<Event>)
    ensures var s := Run(events);
            && StartedFrom(s.started, false) <= s.acceptedPriority
            && StartedFrom(s.started, true) <= s.acceptedBackground
            && |s.started| + |s.priority| + |s.background| == |s.acceptedPriority| + |s.acceptedBackground|
  {
    hide Run;
    RunKeepsInv(events);
    StartsSplit(Run(events).started);
  }

  lemma {:induction false} StartsSplit(started: seq<Start>)
    ensures |started| == |StartedFrom(started, false)| + |StartedFrom(started, true)|
  {
    if started != [] {
      StartsSplit(started[..|started| - 1]);
    }
  }

  /** A background job starts only when no priority job waits, and at most eight of them wait. */
  lemma BackgroundYields(events: seq<Event>)
    ensures var s := Run(events);
            && |s.background| <= 8
            && forall i | 0 <= i < |s.started| && s.started[i].isBackground :: s.started[i].priorityWaiting == 0
  {
    RunKeepsInv(events);
  }

  /** The priority jobs of a run, in the order they were scheduled. */
  function PriorityJobs(events: seq<Event>): seq<Job> {
    if events == [] then []
    else
      var front, last := PriorityJobs(events[..|events| - 1]), events[|events| - 1];
      if last.Schedule? && !last.isBackground then front + [last.job] else front
  }

  /** No priority job is ever refused: each is among the started or the waiting ones. */
  lemma {:induction false} PriorityJobsAreTaken(events: seq<Event>)
    ensures StartedFrom(Run(events).started, false) + Run(events).priority == PriorityJobs(events)
  {
    RunKeepsInv(events);
    AcceptedPriority(events);
  }

  lemma {:induction false} AcceptedPriority(events: seq<Event>)
    ensures Run(events).acceptedPriority == PriorityJobs(events)
  {
    if events != [] {
      AcceptedPriority(events[..|events| - 1]);
    }
  }

  /** A background job is taken exactly while fewer than eight wait. */
  lemma BackgroundJobIsTakenIff(events: seq<Event>, job: Job)
    ensures var before, after := Run(events), Run(events + [Schedule(job, true)]);
            StartedFrom(after.started, true) + after.background ==
            StartedFrom(before.started, true) + before.background + if |before.background| < 8 then [job] else []
  {
    assert (events + [Schedule(job, true)])[..|events|] == events;
    RunKeepsInv(events);
    RunKeepsInv(events + [Schedule(job, true)]);
    hide Inv, StartedFrom;
  }

  // ----- Liveness and its condition -----

  /** Jobs wait and no drain will take them. */
  predicate IsStalled(s: State) {
    (s.priority != [] || s.background != []) && !s.running
  }

  /** No job of the run has rejected. */
  predicate NeverRejects(events: seq<Event>) {
    forall i | 0 <= i < |events| && events[i].Settle? :: events[i].ok
  }

  /** While no job rejects, waiting jobs always have an active drain. */
  lemma {:induction false} WaitingJobsAreDrained(events: seq<Event>)
    requires NeverRejects(events)
    ensures !IsStalled(Run(events))
    ensures forall d | 0 <= d < |Run(events).drains| && Run(events).drains[d].Resuming? :: Run(events).drains[d].ok
  {
    if events != [] {
      WaitingJobsAreDrained(events[..|events| - 1]);
    }
  }

  /** A step stalls the scheduler exactly when it ends a rejected job's drain with jobs waiting. */
  lemma StallsIffRejectedWithJobsWaiting(s: State, e: Event)
    requires !IsStalled(s)
    ensures IsStalled(Next(s, e)) <==> 
              && IsEnabled(s, e) && e.Resume? && !s.drains[e.drain].ok
              && (s.priority != [] || s.background != [])
  {
  }

  /** A stalled scheduler goes on exactly when another job is accepted; a full background queue accepts no more. */
  lemma StalledUntilNextAccepted(s: State, e: Event)
    requires Inv(s) && IsStalled(s)
    ensures !IsStalled(Next(s, e)) <==> e.Schedule? && !(e.isBackground && |s.background| >= 8)
  {
    if e.Settle? || e.Resume? {
      assert IsEnabled(s, e) ==> IsActive(s.drains[e.drain]);
    }
  }

  /** The stall is reached: two jobs, and the first rejects. */
  lemma AStallIsReachable()
    ensures IsStalled(Run([Schedule(1, false), Schedule(2, false), Settle(0, false), Resume(0)]))
  {
    var a := [Schedule(1, false)];
    var b := a + [Schedule(2, false)];
    var c := b + [Settle(0, false)];
    var d := c + [Resume(0)];
    assert Run(a) == State([], [], true, [Executing(1)], [Start(1, false, 1)], [1], []) by {
      assert a[..0] == [];
    }
    assert b[..1] == a && c[..2] == b && d[..3] == c;
    assert Run(b) == State([2], [], true, [Executing(1)], [Start(1, false, 1)], [1, 2], []);
    assert Run(c) == State([2], [], true, [Resuming(false)], [Start(1, false, 1)], [1, 2], []);
    assert d == [Schedule(1, false), Schedule(2, false), Settle(0, false), Resume(0)];
  }

  // ----- The module variables -----

  class Scheduler {
    var priority: seq<Job>
    var background: seq<Job>
    var running: bool
    ghost var drains: seq<Drain>
    ghost var started: seq<Start>
    ghost var acceptedPriority: seq<Job>
    ghost var acceptedBackground: seq<Job>

    ghost predicate Valid()
      reads this
    {
      Inv(Abstract())
    }

    constructor ()
      ensures Valid() && Abstract() == INITIAL
    {
      priority, background, running := [], [], false;
      drains, started, acceptedPriority, acceptedBackground := [], [], [], [];
    }

    ghost function Abstract(): State
      reads this
    {
      State(priority, background, running, drains, started, acceptedPriority, acceptedBackground)
    }

    /** The refusal is the thrown overload error; an accepted job always finds the loop running. */
    method ScheduleJob(job: Job, isBackground: bool) returns (accepted: bool)
      requires Valid()
      modifies this
      ensures Valid() && (accepted ==> running)
      ensures accepted <==> !(isBackground && |old(background)| >= 8)
      ensures Abstract() == Next(old(Abstract()), Schedule(job, isBackground))
    {
      NextKeepsInv(Abstract(), Schedule(job, isBackground));
      if isBackground {
        if |background| >= MAX_BACKGROUND_QUEUE {
          return false;
        }
        background := background + [job];
        acceptedBackground := acceptedBackground + [job];
      } else {
        priority := priority + [job];
        acceptedPriority := acceptedPriority + [job];
      }
      StartDrain();
      accepted := true;
    }

    method StartDrain()
      modifies this
      ensures Abstract() == Drained(old(Abstract()))
    {
      if running {
        return;
      }
      running := true;
      ghost var d := |drains|;
      drains := drains + [Ended];
      TakeTurn(d);
    }

    /** Shift a job from the priority queue, else from the background queue, and execute it; with none, stop. */
    method TakeTurn(ghost d: nat)
      requires d < |drains|
      modifies this
      ensures Abstract() == Turn(old(Abstract()), d)
    {
      if priority != [] {
        var job := priority[0];
        started := started + [Start(job, false, |priority|)];
        priority := priority[1..];
        drains := drains[d := Executing(job)];
      } else if background != [] {
        var job := background[0];
        started := started + [Start(job, true, |priority|)];
        background := background[1..];
        drains := drains[d := Executing(job)];
      } else {
        running := false;
        drains := drains[d := Ended];
      }
    }

    /** The loop goes on exactly after a job that did not reject, while jobs wait; a rejection leaves it. */
    method ResumeDrain(ghost d: nat, ok: bool)
      requires Valid() && d < |drains| && drains[d] == Resuming(ok)
      modifies this
      ensures Valid() && (running <==> ok && (old(priority) != [] || old(background) != []))
      ensures forall i | 0 <= i < |drains| :: drains[i].Executing? ==> i == d && running
      ensures Abstract() == Next(old(Abstract()), Resume(d))
    {
      NextKeepsInv(Abstract(), Resume(d));
      assert IsActive(drains[d]);
      if ok {
        TakeTurn(d);
      } else {
        running := false;
        drains := drains[d := Ended];
      }
    }
  }
}
