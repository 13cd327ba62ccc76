/**
 From kernel counter to day total: accounting fills the raw table that retention rolls up
 and deletes from, each running in between the other's steps.
 */
module TrafficPipeline {
  import opened Ledger
  import Accounting = TrafficAccounting
  import opened TrafficRetention
  import opened RetentionConservation

  datatype Pipeline = Pipeline(accounts: Accounting.Accounts, w: World)

  datatype Action =
    | Account(e: Accounting.Event)
    | RunRetention(now: int, completed: nat)

  type Writes = map<nat, Accounting.Bucket>

  /** The buckets that an accounting event writes to the raw table, at most one for each device. */
  function WritesOf(a: Accounting.Accounts, e: Accounting.Event): Writes {
    match e
    case Sample(device, time, _, _) =>
      if Accounting.Accepted(a, e).Some? && device in a.pending
         && a.pending[device].start != Accounting.MinuteOf(time)
      then map[device := a.pending[device]] else map[]
    case Depart(_) => map[]
    case FlushExpired(now, failing) => Buckets(a, Accounting.Expired(a, now, failing))
  }

  function Buckets(a: Accounting.Accounts, devices: set<nat>): Writes
    requires devices <= a.pending.Keys
  {
    map d | d in devices :: a.pending[d]
  }

  function KeysOf(writes: Writes): set<Key> {
    set d | d in writes :: Key(d, writes[d].start)
  }

  function WrittenRows(t: Table, writes: Writes): Table {
    map k | k in KeysOf(writes) :: Plus(At(t, k.device, k.time), writes[k.device].bytes)
  }

  /** Each written bucket is added to the row of its device and minute. */
  function Written(t: Table, writes: Writes): Table {
    t + WrittenRows(t, writes)
  }

  function PipelineStep(p: Pipeline, action: Action): Pipeline {
    match action
    case Account(e) =>
      var writes := WritesOf(p.accounts, e);
      Pipeline(Accounting.Step(p.accounts, e),
               World(p.w.store.(raw := Written(p.w.store.raw, writes)), Written(p.w.ledger, writes), p.w.clock))
    case RunRetention(now, completed) => p.(w := Step(p.w, Retain(now, completed)))
  }

  /** No bucket is written below the raw cutoff; retention runs often enough. */
  predicate IsLegalAction(p: Pipeline, action: Action) {
    match action
    case Account(e) => AreFresh(WritesOf(p.accounts, e), p.w.clock)
    case RunRetention(now, completed) => IsLegal(p.w, Retain(now, completed))
  }

  predicate AreFresh(writes: Writes, clock: int) {
    forall d | d in writes :: writes[d].start >= RawCutoff(clock)
  }

  function PipelineAfter(p: Pipeline, actions: seq<Action>): Pipeline {
    if actions == [] then p
    else PipelineStep(PipelineAfter(p, actions[..|actions| - 1]), actions[|actions| - 1])
  }

  predicate AreLegalActions(p: Pipeline, actions: seq<Action>) {
    actions == [] ||
    (var front := actions[..|actions| - 1];
     AreLegalActions(p, front) && IsLegalAction(PipelineAfter(p, front), actions[|actions| - 1]))
  }

  /** The accounting events of a run. */
  function EventsOf(actions: seq<Action>): seq<Accounting.Event> {
    if actions == [] then []
    else
      var front, last := EventsOf(actions[..|actions| - 1]), actions[|actions| - 1];
      if last.Account? then front + [last.e] else front
  }

  function Start(clock: int): Pipeline {
    Pipeline(Accounting.Accounts(map[], map[], map[]), World(Store(map[], map[], map[]), map[], clock))
  }

  // ----- Writing buckets is inserting rows -----

  lemma WrittenNothing(t: Table)
    ensures Written(t, map[]) == t
  {
  }

  lemma WrittenRowsOneMore(t: Table, writes: Writes, d: nat)
    requires d in writes
    ensures var key := Key(d, writes[d].start);
            && WrittenRows(t, writes)
               == WrittenRows(t, writes - {d})[key := Plus(At(t, d, writes[d].start), writes[d].bytes)]
            && key !in WrittenRows(t, writes - {d})
  {
    hide At, Plus;
    var fewer := writes - {d};
    assert forall x | x in fewer :: x in writes && fewer[x] == writes[x];
    forall k | k in KeysOf(writes)
      ensures k in KeysOf(fewer) || k == Key(d, writes[d].start)
    {
      assert k.device == d || k.device in fewer;
    }
    assert KeysOf(writes) == KeysOf(fewer) + {Key(d, writes[d].start)};
  }

  lemma WrittenOneMore(t: Table, writes: Writes, d: nat)
    requires d in writes
    ensures Written(t, writes) == Add(Written(t, writes - {d}), d, writes[d].start, writes[d].bytes)
  {
    hide WrittenRows, Plus;
    WrittenRowsOneMore(t, writes, d);
    assert At(Written(t, writes - {d}), d, writes[d].start) == At(t, d, writes[d].start);
  }

  lemma {:induction false} WritesKeepInv(w: World, writes: Writes)
    requires Inv(w) && AreFresh(writes, w.clock)
    ensures Inv(World(w.store.(raw := Written(w.store.raw, writes)), Written(w.ledger, writes), w.clock))
    decreases |writes|
  {
    hide Inv, Written, RawCutoff;
    if writes == map[] {
      WrittenNothing(w.store.raw);
      WrittenNothing(w.ledger);
    } else {
      var d :| d in writes;
      var fewer := writes - {d};
      assert |fewer| < |writes| by {
        FewerWrites(writes, d);
      }
      WritesKeepInv(w, fewer);
      var mid := World(w.store.(raw := Written(w.store.raw, fewer)), Written(w.ledger, fewer), w.clock);
      InsertKeepsInv(mid, d, writes[d].start, writes[d].bytes);
      WrittenOneMore(w.store.raw, writes, d);
      WrittenOneMore(w.ledger, writes, d);
    }
  }

  lemma FewerWrites(writes: Writes, d: nat)
    requires d in writes
    ensures |writes - {d}| < |writes|
  {
    assert (writes - {d}).Keys == writes.Keys - {d};
    assert |writes.Keys| == |writes.Keys - {d}| + 1;
    assert |writes| == |writes.Keys| && |writes - {d}| == |(writes - {d}).Keys|;
  }

  lemma FlushedIsWritten(a: Accounting.Accounts, devices: set<nat>)
    requires devices <= a.pending.Keys
    ensures Accounting.FlushedRows(a, devices) == WrittenRows(a.stored, Buckets(a, devices))
  {
    hide At, Plus;
    var flushed, rows := Accounting.FlushedRows(a, devices), WrittenRows(a.stored, Buckets(a, devices));
    forall k | k in flushed
      ensures k in rows && flushed[k] == rows[k]
    {
      assert k.device in devices && k == Key(k.device, Buckets(a, devices)[k.device].start);
    }
    forall k | k in rows
      ensures k in flushed
    {
      assert k.device in devices && k == Key(k.device, a.pending[k.device].start);
    }
  }

  lemma ReplacedIsWritten(a: Accounting.Accounts, device: nat)
    requires device in a.pending
    ensures var bucket := a.pending[device];
            Written(a.stored, map[device := bucket]) == Add(a.stored, device, bucket.start, bucket.bytes)
  {
    hide Written, Add;
    WrittenOneMore(a.stored, map[device := a.pending[device]], device);
    assert map[device := a.pending[device]] - {device} == map[];
    WrittenNothing(a.stored);
  }

  /** The ledger of retention is what accounting has stored. */
  lemma StoredIsWritten(a: Accounting.Accounts, e: Accounting.Event)
    ensures Accounting.Step(a, e).stored == Written(a.stored, WritesOf(a, e))
  {
    hide Accounting.MinuteOf, Accounting.Accepted, Written, Add, Plus, Accounting.FlushedRows;
    WrittenNothing(a.stored);
    if e.FlushExpired? {
      FlushIsWritten(a, Accounting.Expired(a, e.now, e.failing));
    } else if Accounting.Accepted(a, e).Some? {
      hide Accounting.Step;
      Accounting.AcceptedIsAdded(a, e);
      if e.device in a.pending {
        ReplacedIsWritten(a, e.device);
      }
    } else {
      hide Accounting.Step;
      Accounting.NothingMoves(a, e);
    }
  }

  lemma FlushIsWritten(a: Accounting.Accounts, devices: set<nat>)
    requires devices <= a.pending.Keys
    ensures Accounting.Flushed(a, devices).stored == Written(a.stored, Buckets(a, devices))
  {
    FlushedIsWritten(a, devices);
    hide Accounting.FlushedRows, WrittenRows, Buckets;
    assert Accounting.Flushed(a, devices).stored == a.stored + Accounting.FlushedRows(a, devices);
  }

  // ----- Whole runs -----

  ghost predicate PipelineInv(p: Pipeline) {
    Inv(p.w) && p.w.ledger == p.accounts.stored
  }

  lemma StepKeepsPipeline(p: Pipeline, action: Action)
    requires PipelineInv(p) && IsLegalAction(p, action)
    ensures PipelineInv(PipelineStep(p, action))
  {
    hide Inv, Run, RawCutoff, HourlyCutoff, WritesOf, Written, Accounting.Step;
    match action {
      case Account(e) =>
        WritesKeepInv(p.w, WritesOf(p.accounts, e));
        StoredIsWritten(p.accounts, e);
      case RunRetention(now, n) =>
        if n > 0 {
          RunKeepsInv(p.w, now, n);
        }
    }
  }

  lemma {:induction false} RunsKeepPipeline(p: Pipeline, actions: seq<Action>)
    requires PipelineInv(p) && AreLegalActions(p, actions)
    ensures PipelineInv(PipelineAfter(p, actions))
    ensures PipelineAfter(p, actions).accounts == Accounting.After(p.accounts, EventsOf(actions))
  {
    hide PipelineInv, IsLegalAction, Accounting.Step;
    if actions != [] {
      var front, last := actions[..|actions| - 1], actions[|actions| - 1];
      RunsKeepPipeline(p, front);
      StepKeepsPipeline(PipelineAfter(p, front), last);
      if last.Account? {
        Accounting.AfterOneMore(p.accounts, EventsOf(front), last.e);
      }
    }
  }

  /** What still waits in the device's bucket for a minute in [lo, hi). */
  function PendingIn(a: Accounting.Accounts, device: nat, lo: int, hi: int): Bytes {
    if device in a.pending && lo <= a.pending[device].start < hi then a.pending[device].bytes else ZERO
  }

  lemma ValueParts(a: Accounting.Accounts, device: nat, lo: int, hi: int)
    requires lo < hi
    ensures Accounting.Value(a, device, hi - 1) == Plus(At(a.stored, device, hi - 1), PendingIn(a, device, hi - 1, hi))
    ensures PendingIn(a, device, lo, hi) == Plus(PendingIn(a, device, lo, hi - 1), PendingIn(a, device, hi - 1, hi))
  {
    hide At, Plus;
    PlusZero(At(a.stored, device, hi - 1));
    PlusZero(PendingIn(a, device, lo, hi));
  }

  lemma {:induction false} ValueIsStoredAndPending(a: Accounting.Accounts, device: nat, lo: int, hi: int)
    ensures Accounting.ValueSum(a, device, lo, hi) == Plus(Sum(a.stored, device, lo, hi), PendingIn(a, device, lo, hi))
    decreases hi - lo
  {
    hide Sum, At, PendingIn, Accounting.Value, Plus;
    if lo < hi {
      ValueIsStoredAndPending(a, device, lo, hi - 1);
      SumStep(a.stored, device, lo, hi);
      ValueParts(a, device, lo, hi);
      PlusInterchange(Sum(a.stored, device, lo, hi - 1), PendingIn(a, device, lo, hi - 1),
                      At(a.stored, device, hi - 1), PendingIn(a, device, hi - 1, hi));
    } else {
      SumEmpty(a.stored, device, lo, hi);
      NothingPending(a, device, lo, hi);
      PlusZero(ZERO);
    }
  }

  lemma NothingPending(a: Accounting.Accounts, device: nat, lo: int, hi: int)
    requires hi <= lo
    ensures PendingIn(a, device, lo, hi) == ZERO
  {
  }

  /**
   After any run in which accounting events, with failing reads and writes, and retention
   runs, crashing between any two statements, alternate in any way: what the three tables
   show for a device's day plus what still waits in its bucket is exactly what was accepted
   for the minutes of that day.
   */
  lemma EveryAcceptedByteIsShown(clock: int, actions: seq<Action>, device: nat, day: int)
    requires IsDay(day) && AreLegalActions(Start(clock), actions)
    ensures var p := PipelineAfter(Start(clock), actions);
            Plus(DayValue(p.w.store, device, day), PendingIn(p.accounts, device, day, day + DAY))
            == Accounting.TotalAcceptedIn(Start(clock).accounts, EventsOf(actions), device, day, day + DAY)
  {
    hide DayValue, IsDay, RawCutoff, Sum, PendingIn, Accounting.TotalAcceptedIn, Accounting.ValueSum;
    StartIsSound(clock, device, day, day + DAY);
    hide Inv;
    RunsKeepPipeline(Start(clock), actions);
    var p := PipelineAfter(Start(clock), actions);
    DayValueIsLedger(p.w, device, day);
    ValueIsStoredAndPending(p.accounts, device, day, day + DAY);
    Accounting.AcceptedBytesAreKept(Start(clock).accounts, EventsOf(actions), device, day, day + DAY);
    PlusZero(Accounting.TotalAcceptedIn(Start(clock).accounts, EventsOf(actions), device, day, day + DAY));
  }

  lemma StartIsSound(clock: int, device: nat, lo: int, hi: int)
    ensures PipelineInv(Start(clock))
    ensures Accounting.ValueSum(Start(clock).accounts, device, lo, hi) == ZERO
  {
    hide Sum, RawCutoff, HourlyCutoff, Accounting.ValueSum, Plus, FloorToHour, FloorToDay;
    ValueIsStoredAndPending(Start(clock).accounts, device, lo, hi);
    SumZero(Start(clock).accounts.stored, device, lo, hi);
    PlusZero(ZERO);
  }
}
