/**
 The period table as the quota service drives it, and the ledger of recorded
 usage it must agree with. Rows are unique on device, period type and start.
 */
module QuotaLedger {
  import opened Common
  import opened QuotaPeriods

  type DeviceId = nat

  datatype Key = Key(device: DeviceId, periodType: string, start: int)

  datatype Usage = Usage(down: int, up: int)

  const UNUSED := Usage(0, 0)

  function Plus(a: Usage, b: Usage): Usage {
    Usage(a.down + b.down, a.up + b.up)
  }

  datatype Row = Row(end: int, used: Usage)

  type Rows = map<Key, Row>

  function PeriodFor(periodType: string, now: int): Period {
    PeriodOf(KindOf(periodType), now)
  }

  // ----- The table's queries and updates -----

  predicate IsCurrent(rows: Rows, device: DeviceId, periodType: string, now: int, k: Key) {
    k in rows && k.device == device && k.periodType == periodType && k.start <= now < rows[k].end
  }

  /** The row with the latest start among those whose bounds contain the instant. */
  ghost function Current(rows: Rows, device: DeviceId, periodType: string, now: int): (r: Option<Key>)
    ensures r.Some? ==> IsCurrent(rows, device, periodType, now, r.value)
    ensures r.Some? ==> forall k | IsCurrent(rows, device, periodType, now, k) :: k.start <= r.value.start
    ensures r.None? ==> forall k :: !IsCurrent(rows, device, periodType, now, k)
  {
    var matching := set k | k in rows && IsCurrent(rows, device, periodType, now, k);
    assert forall k :: IsCurrent(rows, device, periodType, now, k) ==> k in matching;
    Latest(matching)
  }

  ghost function Latest(keys: set<Key>): (r: Option<Key>)
    ensures r.None? <==> keys == {}
    ensures r.Some? ==> r.value in keys && forall k | k in keys :: k.start <= r.value.start
  {
    if keys == {} then None
    else
      var k :| k in keys;
      var rest := Latest(keys - {k});
      if rest.Some? && k.start <= rest.value.start then rest else Some(k)
  }

  /** A second row with the same key violates the unique index. */
  function Created(rows: Rows, device: DeviceId, periodType: string, p: Period): (Rows, Option<Key>) {
    var k := Key(device, periodType, p.start);
    if k in rows then (rows, None) else (rows[k := Row(p.end, UNUSED)], Some(k))
  }

  /** The row moves to the given bounds with its usage wiped, unless another row has that key. */
  function Moved(rows: Rows, k: Key, p: Period): (Rows, Option<Key>)
    requires k in rows
  {
    var k' := k.(start := p.start);
    if k' in rows && k' != k then (rows, None) else ((rows - {k})[k' := Row(p.end, UNUSED)], Some(k'))
  }

  function Incremented(rows: Rows, k: Key, u: Usage): Rows
    requires k in rows
  {
    rows[k := rows[k].(used := Plus(rows[k].used, u))]
  }

  /** Find the current row or create it; a row with other bounds than the calculated ones is moved. */
  ghost function LookedUp(rows: Rows, device: DeviceId, periodType: string, now: int): (r: (Rows, Option<Key>))
    ensures r.1.Some? ==> r.1.value in r.0
  {
    var p := PeriodFor(periodType, now);
    match Current(rows, device, periodType, now)
    case None => Created(rows, device, periodType, p)
    case Some(k) => if k.start != p.start || rows[k].end != p.end then Moved(rows, k, p) else (rows, Some(k))
  }

  // ----- Runs -----

  /** A reset reads the clock twice: once for the bounds, once for the lookup. */
  datatype Event =
    | Record(device: DeviceId, periodType: string, at: int, used: Usage)
    | Read(device: DeviceId, periodType: string, at: int)
    | Reset(device: DeviceId, periodType: string, boundsAt: int, lookupAt: int)
    | Clear(device: DeviceId, periodType: string, boundsAt: int, lookupAt: int)

  /** What a reset or clear does, and whether it succeeds. */
  ghost function Wiped(rows: Rows, e: Event): (Rows, bool)
    requires e.Reset? || e.Clear?
  {
    match Current(rows, e.device, e.periodType, e.lookupAt)
    case None =>
      if e.Clear? then (rows, true)
      else
        var (rows', k) := Created(rows, e.device, e.periodType, PeriodFor(e.periodType, e.boundsAt));
        (rows', k.Some?)
    case Some(k) =>
      var (rows', k') := Moved(rows, k, PeriodFor(e.periodType, e.boundsAt));
      (rows', k'.Some?)
  }

  ghost function Step(rows: Rows, e: Event): Rows {
    match e
    case Record(d, p, at, used) =>
      if used.down < 0 || used.up < 0 then rows
      else
        var (rows', k) := LookedUp(rows, d, p, at);
        if k.None? then rows' else Incremented(rows', k.value, used)
    case Read(d, p, at) => LookedUp(rows, d, p, at).0
    case _ => Wiped(rows, e).0
  }

  /** The table after a run that began with no rows. */
  ghost function Run(events: seq<Event>): Rows {
    if events == [] then map[] else Step(Run(events[..|events| - 1]), events[|events| - 1])
  }

  // ----- The ledger -----

  predicate IsOf(e: Event, k: Key, at: int) {
    e.device == k.device && e.periodType == k.periodType && PeriodFor(e.periodType, at).start == k.start
  }

  /** Bytes recorded for instants of the period since its last successful reset. */
  ghost function Recorded(events: seq<Event>, k: Key): Usage {
    if events == [] then UNUSED
    else
      var past := events[..|events| - 1];
      Posted(Recorded(past, k), events[|events| - 1], Succeeds(Run(past), events[|events| - 1]), k)
  }

  ghost predicate Succeeds(rows: Rows, e: Event) {
    (e.Reset? || e.Clear?) ==> Wiped(rows, e).1
  }

  function Posted(before: Usage, e: Event, succeeds: bool, k: Key): Usage {
    match e
    case Record(_, _, at, used) =>
      if used.down >= 0 && used.up >= 0 && IsOf(e, k, at) then Plus(before, used) else before
    case Read(_, _, _) => before
    case _ => if succeeds && IsOf(e, k, e.lookupAt) then UNUSED else before
  }

  function UsageOf(rows: Rows, k: Key): Usage {
    if k in rows then rows[k].used else UNUSED
  }

  // ----- Canonical rows -----

  /** Every row's bounds are the period of its own start. */
  ghost predicate IsCanonical(rows: Rows) {
    forall k | k in rows :: PeriodFor(k.periodType, k.start) == Period(k.start, rows[k].end)
  }

  /** In a canonical table the current row is the one keyed by the instant's period, if there is one. */
  lemma CurrentIsKeyed(rows: Rows, device: DeviceId, periodType: string, now: int)
    requires IsCanonical(rows)
    ensures var k := Key(device, periodType, PeriodFor(periodType, now).start);
            Current(rows, device, periodType, now) == if k in rows then Some(k) else None
  {
    hide PeriodOf, KindOf;
    var kind := KindOf(periodType);
    var k := Key(device, periodType, PeriodFor(periodType, now).start);
    PeriodsTile(kind, now, PeriodFor(periodType, now).start);
    if k in rows {
      assert IsCurrent(rows, device, periodType, now, k);
    }
    var c := Current(rows, device, periodType, now);
    if c.Some? {
      PeriodsTile(kind, c.value.start, now);
      assert c.value == k;
    }
  }

  /** A lookup in a canonical table never wipes, never moves and never fails: it finds the row or adds an unused one. */
  lemma LookupNeverWipes(rows: Rows, device: DeviceId, periodType: string, now: int)
    requires IsCanonical(rows)
    ensures var k := Key(device, periodType, PeriodFor(periodType, now).start);
            LookedUp(rows, device, periodType, now)
            == (if k in rows then rows else rows[k := Row(PeriodFor(periodType, now).end, UNUSED)], Some(k))
    ensures IsCanonical(LookedUp(rows, device, periodType, now).0)
  {
    hide PeriodOf, KindOf, Current;
    CurrentIsKeyed(rows, device, periodType, now);
    CanonicalBounds(periodType, now);
  }

  lemma CanonicalBounds(periodType: string, now: int)
    ensures PeriodFor(periodType, PeriodFor(periodType, now).start) == PeriodFor(periodType, now)
  {
    hide PeriodOf, KindOf;
    PeriodsTile(KindOf(periodType), now, PeriodFor(periodType, now).start);
  }

  /** Rows stay canonical over every run, even when a reset's two clock reads fall in different periods. */
  lemma {:induction false} RunIsCanonical(events: seq<Event>)
    ensures IsCanonical(Run(events))
  {
    hide PeriodFor, Current, LookedUp;
    if events != [] {
      RunIsCanonical(events[..|events| - 1]);
      StepIsCanonical(Run(events[..|events| - 1]), events[|events| - 1]);
    }
  }

  lemma StepIsCanonical(rows: Rows, e: Event)
    requires IsCanonical(rows)
    ensures IsCanonical(Step(rows, e))
  {
    hide PeriodFor, Current, LookedUp;
    match e
    case Record(d, p, at, _) => LookupNeverWipes(rows, d, p, at);
    case Read(d, p, at) => LookupNeverWipes(rows, d, p, at);
    case _ => CanonicalBounds(e.periodType, e.boundsAt);
  }

  // ----- Agreement with the ledger -----

  /**
   After any run from an empty table, the usage of every period is exactly what
   was recorded for its instants since its last successful reset.
   */
  lemma {:induction false} UsageIsWhatWasRecorded(events: seq<Event>)
    ensures forall k: Key :: UsageOf(Run(events), k) == Recorded(events, k)
  {
    hide Step, PeriodFor, Posted, Succeeds, UsageOf, IsCanonical;
    if events != [] {
      var past, e := events[..|events| - 1], events[|events| - 1];
      UsageIsWhatWasRecorded(past);
      RunIsCanonical(past);
      forall k: Key
        ensures UsageOf(Run(events), k) == Recorded(events, k)
      {
        StepPosts(Run(past), e, k);
      }
    } else {
      forall k: Key
        ensures UsageOf(Run(events), k) == Recorded(events, k)
      {
        NothingIsUnused(k);
      }
    }
  }

  lemma NothingIsUnused(k: Key)
    ensures UsageOf(map[], k) == UNUSED
  {
  }

  lemma StepPosts(rows: Rows, e: Event, k: Key)
    requires IsCanonical(rows)
    ensures UsageOf(Step(rows, e), k) == Posted(UsageOf(rows, k), e, Succeeds(rows, e), k)
  {
    hide IsCanonical, PeriodFor, Current, LookedUp;
    match e
    case Record(d, p, at, _) => LookupNeverWipes(rows, d, p, at);
    case Read(d, p, at) => LookupNeverWipes(rows, d, p, at);
    case _ => CurrentIsKeyed(rows, e.device, e.periodType, e.lookupAt);
  }

  /** The period that a text names at an instant, said of the text. */
  lemma PeriodForByText(periodType: string, now: int)
    ensures IsPeriodByText(periodType, now, PeriodFor(periodType, now))
  {
    PeriodsByText(periodType, now);
  }

  /** A recording adds its bytes, by direction, to the one period of its device and type that has its instant. */
  lemma RecordingByFields(rows: Rows, device: DeviceId, periodType: string, at: int, used: Usage, k: Key)
    requires IsCanonical(rows) && used.down >= 0 && used.up >= 0
    requires PeriodFor(k.periodType, k.start).start == k.start
    ensures var before, after := UsageOf(rows, k), UsageOf(Step(rows, Record(device, periodType, at, used)), k);
            if && k.device == device && k.periodType == periodType
               && k.start <= at < PeriodFor(periodType, k.start).end
            then after.down == before.down + used.down && after.up == before.up + used.up
            else after == before
  {
    hide IsCanonical, PeriodOf, KindOf, Step;
    StepPosts(rows, Record(device, periodType, at, used), k);
    if k.periodType == periodType {
      PeriodsTile(KindOf(periodType), k.start, at);
      PeriodsTile(KindOf(periodType), at, k.start);
    }
  }

  /** Reading the quota after any run shows the ledger of the period that contains the instant. */
  lemma ReadingShowsTheLedger(events: seq<Event>, device: DeviceId, periodType: string, now: int)
    ensures var k := Key(device, periodType, PeriodFor(periodType, now).start);
            var rows := Step(Run(events), Read(device, periodType, now));
            && k in rows && Current(rows, device, periodType, now) == Some(k)
            && rows[k] == Row(PeriodFor(periodType, now).end, Recorded(events, k))
  {
    hide PeriodFor, Current, LookedUp, Recorded;
    RunIsCanonical(events);
    UsageIsWhatWasRecorded(events);
    LookupNeverWipes(Run(events), device, periodType, now);
    var k := Key(device, periodType, PeriodFor(periodType, now).start);
    assert UsageOf(Run(events), k) == Recorded(events, k);
    CanonicalBounds(periodType, now);
    CurrentIsKeyed(Step(Run(events), Read(device, periodType, now)), device, periodType, now);
  }

  // ----- Resets across a boundary -----

  /**
   A reset fails exactly when its two clock reads fall in different periods and the
   first read's period already has a row.
   */
  lemma ResetFailsIffItStraddles(rows: Rows, device: DeviceId, periodType: string, boundsAt: int, lookupAt: int)
    requires IsCanonical(rows)
    ensures !Succeeds(rows, Reset(device, periodType, boundsAt, lookupAt))
            <==> PeriodFor(periodType, boundsAt) != PeriodFor(periodType, lookupAt)
                 && Key(device, periodType, PeriodFor(periodType, boundsAt).start) in rows
  {
    hide IsCanonical, Current, PeriodFor;
    CurrentIsKeyed(rows, device, periodType, lookupAt);
    CanonicalBounds(periodType, boundsAt);
    CanonicalBounds(periodType, lookupAt);
  }

  /** A failed reset changes nothing; a successful one leaves no usage in the period it was asked for. */
  lemma ResetIsAllOrNothing(rows: Rows, e: Event)
    requires IsCanonical(rows) && (e.Reset? || e.Clear?)
    ensures var k := Key(e.device, e.periodType, PeriodFor(e.periodType, e.lookupAt).start);
            if Succeeds(rows, e) then UsageOf(Step(rows, e), k) == UNUSED else Step(rows, e) == rows
  {
    hide IsCanonical, Current, PeriodFor;
    CurrentIsKeyed(rows, e.device, e.periodType, e.lookupAt);
  }

  /** Five seconds before midnight the bounds are read, five seconds after it the row: the reset fails. */
  lemma AResetAtMidnightCanFail() returns (rows: Rows, e: Event)
    ensures IsCanonical(rows) && e.Reset? && e.boundsAt < e.lookupAt == e.boundsAt + 10_000
    ensures !Succeeds(rows, e)
  {
    hide PeriodOf, KindOf, Succeeds;
    rows := map[Key(1, "daily", 0) := Row(86_400_000, Usage(7, 7))];
    e := Reset(1, "daily", 86_395_000, 86_405_000);
    DailyPeriods();
    ResetFailsIffItStraddles(rows, 1, "daily", 86_395_000, 86_405_000);
  }

  lemma DailyPeriods()
    ensures PeriodFor("daily", 0) == Period(0, 86_400_000) == PeriodFor("daily", 86_395_000)
    ensures PeriodFor("daily", 86_405_000) == Period(86_400_000, 172_800_000)
  {
    assert Lower("daily") == "daily";
  }
}
