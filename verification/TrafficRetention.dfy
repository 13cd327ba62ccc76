/**
 Bounded history: raw samples are rolled into hourly rows, hourly rows into
 daily rows, and what has been rolled is deleted. A run is four statements and
 may crash between any two of them.
 */
module TrafficRetention {
  import opened Common
  import opened Ledger

  const HOUR := 3_600_000
  const DAY := 86_400_000

  function FloorToHour(time: int): int {
    time / 3_600_000 * 3_600_000
  }

  function FloorToDay(time: int): int {
    time / 86_400_000 * 86_400_000
  }

  function RawCutoff(now: int): int {
    FloorToHour(now - 48 * HOUR)
  }

  function HourlyCutoff(now: int): int {
    FloorToDay(now - 30 * DAY)
  }

  datatype Store = Store(raw: Table, hourly: Table, daily: Table)

  /** The groups of the first statement: one per device and hour with a selected row. */
  function HourGroups(raw: Table, hourlyCutoff: int, rawCutoff: int): set<Key> {
    set k | k in raw && hourlyCutoff <= k.time < rawCutoff :: Key(k.device, FloorToHour(k.time))
  }

  /** The sum over a group's selected rows. */
  function RollHourly(st: Store, hourlyCutoff: int, rawCutoff: int): Store {
    var rolled := map g | g in HourGroups(st.raw, hourlyCutoff, rawCutoff) ::
      Sum(st.raw, g.device, Max(g.time, hourlyCutoff), Min(g.time + HOUR, rawCutoff));
    st.(hourly := st.hourly + rolled)
  }

  function DayGroups(hourly: Table, hourlyCutoff: int): set<Key> {
    set k | k in hourly && k.time < hourlyCutoff :: Key(k.device, FloorToDay(k.time))
  }

  function RollDaily(st: Store, hourlyCutoff: int): Store {
    var rolled := map g | g in DayGroups(st.hourly, hourlyCutoff) ::
      Sum(st.hourly, g.device, g.time, Min(g.time + DAY, hourlyCutoff));
    st.(daily := st.daily + rolled)
  }

  function PruneRaw(st: Store, rawCutoff: int): Store {
    st.(raw := map k | k in st.raw && !(k.time < rawCutoff) :: st.raw[k])
  }

  function PruneHourly(st: Store, hourlyCutoff: int): Store {
    st.(hourly := map k | k in st.hourly && !(k.time < hourlyCutoff) :: st.hourly[k])
  }

  /** A run at `now` that completes its first n statements. */
  function Run(st: Store, now: int, n: nat): Store {
    var rc, hc := RawCutoff(now), HourlyCutoff(now);
    var st1 := if n >= 1 then RollHourly(st, hc, rc) else st;
    var st2 := if n >= 2 then RollDaily(st1, hc) else st1;
    var st3 := if n >= 3 then PruneRaw(st2, rc) else st2;
    if n >= 4 then PruneHourly(st3, hc) else st3
  }

  /** The tables, updated in place statement by statement; n statements complete before a crash. */
  class TrafficRetentionService {
    var raw: Table
    var hourly: Table
    var daily: Table

    constructor ()
      ensures State() == Store(map[], map[], map[])
    {
      raw, hourly, daily := map[], map[], map[];
    }

    function State(): Store
      reads this
    {
      Store(raw, hourly, daily)
    }

    method RollHours(hourlyCutoff: int, rawCutoff: int)
      modifies this
      ensures State() == RollHourly(old(State()), hourlyCutoff, rawCutoff)
    {
      var groups := HourGroups(raw, hourlyCutoff, rawCutoff);
      hourly := hourly + map g | g in groups ::
        Sum(raw, g.device, Max(g.time, hourlyCutoff), Min(g.time + HOUR, rawCutoff));
    }

    method RollDays(hourlyCutoff: int)
      modifies this
      ensures State() == RollDaily(old(State()), hourlyCutoff)
    {
      var groups := DayGroups(hourly, hourlyCutoff);
      daily := daily + map g | g in groups :: Sum(hourly, g.device, g.time, Min(g.time + DAY, hourlyCutoff));
    }

    method DeleteRaw(rawCutoff: int)
      modifies this
      ensures State() == PruneRaw(old(State()), rawCutoff)
    {
      raw := map k | k in raw && !(k.time < rawCutoff) :: raw[k];
    }

    method DeleteHourly(hourlyCutoff: int)
      modifies this
      ensures State() == PruneHourly(old(State()), hourlyCutoff)
    {
      hourly := map k | k in hourly && !(k.time < hourlyCutoff) :: hourly[k];
    }

    method RunUntil(now: int, n: nat)
      modifies this
      ensures State() == Run(old(State()), now, n)
    {
      var rawCutoff := RawCutoff(now);
      var hourlyCutoff := HourlyCutoff(now);
      if n < 1 {
        return;
      }
      RollHours(hourlyCutoff, rawCutoff);
      if n < 2 {
        return;
      }
      RollDays(hourlyCutoff);
      if n < 3 {
        return;
      }
      DeleteRaw(rawCutoff);
      if n < 4 {
        return;
      }
      DeleteHourly(hourlyCutoff);
    }
  }

  // ----- Worlds: the tables beside a ledger of everything ever inserted -----

  datatype World = World(store: Store, ledger: Table, clock: int)

  datatype Event =
    | Insert(device: nat, time: int, bytes: Bytes)
    | Retain(now: int, completed: nat)

  /**
   Samples are stamped at or after the current raw cutoff; the clock does not go
   back; the new hourly cutoff does not pass the previous raw cutoff.
   */
  predicate IsLegal(w: World, e: Event) {
    match e
    case Insert(_, time, _) => time >= RawCutoff(w.clock)
    case Retain(now, _) => now >= w.clock && HourlyCutoff(now) <= RawCutoff(w.clock)
  }

  /** A run that crashes before its first statement leaves no trace, so it does not move the clock. */
  function Step(w: World, e: Event): World {
    match e
    case Insert(device, time, b) =>
      World(w.store.(raw := Add(w.store.raw, device, time, b)), Add(w.ledger, device, time, b), w.clock)
    case Retain(now, completed) =>
      if completed == 0 then w else World(Run(w.store, now, completed), w.ledger, now)
  }

  predicate IsLegalRun(w: World, events: seq<Event>)
    decreases |events|
  {
    events == [] || (IsLegal(w, events[0]) && IsLegalRun(Step(w, events[0]), events[1..]))
  }

  function After(w: World, events: seq<Event>): World
    decreases |events|
  {
    if events == [] then w else After(Step(w, events[0]), events[1..])
  }

  // ----- Counting each byte once -----

  function HourValue(st: Store, device: nat, hour: int): Bytes {
    if Key(device, hour) in st.hourly then st.hourly[Key(device, hour)]
    else Sum(st.raw, device, hour, hour + HOUR)
  }

  function HoursTotal(st: Store, device: nat, day: int, n: nat): Bytes {
    if n == 0 then ZERO
    else Plus(HoursTotal(st, device, day, n - 1), HourValue(st, device, day + (n - 1) * HOUR))
  }

  /** A day's bytes: its daily row if there is one, else its 24 hours, each from its hourly row or its raw rows. */
  function DayValue(st: Store, device: nat, day: int): Bytes {
    if Key(device, day) in st.daily then st.daily[Key(device, day)]
    else HoursTotal(st, device, day, 24)
  }

  // ----- The invariant -----

  predicate IsHour(time: int) {
    time % 3_600_000 == 0
  }

  predicate IsDay(time: int) {
    time % 86_400_000 == 0
  }

  /** An hour of raw rows is either exactly the ledger's hour or absent. */
  ghost predicate RawIsLedger(w: World, device: nat, hour: int) {
    forall time | hour <= time < hour + HOUR :: At(w.store.raw, device, time) == At(w.ledger, device, time)
  }

  predicate IsRolled(w: World, k: Key) {
    Key(k.device, FloorToDay(k.time)) in w.store.daily || Key(k.device, FloorToHour(k.time)) in w.store.hourly
  }

  ghost predicate HourlyRowsAreExact(w: World) {
    forall k | k in w.store.hourly ::
      IsHour(k.time) && k.time < RawCutoff(w.clock)
      && w.store.hourly[k] == Sum(w.ledger, k.device, k.time, k.time + HOUR)
  }

  ghost predicate DailyRowsAreExact(w: World) {
    forall k | k in w.store.daily ::
      IsDay(k.time) && k.time < HourlyCutoff(w.clock)
      && w.store.daily[k] == Sum(w.ledger, k.device, k.time, k.time + DAY)
  }

  ghost predicate RawHoursAreWhole(w: World) {
    && (forall k | k in w.store.raw :: k in w.ledger && RawIsLedger(w, k.device, FloorToHour(k.time)))
    && (forall k | k in w.ledger && k.time >= RawCutoff(w.clock) :: k in w.store.raw)
  }

  /** Everything below the raw cutoff has been rolled, and a day's hourly rows come and go together. */
  ghost predicate OldEntriesAreRolled(w: World) {
    && (forall k | k in w.ledger && k.time < RawCutoff(w.clock) :: IsRolled(w, k))
    && (forall k, h | k in w.ledger && k.time < RawCutoff(w.clock) && h in w.store.hourly
                      && h.device == k.device && FloorToDay(h.time) == FloorToDay(k.time) ::
          Key(k.device, FloorToHour(k.time)) in w.store.hourly)
  }

  ghost predicate Inv(w: World) {
    HourlyRowsAreExact(w) && DailyRowsAreExact(w) && RawHoursAreWhole(w) && OldEntriesAreRolled(w)
  }

  // ----- Arithmetic of aligned instants -----

  lemma FloorHourFacts(time: int)
    ensures IsHour(FloorToHour(time)) && FloorToHour(time) <= time < FloorToHour(time) + HOUR
  {
  }

  lemma FloorDayFacts(time: int)
    ensures IsDay(FloorToDay(time)) && FloorToDay(time) <= time < FloorToDay(time) + DAY
  {
  }

  lemma HourOf(time: int, hour: int)
    requires IsHour(hour) && hour <= time < hour + HOUR
    ensures FloorToHour(time) == hour
  {
  }

  lemma DayOf(time: int, day: int)
    requires IsDay(day) && day <= time < day + DAY
    ensures FloorToDay(time) == day
  {
  }

  /** An aligned hour below an aligned cutoff lies wholly below it. */
  lemma HourBelow(hour: int, cutoff: int)
    requires IsHour(hour) && IsHour(cutoff) && hour < cutoff
    ensures hour + HOUR <= cutoff
  {
  }

  lemma DayBelow(day: int, cutoff: int)
    requires IsDay(day) && IsDay(cutoff) && day < cutoff
    ensures day + DAY <= cutoff
  {
  }

  lemma DaysAreHours(day: int, n: int)
    requires IsDay(day)
    ensures IsHour(day + n * HOUR)
  {
  }

  lemma CutoffsAreAligned(now: int)
    ensures IsHour(RawCutoff(now)) && IsDay(HourlyCutoff(now)) && IsHour(HourlyCutoff(now))
  {
  }

  lemma CutoffsAreOrdered(now: int)
    ensures HourlyCutoff(now) < RawCutoff(now)
  {
  }

  lemma CutoffsAreMonotone(now: int, later: int)
    requires now <= later
    ensures RawCutoff(now) <= RawCutoff(later) && HourlyCutoff(now) <= HourlyCutoff(later)
  {
  }
}
