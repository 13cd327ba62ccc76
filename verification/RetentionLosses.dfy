/**
 Retention without any assumption on how often it runs: which bytes a run dooms that comes
 too late, and when they are gone, wherever runs crash.
 */
module RetentionLosses {
  import opened Common
  import opened Ledger
  import opened TrafficRetention
  import opened RetentionConservation

  // ----- A run that comes too late -----

  predicate IsSkipped(w: World, now: int, time: int) {
    RawCutoff(w.clock) <= time < HourlyCutoff(now)
  }

  function DropSkipped(w: World, now: int, t: Table): Table {
    map k | k in t && !IsSkipped(w, now, k.time) :: t[k]
  }

  /** The world as it would be had the skipped entries never existed and retention run just in time. */
  function Unskipped(w: World, now: int): World {
    World(w.store.(raw := DropSkipped(w, now, w.store.raw)), DropSkipped(w, now, w.ledger),
          HourlyCutoff(now) + 48 * HOUR)
  }

  lemma JustInTime(w: World, now: int)
    requires now >= w.clock && HourlyCutoff(now) > RawCutoff(w.clock)
    ensures RawCutoff(Unskipped(w, now).clock) == HourlyCutoff(now)
    ensures w.clock <= Unskipped(w, now).clock <= now
  {
    hide Sum, FloorToHour, FloorToDay, IsHour, IsDay;
    CutoffsAreAligned(now);
    CutoffsAreAligned(w.clock);
    HourOf(HourlyCutoff(now), HourlyCutoff(now));
    FloorHourFacts(w.clock - 48 * HOUR);
    HourBelow(RawCutoff(w.clock), HourlyCutoff(now));
    FloorDayFacts(now - 30 * DAY);
  }

  lemma UnskippedRowsAreExact(w: World, now: int)
    requires Inv(w) && now >= w.clock && HourlyCutoff(now) > RawCutoff(w.clock)
    ensures HourlyRowsAreExact(Unskipped(w, now)) && DailyRowsAreExact(Unskipped(w, now))
  {
    hide Sum, FloorToHour, FloorToDay, IsHour, IsDay, RawCutoff, HourlyCutoff;
    var r := Unskipped(w, now);
    JustInTime(w, now);
    CutoffsAreAligned(w.clock);
    CutoffsAreOrdered(w.clock);
    CutoffsAreMonotone(w.clock, r.clock);
    forall k | k in r.store.hourly
      ensures Sum(r.ledger, k.device, k.time, k.time + HOUR) == Sum(w.ledger, k.device, k.time, k.time + HOUR)
    {
      HourBelow(k.time, RawCutoff(w.clock));
      SumFrame(w.ledger, r.ledger, k.device, k.time, k.time + HOUR);
    }
    forall k | k in r.store.daily
      ensures Sum(r.ledger, k.device, k.time, k.time + DAY) == Sum(w.ledger, k.device, k.time, k.time + DAY)
    {
      DayBelow(k.time, HourlyCutoff(w.clock));
      SumFrame(w.ledger, r.ledger, k.device, k.time, k.time + DAY);
    }
  }

  lemma UnskippedInv(w: World, now: int)
    requires Inv(w) && now >= w.clock && HourlyCutoff(now) > RawCutoff(w.clock)
    ensures Inv(Unskipped(w, now)) && MayRun(Unskipped(w, now), now)
  {
    hide Sum, FloorToHour, FloorToDay, IsHour, IsDay, RawCutoff, HourlyCutoff;
    var r := Unskipped(w, now);
    JustInTime(w, now);
    UnskippedRowsAreExact(w, now);
    CutoffsAreAligned(w.clock);
    CutoffsAreAligned(now);
    forall k | k in r.store.raw
      ensures k in r.ledger && RawIsLedger(r, k.device, FloorToHour(k.time))
    {
      var hour := FloorToHour(k.time);
      assert RawIsLedger(w, k.device, hour);
      FloorHourFacts(k.time);
      forall t | hour <= t < hour + HOUR
        ensures At(r.store.raw, k.device, t) == At(r.ledger, k.device, t)
      {
        assert At(w.store.raw, k.device, t) == At(w.ledger, k.device, t);
      }
    }
    assert OldEntriesAreRolled(r) by {
      assert forall k | k in w.ledger && IsRolled(w, k) :: IsRolled(r, k);
    }
  }

  // ----- What is doomed and what is gone -----

  /**
   The world, whose ledger has lost what is gone, and the doomed entries: raw rows that are
   older than the hourly cutoff and will never be rolled.
   */
  datatype Tracked = Tracked(w: World, doomed: set<Key>)

  function Dropped(t: Table, keys: set<Key>): Table {
    map k | k in t && k !in keys :: t[k]
  }

  /** The entries that a run at `now` skips. */
  function Skipped(w: World, now: int): set<Key> {
    set k | k in w.ledger && IsSkipped(w, now, k.time)
  }

  /** Samples are stamped at or after the current raw cutoff and the clock does not go back; nothing else is assumed. */
  predicate IsOrdered(w: World, e: Event) {
    match e
    case Insert(_, time, _) => time >= RawCutoff(w.clock)
    case Retain(now, _) => now >= w.clock
  }

  /** A run dooms what it skips; once it has deleted raw rows, all that is doomed is gone. */
  function TrackedStep(t: Tracked, e: Event): Tracked {
    match e
    case Insert(_, _, _) => t.(w := Step(t.w, e))
    case Retain(now, n) =>
      if n == 0 then t
      else
        var doomed := t.doomed + Skipped(t.w, now);
        var st := Run(t.w.store, now, n);
        if n >= 3 then Tracked(World(st, Dropped(t.w.ledger, doomed), now), {})
        else Tracked(World(st, t.w.ledger, now), doomed)
  }

  predicate IsOrderedRun(t: Tracked, events: seq<Event>)
    decreases |events|
  {
    events == [] || (IsOrdered(t.w, events[0]) && IsOrderedRun(TrackedStep(t, events[0]), events[1..]))
  }

  function TrackedAfter(t: Tracked, events: seq<Event>): Tracked
    decreases |events|
  {
    if events == [] then t else TrackedAfter(TrackedStep(t, events[0]), events[1..])
  }

  // ----- The invariant -----

  /** The world without the doomed entries. */
  function Base(t: Tracked): World {
    World(t.w.store.(raw := Dropped(t.w.store.raw, t.doomed)), Dropped(t.w.ledger, t.doomed), t.w.clock)
  }

  /** A doomed entry is still a raw row, is old, and its hour has no row. */
  ghost predicate IsDoomed(w: World, k: Key) {
    && k in w.ledger && k in w.store.raw && w.store.raw[k] == w.ledger[k]
    && k.time < HourlyCutoff(w.clock)
    && Key(k.device, FloorToHour(k.time)) !in w.store.hourly
  }

  ghost predicate TrackedInv(t: Tracked) {
    Inv(Base(t)) && forall k | k in t.doomed :: IsDoomed(t.w, k)
  }

  lemma DropNothing(t: Table)
    ensures Dropped(t, {}) == t
  {
  }

  lemma InsertKeepsTracked(t: Tracked, e: Event)
    requires TrackedInv(t) && e.Insert? && IsOrdered(t.w, e)
    ensures TrackedInv(TrackedStep(t, e))
  {
    hide Sum, Inv, FloorToHour, FloorToDay, RawCutoff, HourlyCutoff, Plus;
    CutoffsAreOrdered(t.w.clock);
    InsertKeepsInv(Base(t), e.device, e.time, e.bytes);
    assert Key(e.device, e.time) !in t.doomed;
    AddAndDrop(t.w.store.raw, t.doomed, e.device, e.time, e.bytes);
    AddAndDrop(t.w.ledger, t.doomed, e.device, e.time, e.bytes);
    hide Dropped;
  }

  lemma AddAndDrop(t: Table, keys: set<Key>, device: nat, time: int, b: Bytes)
    requires Key(device, time) !in keys
    ensures Dropped(Add(t, device, time, b), keys) == Add(Dropped(t, keys), device, time, b)
  {
    hide Plus;
  }

  // ----- Rows below the hourly cutoff do not matter to a run -----

  /** A store without some raw rows. */
  function Without(st: Store, keys: set<Key>): Store {
    st.(raw := Dropped(st.raw, keys))
  }

  ghost predicate AreOld(keys: set<Key>, now: int) {
    forall k | k in keys :: k.time < HourlyCutoff(now)
  }

  lemma OldRowsAreInNoGroup(st: Store, keys: set<Key>, now: int)
    requires AreOld(keys, now)
    ensures HourGroups(Dropped(st.raw, keys), HourlyCutoff(now), RawCutoff(now))
            == HourGroups(st.raw, HourlyCutoff(now), RawCutoff(now))
  {
    hide FloorToHour, RawCutoff, HourlyCutoff;
    assert forall k: Key | HourlyCutoff(now) <= k.time :: k in st.raw <==> k in Dropped(st.raw, keys);
  }

  lemma OldRowsAreInNoSum(st: Store, keys: set<Key>, now: int, g: Key)
    requires AreOld(keys, now)
    ensures var hc, rc := HourlyCutoff(now), RawCutoff(now);
            Sum(Dropped(st.raw, keys), g.device, Max(g.time, hc), Min(g.time + HOUR, rc))
            == Sum(st.raw, g.device, Max(g.time, hc), Min(g.time + HOUR, rc))
  {
    hide Sum, RawCutoff, HourlyCutoff;
    SumFrame(Dropped(st.raw, keys), st.raw, g.device, Max(g.time, HourlyCutoff(now)),
             Min(g.time + HOUR, RawCutoff(now)));
  }

  lemma OldRowsAreNotRolled(st: Store, keys: set<Key>, now: int)
    requires AreOld(keys, now)
    ensures RollHourly(Without(st, keys), HourlyCutoff(now), RawCutoff(now)).hourly
            == RollHourly(st, HourlyCutoff(now), RawCutoff(now)).hourly
  {
    hide Sum, FloorToHour, RawCutoff, HourlyCutoff, HourGroups, Dropped, AreOld;
    OldRowsAreInNoGroup(st, keys, now);
    forall g | g in HourGroups(st.raw, HourlyCutoff(now), RawCutoff(now)) {
      OldRowsAreInNoSum(st, keys, now, g);
    }
  }

  /** Before raw rows are deleted a run just carries them along; afterwards they are gone. */
  lemma OldRowsInRun(st: Store, keys: set<Key>, now: int, n: nat)
    requires AreOld(keys, now) && n > 0
    ensures n < 3 ==> Run(Without(st, keys), now, n) == Without(Run(st, now, n), keys) && Run(st, now, n).raw == st.raw
    ensures n >= 3 ==> Run(Without(st, keys), now, n) == Run(st, now, n)
  {
    hide Sum, FloorToHour, FloorToDay, RawCutoff, HourlyCutoff, HourGroups, DayGroups;
    CutoffsAreOrdered(now);
    OldRowsAreNotRolled(st, keys, now);
    assert PruneRaw(Without(st, keys), RawCutoff(now)).raw == PruneRaw(st, RawCutoff(now)).raw;
  }

  // ----- A run, late or not -----

  /** The base world as a run at `now` finds it once what it skips is left out. */
  function Ready(t: Tracked, now: int): World {
    if HourlyCutoff(now) > RawCutoff(t.w.clock) then Unskipped(Base(t), now) else Base(t)
  }

  lemma ReadyIsReady(t: Tracked, now: int)
    requires TrackedInv(t) && now >= t.w.clock
    ensures Inv(Ready(t, now)) && MayRun(Ready(t, now), now)
  {
    hide Inv, RawCutoff, HourlyCutoff, Unskipped;
    if HourlyCutoff(now) > RawCutoff(t.w.clock) {
      UnskippedInv(Base(t), now);
    }
  }

  lemma RawIsInLedger(w: World)
    requires Inv(w)
    ensures forall k | k in w.store.raw :: k in w.ledger
  {
    hide Sum, FloorToHour, FloorToDay, IsHour, IsDay, RawCutoff, HourlyCutoff, RawIsLedger;
  }

  lemma DropTwice(w: World, now: int, t: Table, keys: set<Key>, skipped: set<Key>)
    requires forall k | k in t && k !in keys :: k in skipped <==> IsSkipped(w, now, k.time)
    ensures DropSkipped(w, now, Dropped(t, keys)) == Dropped(t, keys + skipped)
    ensures HourlyCutoff(now) <= RawCutoff(w.clock) ==> Dropped(t, keys) == Dropped(t, keys + skipped)
  {
    hide RawCutoff, HourlyCutoff;
  }

  lemma ReadyIsWithoutDoomed(t: Tracked, now: int)
    requires TrackedInv(t) && now >= t.w.clock
    ensures var doomed := t.doomed + Skipped(t.w, now);
            && Ready(t, now).store == Without(t.w.store, doomed)
            && Ready(t, now).ledger == Dropped(t.w.ledger, doomed)
  {
    RawIsInLedger(Base(t));
    hide Inv, RawCutoff, HourlyCutoff, IsDoomed, IsSkipped;
    var skipped := Skipped(t.w, now);
    forall k | k in t.w.ledger && k !in t.doomed
      ensures k in skipped <==> IsSkipped(Base(t), now, k.time)
    {
      SameClock(t.w, Base(t), now, k.time);
    }
    forall k | k in t.w.store.raw && k !in t.doomed
      ensures k in skipped <==> IsSkipped(Base(t), now, k.time)
    {
      SameClock(t.w, Base(t), now, k.time);
      assert k in Base(t).store.raw;
    }
    DropTwice(Base(t), now, t.w.ledger, t.doomed, skipped);
    DropTwice(Base(t), now, t.w.store.raw, t.doomed, skipped);
    hide Dropped, DropSkipped, Skipped;
  }

  lemma SameClock(w: World, v: World, now: int, time: int)
    requires w.clock == v.clock
    ensures IsSkipped(w, now, time) <==> IsSkipped(v, now, time)
  {
  }

  /** What a run skips was a whole raw row whose hour has no row yet. */
  lemma SkippedIsDoomed(t: Tracked, now: int, k: Key)
    requires TrackedInv(t) && now >= t.w.clock && k in t.doomed + Skipped(t.w, now)
    ensures k in t.w.ledger && k in t.w.store.raw && t.w.store.raw[k] == t.w.ledger[k]
    ensures k.time < HourlyCutoff(now) && Key(k.device, FloorToHour(k.time)) !in t.w.store.hourly
  {
    hide Sum, FloorToHour, FloorToDay, IsHour, IsDay, RawCutoff, HourlyCutoff;
    CutoffsAreMonotone(t.w.clock, now);
    CutoffsAreOrdered(t.w.clock);
    if k in t.doomed {
      assert IsDoomed(t.w, k);
    } else {
      var b := Base(t);
      CutoffsAreAligned(t.w.clock);
      FloorHourFacts(k.time);
      assert k in b.ledger && k in b.store.raw;
      assert RawIsLedger(b, k.device, FloorToHour(k.time));
      assert At(b.store.raw, k.device, k.time) == At(b.ledger, k.device, k.time);
      if Key(k.device, FloorToHour(k.time)) in b.store.hourly {
        HourBelow(FloorToHour(k.time), RawCutoff(t.w.clock));
        assert false;
      }
    }
  }

  /** Hours below the hourly cutoff get no new row. */
  lemma OldHourStaysUnrolled(st: Store, now: int, n: nat, k: Key)
    requires k.time < HourlyCutoff(now) && Key(k.device, FloorToHour(k.time)) !in st.hourly && 0 < n < 3
    ensures Key(k.device, FloorToHour(k.time)) !in Run(st, now, n).hourly
  {
    hide Sum, FloorToHour, FloorToDay, IsHour, IsDay, RawCutoff, HourlyCutoff;
    CutoffsAreAligned(now);
    FloorHourFacts(k.time);
    if Key(k.device, FloorToHour(k.time)) in HourGroups(st.raw, HourlyCutoff(now), RawCutoff(now)) {
      var x :| x in st.raw && HourlyCutoff(now) <= x.time && FloorToHour(x.time) == FloorToHour(k.time);
      FloorHourFacts(x.time);
      HourBelow(FloorToHour(k.time), HourlyCutoff(now));
      assert false;
    }
  }

  lemma RetainKeepsTracked(t: Tracked, now: int, n: nat)
    requires TrackedInv(t) && now >= t.w.clock && n > 0
    ensures TrackedInv(TrackedStep(t, Retain(now, n)))
  {
    hide Sum, Inv, FloorToHour, FloorToDay, RawCutoff, HourlyCutoff, Run, Dropped, Skipped, Ready, MayRun;
    var doomed := t.doomed + Skipped(t.w, now);
    ReadyIsReady(t, now);
    ReadyIsWithoutDoomed(t, now);
    RunKeepsInv(Ready(t, now), now, n);
    forall k | k in doomed
      ensures k in t.w.ledger && k in t.w.store.raw && t.w.store.raw[k] == t.w.ledger[k]
      ensures k.time < HourlyCutoff(now)
      ensures n < 3 ==> Key(k.device, FloorToHour(k.time)) !in Run(t.w.store, now, n).hourly
    {
      SkippedIsDoomed(t, now, k);
      if n < 3 {
        OldHourStaysUnrolled(t.w.store, now, n, k);
      }
    }
    OldRowsInRun(t.w.store, doomed, now, n);
    DropNothing(Run(t.w.store, now, n).raw);
    DropNothing(Dropped(t.w.ledger, doomed));
  }

  lemma {:induction false} RunsKeepTracked(t: Tracked, events: seq<Event>)
    requires TrackedInv(t) && IsOrderedRun(t, events)
    ensures TrackedInv(TrackedAfter(t, events))
    decreases |events|
  {
    hide TrackedInv, TrackedStep, RawCutoff;
    if events != [] {
      match events[0] {
        case Insert(_, _, _) => InsertKeepsTracked(t, events[0]);
        case Retain(now, n) =>
          if n > 0 {
            RetainKeepsTracked(t, now, n);
          } else {
            NoStatementNoStep(t, now);
          }
      }
      RunsKeepTracked(TrackedStep(t, events[0]), events[1..]);
    }
  }

  lemma NoStatementNoStep(t: Tracked, now: int)
    ensures TrackedStep(t, Retain(now, 0)) == t
  {
  }

  // ----- What a day still shows -----

  lemma HourShowsDoomed(t: Tracked, device: nat, hour: int)
    requires TrackedInv(t) && IsHour(hour) && Key(device, FloorToDay(hour)) !in t.w.store.daily
    ensures HourValue(t.w.store, device, hour) == Sum(t.w.ledger, device, hour, hour + HOUR)
  {
    hide Sum, FloorToHour, FloorToDay, IsHour, IsDay, RawCutoff, HourlyCutoff;
    var b := Base(t);
    if Key(device, hour) in b.store.hourly {
      forall time | hour <= time < hour + HOUR
        ensures At(t.w.ledger, device, time) == At(b.ledger, device, time)
      {
        HourOf(time, hour);
        assert Key(device, time) in t.doomed ==> IsDoomed(t.w, Key(device, time));
      }
      SumFrame(t.w.ledger, b.ledger, device, hour, hour + HOUR);
    } else {
      forall time | hour <= time < hour + HOUR
        ensures At(t.w.store.raw, device, time) == At(t.w.ledger, device, time)
      {
        var k := Key(device, time);
        if k in t.doomed {
          assert IsDoomed(t.w, k);
        } else {
          HourOf(time, hour);
          HourAndDay(time);
          assert k in b.ledger ==> k in b.store.raw || IsRolled(b, k);
          assert k in b.store.raw ==> RawIsLedger(b, device, FloorToHour(time));
          assert At(b.store.raw, device, time) == At(b.ledger, device, time);
        }
      }
      SumFrame(t.w.store.raw, t.w.ledger, device, hour, hour + HOUR);
    }
  }

  lemma {:induction false} HoursShowDoomed(t: Tracked, device: nat, day: int, n: nat)
    requires TrackedInv(t) && IsDay(day) && Key(device, day) !in t.w.store.daily && n <= 24
    ensures HoursTotal(t.w.store, device, day, n) == Sum(t.w.ledger, device, day, day + n * HOUR)
  {
    hide Sum, FloorToHour, FloorToDay, IsHour, IsDay, RawCutoff, HourlyCutoff, TrackedInv, HourValue;
    if n > 0 {
      var hour := day + (n - 1) * HOUR;
      HoursShowDoomed(t, device, day, n - 1);
      SumSplit(t.w.ledger, device, day, hour, hour + HOUR);
      DaysAreHours(day, n - 1);
      DayOf(hour, day);
      HourShowsDoomed(t, device, hour);
    } else {
      SumEmpty(t.w.ledger, device, day, day);
    }
  }

  /** A day without a daily row still shows its doomed entries; a daily row never has them. */
  lemma DayShows(t: Tracked, device: nat, day: int)
    requires TrackedInv(t) && IsDay(day)
    ensures DayValue(t.w.store, device, day) ==
            Sum(if Key(device, day) in t.w.store.daily then Dropped(t.w.ledger, t.doomed) else t.w.ledger,
                device, day, day + DAY)
  {
    hide Sum, FloorToHour, FloorToDay, IsHour, IsDay, RawCutoff, HourlyCutoff, HoursTotal;
    if Key(device, day) in t.w.store.daily {
      DayValueIsLedger(Base(t), device, day);
    } else {
      HoursShowDoomed(t, device, day, 24);
    }
  }

  /**
   After any run of inserts and retention runs, however far apart and wherever they crash,
   a day's bytes are those inserted that no late run skipped and then deleted, without the
   skipped ones once the day has a daily row.
   */
  lemma EveryRunIsAccountedFor(clock: int, events: seq<Event>, device: nat, day: int)
    requires IsDay(day)
    requires IsOrderedRun(Tracked(World(Store(map[], map[], map[]), map[], clock), {}), events)
    ensures var t := TrackedAfter(Tracked(World(Store(map[], map[], map[]), map[], clock), {}), events);
            DayValue(t.w.store, device, day) ==
            Sum(if Key(device, day) in t.w.store.daily then Dropped(t.w.ledger, t.doomed) else t.w.ledger,
                device, day, day + DAY)
  {
    hide Sum, DayValue, IsDay, FloorToHour, FloorToDay, RawCutoff, HourlyCutoff;
    var start := Tracked(World(Store(map[], map[], map[]), map[], clock), {});
    assert TrackedInv(start);
    RunsKeepTracked(start, events);
    DayShows(TrackedAfter(start, events), device, day);
  }

  /** Where retention runs often enough nothing is ever doomed and the ledger keeps every byte. */
  lemma {:induction false} SpacedRunsDoomNothing(w: World, events: seq<Event>)
    requires IsLegalRun(w, events)
    ensures IsOrderedRun(Tracked(w, {}), events)
    ensures TrackedAfter(Tracked(w, {}), events) == Tracked(After(w, events), {})
    decreases |events|
  {
    hide Run, RawCutoff, HourlyCutoff;
    if events != [] {
      if events[0].Retain? {
        assert Skipped(w, events[0].now) == {};
        DropNothing(w.ledger);
      }
      assert TrackedStep(Tracked(w, {}), events[0]) == Tracked(Step(w, events[0]), {});
      SpacedRunsDoomNothing(Step(w, events[0]), events[1..]);
    }
  }

  lemma LateRunIsTracked(w: World, now: int, n: nat)
    requires Inv(w) && now >= w.clock && n > 0
    ensures var st := Run(w.store, now, n);
            && TrackedStep(Tracked(w, {}), Retain(now, n))
               == (if n >= 3 then Tracked(World(st, DropSkipped(w, now, w.ledger), now), {})
                   else Tracked(World(st, w.ledger, now), Skipped(w, now)))
            && TrackedInv(TrackedStep(Tracked(w, {}), Retain(now, n)))
            && (n >= 3 ==> Inv(World(st, DropSkipped(w, now, w.ledger), now)))
    ensures Dropped(w.ledger, Skipped(w, now)) == DropSkipped(w, now, w.ledger)
  {
    hide Sum, Inv, Run, FloorToHour, FloorToDay, RawCutoff, HourlyCutoff;
    var t := Tracked(w, {});
    DropNothing(w.store.raw);
    DropNothing(w.ledger);
    RetainKeepsTracked(t, now, n);
    assert {} + Skipped(w, now) == Skipped(w, now);
    assert Dropped(w.ledger, Skipped(w, now)) == DropSkipped(w, now, w.ledger);
    DropNothing(Run(w.store, now, n).raw);
    DropNothing(DropSkipped(w, now, w.ledger));
  }

  /**
   One run that comes too late and crashes after n statements: the skipped bytes of a day
   are gone once raw rows are deleted, and before that exactly where a daily row is there.
   */
  lemma LateRunLosesExactly(w: World, now: int, n: nat, device: nat, day: int)
    requires Inv(w) && now >= w.clock && IsDay(day) && n > 0
    ensures var st := Run(w.store, now, n);
            DayValue(st, device, day) ==
            Sum(if n >= 3 || Key(device, day) in st.daily then DropSkipped(w, now, w.ledger) else w.ledger,
                device, day, day + DAY)
  {
    hide Sum, Inv, Run, DayValue, IsDay, FloorToHour, FloorToDay, RawCutoff, HourlyCutoff, Dropped, DropSkipped;
    LateRunIsTracked(w, now, n);
    DayShows(TrackedStep(Tracked(w, {}), Retain(now, n)), device, day);
    DropNothing(DropSkipped(w, now, w.ledger));
  }

  /**
   Whenever retention last ran, a complete run keeps exactly the ledger minus the
   entries stamped from the previous raw cutoff up to the new hourly cutoff.
   */
  lemma CompleteRunLosesExactlyTheSkipped(w: World, now: int, device: nat, day: int)
    requires Inv(w) && now >= w.clock && IsDay(day)
    ensures Inv(World(Run(w.store, now, 4), DropSkipped(w, now, w.ledger), now))
    ensures DayValue(Run(w.store, now, 4), device, day)
            == Sum(DropSkipped(w, now, w.ledger), device, day, day + DAY)
  {
    hide Sum, FloorToHour, FloorToDay, IsHour, IsDay, RawCutoff, HourlyCutoff, Inv, Run, DayValue, Dropped, DropSkipped;
    LateRunIsTracked(w, now, 4);
    LateRunLosesExactly(w, now, 4, device, day);
  }

  lemma {:induction false} SumSkipped(w: World, now: int, device: nat, lo: int, hi: int)
    ensures Sum(w.ledger, device, lo, hi) ==
            Plus(Sum(DropSkipped(w, now, w.ledger), device, lo, hi), SkippedBytes(w, now, device, lo, hi))
    decreases hi - lo
  {
    hide Sum, RawCutoff, HourlyCutoff, Plus;
    var kept := DropSkipped(w, now, w.ledger);
    if lo < hi {
      var skipped := if IsSkipped(w, now, hi - 1) then At(w.ledger, device, hi - 1) else ZERO;
      SumSkipped(w, now, device, lo, hi - 1);
      SumStep(w.ledger, device, lo, hi);
      SumStep(kept, device, lo, hi);
      PlusZero(At(w.ledger, device, hi - 1));
      assert At(w.ledger, device, hi - 1) == Plus(At(kept, device, hi - 1), skipped);
      PlusInterchange(Sum(kept, device, lo, hi - 1), SkippedBytes(w, now, device, lo, hi - 1),
                      At(kept, device, hi - 1), skipped);
    } else {
      SumEmpty(w.ledger, device, lo, hi);
      SumEmpty(kept, device, lo, hi);
      PlusZero(ZERO);
    }
  }

  /** The bytes of a span that a run at `now` skips. */
  function SkippedBytes(w: World, now: int, device: nat, lo: int, hi: int): Bytes
    decreases hi - lo
  {
    if hi <= lo then ZERO
    else
      Plus(SkippedBytes(w, now, device, lo, hi - 1),
           if IsSkipped(w, now, hi - 1) then At(w.ledger, device, hi - 1) else ZERO)
  }

  /** A complete run keeps a day's bytes if and only if no bytes of that day are skipped. */
  lemma DayIsKeptIffNothingSkipped(w: World, now: int, device: nat, day: int)
    requires Inv(w) && now >= w.clock && IsDay(day)
    ensures DayValue(Run(w.store, now, 4), device, day) == Sum(w.ledger, device, day, day + DAY)
            <==> SkippedBytes(w, now, device, day, day + DAY) == ZERO
  {
    hide Sum, FloorToHour, FloorToDay, IsHour, IsDay, RawCutoff, HourlyCutoff, Inv, Run, DayValue, SkippedBytes;
    CompleteRunLosesExactlyTheSkipped(w, now, device, day);
    SumSkipped(w, now, device, day, day + DAY);
  }

  // ----- The tables stay bounded -----

  /**
   After a complete run raw rows begin with the hour of 48 hours ago and hourly rows with the
   day of 30 days ago; no other raw row has gone, no such hourly row and no daily row at all.
   */
  lemma CompleteRunBoundsTheTables(st: Store, now: int, k: Key)
    ensures var r := Run(st, now, 4);
            && (k in r.raw <==> k in st.raw && k.time >= (now - 172_800_000) / 3_600_000 * 3_600_000)
            && (k in r.raw ==> r.raw[k] == st.raw[k])
            && (k in r.hourly ==> k.time >= (now - 2_592_000_000) / 86_400_000 * 86_400_000)
            && (k in st.hourly && k.time >= (now - 2_592_000_000) / 86_400_000 * 86_400_000 ==> k in r.hourly)
            && (k in st.daily ==> k in r.daily)
  {
    hide Sum, HourGroups, DayGroups;
    assert RawCutoff(now) == (now - 172_800_000) / 3_600_000 * 3_600_000;
    assert HourlyCutoff(now) == (now - 2_592_000_000) / 86_400_000 * 86_400_000;
    hide RawCutoff, HourlyCutoff;
  }
}
