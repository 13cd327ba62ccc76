/** Why no byte is lost or counted twice, whatever runs happen and wherever they crash. */
module RetentionConservation {
  import opened Common
  import opened Ledger
  import opened TrafficRetention

  // ----- Each statement keeps the invariant -----

  lemma InsertKeepsInv(w: World, device: nat, time: int, b: Bytes)
    requires Inv(w) && time >= RawCutoff(w.clock)
    ensures Inv(Step(w, Insert(device, time, b)))
  {
    hide Sum, FloorToHour, FloorToDay, IsHour, IsDay, RawCutoff, HourlyCutoff;
    var r := Step(w, Insert(device, time, b));
    CutoffsAreAligned(w.clock);
    CutoffsAreOrdered(w.clock);
    forall k | k in r.store.hourly
      ensures Sum(r.ledger, k.device, k.time, k.time + HOUR) == Sum(w.ledger, k.device, k.time, k.time + HOUR)
    {
      HourBelow(k.time, RawCutoff(w.clock));
      SumFrame(w.ledger, r.ledger, k.device, k.time, k.time + HOUR);
    }
    forall k | k in r.store.daily
      ensures Sum(r.ledger, k.device, k.time, k.time + DAY) == Sum(w.ledger, k.device, k.time, k.time + DAY)
    {
      DayBelow(k.time, HourlyCutoff(w.clock));
      SumFrame(w.ledger, r.ledger, k.device, k.time, k.time + DAY);
    }
    InsertKeepsRawWhole(w, device, time, b);
  }

  lemma InsertKeepsRawWhole(w: World, device: nat, time: int, b: Bytes)
    requires Inv(w) && time >= RawCutoff(w.clock)
    ensures RawHoursAreWhole(Step(w, Insert(device, time, b)))
  {
    hide Sum, FloorToHour, FloorToDay, IsHour, IsDay, RawCutoff, HourlyCutoff;
    var r := Step(w, Insert(device, time, b));
    FreshHourIsWhole(w, device, time);
    FloorHourFacts(time);
    assert At(w.store.raw, device, time) == At(w.ledger, device, time);
    forall k | k in r.store.raw
      ensures k in r.ledger && RawIsLedger(r, k.device, FloorToHour(k.time))
    {
      var hour := FloorToHour(k.time);
      assert RawIsLedger(w, k.device, hour);
      forall t | hour <= t < hour + HOUR
        ensures At(r.store.raw, k.device, t) == At(r.ledger, k.device, t)
      {
        AtAdd(w.store.raw, device, time, b, k.device, t);
        AtAdd(w.ledger, device, time, b, k.device, t);
      }
    }
  }

  /** At or above the raw cutoff the raw rows are the ledger. */
  lemma FreshHourIsWhole(w: World, device: nat, time: int)
    requires Inv(w) && time >= RawCutoff(w.clock)
    ensures RawIsLedger(w, device, FloorToHour(time))
  {
    hide Sum, FloorToHour, FloorToDay, IsHour, IsDay, RawCutoff, HourlyCutoff;
    var hour := FloorToHour(time);
    CutoffsAreAligned(w.clock);
    FloorHourFacts(time);
    if hour < RawCutoff(w.clock) {
      HourBelow(hour, RawCutoff(w.clock));
      assert false;
    }
    forall t | hour <= t < hour + HOUR
      ensures At(w.store.raw, device, t) == At(w.ledger, device, t)
    {
      if Key(device, t) in w.store.raw {
        HourOf(t, hour);
      }
    }
  }

  /** The raw rows of a selected group are the ledger's hour, so the group's sum is exact. */
  lemma GroupIsExact(w: World, now: int, g: Key)
    requires RawHoursAreWhole(w)
    requires g in HourGroups(w.store.raw, HourlyCutoff(now), RawCutoff(now))
    ensures IsHour(g.time) && HourlyCutoff(now) <= g.time < RawCutoff(now)
    ensures Sum(w.store.raw, g.device, Max(g.time, HourlyCutoff(now)), Min(g.time + HOUR, RawCutoff(now)))
            == Sum(w.ledger, g.device, g.time, g.time + HOUR)
  {
    hide Sum, FloorToHour, FloorToDay, IsHour, IsDay, RawCutoff, HourlyCutoff;
    var k :| k in w.store.raw && HourlyCutoff(now) <= k.time < RawCutoff(now)
             && g == Key(k.device, FloorToHour(k.time));
    FloorHourFacts(k.time);
    CutoffsAreAligned(now);
    if g.time < HourlyCutoff(now) {
      HourBelow(g.time, HourlyCutoff(now));
      assert false;
    }
    HourBelow(g.time, RawCutoff(now));
    SumFrame(w.store.raw, w.ledger, g.device, g.time, g.time + HOUR);
  }

  /** A run may start now: the clock did not go back and no unrolled raw row lies below the new hourly cutoff. */
  predicate MayRun(w: World, now: int) {
    now >= w.clock && HourlyCutoff(now) <= RawCutoff(w.clock)
  }

  function Rolled(w: World, now: int): World {
    World(RollHourly(w.store, HourlyCutoff(now), RawCutoff(now)), w.ledger, now)
  }

  /** A row of the rolled hourly table is its group's sum or an older row. */
  lemma RolledRow(st: Store, hc: int, rc: int, k: Key)
    requires k in RollHourly(st, hc, rc).hourly
    ensures k !in HourGroups(st.raw, hc, rc) ==>
              k in st.hourly && RollHourly(st, hc, rc).hourly[k] == st.hourly[k]
    ensures k in HourGroups(st.raw, hc, rc) ==>
              RollHourly(st, hc, rc).hourly[k] == Sum(st.raw, k.device, Max(k.time, hc), Min(k.time + HOUR, rc))
  {
    hide Sum, HourGroups, Max, Min;
  }

  lemma RolledRowIsExact(w: World, now: int, k: Key)
    requires Inv(w) && MayRun(w, now) && k in Rolled(w, now).store.hourly
    ensures IsHour(k.time) && k.time < RawCutoff(now)
    ensures Rolled(w, now).store.hourly[k] == Sum(w.ledger, k.device, k.time, k.time + HOUR)
  {
    hide Sum, FloorToHour, FloorToDay, IsHour, IsDay, RawCutoff, HourlyCutoff;
    hide RollHourly, HourGroups, Max, Min;
    CutoffsAreMonotone(w.clock, now);
    RolledRow(w.store, HourlyCutoff(now), RawCutoff(now), k);
    if k in HourGroups(w.store.raw, HourlyCutoff(now), RawCutoff(now)) {
      GroupIsExact(w, now, k);
    }
  }

  /** Raw rows that a statement keeps stay whole when their hours are kept whole. */
  lemma SameRawStaysWhole(w: World, r: World)
    requires RawHoursAreWhole(w) && r.store.raw == w.store.raw && r.ledger == w.ledger
    requires RawCutoff(w.clock) <= RawCutoff(r.clock)
    ensures RawHoursAreWhole(r)
  {
    hide Sum, FloorToHour, FloorToDay, IsHour, IsDay, RawCutoff, HourlyCutoff;
    forall k | k in r.store.raw
      ensures RawIsLedger(r, k.device, FloorToHour(k.time))
    {
      assert RawIsLedger(w, k.device, FloorToHour(k.time));
    }
  }

  lemma RollHourlyKeepsInv(w: World, now: int)
    requires Inv(w) && MayRun(w, now)
    ensures Inv(Rolled(w, now))
  {
    hide Sum, FloorToHour, FloorToDay, IsHour, IsDay, RawCutoff, HourlyCutoff;
    var r := Rolled(w, now);
    CutoffsAreMonotone(w.clock, now);
    assert HourlyRowsAreExact(r) by {
      forall k | k in r.store.hourly
        ensures IsHour(k.time) && k.time < RawCutoff(now)
        ensures r.store.hourly[k] == Sum(w.ledger, k.device, k.time, k.time + HOUR)
      {
        RolledRowIsExact(w, now, k);
      }
    }
    assert DailyRowsAreExact(r);
    SameRawStaysWhole(w, r);
    forall k | k in w.ledger && k.time < RawCutoff(now)
      ensures IsRolled(r, k)
    {
      NewlyOrAlreadyRolled(w, now, k);
    }
    forall k, h | k in w.ledger && k.time < RawCutoff(now) && h in r.store.hourly && h.device == k.device
                  && FloorToDay(h.time) == FloorToDay(k.time)
      ensures Key(k.device, FloorToHour(k.time)) in r.store.hourly
    {
      DaysStayTogether(w, now, k, h);
    }
  }

  lemma NewlyOrAlreadyRolled(w: World, now: int, k: Key)
    requires Inv(w) && MayRun(w, now)
    requires k in w.ledger && k.time < RawCutoff(now)
    ensures IsRolled(Rolled(w, now), k)
    ensures k.time >= HourlyCutoff(now) ==> Key(k.device, FloorToHour(k.time)) in Rolled(w, now).store.hourly
  {
    hide Sum, FloorToHour, FloorToDay, IsHour, IsDay, RawCutoff, HourlyCutoff;
    if k.time >= RawCutoff(w.clock) {
      assert k in w.store.raw;
      assert Key(k.device, FloorToHour(k.time)) in HourGroups(w.store.raw, HourlyCutoff(now), RawCutoff(now));
    } else {
      assert IsRolled(w, k);
      if k.time >= HourlyCutoff(now) {
        NotYetDaily(w, now, k);
      }
    }
  }

  /** A day at or above the new hourly cutoff has no daily row yet. */
  lemma NotYetDaily(w: World, now: int, k: Key)
    requires DailyRowsAreExact(w) && now >= w.clock && k.time >= HourlyCutoff(now)
    ensures Key(k.device, FloorToDay(k.time)) !in w.store.daily
  {
    hide Sum, FloorToHour, FloorToDay, IsHour, IsDay, RawCutoff, HourlyCutoff;
    var day := FloorToDay(k.time);
    FloorDayFacts(k.time);
    CutoffsAreMonotone(w.clock, now);
    CutoffsAreAligned(w.clock);
    if Key(k.device, day) in w.store.daily {
      DayBelow(day, HourlyCutoff(w.clock));
    }
  }

  lemma DaysStayTogether(w: World, now: int, k: Key, h: Key)
    requires Inv(w) && MayRun(w, now)
    requires k in w.ledger && k.time < RawCutoff(now)
    requires h in Rolled(w, now).store.hourly && h.device == k.device && FloorToDay(h.time) == FloorToDay(k.time)
    ensures Key(k.device, FloorToHour(k.time)) in Rolled(w, now).store.hourly
  {
    hide Sum, FloorToHour, FloorToDay, IsHour, IsDay, RawCutoff, HourlyCutoff;
    if k.time >= HourlyCutoff(now) {
      NewlyOrAlreadyRolled(w, now, k);
    } else {
      if h !in w.store.hourly {
        GroupIsExact(w, now, h);
        FloorDayFacts(h.time);
        FloorDayFacts(k.time);
        CutoffsAreAligned(now);
        DayBelow(FloorToDay(k.time), HourlyCutoff(now));
        assert false;
      }
    }
  }

  // ----- Daily rollup and the two deletes -----

  /** A world whose last run has written every daily row it owes. */
  ghost predicate DailyRowsAreWritten(w: World) {
    forall k | k in w.store.hourly && k.time < HourlyCutoff(w.clock) ::
      Key(k.device, FloorToDay(k.time)) in w.store.daily
  }

  /** The hourly rows of n hours of a day that has hourly rows add up to the ledger. */
  lemma {:induction false} HoursOfDayAreExact(w: World, device: nat, day: int, n: nat, h: Key)
    requires HourlyRowsAreExact(w) && OldEntriesAreRolled(w)
    requires IsDay(day) && n <= 24 && day + DAY <= RawCutoff(w.clock)
    requires h in w.store.hourly && h.device == device && FloorToDay(h.time) == day
    ensures Sum(w.store.hourly, device, day, day + n * HOUR) == Sum(w.ledger, device, day, day + n * HOUR)
  {
    hide Sum, FloorToHour, FloorToDay, IsHour, IsDay, RawCutoff, HourlyCutoff;
    if n > 0 {
      var hour := day + (n - 1) * HOUR;
      HoursOfDayAreExact(w, device, day, n - 1, h);
      SumSplit(w.store.hourly, device, day, hour, hour + HOUR);
      SumSplit(w.ledger, device, day, hour, hour + HOUR);
      DaysAreHours(day, n - 1);
      HourRowIsExact(w, device, day, hour, h);
    } else {
      SumEmpty(w.store.hourly, device, day, day);
      SumEmpty(w.ledger, device, day, day);
    }
  }

  /** Hourly rows sit on the hour, so an hour's span of the hourly table is its row. */
  lemma HourSpanIsRow(w: World, device: nat, hour: int)
    requires HourlyRowsAreExact(w) && IsHour(hour)
    ensures Sum(w.store.hourly, device, hour, hour + HOUR) == At(w.store.hourly, device, hour)
  {
    hide Sum, FloorToHour, FloorToDay, IsHour, IsDay, RawCutoff, HourlyCutoff;
    forall t | hour + 1 <= t < hour + HOUR
      ensures At(w.store.hourly, device, t) == ZERO
    {
      if Key(device, t) in w.store.hourly {
        HourOf(t, hour);
        HourOf(t, t);
      }
    }
    SumZero(w.store.hourly, device, hour + 1, hour + HOUR);
    SumEmpty(w.store.hourly, device, hour, hour);
    PlusZero(At(w.store.hourly, device, hour));
    SumAround(w.store.hourly, device, hour, hour, hour + HOUR);
  }

  /** If the day has hourly rows, an hour without one has no bytes in the ledger. */
  lemma MissingHourIsEmpty(w: World, device: nat, day: int, hour: int, h: Key)
    requires OldEntriesAreRolled(w)
    requires IsDay(day) && IsHour(hour) && day <= hour && hour + HOUR <= day + DAY <= RawCutoff(w.clock)
    requires h in w.store.hourly && h.device == device && FloorToDay(h.time) == day
    requires Key(device, hour) !in w.store.hourly
    ensures Sum(w.ledger, device, hour, hour + HOUR) == ZERO
  {
    hide Sum, FloorToHour, FloorToDay, IsHour, IsDay, RawCutoff, HourlyCutoff;
    forall t | hour <= t < hour + HOUR
      ensures At(w.ledger, device, t) == ZERO
    {
      HourOf(t, hour);
      DayOf(t, day);
      assert Key(device, t) in w.ledger ==> Key(device, FloorToHour(t)) in w.store.hourly;
    }
    SumZero(w.ledger, device, hour, hour + HOUR);
  }

  lemma HourRowIsExact(w: World, device: nat, day: int, hour: int, h: Key)
    requires HourlyRowsAreExact(w) && OldEntriesAreRolled(w)
    requires IsDay(day) && IsHour(hour) && day <= hour && hour + HOUR <= day + DAY <= RawCutoff(w.clock)
    requires h in w.store.hourly && h.device == device && FloorToDay(h.time) == day
    ensures Sum(w.store.hourly, device, hour, hour + HOUR) == Sum(w.ledger, device, hour, hour + HOUR)
  {
    hide Sum, FloorToHour, FloorToDay, IsHour, IsDay, RawCutoff, HourlyCutoff;
    HourSpanIsRow(w, device, hour);
    if Key(device, hour) !in w.store.hourly {
      MissingHourIsEmpty(w, device, day, hour, h);
    }
  }

  lemma DayGroupIsExact(w: World, g: Key)
    requires Inv(w) && g in DayGroups(w.store.hourly, HourlyCutoff(w.clock))
    ensures IsDay(g.time) && g.time < HourlyCutoff(w.clock)
    ensures Sum(w.store.hourly, g.device, g.time, Min(g.time + DAY, HourlyCutoff(w.clock)))
            == Sum(w.ledger, g.device, g.time, g.time + DAY)
  {
    hide Sum, FloorToHour, FloorToDay, IsHour, IsDay, RawCutoff, HourlyCutoff;
    var hc := HourlyCutoff(w.clock);
    CutoffsAreAligned(w.clock);
    CutoffsAreOrdered(w.clock);
    var h :| h in w.store.hourly && h.time < hc && g == Key(h.device, FloorToDay(h.time));
    FloorDayFacts(h.time);
    DayBelow(g.time, hc);
    HoursOfDayAreExact(w, g.device, g.time, 24, h);
  }

  function DaysRolled(w: World): World {
    World(RollDaily(w.store, HourlyCutoff(w.clock)), w.ledger, w.clock)
  }

  lemma DailyRowIsExact(w: World, g: Key)
    requires Inv(w) && g in DaysRolled(w).store.daily
    ensures IsDay(g.time) && g.time < HourlyCutoff(w.clock)
    ensures DaysRolled(w).store.daily[g] == Sum(w.ledger, g.device, g.time, g.time + DAY)
  {
    hide Sum, FloorToHour, FloorToDay, IsHour, IsDay, RawCutoff, HourlyCutoff;
    if g in DayGroups(w.store.hourly, HourlyCutoff(w.clock)) {
      DayGroupIsExact(w, g);
    }
  }

  lemma RollDailyKeepsInv(w: World)
    requires Inv(w)
    ensures Inv(DaysRolled(w)) && DailyRowsAreWritten(DaysRolled(w))
  {
    hide Sum, FloorToHour, FloorToDay, IsHour, IsDay, RawCutoff, HourlyCutoff;
    var r := DaysRolled(w);
    assert DailyRowsAreExact(r) by {
      forall g | g in r.store.daily
        ensures IsDay(g.time) && g.time < HourlyCutoff(w.clock)
        ensures r.store.daily[g] == Sum(w.ledger, g.device, g.time, g.time + DAY)
      {
        DailyRowIsExact(w, g);
      }
    }
    SameRawStaysWhole(w, r);
    assert OldEntriesAreRolled(r) by {
      assert forall k | k in w.ledger && IsRolled(w, k) :: IsRolled(r, k);
    }
    assert DailyRowsAreWritten(r) by {
      assert forall k | k in r.store.hourly && k.time < HourlyCutoff(r.clock) ::
          Key(k.device, FloorToDay(k.time)) in DayGroups(w.store.hourly, HourlyCutoff(w.clock));
    }
  }

  lemma PruneRawKeepsInv(w: World)
    requires Inv(w)
    ensures Inv(World(PruneRaw(w.store, RawCutoff(w.clock)), w.ledger, w.clock))
  {
    hide Sum, FloorToHour, FloorToDay, IsHour, IsDay, RawCutoff, HourlyCutoff;
    var rc := RawCutoff(w.clock);
    var r := World(PruneRaw(w.store, rc), w.ledger, w.clock);
    CutoffsAreAligned(w.clock);
    forall k | k in r.store.raw
      ensures RawIsLedger(r, k.device, FloorToHour(k.time))
    {
      assert RawIsLedger(w, k.device, FloorToHour(k.time));
      FloorHourFacts(k.time);
      if FloorToHour(k.time) < rc {
        HourBelow(FloorToHour(k.time), rc);
        assert false;
      }
    }
    assert forall k | k in w.ledger && IsRolled(w, k) :: IsRolled(r, k);
  }

  lemma PruneHourlyKeepsInv(w: World)
    requires Inv(w) && DailyRowsAreWritten(w)
    ensures Inv(World(PruneHourly(w.store, HourlyCutoff(w.clock)), w.ledger, w.clock))
  {
    hide Sum, FloorToHour, FloorToDay, IsHour, IsDay, RawCutoff, HourlyCutoff;
    var hc := HourlyCutoff(w.clock);
    var r := World(PruneHourly(w.store, hc), w.ledger, w.clock);
    CutoffsAreAligned(w.clock);
    SameRawStaysWhole(w, r);
    forall k | k in w.ledger && k.time < RawCutoff(w.clock)
      ensures IsRolled(r, k)
    {
      assert IsRolled(w, k);
      HourAndDay(k.time);
    }
    forall k, h | k in w.ledger && k.time < RawCutoff(w.clock) && h in r.store.hourly
                  && h.device == k.device && FloorToDay(h.time) == FloorToDay(k.time)
      ensures Key(k.device, FloorToHour(k.time)) in r.store.hourly
    {
      assert Key(k.device, FloorToHour(k.time)) in w.store.hourly;
      HourAndDay(k.time);
      SameSideOfDay(h.time, FloorToHour(k.time), hc);
    }
  }

  lemma HourAndDay(time: int)
    ensures FloorToDay(FloorToHour(time)) == FloorToDay(time)
  {
    hide FloorToHour, FloorToDay, IsHour, IsDay;
    var hour, day := FloorToHour(time), FloorToDay(time);
    FloorHourFacts(time);
    FloorDayFacts(time);
    DaysAreHours(day, 0);
    if hour < day {
      HourBelow(hour, day);
      assert false;
    }
    DayOf(hour, day);
  }

  /** An hour on the same day as an hour at or above a day boundary is at or above it too. */
  lemma SameSideOfDay(above: int, time: int, cutoff: int)
    requires IsDay(cutoff) && cutoff <= above && FloorToDay(above) == FloorToDay(time)
    ensures cutoff <= time
  {
  }

  // ----- Whole runs -----

  lemma RunKeepsInv(w: World, now: int, n: nat)
    requires Inv(w) && MayRun(w, now) && n > 0
    ensures Inv(World(Run(w.store, now, n), w.ledger, now))
  {
    hide Sum, FloorToHour, FloorToDay, IsHour, IsDay, RawCutoff, HourlyCutoff;
    RollHourlyKeepsInv(w, now);
    var w1 := Rolled(w, now);
    RollDailyKeepsInv(w1);
    var w2 := DaysRolled(w1);
    PruneRawKeepsInv(w2);
    PruneHourlyKeepsInv(World(PruneRaw(w2.store, RawCutoff(now)), w.ledger, now));
  }

  lemma {:induction false} RunsKeepInv(w: World, events: seq<Event>)
    requires Inv(w) && IsLegalRun(w, events)
    ensures Inv(After(w, events))
    decreases |events|
  {
    hide Sum, Inv, Run, RawCutoff, HourlyCutoff;
    if events != [] {
      match events[0] {
        case Insert(device, time, b) => InsertKeepsInv(w, device, time, b);
        case Retain(now, n) => if n > 0 { RunKeepsInv(w, now, n); }
      }
      RunsKeepInv(Step(w, events[0]), events[1..]);
    }
  }

  // ----- Every byte is counted once -----

  lemma HourValueIsLedger(w: World, device: nat, hour: int)
    requires Inv(w) && IsHour(hour) && Key(device, FloorToDay(hour)) !in w.store.daily
    ensures HourValue(w.store, device, hour) == Sum(w.ledger, device, hour, hour + HOUR)
  {
    hide Sum, FloorToHour, FloorToDay, IsHour, IsDay, RawCutoff, HourlyCutoff;
    if Key(device, hour) !in w.store.hourly {
      forall t | hour <= t < hour + HOUR
        ensures At(w.store.raw, device, t) == At(w.ledger, device, t)
      {
        HourOf(t, hour);
        HourAndDay(t);
        var k := Key(device, t);
        assert k in w.ledger ==> k in w.store.raw || IsRolled(w, k);
        assert k in w.store.raw ==> RawIsLedger(w, device, FloorToHour(t));
      }
      SumFrame(w.store.raw, w.ledger, device, hour, hour + HOUR);
    }
  }

  lemma {:induction false} HoursTotalIsLedger(w: World, device: nat, day: int, n: nat)
    requires Inv(w) && IsDay(day) && Key(device, day) !in w.store.daily && n <= 24
    ensures HoursTotal(w.store, device, day, n) == Sum(w.ledger, device, day, day + n * HOUR)
  {
    hide Sum, FloorToHour, FloorToDay, IsHour, IsDay, RawCutoff, HourlyCutoff, Inv, HourValue;
    if n > 0 {
      var hour := day + (n - 1) * HOUR;
      HoursTotalIsLedger(w, device, day, n - 1);
      SumSplit(w.ledger, device, day, hour, hour + HOUR);
      DaysAreHours(day, n - 1);
      DayOf(hour, day);
      HourValueIsLedger(w, device, hour);
    } else {
      SumEmpty(w.ledger, device, day, day);
    }
  }

  lemma DayValueIsLedger(w: World, device: nat, day: int)
    requires Inv(w) && IsDay(day)
    ensures DayValue(w.store, device, day) == Sum(w.ledger, device, day, day + DAY)
  {
    hide Sum, FloorToHour, FloorToDay, IsHour, IsDay, RawCutoff, HourlyCutoff, HoursTotal;
    if Key(device, day) !in w.store.daily {
      HoursTotalIsLedger(w, device, day, 24);
    }
  }

  /**
   After any legal run of inserts and retention runs, each possibly crashing
   between any two statements, every device's bytes of every day, counted once
   across the three tables, are the bytes inserted for that day.
   */
  lemma EveryByteIsCountedOnce(clock: int, events: seq<Event>, device: nat, day: int)
    requires IsDay(day)
    requires IsLegalRun(World(Store(map[], map[], map[]), map[], clock), events)
    ensures var w := After(World(Store(map[], map[], map[]), map[], clock), events);
            DayValue(w.store, device, day) == Sum(w.ledger, device, day, day + DAY)
  {
    var start := World(Store(map[], map[], map[]), map[], clock);
    RunsKeepInv(start, events);
    DayValueIsLedger(After(start, events), device, day);
  }
}
