/** What a history query misses: the returned rows and the uncovered rest are the ledger. */
module HistoryCoverage {
  import opened Common
  import opened Ledger
  import opened TrafficRetention
  import opened RetentionConservation
  import opened TrafficHistory

  predicate Covers(row: HistoryRow, time: int) {
    row.time <= time < row.time + row.length
  }

  predicate IsCovered(rows: seq<HistoryRow>, time: int) {
    exists row | row in rows :: Covers(row, time)
  }

  /** The ledger entries that no row accounts for. */
  function Uncovered(ledger: Table, rows: seq<HistoryRow>): Table {
    map k | k in ledger && !IsCovered(rows, k.time) :: ledger[k]
  }

  lemma AtUncovered(ledger: Table, rows: seq<HistoryRow>, device: nat, time: int)
    ensures At(Uncovered(ledger, rows), device, time) ==
            if IsCovered(rows, time) then ZERO else At(ledger, device, time)
  {
    hide IsCovered;
  }

  lemma CoveredOneMore(front: seq<HistoryRow>, last: HistoryRow, time: int)
    ensures IsCovered(front + [last], time) <==> IsCovered(front, time) || Covers(last, time)
  {
    hide Covers;
    var rows := front + [last];
    assert rows[|front|] == last;
    if row :| row in front && Covers(row, time) {
      assert row in rows;
    }
  }

  /** What a block covers lies within its bounds. */
  lemma CoveredIsWithin(ledger: Table, device: nat, rows: seq<HistoryRow>, lo: int, hi: int, time: int)
    requires IsBlock(ledger, device, rows, lo, hi) && IsCovered(rows, time)
    ensures lo <= time < hi
  {
    hide Sum;
  }

  lemma FrontIsBlock(ledger: Table, device: nat, front: seq<HistoryRow>, last: HistoryRow, lo: int, hi: int)
    requires IsBlock(ledger, device, front + [last], lo, hi)
    ensures IsBlock(ledger, device, front, lo, last.time) && IsExact(ledger, device, last, lo, hi)
  {
    hide Sum;
    var rows := front + [last];
    assert rows[|front|] == last;
    forall i | 0 <= i < |front|
      ensures IsExact(ledger, device, front[i], lo, last.time)
    {
      assert rows[i] == front[i] && rows[i] in rows;
    }
    assert forall i, j | 0 <= i < j < |front| :: rows[i] == front[i] && rows[j] == front[j];
  }

  /** The uncovered rest before, within and after the last row. */
  lemma RestAroundLast(ledger: Table, device: nat, front: seq<HistoryRow>, last: HistoryRow, lo: int, hi: int)
    requires lo <= hi && IsBlock(ledger, device, front + [last], lo, hi)
    ensures var rest, end := Uncovered(ledger, front + [last]), last.time + last.length;
            && Sum(rest, device, lo, last.time) == Sum(Uncovered(ledger, front), device, lo, last.time)
            && Sum(rest, device, last.time, end) == ZERO
            && Sum(rest, device, end, hi) == Sum(ledger, device, end, hi)
  {
    hide Sum, IsCovered, Uncovered, IsBlock;
    FrontIsBlock(ledger, device, front, last, lo, hi);
    var rest, end := Uncovered(ledger, front + [last]), last.time + last.length;
    forall time
      ensures At(rest, device, time) ==
              if IsCovered(front, time) || Covers(last, time) then ZERO else At(ledger, device, time)
      ensures At(Uncovered(ledger, front), device, time) ==
              if IsCovered(front, time) then ZERO else At(ledger, device, time)
      ensures IsCovered(front, time) ==> time < last.time
    {
      AtUncovered(ledger, front + [last], device, time);
      AtUncovered(ledger, front, device, time);
      CoveredOneMore(front, last, time);
      if IsCovered(front, time) {
        CoveredIsWithin(ledger, device, front, lo, last.time, time);
      }
    }
    SumFrame(rest, Uncovered(ledger, front), device, lo, last.time);
    SumZero(rest, device, last.time, end);
    SumFrame(rest, ledger, device, end, hi);
  }

  /** Disjoint exact rows and what they leave uncovered add up to the ledger. */
  lemma {:induction false} RowsAndRest(ledger: Table, device: nat, rows: seq<HistoryRow>, lo: int, hi: int)
    requires lo <= hi && IsBlock(ledger, device, rows, lo, hi)
    ensures Plus(Total(rows), Sum(Uncovered(ledger, rows), device, lo, hi)) == Sum(ledger, device, lo, hi)
  {
    hide Sum, IsBlock, Uncovered, Plus;
    if rows == [] {
      NothingCovered(ledger);
      PlusZero(Sum(ledger, device, lo, hi));
    } else {
      var front, last := rows[..|rows| - 1], rows[|rows| - 1];
      assert rows == front + [last];
      FrontIsBlock(ledger, device, front, last, lo, hi);
      RowsAndRest(ledger, device, front, lo, last.time);
      RestAroundLast(ledger, device, front, last, lo, hi);
      SplitAtRow(ledger, device, last, lo, hi);
      SplitAtRow(Uncovered(ledger, rows), device, last, lo, hi);
      AddUp(Total(front), Sum(Uncovered(ledger, front), device, lo, last.time), last.bytes,
            Sum(ledger, device, last.time + last.length, hi));
    }
  }

  lemma AddUp(front: Bytes, rest: Bytes, last: Bytes, after: Bytes)
    ensures Plus(Plus(front, last), Plus(Plus(rest, ZERO), after)) == Plus(Plus(Plus(front, rest), last), after)
  {
  }

  lemma NothingCovered(ledger: Table)
    ensures Uncovered(ledger, []) == ledger
  {
  }

  lemma SplitAtRow(t: Table, device: nat, row: HistoryRow, lo: int, hi: int)
    requires lo <= row.time && row.time + row.length <= hi
    ensures Sum(t, device, lo, hi) == Plus(Plus(Sum(t, device, lo, row.time),
                                                Sum(t, device, row.time, row.time + row.length)),
                                           Sum(t, device, row.time + row.length, hi))
  {
    hide Sum;
    SumSplit(t, device, lo, row.time + row.length, hi);
    SumSplit(t, device, lo, row.time, row.time + row.length);
  }

  // ----- Which entries a query accounts for -----

  /**
   An entry of the window is accounted for when it is in the raw part, when retention has
   rolled its hour and that hour begins in the hourly part, or when it has a daily row that
   begins in the window.
   */
  predicate IsAnswered(w: World, device: nat, start: int, end: int, time: int) {
    || end - 48 * HOUR <= time
    || (time < RawCutoff(w.clock) && Max(start, end - 30 * DAY) <= FloorToHour(time))
    || (start <= FloorToDay(time) && Key(device, FloorToDay(time)) in w.store.daily)
  }

  lemma RowsCover(t: Table, device: nat, lo: int, hi: int, length: nat, time: int)
    ensures IsCovered(Rows(t, device, lo, hi, length), time) <==>
              exists at | lo <= at < hi && Key(device, at) in t :: at <= time < at + length
  {
    RowsAreTheTable(t, device, lo, hi, length);
    var rows := Rows(t, device, lo, hi, length);
    hide Rows;
    if at :| lo <= at < hi && Key(device, at) in t && at <= time < at + length {
      assert HistoryRow(at, length, t[Key(device, at)]) in rows;
      assert Covers(HistoryRow(at, length, t[Key(device, at)]), time);
    }
  }

  lemma CoveredByEither(a: seq<HistoryRow>, b: seq<HistoryRow>, time: int)
    ensures IsCovered(a + b, time) <==> IsCovered(a, time) || IsCovered(b, time)
  {
    hide Covers;
    assert forall row :: row in a + b <==> row in a || row in b;
  }

  /** An instant is covered by hourly rows exactly if its own hour has a row in the range. */
  lemma HourlyCover(w: World, device: nat, lo: int, hi: int, time: int)
    requires HourlyRowsAreExact(w) && time < hi
    ensures IsCovered(Rows(w.store.hourly, device, lo, hi, HOUR), time) <==>
              lo <= FloorToHour(time) && Key(device, FloorToHour(time)) in w.store.hourly
  {
    hide Sum, FloorToHour, IsHour, RawCutoff, Rows, IsCovered;
    RowsCover(w.store.hourly, device, lo, hi, HOUR, time);
    FloorHourFacts(time);
    forall at | Key(device, at) in w.store.hourly && at <= time < at + HOUR
      ensures at == FloorToHour(time)
    {
      HourOf(time, at);
    }
  }

  lemma DailyCover(w: World, device: nat, lo: int, hi: int, time: int)
    requires DailyRowsAreExact(w)
    ensures IsCovered(Rows(w.store.daily, device, lo, hi, DAY), time) <==>
              lo <= FloorToDay(time) < hi && Key(device, FloorToDay(time)) in w.store.daily
  {
    hide Sum, FloorToDay, IsDay, HourlyCutoff, Rows, IsCovered;
    RowsCover(w.store.daily, device, lo, hi, DAY, time);
    FloorDayFacts(time);
    forall at | Key(device, at) in w.store.daily && at <= time < at + DAY
      ensures at == FloorToDay(time)
    {
      DayOf(time, at);
    }
  }

  lemma RawCover(w: World, device: nat, lo: int, hi: int, time: int)
    requires time < hi
    ensures IsCovered(Rows(w.store.raw, device, lo, hi, 1), time) <==> lo <= time && Key(device, time) in w.store.raw
  {
    hide Rows, IsCovered;
    RowsCover(w.store.raw, device, lo, hi, 1, time);
  }

  /** At or above the daily part every entry below the raw cutoff has its hourly row. */
  lemma HourlyRowExists(w: World, device: nat, time: int, from: int)
    requires Inv(w) && Key(device, time) in w.ledger && HourlyCutoff(w.clock) <= from <= FloorToHour(time)
    ensures time < RawCutoff(w.clock) <==> Key(device, FloorToHour(time)) in w.store.hourly
  {
    hide Sum, FloorToHour, FloorToDay, IsHour, IsDay, RawCutoff, HourlyCutoff;
    FloorHourFacts(time);
    FloorDayFacts(time);
    CutoffsAreAligned(w.clock);
    if Key(device, FloorToHour(time)) in w.store.hourly {
      HourBelow(FloorToHour(time), RawCutoff(w.clock));
    }
    if Key(device, FloorToDay(time)) in w.store.daily {
      DayBelow(FloorToDay(time), HourlyCutoff(w.clock));
      assert false;
    }
    assert time < RawCutoff(w.clock) ==> IsRolled(w, Key(device, time));
  }

  lemma CoveredIffAnswered(w: World, device: nat, start: int, end: int, time: int)
    requires Inv(w) && w.clock <= end && start <= time < end && Key(device, time) in w.ledger
    ensures IsCovered(FindHistory(w.store, device, start, end), time) <==> IsAnswered(w, device, start, end, time)
  {
    hide Sum, FloorToHour, FloorToDay, IsHour, IsDay, RawCutoff, HourlyCutoff, Rows, IsCovered;
    var rawCutoff, dailyCutoff := end - 48 * HOUR, end - 30 * DAY;
    var rawFrom, hourlyFrom := Max(start, rawCutoff), Max(start, dailyCutoff);
    var raw := Rows(w.store.raw, device, rawFrom, end, 1);
    var hourly := Rows(w.store.hourly, device, hourlyFrom, rawCutoff, HOUR);
    var daily := Rows(w.store.daily, device, start, dailyCutoff, DAY);
    CutoffsBeforeWindow(w.clock, end);
    FloorHourFacts(time);
    RawCover(w, device, rawFrom, end, time);
    assert rawCutoff <= time ==> Key(device, time) in w.store.raw;
    if time < rawCutoff {
      HourlyCover(w, device, hourlyFrom, rawCutoff, time);
      if hourlyFrom <= FloorToHour(time) {
        HourlyRowExists(w, device, time, hourlyFrom);
      }
      DailyCover(w, device, start, dailyCutoff, time);
      CoveredByEither(hourly, raw, time);
      CoveredByEither(daily, hourly, time);
      CoveredByEither(daily + hourly, raw, time);
      FloorDayFacts(time);
    } else {
      CoveredByEither(hourly, raw, time);
      CoveredByEither(daily + hourly, raw, time);
    }
  }

  /** The bytes of the window that a query does not account for. */
  function Missed(w: World, device: nat, start: int, end: int): Table {
    map k | k in w.ledger && !IsAnswered(w, device, start, end, k.time) :: w.ledger[k]
  }

  /** What a query returns and what it misses are together exactly the bytes of the window. */
  lemma HistoryAndMissed(w: World, device: nat, start: int, end: int)
    requires Inv(w) && w.clock <= end && start <= end
    ensures Plus(Total(FindHistory(w.store, device, start, end)),
                 Sum(Missed(w, device, start, end), device, start, end)) == Sum(w.ledger, device, start, end)
  {
    hide Sum, Inv, FindHistory, IsAnswered, IsCovered, IsBlock;
    var rows := FindHistory(w.store, device, start, end);
    HistoryIsBlock(w, device, start, end);
    RowsAndRest(w.ledger, device, rows, start, end);
    forall time | start <= time < end
      ensures At(Missed(w, device, start, end), device, time) == At(Uncovered(w.ledger, rows), device, time)
    {
      if Key(device, time) in w.ledger {
        CoveredIffAnswered(w, device, start, end, time);
      }
    }
    SumFrame(Missed(w, device, start, end), Uncovered(w.ledger, rows), device, start, end);
  }

  /** A sum of nothing but zeros, and no other, is zero. */
  lemma SumIsZeroIff(t: Table, device: nat, lo: int, hi: int)
    ensures Sum(t, device, lo, hi) == ZERO <==> forall time | lo <= time < hi :: At(t, device, time) == ZERO
  {
    hide Sum, At, Plus;
    if Sum(t, device, lo, hi) == ZERO {
      forall time | lo <= time < hi
        ensures At(t, device, time) == ZERO
      {
        SumAround(t, device, lo, time, hi);
        PartsOfZero(Sum(t, device, lo, time), At(t, device, time), Sum(t, device, time + 1, hi));
      }
    } else if forall time | lo <= time < hi :: At(t, device, time) == ZERO {
      SumZero(t, device, lo, hi);
      assert false;
    }
  }

  lemma PartsOfZero(a: Bytes, b: Bytes, c: Bytes)
    ensures Plus(Plus(a, b), c) == ZERO ==> b == ZERO
  {
  }

  lemma PlusIsSameIffZero(a: Bytes, b: Bytes)
    ensures Plus(a, b) == a <==> b == ZERO
  {
  }

  lemma AtMissed(w: World, device: nat, start: int, end: int, time: int)
    ensures At(Missed(w, device, start, end), device, time) ==
            if IsAnswered(w, device, start, end, time) then ZERO else At(w.ledger, device, time)
  {
    hide IsAnswered;
  }

  /** A query returns all bytes of its window if and only if every entry with bytes is answered. */
  lemma HistoryIsCompleteIff(w: World, device: nat, start: int, end: int)
    requires Inv(w) && w.clock <= end && start <= end
    ensures Total(FindHistory(w.store, device, start, end)) == Sum(w.ledger, device, start, end) <==>
            forall time | start <= time < end && At(w.ledger, device, time) != ZERO ::
              IsAnswered(w, device, start, end, time)
  {
    hide Sum, Inv, FindHistory, IsAnswered, At, Missed, Plus, Total;
    var missed := Missed(w, device, start, end);
    HistoryAndMissed(w, device, start, end);
    PlusIsSameIffZero(Total(FindHistory(w.store, device, start, end)), Sum(missed, device, start, end));
    SumIsZeroIff(missed, device, start, end);
    forall time
      ensures At(missed, device, time) ==
              if IsAnswered(w, device, start, end, time) then ZERO else At(w.ledger, device, time)
    {
      AtMissed(w, device, start, end, time);
    }
  }

  /** Up to 48 hours nothing is ever missed. */
  lemma ShortHistoryIsComplete(w: World, device: nat, start: int, end: int)
    requires Inv(w) && w.clock <= end && start <= end && end - start <= 48 * HOUR
    ensures Total(FindHistory(w.store, device, start, end)) == Sum(w.ledger, device, start, end)
  {
    hide Sum, Inv, FindHistory, FloorToHour, FloorToDay, RawCutoff;
    HistoryIsCompleteIff(w, device, start, end);
  }

  /** A run that completes its second statement, late or not, has written the daily rows; inserts leave it so. */
  lemma RunWritesDailyRows(w: World, now: int, n: nat)
    requires n >= 2
    ensures DailyRowsAreWritten(World(Run(w.store, now, n), w.ledger, now))
  {
    hide Sum, FloorToHour, FloorToDay, RawCutoff, HourlyCutoff, HourGroups;
    var rolled := RollHourly(w.store, HourlyCutoff(now), RawCutoff(now));
    assert forall k | k in rolled.hourly && k.time < HourlyCutoff(now) ::
        Key(k.device, FloorToDay(k.time)) in DayGroups(rolled.hourly, HourlyCutoff(now));
  }

  /** Once the daily rows are written, the clock alone tells which entries are answered. */
  lemma AnsweredByTheClock(w: World, device: nat, start: int, end: int, time: int)
    requires Inv(w) && DailyRowsAreWritten(w) && Key(device, time) in w.ledger
    ensures IsAnswered(w, device, start, end, time) <==>
              || end - 48 * HOUR <= time
              || (time < RawCutoff(w.clock) && Max(start, end - 30 * DAY) <= FloorToHour(time))
              || (time < HourlyCutoff(w.clock) && start <= FloorToDay(time))
  {
    hide Sum, FloorToHour, FloorToDay, IsHour, IsDay, RawCutoff, HourlyCutoff, Max;
    DailyRowIffOld(w, device, time);
  }

  lemma DailyRowIffOld(w: World, device: nat, time: int)
    requires Inv(w) && DailyRowsAreWritten(w) && Key(device, time) in w.ledger
    ensures Key(device, FloorToDay(time)) in w.store.daily <==> time < HourlyCutoff(w.clock)
  {
    hide Sum, FloorToHour, FloorToDay, IsHour, IsDay, RawCutoff, HourlyCutoff;
    FloorDayFacts(time);
    FloorHourFacts(time);
    CutoffsAreAligned(w.clock);
    CutoffsAreOrdered(w.clock);
    if Key(device, FloorToDay(time)) in w.store.daily {
      DayBelow(FloorToDay(time), HourlyCutoff(w.clock));
    }
    if time < HourlyCutoff(w.clock) {
      assert IsRolled(w, Key(device, time));
      HourAndDay(time);
    }
  }

  /** Right after retention ran at midnight, a query of whole days misses nothing. */
  lemma MidnightHistoryIsComplete(w: World, device: nat, start: int, end: int)
    requires Inv(w) && DailyRowsAreWritten(w) && w.clock == end && start <= end && IsDay(start) && IsDay(end)
    ensures Total(FindHistory(w.store, device, start, end)) == Sum(w.ledger, device, start, end)
  {
    hide Sum, Inv, FindHistory, FloorToHour, FloorToDay, RawCutoff, HourlyCutoff, IsDay, IsHour, DailyRowsAreWritten;
    HistoryIsCompleteIff(w, device, start, end);
    forall time | start <= time < end && At(w.ledger, device, time) != ZERO
      ensures IsAnswered(w, device, start, end, time)
    {
      AnsweredByTheClock(w, device, start, end, time);
      MidnightCutoffs(end);
      if time >= HourlyCutoff(end) {
        HourNotBefore(time, Max(start, end - 30 * DAY));
      } else {
        DayNotBefore(time, start);
      }
    }
  }

  lemma MidnightCutoffs(end: int)
    requires IsDay(end)
    ensures RawCutoff(end) == end - 48 * HOUR && HourlyCutoff(end) == end - 30 * DAY
    ensures IsDay(end - 30 * DAY)
  {
  }

  lemma HourNotBefore(time: int, from: int)
    requires IsDay(from) && from <= time
    ensures from <= FloorToHour(time)
  {
  }

  lemma DayNotBefore(time: int, from: int)
    requires IsDay(from) && from <= time
    ensures from <= FloorToDay(time)
  {
  }
}
