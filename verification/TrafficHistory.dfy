/**
 The history query of one device: daily rows for the oldest part of the window,
 hourly rows next, raw rows for the last 48 hours.
 */
module TrafficHistory {
  import opened Common
  import opened Ledger
  import opened TrafficRetention
  import opened RetentionConservation

  /** A returned row and the length of the time span it accounts for. */
  datatype HistoryRow = HistoryRow(time: int, length: nat, bytes: Bytes)

  /** The rows of one table in [lo, hi), ascending. */
  function Rows(t: Table, device: nat, lo: int, hi: int, length: nat): seq<HistoryRow>
    decreases hi - lo
  {
    if hi <= lo then []
    else
      Rows(t, device, lo, hi - 1, length) +
      if Key(device, hi - 1) in t then [HistoryRow(hi - 1, length, t[Key(device, hi - 1)])] else []
  }

  function FindHistory(st: Store, device: nat, start: int, end: int): seq<HistoryRow> {
    var rawCutoff := end - 48 * HOUR;
    var dailyCutoff := end - 30 * DAY;
    var rawRows := Rows(st.raw, device, Max(start, rawCutoff), end, 1);
    if end - start <= 48 * HOUR then rawRows
    else
      var hourlyRows := Rows(st.hourly, device, Max(start, dailyCutoff), rawCutoff, HOUR);
      if end - start <= 30 * DAY then hourlyRows + rawRows
      else Rows(st.daily, device, start, dailyCutoff, DAY) + hourlyRows + rawRows
  }

  function Total(rows: seq<HistoryRow>): Bytes {
    if rows == [] then ZERO
    else Plus(Total(rows[..|rows| - 1]), rows[|rows| - 1].bytes)
  }

  /** Each row's span ends before the next row begins; in particular the rows are sorted by time. */
  predicate AreDisjoint(rows: seq<HistoryRow>) {
    forall i, j | 0 <= i < j < |rows| :: rows[i].time + rows[i].length <= rows[j].time
  }

  /** A row within [lo, hi) that accounts for exactly what the ledger holds in its span. */
  ghost predicate IsExact(ledger: Table, device: nat, row: HistoryRow, lo: int, hi: int) {
    && lo <= row.time && row.time + row.length <= hi
    && row.bytes == Sum(ledger, device, row.time, row.time + row.length)
  }

  lemma {:induction false} RowsAreTheTable(t: Table, device: nat, lo: int, hi: int, length: nat)
    ensures forall row :: row in Rows(t, device, lo, hi, length) <==>
              lo <= row.time < hi && Key(device, row.time) in t
              && row == HistoryRow(row.time, length, t[Key(device, row.time)])
    ensures forall i, j | 0 <= i < j < |Rows(t, device, lo, hi, length)| ::
              Rows(t, device, lo, hi, length)[i].time < Rows(t, device, lo, hi, length)[j].time
    decreases hi - lo
  {
    if lo < hi {
      RowsAreTheTable(t, device, lo, hi - 1, length);
      var front := Rows(t, device, lo, hi - 1, length);
      assert forall i | 0 <= i < |front| :: front[i] in front;
    }
  }

  /** Disjoint exact rows never add up to more than the ledger. */
  lemma {:induction false} DisjointRowsUndercount(ledger: Table, device: nat, rows: seq<HistoryRow>, lo: int, hi: int)
    requires lo <= hi && AreDisjoint(rows)
    requires forall row | row in rows :: IsExact(ledger, device, row, lo, hi)
    ensures AtMost(Total(rows), Sum(ledger, device, lo, hi))
  {
    hide Sum;
    if rows != [] {
      var front, last := rows[..|rows| - 1], rows[|rows| - 1];
      assert last in rows;
      forall i | 0 <= i < |front|
        ensures IsExact(ledger, device, front[i], lo, last.time)
      {
        assert rows[i] in rows;
      }
      DisjointRowsUndercount(ledger, device, front, lo, last.time);
      SpanFits(ledger, device, lo, last.time, last.time + last.length, hi);
    } else {
      AtLeastZero(Sum(ledger, device, lo, hi));
    }
  }

  lemma AtLeastZero(b: Bytes)
    ensures AtMost(ZERO, b)
  {
  }

  lemma SpanFits(ledger: Table, device: nat, lo: int, mid: int, end: int, hi: int)
    requires lo <= mid <= end <= hi
    ensures AtMost(Plus(Sum(ledger, device, lo, mid), Sum(ledger, device, mid, end)), Sum(ledger, device, lo, hi))
  {
    hide Sum;
    SumSplit(ledger, device, lo, mid, hi);
    SumSplit(ledger, device, mid, end, hi);
  }

  /** Two blocks of disjoint rows, the first ending where the second may begin. */
  lemma JoinDisjoint(a: seq<HistoryRow>, b: seq<HistoryRow>, border: int)
    requires AreDisjoint(a) && AreDisjoint(b)
    requires forall row | row in a :: row.time + row.length <= border
    requires forall row | row in b :: border <= row.time
    ensures AreDisjoint(a + b)
  {
    forall i, j | 0 <= i < j < |a + b|
      ensures (a + b)[i].time + (a + b)[i].length <= (a + b)[j].time
    {
      assert i < |a| ==> a[i] in a;
      assert j >= |a| ==> b[j - |a|] in b;
    }
  }

  /** A block of a history answer: disjoint rows, exact, within [lo, hi). */
  ghost predicate IsBlock(ledger: Table, device: nat, rows: seq<HistoryRow>, lo: int, hi: int) {
    AreDisjoint(rows) && forall row | row in rows :: IsExact(ledger, device, row, lo, hi)
  }

  lemma JoinBlocks(ledger: Table, device: nat, a: seq<HistoryRow>, b: seq<HistoryRow>, lo: int, border: int, hi: int)
    requires lo <= border <= hi
    requires IsBlock(ledger, device, a, lo, border) && IsBlock(ledger, device, b, border, hi)
    ensures IsBlock(ledger, device, a + b, lo, hi)
  {
    JoinDisjoint(a, b, border);
  }

  lemma RawBlock(w: World, device: nat, lo: int, hi: int)
    requires Inv(w)
    ensures IsBlock(w.ledger, device, Rows(w.store.raw, device, lo, hi, 1), lo, hi)
  {
    hide Sum, FloorToHour, FloorToDay, IsHour, IsDay, RawCutoff, HourlyCutoff;
    var rows := Rows(w.store.raw, device, lo, hi, 1);
    RowsAreTheTable(w.store.raw, device, lo, hi, 1);
    forall row | row in rows
      ensures IsExact(w.ledger, device, row, lo, hi)
    {
      assert RawIsLedger(w, device, FloorToHour(row.time));
      FloorHourFacts(row.time);
      assert At(w.store.raw, device, row.time) == At(w.ledger, device, row.time);
      SumOne(w.ledger, device, row.time);
    }
  }

  lemma HourlyBlock(w: World, device: nat, lo: int, hi: int)
    requires Inv(w) && RawCutoff(w.clock) <= hi
    ensures IsBlock(w.ledger, device, Rows(w.store.hourly, device, lo, hi, HOUR), lo, hi)
  {
    hide Sum, FloorToHour, FloorToDay, IsHour, IsDay, RawCutoff, HourlyCutoff;
    var rows := Rows(w.store.hourly, device, lo, hi, HOUR);
    RowsAreTheTable(w.store.hourly, device, lo, hi, HOUR);
    CutoffsAreAligned(w.clock);
    assert forall i | 0 <= i < |rows| :: rows[i] in rows;
    forall row | row in rows
      ensures IsExact(w.ledger, device, row, lo, hi)
    {
      HourBelow(row.time, RawCutoff(w.clock));
    }
    forall i, j | 0 <= i < j < |rows|
      ensures rows[i].time + rows[i].length <= rows[j].time
    {
      HourBelow(rows[i].time, rows[j].time);
    }
  }

  lemma DailyBlock(w: World, device: nat, lo: int, hi: int)
    requires Inv(w) && HourlyCutoff(w.clock) <= hi
    ensures IsBlock(w.ledger, device, Rows(w.store.daily, device, lo, hi, DAY), lo, hi)
  {
    hide Sum, FloorToHour, FloorToDay, IsHour, IsDay, RawCutoff, HourlyCutoff;
    var rows := Rows(w.store.daily, device, lo, hi, DAY);
    RowsAreTheTable(w.store.daily, device, lo, hi, DAY);
    CutoffsAreAligned(w.clock);
    assert forall i | 0 <= i < |rows| :: rows[i] in rows;
    forall row | row in rows
      ensures IsExact(w.ledger, device, row, lo, hi)
    {
      DayBelow(row.time, HourlyCutoff(w.clock));
    }
    forall i, j | 0 <= i < j < |rows|
      ensures rows[i].time + rows[i].length <= rows[j].time
    {
      DayBelow(rows[i].time, rows[j].time);
    }
  }

  lemma CutoffsBeforeWindow(clock: int, end: int)
    requires clock <= end
    ensures RawCutoff(clock) <= end - 48 * HOUR && HourlyCutoff(clock) <= end - 30 * DAY
  {
  }

  lemma HistoryIsBlock(w: World, device: nat, start: int, end: int)
    requires Inv(w) && w.clock <= end && start <= end
    ensures IsBlock(w.ledger, device, FindHistory(w.store, device, start, end), start, end)
  {
    hide Sum, Inv, Rows, RawCutoff, HourlyCutoff, IsBlock;
    var rawCutoff, dailyCutoff := end - 48 * HOUR, end - 30 * DAY;
    var rawFrom, hourlyFrom := Max(start, rawCutoff), Max(start, dailyCutoff);
    CutoffsBeforeWindow(w.clock, end);
    RawBlock(w, device, rawFrom, end);
    var rows := FindHistory(w.store, device, start, end);
    if end - start > 48 * HOUR {
      HourlyBlock(w, device, hourlyFrom, rawCutoff);
      JoinBlocks(w.ledger, device, Rows(w.store.hourly, device, hourlyFrom, rawCutoff, HOUR),
                 Rows(w.store.raw, device, rawFrom, end, 1), hourlyFrom, rawCutoff, end);
      if end - start > 30 * DAY {
        var older := Rows(w.store.daily, device, start, dailyCutoff, DAY);
        DailyBlock(w, device, start, dailyCutoff);
        JoinBlocks(w.ledger, device, older,
                   Rows(w.store.hourly, device, hourlyFrom, rawCutoff, HOUR) +
                   Rows(w.store.raw, device, rawFrom, end, 1),
                   start, dailyCutoff, end);
        assert rows == older + (Rows(w.store.hourly, device, hourlyFrom, rawCutoff, HOUR)
                                + Rows(w.store.raw, device, rawFrom, end, 1));
      }
    }
    assert IsBlock(w.ledger, device, rows, start, end);
  }

  /**
   In every store that retention runs no later than `end` can leave behind, the
   returned rows account for pairwise disjoint spans within [start, end), in time
   order, so their total never exceeds the bytes inserted in the window.
   */
  lemma HistoryNeverCountsTwice(w: World, device: nat, start: int, end: int)
    requires Inv(w) && w.clock <= end && start <= end
    ensures AreDisjoint(FindHistory(w.store, device, start, end))
    ensures AtMost(Total(FindHistory(w.store, device, start, end)), Sum(w.ledger, device, start, end))
  {
    hide Sum, Inv, FindHistory, IsBlock;
    HistoryIsBlock(w, device, start, end);
    BlockUndercounts(w.ledger, device, FindHistory(w.store, device, start, end), start, end);
  }

  lemma BlockUndercounts(ledger: Table, device: nat, rows: seq<HistoryRow>, lo: int, hi: int)
    requires lo <= hi && IsBlock(ledger, device, rows, lo, hi)
    ensures AreDisjoint(rows) && AtMost(Total(rows), Sum(ledger, device, lo, hi))
  {
    DisjointRowsUndercount(ledger, device, rows, lo, hi);
  }

  /** For spans up to 48 hours the answer is exactly the raw rows of the window, each once and in time order. */
  lemma ShortHistoryIsRaw(st: Store, device: nat, start: int, end: int)
    requires end - start <= 48 * HOUR
    ensures FindHistory(st, device, start, end) == Rows(st.raw, device, start, end, 1)
    ensures forall row :: row in FindHistory(st, device, start, end) <==>
              start <= row.time < end && Key(device, row.time) in st.raw
              && row == HistoryRow(row.time, 1, st.raw[Key(device, row.time)])
    ensures var rows := FindHistory(st, device, start, end);
            forall i, j | 0 <= i < j < |rows| :: rows[i].time < rows[j].time
  {
    hide Rows;
    RowsAreTheTable(st.raw, device, start, end, 1);
  }

  /** Over every legal run from empty tables: rows never overlap and history never counts a byte twice. */
  lemma HistoryIsSafeOnEveryRun(clock: int, events: seq<Event>, device: nat, start: int, end: int)
    requires IsLegalRun(World(Store(map[], map[], map[]), map[], clock), events) && start <= end
    ensures var w := After(World(Store(map[], map[], map[]), map[], clock), events);
            w.clock <= end ==>
              && AreDisjoint(FindHistory(w.store, device, start, end))
              && AtMost(Total(FindHistory(w.store, device, start, end)), Sum(w.ledger, device, start, end))
  {
    var empty := World(Store(map[], map[], map[]), map[], clock);
    RunsKeepInv(empty, events);
    var w := After(empty, events);
    if w.clock <= end {
      HistoryNeverCountsTwice(w, device, start, end);
    }
  }
}
