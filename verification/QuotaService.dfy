/** Quota recording, reading and resetting over the period table. */
module QuotaService {
  import opened Common
  import opened QuotaPeriods
  import opened QuotaLedger

  class QuotaPeriodTable {
    var rows: Rows

    constructor ()
      ensures rows == map[]
    {
      rows := map[];
    }

    /** The first matching row in descending order of start. */
    method FindCurrent(device: DeviceId, periodType: string, now: int) returns (r: Option<Key>)
      ensures r == Current(rows, device, periodType, now)
    {
      r := None;
      var left := rows.Keys;
      while left != {}
        invariant left <= rows.Keys
        invariant r.Some? ==> IsCurrent(rows, device, periodType, now, r.value)
        invariant forall k | k !in left && IsCurrent(rows, device, periodType, now, k) ::
                    r.Some? && k.start <= r.value.start
        decreases left
      {
        var k :| k in left;
        left := left - {k};
        if IsCurrent(rows, device, periodType, now, k) && (r.None? || r.value.start < k.start) {
          r := Some(k);
        }
      }
    }

    method Create(device: DeviceId, periodType: string, p: Period) returns (r: Option<Key>)
      modifies this
      ensures (rows, r) == Created(old(rows), device, periodType, p)
    {
      var k := Key(device, periodType, p.start);
      if k in rows {
        return None;
      }
      rows := rows[k := Row(p.end, UNUSED)];
      return Some(k);
    }

    method ResetRow(k: Key, p: Period) returns (r: Option<Key>)
      requires k in rows
      modifies this
      ensures (rows, r) == Moved(old(rows), k, p)
    {
      var k' := k.(start := p.start);
      if k' in rows && k' != k {
        return None;
      }
      rows := (rows - {k})[k' := Row(p.end, UNUSED)];
      return Some(k');
    }

    method IncrementUsage(k: Key, u: Usage)
      requires k in rows
      modifies this
      ensures rows == Incremented(old(rows), k, u)
    {
      rows := rows[k := rows[k].(used := Plus(rows[k].used, u))];
    }
  }

  // ----- Views and notices -----

  datatype View = View(period: Period, used: Usage, usedBytes: int, remainingBytes: int, exhausted: bool)

  /** Exhausted exactly when nothing remains; what is used and what remains make up an unexhausted quota. */
  function BuildView(quota: int, k: Key, row: Row): (v: View)
    ensures v.exhausted <==> v.remainingBytes == 0
    ensures !v.exhausted ==> v.usedBytes + v.remainingBytes == quota
    ensures v.exhausted ==> quota <= v.usedBytes
    ensures v.usedBytes == row.used.down + row.used.up && v.period == Period(k.start, row.end)
  {
    var used := row.used.down + row.used.up;
    View(Period(k.start, row.end), row.used, used, if quota > used then quota - used else 0, used >= quota)
  }

  function Total(u: Usage): int {
    u.down + u.up
  }

  datatype Notice = Notice(device: DeviceId, start: int, percent: int)

  const PERCENTS := [80, 90, 100]

  predicate IsReached(quota: int, used: int, percent: int) {
    quota > 0 && used * 100 >= quota * percent
  }

  /** The thresholds reached among the first n. */
  function Reached(device: DeviceId, start: int, quota: int, used: int, n: nat): set<Notice>
    requires n <= 3
  {
    set i | 0 <= i < n && IsReached(quota, used, PERCENTS[i]) :: Notice(device, start, PERCENTS[i])
  }

  /** Among new notices, one of a lower percentage fails to be stored, which ends the loop. */
  predicate IsBehind(news: set<Notice>, failing: Option<int>, percent: int) {
    exists n | n in news :: failing == Some(n.percent) && n.percent < percent
  }

  /** The new notices that the loop gets to. */
  function Handled(news: set<Notice>, failing: Option<int>): set<Notice> {
    set n | n in news && !IsBehind(news, failing, n.percent)
  }

  function Stored(news: set<Notice>, failing: Option<int>): set<Notice> {
    set n | n in Handled(news, failing) && failing != Some(n.percent)
  }

  /** The loop up to its i-th threshold, if that one is new. */
  lemma HandledUpTo(device: DeviceId, start: int, quota: int, used: int, i: nat, marked: set<Notice>)
    requires i < 3 && IsReached(quota, used, PERCENTS[i]) && Notice(device, start, PERCENTS[i]) !in marked
    ensures var news, failing := Reached(device, start, quota, used, 3) - marked, Some(PERCENTS[i]);
            && Handled(news, failing) == Reached(device, start, quota, used, i + 1) - marked
            && Stored(news, failing) == Reached(device, start, quota, used, i) - marked
  {
    hide IsReached;
    var news, failing := Reached(device, start, quota, used, 3) - marked, Some(PERCENTS[i]);
    var n := Notice(device, start, PERCENTS[i]);
    assert n in news;
    forall x | x in news
      ensures IsBehind(news, failing, x.percent) <==> PERCENTS[i] < x.percent
    {
    }
  }

  lemma AllHandled(news: set<Notice>)
    ensures Handled(news, None) == news && Stored(news, None) == news
  {
  }

  datatype Policy = Policy(quota: int, periodType: string)

  /** The view shows the row of its own period. */
  predicate Shows(v: View, rows: Rows, device: DeviceId, policy: Policy) {
    var k := Key(device, policy.periodType, v.period.start);
    k in rows && v == BuildView(policy.quota, k, rows[k])
  }

  class QuotaService {
    const table: QuotaPeriodTable
    var notified: set<Notice>
    var sent: seq<Notice>
    /** Notices that could not be stored. */
    ghost var faults: nat

    constructor ()
      ensures Valid() && fresh(table) && table.rows == map[] && sent == [] && notified == {} && faults == 0
    {
      table := new QuotaPeriodTable();
      notified, sent, faults := {}, [], 0;
    }

    /** No notice is ever sent twice. */
    ghost predicate Valid()
      reads this
    {
      NoDuplicates(sent) && forall n | n in sent :: n in notified
    }

    method GetOrCreateCurrentPeriod(device: DeviceId, periodType: string, now: int) returns (r: Option<Key>)
      modifies table
      ensures (table.rows, r) == LookedUp(old(table.rows), device, periodType, now)
    {
      hide PeriodOf, KindOf, IsPeriodByText;
      var start, end := CalculatePeriod(periodType, now);
      r := table.FindCurrent(device, periodType, now);
      if r.None? {
        r := table.Create(device, periodType, Period(start, end));
      } else if r.value.start != start || table.rows[r.value].end != end {
        r := table.ResetRow(r.value, Period(start, end));
      }
    }

    /**
     Exactly the reached and not yet marked notices are marked and sent, up to the one that
     fails to be stored.
     */
    twostate predicate HasNotified(reached: set<Notice>, failing: Option<int>)
      reads this
    {
      && notified == old(notified) + Handled(reached - old(notified), failing)
      && forall n :: n in sent <==> n in old(sent) || n in Stored(reached - old(notified), failing)
    }

    /** Marked before it is sent: a notice that fails to be stored is not tried again. */
    method NotifyThresholds(device: DeviceId, quota: int, used: int, start: int)
      returns (ok: bool, ghost failing: Option<int>)
      requires Valid()
      modifies this
      ensures Valid()
      ensures old(faults) <= faults && (ok <==> faults == old(faults)) && (ok <==> failing.None?)
      ensures failing.Some? ==> exists n | n in Reached(device, start, quota, used, 3) - old(notified) ::
                failing == Some(n.percent)
      ensures HasNotified(Reached(device, start, quota, used, 3), failing)
    {
      failing := None;
      AllHandled(Reached(device, start, quota, used, 3) - notified);
      if quota <= 0 {
        return true, None;
      }
      for i := 0 to 3
        invariant Valid() && faults == old(faults)
        invariant notified == old(notified) + Reached(device, start, quota, used, i)
        invariant old(sent) <= sent
        invariant forall n :: n in sent <==>
                    n in old(sent) || (n in Reached(device, start, quota, used, i) && n !in old(notified))
      {
        var n := Notice(device, start, PERCENTS[i]);
        if IsReached(quota, used, PERCENTS[i]) && n !in notified {
          notified := notified + {n};
          if * {
            faults := faults + 1;
            HandledUpTo(device, start, quota, used, i, old(notified));
            assert n in Reached(device, start, quota, used, 3) - old(notified);
            return false, Some(PERCENTS[i]);
          }
          sent := sent + [n];
        }
      }
      ok := true;
    }

    /** No policy means an unknown device or no configured quota: nothing is recorded. */
    method RecordUsage(device: DeviceId, policy: Option<Policy>, down: int, up: int, timestamp: int)
      returns (r: Result<Option<View>>, ghost failing: Option<int>)
      requires Valid()
      modifies this, table
      ensures Valid()
      ensures table.rows == if policy.None? then old(table.rows)
                            else Step(old(table.rows), Record(device, policy.value.periodType, timestamp,
                                                                        Usage(down, up)))
      ensures down < 0 || up < 0 ==> r.Err? && sent == old(sent)
      ensures old(faults) <= faults
      ensures policy.Some? && down >= 0 && up >= 0 && IsCanonical(old(table.rows)) ==>
                var k := Key(device, policy.value.periodType, PeriodFor(policy.value.periodType, timestamp).start);
                && k in table.rows
                && (r.Ok? ==> r.value.Some? && IsPeriodByText(policy.value.periodType, timestamp, r.value.value.period))
                && (r.Ok? <==> failing.None?) && (failing.None? <==> faults == old(faults))
                && HasNotified(Reached(device, k.start, policy.value.quota, Total(table.rows[k].used), 3), failing)
      ensures r.Ok? && r.value.Some? ==> policy.Some? && Shows(r.value.value, table.rows, device, policy.value)
    {
      if down < 0 || up < 0 {
        return Err("Quota usage cannot be negative"), None;
      }
      if policy.None? {
        return Ok(None), None;
      }
      hide IsPeriodByText;
      if IsCanonical(table.rows) {
        LookupNeverWipes(table.rows, device, policy.value.periodType, timestamp);
        LookupIsByText(table.rows, device, policy.value.periodType, timestamp);
      }
      var k := GetOrCreateCurrentPeriod(device, policy.value.periodType, timestamp);
      if k.None? {
        return Err("Unique constraint failed"), None;
      }
      LookupKeepsKey(old(table.rows), device, policy.value.periodType, timestamp);
      table.IncrementUsage(k.value, Usage(down, up));
      var row := table.rows[k.value];
      var ok;
      ok, failing := NotifyThresholds(device, policy.value.quota, Total(row.used), k.value.start);
      if !ok {
        return Err("Notification was not stored"), failing;
      }
      r := Ok(Some(BuildView(policy.value.quota, k.value, row)));
    }

    lemma LookupKeepsKey(rows: Rows, device: DeviceId, periodType: string, now: int)
      ensures var r := LookedUp(rows, device, periodType, now).1;
              r.Some? ==> r.value.device == device && r.value.periodType == periodType
    {
      hide PeriodOf, KindOf;
    }

    /** The row that a lookup in a canonical table ends at has the bounds of the period that the text names. */
    lemma LookupIsByText(rows: Rows, device: DeviceId, periodType: string, now: int)
      requires IsCanonical(rows)
      ensures var r := LookedUp(rows, device, periodType, now);
              r.1.Some? && IsPeriodByText(periodType, now, Period(r.1.value.start, r.0[r.1.value].end))
    {
      hide PeriodOf, KindOf, IsPeriodByText, LookedUp;
      LookupNeverWipes(rows, device, periodType, now);
      CanonicalBounds(periodType, now);
      PeriodForByText(periodType, now);
    }

    method GetQuota(device: DeviceId, policy: Option<Policy>, now: int) returns (r: Result<Option<View>>)
      modifies table
      ensures policy.Some? && IsCanonical(old(table.rows)) ==>
                && r.Ok? && r.value.Some?
                && IsPeriodByText(policy.value.periodType, now, r.value.value.period)
      ensures table.rows == if policy.None? then old(table.rows)
                            else Step(old(table.rows), Read(device, policy.value.periodType, now))
      ensures r.Ok? && r.value.Some? ==> policy.Some? && Shows(r.value.value, table.rows, device, policy.value)
    {
      if policy.None? {
        return Ok(None);
      }
      hide IsPeriodByText;
      if IsCanonical(table.rows) {
        LookupNeverWipes(table.rows, device, policy.value.periodType, now);
        LookupIsByText(table.rows, device, policy.value.periodType, now);
      }
      var k := GetOrCreateCurrentPeriod(device, policy.value.periodType, now);
      if k.None? {
        return Err("Unique constraint failed");
      }
      LookupKeepsKey(old(table.rows), device, policy.value.periodType, now);
      r := Ok(Some(BuildView(policy.value.quota, k.value, table.rows[k.value])));
    }

    /** The bounds and the row are looked up at two readings of the clock. */
    method ResetQuota(device: DeviceId, policy: Option<Policy>, boundsAt: int, lookupAt: int)
      returns (r: Result<View>)
      modifies table
      ensures policy.None? ==> r.Err? && table.rows == old(table.rows)
      ensures policy.Some? ==>
                && var e := Reset(device, policy.value.periodType, boundsAt, lookupAt);
                   table.rows == Step(old(table.rows), e) && (r.Ok? <==> Succeeds(old(table.rows), e))
      ensures r.Ok? ==> r.value.usedBytes == 0 && IsPeriodByText(policy.value.periodType, boundsAt, r.value.period)
    {
      hide PeriodOf, KindOf, IsPeriodByText;
      if policy.None? {
        return Err("Quota is not configured for this device");
      }
      var start, end := CalculatePeriod(policy.value.periodType, boundsAt);
      var k := table.FindCurrent(device, policy.value.periodType, lookupAt);
      if k.None? {
        k := table.Create(device, policy.value.periodType, Period(start, end));
      } else {
        k := table.ResetRow(k.value, Period(start, end));
      }
      if k.None? {
        return Err("Unique constraint failed");
      }
      r := Ok(BuildView(policy.value.quota, k.value, table.rows[k.value]));
    }

    method ClearQuota(device: DeviceId, periodType: Option<string>, boundsAt: int, lookupAt: int) returns (ok: bool)
      modifies table
      ensures periodType.None? ==> ok && table.rows == old(table.rows)
      ensures periodType.Some? ==>
                && var e := Clear(device, periodType.value, boundsAt, lookupAt);
                   table.rows == Step(old(table.rows), e) && (ok <==> Succeeds(old(table.rows), e))
    {
      hide PeriodOf, KindOf, IsPeriodByText;
      ok := true;
      if periodType.Some? {
        var start, end := CalculatePeriod(periodType.value, boundsAt);
        var k := table.FindCurrent(device, periodType.value, lookupAt);
        if k.Some? {
          k := table.ResetRow(k.value, Period(start, end));
          ok := k.Some?;
        }
      }
    }
  }
}
