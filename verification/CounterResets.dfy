/**
 What accounting makes of a device's counter readings, resets included: each total is the
 last counter minus the first plus every counter that stood just before a decrease.
 */
module CounterResets {
  import opened Common
  import opened Ledger
  import opened TrafficAccounting

  /** The device's counter that the next reading is compared with. */
  function Counter(a: Accounts, events: seq<Event>, device: nat): Bytes
    requires device in After(a, events).previous
  {
    After(a, events).previous[device]
  }

  /** No departure of the run drops the device. */
  predicate IsNeverDropped(events: seq<Event>, device: nat) {
    forall e | e in events && e.Depart? :: device in e.active
  }

  lemma {:induction false} CounterStays(a: Accounts, events: seq<Event>, device: nat)
    requires device in a.previous && IsNeverDropped(events, device)
    ensures device in After(a, events).previous
  {
    hide MinuteOf, Accepted, AddedToBucket;
    if events != [] {
      var front, e := events[..|events| - 1], events[|events| - 1];
      assert e in events && forall x | x in front :: x in events;
      CounterStays(a, front, device);
      StepKeepsCounter(After(a, front), e, device);
    }
  }

  lemma StepKeepsCounter(a: Accounts, e: Event, device: nat)
    requires device in a.previous && (e.Depart? ==> device in e.active)
    ensures device in Step(a, e).previous
  {
    hide MinuteOf;
  }

  /** The downloaded bytes that stood on the counter just before each of its decreases. */
  function DownBeforeResets(a: Accounts, events: seq<Event>, device: nat): nat
    requires device in a.previous && IsNeverDropped(events, device)
  {
    if events == [] then 0
    else
      var front := events[..|events| - 1];
      assert events[|events| - 1] in events && forall x | x in front :: x in events;
      CounterStays(a, front, device);
      CounterStays(a, events, device);
      var before, after := Counter(a, front, device).down, Counter(a, events, device).down;
      DownBeforeResets(a, front, device) + if after < before then before else 0
  }

  function UpBeforeResets(a: Accounts, events: seq<Event>, device: nat): nat
    requires device in a.previous && IsNeverDropped(events, device)
  {
    if events == [] then 0
    else
      var front := events[..|events| - 1];
      assert events[|events| - 1] in events && forall x | x in front :: x in events;
      CounterStays(a, front, device);
      CounterStays(a, events, device);
      var before, after := Counter(a, front, device).up, Counter(a, events, device).up;
      UpBeforeResets(a, front, device) + if after < before then before else 0
  }

  /** What one event accepts, by the counter before and after it. */
  lemma AcceptedByCounter(a: Accounts, e: Event, device: nat)
    requires device in a.previous && (e.Depart? ==> device in e.active)
    ensures device in Step(a, e).previous
    ensures var before, after, accepted := a.previous[device], Step(a, e).previous[device], AcceptedFor(a, e, device);
            && accepted.down == after.down - before.down + (if after.down < before.down then before.down else 0)
            && accepted.up == after.up - before.up + (if after.up < before.up then before.up else 0)
  {
    hide MinuteOf;
  }

  /**
   Over any run that never drops the device, whatever reads and writes fail, the bytes
   accepted for it are its last counter minus its first, plus what stood on the counter just
   before each decrease, for each direction on its own.
   */
  lemma {:induction false} ResetsAreCounted(a: Accounts, events: seq<Event>, device: nat)
    requires device in a.previous && IsNeverDropped(events, device)
    ensures device in After(a, events).previous
    ensures TotalAccepted(a, events, device).down
            == Counter(a, events, device).down - a.previous[device].down + DownBeforeResets(a, events, device)
    ensures TotalAccepted(a, events, device).up
            == Counter(a, events, device).up - a.previous[device].up + UpBeforeResets(a, events, device)
  {
    hide MinuteOf, Step, Accepted, AddedToBucket;
    CounterStays(a, events, device);
    if events != [] {
      var front, e := events[..|events| - 1], events[|events| - 1];
      assert e in events && forall x | x in front :: x in events;
      ResetsAreCounted(a, front, device);
      AcceptedByCounter(After(a, front), e, device);
    }
  }

  /** The same of the stored and pending bytes in a span that has all minutes of the device's samples. */
  lemma ResetsAreStored(a: Accounts, events: seq<Event>, device: nat, lo: int, hi: int)
    requires device in a.previous && IsNeverDropped(events, device)
    requires forall e | e in events && e.Sample? && e.device == device :: lo <= MinuteOf(e.time) < hi
    ensures device in After(a, events).previous
    ensures ValueSum(After(a, events), device, lo, hi).down == ValueSum(a, device, lo, hi).down
            + Counter(a, events, device).down - a.previous[device].down + DownBeforeResets(a, events, device)
    ensures ValueSum(After(a, events), device, lo, hi).up == ValueSum(a, device, lo, hi).up
            + Counter(a, events, device).up - a.previous[device].up + UpBeforeResets(a, events, device)
  {
    hide MinuteOf, Step, Accepted, AddedToBucket, ValueSum, DownBeforeResets, UpBeforeResets, TotalAccepted;
    ResetsAreCounted(a, events, device);
    AcceptedBytesAreKept(a, events, device, lo, hi);
    WideSpanHasAll(a, events, device, lo, hi);
  }

  // ----- Which readings are taken -----

  /** The reading brings bytes, but a bucket of another minute waits and cannot be written. */
  predicate IsStuck(a: Accounts, e: Event) {
    && e.Sample? && e.reading.Some? && e.device in a.previous && e.device in a.pending && !e.writeWorks
    && a.pending[e.device].start / 60_000 != e.time / 60_000
    && (BringsBytes(a.previous[e.device].down, e.reading.value.down)
        || BringsBytes(a.previous[e.device].up, e.reading.value.up))
  }

  /** The counter has moved, and not to nothing. */
  predicate BringsBytes(before: nat, now: nat) {
    now != before && now != 0
  }

  /** Buckets begin on the minute. */
  predicate AreMinutes(a: Accounts) {
    forall d | d in a.pending :: a.pending[d].start % 60_000 == 0
  }

  lemma MinuteMeans(start: int, time: int)
    requires start % 60_000 == 0
    ensures start == MinuteOf(time) <==> start / 60_000 == time / 60_000
    ensures MinuteOf(time) % 60_000 == 0 && MinuteOf(time) <= time < MinuteOf(time) + 60_000
  {
  }

  lemma StepKeepsMinutes(a: Accounts, e: Event)
    requires AreMinutes(a)
    ensures AreMinutes(Step(a, e))
  {
    if e.Sample? {
      MinuteMeans(0, e.time);
    }
    hide MinuteOf;
  }

  /**
   A successful reading becomes the device's counter, whether it is the first, has grown, has
   stayed or has been reset; only where bytes cannot be kept, because a bucket of another
   minute cannot be written, the old counter stays, and so does everything else.
   */
  lemma ReadingIsTaken(a: Accounts, e: Event)
    requires AreMinutes(a) && e.Sample?
    ensures e.reading.None? ==> Step(a, e) == a
    ensures e.reading.Some? && !IsStuck(a, e) ==> Step(a, e).previous == a.previous[e.device := e.reading.value]
    ensures IsStuck(a, e) ==> Step(a, e) == a
  {
    if e.device in a.pending {
      MinuteMeans(a.pending[e.device].start, e.time);
    }
    hide MinuteOf;
  }

  /** The readings of the device that succeeded, in order. */
  function ReadingsOf(events: seq<Event>, device: nat): seq<Bytes> {
    if events == [] then []
    else
      var front, e := ReadingsOf(events[..|events| - 1], device), events[|events| - 1];
      if e.Sample? && e.device == device && e.reading.Some? then front + [e.reading.value] else front
  }

  /** Where every write works the counter is the last reading that succeeded. */
  lemma {:induction false} CounterIsLastReading(a: Accounts, events: seq<Event>, device: nat)
    requires device in a.previous && IsNeverDropped(events, device) && AreMinutes(a)
    requires forall e | e in events && e.Sample? :: e.writeWorks
    ensures device in After(a, events).previous && AreMinutes(After(a, events))
    ensures Counter(a, events, device) ==
            var readings := [a.previous[device]] + ReadingsOf(events, device);
            readings[|readings| - 1]
  {
    hide MinuteOf, Accepted, AddedToBucket, Step, AreMinutes;
    if events != [] {
      var front, e := events[..|events| - 1], events[|events| - 1];
      assert e in events && forall x | x in front :: x in events;
      CounterIsLastReading(a, front, device);
      var mid := After(a, front);
      StepKeepsMinutes(mid, e);
      CounterAfter(mid, e, device);
    }
  }

  lemma CounterAfter(a: Accounts, e: Event, device: nat)
    requires device in a.previous && AreMinutes(a)
    requires (e.Depart? ==> device in e.active) && (e.Sample? ==> e.writeWorks)
    ensures device in Step(a, e).previous
    ensures Step(a, e).previous[device] ==
            if e.Sample? && e.device == device && e.reading.Some? then e.reading.value else a.previous[device]
  {
    hide MinuteOf, AddedToBucket, Accepted;
    if e.Sample? {
      hide Step;
      ReadingIsTaken(a, e);
    }
  }

  // ----- What else an event does -----

  /** A first reading is only the start of counting. */
  lemma FirstReadingCountsNothing(a: Accounts, e: Event)
    requires e.Sample? && e.device !in a.previous
    ensures Step(a, e).pending == a.pending && Step(a, e).stored == a.stored
  {
  }

  /** A departure forgets the counters of all other devices, so that their next readings are first ones. */
  lemma DepartureForgets(a: Accounts, active: set<nat>, device: nat)
    ensures var b := Step(a, Depart(active));
            && (device in b.previous <==> device in a.previous && device in active)
            && (device in b.previous ==> b.previous[device] == a.previous[device])
            && b.pending == a.pending && b.stored == a.stored
  {
  }

  /** A collection keeps counters of the devices it observed alone. */
  lemma CollectionForgetsTheUnseen(a: Accounts, now: int, observed: seq<Observation>, failing: set<nat>, device: nat)
    ensures device in After(a, Round(now, observed, failing)).previous ==>
              exists o | o in observed :: o.device == device
  {
    hide Step;
    var seen := set o | o in observed :: o.device;
    var samples := Samples(now, observed);
    assert Round(now, observed, failing) == samples + [Depart(seen)] + [FlushExpired(now, failing)];
    AfterOneMore(a, samples + [Depart(seen)], FlushExpired(now, failing));
    AfterOneMore(a, samples, Depart(seen));
    DepartureForgets(After(a, samples), seen, device);
    FlushKeepsCounters(After(a, samples + [Depart(seen)]), now, failing);
  }

  lemma FlushKeepsCounters(a: Accounts, now: int, failing: set<nat>)
    ensures Step(a, FlushExpired(now, failing)).previous == a.previous
  {
  }

  /** A waiting bucket is stored once its minute is over, unless its write fails; otherwise it waits on. */
  lemma BucketIsStoredWhenOver(a: Accounts, now: int, failing: set<nat>, device: nat)
    requires AreMinutes(a) && device in a.pending
    ensures var b, bucket := Step(a, FlushExpired(now, failing)), a.pending[device];
            if bucket.start + 60_000 <= now && device !in failing
            then device !in b.pending
                 && At(b.stored, device, bucket.start) == Plus(At(a.stored, device, bucket.start), bucket.bytes)
            else device in b.pending && b.pending[device] == bucket
                 && forall time :: At(b.stored, device, time) == At(a.stored, device, time)
  {
    var bucket := a.pending[device];
    MinuteIsOver(bucket.start, now);
    hide MinuteOf;
    var devices := Expired(a, now, failing);
    assert device in devices <==> bucket.start + 60_000 <= now && device !in failing;
    FlushedRowOf(a, devices, device);
    hide Expired, FlushedRows;
  }

  lemma MinuteIsOver(start: int, now: int)
    requires start % 60_000 == 0
    ensures start < MinuteOf(now) <==> start + 60_000 <= now
  {
  }

  lemma FlushedRowOf(a: Accounts, devices: set<nat>, device: nat)
    requires devices <= a.pending.Keys && device in a.pending
    ensures var rows, bucket := FlushedRows(a, devices), a.pending[device];
            if device in devices
            then Key(device, bucket.start) in rows
                 && rows[Key(device, bucket.start)] == Plus(At(a.stored, device, bucket.start), bucket.bytes)
            else forall time :: Key(device, time) !in rows
  {
    hide At, Plus;
    assert device in devices ==> Key(device, a.pending[device].start) in FlushedRows(a, devices);
  }
}
