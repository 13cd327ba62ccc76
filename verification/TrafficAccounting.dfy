/**
 Kernel counters become minute buckets. A device's bytes wait in one pending
 bucket and reach the sample table when the minute changes or expires; any
 write of the table may fail, and then nothing of it happens.
 */
module TrafficAccounting {
  import opened Common
  import opened Ledger

  function MinuteOf(time: int): int {
    time / 60_000 * 60_000
  }

  datatype Bucket = Bucket(start: int, bytes: Bytes)

  datatype Accounts = Accounts(previous: map<nat, Bytes>, pending: map<nat, Bucket>, stored: Table)

  /** A counter that went backwards was reset, so all of it is new. */
  function CounterDelta(current: nat, previous: nat): nat {
    if current < previous then current else current - previous
  }

  function Delta(current: Bytes, previous: Bytes): Bytes {
    Bytes(CounterDelta(current.down, previous.down), CounterDelta(current.up, previous.up))
  }

  /** The buckets after adding a delta, or None when a bucket had to be flushed first and that write failed. */
  function AddedToBucket(a: Accounts, device: nat, time: int, delta: Bytes, writeWorks: bool): Option<Accounts> {
    var start := MinuteOf(time);
    if device in a.pending && a.pending[device].start == start then
      Some(a.(pending := a.pending[device := Bucket(start, Plus(a.pending[device].bytes, delta))]))
    else if device in a.pending && !writeWorks then None
    else
      var stored := if device in a.pending
                    then Add(a.stored, device, a.pending[device].start, a.pending[device].bytes) else a.stored;
      Some(Accounts(a.previous, a.pending[device := Bucket(start, delta)], stored))
  }

  datatype Event =
    | Sample(device: nat, time: int, reading: Option<Bytes>, writeWorks: bool)
    | Depart(active: set<nat>)
    | FlushExpired(now: int, failing: set<nat>)

  /** The delta a sample adds to the history, if it is accepted. */
  function Accepted(a: Accounts, e: Event): Option<Bytes> {
    match e
    case Sample(device, time, Some(current), writeWorks) =>
      if device !in a.previous then None
      else
        var delta := Delta(current, a.previous[device]);
        if delta == ZERO || AddedToBucket(a, device, time, delta, writeWorks).None? then None
        else Some(delta)
    case _ => None
  }

  function Expired(a: Accounts, now: int, failing: set<nat>): set<nat> {
    set d | d in a.pending && a.pending[d].start < MinuteOf(now) && d !in failing
  }

  /** The pending buckets of the given devices are written and removed. */
  function Flushed(a: Accounts, devices: set<nat>): Accounts
    requires devices <= a.pending.Keys
  {
    Accounts(a.previous, a.pending - devices, a.stored + FlushedRows(a, devices))
  }

  /** The rows that flushing the given devices' buckets writes. */
  function FlushedRows(a: Accounts, devices: set<nat>): Table
    requires devices <= a.pending.Keys
  {
    map d | d in devices ::
      Key(d, a.pending[d].start) := Plus(At(a.stored, d, a.pending[d].start), a.pending[d].bytes)
  }

  /** A failed read or a failed flush leaves the previous counter, so the bytes are seen again by the next sample. */
  function Step(a: Accounts, e: Event): Accounts {
    match e
    case Sample(device, time, reading, writeWorks) =>
      if reading.None? then a
      else if device !in a.previous then a.(previous := a.previous[device := reading.value])
      else
        var delta := Delta(reading.value, a.previous[device]);
        if delta == ZERO then a.(previous := a.previous[device := reading.value])
        else
          (match AddedToBucket(a, device, time, delta, writeWorks)
           case None => a
           case Some(b) => b.(previous := b.previous[device := reading.value]))
    case Depart(active) => a.(previous := map d | d in a.previous && d in active :: a.previous[d])
    case FlushExpired(now, failing) => Flushed(a, Expired(a, now, failing))
  }

  function After(a: Accounts, events: seq<Event>): Accounts {
    if events == [] then a else Step(After(a, events[..|events| - 1]), events[|events| - 1])
  }

  /** The sample list of one collection, then the departures, then the expired buckets. */
  function Samples(now: int, observed: seq<Observation>): seq<Event> {
    if observed == [] then []
    else
      var last := observed[|observed| - 1];
      Samples(now, observed[..|observed| - 1]) + [Sample(last.device, now, last.reading, last.writeWorks)]
  }

  datatype Observation = Observation(device: nat, reading: Option<Bytes>, writeWorks: bool)

  function Round(now: int, observed: seq<Observation>, failing: set<nat>): seq<Event> {
    Samples(now, observed) + [Depart(set o | o in observed :: o.device), FlushExpired(now, failing)]
  }

  class TrafficAccountingService {
    var previous: map<nat, Bytes>
    var pending: map<nat, Bucket>
    var stored: Table
    var running: bool

    constructor ()
      ensures State() == Accounts(map[], map[], map[]) && !running
    {
      previous, pending, stored, running := map[], map[], map[], false;
    }

    function State(): Accounts
      reads this
    {
      Accounts(previous, pending, stored)
    }

    method AddToHistoryBucket(device: nat, time: int, delta: Bytes, writeWorks: bool) returns (ok: bool)
      modifies `pending, `stored
      ensures ok == AddedToBucket(old(State()), device, time, delta, writeWorks).Some?
      ensures ok ==> State() == AddedToBucket(old(State()), device, time, delta, writeWorks).value
      ensures !ok ==> State() == old(State())
    {
      var bucketStart := MinuteOf(time);
      if device in pending && pending[device].start == bucketStart {
        pending := pending[device := Bucket(bucketStart, Plus(pending[device].bytes, delta))];
        return true;
      }
      if device in pending {
        if !writeWorks {
          return false;
        }
        stored := Add(stored, device, pending[device].start, pending[device].bytes);
      }
      pending := pending[device := Bucket(bucketStart, delta)];
      return true;
    }

    method CollectDevice(device: nat, time: int, reading: Option<Bytes>, writeWorks: bool)
      modifies `previous, `pending, `stored
      ensures State() == Step(old(State()), Sample(device, time, reading, writeWorks))
    {
      if reading.None? {
        return;
      }
      var current := reading.value;
      if device !in previous {
        previous := previous[device := current];
        return;
      }
      var delta := Delta(current, previous[device]);
      if delta.down > 0 || delta.up > 0 {
        var ok := AddToHistoryBucket(device, time, delta, writeWorks);
        if !ok {
          return;
        }
      }
      previous := previous[device := current];
    }

    method FlushExpiredHistoryBuckets(now: int, failing: set<nat>)
      modifies `pending, `stored
      ensures State() == Step(old(State()), FlushExpired(now, failing))
    {
      hide MinuteOf, Flushed, Add;
      ghost var a := State();
      FlushNone(a);
      var left := pending.Keys;
      ghost var done: set<nat> := {};
      while left != {}
        invariant left <= a.pending.Keys
        invariant done == Expired(a, now, failing) - left
        invariant State() == Flushed(a, done)
        decreases left
      {
        var device :| device in left;
        FlushOneMore(a, done, device);
        left := left - {device};
        var bucket := pending[device];
        if bucket.start < MinuteOf(now) && device !in failing {
          stored := Add(stored, device, bucket.start, bucket.bytes);
          pending := pending - {device};
          done := done + {device};
        }
        assert done == Expired(a, now, failing) - left;
      }
      assert done == Expired(a, now, failing);
    }

    /** One collection; a collection that is already running does nothing. */
    method Collect(now: int, observed: seq<Observation>, failing: set<nat>)
      modifies this
      ensures running == old(running)
      ensures State() == if old(running) then old(State()) else After(old(State()), Round(now, observed, failing))
    {
      if running {
        return;
      }
      running := true;
      ghost var a := State();
      var active := CollectAll(now, observed);
      previous := map d | d in previous && d in active :: previous[d];
      AfterOneMore(a, Samples(now, observed), Depart(active));
      FlushExpiredHistoryBuckets(now, failing);
      AfterOneMore(a, Samples(now, observed) + [Depart(active)], FlushExpired(now, failing));
      assert Round(now, observed, failing) == Samples(now, observed) + [Depart(active)] + [FlushExpired(now, failing)];
      running := false;
    }

    /** The device loop of a collection, and the ids it saw. */
    method CollectAll(now: int, observed: seq<Observation>) returns (active: set<nat>)
      modifies `previous, `pending, `stored
      ensures State() == After(old(State()), Samples(now, observed))
      ensures active == set o | o in observed :: o.device
    {
      hide Step;
      ghost var a := State();
      active := {};
      for i := 0 to |observed|
        invariant State() == After(a, Samples(now, observed[..i]))
        invariant active == set o | o in observed[..i] :: o.device
      {
        assert observed[..i + 1] == observed[..i] + [observed[i]];
        active := active + {observed[i].device};
        AfterOneMore(a, Samples(now, observed[..i]),
                     Sample(observed[i].device, now, observed[i].reading, observed[i].writeWorks));
        CollectDevice(observed[i].device, now, observed[i].reading, observed[i].writeWorks);
      }
      assert observed[..|observed|] == observed;
    }
  }

  lemma AfterOneMore(a: Accounts, events: seq<Event>, e: Event)
    ensures After(a, events + [e]) == Step(After(a, events), e)
  {
    assert (events + [e])[..|events|] == events;
  }

  lemma FlushedRowsOneMore(a: Accounts, done: set<nat>, device: nat)
    requires done <= a.pending.Keys && device in a.pending && device !in done
    ensures var bucket := a.pending[device];
            && FlushedRows(a, done + {device})
               == FlushedRows(a, done)[Key(device, bucket.start)
                                         := Plus(At(a.stored, device, bucket.start), bucket.bytes)]
            && Key(device, bucket.start) !in FlushedRows(a, done)
  {
    hide At, Plus;
    var rows, more := FlushedRows(a, done), FlushedRows(a, done + {device});
    var key := Key(device, a.pending[device].start);
    assert forall k | k in more :: k in rows || k == key;
    assert forall k | k in rows :: k in more && more[k] == rows[k];
    assert key in more && key !in rows;
  }

  lemma FlushNone(a: Accounts)
    ensures Flushed(a, {}) == a
  {
    assert a.stored + FlushedRows(a, {}) == a.stored;
    assert a.pending - {} == a.pending;
  }

  lemma FlushOneMore(a: Accounts, done: set<nat>, device: nat)
    requires done <= a.pending.Keys && device in a.pending && device !in done
    ensures var b, bucket := Flushed(a, done), a.pending[device];
            && device in b.pending && b.pending[device] == bucket
            && Flushed(a, done + {device})
               == Accounts(b.previous, b.pending - {device}, Add(b.stored, device, bucket.start, bucket.bytes))
  {
    hide FlushedRows, Plus;
    FlushedRowsOneMore(a, done, device);
    var b, bucket := Flushed(a, done), a.pending[device];
    var key := Key(device, bucket.start);
    assert At(b.stored, device, bucket.start) == At(a.stored, device, bucket.start);
    assert a.stored + FlushedRows(a, done + {device})
        == b.stored[key := Plus(At(a.stored, device, bucket.start), bucket.bytes)];
    assert a.pending - (done + {device}) == a.pending - done - {device};
  }

  // ----- The buffer refines direct writing -----

  /** What is stored for a device and minute, plus what still waits in its bucket. */
  function Value(a: Accounts, device: nat, minute: int): Bytes {
    if device in a.pending && a.pending[device].start == minute
    then Plus(At(a.stored, device, minute), a.pending[device].bytes)
    else At(a.stored, device, minute)
  }

  /** Without a buffer: every accepted delta is written to its minute at once. */
  function WriteDirectly(a: Accounts, table: Table, e: Event): Table {
    match Accepted(a, e)
    case None => table
    case Some(delta) => Add(table, e.device, MinuteOf(e.time), delta)
  }

  function DirectAfter(a: Accounts, table: Table, events: seq<Event>): Table {
    if events == [] then table
    else
      WriteDirectly(After(a, events[..|events| - 1]), DirectAfter(a, table, events[..|events| - 1]),
                    events[|events| - 1])
  }

  ghost predicate Refines(a: Accounts, table: Table) {
    forall device, minute :: Value(a, device, minute) == At(table, device, minute)
  }

  /** Flushing moves bytes from the bucket to the table. */
  lemma FlushKeepsValue(a: Accounts, devices: set<nat>, device: nat, minute: int)
    requires devices <= a.pending.Keys
    ensures Value(Flushed(a, devices), device, minute) == Value(a, device, minute)
  {
    var stored := Flushed(a, devices).stored;
    if device in devices && a.pending[device].start == minute {
      assert Key(device, minute) in stored;
    }
  }

  lemma AddKeepsValue(a: Accounts, device: nat, time: int, delta: Bytes, writeWorks: bool, device': nat, minute: int)
    requires AddedToBucket(a, device, time, delta, writeWorks).Some?
    ensures Value(AddedToBucket(a, device, time, delta, writeWorks).value, device', minute) ==
            if device' == device && minute == MinuteOf(time) then Plus(Value(a, device', minute), delta)
            else Value(a, device', minute)
  {
    hide MinuteOf;
  }

  /** What one event adds to a device's bytes. */
  function AcceptedFor(a: Accounts, e: Event, device: nat): Bytes {
    if Accepted(a, e).Some? && e.device == device then Accepted(a, e).value else ZERO
  }

  lemma NothingAccepted(a: Accounts, e: Event, device: nat)
    ensures !e.Sample? || e.device != device ==> AcceptedFor(a, e, device) == ZERO
  {
    hide AddedToBucket, Delta;
  }

  /** Unless a sample is accepted or buckets are flushed, only the previous counters may change. */
  lemma NothingMoves(a: Accounts, e: Event)
    requires !e.FlushExpired? && Accepted(a, e).None?
    ensures Step(a, e).pending == a.pending && Step(a, e).stored == a.stored
  {
    hide AddedToBucket, Delta;
  }

  lemma AcceptedIsAdded(a: Accounts, e: Event)
    requires Accepted(a, e).Some?
    ensures e.Sample?
    ensures var added := AddedToBucket(a, e.device, e.time, Accepted(a, e).value, e.writeWorks);
            && added.Some?
            && Step(a, e).pending == added.value.pending && Step(a, e).stored == added.value.stored
  {
    hide AddedToBucket, Delta;
  }

  lemma StepAddsAt(a: Accounts, e: Event, device: nat, time: int)
    ensures Value(Step(a, e), device, time) ==
            if e.Sample? && time == MinuteOf(e.time) then Plus(Value(a, device, time), AcceptedFor(a, e, device))
            else Value(a, device, time)
  {
    hide MinuteOf, Flushed, AddedToBucket, Accepted, Plus;
    NothingAccepted(a, e, device);
    PlusZero(Value(a, device, time));
    if e.FlushExpired? {
      FlushKeepsValue(a, Expired(a, e.now, e.failing), device, time);
    } else if Accepted(a, e).None? {
      hide Step;
      NothingMoves(a, e);
    } else {
      hide Step;
      AcceptedIsAdded(a, e);
      AddKeepsValue(a, e.device, e.time, Accepted(a, e).value, e.writeWorks, device, time);
    }
  }

  lemma StepRefines(a: Accounts, table: Table, e: Event)
    requires Refines(a, table)
    ensures Refines(Step(a, e), WriteDirectly(a, table, e))
  {
    hide MinuteOf, Value, Step, Accepted, Plus, At, Add;
    var written := WriteDirectly(a, table, e);
    forall device, minute
      ensures Value(Step(a, e), device, minute) == At(written, device, minute)
    {
      assert Value(a, device, minute) == At(table, device, minute);
      StepAddsAt(a, e, device, minute);
      NothingAccepted(a, e, device);
      PlusZero(Value(a, device, minute));
      if Accepted(a, e).Some? {
        AcceptedIsAdded(a, e);
        AtAdd(table, e.device, MinuteOf(e.time), Accepted(a, e).value, device, minute);
      }
    }
  }

  /**
   Over any run of samples with arbitrary timestamps, failed reads, counter
   resets, departures and failing writes, stored plus pending bytes are for every
   device and minute what writing each accepted delta directly would have stored.
   */
  lemma {:induction false} BufferRefinesDirectWriting(events: seq<Event>)
    ensures var empty := Accounts(map[], map[], map[]);
            Refines(After(empty, events), DirectAfter(empty, map[], events))
  {
    var empty := Accounts(map[], map[], map[]);
    if events != [] {
      BufferRefinesDirectWriting(events[..|events| - 1]);
      StepRefines(After(empty, events[..|events| - 1]), DirectAfter(empty, map[], events[..|events| - 1]),
                  events[|events| - 1]);
    }
  }

  // ----- A session without a reset telescopes -----

  /** The accepted bytes of one device over a run. */
  function TotalAccepted(a: Accounts, events: seq<Event>, device: nat): Bytes {
    if events == [] then ZERO
    else
      var front := events[..|events| - 1];
      var e := events[|events| - 1];
      var accepted := Accepted(After(a, front), e);
      if accepted.Some? && e.device == device then Plus(TotalAccepted(a, front, device), accepted.value)
      else TotalAccepted(a, front, device)
  }

  /** The device is never dropped and no reading of it is below the last accepted counter. */
  predicate IsSession(a: Accounts, events: seq<Event>, device: nat) {
    events == [] ||
    (var front, e := events[..|events| - 1], events[|events| - 1];
     && IsSession(a, front, device)
     && (e.Depart? ==> device in e.active)
     && (e.Sample? && e.device == device && e.reading.Some? && device in After(a, front).previous ==>
           AtMost(After(a, front).previous[device], e.reading.value)))
  }

  /** A session's accepted bytes are exactly its last accepted counter minus its first. */
  lemma {:induction false} SessionTelescopes(a: Accounts, events: seq<Event>, device: nat)
    requires device in a.previous && IsSession(a, events, device)
    ensures device in After(a, events).previous
    ensures Plus(a.previous[device], TotalAccepted(a, events, device)) == After(a, events).previous[device]
  {
    if events != [] {
      var front, e := events[..|events| - 1], events[|events| - 1];
      SessionTelescopes(a, front, device);
      AcceptedAdvances(After(a, front), e, device);
    }
  }

  lemma AcceptedAdvances(a: Accounts, e: Event, device: nat)
    requires device in a.previous
    requires e.Depart? ==> device in e.active
    requires e.Sample? && e.device == device && e.reading.Some? ==> AtMost(a.previous[device], e.reading.value)
    ensures device in Step(a, e).previous
    ensures Step(a, e).previous[device] ==
            if Accepted(a, e).Some? && e.device == device then Plus(a.previous[device], Accepted(a, e).value)
            else a.previous[device]
  {
    hide MinuteOf;
  }

  /** All that is stored or pending for a device in [lo, hi). */
  function ValueSum(a: Accounts, device: nat, lo: int, hi: int): Bytes
    decreases hi - lo
  {
    if hi <= lo then ZERO else Plus(ValueSum(a, device, lo, hi - 1), Value(a, device, hi - 1))
  }

  /** Where b and a differ by a delta at one instant, their sums differ by the delta if the span has that instant. */
  lemma {:induction false} ValueSumDiffers(a: Accounts, b: Accounts, device: nat, at: int, delta: Bytes,
                                         lo: int, hi: int)
    requires forall time ::
               Value(b, device, time) ==
               if time == at then Plus(Value(a, device, time), delta) else Value(a, device, time)
    ensures ValueSum(b, device, lo, hi) ==
            if lo <= at < hi then Plus(ValueSum(a, device, lo, hi), delta) else ValueSum(a, device, lo, hi)
    decreases hi - lo
  {
    hide Value;
    if lo < hi {
      ValueSumDiffers(a, b, device, at, delta, lo, hi - 1);
      assert Value(b, device, hi - 1) ==
             if hi - 1 == at then Plus(Value(a, device, hi - 1), delta) else Value(a, device, hi - 1);
    }
  }

  /** What one event adds to a device's bytes in [lo, hi). */
  function AcceptedIn(a: Accounts, e: Event, device: nat, lo: int, hi: int): Bytes {
    if e.Sample? && lo <= MinuteOf(e.time) < hi then AcceptedFor(a, e, device) else ZERO
  }

  /** The bytes accepted for a device over a run for minutes in [lo, hi). */
  function TotalAcceptedIn(a: Accounts, events: seq<Event>, device: nat, lo: int, hi: int): Bytes {
    if events == [] then ZERO
    else
      var front := events[..|events| - 1];
      Plus(TotalAcceptedIn(a, front, device, lo, hi),
           AcceptedIn(After(a, front), events[|events| - 1], device, lo, hi))
  }

  lemma StepAddsAccepted(a: Accounts, e: Event, device: nat, lo: int, hi: int)
    ensures ValueSum(Step(a, e), device, lo, hi) == Plus(ValueSum(a, device, lo, hi), AcceptedIn(a, e, device, lo, hi))
  {
    hide MinuteOf, Value, Step, ValueSum, Accepted, Plus;
    var delta := AcceptedFor(a, e, device);
    var at := if e.Sample? then MinuteOf(e.time) else lo;
    forall time
      ensures Value(Step(a, e), device, time) ==
              if time == at then Plus(Value(a, device, time), delta) else Value(a, device, time)
    {
      StepAddsAt(a, e, device, time);
      PlusZero(Value(a, device, time));
      NothingAccepted(a, e, device);
    }
    ValueSumDiffers(a, Step(a, e), device, at, delta, lo, hi);
    NothingAccepted(a, e, device);
    PlusZero(ValueSum(a, device, lo, hi));
  }

  /** No accepted byte is lost: over any run, any span gains exactly the bytes accepted for its minutes. */
  lemma {:induction false} AcceptedBytesAreKept(a: Accounts, events: seq<Event>, device: nat, lo: int, hi: int)
    ensures ValueSum(After(a, events), device, lo, hi) ==
            Plus(ValueSum(a, device, lo, hi), TotalAcceptedIn(a, events, device, lo, hi))
  {
    hide Step, ValueSum, AcceptedIn;
    if events != [] {
      var front, e := events[..|events| - 1], events[|events| - 1];
      AcceptedBytesAreKept(a, front, device, lo, hi);
      StepAddsAccepted(After(a, front), e, device, lo, hi);
    } else {
      PlusZero(ValueSum(a, device, lo, hi));
    }
  }

  /** A span that has all minutes of a device's samples has all bytes accepted for it. */
  lemma {:induction false} WideSpanHasAll(a: Accounts, events: seq<Event>, device: nat, lo: int, hi: int)
    requires forall e | e in events && e.Sample? && e.device == device :: lo <= MinuteOf(e.time) < hi
    ensures TotalAcceptedIn(a, events, device, lo, hi) == TotalAccepted(a, events, device)
  {
    hide MinuteOf, Step, Accepted, Plus;
    if events != [] {
      var front, e := events[..|events| - 1], events[|events| - 1];
      assert e in events && forall x | x in front :: x in events;
      WideSpanHasAll(a, front, device, lo, hi);
      NothingAccepted(After(a, front), e, device);
      PlusZero(TotalAccepted(a, front, device));
    }
  }

  /** In a session without a reset the stored and pending bytes grow exactly as the device's counter does. */
  lemma SessionIsCountedExactly(a: Accounts, events: seq<Event>, device: nat, lo: int, hi: int)
    requires device in a.previous && IsSession(a, events, device)
    requires forall e | e in events && e.Sample? && e.device == device :: lo <= MinuteOf(e.time) < hi
    ensures device in After(a, events).previous
    ensures Plus(ValueSum(After(a, events), device, lo, hi), a.previous[device]) ==
            Plus(ValueSum(a, device, lo, hi), After(a, events).previous[device])
  {
    hide MinuteOf, Step, Accepted, ValueSum, IsSession;
    SessionTelescopes(a, events, device);
    AcceptedBytesAreKept(a, events, device, lo, hi);
    WideSpanHasAll(a, events, device, lo, hi);
  }
}
