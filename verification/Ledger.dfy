/**
 Byte amounts and time-indexed tables. A table maps (device, instant in
 milliseconds) to the bytes counted there; Sum adds a half-open span of time.
 */
module Ledger {

  datatype Bytes = Bytes(down: nat, up: nat)

  const ZERO := Bytes(0, 0)

  function Plus(a: Bytes, b: Bytes): Bytes {
    Bytes(a.down + b.down, a.up + b.up)
  }

  predicate AtMost(a: Bytes, b: Bytes) {
    a.down <= b.down && a.up <= b.up
  }

  datatype Key = Key(device: nat, time: int)

  type Table = map<Key, Bytes>

  function At(t: Table, device: nat, time: int): Bytes {
    if Key(device, time) in t then t[Key(device, time)] else ZERO
  }

  /** All bytes of a device in [lo, hi). */
  function Sum(t: Table, device: nat, lo: int, hi: int): Bytes
    decreases hi - lo
  {
    if hi <= lo then ZERO
    else Plus(Sum(t, device, lo, hi - 1), At(t, device, hi - 1))
  }

  /** Upsert with increment. */
  function Add(t: Table, device: nat, time: int, b: Bytes): Table {
    t[Key(device, time) := Plus(At(t, device, time), b)]
  }

  lemma PlusZero(a: Bytes)
    ensures Plus(a, ZERO) == a && Plus(ZERO, a) == a
  {
  }

  lemma PlusInterchange(a: Bytes, b: Bytes, c: Bytes, d: Bytes)
    ensures Plus(Plus(a, b), Plus(c, d)) == Plus(Plus(a, c), Plus(b, d))
  {
  }

  lemma AtAdd(t: Table, device: nat, time: int, b: Bytes, device': nat, time': int)
    ensures At(Add(t, device, time, b), device', time') ==
            if device' == device && time' == time then Plus(At(t, device, time), b) else At(t, device', time')
  {
  }

  lemma SumStep(t: Table, device: nat, lo: int, hi: int)
    requires lo < hi
    ensures Sum(t, device, lo, hi) == Plus(Sum(t, device, lo, hi - 1), At(t, device, hi - 1))
  {
  }

  lemma SumEmpty(t: Table, device: nat, lo: int, hi: int)
    requires hi <= lo
    ensures Sum(t, device, lo, hi) == ZERO
  {
  }

  lemma {:induction false} SumSplit(t: Table, device: nat, lo: int, mid: int, hi: int)
    requires lo <= mid <= hi
    ensures Sum(t, device, lo, hi) == Plus(Sum(t, device, lo, mid), Sum(t, device, mid, hi))
    decreases hi - mid
  {
    hide Sum;
    if mid < hi {
      SumSplit(t, device, lo, mid, hi - 1);
      SumStep(t, device, lo, hi);
      SumStep(t, device, mid, hi);
    } else {
      SumEmpty(t, device, mid, hi);
    }
  }

  /** Sums depend only on the entries in the span. */
  lemma {:induction false} SumFrame(t: Table, u: Table, device: nat, lo: int, hi: int)
    requires forall time | lo <= time < hi :: At(t, device, time) == At(u, device, time)
    ensures Sum(t, device, lo, hi) == Sum(u, device, lo, hi)
    decreases hi - lo
  {
    hide Sum;
    if lo < hi {
      SumFrame(t, u, device, lo, hi - 1);
      SumStep(t, device, lo, hi);
      SumStep(u, device, lo, hi);
    } else {
      SumEmpty(t, device, lo, hi);
      SumEmpty(u, device, lo, hi);
    }
  }

  lemma {:induction false} SumAtMostZero(t: Table, device: nat, lo: int, hi: int)
    requires forall time | lo <= time < hi :: AtMost(At(t, device, time), ZERO)
    ensures AtMost(Sum(t, device, lo, hi), ZERO)
    decreases hi - lo
  {
    hide Sum;
    if lo < hi {
      SumAtMostZero(t, device, lo, hi - 1);
      SumStep(t, device, lo, hi);
    } else {
      SumEmpty(t, device, lo, hi);
    }
  }

  lemma SumZero(t: Table, device: nat, lo: int, hi: int)
    requires forall time | lo <= time < hi :: At(t, device, time) == ZERO
    ensures Sum(t, device, lo, hi) == ZERO
  {
    hide Sum;
    SumAtMostZero(t, device, lo, hi);
  }

  lemma SumOne(t: Table, device: nat, time: int)
    ensures Sum(t, device, time, time + 1) == At(t, device, time)
  {
    hide Sum;
    SumStep(t, device, time, time + 1);
    SumEmpty(t, device, time, time);
    PlusZero(At(t, device, time));
  }

  /** A span is what comes before an instant, the instant itself, and what comes after. */
  lemma SumAround(t: Table, device: nat, lo: int, time: int, hi: int)
    requires lo <= time < hi
    ensures Sum(t, device, lo, hi) ==
            Plus(Plus(Sum(t, device, lo, time), At(t, device, time)), Sum(t, device, time + 1, hi))
  {
    hide Sum;
    SumSplit(t, device, lo, time + 1, hi);
    SumStep(t, device, lo, time + 1);
  }
}
