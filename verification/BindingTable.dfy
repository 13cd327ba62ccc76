/**
 The rows behind the active bindings: one record per blocked device, no two with the same MAC, and binding
 rows unique on (device, IP, active). Releasing keeps at most one released row
 per (device, IP) as history.
 */
module BindingTable {
  import opened Common
  import opened Observations
  import opened BindingEffects

  datatype Row = Row(device: nat, ip: Ip, active: bool, reason: Option<string>)

  predicate SameKey(a: Row, b: Row) {
    a.device == b.device && a.ip == b.ip && a.active == b.active
  }

  predicate UniqueKeys(rows: seq<Row>) {
    forall i, j | 0 <= i < j < |rows| :: !SameKey(rows[i], rows[j])
  }

  /** The active bindings in row order. */
  function ActiveOf(rows: seq<Row>): seq<Binding> {
    if rows == [] then []
    else
      var front := ActiveOf(rows[..|rows| - 1]);
      var last := rows[|rows| - 1];
      if last.active then front + [Binding(last.device, last.ip)] else front
  }

  lemma {:induction false} ActiveOfMembers(rows: seq<Row>)
    ensures forall b | b in ActiveOf(rows) ::
              exists row :: row in rows && row.active && Binding(row.device, row.ip) == b
    ensures forall row | row in rows && row.active :: Binding(row.device, row.ip) in ActiveOf(rows)
  {
    if rows != [] {
      ActiveOfMembers(rows[..|rows| - 1]);
      assert rows == rows[..|rows| - 1] + [rows[|rows| - 1]];
    }
  }

  lemma {:induction false} ActiveOfConcat(a: seq<Row>, b: seq<Row>)
    ensures ActiveOf(a + b) == ActiveOf(a) + ActiveOf(b)
  {
    if b == [] {
      assert a + b == a;
    } else {
      ActiveOfConcat(a, b[..|b| - 1]);
      assert (a + b)[..|a + b| - 1] == a + b[..|b| - 1];
    }
  }

  lemma {:induction false} WithoutConcat(a: seq<Binding>, b: seq<Binding>, x: Binding)
    ensures Without(a + b, x) == Without(a, x) + Without(b, x)
  {
    if b == [] {
      assert a + b == a;
    } else {
      WithoutConcat(a, b[..|b| - 1], x);
      assert (a + b)[..|a + b| - 1] == a + b[..|b| - 1];
    }
  }

  lemma {:induction false} WithoutAbsent(a: seq<Binding>, x: Binding)
    requires x !in a
    ensures Without(a, x) == a
  {
    if a != [] {
      assert a == a[..|a| - 1] + [a[|a| - 1]];
      WithoutAbsent(a[..|a| - 1], x);
    }
  }

  /** Retiring the active row i, by deletion or by marking it released, removes exactly its binding. */
  lemma RetiringRemovesBinding(rows: seq<Row>, i: nat, replacement: seq<Row>)
    requires UniqueKeys(rows) && i < |rows| && rows[i].active && ActiveOf(replacement) == []
    ensures ActiveOf(rows[..i] + replacement + rows[i + 1..])
            == Without(ActiveOf(rows), Binding(rows[i].device, rows[i].ip))
  {
    var b := Binding(rows[i].device, rows[i].ip);
    var before, after := rows[..i], rows[i + 1..];
    assert rows == before + [rows[i]] + after;
    ActiveOfConcat(before, [rows[i]]);
    ActiveOfConcat(before + [rows[i]], after);
    ActiveOfConcat(before, replacement);
    ActiveOfConcat(before + replacement, after);
    assert [rows[i]][..0] == [];
    assert ActiveOf([rows[i]]) == [b];
    WithoutConcat(ActiveOf(before), [b], b);
    WithoutConcat(ActiveOf(before) + [b], ActiveOf(after), b);
    assert [b][..0] == [];
    assert Without([b], b) == [];
    ActiveOfMembers(before);
    ActiveOfMembers(after);
    assert forall k | 0 <= k < |rows| && k != i :: !SameKey(rows[k], rows[i]);
    assert b !in ActiveOf(before) && b !in ActiveOf(after);
    WithoutAbsent(ActiveOf(before), b);
    WithoutAbsent(ActiveOf(after), b);
  }

  /** Row i is marked released. */
  function Flipped(rows: seq<Row>, i: nat, reason: string): seq<Row>
    requires i < |rows|
  {
    rows[i := rows[i].(active := false, reason := Some(reason))]
  }

  /** Row i is deleted and the released row j of the same key takes over its reason. */
  function Merged(rows: seq<Row>, i: nat, j: nat, reason: string): seq<Row>
    requires i < |rows| && j < |rows|
  {
    var updated := rows[j := rows[j].(reason := Some(reason))];
    updated[..i] + updated[i + 1..]
  }

  /** Row i has been retired: its key's released row carries the reason, other keys keep their rows. */
  ghost predicate IsRetired(rows: seq<Row>, i: nat, reason: string, r: seq<Row>)
    requires i < |rows|
  {
    && UniqueKeys(r)
    && rows[i].(active := false, reason := Some(reason)) in r
    && (forall row | row in rows && (row.device, row.ip) != (rows[i].device, rows[i].ip) :: row in r)
    && (forall row | row in r && row.active :: row in rows)
  }

  lemma OneReleasedRow(row: Row)
    requires !row.active
    ensures ActiveOf([row]) == []
  {
    assert [row][..0] == [];
  }

  lemma FlippedActive(rows: seq<Row>, i: nat, reason: string)
    requires UniqueKeys(rows) && i < |rows| && rows[i].active
    ensures ActiveOf(Flipped(rows, i, reason)) == Without(ActiveOf(rows), Binding(rows[i].device, rows[i].ip))
  {
    hide UniqueKeys, Without;
    var row := rows[i].(active := false, reason := Some(reason));
    OneReleasedRow(row);
    RetiringRemovesBinding(rows, i, [row]);
    assert rows[i := row] == rows[..i] + [row] + rows[i + 1..];
  }

  lemma FlippedRows(rows: seq<Row>, i: nat, reason: string)
    requires UniqueKeys(rows) && i < |rows| && rows[i].active
    requires forall row | row in rows :: !SameKey(row, Row(rows[i].device, rows[i].ip, false, None))
    ensures IsRetired(rows, i, reason, Flipped(rows, i, reason))
  {
    var r := Flipped(rows, i, reason);
    assert forall k | 0 <= k < |rows| :: rows[k] in rows;
    assert r[i] in r;
    forall k | 0 <= k < |rows| && k != i
      ensures rows[k] in r
    {
      assert r[k] == rows[k];
    }
  }

  lemma MergedActive(rows: seq<Row>, i: nat, j: nat, reason: string)
    requires UniqueKeys(rows) && i < |rows| && j < |rows| && rows[i].active && !rows[j].active
    ensures ActiveOf(Merged(rows, i, j, reason)) == Without(ActiveOf(rows), Binding(rows[i].device, rows[i].ip))
  {
    var updated := rows[j := rows[j].(reason := Some(reason))];
    SameActive(rows, updated);
    assert UniqueKeys(updated);
    RetiringRemovesBinding(updated, i, []);
    assert updated[..i] + [] == updated[..i];
  }

  lemma RemovalKeepsUnique(rows: seq<Row>, i: nat)
    requires UniqueKeys(rows) && i < |rows|
    ensures UniqueKeys(rows[..i] + rows[i + 1..])
    ensures forall k | 0 <= k < |rows| && k != i :: rows[k] in rows[..i] + rows[i + 1..]
  {
    hide SameKey;
    var r := rows[..i] + rows[i + 1..];
    assert forall k | 0 <= k < |r| :: r[k] == rows[if k < i then k else k + 1];
    forall k | 0 <= k < |rows| && k != i
      ensures rows[k] in r
    {
      assert r[if k < i then k else k - 1] == rows[k];
    }
  }

  lemma MergedRows(rows: seq<Row>, i: nat, j: nat, reason: string)
    requires UniqueKeys(rows) && i < |rows| && j < |rows| && rows[i].active
    requires SameKey(rows[j], Row(rows[i].device, rows[i].ip, false, None))
    ensures IsRetired(rows, i, reason, Merged(rows, i, j, reason))
  {
    var updated := rows[j := rows[j].(reason := Some(reason))];
    assert UniqueKeys(updated);
    RemovalKeepsUnique(updated, i);
    hide UniqueKeys;
    var r := Merged(rows, i, j, reason);
    assert updated[j] in r;
    forall k | 0 <= k < |rows| && k != i && k != j
      ensures rows[k] in r
    {
      assert updated[k] == rows[k];
    }
    assert forall row | row in r && row.active :: row in rows;
  }

  /** Upserting the binding row: an existing active row keeps its place. */
  function Upserted(rows: seq<Row>, existing: Option<nat>, device: nat, ip: Ip): seq<Row>
    requires existing.Some? ==> existing.value < |rows|
  {
    match existing
    case Some(i) => rows[i := rows[i].(reason := None)]
    case None => rows + [Row(device, ip, true, None)]
  }

  lemma UpsertedFacts(rows: seq<Row>, existing: Option<nat>, device: nat, ip: Ip)
    requires UniqueKeys(rows)
    requires existing.Some? ==> existing.value < |rows| && SameKey(rows[existing.value], Row(device, ip, true, None))
    requires existing.None? ==> forall row | row in rows :: !SameKey(row, Row(device, ip, true, None))
    ensures var r := Upserted(rows, existing, device, ip);
            && UniqueKeys(r)
            && (forall row | row in r && row.active :: row.device == device || row in rows)
            && ActiveOf(r) == Apply(Record(device, ip), State({}, ActiveOf(rows))).rows
  {
    var r := Upserted(rows, existing, device, ip);
    ActiveOfMembers(rows);
    match existing {
      case Some(i) =>
        SameActive(rows, r);
        assert rows[i] in rows;
      case None =>
        assert r[..|r| - 1] == rows;
        assert Binding(device, ip) !in ActiveOf(rows) by {
          assert forall row | row in rows && row.active :: !SameKey(row, Row(device, ip, true, None));
        }
    }
  }

  /** A device's block; it holds the device's MAC where the block is on the MAC too. */
  datatype BlockRecord = BlockRecord(mac: Option<Mac>, active: bool, reason: Option<string>)

  /** Another device's record holds the MAC, so the unique index refuses it. */
  predicate IsTaken(records: map<nat, BlockRecord>, device: nat, mac: Option<Mac>) {
    mac.Some? && exists d | d in records :: d != device && records[d].mac == mac
  }

  predicate UniqueMacs(records: map<nat, BlockRecord>) {
    forall d | d in records :: !IsTaken(records, d, records[d].mac)
  }

  /** Every record that holds a MAC holds its own device's. */
  predicate HoldOwnMacs(records: map<nat, BlockRecord>, macOf: map<nat, Mac>) {
    forall d | d in records && records[d].mac.Some? :: d in macOf && records[d].mac.value == macOf[d]
  }

  predicate AreDistinctMacs(macOf: map<nat, Mac>) {
    forall d, e | d in macOf && e in macOf && macOf[d] == macOf[e] :: d == e
  }

  /** While every record holds its own device's MAC, the unique index never refuses a device its own. */
  lemma OwnMacIsNeverTaken(records: map<nat, BlockRecord>, macOf: map<nat, Mac>, device: nat, mac: Option<Mac>)
    requires HoldOwnMacs(records, macOf) && AreDistinctMacs(macOf)
    requires mac.Some? ==> device in macOf && mac.value == macOf[device]
    ensures !IsTaken(records, device, mac)
  {
  }

  lemma KeepsUniqueMacs(records: map<nat, BlockRecord>, device: nat, r: BlockRecord)
    requires UniqueMacs(records) && !IsTaken(records, device, r.mac)
    ensures UniqueMacs(records[device := r])
  {
    var more := records[device := r];
    forall d | d in more
      ensures !IsTaken(more, d, more[d].mac)
    {
      if d != device {
        assert !IsTaken(records, d, records[d].mac);
      }
    }
  }

  class BindingTable {
    var records: map<nat, BlockRecord>
    var rows: seq<Row>

    ghost predicate Valid()
      reads this
    {
      && UniqueKeys(rows) && UniqueMacs(records)
      && forall row | row in rows && row.active :: row.device in records && records[row.device].active
    }

    ghost function Active(): seq<Binding>
      reads this
    {
      ActiveOf(rows)
    }

    constructor ()
      ensures Valid() && Active() == []
    {
      records, rows := map[], [];
    }

    method FindRow(device: nat, ip: Ip, active: bool) returns (found: Option<nat>)
      ensures found.Some? ==> found.value < |rows| && SameKey(rows[found.value], Row(device, ip, active, None))
      ensures found.None? ==> forall row | row in rows :: !SameKey(row, Row(device, ip, active, None))
    {
      for i := 0 to |rows|
        invariant forall k | 0 <= k < i :: !SameKey(rows[k], Row(device, ip, active, None))
      {
        if rows[i].device == device && rows[i].ip == ip && rows[i].active == active {
          return Some(i);
        }
      }
      return None;
    }

    /** The rows that are active and whose record is active: under Valid, all active rows. */
    method ActiveBindings() returns (bindings: seq<Binding>)
      requires Valid()
      ensures bindings == Active()
    {
      bindings := [];
      for i := 0 to |rows|
        invariant bindings == ActiveOf(rows[..i])
      {
        assert rows[..i + 1][..i] == rows[..i];
        if rows[i].active && rows[i].device in records && records[rows[i].device].active {
          bindings := bindings + [Binding(rows[i].device, rows[i].ip)];
        }
      }
      assert rows[..|rows|] == rows;
    }

    /**
     Two statements without a transaction: the record is upserted, unless another device's
     record holds the MAC, then the binding row. Only the first `working` of them succeed;
     stopping before the second leaves the active bindings as they were.
     */
    method RecordBlock(device: nat, mac: Option<Mac>, ip: Ip, reason: Option<string>, working: nat) returns (ok: bool)
      requires Valid()
      modifies this
      ensures Valid()
      ensures ok <==> !IsTaken(old(records), device, mac) && working >= if ip == "" then 1 else 2
      ensures records == if working == 0 || IsTaken(old(records), device, mac) then old(records)
                         else old(records)[device := BlockRecord(mac, true, reason)]
      ensures Active() == if ok && ip != ""
                          then Apply(Record(device, ip), State({}, old(Active()))).rows else old(Active())
      ensures ip == "" || !ok ==> rows == old(rows)
    {
      if working == 0 || IsTaken(records, device, mac) {
        return false;
      }
      KeepsUniqueMacs(records, device, BlockRecord(mac, true, reason));
      records := records[device := BlockRecord(mac, true, reason)];
      if ip == "" {
        return true;
      }
      if working == 1 {
        return false;
      }
      var existing := FindRow(device, ip, true);
      UpsertedFacts(rows, existing, device, ip);
      match existing {
        case Some(i) => rows := rows[i := rows[i].(reason := None)];
        case None => rows := rows + [Row(device, ip, true, None)];
      }
      ok := true;
    }

    /** The loop body shared by both releases: one active row becomes the released row of its key. */
    method Retire(i: nat, reason: string)
      requires UniqueKeys(rows) && i < |rows| && rows[i].active
      modifies `rows
      ensures UniqueKeys(rows)
      ensures Active() == Without(old(Active()), old(Binding(rows[i].device, rows[i].ip)))
      ensures old(rows[i]).(active := false, reason := Some(reason)) in rows
      ensures forall row | row in old(rows) :: (row.device, row.ip) != old((rows[i].device, rows[i].ip)) ==> row in rows
      ensures forall row | row in rows && row.active :: row in old(rows)
    {
      var released := FindRow(rows[i].device, rows[i].ip, false);
      match released {
        case Some(j) =>
          MergedActive(rows, i, j, reason);
          MergedRows(rows, i, j, reason);
          rows := rows[j := rows[j].(reason := Some(reason))];
          rows := rows[..i] + rows[i + 1..];
        case None =>
          FlippedActive(rows, i, reason);
          FlippedRows(rows, i, reason);
          rows := rows[i := rows[i].(active := false, reason := Some(reason))];
      }
    }

    /** Only the given device's binding at this IP is released; its reason is kept as history. */
    method ReleaseIp(device: nat, ip: Ip, reason: string)
      requires Valid()
      modifies this
      ensures Valid()
      ensures Active() == Without(old(Active()), Binding(device, ip))
      ensures Binding(device, ip) in old(Active()) ==> Row(device, ip, false, Some(reason)) in rows
      ensures forall row | row in old(rows) :: (row.device, row.ip) != (device, ip) ==> row in rows
      ensures records == old(records)
    {
      ActiveOfMembers(rows);
      if device !in records {
        assert Binding(device, ip) !in Active();
        WithoutAbsent(Active(), Binding(device, ip));
        return;
      }
      var found := FindRow(device, ip, true);
      match found {
        case Some(i) =>
          Retire(i, reason);
        case None =>
          assert Binding(device, ip) !in Active();
          WithoutAbsent(Active(), Binding(device, ip));
      }
    }

    /** An explicit unblock ends every binding of the device and no other. */
    method ReleaseBlock(device: nat)
      requires Valid()
      modifies this
      ensures Valid()
      ensures forall b :: b in Active() <==> b in old(Active()) && b.device != device
      ensures records == if device in old(records)
                         then old(records)[device := old(records)[device].(active := false)] else old(records)
    {
      ActiveOfMembers(rows);
      if device !in records {
        return;
      }
      ghost var was := Active();
      KeepsUniqueMacs(records, device, records[device].(active := false));
      records := records[device := records[device].(active := false)];
      ghost var left := set row | row in rows && row.active && row.device == device;
      var more := true;
      while more
        invariant UniqueKeys(rows)
        invariant left == set row | row in rows && row.active && row.device == device
        invariant forall b | b in Active() :: b in was
        invariant forall b | b in was && b.device != device :: b in Active()
        invariant forall row | row in rows && row.active && row.device != device ::
                    row.device in records && records[row.device].active
        invariant !more ==> forall row | row in rows && row.active :: row.device != device
        invariant records == old(records)[device := old(records)[device].(active := false)]
        decreases left, more
      {
        var i := 0;
        while i < |rows| && !(rows[i].active && rows[i].device == device)
          invariant 0 <= i <= |rows|
          invariant forall k | 0 <= k < i :: !(rows[k].active && rows[k].device == device)
        {
          i := i + 1;
        }
        if i < |rows| {
          ghost var gone := rows[i];
          assert gone in rows && gone in left;
          Retire(i, "explicit_unblock");
          ActiveOfMembers(rows);
          assert gone !in rows;
          left := set row | row in rows && row.active && row.device == device;
        } else {
          more := false;
        }
      }
      ActiveOfMembers(rows);
    }
  }

  /** Changing the reason of rows that are not active changes no active binding. */
  lemma {:induction false} SameActive(a: seq<Row>, b: seq<Row>)
    requires |a| == |b|
    requires forall i | 0 <= i < |a| :: SameKey(a[i], b[i])
    ensures ActiveOf(a) == ActiveOf(b)
  {
    if a != [] {
      SameActive(a[..|a| - 1], b[..|b| - 1]);
    }
  }
}
