/**
 What the two blocked-IP passes do to the world, one external call at a time:
 kernel calls on the blocked set and repository calls on the active bindings.
 A call either happens completely or not at all.
 */
module BindingEffects {
  import opened Common
  import opened Observations

  /** An active row: this device is blocked at this IP. */
  datatype Binding = Binding(device: nat, ip: Ip)

  datatype State = State(kernel: set<Ip>, rows: seq<Binding>)

  datatype Effect =
    | Block(ip: Ip)
    | Unblock(ip: Ip)
    | Record(device: nat, ip: Ip)
    | Release(device: nat, ip: Ip)

  function Without(rows: seq<Binding>, b: Binding): (r: seq<Binding>)
    ensures forall x :: x in r <==> x in rows && x != b
  {
    if rows == [] then []
    else
      var front := Without(rows[..|rows| - 1], b);
      if rows[|rows| - 1] == b then front else front + [rows[|rows| - 1]]
  }

  function Apply(e: Effect, st: State): State {
    match e
    case Block(ip) => st.(kernel := st.kernel + {ip})
    case Unblock(ip) => st.(kernel := st.kernel - {ip})
    case Record(device, ip) =>
      if Binding(device, ip) in st.rows then st
      else st.(rows := st.rows + [Binding(device, ip)])
    case Release(device, ip) => st.(rows := Without(st.rows, Binding(device, ip)))
  }

  function Replay(effects: seq<Effect>, st: State): State {
    if effects == [] then st
    else Apply(effects[|effects| - 1], Replay(effects[..|effects| - 1], st))
  }

  lemma {:induction false} ReplayConcat(a: seq<Effect>, b: seq<Effect>, st: State)
    ensures Replay(a + b, st) == Replay(b, Replay(a, st))
  {
    if b == [] {
      assert a + b == a;
    } else {
      ReplayConcat(a, b[..|b| - 1], st);
      assert (a + b)[..|a + b| - 1] == a + b[..|b| - 1];
    }
  }

  predicate IsBound(rows: seq<Binding>, ip: Ip) {
    exists b | b in rows :: b.ip == ip
  }

  /** The binding a pass sees at an IP: building a Map from the rows keeps the last one. */
  function LastAt(rows: seq<Binding>, ip: Ip): Option<Binding> {
    if rows == [] then None
    else if rows[|rows| - 1].ip == ip then Some(rows[|rows| - 1])
    else LastAt(rows[..|rows| - 1], ip)
  }

  lemma {:induction false} LastAtIsMember(rows: seq<Binding>, ip: Ip)
    ensures LastAt(rows, ip).Some? ==> LastAt(rows, ip).value in rows && LastAt(rows, ip).value.ip == ip
    ensures LastAt(rows, ip).None? ==> !IsBound(rows, ip)
  {
    if rows != [] && rows[|rows| - 1].ip != ip {
      LastAtIsMember(rows[..|rows| - 1], ip);
      assert rows == rows[..|rows| - 1] + [rows[|rows| - 1]];
    }
  }

  /** Effects at one IP do not change which binding is seen at another. */
  lemma {:induction false} LastAtFrame(rows: seq<Binding>, b: Binding, ip: Ip)
    requires b.ip != ip
    ensures LastAt(Without(rows, b), ip) == LastAt(rows, ip)
    ensures LastAt(rows + [b], ip) == LastAt(rows, ip)
  {
    assert (rows + [b])[..|rows|] == rows;
    if rows != [] {
      var front, last := rows[..|rows| - 1], rows[|rows| - 1];
      LastAtFrame(front, b, ip);
      if last != b {
        assert (Without(front, b) + [last])[..|Without(front, b)|] == Without(front, b);
      }
    }
  }

  /** A listing names every element of a set once, in whatever order the kernel prints it. */
  predicate IsListing(listing: seq<Ip>, kernel: set<Ip>) {
    NoDuplicates(listing) && Elements(listing) == kernel
  }
}
