/**
 The kernel's block sets and the VPN set that mirrors one of them. Operations hold
 the mutation lock, so each runs alone; a command may fail in the middle of one.
 */
module NftEnforcer {
  import opened Common
  import opened DottedQuad
  import opened MacAddress

  // ----- What each operation does when no command fails -----

  datatype Sets = Sets(macs: set<string>, ips: set<string>, vpnIps: set<string>, guard: bool)

  datatype Operation =
    | EnsureFirewallState
    | SetGuard(enabled: bool)
    | BlockIp(ip: string)
    | UnblockIp(ip: string)
    | BlockDevice(mac: string, at: Option<string>)
    | UnblockDevice(mac: string, at: Option<string>)

  predicate IsIp(s: string) {
    IpToNumber(s).Some?
  }

  /** No address, or the empty one, asks for no address at all. */
  function Asked(at: Option<string>): set<string> {
    if at.Some? && at.value != "" then {at.value} else {}
  }

  /** The addresses an operation is given must be well formed. */
  predicate IsWellFormed(op: Operation) {
    match op
    case EnsureFirewallState => true
    case SetGuard(_) => true
    case BlockIp(ip) => IsIp(ip)
    case UnblockIp(ip) => IsIp(ip)
    case BlockDevice(mac, at) => IsMac(mac) && forall ip | ip in Asked(at) :: IsIp(ip)
    case UnblockDevice(mac, at) => IsMac(mac) && forall ip | ip in Asked(at) :: IsIp(ip)
  }

  function Blocked(s: Sets, ips: set<string>): Sets {
    s.(ips := s.ips + ips, vpnIps := if s.guard then s.vpnIps + ips else s.vpnIps)
  }

  function Unblocked(s: Sets, ips: set<string>): Sets {
    s.(ips := s.ips - ips, vpnIps := s.vpnIps - ips)
  }

  /** What a well-formed operation does. */
  function Applied(s: Sets, op: Operation): Sets {
    match op
    case EnsureFirewallState => s.(vpnIps := {}, guard := false)
    case SetGuard(enabled) =>
      if enabled then s.(vpnIps := s.vpnIps + s.ips, guard := true) else s.(vpnIps := {}, guard := false)
    case BlockIp(ip) => Blocked(s, {ip})
    case UnblockIp(ip) => Unblocked(s, {ip})
    case BlockDevice(mac, at) => Blocked(s.(macs := s.macs + {mac}), Asked(at))
    case UnblockDevice(mac, at) => Unblocked(s.(macs := s.macs - {mac}), Asked(at))
  }

  /**
   A rejected operation changes nothing, except that a device's MAC is handled before its
   address is looked at.
   */
  function Rejected(s: Sets, op: Operation): Sets {
    match op
    case BlockDevice(mac, _) => if IsMac(mac) then s.(macs := s.macs + {mac}) else s
    case UnblockDevice(mac, _) => if IsMac(mac) then s.(macs := s.macs - {mac}) else s
    case _ => s
  }

  function Performed(s: Sets, op: Operation): Sets {
    if IsWellFormed(op) then Applied(s, op) else Rejected(s, op)
  }

  // ----- The mirror -----

  /** The VPN set equals the blocked set while the guard is on and is empty while it is off. */
  predicate IsMirrored(s: Sets) {
    s.vpnIps == if s.guard then s.ips else {}
  }

  /** Operations in the order of the lock, well formed or not, none of whose commands fails. */
  function Run(s: Sets, ops: seq<Operation>): Sets {
    if ops == [] then s else Performed(Run(s, ops[..|ops| - 1]), ops[|ops| - 1])
  }

  /** Whatever the sets were, after the firewall state is ensured the mirror holds at every later lock release. */
  lemma {:induction false} MirrorHoldsOnRuns(s: Sets, ops: seq<Operation>)
    ensures IsMirrored(Run(Performed(s, EnsureFirewallState), ops))
  {
    hide IsMac, IsIp;
    if ops != [] {
      MirrorHoldsOnRuns(s, ops[..|ops| - 1]);
    }
  }

  /** The text is an IPv4 address. */
  ghost predicate IsIpText(ip: string) {
    exists n :: IsAddress(ip, n)
  }

  /** The operation blocks the address: the address is one, and a device's MAC is one too. */
  ghost predicate Blocks(op: Operation, ip: string) {
    && IsIpText(ip)
    && (op == BlockIp(ip) || (op.BlockDevice? && op.at == Some(ip) && IsMacText(op.mac)))
  }

  ghost predicate Unblocks(op: Operation, ip: string) {
    && IsIpText(ip)
    && (op == UnblockIp(ip) || (op.UnblockDevice? && op.at == Some(ip) && IsMacText(op.mac)))
  }

  lemma IpByText(ip: string)
    ensures IsIp(ip) <==> IsIpText(ip)
    ensures IsIp(ip) ==> ip != ""
  {
    hide IpToNumber;
    if IsIp(ip) {
      AddressByText(ip, IpToNumber(ip).value);
      AddressIsLong(ip, IpToNumber(ip).value);
    }
    hide IsAddress;
    if n :| IsAddress(ip, n) {
      AddressByText(ip, n);
    }
  }

  lemma AddressIsLong(ip: string, n: int)
    requires IsAddress(ip, n)
    ensures ip != ""
  {
    hide IsDecimal;
    var a, b, c, d, v, w, x, y :| AreOctetsOf(a, b, c, d, v, w, x, y, ip, n);
    assert |ip| == |a| + 1 + |b| + 1 + |c| + 1 + |d|;
  }

  /** Exactly the accepted operations block or unblock. */
  lemma AcceptedByText(op: Operation, ip: string)
    ensures Blocks(op, ip) <==>
              IsWellFormed(op) && (op == BlockIp(ip) || (op.BlockDevice? && ip in Asked(op.at)))
    ensures Unblocks(op, ip) <==>
              IsWellFormed(op) && (op == UnblockIp(ip) || (op.UnblockDevice? && ip in Asked(op.at)))
  {
    IpByText(ip);
    if op.BlockDevice? || op.UnblockDevice? {
      MacByText(op.mac);
    }
    hide IsIp, IsMac, IsIpText, IsMacText;
    assert forall x | x in Asked(Some(ip)) :: x == ip;
  }

  /** Whether the last accepted operation about the address blocked it, or it was blocked before and there was none. */
  ghost function LastWord(before: bool, ops: seq<Operation>, ip: string): bool {
    if ops == [] then before
    else if Blocks(ops[|ops| - 1], ip) then true
    else if Unblocks(ops[|ops| - 1], ip) then false
    else LastWord(before, ops[..|ops| - 1], ip)
  }

  /** The same for a MAC: an operation with a well-formed MAC counts even when its address is bad. */
  ghost function LastWordOnMac(before: bool, ops: seq<Operation>, mac: string): bool {
    if ops == [] then before
    else
      var op := ops[|ops| - 1];
      if op.BlockDevice? && op.mac == mac && IsMacText(mac) then true
      else if op.UnblockDevice? && op.mac == mac && IsMacText(mac) then false
      else LastWordOnMac(before, ops[..|ops| - 1], mac)
  }

  /** What the guard was last told; ensuring the firewall state turns it off. */
  function LastGuard(ops: seq<Operation>): bool {
    if ops == [] then false
    else
      match ops[|ops| - 1]
      case SetGuard(enabled) => enabled
      case EnsureFirewallState => false
      case _ => LastGuard(ops[..|ops| - 1])
  }

  lemma {:induction false} GuardIsAsTold(s: Sets, ops: seq<Operation>)
    ensures Run(Performed(s, EnsureFirewallState), ops).guard <==> LastGuard(ops)
  {
    hide IsMac, IsIp;
    if ops != [] {
      GuardIsAsTold(s, ops[..|ops| - 1]);
    }
  }

  /**
   An address is blocked exactly when the last accepted word on it was a block, and is
   dropped on the VPN path too exactly while the guard is on, as it was last told.
   */
  lemma {:induction false} LastWordDecides(s: Sets, ops: seq<Operation>, ip: string)
    ensures var r := Run(Performed(s, EnsureFirewallState), ops);
            && (ip in r.ips <==> LastWord(ip in s.ips, ops, ip))
            && (ip in r.vpnIps <==> LastGuard(ops) && LastWord(ip in s.ips, ops, ip))
  {
    hide IsMac, IsIp, Blocks, Unblocks, LastGuard;
    MirrorHoldsOnRuns(s, ops);
    GuardIsAsTold(s, ops);
    if ops != [] {
      LastWordDecides(s, ops[..|ops| - 1], ip);
      AcceptedByText(ops[|ops| - 1], ip);
    }
  }

  lemma {:induction false} LastWordOnMacDecides(s: Sets, ops: seq<Operation>, mac: string)
    ensures mac in Run(s, ops).macs <==> LastWordOnMac(mac in s.macs, ops, mac)
  {
    hide IsIp, IsMac, IsMacText;
    MacByText(mac);
    if ops != [] {
      LastWordOnMacDecides(s, ops[..|ops| - 1], mac);
    }
  }

  /** A bad MAC blocks nothing; a good one with a bad address blocks the MAC alone. */
  lemma RejectionsAreNoBlocks(s: Sets, mac: string, ip: string)
    ensures !IsMacText(mac) ==> Performed(s, BlockDevice(mac, Some(ip))) == s
    ensures IsMacText(mac) && ip != "" && !IsIpText(ip) ==>
              Performed(s, BlockDevice(mac, Some(ip))) == s.(macs := s.macs + {mac})
    ensures !IsIpText(ip) ==> Performed(s, BlockIp(ip)) == s
  {
    MacByText(mac);
    IpByText(ip);
    hide IsMac, IsIp, IsMacText, IsIpText;
    assert ip in Asked(Some(ip)) || ip == "";
  }

  // ----- Faults -----

  /** The address was blocked or unblocked in the blocked set only, or not even there. */
  predicate IsHalfBlocked(s: Sets, ips: set<string>, r: Sets) {
    r == s || (s.guard && r == s.(ips := s.ips + ips))
  }

  predicate IsHalfUnblocked(s: Sets, ips: set<string>, r: Sets) {
    r == s || r == s.(ips := s.ips - ips)
  }

  /** What a well-formed operation may leave behind when one of its commands fails. */
  ghost predicate MayLeave(s: Sets, op: Operation, r: Sets) {
    match op
    case EnsureFirewallState => r == s.(vpnIps := r.vpnIps) && r.vpnIps <= s.vpnIps
    case SetGuard(enabled) =>
      && r == s.(vpnIps := r.vpnIps)
      && if enabled then s.vpnIps <= r.vpnIps <= s.vpnIps + s.ips else r.vpnIps <= s.vpnIps
    case BlockIp(ip) => IsHalfBlocked(s, {ip}, r)
    case UnblockIp(ip) => IsHalfUnblocked(s, {ip}, r)
    case BlockDevice(mac, at) => r == s || IsHalfBlocked(s.(macs := s.macs + {mac}), Asked(at), r)
    case UnblockDevice(mac, at) => r == s || IsHalfUnblocked(s.(macs := s.macs - {mac}), Asked(at), r)
  }

  /** Turning the guard off mends any state; turning it on mends it exactly when the VPN set has no stale address. */
  lemma WhatMendsTheMirror(s: Sets)
    ensures IsMirrored(Performed(s, SetGuard(false))) && IsMirrored(Performed(s, EnsureFirewallState))
    ensures IsMirrored(Performed(s, SetGuard(true))) <==> s.vpnIps <= s.ips
  {
    var on := Performed(s, SetGuard(true));
    if s.vpnIps <= s.ips {
      assert on.vpnIps == on.ips;
    } else {
      var ip :| ip in s.vpnIps && ip !in s.ips;
      assert ip in on.vpnIps;
    }
  }

  /** A failed unblock of a mirrored address leaves it stale in the VPN set; turning the guard on does not help. */
  lemma FailedUnblockLeavesStale(s: Sets, ip: string) returns (r: Sets)
    requires IsMirrored(s) && s.guard && ip in s.ips
    ensures MayLeave(s, UnblockIp(ip), r) && !(r.vpnIps <= r.ips)
    ensures !IsMirrored(Performed(r, SetGuard(true)))
  {
    r := s.(ips := s.ips - {ip});
    assert ip in r.vpnIps && ip !in r.ips;
    WhatMendsTheMirror(r);
  }

  /** An operation of a run whose commands may fail: what it found and what it left. */
  datatype Attempt = Attempt(op: Operation, before: Sets, after: Sets)

  ghost predicate IsAttempt(a: Attempt) {
    a.after == Performed(a.before, a.op) || (IsWellFormed(a.op) && MayLeave(a.before, a.op, a.after))
           || (!IsWellFormed(a.op) && a.after == a.before)
  }

  /** The state that attempt i finds. */
  function Found(start: Sets, attempts: seq<Attempt>, i: nat): Sets
    requires i < |attempts|
  {
    if i == 0 then start else attempts[i - 1].after
  }

  ghost predicate IsHistory(start: Sets, attempts: seq<Attempt>) {
    forall i | 0 <= i < |attempts| :: IsAttempt(attempts[i]) && attempts[i].before == Found(start, attempts, i)
  }

  /** An unblock that took the address out of the blocked set and then failed. */
  predicate IsInterruptedUnblock(a: Attempt) {
    && (a.op.UnblockIp? || a.op.UnblockDevice?)
    && a.after.ips != a.before.ips && a.after != Performed(a.before, a.op)
  }

  /**
   In every run with any failures in which no unblock was interrupted half-way, nothing
   stale is ever in the VPN set, so turning the guard on always mends the mirror.
   */
  lemma {:induction false} GuardMendsUnlessUnblockInterrupted(start: Sets, attempts: seq<Attempt>, i: nat)
    requires IsHistory(start, attempts) && start.vpnIps <= start.ips && i < |attempts|
    requires forall k | 0 <= k < |attempts| :: !IsInterruptedUnblock(attempts[k])
    ensures attempts[i].after.vpnIps <= attempts[i].after.ips
    ensures IsMirrored(Performed(attempts[i].after, SetGuard(true)))
  {
    hide IsAttempt, Performed, IsInterruptedUnblock, IsMirrored;
    if i > 0 {
      GuardMendsUnlessUnblockInterrupted(start, attempts, i - 1);
    }
    assert attempts[i].before == Found(start, attempts, i);
    AttemptLeavesNothingStale(attempts[i]);
    WhatMendsTheMirror(attempts[i].after);
  }

  /** And an interrupted one does leave its address there, if the mirror held while the guard was on. */
  lemma InterruptedUnblockLeavesStale(a: Attempt)
    requires IsAttempt(a) && IsInterruptedUnblock(a) && a.before.guard && IsMirrored(a.before)
    ensures !(a.after.vpnIps <= a.after.ips) && !IsMirrored(Performed(a.after, SetGuard(true)))
  {
    hide IsMac, IsIp;
    var ip :| ip in a.before.ips && ip !in a.after.ips;
    assert ip in a.after.vpnIps;
    WhatMendsTheMirror(a.after);
  }

  lemma AttemptLeavesNothingStale(a: Attempt)
    requires IsAttempt(a) && !IsInterruptedUnblock(a) && a.before.vpnIps <= a.before.ips
    ensures a.after.vpnIps <= a.after.ips
  {
    hide IsMac, IsIp;
  }

  // ----- The enforcer -----

  class Enforcer {
    var macs: set<string>
    var ips: set<string>
    var vpnIps: set<string>
    var guard: bool
    /** Commands that failed, other than for an element that is there or gone already. */
    ghost var faults: nat

    constructor ()
      ensures !guard && faults == 0
    {
      macs, ips, vpnIps, guard, faults := {}, {}, {}, false, 0;
    }

    function State(): Sets
      reads this
    {
      Sets(macs, ips, vpnIps, guard)
    }

    /** A command that touches no set. */
    method Execute() returns (ok: bool)
      modifies this`faults
      ensures old(faults) <= faults && (ok <==> faults == old(faults))
    {
      ok := *;
      if !ok {
        faults := faults + 1;
      }
    }

    /** Adding an element that is there already is no error. */
    method AddIp(ip: string) returns (ok: bool)
      modifies this`ips, this`faults
      ensures ips == if ok then old(ips) + {ip} else old(ips)
      ensures old(faults) <= faults && (ok <==> faults == old(faults))
    {
      ok := Execute();
      if ok {
        ips := ips + {ip};
      }
    }

    method AddVpnIp(ip: string) returns (ok: bool)
      modifies this`vpnIps, this`faults
      ensures vpnIps == if ok then old(vpnIps) + {ip} else old(vpnIps)
      ensures old(faults) <= faults && (ok <==> faults == old(faults))
    {
      ok := Execute();
      if !ok {
        return;
      }
      ok := Execute();
      if ok {
        vpnIps := vpnIps + {ip};
      }
    }

    /** Deleting an element that is gone already is no error. */
    method DeleteIp(ip: string) returns (ok: bool)
      modifies this`ips, this`faults
      ensures ips == if ok then old(ips) - {ip} else old(ips)
      ensures old(faults) <= faults && (ok <==> faults == old(faults))
    {
      ok := Execute();
      if ok {
        ips := ips - {ip};
      }
    }

    method DeleteVpnIp(ip: string) returns (ok: bool)
      modifies this`vpnIps, this`faults
      ensures vpnIps == if ok then old(vpnIps) - {ip} else old(vpnIps)
      ensures old(faults) <= faults && (ok <==> faults == old(faults))
    {
      ok := Execute();
      if !ok {
        return;
      }
      ok := Execute();
      if ok {
        vpnIps := vpnIps - {ip};
      }
    }

    method ClearVpnIps() returns (ok: bool)
      modifies this`vpnIps, this`faults
      ensures vpnIps <= old(vpnIps) && (ok ==> vpnIps == {})
      ensures old(faults) <= faults && (ok <==> faults == old(faults))
    {
      ok := Execute();
      if !ok {
        return;
      }
      ok := Execute();
      if !ok {
        return;
      }
      var left := vpnIps;
      while left != {}
        invariant left <= vpnIps <= old(vpnIps) && vpnIps <= left && faults == old(faults)
        decreases left
      {
        var ip :| ip in left;
        ok := DeleteVpnIp(ip);
        if !ok {
          return;
        }
        left := left - {ip};
      }
      ok := true;
    }

    method SetVpnBlockedIpGuardEnabled(enabled: bool) returns (ok: bool)
      modifies this
      ensures old(faults) <= faults && (ok <==> faults == old(faults))
      ensures ok ==> State() == Performed(old(State()), SetGuard(enabled))
      ensures !ok ==> MayLeave(old(State()), SetGuard(enabled), State())
    {
      ok := Execute();
      if !ok {
        return;
      }
      if !enabled {
        ok := ClearVpnIps();
        if ok {
          guard := false;
        }
        return;
      }
      ok := Execute();
      if !ok {
        return;
      }
      ok := SyncBlockedIps();
      if ok {
        guard := true;
      }
    }

    method SyncBlockedIps() returns (ok: bool)
      modifies this`vpnIps, this`faults
      ensures ok ==> vpnIps == old(vpnIps) + ips
      ensures old(vpnIps) <= vpnIps <= old(vpnIps) + ips
      ensures old(faults) <= faults && (ok <==> faults == old(faults))
    {
      var left := ips;
      while left != {}
        invariant left <= ips && vpnIps == old(vpnIps) + (ips - left) && faults == old(faults)
        decreases left
      {
        var ip :| ip in left;
        ok := AddVpnIp(ip);
        if !ok {
          return;
        }
        left := left - {ip};
      }
      ok := true;
    }

    method EnsureFirewall() returns (ok: bool)
      modifies this
      ensures old(faults) <= faults && (ok <==> faults == old(faults))
      ensures ok ==> State() == Performed(old(State()), EnsureFirewallState)
      ensures !ok ==> MayLeave(old(State()), EnsureFirewallState, State())
    {
      ok := Execute();
      if !ok {
        return;
      }
      ok := ClearVpnIps();
      if ok {
        guard := false;
      }
    }

    /** The blocked set first and the VPN set second, whatever fails in between. */
    method BlockIpUnlocked(ip: string) returns (ok: bool)
      modifies this
      ensures old(faults) <= faults && (ok <==> faults == old(faults) && IsIp(ip))
      ensures faults == old(faults) ==> State() == Performed(old(State()), BlockIp(ip))
      ensures !ok ==> if IsIp(ip) then IsHalfBlocked(old(State()), {ip}, State()) else State() == old(State())
    {
      hide IsIp;
      if !IsIp(ip) {
        return false;
      }
      ok := Execute();
      if !ok {
        return;
      }
      ok := AddIp(ip);
      if ok && guard {
        ok := AddVpnIp(ip);
      }
    }

    /** The blocked set first here as well: after a failure the VPN set may still hold the address. */
    method UnblockIpUnlocked(ip: string) returns (ok: bool)
      modifies this
      ensures old(faults) <= faults && (ok <==> faults == old(faults) && IsIp(ip))
      ensures faults == old(faults) ==> State() == Performed(old(State()), UnblockIp(ip))
      ensures !ok ==> if IsIp(ip) then IsHalfUnblocked(old(State()), {ip}, State()) else State() == old(State())
    {
      hide IsIp;
      if !IsIp(ip) {
        return false;
      }
      ok := DeleteIp(ip);
      if ok {
        ok := DeleteVpnIp(ip);
      }
    }

    /** An address that is not well formed fails only after the MAC was added. */
    method BlockDeviceLocked(mac: string, at: Option<string>) returns (ok: bool)
      modifies this
      ensures old(faults) <= faults && (ok <==> faults == old(faults) && IsWellFormed(BlockDevice(mac, at)))
      ensures faults == old(faults) ==> State() == Performed(old(State()), BlockDevice(mac, at))
      ensures IsAttempt(Attempt(BlockDevice(mac, at), old(State()), State()))
    {
      hide IsIp, IsMac;
      if !IsMac(mac) {
        return false;
      }
      ok := Execute();
      if !ok {
        return;
      }
      ok := Execute();
      if !ok {
        return;
      }
      macs := macs + {mac};
      if at.Some? && at.value != "" {
        assert Asked(at) == {at.value};
        ok := BlockIpUnlocked(at.value);
      }
    }

    method UnblockDeviceLocked(mac: string, at: Option<string>) returns (ok: bool)
      modifies this
      ensures old(faults) <= faults && (ok <==> faults == old(faults) && IsWellFormed(UnblockDevice(mac, at)))
      ensures faults == old(faults) ==> State() == Performed(old(State()), UnblockDevice(mac, at))
      ensures IsAttempt(Attempt(UnblockDevice(mac, at), old(State()), State()))
    {
      hide IsIp, IsMac;
      if !IsMac(mac) {
        return false;
      }
      ok := Execute();
      if !ok {
        return;
      }
      macs := macs - {mac};
      if at.Some? && at.value != "" {
        assert Asked(at) == {at.value};
        ok := UnblockIpUnlocked(at.value);
      }
    }
  }
}
