/**
 Read-then-mutate enforcement of one device's limits on an interface, the ingress
 redirects behind upload shaping, and the pruning of stale state.
 */
module TrafficEnforcer {
  import opened Common
  import opened PriorityProbe
  import opened TcKernel

  /** The preferred priority of a class's filter. */
  function FilterPriority(c: ClassId): (base: nat)
    ensures MIN_PRIORITY <= base
  {
    100 + c % 32_000
  }

  function IpHash(ip: Ip): nat {
    if ip == "" then 0 else (IpHash(ip[..|ip| - 1]) * 31 + ip[|ip| - 1] as nat) % 30_000
  }

  function PriorityForIp(ip: Ip): (base: nat)
    ensures MIN_PRIORITY <= base
  {
    100 + IpHash(ip)
  }

  /** The address read as a number to the base of 31, character by character. */
  function BaseThirtyOne(ip: Ip): nat {
    if ip == "" then 0 else 31 * BaseThirtyOne(ip[..|ip| - 1]) + ip[|ip| - 1] as nat
  }

  /** An address prefers a priority by that number's remainder, however long the text. */
  lemma {:induction false} AddressPriority(ip: Ip)
    ensures PriorityForIp(ip) == 100 + BaseThirtyOne(ip) % 30_000
  {
    if ip != "" {
      AddressPriority(ip[..|ip| - 1]);
      RemainderOfStep(BaseThirtyOne(ip[..|ip| - 1]), ip[|ip| - 1] as nat);
    }
  }

  lemma RemainderOfStep(x: nat, c: nat)
    ensures (31 * (x % 30_000) + c) % 30_000 == (31 * x + c) % 30_000
  {
    var q := x / 30_000;
    assert 31 * x + c == 31 * (x % 30_000) + c + 30_000 * (31 * q);
    MultipleDrops(31 * (x % 30_000) + c, 31 * q);
  }

  lemma MultipleDrops(y: int, k: int)
    ensures (y + 30_000 * k) % 30_000 == y % 30_000
  {
  }

  /** Two classes prefer one priority exactly when they differ by a multiple of 32,000; none prefers one past 32,099. */
  lemma ClassPriority(c: ClassId, d: ClassId)
    ensures 100 <= FilterPriority(c) < 32_100
    ensures FilterPriority(c) == FilterPriority(d) <==> (c - d) % 32_000 == 0
    ensures c < 32_000 ==> FilterPriority(c) == 100 + c
  {
  }

  // ----- One interface -----

  /** The priorities that filters of other classes use. */
  function OthersPriorities(filters: map<nat, Filter>, c: ClassId): set<nat> {
    set p | p in filters && filters[p].classId != c
  }

  function OthersOnly(filters: map<nat, Filter>, c: ClassId): map<nat, Filter> {
    map p | p in filters && filters[p].classId != c :: filters[p]
  }

  /** Some priority is not used by another class's filter. */
  predicate HasRoomFor(filters: map<nat, Filter>, c: ClassId) {
    exists p: nat | MIN_PRIORITY <= p <= MAX_PRIORITY :: p !in OthersPriorities(filters, c)
  }

  /** The class's filter is new, at the first priority that no other class uses, and nothing else changed. */
  ghost predicate IsPlacedAt(before: map<nat, Filter>, after: map<nat, Filter>, c: ClassId, ip: Ip, p: nat) {
    && IsFirstFree(FilterPriority(c), OthersPriorities(before, c), p)
    && after == OthersOnly(before, c)[p := Filter(c, Some(ip))]
  }

  method EnsureRootState(iface: TcInterface, uplinkRate: nat) returns (ok: bool)
    requires iface.Valid()
    modifies iface
    ensures iface.Valid()
    ensures ok ==> iface.root && iface.rootRate == Some(ClassRate(uplinkRate, uplinkRate))
    ensures iface.classes == old(iface.classes) && iface.filters == old(iface.filters)
    ensures iface.refused == old(iface.refused)
    ensures old(iface.faults) <= iface.faults
    ensures ok <==> iface.faults == old(iface.faults)
    ensures old(iface.root) ==> iface.root
  {
    ok := iface.Show();
    if !ok {
      return;
    }
    if !iface.root {
      ok := iface.AddRoot();
      if !ok {
        return;
      }
    }
    ok := iface.Show();
    if !ok {
      return;
    }
    if iface.rootRate != Some(ClassRate(uplinkRate, uplinkRate)) {
      ok := iface.SetRootClass(uplinkRate);
    }
  }

  /** The class is created or repaired; every other class keeps its rate, and no class disappears. */
  method EnsureDeviceClass(iface: TcInterface, c: ClassId, rate: nat) returns (ok: bool)
    requires iface.Valid()
    modifies iface
    ensures iface.Valid()
    ensures ok ==> HasClass(iface.classes, c, rate)
    ensures iface.classes - {c} == old(iface.classes) - {c}
    ensures c in old(iface.classes) ==> c in iface.classes
    ensures HasClass(old(iface.classes), c, rate) ==> iface.classes == old(iface.classes)
    ensures iface.filters == old(iface.filters) && iface.refused == old(iface.refused)
    ensures old(iface.faults) <= iface.faults
    ensures ok <==> iface.faults == old(iface.faults) && old(iface.root)
    ensures iface.root == old(iface.root)
  {
    ok := iface.Show();
    if !ok {
      return;
    }
    var state := if c in iface.classes then Some(iface.classes[c]) else None;
    if state.None? {
      ok := iface.AddClass(c, rate);
      if !ok {
        return;
      }
    }
    if state != Some(ClassRate(rate, rate)) {
      ok := iface.ChangeClass(c, rate);
    }
  }

  /** The class's one filter is at the wanted IP; filters of other classes are untouched. */
  method EnsureFilter(iface: TcInterface, ip: Ip, c: ClassId) returns (ok: bool)
    requires iface.Valid() && OnePerClass(iface.filters)
    modifies iface
    ensures iface.Valid() && OnePerClass(iface.filters)
    ensures ok ==> HasFilter(iface.filters, c, ip)
    ensures HasFilter(old(iface.filters), c, ip) ==> iface.filters == old(iface.filters)
    ensures SameForOthers(old(iface.filters), iface.filters, c)
    ensures iface.classes == old(iface.classes) && iface.refused == old(iface.refused)
    ensures old(iface.faults) <= iface.faults
    ensures ok <==> iface.faults == old(iface.faults)
                    && (HasFilter(old(iface.filters), c, ip) || (old(iface.root) && HasRoomFor(old(iface.filters), c)))
    ensures ok && !HasFilter(old(iface.filters), c, ip) ==>
              exists p :: IsPlacedAt(old(iface.filters), iface.filters, c, ip, p)
    ensures |iface.filters.Keys| <= |old(iface.filters.Keys)| + 1
    ensures iface.root == old(iface.root)
  {
    ok := iface.Show();
    if !ok {
      return;
    }
    var state := CurrentFilter(iface.filters, c);
    if state.Some? && iface.filters[state.value].ip == Some(ip) {
      return;
    }
    assert !HasFilter(iface.filters, c, ip);
    var used := iface.filters.Keys - (if state.Some? then {state.value} else {});
    assert used == OthersPriorities(iface.filters, c);
    var priority := FindAvailable(FilterPriority(c), used);
    if priority.None? {
      return false;
    }
    ok := MoveFilter(iface, state, priority.value, c, ip);
  }

  /** The old filter goes before the new one comes; a fault in between leaves the class without one. */
  method MoveFilter(iface: TcInterface, current: Option<nat>, priority: nat, c: ClassId, ip: Ip) returns (ok: bool)
    requires iface.Valid() && OnePerClass(iface.filters)
    requires match current
             case Some(p) => p in iface.filters && iface.filters[p].classId == c
             case None => !IsReferenced(iface.filters, c)
    requires IsFirstFree(FilterPriority(c), OthersPriorities(iface.filters, c), priority)
    modifies iface
    ensures iface.Valid() && OnePerClass(iface.filters)
    ensures ok ==> IsPlacedAt(old(iface.filters), iface.filters, c, ip, priority) && HasFilter(iface.filters, c, ip)
    ensures SameForOthers(old(iface.filters), iface.filters, c)
    ensures iface.classes == old(iface.classes) && iface.refused == old(iface.refused) && iface.root == old(iface.root)
    ensures old(iface.faults) <= iface.faults
    ensures ok <==> iface.faults == old(iface.faults) && old(iface.root)
    ensures |iface.filters.Keys| <= |old(iface.filters.Keys)| + 1
  {
    hide IsFirstFree, FilterPriority;
    ghost var filters := iface.filters;
    if current.Some? {
      ok := iface.DeleteFilter(current.value);
      if !ok {
        return;
      }
    }
    OthersAreLeft(filters, current, c);
    assert iface.filters == OthersOnly(filters, c);
    AtMostOneMore(filters.Keys, iface.filters.Keys + {priority}, priority);
    SubsetIsSmaller(iface.filters.Keys, iface.filters.Keys + {priority});
    NotPlacedYet(filters, c, priority);
    ok := iface.AddFilter(priority, Filter(c, Some(ip)));
    if ok {
      PlacedKeepsOthers(filters, c, priority, ip);
    }
  }

  lemma NotPlacedYet(filters: map<nat, Filter>, c: ClassId, priority: nat)
    requires IsFirstFree(FilterPriority(c), OthersPriorities(filters, c), priority)
    ensures priority !in OthersOnly(filters, c)
  {
  }

  /** Deleting the class's only filter leaves exactly the others. */
  lemma OthersAreLeft(filters: map<nat, Filter>, current: Option<nat>, c: ClassId)
    requires OnePerClass(filters)
    requires match current
             case Some(p) => p in filters && filters[p].classId == c
             case None => !IsReferenced(filters, c)
    ensures OthersOnly(filters, c) == if current.Some? then filters - {current.value} else filters
    ensures OnePerClass(OthersOnly(filters, c)) && SameForOthers(filters, OthersOnly(filters, c), c)
  {
  }

  lemma PlacedKeepsOthers(filters: map<nat, Filter>, c: ClassId, priority: nat, ip: Ip)
    requires OnePerClass(filters) && priority !in OthersOnly(filters, c)
    ensures var after := OthersOnly(filters, c)[priority := Filter(c, Some(ip))];
            OnePerClass(after) && SameForOthers(filters, after, c) && HasFilter(after, c, ip)
  {
    var after := OthersOnly(filters, c)[priority := Filter(c, Some(ip))];
    assert after[priority] == Filter(c, Some(ip));
  }

  /** A search of the listing for the class's filter. */
  method CurrentFilter(filters: map<nat, Filter>, c: ClassId) returns (r: Option<nat>)
    requires OnePerClass(filters)
    ensures r.Some? ==> r.value in filters && filters[r.value].classId == c
    ensures r.None? ==> !IsReferenced(filters, c)
  {
    var left := filters.Keys;
    while left != {}
      invariant left <= filters.Keys
      invariant forall p | p in filters && p !in left :: filters[p].classId != c
      decreases left
    {
      var p :| p in left;
      if filters[p].classId == c {
        return Some(p);
      }
      left := left - {p};
    }
    return None;
  }

  /** The filter first, then the class, so the kernel never refuses the deletion. */
  method ClearClass(iface: TcInterface, c: ClassId) returns (ok: bool)
    requires iface.Valid() && OnePerClass(iface.filters)
    modifies iface
    ensures iface.Valid() && OnePerClass(iface.filters)
    ensures ok ==> c !in iface.classes && !IsReferenced(iface.filters, c)
    ensures iface.classes - {c} == old(iface.classes) - {c}
    ensures SameForOthers(old(iface.filters), iface.filters, c)
    ensures iface.refused == old(iface.refused)
    ensures old(iface.faults) <= iface.faults
    ensures ok <==> iface.faults == old(iface.faults)
  {
    ok := iface.Show();
    if !ok {
      return;
    }
    var state := CurrentFilter(iface.filters, c);
    if state.Some? {
      ok := iface.DeleteFilter(state.value);
      if !ok {
        return;
      }
    }
    assert !IsReferenced(iface.filters, c);
    ok := iface.Show();
    if !ok {
      return;
    }
    if c in iface.classes {
      ok := iface.DeleteClass(c);
    }
  }

  /** A filter may stay: its class exists and is wanted. */
  predicate MayStay(classes: map<ClassId, ClassRate>, expected: set<ClassId>, f: Filter) {
    f.classId in classes && f.classId in expected
  }

  /**
   Stale filters go first, then stale classes. Whatever fails, an expected class
   and a filter whose existing class is expected are never removed, and the
   kernel is never asked to delete a class that a filter still references.
   */
  method ReconcileInterfaceState(iface: TcInterface, expected: set<ClassId>) returns (ok: bool)
    requires iface.Valid() && OnePerClass(iface.filters)
    modifies iface
    ensures iface.Valid() && OnePerClass(iface.filters)
    ensures iface.refused == old(iface.refused)
    ensures forall c | c in old(iface.classes) && c in expected :: c in iface.classes
    ensures forall c | c in iface.classes :: c in old(iface.classes) && iface.classes[c] == old(iface.classes)[c]
    ensures forall p | p in old(iface.filters) && MayStay(old(iface.classes), expected, old(iface.filters)[p]) ::
              p in iface.filters
    ensures forall p | p in iface.filters :: p in old(iface.filters) && iface.filters[p] == old(iface.filters)[p]
    ensures ok ==> iface.classes.Keys <= expected
    ensures ok ==> forall p | p in iface.filters :: MayStay(old(iface.classes), expected, iface.filters[p])
    ensures old(iface.faults) <= iface.faults
    ensures ok <==> iface.faults == old(iface.faults)
  {
    ok := iface.Show();
    if !ok {
      return;
    }
    var classes := iface.classes;
    ok := iface.Show();
    if !ok {
      return;
    }
    ok := DeleteStaleFilters(iface, classes, expected);
    if !ok {
      return;
    }
    ok := DeleteStaleClasses(iface, classes, expected);
  }

  method DeleteStaleFilters(iface: TcInterface, classes: map<ClassId, ClassRate>, expected: set<ClassId>)
    returns (ok: bool)
    requires iface.Valid()
    modifies iface
    ensures iface.Valid() && iface.classes == old(iface.classes) && iface.refused == old(iface.refused)
    ensures forall p | p in old(iface.filters) && MayStay(classes, expected, old(iface.filters)[p]) ::
              p in iface.filters
    ensures forall p | p in iface.filters :: p in old(iface.filters) && iface.filters[p] == old(iface.filters)[p]
    ensures ok ==> forall p | p in iface.filters :: MayStay(classes, expected, iface.filters[p])
    ensures old(iface.faults) <= iface.faults
    ensures ok <==> iface.faults == old(iface.faults)
  {
    var filters := iface.filters;
    var left := filters.Keys;
    while left != {}
      invariant iface.Valid() && iface.classes == old(iface.classes) && iface.refused == old(iface.refused)
      invariant iface.faults == old(iface.faults)
      invariant left <= iface.filters.Keys <= filters.Keys
      invariant forall p | p in iface.filters :: iface.filters[p] == filters[p]
      invariant forall p | p in filters && MayStay(classes, expected, filters[p]) :: p in iface.filters
      invariant forall p | p in iface.filters && p !in left :: MayStay(classes, expected, filters[p])
      decreases left
    {
      var p :| p in left;
      left := left - {p};
      if !MayStay(classes, expected, filters[p]) {
        ok := iface.DeleteFilter(p);
        if !ok {
          return;
        }
      }
    }
    ok := true;
  }

  method DeleteStaleClasses(iface: TcInterface, classes: map<ClassId, ClassRate>, expected: set<ClassId>)
    returns (ok: bool)
    requires iface.Valid() && classes == iface.classes
    requires forall p | p in iface.filters :: iface.filters[p].classId in expected
    modifies iface
    ensures iface.Valid() && iface.filters == old(iface.filters) && iface.refused == old(iface.refused)
    ensures forall c | c in classes && c in expected :: c in iface.classes
    ensures forall c | c in iface.classes :: c in classes && iface.classes[c] == classes[c]
    ensures ok ==> iface.classes.Keys <= expected
    ensures old(iface.faults) <= iface.faults
    ensures ok <==> iface.faults == old(iface.faults)
  {
    var left := classes.Keys;
    while left != {}
      invariant iface.Valid() && iface.filters == old(iface.filters) && iface.refused == old(iface.refused)
      invariant iface.faults == old(iface.faults)
      invariant left <= iface.classes.Keys <= classes.Keys
      invariant forall c | c in iface.classes :: iface.classes[c] == classes[c]
      invariant forall c | c in classes && c in expected :: c in iface.classes
      invariant forall c | c in iface.classes && c !in left :: c in expected
      decreases left
    {
      var c :| c in left;
      left := left - {c};
      if c !in expected {
        ok := iface.DeleteClass(c);
        if !ok {
          return;
        }
      }
    }
    ok := true;
  }

  // ----- Room -----

  lemma SpareIsRoomFor(filters: map<nat, Filter>, c: ClassId)
    requires |filters.Keys| < SPAN
    ensures HasRoomFor(filters, c)
  {
    FewUsedLeaveRoom(filters.Keys);
    var p: nat :| MIN_PRIORITY <= p <= MAX_PRIORITY && p !in filters.Keys;
    assert p !in OthersPriorities(filters, c);
  }

  lemma SpareIsRoomForRedirect(redirects: map<nat, Redirect>, ip: Ip)
    requires |redirects.Keys| < SPAN
    ensures HasRoomForRedirect(redirects, ip)
  {
    FewUsedLeaveRoom(redirects.Keys);
    var p: nat :| MIN_PRIORITY <= p <= MAX_PRIORITY && p !in redirects.Keys;
    assert p !in OtherRedirects(redirects, ip);
  }

  // ----- The IFB device and its redirects -----

  method EnsureIfb(link: IfbLink) returns (ok: bool)
    requires link.Valid()
    modifies link
    ensures link.Valid() && (ok ==> link.present) && (old(link.present) ==> link.present)
    ensures link.redirects == old(link.redirects)
    ensures old(link.faults) <= link.faults
    ensures ok <==> link.faults == old(link.faults)
  {
    ok := link.Show();
    if !ok {
      return;
    }
    if !link.present {
      ok := link.AddLink();
      if !ok {
        return;
      }
    }
    ok := link.Show();
  }

  method EnsureIngress(link: IfbLink) returns (ok: bool)
    requires link.Valid()
    modifies link
    ensures link.Valid() && (ok ==> link.ingress) && link.present == old(link.present)
    ensures link.redirects == old(link.redirects)
    ensures old(link.faults) <= link.faults
    ensures ok <==> link.faults == old(link.faults)
  {
    ok := link.Show();
    if !ok {
      return;
    }
    if !link.ingress {
      ok := link.AddIngress();
    }
  }

  /** Every redirect of the given priorities is deleted, or a failure stops the deletions. */
  method DeleteRedirects(link: IfbLink, priorities: set<nat>) returns (ok: bool)
    requires link.Valid() && priorities <= link.redirects.Keys
    modifies link
    ensures link.Valid() && link.present == old(link.present) && link.ingress == old(link.ingress)
    ensures ok ==> link.redirects == old(link.redirects) - priorities
    ensures forall p | p in old(link.redirects) && p !in priorities :: p in link.redirects
    ensures forall p | p in link.redirects :: p in old(link.redirects) && link.redirects[p] == old(link.redirects)[p]
    ensures old(link.faults) <= link.faults
    ensures ok <==> link.faults == old(link.faults)
  {
    var left := priorities;
    while left != {}
      invariant link.Valid() && link.present == old(link.present) && link.ingress == old(link.ingress)
      invariant link.faults == old(link.faults)
      invariant left <= priorities
      invariant link.redirects == old(link.redirects) - (priorities - left)
      decreases left
    {
      var p :| p in left;
      ok := link.DeleteRedirect(p);
      if !ok {
        return;
      }
      left := left - {p};
      assert old(link.redirects) - (priorities - left) == old(link.redirects) - (priorities - left - {p}) - {p};
    }
    assert priorities - {} == priorities;
    ok := true;
  }

  /** Redirects other than the IP's own source redirects are neither changed, added nor removed. */
  predicate SameOtherRedirects(f: map<nat, Redirect>, g: map<nat, Redirect>, ip: Ip) {
    && (forall p | p in f && !Redirects(f[p], ip, Src) :: p in g && g[p] == f[p])
    && (forall p | p in g && !Redirects(g[p], ip, Src) :: p in f && f[p] == g[p])
  }

  /** The IP has a redirect into the IFB device, or some priority is not used by a redirect of another kind. */
  predicate HasRoomForRedirect(redirects: map<nat, Redirect>, ip: Ip) {
    || (exists p | p in redirects :: Redirects(redirects[p], ip, Src) && IntoIfb(redirects[p]))
    || exists p: nat | MIN_PRIORITY <= p <= MAX_PRIORITY :: p !in OtherRedirects(redirects, ip)
  }

  /** The priorities of redirects that are not the IP's own source redirects. */
  function OtherRedirects(redirects: map<nat, Redirect>, ip: Ip): set<nat> {
    set p | p in redirects && !Redirects(redirects[p], ip, Src)
  }

  /** Exactly one source redirect into the IFB device for the IP, and no IP that had one loses it. */
  method EnsureUploadRedirect(link: IfbLink, ip: Ip) returns (ok: bool)
    requires link.Valid()
    modifies link
    ensures link.Valid() && (old(link.present) ==> link.present) && (ok ==> link.present)
    ensures ok ==> OneRedirect(link.redirects, ip)
    ensures OneRedirect(old(link.redirects), ip) ==> OneRedirect(link.redirects, ip)
    ensures SameOtherRedirects(old(link.redirects), link.redirects, ip)
    ensures old(link.faults) <= link.faults
    ensures ok <==> link.faults == old(link.faults) && HasRoomForRedirect(old(link.redirects), ip)
    ensures |link.redirects.Keys| <= |old(link.redirects.Keys)| + 1
  {
    ok := EnsureIfb(link);
    if !ok {
      return;
    }
    ok := link.Show();
    if !ok {
      return;
    }
    var filters := link.redirects;
    var matching := set p | p in filters && Redirects(filters[p], ip, Src);
    var existing := FindIntoIfb(filters, matching);
    if existing.Some? {
      ok := DeleteRedirects(link, matching - {existing.value});
      ExistingStays(filters, link.redirects, ip, existing.value, matching);
      SubsetIsSmaller(link.redirects.Keys, filters.Keys);
    } else {
      ok := DeleteRedirects(link, matching);
      SubsetIsSmaller(link.redirects.Keys, filters.Keys);
      if !ok {
        return;
      }
      assert OtherRedirects(link.redirects, ip) == OtherRedirects(filters, ip);
      ok := InstallRedirect(link, ip);
    }
  }

  /** The IP has no source redirect yet: add one at a free priority. */
  method InstallRedirect(link: IfbLink, ip: Ip) returns (ok: bool)
    requires link.Valid() && link.present
    requires forall p | p in link.redirects :: !Redirects(link.redirects[p], ip, Src)
    modifies link
    ensures link.Valid() && link.present
    ensures ok ==> OneRedirect(link.redirects, ip)
    ensures SameOtherRedirects(old(link.redirects), link.redirects, ip)
    ensures old(link.faults) <= link.faults
    ensures ok <==> link.faults == old(link.faults) && HasRoomForRedirect(old(link.redirects), ip)
    ensures ok ==> exists p :: IsFirstFree(PriorityForIp(ip), old(link.redirects.Keys), p)
                               && link.redirects == old(link.redirects)[p := SourceIntoIfb(ip)]
    ensures |link.redirects.Keys| <= |old(link.redirects.Keys)| + 1
  {
    assert link.redirects.Keys == OtherRedirects(link.redirects, ip);
    var priority := FindAvailable(PriorityForIp(ip), link.redirects.Keys);
    if priority.None? {
      return false;
    }
    AtMostOneMore(link.redirects.Keys, link.redirects.Keys + {priority.value}, priority.value);
    ok := EnsureIngress(link);
    if !ok {
      return;
    }
    ok := link.AddRedirect(priority.value, SourceIntoIfb(ip));
    if ok {
      assert IsOnlyAt(link.redirects, ip, priority.value);
    }
  }

  method FindIntoIfb(filters: map<nat, Redirect>, matching: set<nat>) returns (r: Option<nat>)
    requires matching <= filters.Keys
    ensures r.Some? ==> r.value in matching && IntoIfb(filters[r.value])
    ensures r.None? ==> forall p | p in matching :: !IntoIfb(filters[p])
  {
    var left := matching;
    while left != {}
      invariant left <= matching
      invariant forall p | p in matching && p !in left :: !IntoIfb(filters[p])
      decreases left
    {
      var p :| p in left;
      if IntoIfb(filters[p]) {
        return Some(p);
      }
      left := left - {p};
    }
    return None;
  }

  /** Deleting only other matching redirects keeps the existing one, alone if all of them went. */
  lemma ExistingStays(before: map<nat, Redirect>, after: map<nat, Redirect>, ip: Ip, existing: nat, matching: set<nat>)
    requires matching == set p | p in before && Redirects(before[p], ip, Src)
    requires existing in matching && IntoIfb(before[existing]) && existing in after
    requires forall p | p in after :: p in before && after[p] == before[p]
    ensures (forall p | p in after && p in matching :: p == existing) ==> OneRedirect(after, ip)
    ensures OneRedirect(before, ip) ==> OneRedirect(after, ip)
  {
    if forall p | p in after && p in matching :: p == existing {
      assert IsOnlyAt(after, ip, existing);
    }
    if OneRedirect(before, ip) {
      var p :| IsOnlyAt(before, ip, p);
      assert before[existing] == SourceIntoIfb(ip);
      assert IsOnlyAt(after, ip, existing);
    }
  }

  method RemoveUploadIp(link: IfbLink, ip: Ip) returns (ok: bool)
    requires link.Valid()
    modifies link
    ensures link.Valid() && link.present == old(link.present)
    ensures ok ==> forall p | p in link.redirects ::
              !(Redirects(link.redirects[p], ip, Src) && IntoIfb(link.redirects[p]))
    ensures SameOtherRedirects(old(link.redirects), link.redirects, ip)
    ensures old(link.faults) <= link.faults
    ensures ok <==> link.faults == old(link.faults)
  {
    ok := link.Show();
    if !ok {
      return;
    }
    var filters := link.redirects;
    ok := DeleteRedirects(link, set p | p in filters && Redirects(filters[p], ip, Src) && IntoIfb(filters[p]));
  }

  /** The device's redirect goes first, so no upload is sent to a class that is gone. */
  method ClearUpload(link: IfbLink, c: ClassId, ip: Option<Ip>) returns (ok: bool)
    requires link.Valid() && OnePerClass(link.ifb.filters)
    modifies link, link.ifb
    ensures link.Valid() && OnePerClass(link.ifb.filters) && link.present == old(link.present)
    ensures ok && ip.Some? ==> forall p | p in link.redirects ::
              !(Redirects(link.redirects[p], ip.value, Src) && IntoIfb(link.redirects[p]))
    ensures ok ==> c !in link.ifb.classes && !IsReferenced(link.ifb.filters, c)
    ensures link.ifb.classes - {c} == old(link.ifb.classes) - {c}
    ensures SameForOthers(old(link.ifb.filters), link.ifb.filters, c)
    ensures if ip.Some? then SameOtherRedirects(old(link.redirects), link.redirects, ip.value)
            else link.redirects == old(link.redirects)
    ensures link.ifb.refused == old(link.ifb.refused)
    ensures old(link.faults) <= link.faults
    ensures old(link.ifb.faults) <= link.ifb.faults
    ensures ok <==> link.faults == old(link.faults) && link.ifb.faults == old(link.ifb.faults)
  {
    if ip.Some? {
      ok := RemoveUploadIp(link, ip.value);
      if !ok {
        return;
      }
    }
    ok := link.Show();
    if !ok || !link.present {
      return;
    }
    ok := ClearClass(link.ifb, c);
  }

  /** A redirect into the IFB device that may stay: a source redirect of an expected IP. */
  predicate IsExpectedRedirect(r: Redirect, expectedIps: set<Ip>) {
    r.side == Some(Src) && r.ip.Some? && r.ip.value in expectedIps
  }

  method ReconcileUploadRedirects(link: IfbLink, expectedIps: set<Ip>) returns (ok: bool)
    requires link.Valid()
    modifies link
    ensures link.Valid() && link.present == old(link.present)
    ensures forall p | p in link.redirects :: p in old(link.redirects) && link.redirects[p] == old(link.redirects)[p]
    ensures forall p | p in old(link.redirects)
                       && (!IntoIfb(old(link.redirects)[p])
                           || IsExpectedRedirect(old(link.redirects)[p], expectedIps)) ::
              p in link.redirects
    ensures ok ==> forall p | p in link.redirects && IntoIfb(link.redirects[p]) ::
              IsExpectedRedirect(link.redirects[p], expectedIps)
    ensures old(link.faults) <= link.faults
    ensures ok <==> link.faults == old(link.faults)
  {
    ok := link.Show();
    if !ok {
      return;
    }
    var filters := link.redirects;
    ok := DeleteRedirects(link, set p | p in filters && IntoIfb(filters[p])
                              && !IsExpectedRedirect(filters[p], expectedIps));
  }

  /** Redirects into the device go first, then the ingress qdisc, then the link. */
  method RemoveIfb(link: IfbLink) returns (ok: bool)
    requires link.Valid()
    modifies link, link.ifb
    ensures link.Valid() && link.ifb.refused == old(link.ifb.refused)
    ensures ok ==> !link.present && link.redirects == map[]
    ensures !ok ==> link.present == old(link.present)
    ensures !ok ==> link.ifb.classes == old(link.ifb.classes) && link.ifb.filters == old(link.ifb.filters)
    ensures old(link.faults) <= link.faults
    ensures ok <==> link.faults == old(link.faults)
    ensures link.ifb.faults == old(link.ifb.faults)
  {
    ok := link.Show();
    if !ok {
      return;
    }
    var filters := link.redirects;
    ok := DeleteRedirects(link, set p | p in filters && IntoIfb(filters[p]) && filters[p].side == Some(Src));
    if !ok {
      return;
    }
    ok := link.Show();
    if !ok {
      return;
    }
    filters := link.redirects;
    ok := DeleteRedirects(link, set p | p in filters && IntoIfb(filters[p]) && filters[p].side == Some(Dst));
    if !ok {
      return;
    }
    ok := link.DeleteIngress();
    if !ok {
      return;
    }
    ok := link.DeleteLink();
  }
}
