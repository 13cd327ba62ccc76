/**
 The traffic reconciler: desired classes are computed from policy first, devices
 are applied one by one with their failures captured, and stale state is pruned last.
 */
module TrafficReconciliation {
  import opened Common
  import opened PriorityProbe
  import opened TcKernel
  import opened TrafficEnforcer

  // ----- Policy -----

  datatype Direction = Download | Upload

  /** Limits are in thousandths of a megabit per second. */
  datatype Policy = Policy(downloadLimit: Option<int>, uploadLimit: Option<int>, throttled: bool)

  datatype Device = Device(mac: string, ip: Option<Ip>, identityValidated: bool, policy: Option<Policy>)

  function Limit(p: Policy, dir: Direction): Option<int> {
    if dir.Download? then p.downloadLimit else p.uploadLimit
  }

  predicate IsEnforceable(d: Device) {
    && d.identityValidated && d.ip.Some? && d.policy.Some?
    && (d.policy.value.downloadLimit.Some? || d.policy.value.uploadLimit.Some? || d.policy.value.throttled)
  }

  predicate Wants(d: Device, dir: Direction) {
    IsEnforceable(d) && (Limit(d.policy.value, dir).Some? || d.policy.value.throttled)
  }

  /** A positive rate in bits per second; other limits are refused. */
  function FromMilliMbps(milli: int): Option<nat> {
    if milli <= 0 then None else Some(milli * 1000)
  }

  /** A quota throttle overrides the limits. */
  function WantedRate(d: Device, dir: Direction, throttleBits: nat): Option<nat>
    requires Wants(d, dir)
  {
    if d.policy.value.throttled then Some(throttleBits) else FromMilliMbps(Limit(d.policy.value, dir).value)
  }

  /** A 16-bit class id from the leading digits of the hash; 0 and 1 are reserved. */
  function ClassOfPrefix(prefix: nat): (c: ClassId)
    ensures c >= 2 && (prefix < 65_536 ==> c < 65_536)
  {
    if prefix < 2 then 2 else prefix
  }

  /** Where the hash sends a MAC address in each direction. */
  type Hash = (string, Direction) -> nat

  function ClassFor(hash: Hash, d: Device, dir: Direction): ClassId {
    ClassOfPrefix(hash(d.mac, dir))
  }

  /** No two devices shaped in the same direction share a class. */
  ghost predicate ClassesAreDistinct(hash: Hash, devices: seq<Device>) {
    forall i, j, dir: Direction |
      && 0 <= i < |devices| && 0 <= j < |devices| && Wants(devices[i], dir) && Wants(devices[j], dir)
      && ClassFor(hash, devices[i], dir) == ClassFor(hash, devices[j], dir)
      :: i == j
  }

  function Expected(hash: Hash, devices: seq<Device>, dir: Direction): set<ClassId> {
    set i | 0 <= i < |devices| && Wants(devices[i], dir) :: ClassFor(hash, devices[i], dir)
  }

  /** Every wanted rate is positive. */
  predicate HasRates(d: Device, throttleBits: nat) {
    forall dir: Direction | Wants(d, dir) :: WantedRate(d, dir, throttleBits).Some?
  }

  /** A device to enforce has its rates exactly if it is throttled or none of its limits is zero or less. */
  lemma RatesByFields(d: Device, throttleBits: nat)
    requires d.identityValidated && d.ip.Some? && d.policy.Some?
    ensures HasRates(d, throttleBits) <==>
              || d.policy.value.throttled
              || (&& (d.policy.value.downloadLimit.Some? ==> d.policy.value.downloadLimit.value > 0)
                  && (d.policy.value.uploadLimit.Some? ==> d.policy.value.uploadLimit.value > 0))
  {
    var down, up := d.policy.value.downloadLimit, d.policy.value.uploadLimit;
    if HasRates(d, throttleBits) && !d.policy.value.throttled {
      assert down.Some? ==> Wants(d, Download) && WantedRate(d, Download, throttleBits).Some?;
      assert up.Some? ==> Wants(d, Upload) && WantedRate(d, Upload, throttleBits).Some?;
    }
  }

  // ----- Desired state -----

  /** The device's class has its rate and its filter is at its IP. */
  predicate IsShaped(classes: map<ClassId, ClassRate>, filters: map<nat, Filter>,
                     hash: Hash, d: Device, dir: Direction, throttleBits: nat)
    requires Wants(d, dir)
  {
    && WantedRate(d, dir, throttleBits).Some?
    && HasClass(classes, ClassFor(hash, d, dir), WantedRate(d, dir, throttleBits).value)
    && HasFilter(filters, ClassFor(hash, d, dir), d.ip.value)
  }

  /** Exactly the desired classes at the desired rates, and exactly one filter per class at its device's IP. */
  ghost predicate IsExactly(classes: map<ClassId, ClassRate>, filters: map<nat, Filter>,
                            hash: Hash, devices: seq<Device>, dir: Direction, throttleBits: nat)
  {
    && (forall i | 0 <= i < |devices| && Wants(devices[i], dir) ::
          IsShaped(classes, filters, hash, devices[i], dir, throttleBits))
    && classes.Keys == Expected(hash, devices, dir)
    && (forall p | p in filters :: filters[p].classId in Expected(hash, devices, dir))
    && OnePerClass(filters)
  }

  predicate IsUploadIp(devices: seq<Device>, ip: Ip) {
    exists i | 0 <= i < |devices| :: Wants(devices[i], Upload) && devices[i].ip == Some(ip)
  }

  /** Exactly one source redirect into the IFB device per shaped IP, and no other redirect into it. */
  ghost predicate RedirectsAreExact(redirects: map<nat, Redirect>, devices: seq<Device>) {
    && (forall i | 0 <= i < |devices| && Wants(devices[i], Upload) :: OneRedirect(redirects, devices[i].ip.value))
    && (forall p | p in redirects && IntoIfb(redirects[p]) ::
          redirects[p].ip.Some? && redirects[p].side == Some(Src) && IsUploadIp(devices, redirects[p].ip.value))
  }

  // ----- The policies in force, field by field -----

  /** The class has the rate in bits per second, and a filter sends the IP there. */
  predicate IsLimited(classes: map<ClassId, ClassRate>, filters: map<nat, Filter>, c: ClassId, ip: Ip, bits: int) {
    c in classes && classes[c].rate == bits && classes[c].ceil == bits
    && exists p | p in filters :: filters[p].classId == c && filters[p].ip == Some(ip)
  }

  /** The hash's class of a device; the kernel keeps 0 and 1 for itself. */
  function ClassOfHash(prefix: nat): ClassId {
    if prefix == 0 || prefix == 1 then 2 else prefix
  }

  /** Every validated device with an address has the download its policy names, and nobody else has a class. */
  ghost predicate DownloadsAreInForce(classes: map<ClassId, ClassRate>, filters: map<nat, Filter>,
                                      hash: Hash, devices: seq<Device>, throttleMbps: real)
  {
    && (forall d | d in devices && d.identityValidated && d.ip.Some? && d.policy.Some? ::
          var c, limit := ClassOfHash(hash(d.mac, Download)), d.policy.value.downloadLimit;
          if d.policy.value.throttled
          then IsLimited(classes, filters, c, d.ip.value, (throttleMbps * 1_000_000.0 + 0.5).Floor)
          else limit.Some? ==> limit.value > 0 && IsLimited(classes, filters, c, d.ip.value, 1000 * limit.value))
    && (forall c | c in classes ::
          exists d | d in devices ::
            && d.identityValidated && d.ip.Some? && d.policy.Some? && ClassOfHash(hash(d.mac, Download)) == c
            && (d.policy.value.downloadLimit.Some? || d.policy.value.throttled))
  }

  /** The same for uploads, whose traffic a redirect of the address's own packets brings to the IFB device. */
  ghost predicate UploadsAreInForce(classes: map<ClassId, ClassRate>, filters: map<nat, Filter>,
                                    redirects: map<nat, Redirect>,
                                    hash: Hash, devices: seq<Device>, throttleMbps: real)
  {
    && (forall d | d in devices && d.identityValidated && d.ip.Some? && d.policy.Some? ::
          var c, limit := ClassOfHash(hash(d.mac, Upload)), d.policy.value.uploadLimit;
          if d.policy.value.throttled
          then IsLimited(classes, filters, c, d.ip.value, (throttleMbps * 1_000_000.0 + 0.5).Floor)
               && IsRedirected(redirects, d.ip.value)
          else limit.Some? ==> limit.value > 0 && IsLimited(classes, filters, c, d.ip.value, 1000 * limit.value)
                               && IsRedirected(redirects, d.ip.value))
    && (forall c | c in classes ::
          exists d | d in devices ::
            && d.identityValidated && d.ip.Some? && d.policy.Some? && ClassOfHash(hash(d.mac, Upload)) == c
            && (d.policy.value.uploadLimit.Some? || d.policy.value.throttled))
    && (forall p | p in redirects && redirects[p].device == Some("ifb0") ::
          exists d | d in devices ::
            && d.identityValidated && d.ip.Some? && d.policy.Some?
            && redirects[p].ip == d.ip && redirects[p].side == Some(Src)
            && (d.policy.value.uploadLimit.Some? || d.policy.value.throttled))
  }

  /** Packets from the IP are sent to the IFB device. */
  predicate IsRedirected(redirects: map<nat, Redirect>, ip: Ip) {
    exists p | p in redirects ::
      redirects[p].ip == Some(ip) && redirects[p].side == Some(Src) && redirects[p].device == Some("ifb0")
  }

  /** A device that wants a direction has it at the throttle's rate, or else at a thousand times its positive limit. */
  lemma ExactIsLimited(classes: map<ClassId, ClassRate>, filters: map<nat, Filter>,
                       hash: Hash, devices: seq<Device>, dir: Direction, bits: nat, d: Device)
    requires IsExactly(classes, filters, hash, devices, dir, bits) && d in devices && Wants(d, dir)
    ensures var c := ClassOfHash(hash(d.mac, dir));
            if d.policy.value.throttled then IsLimited(classes, filters, c, d.ip.value, bits)
            else
              && Limit(d.policy.value, dir).value > 0
              && IsLimited(classes, filters, c, d.ip.value, 1000 * Limit(d.policy.value, dir).value)
  {
    var i :| 0 <= i < |devices| && devices[i] == d;
    assert IsShaped(classes, filters, hash, devices[i], dir, bits);
    var p :| p in filters && filters[p] == Filter(ClassFor(hash, d, dir), Some(d.ip.value));
  }

  lemma ExactClassIsWanted(classes: map<ClassId, ClassRate>, filters: map<nat, Filter>,
                           hash: Hash, devices: seq<Device>, dir: Direction, bits: nat, c: ClassId)
    requires IsExactly(classes, filters, hash, devices, dir, bits) && c in classes
    ensures exists d | d in devices :: Wants(d, dir) && ClassOfHash(hash(d.mac, dir)) == c
  {
    var i :| 0 <= i < |devices| && Wants(devices[i], dir) && ClassFor(hash, devices[i], dir) == c;
    assert devices[i] in devices;
  }

  lemma ExactDownloadsAreInForce(classes: map<ClassId, ClassRate>, filters: map<nat, Filter>,
                                 hash: Hash, devices: seq<Device>, throttleMbps: real)
    requires throttleMbps > 0.0
    requires IsExactly(classes, filters, hash, devices, Download, (throttleMbps * 1_000_000.0 + 0.5).Floor)
    ensures DownloadsAreInForce(classes, filters, hash, devices, throttleMbps)
  {
    hide IsExactly, IsLimited, ClassOfHash;
    var bits: nat := (throttleMbps * 1_000_000.0 + 0.5).Floor;
    forall d | d in devices && Wants(d, Download) {
      ExactIsLimited(classes, filters, hash, devices, Download, bits, d);
    }
    forall c | c in classes {
      ExactClassIsWanted(classes, filters, hash, devices, Download, bits, c);
    }
  }

  lemma ExactUploadsAreInForce(classes: map<ClassId, ClassRate>, filters: map<nat, Filter>,
                               redirects: map<nat, Redirect>,
                               hash: Hash, devices: seq<Device>, throttleMbps: real)
    requires throttleMbps > 0.0 && RedirectsAreExact(redirects, devices)
    requires IsExactly(classes, filters, hash, devices, Upload, (throttleMbps * 1_000_000.0 + 0.5).Floor)
    ensures UploadsAreInForce(classes, filters, redirects, hash, devices, throttleMbps)
  {
    hide IsExactly, IsLimited, ClassOfHash, RedirectsAreExact, IsRedirected;
    var bits: nat := (throttleMbps * 1_000_000.0 + 0.5).Floor;
    forall d | d in devices && Wants(d, Upload) {
      ExactIsLimited(classes, filters, hash, devices, Upload, bits, d);
    }
    forall d | d in devices && Wants(d, Upload) {
      ExactIsRedirected(redirects, devices, d);
    }
    forall c | c in classes {
      ExactClassIsWanted(classes, filters, hash, devices, Upload, bits, c);
    }
    forall p | p in redirects && redirects[p].device == Some("ifb0") {
      ExactRedirectIsWanted(redirects, devices, p);
    }
  }

  lemma ExactRedirectIsWanted(redirects: map<nat, Redirect>, devices: seq<Device>, p: nat)
    requires RedirectsAreExact(redirects, devices) && p in redirects && redirects[p].device == Some("ifb0")
    ensures exists d | d in devices ::
              Wants(d, Upload) && redirects[p].ip == d.ip && redirects[p].side == Some(Src)
  {
    assert IntoIfb(redirects[p]);
    var i :| 0 <= i < |devices| && Wants(devices[i], Upload) && devices[i].ip == Some(redirects[p].ip.value);
    assert devices[i] in devices;
  }

  lemma ExactIsRedirected(redirects: map<nat, Redirect>, devices: seq<Device>, d: Device)
    requires RedirectsAreExact(redirects, devices) && d in devices && Wants(d, Upload)
    ensures IsRedirected(redirects, d.ip.value)
  {
    var i :| 0 <= i < |devices| && devices[i] == d;
    assert OneRedirect(redirects, devices[i].ip.value);
    var p :| IsOnlyAt(redirects, d.ip.value, p);
  }

  /** An exact listing holds nothing but each device's own filter. */
  lemma FiltersOfExactState(classes: map<ClassId, ClassRate>, filters: map<nat, Filter>,
                            hash: Hash, devices: seq<Device>, dir: Direction, throttleBits: nat, p: nat)
    requires IsExactly(classes, filters, hash, devices, dir, throttleBits) && p in filters
    ensures exists i | 0 <= i < |devices| && Wants(devices[i], dir) ::
              filters[p] == Filter(ClassFor(hash, devices[i], dir), devices[i].ip)
  {
    var i :| 0 <= i < |devices| && Wants(devices[i], dir) && ClassFor(hash, devices[i], dir) == filters[p].classId;
    assert IsShaped(classes, filters, hash, devices[i], dir, throttleBits);
    var q :| q in filters && filters[q] == Filter(ClassFor(hash, devices[i], dir), Some(devices[i].ip.value));
    assert p == q;
  }

  /** Distinct classes are needed: devices on one class can both be shaped only at one rate and one IP. */
  lemma CollidingDevicesShareEverything(classes: map<ClassId, ClassRate>, filters: map<nat, Filter>, hash: Hash,
                                        a: Device, b: Device, dir: Direction, throttleBits: nat)
    requires OnePerClass(filters) && Wants(a, dir) && Wants(b, dir)
    requires ClassFor(hash, a, dir) == ClassFor(hash, b, dir)
    requires IsShaped(classes, filters, hash, a, dir, throttleBits)
    ensures IsShaped(classes, filters, hash, b, dir, throttleBits)
            <==> a.ip == b.ip && WantedRate(a, dir, throttleBits) == WantedRate(b, dir, throttleBits)
  {
    var p :| p in filters && filters[p] == Filter(ClassFor(hash, a, dir), Some(a.ip.value));
    if IsShaped(classes, filters, hash, b, dir, throttleBits) {
      var q :| q in filters && filters[q] == Filter(ClassFor(hash, b, dir), Some(b.ip.value));
      assert p == q;
    }
  }

  /** Shaping one class keeps every device of another class shaped. */
  lemma OthersStayShaped(classes: map<ClassId, ClassRate>, filters: map<nat, Filter>,
                         classes': map<ClassId, ClassRate>, filters': map<nat, Filter>, c: ClassId,
                         hash: Hash, d: Device, dir: Direction, throttleBits: nat)
    requires Wants(d, dir) && ClassFor(hash, d, dir) != c
    requires classes' - {c} == classes - {c} && SameForOthers(filters, filters', c)
    requires IsShaped(classes, filters, hash, d, dir, throttleBits)
    ensures IsShaped(classes', filters', hash, d, dir, throttleBits)
  {
    var own := ClassFor(hash, d, dir);
    assert own in classes - {c};
    assert (classes - {c})[own] == (classes' - {c})[own];
    var p :| p in filters && filters[p] == Filter(own, Some(d.ip.value));
    assert filters'[p] == filters[p];
  }

  lemma KeysStay(before: map<ClassId, ClassRate>, after: map<ClassId, ClassRate>, c: ClassId)
    requires after - {c} == before - {c} && (c in before ==> c in after)
    ensures before.Keys <= after.Keys
  {
    forall k | k in before
      ensures k in after
    {
      if k != c {
        assert k in before - {c};
      }
    }
  }

  lemma OtherRedirectsStay(before: map<nat, Redirect>, after: map<nat, Redirect>, ip: Ip, other: Ip)
    requires ip != other && SameOtherRedirects(before, after, ip) && OneRedirect(before, other)
    ensures OneRedirect(after, other)
  {
    var p :| IsOnlyAt(before, other, p);
    assert !Redirects(before[p], ip, Src);
    assert IsOnlyAt(after, other, p);
  }

  /** Pruning to the expected classes keeps a shaped device shaped. */
  lemma PruningKeepsShaped(classes: map<ClassId, ClassRate>, filters: map<nat, Filter>,
                           classes': map<ClassId, ClassRate>, filters': map<nat, Filter>,
                           hash: Hash, devices: seq<Device>, i: nat, dir: Direction, throttleBits: nat)
    requires i < |devices| && Wants(devices[i], dir)
    requires IsShaped(classes, filters, hash, devices[i], dir, throttleBits)
    requires Pruned(classes, filters, classes', filters', Expected(hash, devices, dir))
    ensures IsShaped(classes', filters', hash, devices[i], dir, throttleBits)
  {
    var own := ClassFor(hash, devices[i], dir);
    assert own in Expected(hash, devices, dir);
    var p :| p in filters && filters[p] == Filter(own, Some(devices[i].ip.value));
    assert MayStay(classes, Expected(hash, devices, dir), filters[p]);
    assert filters'[p] == filters[p];
  }

  /** Nothing wanted was pruned and nothing was added. */
  predicate Pruned(classes: map<ClassId, ClassRate>, filters: map<nat, Filter>,
                   classes': map<ClassId, ClassRate>, filters': map<nat, Filter>, expected: set<ClassId>)
  {
    && (forall c | c in classes && c in expected :: c in classes')
    && (forall c | c in classes' :: c in classes && classes'[c] == classes[c])
    && (forall p | p in filters && MayStay(classes, expected, filters[p]) :: p in filters')
    && (forall p | p in filters' :: p in filters && filters'[p] == filters[p])
  }

  /** The addresses of the listed filters whose class is expected. */
  function IpsOf(filters: map<nat, Filter>, expected: set<ClassId>): set<Ip> {
    set p | p in filters && filters[p].classId in expected && filters[p].ip.Some? :: filters[p].ip.value
  }

  /** All of the first n devices but the failed ones are among the reached. */
  ghost predicate AllBut(n: nat, failed: set<nat>, reached: set<nat>) {
    forall k: nat | k < n && k !in failed :: k in reached
  }

  lemma IsAmongAll(n: nat, i: nat, reached: set<nat>)
    requires i < n
    ensures AllBut(n, {}, reached) ==> i in reached
  {
  }

  function With(s: set<nat>, i: nat, added: bool): set<nat> {
    if added then s + {i} else s
  }

  predicate IsNone(s: set<nat>) {
    s == {}
  }

  lemma NoneWith(s: set<nat>, i: nat, added: bool)
    ensures IsNone({})
    ensures IsNone(s) && !added ==> IsNone(With(s, i, added))
  {
  }

  ghost predicate NoClassLost(before: map<ClassId, ClassRate>, after: map<ClassId, ClassRate>) {
    before.Keys <= after.Keys
  }

  lemma NoClassLostAtAll(a: map<ClassId, ClassRate>, b: map<ClassId, ClassRate>, c: map<ClassId, ClassRate>)
    ensures NoClassLost(a, a)
    ensures NoClassLost(a, b) && NoClassLost(b, c) ==> NoClassLost(a, c)
  {
  }

  /** The fault counter rose in turn i. */
  predicate Rose(meter: seq<nat>, i: nat) {
    i + 1 < |meter| && meter[i] < meter[i + 1]
  }

  /**
   The fault counter as it stood at the beginning, after the first device's turn, and so on.
   A device is among the faulted exactly if the counter rose in its own turn.
   */
  ghost predicate IsMeter(meter: seq<nat>, n: nat, first: nat, last: nat, faulted: set<nat>) {
    && |meter| == n + 1 && meter[0] == first && meter[n] == last
    && (forall i | 0 <= i < n :: meter[i] <= meter[i + 1])
    && (forall i: nat :: i in faulted <==> Rose(meter, i))
  }

  lemma MeterStarts(faults: nat)
    ensures IsMeter([faults], 0, faults, faults, {})
  {
  }

  lemma MeterOneMore(meter: seq<nat>, n: nat, first: nat, before: nat, after: nat, faulted: set<nat>, hadFault: bool)
    requires IsMeter(meter, n, first, before, faulted) && before <= after && (hadFault <==> before < after)
    ensures IsMeter(meter + [after], n + 1, first, after, With(faulted, n, hadFault))
  {
    assert n !in faulted by { assert !Rose(meter, n); }
  }

  /** Without its last reading a meter is that of one turn less. */
  lemma MeterFront(meter: seq<nat>, n: nat, first: nat, last: nat, faulted: set<nat>)
    requires n > 0 && IsMeter(meter, n, first, last, faulted)
    ensures IsMeter(meter[..n], n - 1, first, meter[n - 1], faulted - {n - 1})
    ensures meter[n - 1] <= last && (n - 1 in faulted <==> meter[n - 1] < last)
  {
    assert Rose(meter, n - 1) <==> n - 1 in faulted;
    assert meter[n - 1] <= meter[n - 1 + 1];
    forall i: nat
      ensures i in faulted - {n - 1} <==> Rose(meter[..n], i)
    {
      assert i in faulted <==> Rose(meter, i);
    }
  }

  lemma OneLess(s: set<nat>, i: nat)
    ensures |s| <= |s - {i}| + if i in s then 1 else 0
    ensures s == {} <==> s - {i} == {} && i !in s
  {
    assert s == if i in s then (s - {i}) + {i} else s - {i};
  }

  /** There are at most as many faulted devices as faults, and none exactly if there is no fault. */
  lemma {:induction false} MeterBounds(meter: seq<nat>, n: nat, first: nat, last: nat, faulted: set<nat>)
    requires IsMeter(meter, n, first, last, faulted)
    ensures first <= last && |faulted| <= last - first && (faulted == {} <==> first == last)
  {
    if n > 0 {
      MeterFront(meter, n, first, last, faulted);
      hide IsMeter;
      MeterBounds(meter[..n], n - 1, first, meter[n - 1], faulted - {n - 1});
      OneLess(faulted, n - 1);
    } else {
      assert forall i: nat :: !Rose(meter, i);
    }
  }

  lemma MoreReached(n: nat, failed: set<nat>, reached: set<nat>, more: set<nat>)
    requires AllBut(n, failed, reached) && reached <= more
    ensures AllBut(n, failed, more)
  {
  }

  lemma NoneTried(reached: set<nat>)
    ensures AllBut(0, {}, reached)
  {
  }

  lemma AllButOneMore(all: nat, n: nat, failed: set<nat>, reached: set<nat>, more: set<nat>, distinct: bool, ok: bool)
    requires distinct ==> AllBut(n, failed, reached) && reached <= more && (ok ==> n in more)
    ensures distinct ==> AllBut(n + 1, With(failed, n, !ok), more)
    ensures distinct && AllBut(all, {}, reached) ==> AllBut(all, {}, more)
  {
  }

  lemma ExpectedClassesStay(start: map<ClassId, ClassRate>, classes: map<ClassId, ClassRate>, filters: map<nat, Filter>,
                            classes': map<ClassId, ClassRate>, filters': map<nat, Filter>, expected: set<ClassId>)
    requires NoClassLost(start, classes) && Pruned(classes, filters, classes', filters', expected)
    ensures forall c | c in start && c in expected :: c in classes'
  {
  }

  // ----- The service -----

  /** How a reconciliation ended; failures are indices of devices. */
  datatype Outcome =
    | Skipped
    | Aborted
    | Cleared(ok: bool)
    | Applied(failed: set<nat>, downloadPruned: bool, uploadPruned: bool)
  {
    predicate IsClean() {
      match this
      case Cleared(ok) => ok
      case Applied(failed, d, u) => failed == {} && d && u
      case _ => false
    }
  }

  class TrafficReconciliationService {
    const lan: TcInterface
    const link: IfbLink
    const hash: Hash
    const uplinkRate: nat
    const quotaThrottleMbps: real
    var running: bool

    constructor (lan: TcInterface, link: IfbLink, hash: Hash, uplinkRate: nat, quotaThrottleMbps: real)
      requires lan.Valid() && link.Valid() && lan != link.ifb
      ensures Valid() && !running
      ensures this.lan == lan && this.link == link && this.hash == hash
    {
      this.lan, this.link, this.hash := lan, link, hash;
      this.uplinkRate, this.quotaThrottleMbps, running := uplinkRate, quotaThrottleMbps, false;
    }

    ghost predicate Valid()
      reads this, lan, link, link.ifb
    {
      && lan != link.ifb
      && lan.Valid() && link.Valid()
    }

    ghost predicate OneFilterPerClass()
      reads this, lan, link, link.ifb
    {
      OnePerClass(lan.filters) && OnePerClass(link.ifb.filters)
    }

    function ThrottleBits(): nat
      requires quotaThrottleMbps > 0.0
    {
      (quotaThrottleMbps * 1_000_000.0 + 0.5).Floor
    }

    /** The state a clean reconciliation reaches. */
    ghost predicate IsSettled(devices: seq<Device>)
      requires quotaThrottleMbps > 0.0
      reads this, lan, link, link.ifb
    {
      && IsExactly(lan.classes, lan.filters, hash, devices, Download, ThrottleBits())
      && IsExactly(link.ifb.classes, link.ifb.filters, hash, devices, Upload, ThrottleBits())
      && RedirectsAreExact(link.redirects, devices)
    }

    /** What the kernel holds is what the policies say, field by field. */
    ghost predicate PoliciesAreInForce(devices: seq<Device>)
      reads this, lan, link, link.ifb
    {
      && DownloadsAreInForce(lan.classes, lan.filters, hash, devices, quotaThrottleMbps)
      && UploadsAreInForce(link.ifb.classes, link.ifb.filters, link.redirects, hash, devices, quotaThrottleMbps)
    }

    lemma SettledIsInForce(devices: seq<Device>)
      ensures quotaThrottleMbps > 0.0 && IsSettled(devices) ==> PoliciesAreInForce(devices)
    {
      hide IsExactly, RedirectsAreExact, DownloadsAreInForce, UploadsAreInForce;
      if quotaThrottleMbps > 0.0 && IsSettled(devices) {
        ExactDownloadsAreInForce(lan.classes, lan.filters, hash, devices, quotaThrottleMbps);
        ExactUploadsAreInForce(link.ifb.classes, link.ifb.filters, link.redirects, hash, devices, quotaThrottleMbps);
      }
    }

    ghost predicate DownloadReached(d: Device)
      requires quotaThrottleMbps > 0.0
      reads this, lan
    {
      Wants(d, Download) ==> IsShaped(lan.classes, lan.filters, hash, d, Download, ThrottleBits())
    }

    ghost predicate UploadReached(d: Device)
      requires quotaThrottleMbps > 0.0
      reads this, link, link.ifb
    {
      Wants(d, Upload) ==>
        && link.present
        && IsShaped(link.ifb.classes, link.ifb.filters, hash, d, Upload, ThrottleBits())
        && OneRedirect(link.redirects, d.ip.value)
    }

    /** Commands that failed although the kernel would have accepted them. */
    ghost function Faults(): nat
      reads this, lan, link, link.ifb
    {
      lan.faults + link.faults + link.ifb.faults
    }

    ghost predicate HasDownloadRoom(d: Device)
      reads this, lan
    {
      Wants(d, Download) ==>
        || HasFilter(lan.filters, ClassFor(hash, d, Download), d.ip.value)
        || HasRoomFor(lan.filters, ClassFor(hash, d, Download))
    }

    ghost predicate HasUploadRoom(d: Device)
      reads this, link, link.ifb
    {
      Wants(d, Upload) ==>
        && HasRoomForRedirect(link.redirects, d.ip.value)
        && (|| HasFilter(link.ifb.filters, ClassFor(hash, d, Upload), d.ip.value)
            || HasRoomFor(link.ifb.filters, ClassFor(hash, d, Upload)))
    }

    /** The device's filters and redirect are in place, or there is a free priority for each. */
    ghost predicate HasRoom(d: Device)
      reads this, lan, link, link.ifb
    {
      HasDownloadRoom(d) && HasUploadRoom(d)
    }

    /** At least n of the 65,436 priorities are free for each kind of filter. */
    ghost predicate HasSpare(n: nat)
      reads this, lan, link, link.ifb
    {
      && |lan.filters.Keys| + n <= SPAN && |link.ifb.filters.Keys| + n <= SPAN
      && |link.redirects.Keys| + n <= SPAN
    }

    lemma SpareIsRoom(d: Device)
      requires HasSpare(1)
      ensures HasRoom(d)
    {
      if Wants(d, Download) {
        SpareIsRoomFor(lan.filters, ClassFor(hash, d, Download));
      }
      if Wants(d, Upload) {
        SpareIsRoomFor(link.ifb.filters, ClassFor(hash, d, Upload));
        SpareIsRoomForRedirect(link.redirects, d.ip.value);
      }
    }

    /** The devices, by index, whose downloads or uploads are in place. */
    ghost function DownloadsReached(devices: seq<Device>): set<nat>
      requires quotaThrottleMbps > 0.0
      reads this, lan
    {
      set i: nat | i < |devices| && DownloadReached(devices[i])
    }

    ghost function UploadsReached(devices: seq<Device>): set<nat>
      requires quotaThrottleMbps > 0.0
      reads this, link, link.ifb
    {
      set i: nat | i < |devices| && UploadReached(devices[i])
    }

    /** Root, class and filter, in that order; a rate that is not positive fails between them. */
    method Shape(iface: TcInterface, c: ClassId, rate: Option<nat>, ip: Ip) returns (ok: bool)
      requires iface.Valid() && OnePerClass(iface.filters)
      modifies iface
      ensures iface.Valid() && OnePerClass(iface.filters) && iface.refused == old(iface.refused)
      ensures ok ==> rate.Some? && HasClass(iface.classes, c, rate.value) && HasFilter(iface.filters, c, ip)
      ensures iface.classes - {c} == old(iface.classes) - {c}
      ensures c in old(iface.classes) ==> c in iface.classes
      ensures SameForOthers(old(iface.filters), iface.filters, c)
      ensures rate.Some? && HasClass(old(iface.classes), c, rate.value) ==> iface.classes == old(iface.classes)
      ensures HasFilter(old(iface.filters), c, ip) ==> iface.filters == old(iface.filters)
      ensures old(iface.faults) <= iface.faults
      ensures ok <==> iface.faults == old(iface.faults) && rate.Some?
                      && (HasFilter(old(iface.filters), c, ip) || HasRoomFor(old(iface.filters), c))
      ensures |iface.filters.Keys| <= |old(iface.filters.Keys)| + 1
    {
      ok := EnsureRootState(iface, uplinkRate);
      if !ok {
        return;
      }
      if rate.None? {
        return false;
      }
      ok := EnsureDeviceClass(iface, c, rate.value);
      if !ok {
        return;
      }
      ok := EnsureFilter(iface, ip, c);
    }

    method LimitDownload(d: Device) returns (ok: bool)
      requires Valid() && OneFilterPerClass() && Wants(d, Download) && quotaThrottleMbps > 0.0
      modifies lan
      ensures Valid() && OneFilterPerClass() && lan.refused == old(lan.refused)
      ensures ok ==> DownloadReached(d)
      ensures lan.classes - {ClassFor(hash, d, Download)} == old(lan.classes) - {ClassFor(hash, d, Download)}
      ensures ClassFor(hash, d, Download) in old(lan.classes) ==> ClassFor(hash, d, Download) in lan.classes
      ensures SameForOthers(old(lan.filters), lan.filters, ClassFor(hash, d, Download))
      ensures old(DownloadReached(d)) ==> lan.classes == old(lan.classes) && lan.filters == old(lan.filters)
      ensures old(lan.faults) <= lan.faults
      ensures ok <==> lan.faults == old(lan.faults) && WantedRate(d, Download, ThrottleBits()).Some?
                      && old(HasDownloadRoom(d))
      ensures |lan.filters.Keys| <= |old(lan.filters.Keys)| + 1
    {
      ok := Shape(lan, ClassFor(hash, d, Download), WantedRate(d, Download, ThrottleBits()), d.ip.value);
    }

    /** The IFB device, its root, class and filter, and the ingress redirect last. */
    method LimitUpload(d: Device) returns (ok: bool)
      requires Valid() && OneFilterPerClass() && Wants(d, Upload) && quotaThrottleMbps > 0.0
      modifies link, link.ifb
      ensures Valid() && OneFilterPerClass() && link.ifb.refused == old(link.ifb.refused)
      ensures ok ==> UploadReached(d)
      ensures old(link.present) ==> link.present
      ensures link.ifb.classes - {ClassFor(hash, d, Upload)} == old(link.ifb.classes) - {ClassFor(hash, d, Upload)}
      ensures ClassFor(hash, d, Upload) in old(link.ifb.classes) ==> ClassFor(hash, d, Upload) in link.ifb.classes
      ensures SameForOthers(old(link.ifb.filters), link.ifb.filters, ClassFor(hash, d, Upload))
      ensures SameOtherRedirects(old(link.redirects), link.redirects, d.ip.value)
      ensures OneRedirect(old(link.redirects), d.ip.value) ==> OneRedirect(link.redirects, d.ip.value)
      ensures old(UploadReached(d)) ==>
                link.ifb.classes == old(link.ifb.classes) && link.ifb.filters == old(link.ifb.filters)
      ensures old(link.faults) <= link.faults && old(link.ifb.faults) <= link.ifb.faults
      ensures ok <==> link.faults == old(link.faults) && link.ifb.faults == old(link.ifb.faults)
                      && WantedRate(d, Upload, ThrottleBits()).Some? && old(HasUploadRoom(d))
      ensures |link.ifb.filters.Keys| <= |old(link.ifb.filters.Keys)| + 1
      ensures |link.redirects.Keys| <= |old(link.redirects.Keys)| + 1
    {
      ok := EnsureIfb(link);
      if !ok {
        return;
      }
      ok := Shape(link.ifb, ClassFor(hash, d, Upload), WantedRate(d, Upload, ThrottleBits()), d.ip.value);
      if !ok {
        return;
      }
      ok := EnsureUploadRedirect(link, d.ip.value);
    }

    method ApplyDownload(devices: seq<Device>, i: nat) returns (ok: bool)
      requires Valid() && OneFilterPerClass() && quotaThrottleMbps > 0.0
      requires i < |devices|
      modifies lan
      ensures Valid() && OneFilterPerClass() && lan.refused == old(lan.refused)
      ensures old(lan.classes.Keys) <= lan.classes.Keys
      ensures ok ==> DownloadReached(devices[i])
      ensures ClassesAreDistinct(hash, devices) ==>
                forall j | 0 <= j < |devices| && old(DownloadReached(devices[j])) :: DownloadReached(devices[j])
      ensures old(DownloadReached(devices[i])) ==> lan.classes == old(lan.classes) && lan.filters == old(lan.filters)
      ensures old(lan.faults) <= lan.faults
      ensures ok <==> lan.faults == old(lan.faults) && old(HasDownloadRoom(devices[i]))
                      && (Wants(devices[i], Download) ==> WantedRate(devices[i], Download, ThrottleBits()).Some?)
      ensures |lan.filters.Keys| <= |old(lan.filters.Keys)| + 1
    {
      ok := true;
      if Wants(devices[i], Download) {
        ok := LimitDownload(devices[i]);
        KeysStay(old(lan.classes), lan.classes, ClassFor(hash, devices[i], Download));
        forall j | 0 <= j < |devices| && ClassesAreDistinct(hash, devices) && old(DownloadReached(devices[j]))
          ensures DownloadReached(devices[j])
        {
          if Wants(devices[j], Download) && j != i {
            OthersStayShaped(old(lan.classes), old(lan.filters), lan.classes, lan.filters,
                             ClassFor(hash, devices[i], Download), hash, devices[j], Download, ThrottleBits());
          }
        }
      }
    }

    method ApplyUpload(devices: seq<Device>, i: nat) returns (ok: bool)
      requires Valid() && OneFilterPerClass() && quotaThrottleMbps > 0.0
      requires i < |devices|
      modifies link, link.ifb
      ensures Valid() && OneFilterPerClass() && link.ifb.refused == old(link.ifb.refused)
      ensures old(link.ifb.classes.Keys) <= link.ifb.classes.Keys
      ensures ok ==> UploadReached(devices[i])
      ensures ClassesAreDistinct(hash, devices) ==>
                forall j | 0 <= j < |devices| && old(UploadReached(devices[j])) :: UploadReached(devices[j])
      ensures old(UploadReached(devices[i])) ==>
                link.ifb.classes == old(link.ifb.classes) && link.ifb.filters == old(link.ifb.filters)
      ensures old(link.faults) <= link.faults && old(link.ifb.faults) <= link.ifb.faults
      ensures ok <==> link.faults == old(link.faults) && link.ifb.faults == old(link.ifb.faults)
                      && old(HasUploadRoom(devices[i]))
                      && (Wants(devices[i], Upload) ==> WantedRate(devices[i], Upload, ThrottleBits()).Some?)
      ensures |link.ifb.filters.Keys| <= |old(link.ifb.filters.Keys)| + 1
      ensures |link.redirects.Keys| <= |old(link.redirects.Keys)| + 1
    {
      ok := true;
      if Wants(devices[i], Upload) {
        ok := LimitUpload(devices[i]);
        KeysStay(old(link.ifb.classes), link.ifb.classes, ClassFor(hash, devices[i], Upload));
        forall j | 0 <= j < |devices| && ClassesAreDistinct(hash, devices) && old(UploadReached(devices[j]))
          ensures UploadReached(devices[j])
        {
          if Wants(devices[j], Upload) && j != i {
            OthersStayShaped(old(link.ifb.classes), old(link.ifb.filters), link.ifb.classes, link.ifb.filters,
                             ClassFor(hash, devices[i], Upload), hash, devices[j], Upload, ThrottleBits());
            if devices[j].ip != devices[i].ip {
              OtherRedirectsStay(old(link.redirects), link.redirects, devices[i].ip.value, devices[j].ip.value);
            }
          }
        }
      }
    }

    /**
     One device: download first, then upload. It fails exactly on a fault of its own
     commands, a rate that is not positive or a lack of priorities, and leaves the rest of
     the device undone.
     */
    method ApplyDevice(devices: seq<Device>, i: nat) returns (ok: bool)
      requires Valid() && OneFilterPerClass() && quotaThrottleMbps > 0.0
      requires i < |devices|
      modifies lan, link, link.ifb
      ensures Valid() && OneFilterPerClass()
      ensures lan.refused == old(lan.refused) && link.ifb.refused == old(link.ifb.refused)
      ensures old(lan.classes.Keys) <= lan.classes.Keys && old(link.ifb.classes.Keys) <= link.ifb.classes.Keys
      ensures ok ==> DownloadReached(devices[i]) && UploadReached(devices[i])
      ensures ClassesAreDistinct(hash, devices) ==>
                forall j | 0 <= j < |devices| && old(DownloadReached(devices[j])) :: DownloadReached(devices[j])
      ensures ClassesAreDistinct(hash, devices) ==>
                forall j | 0 <= j < |devices| && old(UploadReached(devices[j])) :: UploadReached(devices[j])
      ensures old(DownloadReached(devices[i])) ==> lan.classes == old(lan.classes) && lan.filters == old(lan.filters)
      ensures old(UploadReached(devices[i])) ==>
                link.ifb.classes == old(link.ifb.classes) && link.ifb.filters == old(link.ifb.filters)
      ensures old(Faults()) <= Faults()
      ensures ok <==> Faults() == old(Faults()) && HasRates(devices[i], ThrottleBits()) && old(HasRoom(devices[i]))
      ensures forall n: nat | old(HasSpare(n + 1)) :: HasSpare(n)
    {
      ok := ApplyDownload(devices, i);
      if ok {
        ok := ApplyUpload(devices, i);
      }
    }

    /**
     The device cannot be served whatever the environment does, had a fault among its own
     commands, or found no free priority at its turn.
     */
    ghost predicate MayFail(d: Device, i: nat, faulted: set<nat>, crowded: set<nat>)
      requires quotaThrottleMbps > 0.0
    {
      IsEnforceable(d) && (!HasRates(d, ThrottleBits()) || i in faulted || i in crowded)
    }

    /** The first n devices have been tried, and those that failed are exactly those that may. */
    ghost predicate AreAccounted(devices: seq<Device>, n: nat, failed: set<nat>, faulted: set<nat>, crowded: set<nat>)
      requires quotaThrottleMbps > 0.0
    {
      && faulted <= failed && crowded <= failed
      && (forall k: nat :: k in failed <==> k < n && k < |devices| && MayFail(devices[k], k, faulted, crowded))
    }

    lemma AccountOneMore(devices: seq<Device>, i: nat, failed: set<nat>, faulted: set<nat>, crowded: set<nat>,
                         ok: bool, hadFault: bool, hadRoom: bool)
      requires quotaThrottleMbps > 0.0 && i < |devices| && AreAccounted(devices, i, failed, faulted, crowded)
      requires !ok <==> IsEnforceable(devices[i]) && (hadFault || !hadRoom || !HasRates(devices[i], ThrottleBits()))
      requires hadFault || !hadRoom ==> IsEnforceable(devices[i])
      ensures AreAccounted(devices, i + 1, With(failed, i, !ok), With(faulted, i, hadFault), With(crowded, i, !hadRoom))
    {
      hide HasRates, IsEnforceable;
    }

    /**
     Every device is tried, and fails only for its own sake: for a rate that is not
     positive, a fault in its own turn (as the meter of the fault counter shows) or a lack
     of priorities (which a listing with room for all devices rules out).
     */
    method ApplyAll(devices: seq<Device>)
      returns (failed: set<nat>, ghost faulted: set<nat>, ghost crowded: set<nat>, ghost meter: seq<nat>)
      requires Valid() && OneFilterPerClass() && quotaThrottleMbps > 0.0
      modifies lan, link, link.ifb
      ensures Valid() && OneFilterPerClass()
      ensures lan.refused == old(lan.refused) && link.ifb.refused == old(link.ifb.refused)
      ensures NoClassLost(old(lan.classes), lan.classes) && NoClassLost(old(link.ifb.classes), link.ifb.classes)
      ensures AreAccounted(devices, |devices|, failed, faulted, crowded)
      ensures IsMeter(meter, |devices|, old(Faults()), Faults(), faulted)
      ensures old(HasSpare(|devices|)) ==> IsNone(crowded)
      ensures ClassesAreDistinct(hash, devices) ==>
                && AllBut(|devices|, failed, DownloadsReached(devices))
                && AllBut(|devices|, failed, UploadsReached(devices))
      ensures ClassesAreDistinct(hash, devices) && AllBut(|devices|, {}, old(DownloadsReached(devices))) ==>
                lan.classes == old(lan.classes) && lan.filters == old(lan.filters)
      ensures ClassesAreDistinct(hash, devices) && AllBut(|devices|, {}, old(UploadsReached(devices))) ==>
                link.ifb.classes == old(link.ifb.classes) && link.ifb.filters == old(link.ifb.filters)
    {
      hide DownloadsReached, UploadsReached, ClassesAreDistinct, HasSpare, HasRoom, AreAccounted, HasRates;
      hide Valid, OneFilterPerClass, Faults, AllBut, IsMeter, With, IsNone, NoClassLost;
      ghost var distinct := ClassesAreDistinct(hash, devices);
      ghost var spare, faults := HasSpare(|devices|), Faults();
      ghost var downloadsDone := distinct && AllBut(|devices|, {}, DownloadsReached(devices));
      ghost var uploadsDone := distinct && AllBut(|devices|, {}, UploadsReached(devices));
      failed, faulted, crowded := {}, {}, {};
      NoneTried(DownloadsReached(devices));
      NoneTried(UploadsReached(devices));
      NothingAccounted(devices);
      meter := [faults];
      MeterStarts(faults);
      NoneWith({}, 0, false);
      NoClassLostAtAll(lan.classes, lan.classes, lan.classes);
      NoClassLostAtAll(link.ifb.classes, link.ifb.classes, link.ifb.classes);
      for i := 0 to |devices|
        invariant Valid() && OneFilterPerClass()
        invariant lan.refused == old(lan.refused) && link.ifb.refused == old(link.ifb.refused)
        invariant NoClassLost(old(lan.classes), lan.classes) && NoClassLost(old(link.ifb.classes), link.ifb.classes)
        invariant AreAccounted(devices, i, failed, faulted, crowded)
        invariant IsMeter(meter, i, faults, Faults(), faulted)
        invariant spare ==> IsNone(crowded) && HasSpare(|devices| - i)
        invariant distinct ==> AllBut(i, failed, DownloadsReached(devices))
                               && AllBut(i, failed, UploadsReached(devices))
        invariant downloadsDone ==>
                    && lan.classes == old(lan.classes) && lan.filters == old(lan.filters)
                    && AllBut(|devices|, {}, DownloadsReached(devices))
        invariant uploadsDone ==>
                    && link.ifb.classes == old(link.ifb.classes) && link.ifb.filters == old(link.ifb.filters)
                    && AllBut(|devices|, {}, UploadsReached(devices))
      {
        SpareForNext(devices, i);
        ghost var downloads, uploads := DownloadsReached(devices), UploadsReached(devices);
        ghost var before, lanClasses, ifbClasses := Faults(), lan.classes, link.ifb.classes;
        IsAmongAll(|devices|, i, downloads);
        IsAmongAll(|devices|, i, uploads);
        var ok;
        ghost var hadFault, hadRoom;
        ok, hadFault, hadRoom := ApplyNext(devices, i);
        AccountOneMore(devices, i, failed, faulted, crowded, ok, hadFault, hadRoom);
        MeterOneMore(meter, i, faults, before, Faults(), faulted, hadFault);
        meter := meter + [Faults()];
        AllButOneMore(|devices|, i, failed, downloads, DownloadsReached(devices), distinct, ok);
        AllButOneMore(|devices|, i, failed, uploads, UploadsReached(devices), distinct, ok);
        NoneWith(crowded, i, !hadRoom);
        NoClassLostAtAll(old(lan.classes), lanClasses, lan.classes);
        NoClassLostAtAll(old(link.ifb.classes), ifbClasses, link.ifb.classes);
        failed := With(failed, i, !ok);
        faulted, crowded := With(faulted, i, hadFault), With(crowded, i, !hadRoom);
      }
    }

    /** A device with nothing to enforce is passed over. */
    method ApplyNext(devices: seq<Device>, i: nat) returns (ok: bool, ghost hadFault: bool, ghost hadRoom: bool)
      requires Valid() && OneFilterPerClass() && quotaThrottleMbps > 0.0
      requires i < |devices|
      modifies lan, link, link.ifb
      ensures Valid() && OneFilterPerClass()
      ensures lan.refused == old(lan.refused) && link.ifb.refused == old(link.ifb.refused)
      ensures NoClassLost(old(lan.classes), lan.classes) && NoClassLost(old(link.ifb.classes), link.ifb.classes)
      ensures ok ==> i in DownloadsReached(devices) && i in UploadsReached(devices)
      ensures ClassesAreDistinct(hash, devices) ==>
                && old(DownloadsReached(devices)) <= DownloadsReached(devices)
                && old(UploadsReached(devices)) <= UploadsReached(devices)
      ensures i in old(DownloadsReached(devices)) ==>
                lan.classes == old(lan.classes) && lan.filters == old(lan.filters)
      ensures i in old(UploadsReached(devices)) ==>
                link.ifb.classes == old(link.ifb.classes) && link.ifb.filters == old(link.ifb.filters)
      ensures old(Faults()) <= Faults() && (hadFault <==> old(Faults()) < Faults())
      ensures hadRoom <==> !IsEnforceable(devices[i]) || old(HasRoom(devices[i]))
      ensures !ok <==> IsEnforceable(devices[i]) && (hadFault || !hadRoom || !HasRates(devices[i], ThrottleBits()))
      ensures hadFault ==> IsEnforceable(devices[i])
      ensures i < |devices| ==> old(HasSpare(|devices| - i)) ==> HasSpare(|devices| - (i + 1))
    {
      hadRoom := !IsEnforceable(devices[i]) || HasRoom(devices[i]);
      if !IsEnforceable(devices[i]) {
        return true, false, true;
      }
      ok := ApplyDevice(devices, i);
      hadFault := old(Faults()) < Faults();
    }

    lemma NothingAccounted(devices: seq<Device>)
      requires quotaThrottleMbps > 0.0
      ensures AreAccounted(devices, 0, {}, {}, {})
    {
    }

    lemma SpareForNext(devices: seq<Device>, i: nat)
      requires i < |devices|
      ensures HasSpare(|devices| - i) ==> HasRoom(devices[i]) && HasSpare(|devices| - (i + 1))
    {
      if HasSpare(|devices| - i) {
        SpareIsRoom(devices[i]);
      }
    }

    /** With nothing to enforce, the HTB tree goes first and the IFB device after it. */
    method ClearBaseState() returns (ok: bool)
      requires Valid() && OneFilterPerClass()
      modifies lan, link, link.ifb
      ensures OneFilterPerClass()
      ensures Valid() && lan.refused == old(lan.refused) && link.ifb.refused == old(link.ifb.refused)
      ensures ok ==> lan.classes == map[] && lan.filters == map[] && !link.present
      ensures old(lan.classes) == map[] ==> lan.classes == map[]
      ensures old(lan.filters) == map[] ==> lan.filters == map[]
      ensures old(link.ifb.classes) == map[] ==> link.ifb.classes == map[]
      ensures old(link.ifb.filters) == map[] ==> link.ifb.filters == map[]
      ensures old(Faults()) <= Faults() && (ok <==> Faults() == old(Faults()))
    {
      ok := lan.Show();
      if !ok {
        return;
      }
      if lan.root {
        ok := lan.DeleteRoot();
        if !ok {
          return;
        }
      }
      ok := link.Show();
      if !ok {
        return;
      }
      if link.present {
        ok := RemoveIfb(link);
      }
    }

    method ReconcileDownloadState(expected: set<ClassId>) returns (ok: bool)
      requires Valid() && OneFilterPerClass()
      modifies lan
      ensures Valid() && OneFilterPerClass() && lan.refused == old(lan.refused)
      ensures Pruned(old(lan.classes), old(lan.filters), lan.classes, lan.filters, expected)
      ensures ok ==> lan.classes.Keys <= expected
      ensures ok ==> forall p | p in lan.filters :: lan.filters[p].classId in expected
      ensures old(lan.faults) <= lan.faults && (ok <==> lan.faults == old(lan.faults))
    {
      ok := ReconcileInterfaceState(lan, expected);
    }

    /**
     A missing IFB device is an error only while uploads are expected. The redirects
     that may stay are read back from the filters that survived the pruning.
     */
    method ReconcileUploadState(expected: set<ClassId>) returns (ok: bool)
      requires Valid() && OneFilterPerClass()
      modifies link, link.ifb
      ensures Valid() && OneFilterPerClass()
      ensures link.present == old(link.present) && link.ifb.refused == old(link.ifb.refused)
      ensures Pruned(old(link.ifb.classes), old(link.ifb.filters), link.ifb.classes, link.ifb.filters, expected)
      ensures forall p | p in link.redirects ::
                p in old(link.redirects) && link.redirects[p] == old(link.redirects)[p]
      ensures forall p | p in old(link.redirects)
                         && (!IntoIfb(old(link.redirects)[p])
                             || IsExpectedRedirect(old(link.redirects)[p], IpsOf(link.ifb.filters, expected))) ::
                p in link.redirects
      ensures ok ==> link.ifb.classes.Keys <= expected && (link.present || expected == {})
      ensures ok ==> forall p | p in link.ifb.filters :: link.ifb.filters[p].classId in expected
      ensures ok ==> forall p | p in link.redirects && IntoIfb(link.redirects[p]) ::
                IsExpectedRedirect(link.redirects[p], IpsOf(link.ifb.filters, expected))
      ensures old(link.faults) <= link.faults && old(link.ifb.faults) <= link.ifb.faults
      ensures ok <==> link.faults == old(link.faults) && link.ifb.faults == old(link.ifb.faults)
                      && (link.present || expected == {})
    {
      ok := link.Show();
      if !ok {
        return;
      }
      if !link.present {
        return expected == {};
      }
      ok := ReconcileInterfaceState(link.ifb, expected);
      if !ok {
        return;
      }
      ok := link.ifb.Show();
      if !ok {
        return;
      }
      ok := ReconcileUploadRedirects(link, IpsOf(link.ifb.filters, expected));
    }

    /** Exactness of one direction, from every device being shaped and everything else being pruned. */
    lemma ExactnessFollows(classes: map<ClassId, ClassRate>, filters: map<nat, Filter>,
                           devices: seq<Device>, dir: Direction)
      requires quotaThrottleMbps > 0.0 && OnePerClass(filters)
      requires forall i | 0 <= i < |devices| && Wants(devices[i], dir) ::
                 IsShaped(classes, filters, hash, devices[i], dir, ThrottleBits())
      requires classes.Keys <= Expected(hash, devices, dir)
      requires forall p | p in filters :: filters[p].classId in Expected(hash, devices, dir)
      ensures IsExactly(classes, filters, hash, devices, dir, ThrottleBits())
    {
      forall c | c in Expected(hash, devices, dir)
        ensures c in classes
      {
        var i :| 0 <= i < |devices| && Wants(devices[i], dir) && c == ClassFor(hash, devices[i], dir);
        assert IsShaped(classes, filters, hash, devices[i], dir, ThrottleBits());
      }
      assert Expected(hash, devices, dir) <= classes.Keys;
    }

    /** The two pruning passes, each run whatever became of the other. */
    method Prune(devices: seq<Device>) returns (downloadPruned: bool, uploadPruned: bool)
      requires Valid() && OneFilterPerClass() && quotaThrottleMbps > 0.0
      modifies lan, link, link.ifb
      ensures Valid() && OneFilterPerClass()
      ensures lan.refused == old(lan.refused) && link.ifb.refused == old(link.ifb.refused)
      ensures Pruned(old(lan.classes), old(lan.filters), lan.classes, lan.filters, Expected(hash, devices, Download))
      ensures Pruned(old(link.ifb.classes), old(link.ifb.filters), link.ifb.classes, link.ifb.filters,
                     Expected(hash, devices, Upload))
      ensures old(DownloadsReached(devices)) <= DownloadsReached(devices)
      ensures old(UploadsReached(devices)) <= UploadsReached(devices)
      ensures && downloadPruned && uploadPruned
              && (forall i | 0 <= i < |devices| :: DownloadReached(devices[i]) && UploadReached(devices[i]))
              ==> IsSettled(devices)
      ensures old(Faults()) <= Faults()
      ensures downloadPruned && uploadPruned <==>
                Faults() == old(Faults()) && (link.present || Expected(hash, devices, Upload) == {})
      ensures link.present == old(link.present)
    {
      downloadPruned := ReconcileDownloadState(Expected(hash, devices, Download));
      forall i | 0 <= i < |devices| && old(DownloadReached(devices[i]))
        ensures DownloadReached(devices[i])
      {
        if Wants(devices[i], Download) {
          PruningKeepsShaped(old(lan.classes), old(lan.filters), lan.classes, lan.filters,
                             hash, devices, i, Download, ThrottleBits());
        }
      }
      uploadPruned := PruneUploads(devices);
      if && downloadPruned && uploadPruned
         && forall i | 0 <= i < |devices| :: DownloadReached(devices[i]) && UploadReached(devices[i]) {
        ExactnessFollows(lan.classes, lan.filters, devices, Download);
      }
    }

    method PruneUploads(devices: seq<Device>) returns (ok: bool)
      requires Valid() && OneFilterPerClass() && quotaThrottleMbps > 0.0
      modifies link, link.ifb
      ensures Valid() && OneFilterPerClass() && link.ifb.refused == old(link.ifb.refused)
      ensures Pruned(old(link.ifb.classes), old(link.ifb.filters), link.ifb.classes, link.ifb.filters,
                     Expected(hash, devices, Upload))
      ensures forall i | 0 <= i < |devices| && old(UploadReached(devices[i])) :: UploadReached(devices[i])
      ensures ok && (forall i | 0 <= i < |devices| :: UploadReached(devices[i])) ==>
                && IsExactly(link.ifb.classes, link.ifb.filters, hash, devices, Upload, ThrottleBits())
                && RedirectsAreExact(link.redirects, devices)
      ensures link.present == old(link.present)
      ensures old(link.faults) <= link.faults && old(link.ifb.faults) <= link.ifb.faults
      ensures ok <==> link.faults == old(link.faults) && link.ifb.faults == old(link.ifb.faults)
                      && (link.present || Expected(hash, devices, Upload) == {})
    {
      var expected := Expected(hash, devices, Upload);
      ok := ReconcileUploadState(expected);
      forall i | 0 <= i < |devices| && old(UploadReached(devices[i]))
        ensures UploadReached(devices[i])
      {
        if Wants(devices[i], Upload) {
          PruningKeepsShaped(old(link.ifb.classes), old(link.ifb.filters), link.ifb.classes, link.ifb.filters,
                             hash, devices, i, Upload, ThrottleBits());
          RedirectOfShapedStays(old(link.redirects), link.redirects, link.ifb.classes, link.ifb.filters, devices, i);
        }
      }
      if ok && forall i | 0 <= i < |devices| :: UploadReached(devices[i]) {
        ExactnessFollows(link.ifb.classes, link.ifb.filters, devices, Upload);
        forall p | p in link.redirects && IntoIfb(link.redirects[p])
          ensures IsUploadIp(devices, link.redirects[p].ip.value)
        {
          IpsAreUploadIps(link.ifb.classes, link.ifb.filters, devices, link.redirects[p].ip.value);
        }
      }
    }

    /** A shaped device's filter survives, so its IP is read back and its redirect stays. */
    lemma RedirectOfShapedStays(before: map<nat, Redirect>, after: map<nat, Redirect>,
                                classes: map<ClassId, ClassRate>, filters: map<nat, Filter>,
                                devices: seq<Device>, i: nat)
      requires quotaThrottleMbps > 0.0 && i < |devices| && Wants(devices[i], Upload)
      requires IsShaped(classes, filters, hash, devices[i], Upload, ThrottleBits())
      requires OneRedirect(before, devices[i].ip.value)
      requires forall p | p in after :: p in before && after[p] == before[p]
      requires forall p | p in before && IsExpectedRedirect(before[p],
                                                        IpsOf(filters, Expected(hash, devices, Upload))) ::
                 p in after
      ensures OneRedirect(after, devices[i].ip.value)
    {
      var ip := devices[i].ip.value;
      var q :| q in filters && filters[q] == Filter(ClassFor(hash, devices[i], Upload), Some(ip));
      assert filters[q].classId in Expected(hash, devices, Upload);
      assert ip in IpsOf(filters, Expected(hash, devices, Upload));
      var p :| IsOnlyAt(before, ip, p);
      assert IsOnlyAt(after, ip, p);
    }

    lemma IpsAreUploadIps(classes: map<ClassId, ClassRate>, filters: map<nat, Filter>, devices: seq<Device>, ip: Ip)
      requires quotaThrottleMbps > 0.0
      requires IsExactly(classes, filters, hash, devices, Upload, ThrottleBits())
      requires ip in IpsOf(filters, Expected(hash, devices, Upload))
      ensures IsUploadIp(devices, ip)
    {
      var p :| p in filters && filters[p].ip == Some(ip);
      FiltersOfExactState(classes, filters, hash, devices, Upload, ThrottleBits(), p);
    }

    /** Pruning an exact state changes nothing. */
    lemma ExactStateIsNotPruned(classes: map<ClassId, ClassRate>, filters: map<nat, Filter>,
                                classes': map<ClassId, ClassRate>, filters': map<nat, Filter>,
                                devices: seq<Device>, dir: Direction)
      requires quotaThrottleMbps > 0.0
      requires IsExactly(classes, filters, hash, devices, dir, ThrottleBits())
      requires Pruned(classes, filters, classes', filters', Expected(hash, devices, dir))
      ensures classes' == classes && filters' == filters
    {
      forall p | p in filters
        ensures p in filters'
      {
        assert filters[p].classId in classes.Keys;
        assert MayStay(classes, Expected(hash, devices, dir), filters[p]);
      }
    }

    lemma SettledIsReached(devices: seq<Device>)
      requires Valid() && quotaThrottleMbps > 0.0 && IsSettled(devices)
      ensures AllBut(|devices|, {}, DownloadsReached(devices)) && AllBut(|devices|, {}, UploadsReached(devices))
    {
      forall i | 0 <= i < |devices|
        ensures DownloadReached(devices[i]) && UploadReached(devices[i])
      {
      }
    }

    lemma ReachedMeans(devices: seq<Device>, failed: set<nat>)
      requires quotaThrottleMbps > 0.0
      requires AllBut(|devices|, failed, DownloadsReached(devices))
               && AllBut(|devices|, failed, UploadsReached(devices))
      ensures forall i | 0 <= i < |devices| && i !in failed :: DownloadReached(devices[i]) && UploadReached(devices[i])
    {
      hide DownloadReached, UploadReached;
      forall i | 0 <= i < |devices| && i !in failed
        ensures DownloadReached(devices[i]) && UploadReached(devices[i])
      {
        assert i in DownloadsReached(devices) && i in UploadsReached(devices);
      }
    }

    lemma NothingExpected(devices: seq<Device>)
      requires forall i | 0 <= i < |devices| :: !IsEnforceable(devices[i])
      ensures forall dir: Direction :: Expected(hash, devices, dir) == {}
    {
    }

    /** The reconciler is configured for these devices: nothing but the environment can make it fail. */
    ghost predicate IsServiceable(devices: seq<Device>)
      reads this, lan, link, link.ifb
    {
      && quotaThrottleMbps > 0.0 && ClassesAreDistinct(hash, devices) && HasSpare(|devices|)
      && forall d | d in devices && d.identityValidated && d.ip.Some? && d.policy.Some? && !d.policy.value.throttled ::
           && (d.policy.value.downloadLimit.Some? ==> d.policy.value.downloadLimit.value > 0)
           && (d.policy.value.uploadLimit.Some? ==> d.policy.value.uploadLimit.value > 0)
    }

    lemma ServiceableHaveRates(devices: seq<Device>)
      requires IsServiceable(devices)
      ensures forall i | 0 <= i < |devices| && IsEnforceable(devices[i]) :: HasRates(devices[i], ThrottleBits())
    {
      hide ClassesAreDistinct, HasSpare;
      forall i | 0 <= i < |devices| && IsEnforceable(devices[i])
        ensures HasRates(devices[i], ThrottleBits())
      {
        RatesByFields(devices[i], ThrottleBits());
        assert devices[i] in devices;
      }
    }

    /** What one reconciliation owes to the environment: which devices may have failed, and why. */
    ghost predicate FailsOnlyFor(devices: seq<Device>, outcome: Outcome, faulted: set<nat>, crowded: set<nat>)
      requires outcome.Applied? ==> quotaThrottleMbps > 0.0
    {
      outcome.Applied? ==>
        AreAccounted(devices, |devices|, outcome.failed, faulted, crowded)
    }

    /**
     One reconciliation. Without a fault and with a serviceable configuration it is clean,
     and a clean one ends in exactly the desired state. A device fails only for its own
     sake: with distinct classes every other one reaches its class, filter and redirect
     whatever happens to the others. A settled state is not disturbed, even by failing
     commands, and the kernel is never asked to delete a class that a filter references.
     */
    method Reconcile(devices: seq<Device>)
      returns (outcome: Outcome, ghost faulted: set<nat>, ghost crowded: set<nat>)
      requires Valid() && OneFilterPerClass()
      modifies this, lan, link, link.ifb
      ensures Valid() && OneFilterPerClass()
      ensures old(running) <==> outcome.Skipped?
      ensures outcome.Skipped? ==>
                && running && unchanged(lan) && unchanged(link) && unchanged(link.ifb)
      ensures !outcome.Skipped? ==> !running
      ensures lan.refused == old(lan.refused) && link.ifb.refused == old(link.ifb.refused)
      ensures forall c | c in old(lan.classes) && c in Expected(hash, devices, Download) :: c in lan.classes
      ensures forall c | c in old(link.ifb.classes) && c in Expected(hash, devices, Upload) :: c in link.ifb.classes
      ensures !outcome.Skipped? ==>
                (outcome.Cleared? <==>
                   forall d | d in devices && d.identityValidated && d.ip.Some? && d.policy.Some? ::
                     !d.policy.value.throttled
                     && d.policy.value.downloadLimit.None? && d.policy.value.uploadLimit.None?)
      ensures outcome.Applied? ==> quotaThrottleMbps > 0.0
      ensures outcome.Aborted? ==> Faults() > old(Faults()) || quotaThrottleMbps <= 0.0
      ensures old(Faults()) <= Faults() && |faulted| <= Faults() - old(Faults())
      ensures old(HasSpare(|devices|)) ==> crowded == {}
      ensures FailsOnlyFor(devices, outcome, faulted, crowded)
      ensures outcome.Applied? && ClassesAreDistinct(hash, devices) ==>
                forall i | 0 <= i < |devices| && i !in outcome.failed ::
                  DownloadReached(devices[i]) && UploadReached(devices[i])
      ensures !outcome.Skipped? && Faults() == old(Faults()) && old(IsServiceable(devices)) ==>
                outcome.IsClean() && IsSettled(devices)
      ensures outcome.IsClean() ==> Faults() == old(Faults())
      ensures quotaThrottleMbps > 0.0 && outcome.IsClean() && ClassesAreDistinct(hash, devices) ==>
                IsSettled(devices) && PoliciesAreInForce(devices)
      ensures outcome == Cleared(true) ==> lan.classes == map[] && lan.filters == map[] && !link.present
      ensures quotaThrottleMbps > 0.0 && old(IsSettled(devices)) && ClassesAreDistinct(hash, devices) ==>
                && lan.classes == old(lan.classes) && lan.filters == old(lan.filters)
                && link.ifb.classes == old(link.ifb.classes) && link.ifb.filters == old(link.ifb.filters)
    {
      faulted, crowded := {}, {};
      if running {
        return Skipped, {}, {};
      }
      running := true;
      if forall i | 0 <= i < |devices| :: !IsEnforceable(devices[i]) {
        NothingExpected(devices);
        var ok := ClearBaseState();
        running := false;
        SettledIsInForce(devices);
        return Cleared(ok), {}, {};
      }
      outcome, faulted, crowded := ReconcilePolicies(devices);
      running := false;
      SettledIsInForce(devices);
    }

    method ReconcilePolicies(devices: seq<Device>)
      returns (outcome: Outcome, ghost faulted: set<nat>, ghost crowded: set<nat>)
      requires Valid() && OneFilterPerClass()
      modifies lan, link, link.ifb
      ensures Valid() && OneFilterPerClass()
      ensures outcome.Aborted? || outcome.Applied?
      ensures lan.refused == old(lan.refused) && link.ifb.refused == old(link.ifb.refused)
      ensures forall c | c in old(lan.classes) && c in Expected(hash, devices, Download) :: c in lan.classes
      ensures forall c | c in old(link.ifb.classes) && c in Expected(hash, devices, Upload) :: c in link.ifb.classes
      ensures outcome.Applied? ==> quotaThrottleMbps > 0.0
      ensures outcome.Aborted? ==> Faults() > old(Faults()) || quotaThrottleMbps <= 0.0
      ensures old(Faults()) <= Faults() && |faulted| <= Faults() - old(Faults())
      ensures old(HasSpare(|devices|)) ==> crowded == {}
      ensures FailsOnlyFor(devices, outcome, faulted, crowded)
      ensures outcome.Applied? && ClassesAreDistinct(hash, devices) ==>
                forall i | 0 <= i < |devices| && i !in outcome.failed ::
                  DownloadReached(devices[i]) && UploadReached(devices[i])
      ensures Faults() == old(Faults()) && old(IsServiceable(devices)) ==> outcome.IsClean()
      ensures outcome.IsClean() ==> Faults() == old(Faults())
      ensures outcome.IsClean() && ClassesAreDistinct(hash, devices) ==> IsSettled(devices)
      ensures quotaThrottleMbps > 0.0 && old(IsSettled(devices)) && ClassesAreDistinct(hash, devices) ==>
                && lan.classes == old(lan.classes) && lan.filters == old(lan.filters)
                && link.ifb.classes == old(link.ifb.classes) && link.ifb.filters == old(link.ifb.filters)
    {
      hide IsExactly, RedirectsAreExact, HasRates, ClassesAreDistinct, AreAccounted;
      hide DownloadReached, UploadReached;
      var ok := EnsureRootState(lan, uplinkRate);
      if !ok || quotaThrottleMbps <= 0.0 {
        return Aborted, {}, {};
      }
      outcome, faulted, crowded := ApplyAndPrune(devices);
    }

    /** The part of a reconciliation that captures its failures. */
    method ApplyAndPrune(devices: seq<Device>)
      returns (outcome: Outcome, ghost faulted: set<nat>, ghost crowded: set<nat>)
      requires Valid() && OneFilterPerClass() && quotaThrottleMbps > 0.0
      modifies lan, link, link.ifb
      ensures Valid() && OneFilterPerClass() && outcome.Applied?
      ensures lan.refused == old(lan.refused) && link.ifb.refused == old(link.ifb.refused)
      ensures forall c | c in old(lan.classes) && c in Expected(hash, devices, Download) :: c in lan.classes
      ensures forall c | c in old(link.ifb.classes) && c in Expected(hash, devices, Upload) :: c in link.ifb.classes
      ensures old(Faults()) <= Faults() && |faulted| <= Faults() - old(Faults())
      ensures old(HasSpare(|devices|)) ==> crowded == {}
      ensures AreAccounted(devices, |devices|, outcome.failed, faulted, crowded)
      ensures ClassesAreDistinct(hash, devices) ==>
                forall i | 0 <= i < |devices| && i !in outcome.failed ::
                  DownloadReached(devices[i]) && UploadReached(devices[i])
      ensures Faults() == old(Faults()) && old(IsServiceable(devices)) ==> outcome.IsClean()
      ensures outcome.IsClean() ==> Faults() == old(Faults())
      ensures outcome.IsClean() && ClassesAreDistinct(hash, devices) ==> IsSettled(devices)
      ensures old(IsSettled(devices)) && ClassesAreDistinct(hash, devices) ==>
                && lan.classes == old(lan.classes) && lan.filters == old(lan.filters)
                && link.ifb.classes == old(link.ifb.classes) && link.ifb.filters == old(link.ifb.filters)
    {
      hide IsShaped, OneRedirect, HasRates, ClassesAreDistinct, AreAccounted, AllBut, HasSpare, Pruned;
      hide DownloadsReached, UploadsReached, DownloadReached, UploadReached, IsExactly, RedirectsAreExact;
      hide OneFilterPerClass, NoClassLost, Faults;
      if IsSettled(devices) {
        SettledIsReached(devices);
      }
      if IsServiceable(devices) {
        ServiceableHaveRates(devices);
      }
      var failed;
      ghost var meter;
      failed, faulted, crowded, meter := ApplyAll(devices);
      MeterBounds(meter, |devices|, old(Faults()), Faults(), faulted);
      ghost var lanClasses, lanFilters := lan.classes, lan.filters;
      ghost var ifbClasses, ifbFilters := link.ifb.classes, link.ifb.filters;
      if ClassesAreDistinct(hash, devices) && failed == {} {
        ReachedMeans(devices, failed);
        ReachedIsPresent(devices);
      }
      NoneFailed(devices, failed, faulted, crowded);
      ghost var downloads, uploads := DownloadsReached(devices), UploadsReached(devices);
      var downloadPruned, uploadPruned := Prune(devices);
      if ClassesAreDistinct(hash, devices) {
        MoreReached(|devices|, failed, downloads, DownloadsReached(devices));
        MoreReached(|devices|, failed, uploads, UploadsReached(devices));
        ReachedMeans(devices, failed);
      }
      ExpectedClassesStay(old(lan.classes), lanClasses, lanFilters, lan.classes, lan.filters,
                          Expected(hash, devices, Download));
      ExpectedClassesStay(old(link.ifb.classes), ifbClasses, ifbFilters, link.ifb.classes, link.ifb.filters,
                          Expected(hash, devices, Upload));
      if old(IsSettled(devices)) && ClassesAreDistinct(hash, devices) {
        ExactStateIsNotPruned(lanClasses, lanFilters, lan.classes, lan.filters, devices, Download);
        ExactStateIsNotPruned(ifbClasses, ifbFilters, link.ifb.classes, link.ifb.filters, devices, Upload);
      }
      outcome := Applied(failed, downloadPruned, uploadPruned);
    }

    lemma NoneFailed(devices: seq<Device>, failed: set<nat>, faulted: set<nat>, crowded: set<nat>)
      requires quotaThrottleMbps > 0.0 && AreAccounted(devices, |devices|, failed, faulted, crowded)
      ensures faulted == {} && crowded == {}
              && (forall i | 0 <= i < |devices| && IsEnforceable(devices[i]) :: HasRates(devices[i], ThrottleBits()))
              ==> failed == {}
      ensures failed == {} ==> faulted == {}
    {
      hide HasRates;
    }

    /** Once every upload is in place the IFB device exists, unless none is wanted. */
    lemma ReachedIsPresent(devices: seq<Device>)
      requires quotaThrottleMbps > 0.0 && forall i | 0 <= i < |devices| :: UploadReached(devices[i])
      ensures link.present || Expected(hash, devices, Upload) == {}
    {
      if c :| c in Expected(hash, devices, Upload) {
        var i :| 0 <= i < |devices| && Wants(devices[i], Upload) && ClassFor(hash, devices[i], Upload) == c;
        assert UploadReached(devices[i]);
      }
    }
  }
}
