/** How an observation merges with the identity already stored for a device. */
module IdentityTrust {
  import opened Common
  import opened IdentityValidator
  import opened Observations

  /** What is stored of a device's identity. */
  datatype Stored = Stored(
    mac: Mac,
    ip: Ip,
    l2Visible: bool,
    proxyMac: Option<Mac>,
    validated: bool,
    source: IdentitySource)

  predicate IsTrusted(s: Stored) {
    s.source == DhcpConfirmedProxy || s.source == ProxyAcceptedByAdmin
  }

  /** The device was seen itself, or a capture confirmed it. */
  predicate IsPositive(id: Identity) {
    || (id.source == Dhcp && id.l2Visible)
    || id.source == DhcpConfirmedProxy
    || id.source == StaticArp
  }

  function OrElse(a: Option<Mac>, b: Option<Mac>): Option<Mac> {
    if a.Some? then a else b
  }

  /** The record knows better: it is trusted, or validated behind the same proxy, and nothing positive was seen. */
  predicate RecordStands(existing: Option<Stored>, observed: Identity) {
    && existing.Some? && !IsPositive(observed)
    && (IsTrusted(existing.value)
        || (existing.value.validated && existing.value.proxyMac.Some? && existing.value.proxyMac == observed.proxyMac))
  }

  /**
   Where and how a device was seen always comes from the observation. While the record
   stands, MAC, source and validated flag come from it and a known proxy is not forgotten;
   otherwise the observation replaces everything.
   */
  function Reconcile(existing: Option<Stored>, observed: Identity): (r: Identity)
    ensures r.ip == observed.ip && r.l2Visible == observed.l2Visible && r.neighborState == observed.neighborState
    ensures RecordStands(existing, observed) ==>
              && r.mac == existing.value.mac && r.source == existing.value.source
              && r.validated == existing.value.validated && !r.deferred
              && r.proxyMac == OrElse(observed.proxyMac, existing.value.proxyMac)
    ensures !RecordStands(existing, observed) ==> r == observed
  {
    if existing.None? then observed
    else
      var e := existing.value;
      if IsTrusted(e) && (!IsPositive(observed) || observed.source == ProxyUnconfirmed) then
        observed.(mac := e.mac, source := e.source, validated := e.validated,
                  proxyMac := OrElse(observed.proxyMac, e.proxyMac), deferred := false)
      else if e.validated && e.proxyMac.Some? && observed.proxyMac == e.proxyMac && !IsPositive(observed) then
        observed.(mac := e.mac, source := e.source, validated := true,
                  proxyMac := OrElse(e.proxyMac, observed.proxyMac), deferred := false)
      else observed
  }

  function Saved(id: Identity): Stored {
    Stored(id.mac, id.ip, id.l2Visible, id.proxyMac, id.validated, id.source)
  }

  /** The record after a run of observations, the first of which creates it if there was none. */
  function Run(existing: Option<Stored>, observed: seq<Identity>): Option<Stored> {
    if observed == [] then existing
    else Some(Saved(Reconcile(Run(existing, observed[..|observed| - 1]), observed[|observed| - 1])))
  }

  /**
   What is stored after an observation, field by field: what was stored of a confirmed or
   accepted proxy, or of a validated device behind the same proxy, stands until the device
   is seen itself, confirmed by a capture or found as a static one.
   */
  lemma StoredByFields(e: Stored, o: Identity)
    ensures Saved(Reconcile(None, o)) == Stored(o.mac, o.ip, o.l2Visible, o.proxyMac, o.validated, o.source)
    ensures Saved(Reconcile(Some(e), o)) ==
            if && !(o.source == Dhcp && o.l2Visible) && o.source != DhcpConfirmedProxy && o.source != StaticArp
               && (e.source == DhcpConfirmedProxy || e.source == ProxyAcceptedByAdmin
                   || (e.validated && e.proxyMac.Some? && o.proxyMac == e.proxyMac))
            then Stored(e.mac, o.ip, o.l2Visible, if o.proxyMac.Some? then o.proxyMac else e.proxyMac,
                        e.validated, e.source)
            else Stored(o.mac, o.ip, o.l2Visible, o.proxyMac, o.validated, o.source)
  {
  }

  /**
   Over any run of observations, none of which is the device itself, a capture's confirmation
   or a static entry, a confirmed or accepted proxy keeps its source and its validated flag.
   */
  lemma {:induction false} TrustSurvivesSilence(existing: Stored, observed: seq<Identity>)
    requires existing.source == DhcpConfirmedProxy || existing.source == ProxyAcceptedByAdmin
    requires forall i | 0 <= i < |observed| ::
               && !(observed[i].source == Dhcp && observed[i].l2Visible)
               && observed[i].source != DhcpConfirmedProxy && observed[i].source != StaticArp
    ensures var r := Run(Some(existing), observed);
            && r.Some? && r.value.source == existing.source && r.value.validated == existing.validated
            && r.value.mac == existing.mac
            && (existing.proxyMac.Some? ==> r.value.proxyMac.Some?)
  {
    if observed != [] {
      TrustSurvivesSilence(existing, observed[..|observed| - 1]);
    }
  }

  /** A trusted record gives way to a positive observation, and to no other. */
  lemma TrustYieldsOnlyToPositive(existing: Stored, observed: Identity)
    requires IsTrusted(existing)
    ensures IsPositive(observed) ==> Reconcile(Some(existing), observed) == observed
    ensures !IsPositive(observed) ==>
              var r := Reconcile(Some(existing), observed);
              r.source == existing.source && r.validated == existing.validated && r.mac == existing.mac
  {
  }

  /** A validated record behind the same proxy is not invalidated by a non-positive observation either. */
  lemma SameProxyStaysValidated(existing: Stored, observed: Identity)
    requires existing.validated && existing.proxyMac.Some? && observed.proxyMac == existing.proxyMac
    requires !IsPositive(observed)
    ensures Reconcile(Some(existing), observed).validated
    ensures Reconcile(Some(existing), observed).source == existing.source
  {
  }

  /** Merging twice, as the discovery sync and then the repository do, stores the same record as merging once. */
  lemma MergingTwiceIsMergingOnce(existing: Option<Stored>, observed: Identity)
    requires existing.Some? ==> existing.value.mac == observed.mac
    ensures Saved(Reconcile(existing, Reconcile(existing, observed))) == Saved(Reconcile(existing, observed))
  {
  }

  /** What the validator reports is positive exactly when it is validated. */
  lemma ValidatorIsPositiveIffValidated(id: Identity, r: Reading)
    requires IsExplained(id, r)
    ensures IsPositive(id) <==> id.validated
  {
    hide IsHeard, IsConfirmed, IsProxy, LeaseAt, LeaseOf;
  }

  /** With no capture at all, only the device's own neighbour entry is positive. */
  lemma SilentCapturesAreNotPositive(id: Identity, r: Reading)
    requires IsExplained(id, r) && r.captures == [] && IsPositive(id)
    ensures IsOwnNeighbor(r, id.mac, id.ip)
  {
    hide IsHeard, IsProxy, LeaseAt, LeaseOf;
    ValidatorIsPositiveIffValidated(id, r);
    ValidatedHasEvidence(id, r);
  }

  /**
   Readings without captures, in which the device has no neighbour entry of its own,
   never take a confirmed or accepted proxy's trust away, for any number of them.
   */
  lemma ConfirmedProxySurvivesEmptyCaptures(existing: Stored, readings: seq<Reading>, observed: seq<Identity>)
    requires IsTrusted(existing) && |observed| == |readings|
    requires forall i | 0 <= i < |readings| :: readings[i].captures == [] && IsExplained(observed[i], readings[i])
    requires forall i | 0 <= i < |readings| :: !IsOwnNeighbor(readings[i], observed[i].mac, observed[i].ip)
    ensures Run(Some(existing), observed).value.source == existing.source
    ensures Run(Some(existing), observed).value.validated == existing.validated
  {
    hide IsExplained, IsOwnNeighbor, Reconcile;
    forall i | 0 <= i < |observed|
      ensures !IsPositive(observed[i])
    {
      if IsPositive(observed[i]) {
        SilentCapturesAreNotPositive(observed[i], readings[i]);
        assert false;
      }
    }
    TrustSurvivesSilence(existing, observed);
  }
}
