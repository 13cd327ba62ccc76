/**
 The kernel's traffic-control state and its commands. A command takes effect
 completely or fails and changes nothing: because the kernel refuses it, which its
 contract decides from the state before, or by a fault of the environment, which
 is counted.
 */
module TcKernel {
  import opened Common

  type Ip = string

  type ClassId = nat

  datatype ClassRate = ClassRate(rate: nat, ceil: nat)

  datatype Filter = Filter(classId: ClassId, ip: Option<Ip>)

  /** One interface's HTB tree below 1:1 and the filters at 1:, one filter per priority. */
  class TcInterface {
    var root: bool
    var rootRate: Option<ClassRate>
    var classes: map<ClassId, ClassRate>
    var filters: map<nat, Filter>
    /** Class deletions the kernel refused because a filter still pointed at the class. */
    var refused: nat
    /** Commands that failed although the kernel would have accepted them. */
    ghost var faults: nat

    constructor ()
      ensures !root && rootRate == None && classes == map[] && filters == map[] && refused == 0 && faults == 0
    {
      root, rootRate, classes, filters, refused, faults := false, None, map[], map[], 0, 0;
    }

    ghost predicate Valid()
      reads this
    {
      !root ==> rootRate == None && classes == map[] && filters == map[]
    }

    /** A show command: it changes nothing, but may fail. */
    method Show() returns (ok: bool)
      modifies `faults
      ensures old(faults) <= faults && (ok <==> faults == old(faults))
    {
      ok := *;
      if !ok {
        faults := faults + 1;
      }
    }

    method AddRoot() returns (ok: bool)
      requires Valid()
      modifies this
      ensures Valid()
      ensures ok ==> root
      ensures classes == old(classes) && filters == old(filters) && refused == old(refused)
      ensures rootRate == old(rootRate) && (old(root) ==> root)
      ensures old(faults) <= faults
      ensures ok <==> faults == old(faults)
    {
      if * {
        faults := faults + 1;
        return false;
      }
      root := true;
      return true;
    }

    method SetRootClass(rate: nat) returns (ok: bool)
      requires Valid()
      modifies this
      ensures Valid()
      ensures ok ==> rootRate == Some(ClassRate(rate, rate))
      ensures classes == old(classes) && filters == old(filters) && refused == old(refused) && root == old(root)
      ensures old(faults) <= faults
      ensures ok <==> faults == old(faults) && old(root)
    {
      if * {
        faults := faults + 1;
        return false;
      }
      if !root {
        return false;
      }
      rootRate := Some(ClassRate(rate, rate));
      return true;
    }

    method AddClass(c: ClassId, rate: nat) returns (ok: bool)
      requires Valid()
      modifies this
      ensures Valid()
      ensures classes == if ok then old(classes)[c := ClassRate(rate, rate)] else old(classes)
      ensures filters == old(filters) && refused == old(refused) && root == old(root) && rootRate == old(rootRate)
      ensures old(faults) <= faults
      ensures ok <==> faults == old(faults) && old(root) && c !in old(classes)
    {
      if * {
        faults := faults + 1;
        return false;
      }
      if !root || c in classes {
        return false;
      }
      classes := classes[c := ClassRate(rate, rate)];
      return true;
    }

    method ChangeClass(c: ClassId, rate: nat) returns (ok: bool)
      requires Valid()
      modifies this
      ensures Valid()
      ensures classes == if ok then old(classes)[c := ClassRate(rate, rate)] else old(classes)
      ensures filters == old(filters) && refused == old(refused) && root == old(root) && rootRate == old(rootRate)
      ensures old(faults) <= faults
      ensures ok <==> faults == old(faults) && c in old(classes)
    {
      if * {
        faults := faults + 1;
        return false;
      }
      if c !in classes {
        return false;
      }
      classes := classes[c := ClassRate(rate, rate)];
      return true;
    }

    method DeleteClass(c: ClassId) returns (ok: bool)
      requires Valid()
      modifies this
      ensures Valid()
      ensures classes == if ok then old(classes) - {c} else old(classes)
      ensures refused == if IsReferenced(old(filters), c) then old(refused) + 1 else old(refused)
      ensures filters == old(filters) && root == old(root) && rootRate == old(rootRate)
      ensures old(faults) <= faults
      ensures ok <==> faults == old(faults) && !IsReferenced(old(filters), c)
    {
      if IsReferenced(filters, c) {
        refused := refused + 1;
        return false;
      }
      if * {
        faults := faults + 1;
        return false;
      }
      classes := classes - {c};
      return true;
    }

    method AddFilter(priority: nat, f: Filter) returns (ok: bool)
      requires Valid()
      modifies this
      ensures Valid()
      ensures filters == if ok then old(filters)[priority := f] else old(filters)
      ensures classes == old(classes) && refused == old(refused) && root == old(root) && rootRate == old(rootRate)
      ensures old(faults) <= faults
      ensures ok <==> faults == old(faults) && old(root) && priority !in old(filters)
    {
      if * {
        faults := faults + 1;
        return false;
      }
      if !root || priority in filters {
        return false;
      }
      filters := filters[priority := f];
      return true;
    }

    method DeleteFilter(priority: nat) returns (ok: bool)
      requires Valid()
      modifies this
      ensures Valid()
      ensures filters == if ok then old(filters) - {priority} else old(filters)
      ensures classes == old(classes) && refused == old(refused) && root == old(root) && rootRate == old(rootRate)
      ensures old(faults) <= faults
      ensures ok <==> faults == old(faults) && priority in old(filters)
    {
      if * {
        faults := faults + 1;
        return false;
      }
      if priority !in filters {
        return false;
      }
      filters := filters - {priority};
      return true;
    }

    /** Deleting the root qdisc takes everything below it. */
    method DeleteRoot() returns (ok: bool)
      requires Valid()
      modifies this
      ensures Valid()
      ensures ok ==> !root && classes == map[] && filters == map[]
      ensures !ok ==> root == old(root) && classes == old(classes) && filters == old(filters)
      ensures refused == old(refused)
      ensures old(faults) <= faults
      ensures ok <==> faults == old(faults)
    {
      if * {
        faults := faults + 1;
        return false;
      }
      root, rootRate, classes, filters := false, None, map[], map[];
      return true;
    }
  }

  predicate IsReferenced(filters: map<nat, Filter>, c: ClassId) {
    exists p | p in filters :: filters[p].classId == c
  }

  /** At most one filter per class. */
  predicate OnePerClass(filters: map<nat, Filter>) {
    forall p, q | p in filters && q in filters && filters[p].classId == filters[q].classId :: p == q
  }

  /** The class has the wanted rate, both guaranteed and ceiling. */
  predicate HasClass(classes: map<ClassId, ClassRate>, c: ClassId, rate: nat) {
    c in classes && classes[c] == ClassRate(rate, rate)
  }

  predicate HasFilter(filters: map<nat, Filter>, c: ClassId, ip: Ip) {
    exists p | p in filters :: filters[p] == Filter(c, Some(ip))
  }

  /** Filters of other classes are neither moved, changed, added nor removed. */
  predicate SameForOthers(f: map<nat, Filter>, g: map<nat, Filter>, c: ClassId) {
    && (forall p | p in f && f[p].classId != c :: p in g && g[p] == f[p])
    && (forall p | p in g && g[p].classId != c :: p in f && f[p] == g[p])
  }

  // ----- Ingress redirects and the IFB device -----

  datatype Side = Src | Dst

  datatype Redirect = Redirect(ip: Option<Ip>, side: Option<Side>, device: Option<string>)

  const IFB := "ifb0"

  predicate IntoIfb(r: Redirect) {
    r.device == Some(IFB)
  }

  predicate Redirects(r: Redirect, ip: Ip, side: Side) {
    r.ip == Some(ip) && r.side == Some(side)
  }

  function SourceIntoIfb(ip: Ip): Redirect {
    Redirect(Some(ip), Some(Src), Some(IFB))
  }

  predicate IsOnlyAt(redirects: map<nat, Redirect>, ip: Ip, p: nat) {
    && p in redirects && redirects[p] == SourceIntoIfb(ip)
    && forall q | q in redirects && redirects[q] == SourceIntoIfb(ip) :: q == p
  }

  /** Exactly one redirect sends the IP's uploads into the IFB device. */
  ghost predicate OneRedirect(redirects: map<nat, Redirect>, ip: Ip) {
    exists p :: IsOnlyAt(redirects, ip, p)
  }

  /** The IFB link, its own interface, and the ingress qdisc of the physical interface. */
  class IfbLink {
    const ifb: TcInterface
    var present: bool
    var ingress: bool
    var redirects: map<nat, Redirect>
    /** Commands on the link or its redirects that failed although the kernel would have accepted them. */
    ghost var faults: nat

    constructor ()
      ensures fresh(ifb) && Valid() && !present && !ingress && ifb.refused == 0 && faults == 0 && ifb.faults == 0
    {
      ifb := new TcInterface();
      present, ingress, redirects, faults := false, false, map[], 0;
    }

    ghost predicate Valid()
      reads this, ifb
    {
      && ifb.Valid()
      && (!present ==> !ifb.root && forall p | p in redirects :: !IntoIfb(redirects[p]))
      && (!ingress ==> redirects == map[])
    }

    method Show() returns (ok: bool)
      modifies `faults
      ensures old(faults) <= faults && (ok <==> faults == old(faults))
    {
      ok := *;
      if !ok {
        faults := faults + 1;
      }
    }

    method AddLink() returns (ok: bool)
      requires Valid()
      modifies this
      ensures Valid() && (ok ==> present) && (old(present) ==> present)
      ensures redirects == old(redirects) && ingress == old(ingress)
      ensures old(faults) <= faults
      ensures ok <==> faults == old(faults)
    {
      if * {
        faults := faults + 1;
        return false;
      }
      present := true;
      return true;
    }

    /** Removing the link removes its interface with it; redirects into it lose their target. */
    method DeleteLink() returns (ok: bool)
      requires Valid()
      modifies this, ifb
      ensures Valid() && (ok ==> !present)
      ensures !ok ==> present == old(present) && redirects == old(redirects)
      ensures !ok ==> ifb.classes == old(ifb.classes) && ifb.filters == old(ifb.filters)
      ensures old(redirects) == map[] ==> redirects == map[]
      ensures ingress == old(ingress) && ifb.refused == old(ifb.refused)
      ensures old(faults) <= faults
      ensures ok <==> faults == old(faults)
      ensures ifb.faults == old(ifb.faults)
    {
      if * {
        faults := faults + 1;
        return false;
      }
      present := false;
      redirects := map p | p in redirects ::
        if IntoIfb(redirects[p]) then redirects[p].(device := None) else redirects[p];
      ifb.root, ifb.rootRate, ifb.classes, ifb.filters := false, None, map[], map[];
      return true;
    }

    method AddIngress() returns (ok: bool)
      requires Valid()
      modifies this
      ensures Valid() && (ok ==> ingress) && (old(ingress) ==> ingress)
      ensures redirects == old(redirects) && present == old(present)
      ensures old(faults) <= faults
      ensures ok <==> faults == old(faults)
    {
      if * {
        faults := faults + 1;
        return false;
      }
      ingress := true;
      return true;
    }

    /** Removing the ingress qdisc removes every redirect. */
    method DeleteIngress() returns (ok: bool)
      requires Valid()
      modifies this
      ensures Valid() && present == old(present)
      ensures ok ==> redirects == map[]
      ensures !ok ==> redirects == old(redirects)
      ensures old(faults) <= faults
      ensures ok <==> faults == old(faults)
    {
      if * {
        faults := faults + 1;
        return false;
      }
      ingress, redirects := false, map[];
      return true;
    }

    method AddRedirect(priority: nat, r: Redirect) returns (ok: bool)
      requires Valid()
      modifies this
      ensures Valid()
      ensures redirects == if ok then old(redirects)[priority := r] else old(redirects)
      ensures present == old(present)
      ensures old(faults) <= faults
      ensures ok <==>
                faults == old(faults) && old(ingress) && priority !in old(redirects) && (IntoIfb(r) ==> old(present))
    {
      if * {
        faults := faults + 1;
        return false;
      }
      if !ingress || priority in redirects || (IntoIfb(r) && !present) {
        return false;
      }
      redirects := redirects[priority := r];
      return true;
    }

    /** A redirect that is already gone is not an error. */
    method DeleteRedirect(priority: nat) returns (ok: bool)
      requires Valid()
      modifies this
      ensures Valid()
      ensures redirects == if ok then old(redirects) - {priority} else old(redirects)
      ensures present == old(present) && ingress == old(ingress)
      ensures old(faults) <= faults
      ensures ok <==> faults == old(faults)
    {
      if * {
        faults := faults + 1;
        return false;
      }
      redirects := redirects - {priority};
      return true;
    }
  }
}
