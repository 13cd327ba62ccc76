/** The cyclic search for a free filter priority, shared in form by egress and ingress filters. */
module PriorityProbe {
  import opened Common

  const MIN_PRIORITY := 100
  const MAX_PRIORITY := 65_535
  const SPAN := 65_436

  /** The priority probed at a given offset from a base. */
  function Candidate(base: nat, offset: nat): nat
    requires base >= MIN_PRIORITY
  {
    MIN_PRIORITY + (base - MIN_PRIORITY + offset) % 65_436
  }

  /** Every probe is in range, and a full cycle never probes a priority twice. */
  lemma CandidatesAreDistinct(base: nat, i: nat, j: nat)
    requires base >= MIN_PRIORITY && i < j < SPAN
    ensures MIN_PRIORITY <= Candidate(base, i) <= MAX_PRIORITY
    ensures Candidate(base, i) != Candidate(base, j)
  {
  }

  /** The offset at which a priority is probed. */
  function OffsetOf(base: nat, priority: nat): nat
    requires base >= MIN_PRIORITY && MIN_PRIORITY <= priority <= MAX_PRIORITY
  {
    (priority - base) % 65_436
  }

  /** A full cycle probes every priority. */
  lemma CandidatesCoverTheRange(base: nat, priority: nat)
    requires base >= MIN_PRIORITY && MIN_PRIORITY <= priority <= MAX_PRIORITY
    ensures OffsetOf(base, priority) < SPAN
    ensures Candidate(base, OffsetOf(base, priority)) == priority
  {
    var b, p := base - MIN_PRIORITY, priority - MIN_PRIORITY;
    var k := (priority - base) % 65_436;
    var q := (priority - base) / 65_436;
    assert b + k == p - q * 65_436;
    ModUnique(b + k, -q, p);
  }

  lemma ModUnique(x: int, q: int, r: int)
    requires x == q * 65_436 + r && 0 <= r < 65_436
    ensures x % 65_436 == r
  {
  }

  /** The free priority that the probe reaches first from the base. */
  predicate IsFirstFree(base: nat, used: set<nat>, priority: nat)
    requires base >= MIN_PRIORITY
  {
    && MIN_PRIORITY <= priority <= MAX_PRIORITY && priority !in used
    && forall i: nat | i < OffsetOf(base, priority) :: Candidate(base, i) in used
  }

  /** There is at most one. */
  lemma FirstFreeIsUnique(base: nat, used: set<nat>, p: nat, q: nat)
    requires base >= MIN_PRIORITY && IsFirstFree(base, used, p) && IsFirstFree(base, used, q)
    ensures p == q
  {
    CandidatesCoverTheRange(base, p);
    CandidatesCoverTheRange(base, q);
    assert Candidate(base, OffsetOf(base, p)) == p && Candidate(base, OffsetOf(base, q)) == q;
  }

  /**
   The first free priority in cyclic order from the base: none is returned only
   when all 65,436 are used.
   */
  method FindAvailable(base: nat, used: set<nat>) returns (found: Option<nat>)
    requires base >= MIN_PRIORITY
    ensures found.Some? ==> IsFirstFree(base, used, found.value)
    ensures found.None? <==> forall p: nat | MIN_PRIORITY <= p <= MAX_PRIORITY :: p in used
  {
    for offset := 0 to SPAN
      invariant forall i: nat | i < offset :: Candidate(base, i) in used
    {
      var priority := MIN_PRIORITY + (base - MIN_PRIORITY + offset) % 65_436;
      if priority !in used {
        CandidateHasOffset(base, offset);
        return Some(priority);
      }
      assert Candidate(base, offset) in used;
    }
    forall p: nat | MIN_PRIORITY <= p <= MAX_PRIORITY
      ensures p in used
    {
      CandidatesCoverTheRange(base, p);
      assert Candidate(base, OffsetOf(base, p)) in used;
    }
    return None;
  }

  lemma CandidateHasOffset(base: nat, offset: nat)
    requires base >= MIN_PRIORITY && offset < SPAN
    ensures OffsetOf(base, Candidate(base, offset)) == offset
  {
    var p := Candidate(base, offset);
    CandidatesCoverTheRange(base, p);
    var k := OffsetOf(base, p);
    if k < offset {
      CandidatesAreDistinct(base, k, offset);
    } else if offset < k {
      CandidatesAreDistinct(base, offset, k);
    }
  }

  // ----- Room -----

  /** Fewer than 65,436 used priorities always leave a free one. */
  lemma FewUsedLeaveRoom(used: set<nat>)
    requires |used| < SPAN
    ensures exists p: nat | MIN_PRIORITY <= p <= MAX_PRIORITY :: p !in used
  {
    if forall p: nat | MIN_PRIORITY <= p <= MAX_PRIORITY :: p in used {
      var all := Below(SPAN);
      BelowCounts(SPAN);
      assert all <= used;
      SubsetIsSmaller(all, used);
      assert false;
    }
  }

  /** The first n priorities of the range. */
  ghost function Below(n: nat): (r: set<nat>)
    ensures forall p :: p in r <==> MIN_PRIORITY <= p < MIN_PRIORITY + n
  {
    if n == 0 then {} else Below(n - 1) + {MIN_PRIORITY + n - 1}
  }

  lemma {:induction false} BelowCounts(n: nat)
    ensures |Below(n)| == n
  {
    if n > 0 {
      BelowCounts(n - 1);
    }
  }

  lemma SubsetIsSmaller(a: set<nat>, b: set<nat>)
    requires a <= b
    ensures |a| <= |b|
  {
    assert b == a + (b - a);
  }

  lemma AtMostOneMore(a: set<nat>, b: set<nat>, x: nat)
    requires b <= a + {x}
    ensures |b| <= |a| + 1
  {
    SubsetIsSmaller(b, a + {x});
  }
}
