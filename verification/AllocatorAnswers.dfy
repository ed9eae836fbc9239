/**
  What the caller of the allocator can rely on, operation by operation and over whole runs: which requests are served
  and with what, how releases are answered, and what a reset leaves.
 */
module AllocatorAnswers {
  import opened AllocatorState

  // ----- sizes -----

  /** A region is a whole number of pages, more than two and at most three of them larger than the payload. */
  lemma RegionSizeBounds(size: nat, pageSize: nat)
    requires pageSize > 0
    ensures size + 2 * pageSize < RegionSize(size, pageSize) <= size + 3 * pageSize
    ensures (RegionSize(size, pageSize) - 2 * pageSize) % pageSize == 0
  {
    RoundUpIsNextPage(size, pageSize);
  }

  /** The size a request is served with. */
  function Granted(requested: nat): nat {
    if requested > 0 then requested else 16
  }

  // ----- the answer to a request -----

  /** Some queued region has at least `len` bytes. */
  ghost predicate QueueHas(queue: Queue, len: nat) {
    exists q, i :: Slot(queue, q, i) && len <= q
  }

  lemma FittingMeans(queue: Queue, len: nat)
    ensures Fitting(queue, len) != {} <==> QueueHas(queue, len)
    ensures forall q :: q in Fitting(queue, len) <==> q in queue && queue[q] != [] && len <= q
  {
    if q :| q in Fitting(queue, len) {
      assert Slot(queue, q, 0);
    }
    if q, i :| Slot(queue, q, i) && len <= q {
      assert q in Fitting(queue, len);
    }
  }

  /** The request exceeds the largest allocation. */
  predicate TooLarge(c: Limits, requested: nat) {
    Granted(requested) > c.maxAllocation
  }

  /** The request, with its guard pages, exceeds what may be charged in total. */
  predicate OverTotal(c: Limits, s: State, requested: nat)
    requires c.pageSize > 0
  {
    s.total + RegionSize(Granted(requested), c.pageSize) > c.maxTotalAllocation
  }

  /** There is a region for the request: queued, or mapped by the operating system below the end of user space. */
  ghost predicate HasRegion(c: Limits, s: State, requested: nat, mmapOk: bool)
    requires c.pageSize > 0
  {
    var len := RegionSize(Granted(requested), c.pageSize);
    QueueHas(s.queue, len) || (mmapOk && s.current + len <= c.userspaceEnd)
  }

  /** When a request is served, refused, or ends in a panic. */
  lemma AllocOutcomes(c: Limits, s: State, requested: nat, mmapOk: bool)
    requires c.pageSize > 0 && c.granularity > 0
    ensures var outcome := AllocSpec(c, s, requested, mmapOk).1;
            && (outcome.AllocPanicked? <==> TooLarge(c, requested) && c.maxAllocationPanics)
            && (outcome.Null? <==>
                  || (TooLarge(c, requested) && !c.maxAllocationPanics)
                  || (!TooLarge(c, requested) &&
                        (OverTotal(c, s, requested) || !HasRegion(c, s, requested, mmapOk))))
            && (outcome.Served? <==>
                  !TooLarge(c, requested) && !OverTotal(c, s, requested) && HasRegion(c, s, requested, mmapOk))
  {
    hide RegionSize;
    FittingMeans(s.queue, Charge(c, requested));
    hide Fitting, QueueHas;
  }

  /** What a refused request leaves: it stays charged exactly if it was within the limits. */
  lemma RefusedState(c: Limits, s: State, requested: nat, mmapOk: bool)
    requires c.pageSize > 0 && c.granularity > 0 && !AllocSpec(c, s, requested, mmapOk).1.Served?
    ensures var len := RegionSize(Granted(requested), c.pageSize);
            AllocSpec(c, s, requested, mmapOk).0 ==
            s.(total := if TooLarge(c, requested) || OverTotal(c, s, requested) then s.total else s.total + len)
  {
    hide RegionSize, Fitting;
  }

  /**
    What a served request gets: an entry of exactly the granted size, one page into its region. The region is the last
    one queued under the least sufficient size, or, if none is queued, the next one mapped.
   */
  lemma ServedEntry(c: Limits, s: State, requested: nat, mmapOk: bool)
    requires Inv(c, s) && AllocSpec(c, s, requested, mmapOk).1.Served?
    ensures var (s', outcome) := AllocSpec(c, s, requested, mmapOk);
            var len := RegionSize(Granted(requested), c.pageSize);
            && outcome.ptr in s'.allocations
            && var m := s'.allocations[outcome.ptr];
               && m.address + c.pageSize == outcome.ptr && m.size == Granted(requested) && !m.freed
               && s'.allocations == s.allocations[outcome.ptr := m]
               && s'.total == s.total + len
               && s'.largest == (if s.largest > m.actualSize then s.largest else m.actualSize)
               && (if QueueHas(s.queue, len)
                   then ReusesLeast(s, s', m, len) && (m.isMallocZero <==> requested == 0)
                   else MapsNext(c, s, s', m, len) && !m.isMallocZero)
  {
    FittingMeans(s.queue, Charge(c, requested));
    if Fitting(s.queue, Charge(c, requested)) != {} {
      var q := Least(Fitting(s.queue, Charge(c, requested)));
      var n := |s.queue[q]| - 1;
      assert Slot(s.queue, q, n);
      assert QueuedOk(q, s.queue[q][n], s.allocations, s.regions, c.pageSize);
      forall p, i | Slot(s.queue, p, i) && Charge(c, requested) <= p ensures q <= p {
        assert p in Fitting(s.queue, Charge(c, requested));
      }
    }
    hide Inv, RegionSize, Fitting, RoundUpToPage, QueueHas;
  }

  /** The entry's region was the last one queued under the least sufficient size and has left the queue. */
  ghost predicate ReusesLeast(s: State, s': State, m: Metadata, len: nat) {
    var q := m.actualSize;
    && q in s.queue && s.queue[q] != [] && len <= q
    && s.queue[q][|s.queue[q]| - 1].address == m.address
    && (forall p, i :: Slot(s.queue, p, i) && len <= p ==> q <= p)
    && s'.queue == s.queue[q := s.queue[q][..|s.queue[q]| - 1]]
    && s'.regions == s.regions && s'.current == s.current
  }

  /** The entry's region is new, begins at the current mapping address and has exactly the charged length. */
  ghost predicate MapsNext(c: Limits, s: State, s': State, m: Metadata, len: nat)
    requires c.granularity > 0
  {
    && m.address == s.current && m.actualSize == len
    && s'.regions == s.regions[s.current := len] && s'.queue == s.queue
    && s'.current == s.current + RoundUpToPage(len, c.granularity)
  }

  // ----- the answer to a release -----

  /** What a release does to the entries: it marks exactly its own as freed, unless the report panics. */
  lemma ReleaseState(s: State, ptr: nat, crash: bool)
    ensures var (s', outcome) := ReleaseSpec(s, ptr, crash);
            if outcome.Released? && ptr in s.allocations
            then s' == s.(allocations := s.allocations[ptr := s.allocations[ptr].(freed := true)])
            else s' == s
  {
  }

  /** The entries that have been released since the last reset. */
  ghost function ReleasedKeys(allocs: Allocations): set<nat> {
    set k | k in allocs && allocs[k].freed
  }

  /** What an ideal allocator remembers of blocks given back, from the answers alone. */
  ghost function StepReleased(c: Limits, s: State, l: Ledger, f: set<nat>, e: Event): set<nat>
    requires c.pageSize > 0 && c.granularity > 0
  {
    match e
    case AllocEvent(requested, mmapOk) =>
      (match AllocSpec(c, s, requested, mmapOk).1
       case Served(ptr) => f - {ptr}
       case _ => f)
    case ReleaseEvent(ptr, _) => if ptr in l then f + {ptr} else f
    case ResetEvent => {}
  }

  ghost function RunReleased(c: Limits, s: State, l: Ledger, f: set<nat>, es: seq<Event>): set<nat>
    requires c.pageSize > 0 && c.granularity > 0
    decreases |es|
  {
    if es == [] then f
    else RunReleased(c, StepState(c, s, es[0]), StepLedger(c, s, l, es[0]), StepReleased(c, s, l, f, es[0]), es[1..])
  }

  lemma StepKeepsReleased(c: Limits, s: State, e: Event)
    requires Inv(c, s)
    ensures ReleasedKeys(StepState(c, s, e).allocations) ==
            StepReleased(c, s, Outstanding(s.allocations), ReleasedKeys(s.allocations), e)
  {
    match e
    case AllocEvent(requested, mmapOk) =>
      if AllocSpec(c, s, requested, mmapOk).1.Served? {
        ServedEntry(c, s, requested, mmapOk);
      } else {
        RefusedState(c, s, requested, mmapOk);
      }
      hide AllocSpec, Inv;
    case ReleaseEvent(ptr, crash) =>
      hide Inv;
    case ResetEvent =>
      hide Inv, ResetQueue;
  }

  lemma {:induction false} RunMatchesReleased(c: Limits, s: State, es: seq<Event>)
    requires Inv(c, s)
    ensures ReleasedKeys(Run(c, s, es).allocations) ==
            RunReleased(c, s, Outstanding(s.allocations), ReleasedKeys(s.allocations), es)
    decreases |es|
  {
    if es != [] {
      StepKeepsLedger(c, s, es[0]);
      StepKeepsReleased(c, s, es[0]);
      hide StepState, StepLedger, StepReleased, Outstanding, ReleasedKeys, Inv;
      RunMatchesReleased(c, StepState(c, s, es[0]), es[1..]);
    }
  }

  /**
    How a release is answered after every run. If reports crash, it goes through exactly for a block handed out and not
    given back, null is ignored, and everything else ends in a panic: unknown pointers and double frees. If they do not,
    it also goes through for a block given back since the last reset, and everything else is ignored.
   */
  lemma RunReleaseAnswers(c: Limits, s: State, es: seq<Event>, ptr: nat, crash: bool)
    requires Inv(c, s)
    ensures var l := RunLedger(c, s, Outstanding(s.allocations), es);
            var f := RunReleased(c, s, Outstanding(s.allocations), ReleasedKeys(s.allocations), es);
            var outcome := ReleaseSpec(Run(c, s, es), ptr, crash).1;
            && (crash ==>
                  && (outcome.Released? <==> ptr in l)
                  && (outcome.Ignored? <==> ptr == 0)
                  && (outcome.ReleasePanicked? <==> ptr !in l && ptr != 0))
            && (!crash ==>
                  && (outcome.Released? <==> ptr in l || ptr in f)
                  && (outcome.Ignored? <==> ptr !in l && ptr !in f)
                  && !outcome.ReleasePanicked?)
            && 0 !in l
  {
    RunMatchesLedger(c, s, es);
    RunMatchesReleased(c, s, es);
    var s' := Run(c, s, es);
    if 0 in s'.allocations {
      PayloadGuarded(s'.allocations, s'.regions, c.pageSize, 0);
    }
    hide Inv, RunLedger, RunReleased, Run;
  }

  // ----- what a reset leaves -----

  /** A reset keeps exactly the entries that were not released, drops the charge and changes no region. */
  lemma ResetState(s: State)
    ensures var s' := ResetSpec(s);
            && s'.total == 0 && s'.regions == s.regions && s'.current == s.current && s'.largest == s.largest
            && (forall k :: k in s'.allocations <==> k in s.allocations && !s.allocations[k].freed)
            && (forall k :: k in s'.allocations ==> s'.allocations[k] == s.allocations[k])
  {
    hide ResetQueue;
  }

  // ----- sizes over whole runs -----

  /** No entry is larger than the largest allocation. */
  ghost predicate SizesOk(c: Limits, allocs: Allocations) {
    forall k :: k in allocs ==> allocs[k].size <= c.maxAllocation
  }

  lemma StepKeepsSizes(c: Limits, s: State, e: Event)
    requires Inv(c, s) && SizesOk(c, s.allocations)
    ensures SizesOk(c, StepState(c, s, e).allocations)
  {
    match e
    case AllocEvent(requested, mmapOk) =>
      AllocOutcomes(c, s, requested, mmapOk);
      if AllocSpec(c, s, requested, mmapOk).1.Served? {
        ServedEntry(c, s, requested, mmapOk);
      } else {
        RefusedState(c, s, requested, mmapOk);
      }
      hide AllocSpec, Inv;
    case ReleaseEvent(ptr, crash) =>
      ReleaseState(s, ptr, crash);
    case ResetEvent =>
      ResetState(s);
  }

  /** After every run from the empty state no block in use is larger than the largest allocation. */
  lemma {:induction false} RunBlocksWithinLimit(c: Limits, s: State, es: seq<Event>)
    requires Inv(c, s) && SizesOk(c, s.allocations)
    ensures SizesOk(c, Run(c, s, es).allocations)
    ensures var l := RunLedger(c, s, Outstanding(s.allocations), es); forall k :: k in l ==> l[k] <= c.maxAllocation
    decreases |es|
  {
    RunMatchesLedger(c, s, es);
    if es != [] {
      StepKeepsLedger(c, s, es[0]);
      StepKeepsSizes(c, s, es[0]);
      RunBlocksWithinLimit(c, StepState(c, s, es[0]), es[1..]);
    }
    hide Inv, StepState, StepLedger;
  }
}
