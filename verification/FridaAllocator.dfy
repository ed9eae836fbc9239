/**
  The binary-only ASan allocator: page-guarded regions, a reuse queue, lazily committed shadow pages and a
  shadow with one bit per byte.
 */
module FridaAllocator {
  import opened Common
  import opened Bits
  import opened ShadowBits
  import opened ReservedShadow
  import opened AllocatorState
  import opened AllocatorAnswers
  import opened AccessCheck
  import opened ShadowReach

  /** What an access check ends in: an answer, or a read of a shadow byte that is not committed. */
  datatype CheckOutcome = Checked(allowed: bool) | OutsideShadow

  /** What a search for metadata ends in. */
  datatype FindOutcome = Found(key: nat) | NotFound | FindPanicked

  const I64_MAX: nat := 0x7fff_ffff_ffff_ffff

  function Distance(a: int, b: int): nat {
    if a < b then b - a else a - b
  }

  // ----- address arithmetic -----

  /** `shadow_offset + ((address >> 3) & ((1 << (shadow_bit + 1)) - 1))` with the offset `1 << shadow_bit`. */
  function MapToShadow(shadowBit: nat, address: nat): nat {
    Pow2(shadowBit) + BitAnd(address / 8, Pow2(shadowBit + 1) - 1)
  }

  /** The first address whose 8-byte block shares its shadow byte with a lower block. */
  function Limit(shadowBit: nat): nat {
    8 * Pow2(shadowBit + 1)
  }

  /** Every address has its shadow byte inside the reservation, which ends where the managed region begins. */
  lemma ShadowInsideReservation(shadowBit: nat, address: nat)
    ensures Pow2(shadowBit) <= MapToShadow(shadowBit, address) < 3 * Pow2(shadowBit)
    ensures MapToShadow(shadowBit, address) == Pow2(shadowBit) + (address / 8) % Pow2(shadowBit + 1)
  {
    MaskIsMod(address / 8, shadowBit + 1);
  }

  /** Below the limit, two addresses share a shadow byte exactly when they are in the same 8-byte block. */
  lemma ShadowInjective(shadowBit: nat, a: nat, b: nat)
    requires a < Limit(shadowBit) && b < Limit(shadowBit)
    ensures MapToShadow(shadowBit, a) == Pow2(shadowBit) + a / 8
    ensures MapToShadow(shadowBit, a) == MapToShadow(shadowBit, b) <==> a / 8 == b / 8
  {
    ShadowInsideReservation(shadowBit, a);
    ShadowInsideReservation(shadowBit, b);
    ModUnique(a / 8, Pow2(shadowBit + 1), 0, a / 8);
    ModUnique(b / 8, Pow2(shadowBit + 1), 0, b / 8);
  }

  /** Shadow bytes are contiguous as long as the reservation is not left. */
  lemma ShadowContiguous(shadowBit: nat, start: nat, a: nat)
    requires start <= a && MapToShadow(shadowBit, start) + (a / 8 - start / 8) < 3 * Pow2(shadowBit)
    ensures MapToShadow(shadowBit, a) == MapToShadow(shadowBit, start) + (a / 8 - start / 8)
  {
    assert Pow2(shadowBit + 1) == 2 * Pow2(shadowBit);
    hide Pow2, MapToShadow;
    ShadowInsideReservation(shadowBit, start);
    ShadowInsideReservation(shadowBit, a);
    NoWrap(start / 8, a / 8, Pow2(shadowBit + 1));
  }

  lemma NoWrap(x: nat, y: nat, m: nat)
    requires m > 0 && x <= y && x % m + (y - x) < m
    ensures y % m == x % m + (y - x)
  {
    var q, r := x / m, x % m;
    assert x == m * q + r;
    ModUnique(y, m, q, r + (y - x));
  }

  /** The limit is sharp: the first address at it shares the shadow byte of address 0. */
  lemma ShadowLimitIsSharp(shadowBit: nat)
    ensures MapToShadow(shadowBit, Limit(shadowBit)) == MapToShadow(shadowBit, 0)
  {
    ShadowInsideReservation(shadowBit, 0);
    ShadowInsideReservation(shadowBit, Limit(shadowBit));
    ModUnique(Pow2(shadowBit + 1), Pow2(shadowBit + 1), 1, 0);
    ModUnique(0, Pow2(shadowBit + 1), 0, 0);
  }

  lemma ThreeTimes(x: nat, m: nat)
    requires m > 0 && x % m == 0
    ensures (3 * x) % m == 0
  {
    var q := x / m;
    assert x == m * q;
    assert 3 * x == m * (3 * q);
    ModUnique(3 * x, m, 3 * q, 0);
  }

  // ----- what the shadow says -----

  /** For the managed addresses the shadow opens exactly the bytes of live payloads. */
  ghost predicate ShadowSays(mem: seq<bv8>, allocs: Allocations, base: nat) {
    forall a: nat {:trigger Open(mem, a)} {:trigger Live(allocs, a)} ::
      base <= a && a / 8 < |mem| ==> (Open(mem, a) <==> Live(allocs, a))
  }

  /** Opening the payload of a new allocation. */
  lemma OpenPayload(before: seq<bv8>, after: seq<bv8>, c: Limits, s: State, s': State, ptr: nat)
    requires Inv(c, s')
    requires ptr !in s.allocations && ptr in s'.allocations && !s'.allocations[ptr].freed
    requires s'.allocations == s.allocations[ptr := s'.allocations[ptr]]
    requires ShadowSays(before, s.allocations, c.base)
    requires Painted(before, after, ptr, ptr + s'.allocations[ptr].size, true)
    ensures ShadowSays(after, s'.allocations, c.base)
  {
    forall a: nat | c.base <= a && a / 8 < |after| ensures Open(after, a) <==> Live(s'.allocations, a) {
      AddPayload(c, s, s', ptr, a);
    }
  }

  /** Closing the payload of an entry that is freed now. */
  lemma ClosePayload(before: seq<bv8>, after: seq<bv8>, c: Limits, s: State, k: nat)
    requires Inv(c, s) && k in s.allocations
    requires ShadowSays(before, s.allocations, c.base)
    requires Painted(before, after, k, k + s.allocations[k].size, false)
    ensures ShadowSays(after, s.allocations[k := s.allocations[k].(freed := true)], c.base)
  {
    forall a: nat | c.base <= a && a / 8 < |after|
      ensures Open(after, a) <==> Live(s.allocations[k := s.allocations[k].(freed := true)], a)
    {
      LiveAfterFree(c, s, k, a);
    }
  }

  /** Closing the payload of an entry that was freed before changes nothing. */
  lemma CloseFreedPayload(before: seq<bv8>, after: seq<bv8>, c: Limits, s: State, k: nat)
    requires Inv(c, s) && k in s.allocations && s.allocations[k].freed
    requires ShadowSays(before, s.allocations, c.base)
    requires Painted(before, after, k, k + s.allocations[k].size, false)
    ensures ShadowSays(after, s.allocations, c.base)
  {
    assert s.allocations[k := s.allocations[k].(freed := true)] == s.allocations;
    ClosePayload(before, after, c, s, k);
  }

  // ----- the allocator -----

  /** Splits a reserved mapping at a page-aligned offset; the unwrap of an unaligned split would panic. */
  method SplitOff(r: Range, at: nat, pageSize: nat) returns (lower: Range, upper: Range)
    requires pageSize > 0 && r.start + at <= r.end
    requires r.start % pageSize == 0 && (r.start + at) % pageSize == 0
    ensures lower == Range(r.start, r.start + at) && upper == Range(r.start + at, r.end)
  {
    lower, upper := Range(r.start, r.start + at), Range(r.start + at, r.end);
  }

  /** The mappings after the given ranges have been committed. */
  function WithCommitted(mappings: map<nat, nat>, gs: seq<Range>): map<nat, nat> {
    if gs == [] then mappings
    else
      var g := gs[|gs| - 1];
      WithCommitted(mappings, gs[..|gs| - 1])[g.start := Length(g)]
  }

  function Length(g: Range): nat {
    if g.start <= g.end then g.end - g.start else 0
  }

  /** Byte `x` belongs to the mapping at `m`, which lies below `base`. */
  ghost predicate MapsByte(mappings: map<nat, nat>, base: nat, m: nat, x: nat) {
    m in mappings && m < base && m <= x < m + mappings[m]
  }

  /** The mappings below `base` are disjoint and not empty, and they hold exactly the committed pages. */
  ghost predicate CommittedMapped(mappings: map<nat, nat>, pages: set<nat>, base: nat) {
    && (forall m: nat :: m in mappings && m < base ==> mappings[m] > 0)
    && (forall m: nat, x: nat :: MapsByte(mappings, base, m, x) ==> x in pages)
    && (forall x: nat :: x in pages ==> exists m: nat :: MapsByte(mappings, base, m, x))
    && (forall m: nat, n: nat, x: nat :: MapsByte(mappings, base, m, x) && MapsByte(mappings, base, n, x) ==> m == n)
  }

  /** The range is not empty, lies below `base` and is not committed. */
  ghost predicate Uncommitted(g: Range, pages: set<nat>, base: nat) {
    g.start < g.end <= base && forall x: nat :: InRange(g, x) ==> x !in pages
  }

  /** The ranges can be committed one after the other. */
  ghost predicate AllFresh(gaps: seq<Range>, pages: set<nat>, base: nat) {
    forall n :: 0 <= n < |gaps| ==> Uncommitted(gaps[n], PagesAfter(pages, gaps, n), base)
  }

  /** Committing an uncommitted range replaces no mapping and keeps the mappings disjoint and exact. */
  lemma CommitKeepsMapped(mappings: map<nat, nat>, pages: set<nat>, base: nat, g: Range)
    requires CommittedMapped(mappings, pages, base) && Uncommitted(g, pages, base)
    ensures g.start !in mappings
    ensures CommittedMapped(mappings[g.start := Length(g)], pages + Addresses(g), base)
  {
    assert InRange(g, g.start);
    assert g.start in mappings ==> MapsByte(mappings, base, g.start, g.start);
    var mappings' := mappings[g.start := Length(g)];
    forall m: nat, x: nat
      ensures MapsByte(mappings', base, m, x) <==>
              if m == g.start then InRange(g, x) else MapsByte(mappings, base, m, x)
    {
    }
    forall x: nat | x in pages + Addresses(g) ensures exists m: nat :: MapsByte(mappings', base, m, x) {
      if x in pages {
        var m: nat :| MapsByte(mappings, base, m, x);
        assert m != g.start;
        assert MapsByte(mappings', base, m, x);
      } else {
        assert MapsByte(mappings', base, g.start, x);
      }
    }
  }

  /** A region mapped from `base` up is none of the mappings below it. */
  lemma RegionKeepsMapped(mappings: map<nat, nat>, pages: set<nat>, base: nat, a: nat, len: nat)
    requires CommittedMapped(mappings, pages, base) && base <= a
    ensures CommittedMapped(mappings[a := len], pages, base)
  {
    var mappings' := mappings[a := len];
    assert forall m: nat, x: nat :: MapsByte(mappings', base, m, x) <==> MapsByte(mappings, base, m, x);
  }

  /** The mappings from `base` up: the regions handed out to the program. */
  ghost function Managed(mappings: map<nat, nat>, base: nat): Regions {
    map a | a in mappings && base <= a :: mappings[a]
  }

  /** Committing shadow memory below `base` changes no managed region. */
  lemma {:induction false} CommitKeepsRegions(mappings: map<nat, nat>, gs: seq<Range>, base: nat)
    requires forall i :: 0 <= i < |gs| ==> gs[i].start < gs[i].end <= base
    ensures Managed(WithCommitted(mappings, gs), base) == Managed(mappings, base)
  {
    if gs != [] {
      CommitKeepsRegions(mappings, gs[..|gs| - 1], base);
    }
  }

  lemma ManagedUpdate(mappings: map<nat, nat>, base: nat, a: nat, len: nat)
    requires base <= a
    ensures Managed(mappings[a := len], base) == Managed(mappings, base)[a := len]
  {
  }

  class Allocator {
    const maxAllocation: nat
    const maxTotalAllocation: nat
    const maxAllocationPanics: bool
    const pageSize: nat
    const granularity: nat
    const shadowBit: nat
    /** The end of the addresses that `mmap` hands out. */
    const userspaceEnd: nat
    /** The shadow memory; element `j` lies at shadow address `ShadowOffset() + j`. */
    const shadow: array<bv8>

    var reserved: seq<Range>
    var shadowPages: set<nat>
    var allocations: Allocations
    var mappings: map<nat, nat>
    var allocationQueue: Queue
    var largestAllocation: nat
    var totalAllocationSize: nat
    var currentMappingAddr: nat

    function ShadowOffset(): nat {
      Pow2(shadowBit)
    }

    function BaseMappingAddr(): nat {
      3 * Pow2(shadowBit)
    }

    /** What the platform and the choice of the shadow bit guarantee. */
    ghost predicate Geometry() {
      && pageSize > 0 && pageSize % 8 == 0
      && granularity > 0 && granularity % 8 == 0 && granularity % pageSize == 0
      && ShadowOffset() % granularity == 0 && ShadowOffset() % pageSize == 0
      && userspaceEnd + granularity + 16 * pageSize <= Limit(shadowBit)
      && shadow.Length == Pow2(shadowBit + 1)
    }

    /** The shadow bytes of the memory range [lo, hi) are committed. */
    ghost predicate Committed(lo: nat, hi: nat)
      reads this`shadowPages
    {
      CommittedIn(shadowPages, lo, hi)
    }

    ghost predicate CommittedIn(pages: set<nat>, lo: nat, hi: nat) {
      Contains(pages, ShadowOffset() + lo / 8, ShadowOffset() + (hi + 7) / 8)
    }

    lemma MoreCommitted(before: set<nat>, after: set<nat>, lo: nat, hi: nat)
      requires CommittedIn(before, lo, hi) && before <= after
      ensures CommittedIn(after, lo, hi)
    {
    }

    ghost predicate ReservationOk()
      requires Geometry()
      reads this`reserved, this`shadowPages, this`mappings
    {
      && Tiling(reserved, shadowPages, ShadowOffset(), BaseMappingAddr(), pageSize)
      && CommittedMapped(mappings, shadowPages, BaseMappingAddr())
    }

    ghost function Regions(): Regions
      reads this`mappings
    {
      Managed(mappings, BaseMappingAddr())
    }

    /** Every region has its shadow committed; on dense platforms no shadow is missing between the regions. */
    ghost predicate RegionsCommitted()
      reads this`mappings, this`shadowPages, this`currentMappingAddr
    {
      && (forall a: nat {:trigger IsRegion(Regions(), a)} :: IsRegion(Regions(), a) ==> Committed(a, a + Regions()[a]))
      && (Dense() ==> Committed(BaseMappingAddr(), currentMappingAddr))
    }

    /** Regions begin at multiples of a power of two of at most 16 pages. */
    ghost predicate Dense() {
      exists g :: g in {1, 2, 4, 8, 16} && granularity == pageSize * g
    }

    ghost function View(): State
      reads this
    {
      State(allocations, allocationQueue, Regions(), currentMappingAddr, largestAllocation, totalAllocationSize)
    }

    ghost function Params(): Limits {
      Limits(maxAllocation, maxTotalAllocation, maxAllocationPanics, pageSize, granularity, BaseMappingAddr(),
             userspaceEnd)
    }

    ghost predicate Valid()
      reads this, shadow
    {
      && Geometry()
      && ReservationOk()
      && currentMappingAddr <= Limit(shadowBit)
      && RegionsCommitted()
      && Inv(Params(), View())
      && ShadowSays(shadow[..], allocations, BaseMappingAddr())
    }

    /** The allocator as `init` leaves it, for a shadow bit that the probing found suitable. */
    constructor (maxAllocation: nat, maxTotalAllocation: nat, maxAllocationPanics: bool,
                 pageSize: nat, granularity: nat, shadowBit: nat, userspaceEnd: nat)
      requires 44 <= shadowBit < 64
      requires pageSize > 0 && pageSize % 8 == 0
      requires granularity > 0 && granularity % 8 == 0 && granularity % pageSize == 0
      requires Pow2(shadowBit) % granularity == 0 && Pow2(shadowBit) % pageSize == 0
      requires userspaceEnd + granularity + 16 * pageSize <= Limit(shadowBit)
      ensures Valid() && fresh(shadow)
      ensures View() == EmptyState(BaseMappingAddr())
      ensures shadowPages == {} && reserved == [Range(Pow2(shadowBit), 3 * Pow2(shadowBit))]
    {
      this.maxAllocation, this.maxTotalAllocation := maxAllocation, maxTotalAllocation;
      this.maxAllocationPanics := maxAllocationPanics;
      this.pageSize, this.granularity := pageSize, granularity;
      this.shadowBit, this.userspaceEnd := shadowBit, userspaceEnd;
      shadow := new bv8[Pow2(shadowBit + 1)](_ => 0);
      var addr := Pow2(shadowBit);
      reserved := [Range(addr, 3 * addr)];
      shadowPages := {};
      allocations, mappings, allocationQueue := map[], map[], map[];
      largestAllocation, totalAllocationSize := 0, 0;
      currentMappingAddr := 3 * addr;
      new;
      ThreeTimes(addr, granularity);
      ThreeTimes(addr, pageSize);
      BaseAligned();
      assert Tiling(reserved, shadowPages, ShadowOffset(), BaseMappingAddr(), pageSize) by {
        forall x: nat | addr <= x < 3 * addr ensures x !in shadowPages <==> InSome(reserved, x) {
          assert InRange(reserved[0], x);
        }
      }
      forall a: nat | a / 8 < |shadow[..]| ensures !Open(shadow[..], a) {
        EmptyByte(a % 8);
      }
    }

    /** Whether the address lies in the range handed out to the program so far. */
    predicate IsManaged(ptr: nat)
      reads this`currentMappingAddr
    {
      BaseMappingAddr() <= ptr < currentMappingAddr
    }

    /** Takes a queued region of least sufficient size out of the queue. */
    method FindSmallestFit(size: nat) returns (r: Option<Metadata>)
      requires QueueOk(allocationQueue, allocations, Regions(), pageSize)
      modifies this`allocationQueue
      ensures r.None? ==> Fitting(old(allocationQueue), size) == {} && allocationQueue == old(allocationQueue)
      ensures r.Some? ==> && Fitting(old(allocationQueue), size) != {}
                          && var q := Least(Fitting(old(allocationQueue), size));
                             var list := old(allocationQueue)[q];
                             && r.value == list[|list| - 1] && r.value.actualSize == q
                             && allocationQueue == old(allocationQueue)[q := list[..|list| - 1]]
      ensures r.None? ==> forall q :: q in old(allocationQueue) && size <= q ==> old(allocationQueue)[q] == []
      ensures r.Some? ==> && size <= r.value.actualSize
                          && forall q :: q in old(allocationQueue) && size <= q && old(allocationQueue)[q] != [] ==>
                                           r.value.actualSize <= q
    {
      FittingMeans(allocationQueue, size);
      var keys: set<nat> := allocationQueue.Keys;
      while keys != {}
        invariant keys <= allocationQueue.Keys
        invariant allocationQueue == old(allocationQueue)
        invariant Fitting(allocationQueue, size) <= keys
      {
        var currentSize: nat := Least(keys);
        var list := allocationQueue[currentSize];
        if currentSize >= size && list != [] {
          var metadata := list[|list| - 1];
          assert Slot(allocationQueue, currentSize, |list| - 1);
          assert QueuedOk(currentSize, metadata, allocations, Regions(), pageSize);
          assert currentSize in Fitting(allocationQueue, size);
          allocationQueue := allocationQueue[currentSize := list[..|list| - 1]];
          return Some(metadata);
        }
        keys := keys - {currentSize};
      }
      r := None;
    }

    /** The page-rounded range of shadow addresses that is committed for the memory range [start, end). */
    function ShadowRange(start: nat, end: nat): (r: Range)
      requires Geometry() && start <= end
      ensures r.start % pageSize == 0 && r.end % pageSize == 0
      ensures r.start <= MapToShadow(shadowBit, start) < r.start + pageSize
      ensures r.start + (end - start) / 8 + pageSize < r.end <= r.start + (end - start) / 8 + 2 * pageSize
    {
      var shadowMappingStart := MapToShadow(shadowBit, start);
      var shadowStart := RoundDownToPage(shadowMappingStart, pageSize);
      RoundDownIsOwnPage(shadowMappingStart, pageSize);
      RoundUpIsNextPage((end - start) / 8 + pageSize + shadowStart, pageSize);
      Range(shadowStart, RoundUpToPage((end - start) / 8 + pageSize + shadowStart, pageSize))
    }

    /** The shadow range of a memory range below the limit stays inside the reservation and covers its shadow bytes. */
    lemma ShadowRangeFits(start: nat, end: nat)
      requires Geometry() && start <= end && end + 16 * pageSize <= Limit(shadowBit)
      ensures var r := ShadowRange(start, end);
              && ShadowOffset() <= r.start && r.end <= BaseMappingAddr()
              && MapToShadow(shadowBit, start) == ShadowOffset() + start / 8
              && r.start <= ShadowOffset() + start / 8
              && ShadowOffset() + start / 8 + (end - start + 7) / 8 <= r.end
              && ShadowOffset() + (end + 7) / 8 <= r.end
    {
      ShadowInjective(shadowBit, start, start);
      PageFloor(ShadowOffset(), pageSize, MapToShadow(shadowBit, start));
      RoundDownIsFloor(MapToShadow(shadowBit, start), pageSize);
    }

    /** If the rounded range fits, the shadow bytes of the memory range are contiguous and lie inside it. */
    lemma ShadowRangeCovers(start: nat, end: nat)
      requires Geometry() && start <= end && ShadowRange(start, end).end <= BaseMappingAddr()
      ensures var (r, first) := (ShadowRange(start, end), MapToShadow(shadowBit, start));
              && ShadowOffset() <= r.start <= first && first + (end - start + 7) / 8 <= r.end
              && first - ShadowOffset() + (end - start + 7) / 8 <= shadow.Length
              && forall a: nat :: start <= a < end ==> r.start <= MapToShadow(shadowBit, a) < r.end
    {
      var r, first := ShadowRange(start, end), MapToShadow(shadowBit, start);
      ShadowInsideReservation(shadowBit, start);
      PageFloor(ShadowOffset(), pageSize, first);
      RoundDownIsFloor(first, pageSize);
      forall a: nat | start <= a < end ensures r.start <= MapToShadow(shadowBit, a) < r.end {
        ShadowContiguous(shadowBit, start, a);
      }
    }

    /** Commits the shadow pages of a memory range and opens the range on request. */
    method MapShadowForRegion(start: nat, end: nat, unpoison: bool) returns (shadowStart: nat, shadowSize: nat)
      requires Geometry() && ReservationOk()
      requires start <= end && ShadowRange(start, end).end <= BaseMappingAddr()
      modifies this`reserved, this`shadowPages, this`mappings, shadow
      ensures ReservationOk()
      ensures shadowPages == old(shadowPages) + Addresses(ShadowRange(start, end))
      ensures forall a: nat :: start <= a < end ==> MapToShadow(shadowBit, a) in shadowPages
      ensures var r := ShadowRange(start, end);
              var gaps := Gaps(old(shadowPages), r.start, r.end);
              mappings == WithCommitted(old(mappings), gaps)
      ensures Regions() == old(Regions())
      ensures var first := 8 * (MapToShadow(shadowBit, start) - ShadowOffset());
              if unpoison then Painted(old(shadow[..]), shadow[..], first, first + (end - start), true)
              else shadow[..] == old(shadow[..])
      ensures shadowStart == MapToShadow(shadowBit, start) && shadowSize == (end - start) / 8 + 1
    {
      var shadowMappingStart := MapToShadow(shadowBit, start);
      var r := ShadowRange(start, end);
      ShadowRangeCovers(start, end);
      hide MapToShadow, ShadowRange, Tiling, Gaps, WithCommitted, Managed, Pow2, Contains;
      CommitShadow(r);
      RangeContained(old(shadowPages), shadowPages, r);
      if unpoison {
        ContainsPart(shadowPages, r.start, r.end, shadowMappingStart, shadowMappingStart + (end - start + 7) / 8);
        ShadowBits.Unpoison(shadow, shadowMappingStart - ShadowOffset(), end - start, ShadowOffset(), shadowPages);
      }
      shadowStart, shadowSize := shadowMappingStart, (end - start) / 8 + 1;
    }

    /** Commits what is uncommitted in a page-aligned range of the reservation. */
    method CommitShadow(r: Range)
      requires Geometry() && ReservationOk()
      requires ShadowOffset() <= r.start <= r.end <= BaseMappingAddr()
      requires r.start % pageSize == 0 && r.end % pageSize == 0
      modifies this`reserved, this`shadowPages, this`mappings
      ensures ReservationOk() && Regions() == old(Regions())
      ensures shadowPages == old(shadowPages) + Addresses(r)
      ensures var gaps := Gaps(old(shadowPages), r.start, r.end);
              mappings == WithCommitted(old(mappings), gaps)
    {
      GapsFresh(r);
      GapsAreTheMaximalGaps(shadowPages, r.start, r.end);
      AllGapsAreTheRest(shadowPages, r);
      hide Gaps, Pow2, AllFresh, CommittedMapped, WithCommitted, AllAddresses, Tiling, Managed, BaseMappingAddr,
           Geometry;
      var gaps := Gaps(shadowPages, r.start, r.end);
      var newlyCommitted := CommitGaps(gaps, r);
      RecordCommitted(newlyCommitted);
      CommitKeepsRegions(old(mappings), gaps, BaseMappingAddr());
    }

    /** The gaps of a range can be committed one after the other. */
    lemma GapsFresh(r: Range)
      requires Geometry() && ReservationOk()
      requires ShadowOffset() <= r.start <= r.end <= BaseMappingAddr()
      requires r.start % pageSize == 0 && r.end % pageSize == 0
      ensures var gaps := Gaps(shadowPages, r.start, r.end);
              && AllFresh(gaps, shadowPages, BaseMappingAddr())
              && forall i :: 0 <= i < |gaps| ==> gaps[i].start < gaps[i].end <= BaseMappingAddr()
    {
      var gaps := Gaps(shadowPages, r.start, r.end);
      assert WholePages(shadowPages, pageSize);
      hide Tiling, WholePages, Gaps, Pow2, CommittedMapped;
      forall n | 0 <= n < |gaps|
        ensures Uncommitted(gaps[n], PagesAfter(shadowPages, gaps, n), BaseMappingAddr())
      {
        GapReady(gaps, n, r);
      }
    }

    /** Cuts every gap out of the reserved piece that holds it. */
    method CommitGaps(gaps: seq<Range>, r: Range) returns (newlyCommitted: seq<Range>)
      requires Geometry() && ReservationOk()
      requires ShadowOffset() <= r.start <= r.end <= BaseMappingAddr()
      requires r.start % pageSize == 0 && r.end % pageSize == 0
      requires gaps == Gaps(shadowPages, r.start, r.end)
      modifies this`reserved
      ensures newlyCommitted == gaps
      ensures Tiling(reserved, shadowPages + AllAddresses(gaps), ShadowOffset(), BaseMappingAddr(), pageSize)
    {
      assert WholePages(shadowPages, pageSize);
      hide Tiling, WholePages, Gaps, Pow2;
      newlyCommitted := [];
      var n := 0;
      assert shadowPages + AllAddresses(gaps[..0]) == shadowPages;
      while n < |gaps|
        invariant 0 <= n <= |gaps|
        invariant newlyCommitted == gaps[..n]
        invariant Tiling(reserved, shadowPages + AllAddresses(gaps[..n]), ShadowOffset(), BaseMappingAddr(), pageSize)
      {
        GapReady(gaps, n, r);
        var committed := CommitGap(gaps[n], shadowPages + AllAddresses(gaps[..n]));
        newlyCommitted := newlyCommitted + [committed];
        OneMoreGap(shadowPages, gaps, n);
        n := n + 1;
      }
      assert gaps[..n] == gaps;
    }

    /** Cuts one gap out of the first reserved piece that holds it; the rest of that piece stays reserved. */
    method CommitGap(gap: Range, ghost pages: set<nat>) returns (committed: Range)
      requires Geometry()
      requires Tiling(reserved, pages, ShadowOffset(), BaseMappingAddr(), pageSize)
      requires ShadowOffset() <= gap.start < gap.end <= BaseMappingAddr()
      requires gap.start % pageSize == 0 && gap.end % pageSize == 0
      requires forall x :: gap.start <= x < gap.end ==> x !in pages
      modifies this`reserved
      ensures committed == gap
      ensures Tiling(reserved, pages + Addresses(gap), ShadowOffset(), BaseMappingAddr(), pageSize)
    {
      ghost var pieces := reserved;
      ghost var p := GapInOnePiece(reserved, pages, ShadowOffset(), BaseMappingAddr(), pageSize, gap);
      assert PieceOk(reserved[p], ShadowOffset(), BaseMappingAddr(), pageSize);
      var newReserved: Option<Range> := None;
      committed := gap;
      var i := 0;
      while i < |reserved|
        invariant 0 <= i <= p && reserved == pieces && newReserved == None
        decreases |reserved| - i
      {
        if Holds(reserved[i], gap) {
          var rest, toBeCommitted := SplitOff(reserved[i], gap.start - reserved[i].start, pageSize);
          reserved := reserved[i := rest];
          if toBeCommitted.end > gap.end {
            var lower, upper := SplitOff(toBeCommitted, gap.end - toBeCommitted.start, pageSize);
            newReserved := Some(upper);
            toBeCommitted := lower;
          }
          committed := toBeCommitted;
          break;
        }
        i := i + 1;
      }
      if newReserved.Some? {
        reserved := reserved + [newReserved.value];
      }
      assert reserved == CutPieces(pieces, p, gap);
      CutKeepsTiling(pieces, pages, ShadowOffset(), BaseMappingAddr(), pageSize, p, gap);
    }

    /**
      Enters the committed ranges into the shadow pages and the mappings; no entry replaces, and so unmaps, another.
     */
    method RecordCommitted(newlyCommitted: seq<Range>)
      requires CommittedMapped(mappings, shadowPages, BaseMappingAddr())
      requires AllFresh(newlyCommitted, shadowPages, BaseMappingAddr())
      modifies this`shadowPages, this`mappings
      ensures CommittedMapped(mappings, shadowPages, BaseMappingAddr())
      ensures shadowPages == old(shadowPages) + AllAddresses(newlyCommitted)
      ensures mappings == WithCommitted(old(mappings), newlyCommitted)
    {
      hide *;
      NothingAfter(mappings, shadowPages, newlyCommitted);
      var n := 0;
      while n < |newlyCommitted|
        invariant 0 <= n <= |newlyCommitted|
        invariant CommittedMapped(mappings, shadowPages, BaseMappingAddr())
        invariant shadowPages == PagesAfter(old(shadowPages), newlyCommitted, n)
        invariant mappings == MappingsAfter(old(mappings), newlyCommitted, n)
      {
        NextAfter(old(mappings), old(shadowPages), newlyCommitted, n, BaseMappingAddr());
        RecordOne(newlyCommitted[n]);
        n := n + 1;
      }
      AllAfter(old(mappings), old(shadowPages), newlyCommitted);
    }

    method RecordOne(region: Range)
      requires CommittedMapped(mappings, shadowPages, BaseMappingAddr())
      requires Uncommitted(region, shadowPages, BaseMappingAddr())
      modifies this`shadowPages, this`mappings
      ensures CommittedMapped(mappings, shadowPages, BaseMappingAddr())
      ensures shadowPages == old(shadowPages) + Addresses(region)
      ensures region.start !in old(mappings) && mappings == old(mappings)[region.start := Length(region)]
      ensures old(mappings.Keys) <= mappings.Keys && |mappings| == |old(mappings)| + 1
    {
      CommitKeepsMapped(mappings, shadowPages, BaseMappingAddr(), region);
      OneMoreKey(mappings, region.start, Length(region));
      hide CommittedMapped, Addresses, BaseMappingAddr;
      shadowPages := shadowPages + Addresses(region);
      mappings := mappings[region.start := Length(region)];
    }

    /** The gap handled next is page-aligned, inside the reservation and still uncommitted. */
    lemma GapReady(gaps: seq<Range>, n: nat, r: Range)
      requires Geometry() && ShadowOffset() <= r.start <= r.end <= BaseMappingAddr()
      requires r.start % pageSize == 0 && r.end % pageSize == 0
      requires WholePages(shadowPages, pageSize)
      requires gaps == Gaps(shadowPages, r.start, r.end) && n < |gaps|
      ensures var g := gaps[n];
              && ShadowOffset() <= g.start < g.end <= BaseMappingAddr()
              && g.start % pageSize == 0 && g.end % pageSize == 0
              && forall x :: g.start <= x < g.end ==> x !in shadowPages + AllAddresses(gaps[..n])
    {
      GapsAreTheMaximalGaps(shadowPages, r.start, r.end);
      var g := gaps[n];
      assert MaximalGap(g, shadowPages, r.start, r.end);
      GapAligned(shadowPages, r.start, r.end, pageSize, g);
      forall x | g.start <= x < g.end ensures x !in shadowPages + AllAddresses(gaps[..n]) {
        assert forall i :: 0 <= i < n ==> gaps[i].end <= g.start;
      }
    }

    /** Payloads begin on 8-byte boundaries, below the limit, and their shadow bytes are committed. */
    lemma PayloadShadow(s: State, k: nat)
      requires Geometry() && RegionsCommitted() && currentMappingAddr <= Limit(shadowBit)
      requires Inv(Params(), s) && s.regions == Regions() && s.current == currentMappingAddr && k in s.allocations
      ensures var m := s.allocations[k];
              && k % 8 == 0 && BaseMappingAddr() <= m.address && k + m.size + pageSize < currentMappingAddr
              && k / 8 + (m.size + 7) / 8 <= shadow.Length
              && MapToShadow(shadowBit, k) == ShadowOffset() + k / 8
              && Contains(shadowPages, ShadowOffset() + k / 8, ShadowOffset() + k / 8 + (m.size + 7) / 8)
    {
      var m := s.allocations[k];
      assert EntryOk(k, m, Regions(), pageSize);
      PayloadGuarded(s.allocations, Regions(), pageSize, k);
      MultipleOfMultiple(m.address, granularity, 8);
      ShadowInjective(shadowBit, k, k);
      assert Committed(m.address, m.address + Regions()[m.address]);
      ShadowSpan(m.address, pageSize, m.size, Regions()[m.address]);
    }

    /** Maps the next region and commits its shadow. */
    method MapFreshRegion(size: nat, roundedUpSize: nat) returns (metadata: Metadata)
      requires Geometry() && ReservationOk() && RegionsCommitted() && currentMappingAddr <= Limit(shadowBit)
      requires BaseMappingAddr() <= currentMappingAddr && currentMappingAddr !in Regions()
      requires currentMappingAddr + roundedUpSize <= userspaceEnd
      requires currentMappingAddr % granularity == 0 && roundedUpSize % pageSize == 0
      modifies this`reserved, this`shadowPages, this`mappings, this`currentMappingAddr, shadow
      ensures ReservationOk() && RegionsCommitted() && currentMappingAddr <= Limit(shadowBit)
      ensures metadata == Metadata(old(currentMappingAddr), size, roundedUpSize, false, false)
      ensures shadow[..] == old(shadow[..])
      ensures currentMappingAddr == old(currentMappingAddr) + RoundUpToPage(roundedUpSize, granularity)
      ensures Regions() == old(Regions())[old(currentMappingAddr) := roundedUpSize]
    {
      var mapping := currentMappingAddr;
      RoundUpIsNextPage(roundedUpSize, granularity);
      currentMappingAddr := currentMappingAddr + RoundUpToPage(roundedUpSize, granularity);
      assert mapping + roundedUpSize + 16 * pageSize <= Limit(shadowBit) && currentMappingAddr <= Limit(shadowBit);
      hide RoundUpToPage, RoundDownToPage, Tiling, Pow2, Geometry, ReservationOk, Limit, ShadowRange, MapToShadow,
           Contains, ShadowOffset, Dense, CommittedIn;
      CommitRegion(mapping, roundedUpSize);
      RecordRegion(mapping, roundedUpSize);
      metadata := Metadata(mapping, size, roundedUpSize, false, false);
      forall a: nat | IsRegion(Regions(), a) ensures Committed(a, a + Regions()[a]) {
        if a != mapping {
          assert IsRegion(old(Regions()), a);
          MoreCommitted(old(shadowPages), shadowPages, a, a + Regions()[a]);
        }
      }
    }

    /** Commits the shadow of the next region. */
    method CommitRegion(mapping: nat, len: nat)
      requires Geometry() && ReservationOk() && mapping + len + 16 * pageSize <= Limit(shadowBit)
      requires BaseMappingAddr() <= mapping && mapping % granularity == 0 && len % pageSize == 0
      requires Dense() ==> Committed(BaseMappingAddr(), mapping)
      modifies this`reserved, this`shadowPages, this`mappings, shadow
      ensures ReservationOk() && old(shadowPages) <= shadowPages && Committed(mapping, mapping + len)
      ensures Dense() ==> Committed(BaseMappingAddr(), mapping + RoundUpToPage(len, granularity))
      ensures Regions() == old(Regions()) && shadow[..] == old(shadow[..])
    {
      hide RoundUpToPage, RoundDownToPage, Tiling, Pow2, WithCommitted, Gaps, Painted, Geometry, ReservationOk, Limit,
           ShadowRange, MapToShadow, Contains, ShadowOffset, Dense, Managed, BaseMappingAddr, CommittedIn;
      ShadowRangeFits(mapping, mapping + len);
      var _, _ := MapShadowForRegion(mapping, mapping + len, false);
      RegionCommits(old(shadowPages), shadowPages, mapping, len);
    }

    /** What is committed once the shadow range of a region is. */
    lemma RegionCommits(before: set<nat>, after: set<nat>, mapping: nat, len: nat)
      requires Geometry() && mapping + len + 16 * pageSize <= Limit(shadowBit)
      requires BaseMappingAddr() <= mapping && mapping % granularity == 0 && len % pageSize == 0
      requires after == before + Addresses(ShadowRange(mapping, mapping + len))
      requires Dense() ==> CommittedIn(before, BaseMappingAddr(), mapping)
      ensures before <= after && CommittedIn(after, mapping, mapping + len)
      ensures Dense() ==> CommittedIn(after, BaseMappingAddr(), mapping + RoundUpToPage(len, granularity))
    {
      hide RoundUpToPage, Pow2, Geometry, Limit, ShadowRange, Contains, Dense, BaseMappingAddr, CommittedIn;
      RangeContained(before, after, ShadowRange(mapping, mapping + len));
      RegionContained(after, mapping, mapping + len);
      if Dense() {
        MoreCommitted(before, after, BaseMappingAddr(), mapping);
        NextContained(after, mapping, len);
      }
    }

    lemma RegionContained(pages: set<nat>, start: nat, end: nat)
      requires Geometry() && start <= end && end + 16 * pageSize <= Limit(shadowBit)
      requires Contains(pages, ShadowRange(start, end).start, ShadowRange(start, end).end)
      ensures CommittedIn(pages, start, end)
    {
      ShadowRangeFits(start, end);
    }

    /** On dense platforms the shadow committed for a region reaches that of the next region. */
    lemma NextContained(pages: set<nat>, current: nat, len: nat)
      requires Geometry() && Dense() && current % granularity == 0 && len % pageSize == 0
      requires BaseMappingAddr() <= current && current + len + 16 * pageSize <= Limit(shadowBit)
      requires var r := ShadowRange(current, current + len); Contains(pages, r.start, r.end)
      requires CommittedIn(pages, BaseMappingAddr(), current)
      ensures CommittedIn(pages, BaseMappingAddr(), current + RoundUpToPage(len, granularity))
    {
      ShadowRangeFits(current, current + len);
      RangeReachesNext(current, len);
      hide ShadowRange, RoundUpToPage, Dense, MapToShadow, Limit, BaseMappingAddr, ShadowOffset;
      assert ShadowRange(current, current + len).start <= ShadowOffset() + (current + 7) / 8;
    }

    lemma RangeReachesNext(current: nat, len: nat)
      requires Geometry() && Dense() && current % granularity == 0 && len % pageSize == 0
      requires current + len + 16 * pageSize <= Limit(shadowBit)
      ensures var next := current + RoundUpToPage(len, granularity);
              ShadowOffset() + (next + 7) / 8 <= ShadowRange(current, current + len).end
    {
      ShadowRangeFits(current, current + len);
      var r := ShadowRange(current, current + len);
      var g :| g in {1, 2, 4, 8, 16} && granularity == pageSize * g;
      var k := RegionPage(current, pageSize, g, granularity);
      var l := Pages(len, pageSize);
      assert RoundedRange(pageSize, ShadowOffset(), current, len, r);
      hide ShadowRange, Limit, MapToShadow, Dense, RoundedRange;
      BytesReachIff(pageSize, g, granularity, ShadowOffset(), k, l, r);
      DenseReaches(k, l, g);
    }

    /** Enters a new region into the mappings. */
    method RecordRegion(address: nat, len: nat)
      requires BaseMappingAddr() <= address && address !in mappings
      requires Geometry() && ReservationOk()
      modifies this`mappings
      ensures Regions() == old(Regions())[address := len] && ReservationOk()
    {
      hide BaseMappingAddr, Tiling, CommittedMapped;
      RegionKeepsMapped(mappings, shadowPages, BaseMappingAddr(), address, len);
      ManagedUpdate(mappings, BaseMappingAddr(), address, len);
      mappings := mappings[address := len];
    }

    /** Opens the payload of a region and records the allocation. */
    method ServePayload(address: nat, metadata: Metadata)
      requires Geometry() && ReservationOk() && RegionsCommitted() && currentMappingAddr <= Limit(shadowBit)
      requires ShadowSays(shadow[..], allocations, BaseMappingAddr())
      requires address == metadata.address + pageSize && address !in allocations && !metadata.freed
      requires Inv(Params(), View().(allocations := allocations[address := metadata]))
      modifies this`allocations, shadow
      ensures Valid() && allocations == old(allocations)[address := metadata]
    {
      ghost var before, after := View(), View().(allocations := allocations[address := metadata]);
      PayloadShadow(after, address);
      ShadowBits.Unpoison(shadow, MapToShadow(shadowBit, metadata.address + pageSize) - ShadowOffset(), metadata.size,
                          ShadowOffset(), shadowPages);
      allocations := allocations[address := metadata];
      OpenPayload(old(shadow[..]), shadow[..], Params(), before, after, address);
    }

    /** Provides a region for a request: a queued one if one fits, otherwise a fresh one. */
    method TakeRegion(requested: nat, size: nat, isMallocZero: bool, roundedUpSize: nat, mmapOk: bool)
      returns (r: Option<Metadata>)
      requires Valid() && totalAllocationSize + Charge(Params(), requested) <= maxTotalAllocation
      requires size == ServedSize(requested) && isMallocZero == (requested == 0)
      requires roundedUpSize == Charge(Params(), requested)
      modifies this`allocationQueue, this`reserved, this`shadowPages, this`mappings, this`currentMappingAddr, shadow
      ensures Geometry() && ReservationOk() && RegionsCommitted() && currentMappingAddr <= Limit(shadowBit)
      ensures shadow[..] == old(shadow[..])
      ensures r.None? ==> View() == old(View())
      ensures r.None? <==> Fitting(old(allocationQueue), roundedUpSize) == {} &&
                           !(mmapOk && old(currentMappingAddr) + roundedUpSize <= userspaceEnd)
      ensures r.Some? ==>
                var c, s := Params(), old(View());
                var spec := Taken(c, s, requested);
                var ptr := r.value.address + pageSize;
                && spec.1 == Served(ptr)
                && spec.0 == View().(allocations := allocations[ptr := r.value], total := s.total + roundedUpSize,
                                     largest := Max(s.largest, r.value.actualSize))
    {
      assert QueueOk(allocationQueue, allocations, Regions(), pageSize) && BaseMappingAddr() <= currentMappingAddr;
      assert currentMappingAddr % granularity == 0;
      assert currentMappingAddr !in Regions() by {
        assert !IsRegion(Regions(), currentMappingAddr);
      }
      WholePagesCharged(size, pageSize);
      assert pageSize > 0 && granularity > 0;
      hide RegionSize, RoundUpToPage, RoundDownToPage, Inv, ShadowSays, Geometry, ReservationOk, RegionsCommitted,
           Limit, Pow2, Managed;
      var fit := FindSmallestFit(roundedUpSize);
      if fit.Some? {
        var metadata := fit.value;
        r := Some(metadata.(isMallocZero := isMallocZero, size := size));
      } else if mmapOk && currentMappingAddr + roundedUpSize <= userspaceEnd {
        var metadata := MapFreshRegion(size, roundedUpSize);
        r := Some(metadata);
      } else {
        r := None;
      }
    }

    /**
      Serves a request.  `mmapOk` is the answer of the operating system to a request for a fresh mapping:
      it either returns the hinted address, below the end of user space, or fails.
     */
    method Alloc(requested: nat, mmapOk: bool) returns (outcome: AllocOutcome)
      requires Valid()
      modifies this, shadow
      ensures Valid()
      ensures (View(), outcome) == AllocSpec(Params(), old(View()), requested, mmapOk)
      ensures pageSize > 0
      ensures outcome.AllocPanicked? <==> TooLarge(Params(), requested) && maxAllocationPanics
      ensures outcome.Null? <==>
                || (TooLarge(Params(), requested) && !maxAllocationPanics)
                || (!TooLarge(Params(), requested) &&
                      (OverTotal(Params(), old(View()), requested) ||
                       !HasRegion(Params(), old(View()), requested, mmapOk)))
      ensures outcome.Served? ==> outcome.ptr in allocations && allocations[outcome.ptr].size == Granted(requested)
    {
      AllocOutcomes(Params(), View(), requested, mmapOk);
      if AllocSpec(Params(), View(), requested, mmapOk).1.Served? {
        ServedEntry(Params(), View(), requested, mmapOk);
      }
      assert pageSize > 0 && granularity > 0;
      hide TooLarge, OverTotal, HasRegion, ReusesLeast, MapsNext;
      hide Inv, ShadowSays, Geometry, ReservationOk, RegionsCommitted, Limit;
      var isMallocZero := false;
      var size := requested;
      if size == 0 {
        isMallocZero := true;
        size := 16;
      }
      if size > maxAllocation {
        return if maxAllocationPanics then AllocPanicked else Null;
      }
      var roundedUpSize := RegionSize(size, pageSize);
      assert roundedUpSize == Charge(Params(), requested);
      hide RegionSize, RoundUpToPage, RoundDownToPage;
      if totalAllocationSize + roundedUpSize > maxTotalAllocation {
        return Null;
      }
      AllocIsTaken(Params(), View(), requested, mmapOk);
      hide AllocSpec, Charge, Valid;
      outcome := ServeRequest(requested, size, isMallocZero, roundedUpSize, mmapOk);
    }

    /** Serves a request that is within the limits. */
    method ServeRequest(requested: nat, size: nat, isMallocZero: bool, roundedUpSize: nat, mmapOk: bool)
      returns (outcome: AllocOutcome)
      requires Valid() && totalAllocationSize + Charge(Params(), requested) <= maxTotalAllocation
      requires size == ServedSize(requested) && isMallocZero == (requested == 0)
      requires roundedUpSize == Charge(Params(), requested)
      modifies this, shadow
      ensures Valid()
      ensures (View(), outcome) ==
              var c, s := Params(), old(View());
              if Fitting(s.queue, roundedUpSize) != {} || (mmapOk && s.current + roundedUpSize <= c.userspaceEnd)
              then Taken(c, s, requested) else (s.(total := s.total + roundedUpSize), Null)
    {
      assert pageSize > 0 && granularity > 0;
      hide Inv, Charge, Taken, Fitting, Geometry, ReservationOk, RegionsCommitted, ShadowSays, Limit, Pow2;
      ghost var c, s := Params(), View();
      TotalKeepsInv(c, s, s.total + roundedUpSize);
      TakenKeepsInv(c, s, requested);
      var region := TakeRegion(requested, size, isMallocZero, roundedUpSize, mmapOk);
      if region.None? {
        totalAllocationSize := totalAllocationSize + roundedUpSize;
        return Null;
      }
      outcome := RecordAllocation(region.value, roundedUpSize, Taken(c, s, requested).0);
    }

    /** Charges the request, opens the payload of its region and records the allocation. */
    method RecordAllocation(metadata: Metadata, roundedUpSize: nat, ghost spec: State) returns (outcome: AllocOutcome)
      requires Geometry() && ReservationOk() && RegionsCommitted() && currentMappingAddr <= Limit(shadowBit)
      requires ShadowSays(shadow[..], allocations, BaseMappingAddr())
      requires Inv(Params(), spec) && !metadata.freed && metadata.address + pageSize !in allocations
      requires spec == View().(allocations := allocations[metadata.address + pageSize := metadata],
                               total := totalAllocationSize + roundedUpSize,
                               largest := Max(largestAllocation, metadata.actualSize))
      modifies this, shadow
      ensures Valid() && View() == spec
      ensures outcome == Served(metadata.address + pageSize)
    {
      hide Inv, ShadowSays, Geometry, ReservationOk, RegionsCommitted, Limit;
      totalAllocationSize := totalAllocationSize + roundedUpSize;
      largestAllocation := Max(largestAllocation, metadata.actualSize);
      var address := metadata.address + pageSize;
      assert spec == View().(allocations := allocations[address := metadata]);
      ServePayload(address, metadata);
      outcome := Served(address);
    }

    /** Gives a block back; `crash` tells whether an error report asks for a panic. */
    method Release(ptr: nat, crash: bool) returns (outcome: ReleaseOutcome)
      requires Valid()
      modifies this`allocations, shadow
      ensures Valid()
      ensures (View(), outcome) == ReleaseSpec(old(View()), ptr, crash)
      ensures outcome.Released? <==> ptr in old(allocations) && !(old(allocations)[ptr].freed && crash)
      ensures outcome.ReleasePanicked? <==>
                crash && (if ptr in old(allocations) then old(allocations)[ptr].freed else ptr != 0)
    {
      ghost var c, s := Params(), View();
      if ptr !in allocations {
        if ptr != 0 && crash {
          return ReleasePanicked;
        }
        return Ignored;
      }
      var metadata := allocations[ptr];
      if metadata.freed && crash {
        return ReleasePanicked;
      }
      PayloadShadow(s, ptr);
      ReleaseKeepsInv(c, s, ptr, crash);
      var shadowMappingStart := MapToShadow(shadowBit, ptr);
      allocations := allocations[ptr := metadata.(freed := true)];
      hide Inv, Tiling;
      ShadowBits.Poison(shadow, shadowMappingStart - ShadowOffset(), metadata.size, ShadowOffset(), shadowPages);
      ClosePayload(old(shadow[..]), shadow[..], c, s, ptr);
      outcome := Released;
    }

    /** Moves every freed allocation back into the queue. */
    method Reset()
      requires Valid()
      modifies this`allocations, this`allocationQueue, this`totalAllocationSize, shadow
      ensures Valid()
      ensures View() == ResetSpec(old(View()))
      ensures totalAllocationSize == 0
      ensures forall k :: k in allocations <==> k in old(allocations) && !old(allocations)[k].freed
    {
      ghost var s := View();
      ResetKeepsInv(Params(), s);
      forall k | k in s.allocations ensures s.allocations[k].address + pageSize == k {
        assert EntryOk(k, s.allocations[k], s.regions, pageSize);
      }
      hide Inv, Tiling, RegionSize;
      var kept := RecycleFreed();
      Reinsert(kept, s);
      totalAllocationSize := 0;
      assert View() == ResetSpec(s);
      forall a: nat ensures Live(allocations, a) <==> Live(s.allocations, a) {
        LiveUnfreed(s.allocations, a);
      }
    }

    /** What `kept` holds once the allocations other than `rest` have been handled. */
    ghost predicate Kept(kept: seq<Metadata>, s: State, rest: set<nat>) {
      && (forall i :: 0 <= i < |kept| ==> KeptEntry(kept[i], s))
      && (forall k :: k in s.allocations && k !in rest && !s.allocations[k].freed ==> s.allocations[k] in kept)
    }

    ghost predicate KeptEntry(m: Metadata, s: State) {
      var k := m.address + pageSize;
      k in s.allocations && s.allocations[k] == m && !m.freed
    }

    /** Handling one more unfreed entry, or one more freed one. */
    lemma KeptStep(kept: seq<Metadata>, s: State, rest: set<nat>, k: nat)
      requires Kept(kept, s, rest + {k}) && k in s.allocations
      requires s.allocations[k].address + pageSize == k
      ensures Kept(if s.allocations[k].freed then kept else kept + [s.allocations[k]], s, rest)
    {
    }

    /** How far `RecycleFreed` has come: the entries in `allocations` are still to be handled. */
    ghost predicate Recycling(kept: seq<Metadata>, s: State)
      reads this`allocations, this`allocationQueue, shadow
    {
      && (forall k :: k in s.allocations ==> s.allocations[k].address + pageSize == k)
      && allocations.Keys <= s.allocations.Keys
      && (forall k :: k in allocations ==> allocations[k] == s.allocations[k])
      && ResetQueue(s.allocations, allocations.Keys, allocationQueue) ==
          ResetQueue(s.allocations, s.allocations.Keys, s.queue)
      && Kept(kept, s, allocations.Keys)
      && ShadowSays(shadow[..], s.allocations, BaseMappingAddr())
    }

    /** Empties `allocations`: freed entries are closed and queued, the others are returned. */
    method RecycleFreed() returns (kept: seq<Metadata>)
      requires Valid()
      modifies this`allocations, this`allocationQueue, shadow
      ensures allocations == map[]
      ensures allocationQueue == ResetQueue(old(allocations), old(allocations).Keys, old(allocationQueue))
      ensures Kept(kept, old(View()), {})
      ensures ShadowSays(shadow[..], old(allocations), BaseMappingAddr())
    {
      ghost var s := View();
      forall k | k in s.allocations ensures s.allocations[k].address + pageSize == k {
        assert EntryOk(k, s.allocations[k], s.regions, pageSize);
      }
      kept := [];
      hide Inv, Tiling, ShadowSays;
      while allocations != map[]
        invariant Recycling(kept, s)
        decreases |allocations|
      {
        kept := RecycleFirst(kept, s);
      }
      assert allocations.Keys == {};
      ResetQueueDone(s.allocations, allocationQueue);
    }

    /** Handles the first entry of `allocations`. */
    method RecycleFirst(kept: seq<Metadata>, ghost s: State) returns (kept': seq<Metadata>)
      requires Geometry() && RegionsCommitted() && currentMappingAddr <= Limit(shadowBit)
      requires Inv(Params(), s) && s.regions == Regions() && s.current == currentMappingAddr
      requires Recycling(kept, s) && allocations != map[]
      modifies this`allocations, this`allocationQueue, shadow
      ensures Recycling(kept', s) && |allocations| < |old(allocations)|
    {
      hide Inv, Tiling, ShadowSays, Kept, Requeue, ResetQueue;
      assert allocations.Keys != {};
      var address: nat := Least(allocations.Keys);
      var allocation := allocations[address];
      ghost var rest := allocations.Keys - {address};
      assert rest + {address} == allocations.Keys;
      KeptStep(kept, s, rest, address);
      ResetQueueStep(s.allocations, allocations.Keys, allocationQueue);
      allocations := allocations - {address};
      assert allocations.Keys == rest;
      if !allocation.freed {
        kept' := kept + [allocation];
      } else {
        kept' := kept;
        ClosePayloadOf(address, allocation, s);
        allocationQueue := Requeue(allocationQueue, allocation);
      }
    }

    /** Closes the payload of a freed entry once more. */
    method ClosePayloadOf(address: nat, allocation: Metadata, ghost s: State)
      requires Geometry() && RegionsCommitted() && currentMappingAddr <= Limit(shadowBit)
      requires Inv(Params(), s) && s.regions == Regions() && s.current == currentMappingAddr
      requires address in s.allocations && s.allocations[address] == allocation && allocation.freed
      requires ShadowSays(shadow[..], s.allocations, BaseMappingAddr())
      modifies shadow
      ensures ShadowSays(shadow[..], s.allocations, BaseMappingAddr())
    {
      PayloadShadow(s, address);
      hide Inv, Tiling, ShadowSays;
      ShadowBits.Poison(shadow, MapToShadow(shadowBit, address) - ShadowOffset(), allocation.size, ShadowOffset(),
                        shadowPages);
      CloseFreedPayload(old(shadow[..]), shadow[..], Params(), s, address);
    }

    lemma KeptIndex(kept: seq<Metadata>, s: State, k: nat) returns (i: nat)
      requires Kept(kept, s, {}) && k in s.allocations && !s.allocations[k].freed
      requires s.allocations[k].address + pageSize == k
      ensures i < |kept| && kept[i].address + pageSize == k
    {
      assert s.allocations[k] in kept;
      i :| 0 <= i < |kept| && kept[i] == s.allocations[k];
    }

    /** The first `n` kept entries are back, and nothing else. */
    ghost predicate Reinserted(kept: seq<Metadata>, n: nat, s: State)
      reads this`allocations
    {
      && (forall k :: k in allocations ==>
            k in s.allocations && !s.allocations[k].freed && allocations[k] == s.allocations[k])
      && (forall i :: 0 <= i < n <= |kept| ==> kept[i].address + pageSize in allocations)
    }

    lemma ReinsertedAll(kept: seq<Metadata>, s: State)
      requires Reinserted(kept, |kept|, s) && Kept(kept, s, {})
      requires forall k :: k in s.allocations ==> s.allocations[k].address + pageSize == k
      ensures allocations == Unfreed(s.allocations)
    {
      hide Kept, KeptEntry;
      forall k | k in s.allocations && !s.allocations[k].freed ensures k in allocations {
        var i := KeptIndex(kept, s, k);
      }
    }

    /** Puts the kept entries back under their payload addresses. */
    method Reinsert(kept: seq<Metadata>, ghost s: State)
      requires allocations == map[] && Kept(kept, s, {})
      requires forall k :: k in s.allocations ==> s.allocations[k].address + pageSize == k
      modifies this`allocations
      ensures allocations == Unfreed(s.allocations)
    {
      var n := 0;
      while n < |kept|
        invariant 0 <= n <= |kept|
        invariant Reinserted(kept, n, s)
      {
        assert KeptEntry(kept[n], s);
        n := ReinsertOne(kept, n, s);
      }
      ReinsertedAll(kept, s);
    }

    method ReinsertOne(kept: seq<Metadata>, n: nat, ghost s: State) returns (n': nat)
      requires n < |kept| && Reinserted(kept, n, s) && KeptEntry(kept[n], s)
      modifies this`allocations
      ensures n' == n + 1 && Reinserted(kept, n', s)
    {
      var allocation := kept[n];
      allocations := allocations[allocation.address + pageSize := allocation];
      n' := n + 1;
    }

    /** Regions begin at positive multiples of 8. */
    lemma AddressAligned(k: nat)
      requires Valid() && k in allocations
      ensures var a := allocations[k].address; a > 0 && a % 8 == 0 && k == a + pageSize
    {
      assert EntryOk(k, allocations[k], Regions(), pageSize);
      MultipleOfMultiple(allocations[k].address, granularity, 8);
    }

    /** Finds the allocation whose region begins closest to `ptr`; among equally close ones the lowest. */
    method FindMetadata(ptr: nat, hintBase: nat) returns (r: FindOutcome)
      requires Valid()
      ensures r.FindPanicked? <==> ptr > I64_MAX || exists k :: k in allocations && allocations[k].address > I64_MAX
      ensures r.NotFound? ==> allocations == map[]
      ensures r.Found? ==> && r.key in allocations
                           && forall k :: k in allocations ==>
                                var d := Distance(ptr, allocations[r.key].address);
                                var e := Distance(ptr, allocations[k].address);
                                d < e || (d == e && r.key <= k)
    {
      if ptr > I64_MAX {
        return FindPanicked;
      }
      assert BaseMappingAddr() > 0;
      hide RegionSize, Tiling, ShadowSays, Inv;
      var keys: set<nat> := allocations.Keys;
      var offsetToClosest := I64_MAX;
      r := NotFound;
      while keys != {}
        invariant keys <= allocations.Keys
        invariant forall j, k :: j in allocations && j !in keys && k in keys ==> j < k
        invariant forall k :: k in allocations && k !in keys ==> allocations[k].address <= I64_MAX
        invariant r.NotFound? ==> keys == allocations.Keys && offsetToClosest == I64_MAX
        invariant !r.FindPanicked?
        invariant r.Found? ==> && r.key in allocations && r.key !in keys
                               && offsetToClosest == Distance(ptr, allocations[r.key].address)
                               && forall k :: k in allocations && k !in keys ==>
                                    var e := Distance(ptr, allocations[k].address);
                                    offsetToClosest < e || (offsetToClosest == e && r.key <= k)
      {
        var key: nat := Least(keys);
        var metadata := allocations[key];
        AddressAligned(key);
        if metadata.address > I64_MAX {
          return FindPanicked;
        }
        var distance := Distance(ptr, metadata.address);
        var newOffset := if hintBase == metadata.address then distance
                         else if offsetToClosest < distance then offsetToClosest else distance;
        if newOffset < offsetToClosest {
          offsetToClosest := newOffset;
          r := Found(key);
        }
        keys := keys - {key};
      }
    }

    // ----- checking accesses -----

    /** Whether a shadow byte can be read. */
    predicate Readable(j: nat)
      reads this`shadowPages
    {
      ShadowOffset() + j in shadowPages
    }

    /** Readable shadow bytes belong to the reservation. */
    lemma ReadableInside(j: nat)
      requires Geometry() && ReservationOk() && Readable(j)
      ensures j < shadow.Length
    {
      assert InRange(Range(ShadowOffset(), BaseMappingAddr()), ShadowOffset() + j);
    }

    ghost predicate Ones(lo: nat, hi: nat)
      reads shadow
    {
      (lo < hi ==> hi <= shadow.Length) && forall j :: lo <= j < hi <= shadow.Length ==> shadow[j] == 0xff
    }

    /** The answer about shadow bytes `lo` to `hi`, or a read of a byte among them that is not committed. */
    ghost predicate Answers(r: CheckOutcome, lo: nat, hi: nat)
      reads this`shadowPages, shadow
    {
      match r
      case OutsideShadow => exists j: nat :: lo <= j < hi && !Readable(j)
      case Checked(allowed) => allowed <==> Ones(lo, hi)
    }

    /** Whether shadow bytes `lo` to `hi` are all ones: a bytewise prefix and suffix, and 16-byte words in between. */
    method AllOnes(lo: nat, hi: nat) returns (r: CheckOutcome)
      requires Geometry() && ReservationOk() && lo <= hi
      ensures Answers(r, lo, hi)
    {
      hide Geometry, ReservationOk, Pow2;
      var misaligned := (ShadowOffset() + lo) % 16;
      var prefixEnd :=
          if misaligned == 0 then lo else if lo + (16 - misaligned) < hi then lo + (16 - misaligned) else hi;
      var words := (hi - prefixEnd) / 16;
      r := BytesOnes(lo, prefixEnd);
      if r != Checked(true) { return; }
      r := BytesOnes(prefixEnd + 16 * words, hi);
      if r != Checked(true) { return; }
      r := WordsOnes(prefixEnd, words);
    }

    /** The bytewise loop over a prefix or suffix. */
    method BytesOnes(lo: nat, hi: nat) returns (r: CheckOutcome)
      requires Geometry() && ReservationOk() && lo <= hi
      ensures Answers(r, lo, hi)
    {
      for j := lo to hi
        invariant Ones(lo, j)
      {
        if !Readable(j) { return OutsideShadow; }
        ReadableInside(j);
        if shadow[j] != 0xff { return Checked(false); }
      }
      r := Checked(true);
    }

    /** The loop over 16-byte words. */
    method WordsOnes(lo: nat, words: nat) returns (r: CheckOutcome)
      requires Geometry() && ReservationOk()
      ensures Answers(r, lo, lo + 16 * words)
    {
      for n := 0 to words
        invariant Ones(lo, lo + 16 * n)
      {
        var word := lo + 16 * n;
        if exists j :: word <= j < word + 16 && !Readable(j) { return OutsideShadow; }
        ReadableInside(word + 15);
        if shadow[word..word + 16] != seq(16, _ => 0xff) {
          ghost var k :| 0 <= k < 16 && shadow[word..word + 16][k] != 0xff;
          assert shadow[word + k] != 0xff;
          return Checked(false);
        }
        assert forall i :: word <= i < word + 16 ==> shadow[i] == shadow[word..word + 16][i - word];
      }
      r := Checked(true);
    }

    /** Whether the shadow bytes of an 8-byte aligned range are all ones. */
    method CheckShadowAligned(address: nat, size: nat) returns (r: CheckOutcome)
      requires Valid()
      requires Aligned8(address) && Aligned8(size)
      requires size > 0 ==> BaseMappingAddr() <= address < Limit(shadowBit)
      ensures r.OutsideShadow? ==> !Committed(address, address + size)
      ensures r.Checked? ==> (r.allowed <==> AllLive(allocations, address, address + size))
    {
      if size == 0 {
        return Checked(true);
      }
      ShadowInjective(shadowBit, address, address);
      var shadowAddr := MapToShadow(shadowBit, address) - ShadowOffset();
      var shadowSize := size / 8;
      r := AllOnes(shadowAddr, shadowAddr + shadowSize);
      if r.Checked? {
        OnesAreLive(address, size);
      }
    }

    /** Shadow bytes of an aligned managed range are all ones exactly if all its bytes are live. */
    lemma OnesAreLive(address: nat, size: nat)
      requires Valid() && Aligned8(address) && Aligned8(size) && BaseMappingAddr() <= address < Limit(shadowBit)
      ensures Ones(address / 8, address / 8 + size / 8) <==> AllLive(allocations, address, address + size)
    {
      var lo, hi := address / 8, address / 8 + size / 8;
      assert 8 * lo == address && 8 * hi == address + size && lo < shadow.Length;
      hide Valid, Live, Open, BaseMappingAddr, Aligned8;
      if hi <= shadow.Length {
        AllOnesIsOpen(shadow[..], lo, hi);
        OpenIsLive(address, address + size);
      } else {
        NotAllLive(lo, hi);
      }
    }

    lemma NotAllLive(lo: nat, hi: nat)
      requires Valid() && shadow.Length < hi && lo < hi
      ensures !Ones(lo, hi) && !AllLive(allocations, 8 * lo, 8 * hi)
    {
      hide Inv, ShadowSays, ReservationOk, RegionsCommitted, Live;
      if Live(allocations, 8 * hi - 1) {
        LiveInside(Params(), View(), 8 * hi - 1);
      }
    }

    /** Managed bytes are open exactly when they are live. */
    lemma OpenIsLive(lo: nat, hi: nat)
      requires Valid() && BaseMappingAddr() <= lo && (hi + 7) / 8 <= shadow.Length
      ensures (forall i :: lo <= i < hi ==> Open(shadow[..], i)) <==> AllLive(allocations, lo, hi)
    {
      if forall i :: lo <= i < hi ==> Open(shadow[..], i) {
        forall a: int | lo <= a < hi ensures Live(allocations, a) {
          assert Open(shadow[..], a);
        }
      }
      if AllLive(allocations, lo, hi) {
        forall i | lo <= i < hi ensures Open(shadow[..], i) {
          assert Live(allocations, i);
        }
      }
    }

    /**
      Whether the bytes of the block of `a` that lie before `a` are open: the comparison with `0xff << (8 - offset)`.
     */
    method HeadOpen(a: nat, offset: nat) returns (r: CheckOutcome)
      requires Valid()
      requires offset == a - Block(a) && !Aligned8(a)
      requires BaseMappingAddr() <= Block(a) && a < Limit(shadowBit)
      ensures r.OutsideShadow? ==> !Readable(a / 8)
      ensures r.Checked? ==> (r.allowed <==> AllLive(allocations, Block(a), a))
    {
      ShadowInjective(shadowBit, a, a);
      var j := MapToShadow(shadowBit, a) - ShadowOffset();
      if !Readable(j) {
        return OutsideShadow;
      }
      ReadableInside(j);
      var mask := HeadMask(offset);
      r := Checked(shadow[j] & mask == mask);
      TestHeadMask(shadow[j], offset);
      OpenIsLive(Block(a), a);
      HeadBits(shadow[..], a);
    }

    /**
      Whether an access is allowed, as the code decides it, or that the code reads a shadow byte that is not committed.
      Unmanaged accesses are allowed; a managed one that starts on an 8-byte boundary or runs past the next one is
      allowed exactly if all its bytes are live. The check only leaves the committed shadow if the access does, and on
      dense platforms no access that ends in managed memory does.
     */
    method CheckShadow(address: nat, size: nat) returns (r: CheckOutcome)
      requires Valid()
      ensures r.Checked? ==>
                (r.allowed <==> (BaseMappingAddr() <= address < currentMappingAddr ==>
                                   Verdict(allocations, address, size)))
      ensures r.Checked? && BaseMappingAddr() <= address < currentMappingAddr && Decidable(address, size) ==>
                (r.allowed <==> AllLive(allocations, address, address + size))
      ensures r.OutsideShadow? ==>
                BaseMappingAddr() <= address < currentMappingAddr && !Committed(address, address + size)
      ensures Dense() && address + size <= currentMappingAddr ==> r.Checked?
      ensures (exists k :: InsidePayload(k, address, size)) ==> r == Checked(true)
    {
      if size == 0 {
        return Checked(true);
      }
      if !IsManaged(address) {
        return Checked(true);
      }
      if Decidable(address, size) {
        VerdictExactIfDecidable(Params(), View(), address, size);
      }
      if k: nat :| InsidePayload(k, address, size) {
        PayloadAccess(k, address, size);
      }
      if Dense() && address + size <= currentMappingAddr {
        CommittedPart(BaseMappingAddr(), currentMappingAddr, address, address + size);
      }
      if Aligned8(address) && Aligned8(size) {
        r := CheckShadowAligned(address, size);
        return;
      }
      r := CheckShadowSlow(address, size);
    }

    /** The access lies inside the payload of the unfreed entry `k`. */
    ghost predicate InsidePayload(k: nat, address: nat, size: nat)
      reads this`allocations
    {
      && k in allocations && !allocations[k].freed
      && k <= address && address + size <= k + allocations[k].size
    }

    /** An access inside a live payload reads committed shadow, and the verdict allows it. */
    lemma PayloadAccess(k: nat, address: nat, size: nat)
      requires Valid() && InsidePayload(k, address, size) && size > 0
      ensures IsManaged(address) && Committed(address, address + size) && Verdict(allocations, address, size)
    {
      var c, s := Params(), View();
      PayloadGuarded(s.allocations, s.regions, pageSize, k);
      RegionAccessCommitted(allocations[k].address, address, size);
      assert Live(s.allocations, address) by {
        assert InPayload(s.allocations, k, address);
      }
      LiveInside(c, s, address);
      VerdictAllowsPayload(c, s, k, address, size);
    }

    /** The slow path: the bytes before the start, the whole blocks, and the bytes before the end. */
    method CheckShadowSlow(address: nat, size: nat) returns (r: CheckOutcome)
      requires Valid()
      requires size > 0 && IsManaged(address)
      ensures r.OutsideShadow? ==> !Committed(address, address + size)
      ensures r.Checked? ==> (r.allowed <==> Verdict(allocations, address, size))
    {
      hide *;
      var startAddress, endAddress := address, address + size;
      var alignedStart, alignedEnd := AndNot(startAddress + 7, 7), AndNot(endAddress, 7);
      var startOffset, endOffset := BitAnd(startAddress, 7), BitAnd(endAddress, 7);
      MaskedStart(startAddress);
      MaskedEnd(endAddress);
      SlowPathParts(startAddress, endAddress);
      VerdictParts(allocations, startAddress, size);
      AccessCommitted(startAddress, endAddress);
      if startAddress != alignedStart {
        r := HeadOpen(startAddress, startOffset);
        if r != Checked(true) {
          return;
        }
      }
      if alignedStart <= alignedEnd {
        StartInside(startAddress);
        MultiplesDiffer(alignedStart, alignedEnd);
        r := CheckShadowAligned(alignedStart, alignedEnd - alignedStart);
        if r != Checked(true) {
          return;
        }
        if endAddress != alignedEnd {
          EndInside(alignedStart, endAddress);
          r := HeadOpen(endAddress, endOffset);
          if r != Checked(true) {
            return;
          }
        }
      }
      r := Checked(true);
    }

    /** The parts of a managed access lie in managed memory. */
    lemma SlowPathParts(start: nat, end: nat)
      requires Valid() && start < end && IsManaged(start)
      ensures BaseMappingAddr() <= Block(start) && BaseMappingAddr() <= NextBoundary(start)
      ensures BaseMappingAddr() <= Block(end)
      ensures start < Limit(shadowBit)
    {
      hide Inv, ShadowSays, Geometry, ReservationOk, RegionsCommitted, Block, NextBoundary;
      BlockManaged(start);
      BlockManaged(end);
    }

    /** Behind a live first block, or an aligned start, the whole blocks begin below the limit. */
    lemma StartInside(start: nat)
      requires Valid() && IsManaged(start)
      requires !Aligned8(start) ==> AllLive(allocations, Block(start), start)
      ensures NextBoundary(start) < currentMappingAddr <= Limit(shadowBit)
    {
      hide Inv, ShadowSays, ReservationOk, RegionsCommitted, Limit, Pow2, Live;
      NextBoundaryIs(start);
      if !Aligned8(start) {
        assert Live(allocations, start - 1);
        LiveInside(Params(), View(), start - 1);
      }
    }

    /** Behind live whole blocks the last block lies below the limit. */
    lemma EndInside(start: nat, end: nat)
      requires Valid() && start < currentMappingAddr && start <= Block(end)
      requires AllLive(allocations, start, Block(end))
      ensures end < Limit(shadowBit)
    {
      if start < Block(end) {
        assert Live(allocations, Block(end) - 1);
        LiveInside(Params(), View(), Block(end) - 1);
      }
      BlockBelow(end, currentMappingAddr, shadowBit);
    }

    /** Blocks that a managed access touches lie in managed memory. */
    lemma BlockManaged(a: nat)
      requires Geometry() && BaseMappingAddr() <= a
      ensures BaseMappingAddr() <= Block(a) && BaseMappingAddr() <= NextBoundary(a)
    {
      BaseAligned();
      PageFloor(BaseMappingAddr(), 8, a);
      NextBoundaryIs(a);
      hide BaseMappingAddr, Geometry;
    }

    /** If the shadow of an access is committed, so is that of each part. */
    lemma AccessCommitted(start: nat, end: nat)
      requires start < end
      ensures Committed(start, end) ==> Readable(start / 8)
      ensures Committed(start, end) && !Aligned8(end) ==> Readable(end / 8)
      ensures Committed(start, end) && NextBoundary(start) <= Block(end) ==> Committed(NextBoundary(start), Block(end))
    {
      hide ShadowOffset;
      if Committed(start, end) && NextBoundary(start) <= Block(end) {
        CommittedPart(start, end, NextBoundary(start), Block(end));
      }
    }

    lemma CommittedPart(lo: nat, hi: nat, lo': nat, hi': nat)
      requires Committed(lo, hi) && lo <= lo' <= hi' <= hi
      ensures Committed(lo', hi')
    {
      assert lo / 8 <= lo' / 8 && (hi' + 7) / 8 <= (hi + 7) / 8;
    }

    lemma BaseAligned()
      requires Geometry()
      ensures BaseMappingAddr() % 8 == 0
    {
      MultipleOfMultiple(ShadowOffset(), granularity, 8);
      ThreeTimes(ShadowOffset(), 8);
    }

    /** An access inside a mapped region, guard pages included, only needs committed shadow bytes. */
    lemma RegionAccessCommitted(a: nat, address: nat, size: nat)
      requires Valid() && IsRegion(Regions(), a)
      requires a <= address && address + size <= a + Regions()[a]
      ensures Committed(address, address + size)
    {
      assert Committed(a, a + Regions()[a]);
    }
  }

  /** The uncommitted addresses of a range are exactly the addresses of its gaps. */
  lemma AllGapsAreTheRest(pages: set<nat>, r: Range)
    requires r.start <= r.end
    ensures pages + AllAddresses(Gaps(pages, r.start, r.end)) == pages + Addresses(r)
  {
    GapsAreTheMaximalGaps(pages, r.start, r.end);
    var gaps := Gaps(pages, r.start, r.end);
    forall x: nat | x in AllAddresses(gaps) ensures InRange(r, x) {
      var i :| 0 <= i < |gaps| && InRange(gaps[i], x);
      assert MaximalGap(gaps[i], pages, r.start, r.end);
    }
    forall x: nat | x in Addresses(r) ensures x in pages + AllAddresses(gaps) {
      assert InRange(r, x);
    }
  }

  /** The limit is a block boundary. */
  lemma BlockBelow(a: nat, current: nat, shadowBit: nat)
    requires Block(a) < current <= Limit(shadowBit)
    ensures a < Limit(shadowBit)
  {
    ModUnique(Limit(shadowBit), 8, Pow2(shadowBit + 1), 0);
    MultiplesDiffer(Block(a), Limit(shadowBit));
  }

  lemma ContainsPart(pages: set<nat>, lo: nat, hi: nat, lo': nat, hi': nat)
    requires Contains(pages, lo, hi) && lo <= lo' && hi' <= hi
    ensures Contains(pages, lo', hi')
  {
  }

  lemma RangeContained(before: set<nat>, after: set<nat>, r: Range)
    requires after == before + Addresses(r)
    ensures Contains(after, r.start, r.end) && before <= after
  {
    assert forall x: nat :: r.start <= x < r.end ==> InRange(r, x);
  }

  /** The committed pages once the first `n` ranges have been entered. */
  ghost function PagesAfter(pages: set<nat>, gaps: seq<Range>, n: nat): set<nat>
    requires n <= |gaps|
  {
    pages + AllAddresses(gaps[..n])
  }

  ghost function MappingsAfter(mappings: map<nat, nat>, gaps: seq<Range>, n: nat): map<nat, nat>
    requires n <= |gaps|
  {
    WithCommitted(mappings, gaps[..n])
  }

  lemma NothingAfter(mappings: map<nat, nat>, pages: set<nat>, gaps: seq<Range>)
    ensures PagesAfter(pages, gaps, 0) == pages && MappingsAfter(mappings, gaps, 0) == mappings
  {
  }

  lemma NextAfter(mappings: map<nat, nat>, pages: set<nat>, gaps: seq<Range>, n: nat, base: nat)
    requires n < |gaps| && AllFresh(gaps, pages, base)
    ensures PagesAfter(pages, gaps, n + 1) == PagesAfter(pages, gaps, n) + Addresses(gaps[n])
    ensures MappingsAfter(mappings, gaps, n + 1) == MappingsAfter(mappings, gaps, n)[gaps[n].start := Length(gaps[n])]
    ensures Uncommitted(gaps[n], PagesAfter(pages, gaps, n), base)
  {
    OneMoreGap(pages, gaps, n);
    assert gaps[..n + 1][..n] == gaps[..n];
  }

  lemma AllAfter(mappings: map<nat, nat>, pages: set<nat>, gaps: seq<Range>)
    ensures PagesAfter(pages, gaps, |gaps|) == pages + AllAddresses(gaps)
    ensures MappingsAfter(mappings, gaps, |gaps|) == WithCommitted(mappings, gaps)
  {
    assert gaps[..|gaps|] == gaps;
  }

  lemma OneMoreKey(mappings: map<nat, nat>, a: nat, len: nat)
    requires a !in mappings
    ensures |mappings[a := len]| == |mappings| + 1 && mappings.Keys <= mappings[a := len].Keys
  {
    assert mappings[a := len].Keys == mappings.Keys + {a};
    assert |mappings[a := len]| == |mappings[a := len].Keys| && |mappings| == |mappings.Keys|;
  }

  lemma OneMoreGap(pages: set<nat>, gaps: seq<Range>, n: nat)
    requires n < |gaps|
    ensures pages + AllAddresses(gaps[..n]) + Addresses(gaps[n]) == pages + AllAddresses(gaps[..n + 1])
    ensures gaps[..n + 1] == gaps[..n] + [gaps[n]]
  {
    assert gaps[..n + 1][..n] == gaps[..n];
  }

  /** The shadow bytes of a payload are among those of its region. */
  lemma ShadowSpan(a: nat, pageSize: nat, size: nat, len: nat)
    requires a % 8 == 0 && pageSize % 8 == 0 && a + pageSize + size + pageSize < a + len
    ensures (a + pageSize) % 8 == 0
    ensures a / 8 <= (a + pageSize) / 8 && (a + pageSize) / 8 + (size + 7) / 8 <= (a + len + 7) / 8
  {
  }

  lemma RoundDownIsFloor(value: nat, pageSize: nat)
    requires pageSize > 0
    ensures RoundDownToPage(value, pageSize) == value - value % pageSize
  {
    assert value == pageSize * (value / pageSize) + value % pageSize;
  }
}
