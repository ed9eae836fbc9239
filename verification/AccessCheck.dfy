/**
  What the access check of the allocator decides, on plain values: its verdict in the parts that the code looks at, and
  for which accesses the verdict agrees with the live bytes.
 */
module AccessCheck {
  import opened Bits
  import opened ReservedShadow
  import opened AllocatorState

  // ----- masks and blocks -----

  /** The masks with 7 are remainder and rounding by 8. */
  lemma EightMasks(x: nat)
    ensures BitAnd(x, 7) == x % 8 && AndNot(x, 7) == x - x % 8
  {
    assert Pow2(3) == 8;
    MaskIsMod(x, 3);
    AndNotIsFloor(x, 3);
  }

  predicate Aligned8(x: nat) {
    x % 8 == 0
  }

  /** The start of the 8-byte block of an address. */
  function Block(a: nat): nat {
    a - a % 8
  }

  /** The first 8-byte boundary at or after an address. */
  function NextBoundary(a: nat): nat {
    Block(a + 7)
  }

  lemma NextBoundaryIs(a: nat)
    ensures NextBoundary(a) == if Aligned8(a) then a else Block(a) + 8
    ensures Aligned8(NextBoundary(a))
  {
    var q, r := a / 8, a % 8;
    if r == 0 {
      ModUnique(a + 7, 8, q, 7);
    } else {
      ModUnique(a + 7, 8, q + 1, r - 1);
    }
  }

  lemma MultiplesDiffer(a: nat, b: nat)
    requires a <= b && Aligned8(a) && Aligned8(b)
    ensures Aligned8(b - a)
  {
  }

  /** What the masks compute for the start of an access. */
  lemma MaskedStart(start: nat)
    ensures AndNot(start + 7, 7) == NextBoundary(start) && BitAnd(start, 7) == start - Block(start)
    ensures Aligned8(NextBoundary(start)) && (start != NextBoundary(start) <==> !Aligned8(start))
  {
    EightMasks(start);
    EightMasks(start + 7);
    NextBoundaryIs(start);
    hide BitAnd, AndNot;
  }

  /** What the masks compute for the end of an access. */
  lemma MaskedEnd(end: nat)
    ensures AndNot(end, 7) == Block(end) && BitAnd(end, 7) == end - Block(end)
    ensures Aligned8(Block(end)) && (end != Block(end) <==> !Aligned8(end))
  {
    EightMasks(end);
    hide BitAnd, AndNot;
  }

  /** The access starts on an 8-byte boundary or runs past the next one. */
  predicate Decidable(address: nat, size: nat) {
    Aligned8(address) || address + size > NextBoundary(address)
  }

  /**
    The answer of the check for a managed access, in the parts that the code checks: the bytes of the first block that
    lie before an unaligned start, the whole blocks, and the bytes of the last block that lie before an unaligned end.
   */
  ghost predicate Verdict(allocs: Allocations, address: nat, size: nat) {
    var (start, end) := (NextBoundary(address), Block(address + size));
    || size == 0
    || (&& (!Aligned8(address) ==> AllLive(allocs, Block(address), address))
        && (start <= end ==> AllLive(allocs, start, end))
        && (start <= end && !Aligned8(address + size) ==> AllLive(allocs, end, address + size)))
  }

  lemma VerdictParts(allocs: Allocations, address: nat, size: nat)
    requires size > 0
    ensures Verdict(allocs, address, size) <==>
              && (!Aligned8(address) ==> AllLive(allocs, Block(address), address))
              && (NextBoundary(address) <= Block(address + size) ==>
                    AllLive(allocs, NextBoundary(address), Block(address + size)))
              && (NextBoundary(address) <= Block(address + size) && !Aligned8(address + size) ==>
                    AllLive(allocs, Block(address + size), address + size))
  {
  }

  // ----- live bytes and blocks -----

  /** Live bytes lie behind the first guard page and more than a page before the next region. */
  lemma LiveInside(c: Limits, s: State, a: int)
    requires Inv(c, s) && Live(s.allocations, a)
    ensures c.base + c.pageSize <= a && a + c.pageSize < s.current
  {
    var k :| k in s.allocations && !s.allocations[k].freed && InPayload(s.allocations, k, a);
    PayloadGuarded(s.allocations, s.regions, c.pageSize, k);
    assert IsRegion(s.regions, s.allocations[k].address);
  }

  /** Payloads begin on 8-byte boundaries. */
  lemma PayloadAligned(c: Limits, s: State, k: nat)
    requires Inv(c, s) && c.granularity % 8 == 0 && c.pageSize % 8 == 0 && k in s.allocations
    ensures Aligned8(k)
  {
    var m := s.allocations[k];
    assert EntryOk(k, m, s.regions, c.pageSize);
    hide EntryOk, Inv, RegionsOk;
    MultipleOfMultiple(m.address, c.granularity, 8);
    SumOfMultiples(m.address, c.pageSize, 8);
  }

  /** A live byte makes the part of its block before it live as well: payloads begin on 8-byte boundaries. */
  lemma LiveFromBlockStart(c: Limits, s: State, a: nat)
    requires Inv(c, s) && c.granularity % 8 == 0 && c.pageSize % 8 == 0
    requires Live(s.allocations, a)
    ensures AllLive(s.allocations, Block(a), a)
  {
    var k :| k in s.allocations && !s.allocations[k].freed && InPayload(s.allocations, k, a);
    PayloadAligned(c, s, k);
    PageFloor(k, 8, a);
    hide Inv;
    forall b | Block(a) <= b < a ensures Live(s.allocations, b) {
      assert InPayload(s.allocations, k, b);
    }
  }

  /** If a block begins with a live byte and the next block does too, the whole first block is live. */
  lemma LiveBetween(c: Limits, s: State, b: nat)
    requires Inv(c, s) && c.pageSize % 8 == 0
    requires Live(s.allocations, b) && Live(s.allocations, b + 8)
    ensures AllLive(s.allocations, b, b + 8)
  {
    var j :| j in s.allocations && !s.allocations[j].freed && InPayload(s.allocations, j, b);
    var k :| k in s.allocations && !s.allocations[k].freed && InPayload(s.allocations, k, b + 8);
    if j < k {
      PayloadsDisjoint(s.allocations, s.regions, c.pageSize, c.granularity, c.base, s.current, j, k);
    } else if k < j {
      PayloadsDisjoint(s.allocations, s.regions, c.pageSize, c.granularity, c.base, s.current, k, j);
    }
    forall a | b <= a < b + 8 ensures Live(s.allocations, a) {
      assert InPayload(s.allocations, j, a);
    }
  }

  lemma BlockOrder(start: nat, end: nat)
    requires start < end
    ensures Block(start) <= start < Block(start) + 8 && Block(end) <= end
    ensures NextBoundary(start) <= Block(end) <==> NextBoundary(start) <= end
    ensures !Aligned8(start) && end > NextBoundary(start) ==> NextBoundary(start) <= Block(end)
    ensures Aligned8(end) ==> Block(end) == end
    ensures Aligned8(start) ==> NextBoundary(start) == start
  {
    NextBoundaryIs(start);
    LastBoundary(NextBoundary(start), end);
  }

  /** A boundary is at or below an address exactly if it is at or below the start of its block. */
  lemma LastBoundary(b: nat, a: nat)
    requires Aligned8(b)
    ensures b <= a <==> b <= Block(a)
  {
    PageFloor(b, 8, a);
  }

  /** The split for an unaligned access that runs past the next boundary. */
  lemma PastBoundary(c: Limits, s: State, address: nat, to: nat)
    requires Inv(c, s) && c.granularity % 8 == 0 && c.pageSize % 8 == 0
    requires !Aligned8(address) && NextBoundary(address) < to
    ensures AllLive(s.allocations, address, to) <==>
              && AllLive(s.allocations, Block(address), address)
              && AllLive(s.allocations, NextBoundary(address), Block(to))
              && AllLive(s.allocations, Block(to), to)
  {
    var allocs := s.allocations;
    var block, start, end := Block(address), NextBoundary(address), Block(to);
    NextBoundaryIs(address);
    BlockOrder(address, to);
    assert start == block + 8 && block < address < start <= end <= to;
    if AllLive(allocs, address, to) {
      assert Live(allocs, address);
      LiveFromBlockStart(c, s, address);
    }
    if AllLive(allocs, block, address) && AllLive(allocs, start, end) && AllLive(allocs, end, to) {
      assert Live(allocs, block) && Live(allocs, start);
      LiveBetween(c, s, block);
      hide Inv, Live, Block, NextBoundary, Aligned8;
      JoinLive(allocs, address, start, end, to, block);
    }
  }

  lemma JoinLive(allocs: Allocations, address: nat, start: nat, end: nat, to: nat, block: nat)
    requires block <= address <= start <= end <= to
    requires AllLive(allocs, block, start) && AllLive(allocs, start, end) && AllLive(allocs, end, to)
    ensures AllLive(allocs, address, to)
  {
    hide Live;
  }

  // ----- what the verdict means -----

  /**
    In a consistent state the check is exact for every access that the guard `Decidable` lets through, although it looks
    at the bytes before an unaligned start instead of those behind it.
   */
  lemma VerdictExactIfDecidable(c: Limits, s: State, address: nat, size: nat)
    requires Inv(c, s) && c.granularity % 8 == 0 && c.pageSize % 8 == 0
    requires Decidable(address, size)
    ensures Verdict(s.allocations, address, size) <==> AllLive(s.allocations, address, address + size)
  {
    hide Inv, Live, AllLive, Aligned8, Block, NextBoundary;
    if size > 0 {
      NextBoundaryIs(address);
      BlockOrder(address, address + size);
      if Aligned8(address) {
        SplitLive(s.allocations, address, Block(address + size), address + size);
      } else {
        PastBoundary(c, s, address, address + size);
      }
    }
    NothingLive(s.allocations, address);
    NothingLive(s.allocations, address + size);
  }

  lemma SplitLive(allocs: Allocations, lo: nat, mid: nat, hi: nat)
    requires lo <= mid <= hi
    ensures AllLive(allocs, lo, hi) <==> AllLive(allocs, lo, mid) && AllLive(allocs, mid, hi)
  {
    hide Live;
  }

  lemma NothingLive(allocs: Allocations, a: nat)
    ensures AllLive(allocs, a, a)
  {
    hide Live;
  }

  /** Any other access is decided by the bytes of its block that lie before it. */
  lemma VerdictIfUndecidable(allocs: Allocations, address: nat, size: nat)
    requires !Decidable(address, size) && size > 0
    ensures Verdict(allocs, address, size) <==> AllLive(allocs, Block(address), address)
  {
    NextBoundaryIs(address);
    BlockOrder(address, address + size);
    hide Live;
  }

  /** Whatever its alignment, an access inside one live payload is allowed. */
  lemma VerdictAllowsPayload(c: Limits, s: State, k: nat, address: nat, size: nat)
    requires Inv(c, s) && c.granularity % 8 == 0 && c.pageSize % 8 == 0
    requires k in s.allocations && !s.allocations[k].freed
    requires k <= address && address + size <= k + s.allocations[k].size
    ensures Verdict(s.allocations, address, size)
  {
    forall a | address <= a < address + size ensures Live(s.allocations, a) {
      assert InPayload(s.allocations, k, a);
    }
    if size > 0 {
      assert Live(s.allocations, address);
      LiveFromBlockStart(c, s, address);
      if Decidable(address, size) {
        VerdictExactIfDecidable(c, s, address, size);
      } else {
        VerdictIfUndecidable(s.allocations, address, size);
      }
    }
  }

  // ----- the guard is sharp -----

  /** A state with one live payload at the start of managed memory that ends where the access begins. */
  ghost function OneBlockState(c: Limits, address: nat): State
    requires c.pageSize > 0 && c.granularity > 0 && c.base + c.pageSize < address
  {
    var size := address - (c.base + c.pageSize);
    var len := RegionSize(size, c.pageSize);
    State(map[c.base + c.pageSize := Metadata(c.base, size, len, false, false)], map[], map[c.base := len],
          c.base + RoundUpToPage(len, c.granularity), len, 0)
  }

  /** That state is reached by one allocation and a reset, as long as the request is within the limits. */
  lemma OneBlockStateReached(c: Limits, address: nat)
    requires c.pageSize > 0 && c.granularity > 0 && c.base + c.pageSize < address
    requires var size := address - (c.base + c.pageSize);
             && size <= c.maxAllocation && RegionSize(size, c.pageSize) <= c.maxTotalAllocation
             && c.base + RegionSize(size, c.pageSize) <= c.userspaceEnd
    ensures var events := [AllocEvent(address - (c.base + c.pageSize), true), ResetEvent];
            Run(c, EmptyState(c.base), events) == OneBlockState(c, address)
  {
    hide RegionSize, RoundUpToPage;
    var size := address - (c.base + c.pageSize);
    var s0 := EmptyState(c.base);
    var e0 := AllocEvent(size, true);
    assert Fitting(s0.queue, Charge(c, size)) == {};
    var s1 := StepState(c, s0, e0);
    assert s1 == Mapped(c, s0, size).0;
    var k := c.base + c.pageSize;
    assert s1.allocations.Keys == {k};
    assert Unfreed(s1.allocations) == s1.allocations;
    ResetQueueStep(s1.allocations, {k}, map[]);
    assert Least({k}) == k && {k} - {k} == {};
    ResetQueueDone(s1.allocations, map[]);
    assert ResetSpec(s1) == OneBlockState(c, address);
    RunOfTwo(c, s0, e0, ResetEvent);
  }

  lemma RunOfTwo(c: Limits, s: State, e: Event, e': Event)
    requires c.pageSize > 0 && c.granularity > 0
    ensures Run(c, s, [e, e']) == StepState(c, StepState(c, s, e), e')
  {
    assert [e, e'][1..] == [e'] && [e'][1..] == [];
    var s1 := StepState(c, s, e);
    assert Run(c, s1, [e']) == Run(c, StepState(c, s1, e'), []);
  }

  lemma OneBlockStateOk(c: Limits, address: nat)
    requires c.pageSize > 0 && c.granularity > 0 && c.base % c.granularity == 0
    requires c.base + c.pageSize < address
    ensures Inv(c, OneBlockState(c, address))
  {
    var s := OneBlockState(c, address);
    var empty := EmptyState(c.base);
    var size := address - (c.base + c.pageSize);
    assert Ownership(empty.allocations, empty.queue, empty.regions, c.pageSize);
    FreshKeepsRegions(empty.regions, c.base, c.base, c.granularity, RegionSize(size, c.pageSize));
    FreshKeepsOwnership(empty.allocations, empty.queue, empty.regions, c.pageSize, c.base, size);
    assert map[][c.base + c.pageSize := s.allocations[c.base + c.pageSize]] == s.allocations;
  }

  /** In that state the check lets an access pass that the guard rejects, although its first byte is not live. */
  lemma OneBlockStateFools(c: Limits, address: nat, size: nat)
    requires c.pageSize > 0 && c.pageSize % 8 == 0 && c.granularity > 0 && c.granularity % 8 == 0
    requires c.base % c.granularity == 0 && c.base + c.pageSize < address
    requires !Decidable(address, size) && size > 0
    ensures var allocs := OneBlockState(c, address).allocations;
            Verdict(allocs, address, size) && !AllLive(allocs, address, address + size)
  {
    var s := OneBlockState(c, address);
    var k := c.base + c.pageSize;
    MultipleOfMultiple(c.base, c.granularity, 8);
    SumOfMultiples(c.base, c.pageSize, 8);
    LastBoundary(k, address);
    forall a | Block(address) <= a < address ensures Live(s.allocations, a) {
      assert InPayload(s.allocations, k, a);
    }
    assert !Live(s.allocations, address);
    VerdictIfUndecidable(s.allocations, address, size);
  }

  /**
    The guard is sharp. For an access in managed memory the check agrees with the shadow in every consistent state if
    and only if the access starts on an 8-byte boundary, runs past the next one, or starts in the first guard page.
   */
  lemma CheckExactIffDecidable(c: Limits, address: nat, size: nat)
    requires c.pageSize > 0 && c.pageSize % 8 == 0 && c.granularity > 0 && c.granularity % 8 == 0
    requires c.base % c.granularity == 0 && c.base <= address && size > 0
    ensures Decidable(address, size) || address < c.base + c.pageSize <==>
            forall s: State :: Inv(c, s) ==>
              (Verdict(s.allocations, address, size) <==> AllLive(s.allocations, address, address + size))
  {
    if Decidable(address, size) || address < c.base + c.pageSize {
      forall s: State | Inv(c, s)
        ensures Verdict(s.allocations, address, size) <==> AllLive(s.allocations, address, address + size)
      {
        if Decidable(address, size) {
          VerdictExactIfDecidable(c, s, address, size);
        } else {
          GuardPageExact(c, s, address, size);
        }
      }
    } else {
      MultipleOfMultiple(c.base, c.granularity, 8);
      SumOfMultiples(c.base, c.pageSize, 8);
      OneBlockStateOk(c, address);
      OneBlockStateFools(c, address, size);
    }
  }

  /** In the first guard page nothing is live, and the check never lets an access pass. */
  lemma GuardPageExact(c: Limits, s: State, address: nat, size: nat)
    requires Inv(c, s) && !Decidable(address, size) && size > 0 && address < c.base + c.pageSize
    ensures !Verdict(s.allocations, address, size) && !AllLive(s.allocations, address, address + size)
  {
    VerdictIfUndecidable(s.allocations, address, size);
    assert Block(address) < address;
    if Live(s.allocations, address) {
      LiveInside(c, s, address);
    }
    if Live(s.allocations, Block(address)) {
      LiveInside(c, s, Block(address));
    }
  }
}
