/**
  What a state of the allocator means, stated on plain values:
  who owns which mapped region, and which bytes of managed memory belong to a live payload.
 */
module AllocatorState {
  import Bits
  import Common

  datatype Metadata = Metadata(address: nat, size: nat, actualSize: nat, freed: bool, isMallocZero: bool)

  type Allocations = map<nat, Metadata>
  type Queue = map<nat, seq<Metadata>>

  /** The regions mapped so far: addresses and lengths. */
  type Regions = map<nat, nat>

  /** The page-rounding the allocator uses: a whole number of pages, strictly more than `size`. */
  function RoundUpToPage(size: nat, pageSize: nat): nat
    requires pageSize > 0
  {
    ((size + pageSize) / pageSize) * pageSize
  }

  function RoundDownToPage(value: nat, pageSize: nat): nat
    requires pageSize > 0
  {
    (value / pageSize) * pageSize
  }

  /** The bytes a request occupies, with the guard pages. */
  function RegionSize(size: nat, pageSize: nat): nat
    requires pageSize > 0
  {
    RoundUpToPage(size, pageSize) + 2 * pageSize
  }

  lemma RoundUpIsNextPage(size: nat, pageSize: nat)
    requires pageSize > 0
    ensures size < RoundUpToPage(size, pageSize) <= size + pageSize
    ensures RoundUpToPage(size, pageSize) % pageSize == 0
  {
    var q, r := (size + pageSize) / pageSize, (size + pageSize) % pageSize;
    assert size + pageSize == pageSize * q + r;
    assert q * pageSize == pageSize * q;
    Bits.ModUnique(pageSize * q, pageSize, q, 0);
  }

  lemma RoundDownIsOwnPage(value: nat, pageSize: nat)
    requires pageSize > 0
    ensures value - pageSize < RoundDownToPage(value, pageSize) <= value
    ensures RoundDownToPage(value, pageSize) % pageSize == 0
  {
    var q, r := value / pageSize, value % pageSize;
    assert value == pageSize * q + r;
    assert q * pageSize == pageSize * q;
    Bits.ModUnique(pageSize * q, pageSize, q, 0);
  }

  // ----- regions -----

  /** `regions` maps addresses to lengths; the ones from `base` up are the regions handed out to the program. */
  ghost predicate RegionsOk(regions: Regions, base: nat, current: nat, granularity: nat)
    requires granularity > 0
  {
    && base <= current && base % granularity == 0 && current % granularity == 0
    && (forall a: nat {:trigger IsRegion(regions, a)} ::
          IsRegion(regions, a) ==> base <= a && a % granularity == 0 && a + regions[a] < current)
    && (forall a: nat, b: nat {:trigger IsRegion(regions, a), IsRegion(regions, b)} ::
          IsRegion(regions, a) && IsRegion(regions, b) && a < b ==> a + regions[a] < b)
  }

  /** A region of managed memory has been mapped at address `a`. */
  ghost predicate IsRegion(regions: Regions, a: nat) {
    a in regions
  }

  // ----- ownership -----

  /** Entry `k` describes a payload that lies in its own region behind a whole guard page and before another one. */
  ghost predicate EntryOk(k: nat, m: Metadata, regions: Regions, pageSize: nat)
    requires pageSize > 0
  {
    && k == m.address + pageSize
    && IsRegion(regions, m.address) && regions[m.address] == m.actualSize
    && 0 < m.size && RegionSize(m.size, pageSize) <= m.actualSize
  }

  /** A queued region is filed under its own size, is not freed, and is not an allocation at the same time. */
  ghost predicate QueuedOk(q: nat, m: Metadata, allocs: Allocations, regions: Regions, pageSize: nat) {
    && m.actualSize == q && !m.freed
    && IsRegion(regions, m.address) && regions[m.address] == q
    && m.address + pageSize !in allocs
  }

  /** `i` is a position in the list filed under `q`. */
  ghost predicate Slot(queue: Queue, q: nat, i: int) {
    q in queue && 0 <= i < |queue[q]|
  }

  ghost predicate InQueue(queue: Queue, a: nat) {
    exists q, i :: Slot(queue, q, i) && queue[q][i].address == a
  }

  ghost predicate AllocationsOk(allocs: Allocations, regions: Regions, pageSize: nat)
    requires pageSize > 0
  {
    forall k {:trigger EntryOk(k, allocs[k], regions, pageSize)} ::
      k in allocs ==> EntryOk(k, allocs[k], regions, pageSize)
  }

  ghost predicate QueueOk(queue: Queue, allocs: Allocations, regions: Regions, pageSize: nat) {
    && (forall q, i {:trigger QueuedOk(q, queue[q][i], allocs, regions, pageSize)} ::
          Slot(queue, q, i) ==> QueuedOk(q, queue[q][i], allocs, regions, pageSize))
    && (forall q, i, j :: Slot(queue, q, i) && Slot(queue, q, j) && queue[q][i].address == queue[q][j].address ==>
          i == j)
  }

  /** The region at `a` is an allocation or waits in the queue. */
  ghost predicate Owned(queue: Queue, allocs: Allocations, pageSize: nat, a: nat) {
    a + pageSize in allocs || InQueue(queue, a)
  }

  ghost predicate NoRegionLost(queue: Queue, allocs: Allocations, regions: Regions, pageSize: nat) {
    forall a: nat {:trigger Owned(queue, allocs, pageSize, a)} :: IsRegion(regions, a) ==>
          Owned(queue, allocs, pageSize, a)
  }

  /** Every mapped region is in exactly one of `allocs` and `queue`, and nothing else is in either. */
  ghost predicate Ownership(allocs: Allocations, queue: Queue, regions: Regions, pageSize: nat)
    requires pageSize > 0
  {
    && AllocationsOk(allocs, regions, pageSize)
    && QueueOk(queue, allocs, regions, pageSize)
    && NoRegionLost(queue, allocs, regions, pageSize)
  }

  /** A mapped region has exactly one owner: either an allocation or a queue slot. */
  lemma ExactlyOneOwner(allocs: Allocations, queue: Queue, regions: Regions, pageSize: nat, a: nat)
    requires pageSize > 0 && Ownership(allocs, queue, regions, pageSize)
    requires IsRegion(regions, a)
    ensures a + pageSize in allocs <==> !InQueue(queue, a)
  {
    assert Owned(queue, allocs, pageSize, a);
    if InQueue(queue, a) {
      var q, i :| Slot(queue, q, i) && queue[q][i].address == a;
      assert QueuedOk(q, queue[q][i], allocs, regions, pageSize);
    }
  }

  /** No region is in two queue slots. */
  lemma OneSlot(allocs: Allocations, queue: Queue, regions: Regions, pageSize: nat,
                q1: nat, i1: int, q2: nat, i2: int)
    requires pageSize > 0 && Ownership(allocs, queue, regions, pageSize)
    requires Slot(queue, q1, i1) && Slot(queue, q2, i2) && queue[q1][i1].address == queue[q2][i2].address
    ensures q1 == q2 && i1 == i2
  {
    assert QueuedOk(q1, queue[q1][i1], allocs, regions, pageSize);
    assert QueuedOk(q2, queue[q2][i2], allocs, regions, pageSize);
  }

  /** The next region begins at `current` and the one after it at a later multiple of the granularity. */
  lemma FreshKeepsRegions(regions: Regions, base: nat, current: nat, granularity: nat, len: nat)
    requires granularity > 0 && RegionsOk(regions, base, current, granularity)
    ensures RegionsOk(regions[current := len], base, current + RoundUpToPage(len, granularity), granularity)
    ensures current !in regions
  {
    var regions' := regions[current := len];
    assert !IsRegion(regions, current);
    RoundUpIsNextPage(len, granularity);
    Bits.SumOfMultiples(current, RoundUpToPage(len, granularity), granularity);
    forall a: nat | IsRegion(regions', a) && a != current
      ensures IsRegion(regions, a) && a % granularity == 0 && a + regions[a] < current
    {
      assert IsRegion(regions, a);
    }
  }

  // ----- live memory -----

  /** Byte `a` lies in the payload of entry `k`. */
  predicate InPayload(allocs: Allocations, k: nat, a: int)
    requires k in allocs
  {
    k <= a < k + allocs[k].size
  }

  /** Byte `a` lies in the payload of an allocation that has not been freed. */
  ghost predicate Live(allocs: Allocations, a: int) {
    exists k :: k in allocs && !allocs[k].freed && InPayload(allocs, k, a)
  }

  ghost predicate AllLive(allocs: Allocations, lo: int, hi: int) {
    forall a :: lo <= a < hi ==> Live(allocs, a)
  }

  /** Payloads of different entries share no byte, and a guard page separates them. */
  lemma PayloadsDisjoint(allocs: Allocations, regions: Regions, pageSize: nat, granularity: nat,
                         base: nat, current: nat, k1: nat, k2: nat)
    requires pageSize > 0 && granularity > 0
    requires RegionsOk(regions, base, current, granularity)
    requires AllocationsOk(allocs, regions, pageSize)
    requires k1 in allocs && k2 in allocs && k1 < k2
    ensures k1 + allocs[k1].size + 2 * pageSize < k2
  {
    var m1, m2 := allocs[k1], allocs[k2];
    assert EntryOk(k1, m1, regions, pageSize);
    assert EntryOk(k2, m2, regions, pageSize);
    RoundUpIsNextPage(m1.size, pageSize);
  }

  /** A payload has a whole page before it and more than a page behind it inside its own region. */
  lemma PayloadGuarded(allocs: Allocations, regions: Regions, pageSize: nat, k: nat)
    requires pageSize > 0 && AllocationsOk(allocs, regions, pageSize)
    requires k in allocs
    ensures var m := allocs[k];
            && IsRegion(regions, m.address)
            && m.address + pageSize == k
            && k + m.size + pageSize < m.address + regions[m.address]
  {
    var m := allocs[k];
    assert EntryOk(k, m, regions, pageSize);
    RoundUpIsNextPage(m.size, pageSize);
  }

  /** The sizes at or above a request for which a region is queued. */
  ghost function Fitting(queue: Queue, size: nat): set<nat> {
    set p | p in queue && size <= p && queue[p] != []
  }

  // ----- one step of each operation -----

  /** A fresh region becomes an allocation. */
  lemma FreshKeepsOwnership(allocs: Allocations, queue: Queue, regions: Regions, pageSize: nat,
                            a: nat, size: nat)
    requires pageSize > 0 && Ownership(allocs, queue, regions, pageSize)
    requires a !in regions && 0 < size
    ensures var len := RegionSize(size, pageSize);
            Ownership(allocs[a + pageSize := Metadata(a, size, len, false, false)], queue, regions[a := len], pageSize)
  {
    var len := RegionSize(size, pageSize);
    var allocs' := allocs[a + pageSize := Metadata(a, size, len, false, false)];
    var regions' := regions[a := len];
    forall k | k in allocs' ensures EntryOk(k, allocs'[k], regions', pageSize) {
      assert k != a + pageSize ==> EntryOk(k, allocs[k], regions, pageSize);
    }
    forall q, i | Slot(queue, q, i)
      ensures QueuedOk(q, queue[q][i], allocs', regions', pageSize)
    {
      assert QueuedOk(q, queue[q][i], allocs, regions, pageSize);
    }
    forall b: nat | IsRegion(regions', b) ensures Owned(queue, allocs', pageSize, b) {
      assert IsRegion(regions, b) ==> Owned(queue, allocs, pageSize, b);
    }
  }

  /** The last region filed under `q` is taken out of the queue and becomes an allocation. */
  lemma ReuseKeepsOwnership(allocs: Allocations, queue: Queue, regions: Regions, pageSize: nat,
                            q: nat, size: nat, zero: bool)
    requires pageSize > 0 && Ownership(allocs, queue, regions, pageSize)
    requires q in queue && queue[q] != [] && 0 < size && RegionSize(size, pageSize) <= q
    ensures var last := queue[q][|queue[q]| - 1];
            Ownership(allocs[last.address + pageSize := last.(size := size, isMallocZero := zero)],
                      queue[q := queue[q][..|queue[q]| - 1]], regions, pageSize)
  {
    var n := |queue[q]| - 1;
    var last := queue[q][n];
    var key := last.address + pageSize;
    var allocs' := allocs[key := last.(size := size, isMallocZero := zero)];
    var queue' := queue[q := queue[q][..n]];
    assert Slot(queue, q, n);
    assert QueuedOk(q, last, allocs, regions, pageSize);
    forall k | k in allocs' ensures EntryOk(k, allocs'[k], regions, pageSize) {
      assert k != key ==> EntryOk(k, allocs[k], regions, pageSize);
    }
    forall p, i ensures Slot(queue', p, i) <==> Slot(queue, p, i) && !(p == q && i == n)
                ensures Slot(queue', p, i) ==> queue'[p][i] == queue[p][i]
    {
    }
    forall p, i | Slot(queue', p, i)
      ensures QueuedOk(p, queue'[p][i], allocs', regions, pageSize)
    {
      assert Slot(queue, p, i);
      assert QueuedOk(p, queue[p][i], allocs, regions, pageSize);
    }
    forall a: nat | IsRegion(regions, a) ensures Owned(queue', allocs', pageSize, a) {
      assert Owned(queue, allocs, pageSize, a);
      if a + pageSize !in allocs && a != last.address {
        var p, i :| Slot(queue, p, i) && queue[p][i].address == a;
        assert Slot(queue', p, i);
      }
    }
  }

  /** Marking an allocation as freed changes no ownership. */
  lemma FreeKeepsOwnership(allocs: Allocations, queue: Queue, regions: Regions, pageSize: nat, k: nat)
    requires pageSize > 0 && Ownership(allocs, queue, regions, pageSize)
    requires k in allocs
    ensures Ownership(allocs[k := allocs[k].(freed := true)], queue, regions, pageSize)
  {
    var allocs' := allocs[k := allocs[k].(freed := true)];
    forall j | j in allocs' ensures EntryOk(j, allocs'[j], regions, pageSize) {
      assert EntryOk(j, allocs[j], regions, pageSize);
    }
    forall q, i | Slot(queue, q, i)
      ensures QueuedOk(q, queue[q][i], allocs', regions, pageSize)
    {
      assert QueuedOk(q, queue[q][i], allocs, regions, pageSize);
    }
    forall a: nat | IsRegion(regions, a) ensures Owned(queue, allocs', pageSize, a) {
      assert Owned(queue, allocs, pageSize, a);
    }
  }

  function ListAt(queue: Queue, q: nat): seq<Metadata> {
    if q in queue then queue[q] else []
  }

  /** `queue.entry(m.actual_size).or_default().push(m)` with the reset metadata of `m`. */
  function Requeue(queue: Queue, m: Metadata): Queue {
    queue[m.actualSize := ListAt(queue, m.actualSize) + [m.(size := 0, freed := false)]]
  }

  /** The slots after a region has been queued: the old ones and a new last one for its size. */
  lemma RequeueSlots(queue: Queue, m: Metadata, q: nat, i: int)
    ensures var queue' := Requeue(queue, m);
            var n := |ListAt(queue, m.actualSize)|;
            && (Slot(queue', q, i) <==> Slot(queue, q, i) || (q == m.actualSize && i == n))
            && (Slot(queue, q, i) ==> queue'[q][i] == queue[q][i] && !(q == m.actualSize && i == n))
            && Slot(queue', m.actualSize, n) && queue'[m.actualSize][n] == m.(size := 0, freed := false)
  {
  }

  /** Moving an allocation to the queue keeps every region owned exactly once. */
  lemma RequeueKeepsOwnership(allocs: Allocations, queue: Queue, regions: Regions, pageSize: nat, k: nat)
    requires pageSize > 0 && Ownership(allocs, queue, regions, pageSize)
    requires k in allocs
    ensures Ownership(allocs - {k}, Requeue(queue, allocs[k]), regions, pageSize)
  {
    var m := allocs[k];
    var allocs' := allocs - {k};
    var queue' := Requeue(queue, m);
    assert EntryOk(k, m, regions, pageSize);
    assert AllocationsOk(allocs', regions, pageSize) by {
      forall j | j in allocs' ensures EntryOk(j, allocs'[j], regions, pageSize) {
        assert EntryOk(j, allocs[j], regions, pageSize);
      }
    }
    RequeueKeepsQueue(allocs, queue, regions, pageSize, k);
    forall a: nat | IsRegion(regions, a) ensures Owned(queue', allocs', pageSize, a) {
      assert Owned(queue, allocs, pageSize, a);
      RequeueSlots(queue, m, 0, 0);
      if a != m.address && a + pageSize !in allocs {
        var q, i :| Slot(queue, q, i) && queue[q][i].address == a;
        RequeueSlots(queue, m, q, i);
        assert Slot(queue', q, i);
      }
    }
  }

  lemma RequeueKeepsQueue(allocs: Allocations, queue: Queue, regions: Regions, pageSize: nat, k: nat)
    requires pageSize > 0 && QueueOk(queue, allocs, regions, pageSize)
    requires k in allocs && EntryOk(k, allocs[k], regions, pageSize)
    ensures QueueOk(Requeue(queue, allocs[k]), allocs - {k}, regions, pageSize)
  {
    var m := allocs[k];
    var allocs' := allocs - {k};
    var queue' := Requeue(queue, m);
    forall q, i | Slot(queue', q, i)
      ensures QueuedOk(q, queue'[q][i], allocs', regions, pageSize)
    {
      RequeueSlots(queue, m, q, i);
      assert Slot(queue, q, i) ==> QueuedOk(q, queue[q][i], allocs, regions, pageSize);
    }
    forall q, i, j | Slot(queue', q, i) && Slot(queue', q, j) && queue'[q][i].address == queue'[q][j].address
      ensures i == j
    {
      RequeueSlots(queue, m, q, i);
      RequeueSlots(queue, m, q, j);
      assert Slot(queue, q, i) ==> QueuedOk(q, queue[q][i], allocs, regions, pageSize);
      assert Slot(queue, q, j) ==> QueuedOk(q, queue[q][j], allocs, regions, pageSize);
    }
  }

  // ----- reset as a whole -----

  lemma {:induction false} LeastExists(s: set<nat>, y: nat)
    requires y in s
    ensures exists m :: m in s && forall x :: x in s ==> m <= x
    decreases y
  {
    if x :| x in s && x < y {
      LeastExists(s, x);
    }
  }

  /** The smallest key, the one an ordered map yields first. */
  function Least(s: set<nat>): (m: nat)
    requires s != {}
    ensures m in s && forall x :: x in s ==> m <= x
  {
    assert exists m :: m in s && forall x :: x in s ==> m <= x by {
      var y :| y in s;
      LeastExists(s, y);
    }
    var m :| m in s && forall x :: x in s ==> m <= x;
    m
  }

  /** The queue after `reset` has handled the allocations with the given keys, smallest key first. */
  function ResetQueue(allocs: Allocations, keys: set<nat>, queue: Queue): Queue
    requires keys <= allocs.Keys
    decreases keys
  {
    if keys == {} then queue
    else
      var k := Least(keys);
      ResetQueue(allocs, keys - {k}, if allocs[k].freed then Requeue(queue, allocs[k]) else queue)
  }

  lemma ResetQueueStep(allocs: Allocations, keys: set<nat>, queue: Queue)
    requires keys <= allocs.Keys && keys != {}
    ensures var k := Least(keys);
            ResetQueue(allocs, keys, queue) ==
            ResetQueue(allocs, keys - {k}, if allocs[k].freed then Requeue(queue, allocs[k]) else queue)
  {
  }

  lemma ResetQueueDone(allocs: Allocations, queue: Queue)
    ensures ResetQueue(allocs, {}, queue) == queue
  {
  }

  /** The allocations that survive `reset`. */
  function Unfreed(allocs: Allocations): Allocations {
    map k | k in allocs && !allocs[k].freed :: allocs[k]
  }

  /** The allocations with the given keys that `reset` puts back into the queue under size `q`, in address order. */
  function Recycled(allocs: Allocations, keys: set<nat>, q: nat): seq<Metadata>
    requires keys <= allocs.Keys
    decreases keys
  {
    if keys == {} then []
    else
      var k := Least(keys);
      var m := allocs[k];
      RecycledEntry(m, q) + Recycled(allocs, keys - {k}, q)
  }

  function RecycledEntry(m: Metadata, q: nat): seq<Metadata> {
    if m.freed && m.actualSize == q then [m.(size := 0, freed := false)] else []
  }

  /** `reset` appends to each list of the queue exactly the freed allocations of that size, in address order. */
  lemma {:induction false} ResetQueueAppends(allocs: Allocations, keys: set<nat>, queue: Queue, q: nat)
    requires keys <= allocs.Keys
    ensures ListAt(ResetQueue(allocs, keys, queue), q) == ListAt(queue, q) + Recycled(allocs, keys, q)
    decreases keys
  {
    hide ListAt, Requeue, Recycled, ResetQueue;
    if keys == {} {
      ResetQueueDone(allocs, queue);
      RecycledDone(allocs, q);
      assert ListAt(queue, q) + [] == ListAt(queue, q);
    } else {
      var k := Least(keys);
      var m := allocs[k];
      var queue' := if m.freed then Requeue(queue, m) else queue;
      ResetQueueStep(allocs, keys, queue);
      RequeueList(queue, m, q);
      ResetQueueAppends(allocs, keys - {k}, queue', q);
      RecycledStep(allocs, keys, q);
      var first := RecycledEntry(m, q);
      assert ListAt(queue', q) == ListAt(queue, q) + first;
      Common.Regroup(ListAt(queue, q), first, Recycled(allocs, keys - {k}, q));
    }
  }

  lemma RecycledDone(allocs: Allocations, q: nat)
    ensures Recycled(allocs, {}, q) == []
  {
  }

  lemma RecycledStep(allocs: Allocations, keys: set<nat>, q: nat)
    requires keys <= allocs.Keys && keys != {}
    ensures var k := Least(keys);
            Recycled(allocs, keys, q) == RecycledEntry(allocs[k], q) + Recycled(allocs, keys - {k}, q)
  {
  }

  /** Queuing a region appends it to the list of its size. */
  lemma RequeueList(queue: Queue, m: Metadata, q: nat)
    ensures ListAt(Requeue(queue, m), q) ==
            ListAt(queue, q) + if m.actualSize == q then [m.(size := 0, freed := false)] else []
  {
  }

  /** `r` is the reset metadata of a freed allocation of size `q`. */
  ghost predicate ResetOf(r: Metadata, allocs: Allocations, keys: set<nat>, q: nat, pageSize: nat) {
    var k := r.address + pageSize;
    && k in keys && k in allocs
    && allocs[k].freed && allocs[k].actualSize == q && r == allocs[k].(size := 0, freed := false)
  }

  /** What is recycled under `q`: freed allocations of size `q` only, in strictly ascending address order. */
  lemma {:induction false} RecycledSorted(allocs: Allocations, keys: set<nat>, q: nat, regions: Regions,
                                          pageSize: nat)
    requires keys <= allocs.Keys && pageSize > 0 && AllocationsOk(allocs, regions, pageSize)
    ensures forall i :: 0 <= i < |Recycled(allocs, keys, q)| ==>
                          ResetOf(Recycled(allocs, keys, q)[i], allocs, keys, q, pageSize)
    ensures forall i, j :: 0 <= i < j < |Recycled(allocs, keys, q)| ==>
                             Recycled(allocs, keys, q)[i].address < Recycled(allocs, keys, q)[j].address
    decreases keys
  {
    if keys != {} {
      var k := Least(keys);
      assert EntryOk(k, allocs[k], regions, pageSize);
      RecycledSorted(allocs, keys - {k}, q, regions, pageSize);
      var rest := Recycled(allocs, keys - {k}, q);
      var r := Recycled(allocs, keys, q);
      var d := |r| - |rest|;
      forall i | 0 <= i < |r| ensures ResetOf(r[i], allocs, keys, q, pageSize) {
        assert i >= d ==> r[i] == rest[i - d] && ResetOf(rest[i - d], allocs, keys - {k}, q, pageSize);
      }
      forall i, j | 0 <= i < j < |r| ensures r[i].address < r[j].address {
        assert r[j] == rest[j - d] && ResetOf(rest[j - d], allocs, keys - {k}, q, pageSize);
        assert i >= d ==> r[i] == rest[i - d];
      }
    }
  }

  /** No freed allocation of size `q` is forgotten. */
  lemma {:induction false} RecycledComplete(allocs: Allocations, keys: set<nat>, q: nat, regions: Regions,
                                            pageSize: nat, j: nat)
    requires keys <= allocs.Keys && pageSize > 0 && AllocationsOk(allocs, regions, pageSize)
    requires j in keys && allocs[j].freed && allocs[j].actualSize == q
    ensures allocs[j].(size := 0, freed := false) in Recycled(allocs, keys, q)
    decreases keys
  {
    var k := Least(keys);
    assert EntryOk(k, allocs[k], regions, pageSize);
    if j != k {
      RecycledComplete(allocs, keys - {k}, q, regions, pageSize, j);
    }
  }

  // ----- the operations on values -----

  datatype Limits = Limits(maxAllocation: nat, maxTotalAllocation: nat, maxAllocationPanics: bool,
                           pageSize: nat, granularity: nat, base: nat, userspaceEnd: nat)

  datatype State = State(allocations: Allocations, queue: Queue, regions: Regions, current: nat, largest: nat,
                         total: nat)

  /** The state that `init` leaves. */
  ghost function EmptyState(base: nat): State {
    State(map[], map[], map[], base, 0, 0)
  }

  /** What a call of `Alloc` ends in. */
  datatype AllocOutcome = Served(ptr: nat) | Null | AllocPanicked

  /** What a call of `Release` ends in. */
  datatype ReleaseOutcome = Released | Ignored | ReleasePanicked

  function Max(a: nat, b: nat): nat {
    if a > b then a else b
  }

  /** A request for no bytes is served with 16 bytes. */
  function ServedSize(requested: nat): nat {
    if requested == 0 then 16 else requested
  }

  /** The bytes of address space a request is charged with. */
  ghost function Charge(c: Limits, requested: nat): nat
    requires c.pageSize > 0
  {
    RegionSize(ServedSize(requested), c.pageSize)
  }

  /** The state after a queued region of least sufficient size has been reused. */
  ghost function Reused(c: Limits, s: State, requested: nat): (State, AllocOutcome)
    requires c.pageSize > 0 && Fitting(s.queue, Charge(c, requested)) != {}
  {
    var q := Least(Fitting(s.queue, Charge(c, requested)));
    var list := s.queue[q];
    var last := list[|list| - 1];
    var ptr := last.address + c.pageSize;
    var entry := last.(size := ServedSize(requested), isMallocZero := requested == 0);
    (s.(allocations := s.allocations[ptr := entry], queue := s.queue[q := list[..|list| - 1]],
        largest := Max(s.largest, last.actualSize), total := s.total + Charge(c, requested)),
     Served(ptr))
  }

  /** The state after a fresh region has been mapped at the current mapping address. */
  ghost function Mapped(c: Limits, s: State, requested: nat): (State, AllocOutcome)
    requires c.pageSize > 0 && c.granularity > 0
  {
    var len := Charge(c, requested);
    var ptr := s.current + c.pageSize;
    var entry := Metadata(s.current, ServedSize(requested), len, false, false);
    (State(s.allocations[ptr := entry], s.queue, s.regions[s.current := len],
           s.current + RoundUpToPage(len, c.granularity), Max(s.largest, len), s.total + len),
     Served(ptr))
  }

  /** The state after a request has been served: a queued region is reused if one fits. */
  ghost function Taken(c: Limits, s: State, requested: nat): (State, AllocOutcome)
    requires c.pageSize > 0 && c.granularity > 0
  {
    if Fitting(s.queue, Charge(c, requested)) != {} then Reused(c, s, requested) else Mapped(c, s, requested)
  }

  /** `alloc`; `mmapOk` is the answer of the operating system to a request for a fresh mapping. */
  ghost function AllocSpec(c: Limits, s: State, requested: nat, mmapOk: bool): (State, AllocOutcome)
    requires c.pageSize > 0 && c.granularity > 0
  {
    var len := Charge(c, requested);
    if ServedSize(requested) > c.maxAllocation then (s, if c.maxAllocationPanics then AllocPanicked else Null)
    else if s.total + len > c.maxTotalAllocation then (s, Null)
    else if Fitting(s.queue, len) != {} then Reused(c, s, requested)
    else if mmapOk && s.current + len <= c.userspaceEnd then Mapped(c, s, requested)
    else (s.(total := s.total + len), Null)
  }

  /** `release`; `crash` tells whether the error report asks for a panic. */
  ghost function ReleaseSpec(s: State, ptr: nat, crash: bool): (State, ReleaseOutcome) {
    if ptr !in s.allocations then (s, if ptr != 0 && crash then ReleasePanicked else Ignored)
    else if s.allocations[ptr].freed && crash then (s, ReleasePanicked)
    else (s.(allocations := s.allocations[ptr := s.allocations[ptr].(freed := true)]), Released)
  }

  /** `reset`. */
  ghost function ResetSpec(s: State): State {
    s.(allocations := Unfreed(s.allocations), queue := ResetQueue(s.allocations, s.allocations.Keys, s.queue),
       total := 0)
  }

  /** The invariant of the allocator's bookkeeping. */
  ghost predicate Inv(c: Limits, s: State) {
    && c.pageSize > 0 && c.granularity > 0
    && RegionsOk(s.regions, c.base, s.current, c.granularity)
    && Ownership(s.allocations, s.queue, s.regions, c.pageSize)
    && s.total <= c.maxTotalAllocation
  }

  lemma ReusedKeepsInv(c: Limits, s: State, requested: nat)
    requires Inv(c, s) && Fitting(s.queue, Charge(c, requested)) != {}
    requires s.total + Charge(c, requested) <= c.maxTotalAllocation
    ensures Inv(c, Reused(c, s, requested).0)
    ensures Reused(c, s, requested).1.ptr !in s.allocations
    ensures !Reused(c, s, requested).0.allocations[Reused(c, s, requested).1.ptr].freed
  {
    var q := Least(Fitting(s.queue, Charge(c, requested)));
    var n := |s.queue[q]| - 1;
    assert Slot(s.queue, q, n);
    assert QueuedOk(q, s.queue[q][n], s.allocations, s.regions, c.pageSize);
    ReuseKeepsOwnership(s.allocations, s.queue, s.regions, c.pageSize, q, ServedSize(requested), requested == 0);
  }

  lemma MappedKeepsInv(c: Limits, s: State, requested: nat)
    requires Inv(c, s)
    requires s.total + Charge(c, requested) <= c.maxTotalAllocation
    ensures Inv(c, Mapped(c, s, requested).0)
    ensures Mapped(c, s, requested).1.ptr !in s.allocations
    ensures !Mapped(c, s, requested).0.allocations[Mapped(c, s, requested).1.ptr].freed
  {
    FreshKeepsRegions(s.regions, c.base, s.current, c.granularity, Charge(c, requested));
    CurrentIsUnused(c, s);
    FreshKeepsOwnership(s.allocations, s.queue, s.regions, c.pageSize, s.current, ServedSize(requested));
  }

  lemma TotalKeepsInv(c: Limits, s: State, total: nat)
    requires Inv(c, s) && total <= c.maxTotalAllocation
    ensures Inv(c, s.(total := total))
  {
  }

  lemma TakenKeepsInv(c: Limits, s: State, requested: nat)
    requires Inv(c, s) && s.total + Charge(c, requested) <= c.maxTotalAllocation
    ensures Inv(c, Taken(c, s, requested).0) && Taken(c, s, requested).1.Served?
    ensures var ptr := Taken(c, s, requested).1.ptr;
            && ptr !in s.allocations
            && Taken(c, s, requested).0.allocations == s.allocations[ptr := Taken(c, s, requested).0.allocations[ptr]]
            && !Taken(c, s, requested).0.allocations[ptr].freed
  {
    if Fitting(s.queue, Charge(c, requested)) != {} {
      ReusedKeepsInv(c, s, requested);
    } else {
      MappedKeepsInv(c, s, requested);
    }
    hide Inv;
  }

  /** A request within the limits takes a region if there is one. */
  lemma AllocIsTaken(c: Limits, s: State, requested: nat, mmapOk: bool)
    requires c.pageSize > 0 && c.granularity > 0
    requires ServedSize(requested) <= c.maxAllocation && s.total + Charge(c, requested) <= c.maxTotalAllocation
    ensures var len := Charge(c, requested);
            AllocSpec(c, s, requested, mmapOk) ==
            if Fitting(s.queue, len) != {} || (mmapOk && s.current + len <= c.userspaceEnd) then Taken(c, s, requested)
            else (s.(total := s.total + len), Null)
  {
    hide Fitting, Reused, Mapped, Charge;
  }

  /** No allocation lies in the region that begins at the current mapping address. */
  lemma CurrentIsUnused(c: Limits, s: State)
    requires Inv(c, s)
    ensures s.current + c.pageSize !in s.allocations
  {
    if s.current + c.pageSize in s.allocations {
      PayloadGuarded(s.allocations, s.regions, c.pageSize, s.current + c.pageSize);
    }
  }

  lemma AllocKeepsInv(c: Limits, s: State, requested: nat, mmapOk: bool)
    requires Inv(c, s)
    ensures Inv(c, AllocSpec(c, s, requested, mmapOk).0)
  {
    var len := Charge(c, requested);
    if ServedSize(requested) <= c.maxAllocation && s.total + len <= c.maxTotalAllocation {
      if Fitting(s.queue, len) != {} {
        ReusedKeepsInv(c, s, requested);
      } else {
        MappedKeepsInv(c, s, requested);
      }
    }
  }

  lemma ReleaseKeepsInv(c: Limits, s: State, ptr: nat, crash: bool)
    requires Inv(c, s)
    ensures Inv(c, ReleaseSpec(s, ptr, crash).0)
  {
    if ptr in s.allocations {
      FreeKeepsOwnership(s.allocations, s.queue, s.regions, c.pageSize, ptr);
    }
  }

  /** The allocations that `reset` still has to handle, with those it keeps. */
  function Remaining(allocs: Allocations, keys: set<nat>): Allocations {
    map k | k in allocs && (k in keys || !allocs[k].freed) :: allocs[k]
  }

  lemma {:induction false} ResetKeepsOwnership(allocs: Allocations, keys: set<nat>, queue: Queue, regions: Regions,
                                               pageSize: nat)
    requires pageSize > 0 && keys <= allocs.Keys
    requires Ownership(Remaining(allocs, keys), queue, regions, pageSize)
    ensures Ownership(Unfreed(allocs), ResetQueue(allocs, keys, queue), regions, pageSize)
    decreases keys
  {
    if keys == {} {
      assert Remaining(allocs, keys) == Unfreed(allocs);
    } else {
      var k := Least(keys);
      if allocs[k].freed {
        RequeueKeepsOwnership(Remaining(allocs, keys), queue, regions, pageSize, k);
        assert Remaining(allocs, keys - {k}) == Remaining(allocs, keys) - {k};
        ResetKeepsOwnership(allocs, keys - {k}, Requeue(queue, allocs[k]), regions, pageSize);
      } else {
        assert Remaining(allocs, keys - {k}) == Remaining(allocs, keys);
        ResetKeepsOwnership(allocs, keys - {k}, queue, regions, pageSize);
      }
    }
  }

  lemma ResetKeepsInv(c: Limits, s: State)
    requires Inv(c, s)
    ensures Inv(c, ResetSpec(s))
  {
    assert Remaining(s.allocations, s.allocations.Keys) == s.allocations;
    ResetKeepsOwnership(s.allocations, s.allocations.Keys, s.queue, s.regions, c.pageSize);
  }

  // ----- live memory over one step -----

  /** A byte lies in at most one payload. */
  lemma OnePayload(c: Limits, s: State, j: nat, k: nat, a: int)
    requires Inv(c, s)
    requires j in s.allocations && k in s.allocations && j != k && InPayload(s.allocations, j, a)
    ensures !InPayload(s.allocations, k, a)
  {
    if j < k {
      PayloadsDisjoint(s.allocations, s.regions, c.pageSize, c.granularity, c.base, s.current, j, k);
    } else {
      PayloadsDisjoint(s.allocations, s.regions, c.pageSize, c.granularity, c.base, s.current, k, j);
    }
  }

  /** A new entry makes exactly its own payload live in addition, and none of these bytes was live before. */
  lemma AddPayload(c: Limits, s: State, s': State, ptr: nat, a: int)
    requires Inv(c, s')
    requires ptr !in s.allocations && ptr in s'.allocations && !s'.allocations[ptr].freed
    requires s'.allocations == s.allocations[ptr := s'.allocations[ptr]]
    ensures Live(s'.allocations, a) <==> Live(s.allocations, a) || InPayload(s'.allocations, ptr, a)
    ensures !(Live(s.allocations, a) && InPayload(s'.allocations, ptr, a))
  {
    if Live(s.allocations, a) {
      var j :| j in s.allocations && !s.allocations[j].freed && InPayload(s.allocations, j, a);
      assert InPayload(s'.allocations, j, a);
      OnePayload(c, s', j, ptr, a);
    }
    if Live(s'.allocations, a) {
      var j :| j in s'.allocations && !s'.allocations[j].freed && InPayload(s'.allocations, j, a);
      assert j != ptr ==> InPayload(s.allocations, j, a);
    }
  }

  /** A served request gets a block none of whose bytes was live; after it exactly these bytes are live in addition. */
  lemma AllocAddsPayload(c: Limits, s: State, requested: nat, mmapOk: bool, a: int)
    requires Inv(c, s)
    ensures var (s', outcome) := AllocSpec(c, s, requested, mmapOk);
            match outcome
            case Served(ptr) =>
              && ptr !in s.allocations
              && (Live(s'.allocations, a) <==> Live(s.allocations, a) || ptr <= a < ptr + ServedSize(requested))
              && !(Live(s.allocations, a) && ptr <= a < ptr + ServedSize(requested))
            case _ => s'.allocations == s.allocations && s'.queue == s.queue && s'.regions == s.regions
  {
    var (s', outcome) := AllocSpec(c, s, requested, mmapOk);
    if outcome.Served? {
      if Fitting(s.queue, Charge(c, requested)) != {} {
        ReusedKeepsInv(c, s, requested);
      } else {
        MappedKeepsInv(c, s, requested);
      }
      AddPayload(c, s, s', outcome.ptr, a);
    }
  }

  /** Freeing an entry takes exactly its payload out of live memory. */
  lemma LiveAfterFree(c: Limits, s: State, k: nat, a: int)
    requires Inv(c, s) && k in s.allocations
    ensures Live(s.allocations[k := s.allocations[k].(freed := true)], a) <==>
            Live(s.allocations, a) && !InPayload(s.allocations, k, a)
  {
    var allocs := s.allocations;
    var allocs' := allocs[k := allocs[k].(freed := true)];
    if Live(allocs', a) {
      var j :| j in allocs' && !allocs'[j].freed && InPayload(allocs', j, a);
      assert j != k && InPayload(allocs, j, a);
      OnePayload(c, s, j, k, a);
    }
    if Live(allocs, a) && !InPayload(allocs, k, a) {
      var j :| j in allocs && !allocs[j].freed && InPayload(allocs, j, a);
      assert InPayload(allocs', j, a);
    }
  }

  /** Dropping freed entries changes no live byte. */
  lemma LiveUnfreed(allocs: Allocations, a: int)
    ensures Live(Unfreed(allocs), a) <==> Live(allocs, a)
  {
    var allocs' := Unfreed(allocs);
    if Live(allocs, a) {
      var j :| j in allocs && !allocs[j].freed && InPayload(allocs, j, a);
      assert InPayload(allocs', j, a);
    }
    if Live(allocs', a) {
      var j :| j in allocs' && !allocs'[j].freed && InPayload(allocs', j, a);
      assert InPayload(allocs, j, a);
    }
  }

  // ----- whole runs against a ledger -----

  datatype Event = AllocEvent(requested: nat, mmapOk: bool) | ReleaseEvent(ptr: nat, crash: bool) | ResetEvent

  /** Blocks served to the program and not given back yet: addresses and sizes. */
  type Ledger = map<nat, nat>

  ghost function StepState(c: Limits, s: State, e: Event): State
    requires c.pageSize > 0 && c.granularity > 0
  {
    match e
    case AllocEvent(requested, mmapOk) => AllocSpec(c, s, requested, mmapOk).0
    case ReleaseEvent(ptr, crash) => ReleaseSpec(s, ptr, crash).0
    case ResetEvent => ResetSpec(s)
  }

  /** What an ideal allocator remembers, from the answers alone: blocks it handed out and got back. */
  ghost function StepLedger(c: Limits, s: State, l: Ledger, e: Event): Ledger
    requires c.pageSize > 0 && c.granularity > 0
  {
    match e
    case AllocEvent(requested, mmapOk) =>
      (match AllocSpec(c, s, requested, mmapOk).1
       case Served(ptr) => l[ptr := ServedSize(requested)]
       case _ => l)
    case ReleaseEvent(ptr, _) => l - {ptr}
    case ResetEvent => l
  }

  ghost function Run(c: Limits, s: State, es: seq<Event>): State
    requires c.pageSize > 0 && c.granularity > 0
    decreases |es|
  {
    if es == [] then s else Run(c, StepState(c, s, es[0]), es[1..])
  }

  ghost function RunLedger(c: Limits, s: State, l: Ledger, es: seq<Event>): Ledger
    requires c.pageSize > 0 && c.granularity > 0
    decreases |es|
  {
    if es == [] then l else RunLedger(c, StepState(c, s, es[0]), StepLedger(c, s, l, es[0]), es[1..])
  }

  /** Unfreed entries of the bookkeeping, seen as a ledger. */
  ghost function Outstanding(allocs: Allocations): Ledger {
    map k | k in allocs && !allocs[k].freed :: allocs[k].size
  }

  lemma AllocKeepsLedger(c: Limits, s: State, requested: nat, mmapOk: bool)
    requires Inv(c, s)
    ensures var (s', outcome) := AllocSpec(c, s, requested, mmapOk);
            && Inv(c, s')
            && Outstanding(s'.allocations) ==
               match outcome
               case Served(ptr) => Outstanding(s.allocations)[ptr := ServedSize(requested)]
               case _ => Outstanding(s.allocations)
  {
    AllocKeepsInv(c, s, requested, mmapOk);
    assert c.pageSize > 0 && c.granularity > 0 && QueueOk(s.queue, s.allocations, s.regions, c.pageSize);
    hide Inv;
    AllocAddsPayload(c, s, requested, mmapOk, 0);
    if Fitting(s.queue, Charge(c, requested)) != {} && AllocSpec(c, s, requested, mmapOk).1.Served? {
      ReusedKeepsInv(c, s, requested);
    }
  }

  lemma StepKeepsLedger(c: Limits, s: State, e: Event)
    requires Inv(c, s)
    ensures Inv(c, StepState(c, s, e))
    ensures StepLedger(c, s, Outstanding(s.allocations), e) == Outstanding(StepState(c, s, e).allocations)
  {
    match e
    case AllocEvent(requested, mmapOk) =>
      AllocKeepsLedger(c, s, requested, mmapOk);
    case ReleaseEvent(ptr, crash) =>
      ReleaseKeepsInv(c, s, ptr, crash);
    case ResetEvent =>
      ResetKeepsInv(c, s);
  }

  /**
    Over every run of allocations, releases and resets the bookkeeping stays consistent, and the unfreed entries
    are exactly the blocks handed out and not given back.
   */
  lemma {:induction false} RunMatchesLedger(c: Limits, s: State, es: seq<Event>)
    requires Inv(c, s)
    ensures Inv(c, Run(c, s, es))
    ensures Outstanding(Run(c, s, es).allocations) == RunLedger(c, s, Outstanding(s.allocations), es)
    decreases |es|
  {
    if es != [] {
      StepKeepsLedger(c, s, es[0]);
      RunMatchesLedger(c, StepState(c, s, es[0]), es[1..]);
    }
  }

  /** After every run a byte is live exactly when it lies in a block of the ledger. */
  lemma RunLiveIsLedger(c: Limits, s: State, es: seq<Event>, a: int)
    requires Inv(c, s)
    ensures var l := RunLedger(c, s, Outstanding(s.allocations), es);
            Live(Run(c, s, es).allocations, a) <==> exists k :: k in l && k <= a < k + l[k]
  {
    RunMatchesLedger(c, s, es);
    var allocs := Run(c, s, es).allocations;
    var l := Outstanding(allocs);
    if Live(allocs, a) {
      var k :| k in allocs && !allocs[k].freed && InPayload(allocs, k, a);
      assert k in l && k <= a < k + l[k];
    }
    if k :| k in l && k <= a < k + l[k] {
      assert InPayload(allocs, k, a);
    }
  }

  /** After every run two blocks of the ledger are at least two guard pages apart. */
  lemma RunBlocksApart(c: Limits, s: State, es: seq<Event>, j: nat, k: nat)
    requires Inv(c, s)
    ensures var l := RunLedger(c, s, Outstanding(s.allocations), es);
            j in l && k in l && j < k ==> j + l[j] + 2 * c.pageSize < k
  {
    RunMatchesLedger(c, s, es);
    var s' := Run(c, s, es);
    if j in s'.allocations && k in s'.allocations && j < k {
      PayloadsDisjoint(s'.allocations, s'.regions, c.pageSize, c.granularity, c.base, s'.current, j, k);
    }
  }
}
