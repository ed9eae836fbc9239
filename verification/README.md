# Verified models of LibAFL-- components

These Dafny modules model the parts of the repository that carry state, address arithmetic and claims of equivalence, and
prove what the callers of these parts rely on.

| files | component |
|---|---|
| `Bits`, `ShadowBits`, `ReservedShadow`, `ShadowReach`, `AllocatorState`, `AllocatorAnswers`, `AccessCheck`, `FridaAllocator` | the Frida address sanitizer's allocator with its bit shadow |
| `Common` | types and facts that several components share |
| `QasanShadow`, `QasanLayout`, `QasanHeap` | the byte shadow and the heap of libqasan |
| `DrCovText`, `DrCovFormat`, `DrCov`, `DrCovReading`, `DrCovMerge` | writer, reader and merge of DrCov version 2 files |
| `IntelPt` | the ring buffer between the Intel PT hardware and the trace decoder |
| `TupleExtract` | extraction of several elements of a tuple list at once |
| `Simd`, `IntegerSqrt` | vector loops against simple loops, and the integer square root |

`dafny verify dfyconfig.toml` verifies everything.

## Main results

**Frida allocator.** `FridaAllocator.Allocator` is the allocator with its fields and its shadow memory. `Valid()` holds
after the constructor and after every `Alloc`, `Release` and `Reset`: a managed byte is open in the shadow exactly if it
lies in the payload of an unfreed entry, committed shadow pages and reserved pieces tile the reservation, every mapped
region has exactly one owner, and the total stays below its maximum. Each method makes a step of the abstract state in
`AllocatorState`, over whose event sequences `RunMatchesLedger`, `RunLiveIsLedger` and `RunBlocksApart` say that the
unfreed entries are the blocks handed out and not given back, and `RunReleaseAnswers` and `RunBlocksWithinLimit` say what
that means for releases and for the limit of a request. `CheckShadow` takes every access, also one that leaves the
regions or the committed shadow; `CheckExactIffDecidable` says for which accesses it is exact.

**QASan.** `QasanHeap.Heap` keeps headers, contents, shadow and quarantine; `Valid()` implies `HeapProtected`, and
it holds after every call, unnoticed double frees included; these can only damage headers and contents. User bytes
of a freed chunk stay closed until a block of the backend, or the 8 bytes behind one, covers them. Both files
of the original take part: the shadow calls of one and the chunk layout of the other have to agree for every size and
alignment. The byte that an unpoisoning with an aligned end opens behind a block never belongs to another block.

**DrCov.** `WriteReadRoundTrip` and `FileRoundTripIff` say that writer and reader undo each other, `PathRoundTripIff` for
which paths, `EncodeResolveIff` for which blocks. `MergeIsUnionIff` says when a merge is a union of absolute blocks,
`MergeAppendsFirstNew` which modules it appends, and `DrCovReading` what the reader makes of files from other tools.

**Intel PT.** `RunDeliversStream` is about every sequence of hardware writes and decodings; `InBoundsIff` is the exact
condition under which the slice handed to the decoder stays inside its memory.

**Where the code does less than its comments promise.**

- `check_shadow` is announced to look at the bytes from an unaligned start to the next boundary, but the mask looks at the
  bytes of that block before the start (allocator.rs, lines 535 and 568). The check is exact all the same for accesses that
  run past the boundary; an unaligned one that does not is only checked exactly in the first guard page
  (`CheckExactIffDecidable`), and a state that fools the check is reached by one allocation and a reset (`OneBlockStateReached`).
- `qasan_is_poison` takes poison values for large counts in a partial last block; `ReportExactIffEndAligned`.
- A double free of a chunk of fewer than 8 bytes is not caught (`FreedStoreCaught`). An overrun is not caught if it ends
  unaligned in the first block behind a size that is a multiple of 8, nor is an access within one closed block that
  ends unaligned, such as the first bytes of a freed chunk (`OverrunCaughtIff`, `FirstByteBehindCaughtIff`,
  `FreedAccessCaughtIff`).
- If the quarantine lock is taken, such a double free can return the newest quarantine entry, and the next free then writes
  a link into memory that may belong to another chunk: `StrayLink` is a sequence of calls, `PushKeepsHeadersIff` and
  `PushKeepsContentsIff` are the exact conditions.
- `posix_memalign` accepts the alignment 0 and then divides by it; outcome `DividedByZero`.
- The tail loop of `covmap_is_interesting_simd` passes its arguments in the other order; `SimdExactIffSwapHarmless`.
- `merge` can resolve an entry that had no module before; `CapturedEntryAddsABlock`.

## Model

| member | source | states |
|---|---|---|
| `ShadowBits.Unpoison` | `crates/libaflmm_frida/src/allocator.rs:396-407` | the shadow of exactly the first `size` bytes from the start is opened, the rest of a partial last shadow byte and every other byte stay as they were; only committed shadow bytes are written |
| `ShadowBits.Poison` | `crates/libaflmm_frida/src/allocator.rs:413-426` | the same for closing |
| `ShadowBits.HeadMaskIsShift` | `crates/libaflmm_frida/src/allocator.rs:402-403` | the head mask is the shift the code computes, most significant bit first |
| `ShadowBits.OrHeadMask` | `crates/libaflmm_frida/src/allocator.rs:402-404` | or-ing the mask opens exactly the first n bytes of a block |
| `ShadowBits.AndNotHeadMask` | `crates/libaflmm_frida/src/allocator.rs:419-423` | and-ing the inverted mask closes exactly the first n bytes of a block |
| `ShadowBits.TestHeadMask` | `crates/libaflmm_frida/src/allocator.rs:568-569` | the mask comparison holds exactly if the first n bytes of the block are open |
| `ShadowBits.AllOnesIsOpen` | `crates/libaflmm_frida/src/allocator.rs:511-524` | a run of shadow bytes is all ones exactly if all memory it describes is open |
| `ReservedShadow.GapsAreTheMaximalGaps` | `crates/libaflmm_frida/src/allocator.rs:446-446` | the iterated gaps are maximal, ascending and cover every uncommitted address of the range |
| `ReservedShadow.GapInOnePiece` | `crates/libaflmm_frida/src/allocator.rs:446-449` | in a tiled reservation every uncommitted range lies in exactly one reserved piece, so the search finds it and finds no other |
| `ReservedShadow.MaximalGapIsAPiece` | `crates/libaflmm_frida/src/allocator.rs:444-470` | each maximal uncommitted gap of the reservation is itself exactly one reserved piece |
| `ReservedShadow.CutKeepsTiling` | `crates/libaflmm_frida/src/allocator.rs:450-469` | splitting a gap out of its piece and committing it keeps committed pages and reserved pieces a disjoint tiling |
| `ReservedShadow.CutCovers` | `crates/libaflmm_frida/src/allocator.rs:450-469` | after the cut every address of the reservation is either committed or reserved |
| `ReservedShadow.GapAligned` | `crates/libaflmm_frida/src/allocator.rs:446-458` | gap boundaries are page boundaries, so the splits cannot fail |
| `AllocatorState.RoundUpIsNextPage` | `crates/libaflmm_frida/src/allocator.rs:173-175` | rounding up gives the next page boundary strictly above the size, at most a page away |
| `AllocatorState.RoundDownIsOwnPage` | `crates/libaflmm_frida/src/allocator.rs:179-181` | rounding down gives the last page boundary not above the value |
| `AllocatorState.Least` | `crates/libaflmm_frida/src/allocator.rs:183-192` | the key that an ordered map yields first is the smallest one |
| `AllocatorState.ExactlyOneOwner` | `crates/libaflmm_frida/src/allocator.rs:220-279` | a mapped region is in the allocations exactly if it is not in the queue |
| `AllocatorState.OneSlot` | `crates/libaflmm_frida/src/allocator.rs:365-369` | no region is queued twice |
| `AllocatorState.FreshKeepsRegions` | `crates/libaflmm_frida/src/allocator.rs:232-246` | the next region lies behind all others, at a multiple of the granularity |
| `AllocatorState.FreshKeepsOwnership` | `crates/libaflmm_frida/src/allocator.rs:256-279` | a fresh region gets exactly one owner |
| `AllocatorState.ReuseKeepsOwnership` | `crates/libaflmm_frida/src/allocator.rs:220-226` | a region taken from the queue moves to the allocations and has exactly one owner |
| `AllocatorState.FreeKeepsOwnership` | `crates/libaflmm_frida/src/allocator.rs:309-309` | freeing changes no owner |
| `AllocatorState.RequeueKeepsOwnership` | `crates/libaflmm_frida/src/allocator.rs:355-369` | queuing moves a region from the allocations to the queue and keeps every list under its own size |
| `AllocatorState.PayloadGuarded` | `crates/libaflmm_frida/src/allocator.rs:213-282` | a payload has a whole page before it and more than a page behind it in its own region |
| `AllocatorState.PayloadsDisjoint` | `crates/libaflmm_frida/src/allocator.rs:213-282` | two payloads are more than two pages apart |
| `AllocatorState.ResetQueueAppends` | `crates/libaflmm_frida/src/allocator.rs:347-370` | reset appends to each list exactly what it recycles for that size |
| `AllocatorState.RecycledSorted` | `crates/libaflmm_frida/src/allocator.rs:349-369` | what is recycled under a size are freed allocations of that size, reset to size 0, in ascending address order |
| `AllocatorState.RecycledComplete` | `crates/libaflmm_frida/src/allocator.rs:349-369` | no freed allocation is forgotten |
| `AllocatorState.AllocKeepsInv` | `crates/libaflmm_frida/src/allocator.rs:197-282` | allocation keeps the whole invariant: region bounds, ownership, payload sizes, and the total not above its maximum |
| `AllocatorState.ReleaseKeepsInv` | `crates/libaflmm_frida/src/allocator.rs:286-318` | release keeps the whole invariant |
| `AllocatorState.ResetKeepsInv` | `crates/libaflmm_frida/src/allocator.rs:347-378` | reset keeps the whole invariant |
| `AllocatorState.AllocAddsPayload` | `crates/libaflmm_frida/src/allocator.rs:197-282` | a served block shares no byte with live memory and afterwards exactly its bytes are live in addition; a refused request changes no block, queue or region |
| `AllocatorState.LiveAfterFree` | `crates/libaflmm_frida/src/allocator.rs:286-318` | a release takes exactly the payload out of live memory |
| `AllocatorState.LiveUnfreed` | `crates/libaflmm_frida/src/allocator.rs:347-378` | reset changes no live byte |
| `AllocatorState.StepKeepsLedger` | `crates/libaflmm_frida/src/allocator.rs:197-378` | one operation keeps the invariant and changes the blocks in use as the caller sees it |
| `AllocatorState.RunMatchesLedger` | `crates/libaflmm_frida/src/allocator.rs:197-378` | over every sequence of alloc, release and reset the invariant holds and the unfreed entries are exactly the blocks handed out and not given back |
| `AllocatorState.RunLiveIsLedger` | `crates/libaflmm_frida/src/allocator.rs:197-426` | after every sequence a byte is live exactly if it lies in a block handed out and not given back |
| `AllocatorState.RunBlocksApart` | `crates/libaflmm_frida/src/allocator.rs:197-378` | after every sequence two blocks in use are more than two pages apart |
| `AllocatorAnswers.RegionSizeBounds` | `crates/libaflmm_frida/src/allocator.rs:173-213` | a region is a whole number of pages, more than two and at most three of them larger than the payload |
| `AllocatorAnswers.AllocOutcomes` | `crates/libaflmm_frida/src/allocator.rs:197-246` | the exact condition of each answer to a request: too large, above the total, no region, served |
| `AllocatorAnswers.RefusedState` | `crates/libaflmm_frida/src/allocator.rs:204-246` | a refused request changes nothing but the charge, which stays exactly if the request was within the limits |
| `AllocatorAnswers.ServedEntry` | `crates/libaflmm_frida/src/allocator.rs:197-282` | a served request adds one unfreed entry of exactly the granted size, in the last region queued under the least sufficient size or else in the next region mapped |
| `AllocatorAnswers.ReleaseState` | `crates/libaflmm_frida/src/allocator.rs:286-318` | a release that goes through marks exactly its own entry |
| `AllocatorAnswers.RunMatchesReleased` | `crates/libaflmm_frida/src/allocator.rs:197-378` | over every sequence the freed entries are exactly the blocks given back since the last reset |
| `AllocatorAnswers.RunReleaseAnswers` | `crates/libaflmm_frida/src/allocator.rs:286-318` | after every sequence a release goes through exactly for a block handed out and not given back, null is ignored, and everything else panics; if reports do not crash, a block given back since the last reset goes through too and the rest is ignored |
| `AllocatorAnswers.ResetState` | `crates/libaflmm_frida/src/allocator.rs:347-378` | a reset keeps exactly the unfreed entries, unchanged, and drops the charge |
| `AllocatorAnswers.StepKeepsSizes` | `crates/libaflmm_frida/src/allocator.rs:205-212` | one operation keeps every entry within the largest allocation |
| `AllocatorAnswers.RunBlocksWithinLimit` | `crates/libaflmm_frida/src/allocator.rs:197-378` | after every sequence no block in use is larger than the largest allocation |
| `FridaAllocator.ShadowInsideReservation` | `crates/libaflmm_frida/src/allocator.rs:101-105` | every address has its shadow byte inside the reservation, below the managed region |
| `FridaAllocator.ShadowInjective` | `crates/libaflmm_frida/src/allocator.rs:101-105` | below 2^(shadow_bit+4), addresses share a shadow byte exactly if they share an 8-byte block |
| `FridaAllocator.ShadowLimitIsSharp` | `crates/libaflmm_frida/src/allocator.rs:101-105` | at that limit the shadow wraps around to the shadow of address 0 |
| `FridaAllocator.ShadowContiguous` | `crates/libaflmm_frida/src/allocator.rs:101-105` | the shadow bytes of a range are contiguous as long as the reservation is not left |
| `FridaAllocator.OpenPayload` | `crates/libaflmm_frida/src/allocator.rs:269-282` | opening a new payload keeps the shadow exact for all live bytes |
| `FridaAllocator.ClosePayload` | `crates/libaflmm_frida/src/allocator.rs:286-318` | closing a freed payload keeps the shadow exact |
| `FridaAllocator.CloseFreedPayload` | `crates/libaflmm_frida/src/allocator.rs:298-317` | closing a payload again, after a tolerated double free or in reset, keeps the shadow exact |
| `FridaAllocator.Allocator.constructor` | `crates/libaflmm_frida/src/allocator.rs:842-848` | the derived addresses give a state in which the whole invariant holds, with the reservation as one piece |
| `FridaAllocator.Allocator.FindSmallestFit` | `crates/libaflmm_frida/src/allocator.rs:183-192` | takes the last region of the smallest sufficient size out of the queue, and fails exactly if every queued list of sufficient size is empty |
| `FridaAllocator.Allocator.ShadowRange` | `crates/libaflmm_frida/src/allocator.rs:435-438` | the rounded shadow range is page-aligned and one to two pages longer than needed |
| `FridaAllocator.Allocator.ShadowRangeFits` | `crates/libaflmm_frida/src/allocator.rs:435-438` | for memory below the limit the rounded range stays in the reservation and covers every shadow byte of the memory range |
| `FridaAllocator.Allocator.ShadowRangeCovers` | `crates/libaflmm_frida/src/allocator.rs:435-438` | for any memory range whose rounded shadow range fits the reservation, wherever it lies, the shadow of every byte is inside that range |
| `FridaAllocator.Allocator.MapShadowForRegion` | `crates/libaflmm_frida/src/allocator.rs:429-491` | provided the rounded shadow range fits the reservation: keeps the tiling, commits exactly that range in addition, so that the shadow byte of every address of the memory range is committed, opens the range on request and leaves managed regions alone |
| `FridaAllocator.Allocator.CommitShadow` | `crates/libaflmm_frida/src/allocator.rs:444-482` | commits exactly the uncommitted rest of a range |
| `FridaAllocator.Allocator.CommitGaps` | `crates/libaflmm_frida/src/allocator.rs:446-470` | after the loop the gaps are committed and the rest of the reservation is still tiled |
| `FridaAllocator.Allocator.CommitGap` | `crates/libaflmm_frida/src/allocator.rs:447-469` | cuts one gap out of the piece holding it and keeps the tiling |
| `FridaAllocator.CommitKeepsMapped` | `crates/libaflmm_frida/src/allocator.rs:471-481` | committing an uncommitted range replaces no mapping and keeps the mappings below the base disjoint and equal to the committed pages |
| `FridaAllocator.Allocator.RecordCommitted` | `crates/libaflmm_frida/src/allocator.rs:471-481` | the committed ranges become shadow pages and mappings, nothing else does, and no insertion replaces, and so unmaps, an earlier mapping |
| `FridaAllocator.Allocator.PayloadShadow` | `crates/libaflmm_frida/src/allocator.rs:270-276` | payloads start at multiples of 8 and their shadow bytes are committed |
| `FridaAllocator.Allocator.CommitRegion` | `crates/libaflmm_frida/src/allocator.rs:248-252` | the shadow of a new region is committed; on platforms whose granularity is a power of two of at most 16 pages the committed shadow reaches the next region |
| `FridaAllocator.Allocator.RangeReachesNext` | `crates/libaflmm_frida/src/allocator.rs:243-252` | the arithmetic behind that |
| `FridaAllocator.Allocator.MapFreshRegion` | `crates/libaflmm_frida/src/allocator.rs:232-261` | maps the next region, commits its shadow and leaves the shadow contents alone |
| `FridaAllocator.Allocator.TakeRegion` | `crates/libaflmm_frida/src/allocator.rs:220-267` | reuses a queued region if one fits, otherwise maps one, and fails exactly if there is neither |
| `FridaAllocator.Allocator.ServePayload` | `crates/libaflmm_frida/src/allocator.rs:270-279` | the payload is open and recorded, and the whole invariant holds |
| `FridaAllocator.Allocator.RecordAllocation` | `crates/libaflmm_frida/src/allocator.rs:218-282` | charges the request, opens the payload and records the allocation |
| `FridaAllocator.Allocator.ServeRequest` | `crates/libaflmm_frida/src/allocator.rs:218-282` | a request within the limits is charged, takes a region if there is one, and the whole invariant holds again |
| `FridaAllocator.Allocator.Alloc` | `crates/libaflmm_frida/src/allocator.rs:197-282` | keeps the invariant (a managed byte is open exactly if it is in the payload of an unfreed entry) and makes the step of the abstract state, in every branch; panics exactly for a size above the largest allocation if that panics, and is null exactly for such a size otherwise, above the total, or without a region; a served block has exactly the granted size |
| `FridaAllocator.Allocator.Release` | `crates/libaflmm_frida/src/allocator.rs:286-318` | the same for release; if reports crash, it goes through exactly for an unfreed entry, ignores null and panics for unknown pointers and double frees; otherwise also for a freed entry |
| `FridaAllocator.Allocator.Reset` | `crates/libaflmm_frida/src/allocator.rs:347-378` | the same for reset; the total is zero and exactly the unfreed entries remain |
| `FridaAllocator.Allocator.RecycleFreed` | `crates/libaflmm_frida/src/allocator.rs:349-370` | every entry is popped: freed ones are queued by size in address order, the others are kept, and the shadow stays exact |
| `FridaAllocator.Allocator.RecycleFirst` | `crates/libaflmm_frida/src/allocator.rs:349-370` | one round of that loop |
| `FridaAllocator.Allocator.Reinsert` | `crates/libaflmm_frida/src/allocator.rs:372-375` | the kept entries end up under their old keys |
| `FridaAllocator.Allocator.FindMetadata` | `crates/libaflmm_frida/src/allocator.rs:321-344` | whatever the hint, finds an allocation whose region start is closest, the lowest of equally close ones; None only if there are no allocations; panics exactly if an address exceeds the signed range |
| `FridaAllocator.Allocator.AllOnes` | `crates/libaflmm_frida/src/allocator.rs:511-524` | the prefix, suffix and 16-byte words, in this order, say whether all shadow bytes are ones, or read a byte that is not committed |
| `FridaAllocator.Allocator.CheckShadowAligned` | `crates/libaflmm_frida/src/allocator.rs:495-525` | true exactly if every byte of the range is live; the committed shadow is only left if that of the range is not committed |
| `FridaAllocator.Allocator.HeadOpen` | `crates/libaflmm_frida/src/allocator.rs:565-572` | the head comparison says whether the bytes of the block before the address are live; its shadow byte may be uncommitted |
| `FridaAllocator.Allocator.CheckShadow` | `crates/libaflmm_frida/src/allocator.rs:530-594` | for every access: true for unmanaged addresses and otherwise by the verdict, which for accesses that start 8-aligned or run past the next boundary means that all bytes are live; an access inside one live payload is always answered true; leaves the committed shadow only if the access does, and on dense platforms never for accesses that end in managed memory |
| `FridaAllocator.Allocator.CheckShadowSlow` | `crates/libaflmm_frida/src/allocator.rs:552-593` | the three-part check computes the verdict, unless it leaves the committed shadow |
| `FridaAllocator.Allocator.OnesAreLive` | `crates/libaflmm_frida/src/allocator.rs:511-524` | shadow bytes of an aligned managed range are all ones exactly if all its bytes are live |
| `FridaAllocator.Allocator.EndInside` | `crates/libaflmm_frida/src/allocator.rs:575-590` | the last block is only looked at when it has a shadow byte of its own |
| `FridaAllocator.Allocator.RegionAccessCommitted` | `crates/libaflmm_frida/src/allocator.rs:530-594` | an access inside a mapped region, guard pages included, only reads committed shadow |
| `FridaAllocator.AllGapsAreTheRest` | `crates/libaflmm_frida/src/allocator.rs:446-481` | committing all gaps of a range commits exactly the range |
| `AccessCheck.LiveInside` | `crates/libaflmm_frida/src/allocator.rs:197-282` | live bytes lie behind the first guard page and more than a page before the next region |
| `AccessCheck.LiveFromBlockStart` | `crates/libaflmm_frida/src/allocator.rs:564-572` | the head mask cannot reject a live start: the bytes of its block before it are live |
| `AccessCheck.PastBoundary` | `crates/libaflmm_frida/src/allocator.rs:564-593` | an unaligned access past the next boundary is live exactly if the bytes before it, the whole blocks and the rest are |
| `AccessCheck.VerdictExactIfDecidable` | `crates/libaflmm_frida/src/allocator.rs:530-594` | in every consistent state the three parts together are exact for an access that starts 8-aligned or runs strictly past the next 8-byte boundary |
| `AccessCheck.VerdictIfUndecidable` | `crates/libaflmm_frida/src/allocator.rs:564-575` | any other access is decided by the bytes of its block that lie before it |
| `AccessCheck.VerdictAllowsPayload` | `crates/libaflmm_frida/src/allocator.rs:530-594` | whatever its alignment, an access inside one live payload is allowed |
| `AccessCheck.CheckExactIffDecidable` | `crates/libaflmm_frida/src/allocator.rs:530-594` | a managed access is checked exactly in all consistent states if and only if it starts 8-aligned, runs past the next boundary, or starts in the first guard page |
| `AccessCheck.OneBlockStateFools` | `crates/libaflmm_frida/src/allocator.rs:564-575` | a state in which any other access passes although its first byte is not live |
| `AccessCheck.OneBlockStateReached` | `crates/libaflmm_frida/src/allocator.rs:197-378` | that state is reached by one allocation and a reset, within the limits |
| `ShadowReach.ReachesIffDense` | `crates/libaflmm_frida/src/allocator.rs:243-252` | for granularities that are powers of two in pages, the shadow committed with a region always reaches the next region if and only if the granularity is at most 16 pages |
| `ShadowReach.BytesReachIff` | `crates/libaflmm_frida/src/allocator.rs:438-438` | the rounded range in bytes reaches the next region if and only if the page numbers do |
| `QasanShadow.AlignUpPow2` | `crates/libaflmm_qemu/libqasan/libqasan.c:60-68` | aligning up gives the least multiple not below the value |
| `QasanShadow.AlignDownPow2` | `crates/libaflmm_qemu/libqasan/libqasan.c:60-63` | aligning down gives the greatest multiple not above the value |
| `QasanShadow.ShadowRegionsFit` | `crates/libaflmm_qemu/libqasan/libqasan.c:130-137` | the shadow of the program's addresses is exactly inside the two mapped shadow regions and is not program memory |
| `QasanShadow.ShadowRegionsFull` | `crates/libaflmm_qemu/libqasan/libqasan.c:130-137` | every mapped shadow byte describes program memory |
| `QasanShadow.PoisonMeaning` | `crates/libaflmm_qemu/libqasan/libqasan.c:208-247` | poisoning closes the range, opens the bytes of an unaligned first block before the start, and changes nothing else |
| `QasanShadow.UnpoisonMeaning` | `crates/libaflmm_qemu/libqasan/libqasan.c:249-280` | unpoisoning opens the range; behind an unaligned end it closes the block, behind an aligned end it opens the whole next block |
| `QasanShadow.MemSet` | `crates/libaflmm_qemu/libqasan/libqasan.c:185-189` | sets exactly the shadow bytes of the range |
| `QasanShadow.MemTest` | `crates/libaflmm_qemu/libqasan/libqasan.c:172-183` | true exactly if some shadow byte is not zero |
| `QasanShadow.Poison` | `crates/libaflmm_qemu/libqasan/libqasan.c:208-247` | aborts exactly for unaligned ends of non-empty ranges, otherwise leaves the poisoned shadow, with the given value for every whole block of the range |
| `QasanShadow.Unpoison` | `crates/libaflmm_qemu/libqasan/libqasan.c:249-280` | aborts exactly for unaligned starts of non-empty ranges, otherwise leaves the unpoisoned shadow |
| `QasanShadow.IsPoison` | `crates/libaflmm_qemu/libqasan/libqasan.c:282-355` | reports exactly if a byte of the part it looks at is closed, for signed and unsigned characters; never reports a range whose bytes are all addressable, and is exact if the end is 8-aligned or its block carries a value in 0..7 |
| `QasanShadow.CheckDecides` | `crates/libaflmm_qemu/libqasan/libqasan.c:291-354` | the branches over head block, tail block and whole blocks decide that |
| `QasanShadow.ReportSound` | `crates/libaflmm_qemu/libqasan/libqasan.c:282-355` | a range whose bytes are all addressable is never reported |
| `QasanShadow.ClosedReportedIff` | `crates/libaflmm_qemu/libqasan/libqasan.c:282-355` | a range of closed bytes is reported if and only if its end is aligned, its last block carries no poison value, or it begins before its last block |
| `QasanShadow.ReportExactIffEndAligned` | `crates/libaflmm_qemu/libqasan/libqasan.c:328-346` | exact for every shadow if and only if the end is aligned |
| `QasanLayout.PlainLayout` | `crates/libaflmm_qemu/libqasan/malloc.c:179-203` | the right redzone of a plain chunk ends inside its backend block |
| `QasanLayout.AlignedShift` | `crates/libaflmm_qemu/libqasan/malloc.c:294-295` | the user bytes move by a positive multiple of 8, at most the alignment, to a multiple of the alignment |
| `QasanLayout.AlignedLayout` | `crates/libaflmm_qemu/libqasan/malloc.c:273-306` | for every length and accepted alignment the header starts at least 8 bytes into the block and the right redzone ends inside it |
| `QasanLayout.HeaderBoundTight` | `crates/libaflmm_qemu/libqasan/malloc.c:294-297` | a header only 8 bytes into the block is possible exactly for odd multiples of 8 |
| `QasanLayout.RedzoneBoundTight` | `crates/libaflmm_qemu/libqasan/malloc.c:294-306` | a right redzone that touches the end of the block is possible exactly for odd multiples of 8 |
| `QasanLayout.LiveUserBytes` | `crates/libaflmm_qemu/libqasan/malloc.c:187-198` | all user bytes of a chunk in use are addressable |
| `QasanLayout.LiveRedzones` | `crates/libaflmm_qemu/libqasan/malloc.c:195-198` | both redzones are closed, the right one from the first byte behind the user bytes on |
| `QasanLayout.HeaderReadable` | `crates/libaflmm_qemu/libqasan/malloc.c:217-219` | the header words of every chunk pass the load check |
| `QasanLayout.FreedUserBytes` | `crates/libaflmm_qemu/libqasan/malloc.c:233-233` | all user bytes of a freed chunk are closed |
| `QasanLayout.LiveStorePasses` | `crates/libaflmm_qemu/libqasan/malloc.c:222-222` | the store check of free passes for a chunk in use |
| `QasanLayout.FreedStoreCaught` | `crates/libaflmm_qemu/libqasan/malloc.c:222-222` | a double free is caught by it if and only if the chunk has at least 8 user bytes |
| `QasanLayout.OverrunCaughtIff` | `crates/libaflmm_qemu/libqasan/malloc.c:196-198` | which accesses that begin at or behind the first user byte and end in the right redzone are reported: exactly those with an aligned end, those that end in the partial last block, and those whose last block begins behind their start and behind the first byte behind the user bytes |
| `QasanLayout.LongOverrunCaught` | `crates/libaflmm_qemu/libqasan/malloc.c:196-198` | an access that begins in the user bytes or right behind them and ends behind the right redzone is always reported |
| `QasanLayout.FirstByteBehindCaughtIff` | `crates/libaflmm_qemu/libqasan/malloc.c:196-198` | a one-byte access right behind the user bytes is reported if and only if the size is not a multiple of 8 |
| `QasanLayout.FreedAccessCaughtIff` | `crates/libaflmm_qemu/libqasan/malloc.c:233-233` | an access inside the user bytes of a freed chunk is reported if and only if its end is aligned or it spans a block boundary |
| `QasanLayout.UnderrunCaught` | `crates/libaflmm_qemu/libqasan/malloc.c:195-195` | every access that begins in the left redzone and reaches the user bytes is reported |
| `QasanLayout.NewShadowOk` | `crates/libaflmm_qemu/libqasan/malloc.c:187-198` | the three shadow calls give the new chunk its shadow and change nothing outside its block and the 8 bytes behind it |
| `QasanLayout.NewShadowOpensBehind` | `crates/libaflmm_qemu/libqasan/malloc.c:187-188` | those 8 bytes are open afterwards |
| `QasanLayout.AfterFreeOk` | `crates/libaflmm_qemu/libqasan/malloc.c:233-233` | the shadow call of free closes the user bytes and changes nothing outside the chunk |
| `QasanLayout.ByteBehindIsFree` | `crates/libaflmm_qemu/libqasan/malloc.c:187-188` | the 8 bytes behind a block, which the unpoisoning opens too, belong to no other block |
| `QasanLayout.PlaceKeepsLayout` | `crates/libaflmm_qemu/libqasan/malloc.c:179-192` | a block of the backend keeps all chunks disjoint and forgets none that is in use or held back |
| `QasanLayout.PlaceKeepsShadow` | `crates/libaflmm_qemu/libqasan/malloc.c:187-198` | after an allocation every remaining chunk still has its shadow |
| `QasanLayout.ChunkShadowLocal` | `crates/libaflmm_qemu/libqasan/malloc.c:166-235` | the shadow of a chunk only depends on its own block |
| `QasanHeap.HeapProtected` | `crates/libaflmm_qemu/libqasan/malloc.c:166-313` | in every consistent heap user bytes in use are open, both redzones closed, and user bytes of freed chunks not reused closed |
| `QasanHeap.PlaceKeepsShadows` | `crates/libaflmm_qemu/libqasan/malloc.c:187-198` | an allocation keeps that for all chunks |
| `QasanHeap.PlaceKeepsHeaders` | `crates/libaflmm_qemu/libqasan/malloc.c:190-192` | headers stay consistent after an allocation |
| `QasanHeap.PlaceKeepsHeld` | `crates/libaflmm_qemu/libqasan/malloc.c:179-185` | an allocation holds back the same chunks as before |
| `QasanHeap.FreeKeepsShadows` | `crates/libaflmm_qemu/libqasan/malloc.c:233-233` | a free, the first or another one, keeps the shadow of all chunks right |
| `QasanHeap.FreeKeepsLayout` | `crates/libaflmm_qemu/libqasan/malloc.c:225-235` | the layout stays right after a free, the first or another one, whatever the headers hold |
| `QasanHeap.FreeKeepsHeaders` | `crates/libaflmm_qemu/libqasan/malloc.c:225-235` | headers stay consistent after the free itself |
| `QasanHeap.PushKeepsHeadersIff` | `crates/libaflmm_qemu/libqasan/malloc.c:130-132` | after the link write of a push all headers are right if and only if it spares them: it misses size and block start of every chunk not given back, or writes what is there |
| `QasanHeap.PushKeepsContentsIff` | `crates/libaflmm_qemu/libqasan/malloc.c:130-132` | contents stay if and only if the link misses them or writes what is there |
| `QasanHeap.HeldTopIsSafe` | `crates/libaflmm_qemu/libqasan/malloc.c:130-132` | while the newest entry is held back, the link differs from size and block start of every header and misses all user bytes |
| `QasanHeap.ReusedBlock` | `crates/libaflmm_qemu/libqasan/malloc.c:113-235` | the calls malloc(1), free, free with the lock taken, malloc(64) on the same block and malloc(1) lead to a state in which the newest entry is a header inside a chunk in use |
| `QasanHeap.FreeChangesContents` | `crates/libaflmm_qemu/libqasan/malloc.c:113-235` | in that state freeing the last chunk changes the user bytes of the chunk of 64 bytes, which stays in use |
| `QasanHeap.StrayLink` | `crates/libaflmm_qemu/libqasan/malloc.c:113-235` | the two together, from an empty heap |
| `QasanHeap.FreeKeepsQuarantine` | `crates/libaflmm_qemu/libqasan/malloc.c:130-132` | after a first free the quarantine holds exactly the chunks held back |
| `QasanHeap.ContentsMoved` | `crates/libaflmm_qemu/libqasan/malloc.c:263-266` | copying keeps the common prefix, and the rest stays 0xff |
| `QasanHeap.UserRangesApart` | `crates/libaflmm_qemu/libqasan/malloc.c:257-269` | user bytes of different chunks are disjoint, so copying does not overlap |
| `QasanHeap.OthersKeepContents` | `crates/libaflmm_qemu/libqasan/malloc.c:200-200` | writing the user bytes of one chunk keeps the contents of the others |
| `QasanHeap.Heap.constructor` | `crates/libaflmm_qemu/libqasan/malloc.c:94-98` | an empty heap is consistent |
| `QasanHeap.Heap.PaintChunk` | `crates/libaflmm_qemu/libqasan/malloc.c:187-198` | the three shadow calls for a new chunk |
| `QasanHeap.Heap.SetUp` | `crates/libaflmm_qemu/libqasan/malloc.c:187-200` | writes the header, makes the shadow and fills the user bytes, and keeps the invariant |
| `QasanHeap.Heap.Malloc` | `crates/libaflmm_qemu/libqasan/malloc.c:177-203` | keeps the invariant; the chunk is placed behind its header, filled with 0xff; without memory nothing changes |
| `QasanHeap.Heap.PosixMemalign` | `crates/libaflmm_qemu/libqasan/malloc.c:272-313` | every outcome with its exact condition, division by zero for alignment 0 included; on success the result is aligned and header and redzone lie in the block |
| `QasanHeap.Heap.CheckFree` | `crates/libaflmm_qemu/libqasan/malloc.c:217-222` | the two access checks abort exactly for a quarantined chunk of at least 8 bytes |
| `QasanHeap.Heap.QuarantinePush` | `crates/libaflmm_qemu/libqasan/malloc.c:113-137` | keeps the chunk exactly if it is small enough and the lock is free, in front of the others, and writes its address into the link of the newest entry |
| `QasanHeap.Heap.Free` | `crates/libaflmm_qemu/libqasan/malloc.c:205-235` | needs only the header of the chunk; layout and shadow stay right in every outcome; a chunk in use is held back exactly below 50 MiB with the lock free, otherwise its block is returned, a quarantined chunk of at least 8 bytes aborts, a smaller one is pushed again unnoticed; the other headers stay right if and only if the link spares them, which it does while the newest entry is held back; that lasts unless that very chunk is freed again unnoticed while the lock is taken |
| `QasanHeap.Heap.CloseUserBytes` | `crates/libaflmm_qemu/libqasan/malloc.c:233-233` | closes the user bytes rounded up |
| `QasanHeap.Heap.MallocAndCopy` | `crates/libaflmm_qemu/libqasan/malloc.c:258-266` | the new chunk has the old contents up to the smaller size and 0xff behind; all chunks not given back and their contents stay |
| `QasanHeap.CopyKeepsContents` | `crates/libaflmm_qemu/libqasan/malloc.c:258-266` | the allocation and the copy give the new chunk its contents and keep those of all chunks not given back |
| `QasanHeap.MoveKeepsContents` | `crates/libaflmm_qemu/libqasan/malloc.c:257-270` | after the whole move the same holds except where the free writes a link |
| `QasanHeap.FreeingKeepsContents` | `crates/libaflmm_qemu/libqasan/malloc.c:205-235` | a free keeps all contents that it writes no link to |
| `QasanHeap.PlaceKeepsClosed` | `crates/libaflmm_qemu/libqasan/malloc.c:187-198` | freed user bytes outside the block of a new chunk and the 8 bytes behind it stay closed, also if their chunk is reused in part |
| `QasanHeap.FreeKeepsClosed` | `crates/libaflmm_qemu/libqasan/malloc.c:233-233` | a free keeps freed bytes closed and closes the user bytes of its chunk |
| `QasanHeap.Heap.Realloc` | `crates/libaflmm_qemu/libqasan/malloc.c:257-270` | moves a chunk in use or a quarantined one, with the outcome of the free and the exact chunks, headers, contents, quarantine and freed bytes afterwards; layout and shadow stay right in every outcome; all headers stay right if and only if a link that the free writes spares them; contents stay except where it is written |
| `DrCovText.DigitsRoundTrip` | `crates/libaflmm_bolts/src/drcov.rs:218-231` | printed digits are parsed back, in base 10 and 16 |
| `DrCovText.UnsignedRoundTrip` | `crates/libaflmm_bolts/src/drcov.rs:251-259` | with the bound of the integer type |
| `DrCovText.Decimal3RoundTrip` | `crates/libaflmm_bolts/src/drcov.rs:221-221` | the zero-padded id is parsed back |
| `DrCovText.SplitField` | `crates/libaflmm_bolts/src/drcov.rs:332-360` | a field without separator is split off as first piece |
| `DrCovText.ReadLineStops` | `crates/libaflmm_bolts/src/drcov.rs:280-326` | a line read ends at the first newline |
| `DrCovText.TrimIsTrimmed` | `crates/libaflmm_bolts/src/drcov.rs:261-262` | trimming gives trimmed text and leaves trimmed text alone |
| `DrCovFormat.PathRoundTripIff` | `crates/libaflmm_bolts/src/drcov.rs:261-272` | a path without newlines is read back unchanged if and only if it holds no ", ", no outer white space and no enclosing quotes |
| `DrCovFormat.HexRoundTrip` | `crates/libaflmm_bolts/src/drcov.rs:251-259` | a printed hexadecimal field is parsed back |
| `DrCovFormat.ModuleLinePieces` | `crates/libaflmm_bolts/src/drcov.rs:218-231` | the pieces of a printed line are its fields |
| `DrCovFormat.ModuleRoundTripIff` | `crates/libaflmm_bolts/src/drcov.rs:324-380` | a module line is read back as its module if and only if the path is well-behaved |
| `DrCovFormat.NoNewlineInModuleLine` | `crates/libaflmm_bolts/src/drcov.rs:218-231` | a newline in a line can only come from the path |
| `DrCovFormat.ModulesRoundTripIff` | `crates/libaflmm_bolts/src/drcov.rs:322-372` | the printed module table is read back if and only if all paths are well-behaved, and what follows is untouched |
| `DrCovFormat.BlockRoundTrip` | `crates/libaflmm_bolts/src/drcov.rs:41-84` | eight bytes of an entry are read back as the entry |
| `DrCovFormat.BlocksRoundTrip` | `crates/libaflmm_bolts/src/drcov.rs:386-393` | the binary table is read back |
| `DrCovFormat.TableHeaderRoundTrip` | `crates/libaflmm_bolts/src/drcov.rs:299-309` | the module count is read back |
| `DrCovFormat.BlocksHeaderRoundTrip` | `crates/libaflmm_bolts/src/drcov.rs:371-384` | the block count is read back |
| `DrCovFormat.ParsedIsSingleLines` | `crates/libaflmm_bolts/src/drcov.rs:276-399` | no path that is read from any file holds a newline |
| `DrCovFormat.FileRoundTripIff` | `crates/libaflmm_bolts/src/drcov.rs:276-399` | reading a printed file yields its module entries and block entries if and only if all paths are single lines and well-behaved |
| `DrCov.Lookup` | `crates/libaflmm_bolts/src/drcov.rs:168-177` | finds a range that holds the address and fails exactly if there is none |
| `DrCov.ModuleById` | `crates/libaflmm_bolts/src/drcov.rs:539-541` | finds a module with the id and fails exactly if there is none |
| `DrCov.BasicBlockEntries` | `crates/libaflmm_bolts/src/drcov.rs:162-185` | the loop yields the entry of every block in order, or panics |
| `DrCov.EntriesIff` | `crates/libaflmm_bolts/src/drcov.rs:162-185` | it panics exactly if some block begins outside all modules |
| `DrCov.EntriesFit` | `crates/libaflmm_bolts/src/drcov.rs:178-182` | every entry fits its field widths |
| `DrCov.EntriesPerBlock` | `crates/libaflmm_bolts/src/drcov.rs:131-134` | the printed block count is the number of entries |
| `DrCov.Write` | `crates/libaflmm_bolts/src/drcov.rs:114-138` | the loops leave the file that is printed from the module and block entries; what they print is read back with the id, bounds and path of every range, and `OneFile` gives one file in full |
| `DrCov.Read` | `crates/libaflmm_bolts/src/drcov.rs:276-399` | the loops compute the parsed contents, with every error and panic; `DrCovReading` says what these are for text that the writer does not print |
| `DrCov.ReadModules` | `crates/libaflmm_bolts/src/drcov.rs:322-372` | the loop over the module lines |
| `DrCov.ReadBlocks` | `crates/libaflmm_bolts/src/drcov.rs:386-393` | the loop over the binary entries; too few bytes are an error |
| `DrCov.ResolvedMembers` | `crates/libaflmm_bolts/src/drcov.rs:415-429` | the absolute blocks are exactly those of the entries whose module exists |
| `DrCov.EncodeResolveIff` | `crates/libaflmm_bolts/src/drcov.rs:168-182` | encoding and resolving gives a block back if and only if its offset fits 32 bits and its wrapped length 16 |
| `DrCov.EntriesResolveIff` | `crates/libaflmm_bolts/src/drcov.rs:162-185` | the entries resolve to the written blocks in order if and only if all of them fit |
| `DrCov.ToReaderIsWriteThenReadIff` | `crates/libaflmm_bolts/src/drcov.rs:189-194` | `to_reader` gives what writing and reading the file gives, if and only if all paths are single lines and well-behaved |
| `DrCov.WriteReadRoundTrip` | `crates/libaflmm_bolts/src/drcov.rs:114-429` | reading a written file gives one module for each range, with its id, start, end and path and zeros otherwise, and the absolute blocks are the written ones in order if and only if all of them fit |
| `DrCovReading.ParseDigitsIff` | `crates/libaflmm_bolts/src/drcov.rs:251-259` | text is a number of a base exactly if it is a non-empty string of its digits |
| `DrCovReading.DigitCharacters` | `crates/libaflmm_bolts/src/drcov.rs:251-259` | the digits are 0 to 9 and a to f in either case |
| `DrCovReading.UppercaseDigits` | `crates/libaflmm_bolts/src/drcov.rs:251-259` | digits in upper case have the same value |
| `DrCovReading.NumbersRead` | `crates/libaflmm_bolts/src/drcov.rs:251-259` | a number is read in either case and with a plus sign, and refused from the bound of its type on |
| `DrCovReading.HexFieldRead` | `crates/libaflmm_bolts/src/drcov.rs:251-259` | the first two characters of a hexadecimal field are skipped whatever they are; a shorter field panics |
| `DrCovReading.QuotedPathRead` | `crates/libaflmm_bolts/src/drcov.rs:261-272` | a quoted path without newline and field separator is read without its quotes, with all that is between them |
| `DrCovReading.OuterSpaceIgnored` | `crates/libaflmm_bolts/src/drcov.rs:262-262` | white space around a well-behaved path is ignored, if it makes up no field separator |
| `DrCovReading.LoneQuotePanics` | `crates/libaflmm_bolts/src/drcov.rs:264-266` | a path that is a single quote character panics |
| `DrCovReading.ModuleLineRead` | `crates/libaflmm_bolts/src/drcov.rs:332-380` | a module line with any text for the path is read as its module with the path read from that text |
| `DrCovReading.QuotedModuleLineRead` | `crates/libaflmm_bolts/src/drcov.rs:332-380` | with a quoted path, as the module with the path between the quotes |
| `DrCovReading.ShortModuleLine` | `crates/libaflmm_bolts/src/drcov.rs:332-362` | a line of fewer than seven fields is never read |
| `DrCovReading.BlocksReadIff` | `crates/libaflmm_bolts/src/drcov.rs:386-393` | a block table is read exactly if there are eight bytes for every entry, and each entry comes from its own eight |
| `DrCovReading.HeadersOfReadFile` | `crates/libaflmm_bolts/src/drcov.rs:280-384` | what holds of the header lines of every file that is read |
| `DrCovReading.FlavorLineSkipped` | `crates/libaflmm_bolts/src/drcov.rs:290-299` | any flavor line is skipped, in either case, and may be missing |
| `DrCovReading.VersionCaseIgnored` | `crates/libaflmm_bolts/src/drcov.rs:283-286` | the version line is read in lower case too |
| `DrCovReading.ResolvedBlock` | `crates/libaflmm_bolts/src/drcov.rs:415-429` | with unique ids the block of an entry begins at its offset from the base of the module with its id and has its size, both modulo 2^64 |
| `DrCovReading.ReadBackSpansMap` | `crates/libaflmm_bolts/src/drcov.rs:142-157` | an address lies in a module read back under an id exactly if it lies in a range of the module map under that id |
| `DrCovReading.EntriesNameTheirModules` | `crates/libaflmm_bolts/src/drcov.rs:162-185` | the address a written block begins at lies in the module that its entry names, as the file is read back |
| `DrCovReading.EntryAt` | `crates/libaflmm_bolts/src/drcov.rs:168-182` | each entry holds the low 32 bits of the offset of its block into the range that holds it, the low 16 bits of the length, and the id of the range |
| `DrCovReading.OneFile` | `crates/libaflmm_bolts/src/drcov.rs:114-138` | the file for one range and one block, character by character |
| `DrCovMerge.DedupKeepsFirsts` | `crates/libaflmm_bolts/src/drcov.rs:517-536` | removing duplicates keeps exactly the members, each once, in the order of their first occurrences |
| `DrCovMerge.FirstOrderUnique` | `crates/libaflmm_bolts/src/drcov.rs:517-536` | these facts determine the list |
| `DrCovMerge.MergeModulesMeaning` | `crates/libaflmm_bolts/src/drcov.rs:481-497` | merging modules succeeds if and only if the ranges agree by id, only appends, and the module of every id is the first one of both lists together |
| `DrCovMerge.MergeAppendsFirstNew` | `crates/libaflmm_bolts/src/drcov.rs:481-497` | the modules that a successful merge appends are exactly those of the other reader that are the first there with an id the own list does not have, in their order |
| `DrCovMerge.MergeKeepsUniqueIds` | `crates/libaflmm_bolts/src/drcov.rs:481-497` | unique ids stay unique, whether a merge succeeds or not |
| `DrCovMerge.FailedMergeKeepsPrefix` | `crates/libaflmm_bolts/src/drcov.rs:481-497` | a merge that fails leaves what the modules before the first unfitting one leave |
| `DrCovMerge.MergedResolve` | `crates/libaflmm_bolts/src/drcov.rs:415-497` | after merging an entry resolves by its own modules first, otherwise by those of the other reader |
| `DrCovMerge.MergeEntriesMembers` | `crates/libaflmm_bolts/src/drcov.rs:499-513` | the merged entries are exactly those of both readers |
| `DrCovMerge.UniqueMergeIsDedup` | `crates/libaflmm_bolts/src/drcov.rs:499-513` | with `unique` the entries are the duplicate-free own and other entries, in first-occurrence order, own ones first |
| `DrCovMerge.PlainMergeAppends` | `crates/libaflmm_bolts/src/drcov.rs:499-513` | without `unique` the own entries stay as they are, duplicates included, and the first occurrences of new entries follow in order |
| `DrCovMerge.MergedBlocks` | `crates/libaflmm_bolts/src/drcov.rs:480-513` | the absolute blocks after a merge: every entry of either reader, resolved by the modules of either reader |
| `DrCovMerge.MergeIsUnionIff` | `crates/libaflmm_bolts/src/drcov.rs:480-513` | they are the union of both readers' blocks if and only if no entry without an own module gets a new block from the other reader |
| `DrCovMerge.MergeOfClosedReaders` | `crates/libaflmm_bolts/src/drcov.rs:480-513` | so they are the union if all entries name their own modules |
| `DrCovMerge.CapturedEntryAddsABlock` | `crates/libaflmm_bolts/src/drcov.rs:480-513` | the condition is needed: a merge that makes up a block |
| `DrCovMerge.DrCovReader.constructor` | `crates/libaflmm_bolts/src/drcov.rs:403-411` | holds the given entries |
| `DrCovMerge.DrCovReader.BasicBlocks` | `crates/libaflmm_bolts/src/drcov.rs:415-429` | the loop yields the resolved blocks in order |
| `DrCovMerge.DrCovReader.MakeUnique` | `crates/libaflmm_bolts/src/drcov.rs:517-536` | the entries become their duplicate-free list, the modules stay |
| `DrCovMerge.DrCovReader.Merge` | `crates/libaflmm_bolts/src/drcov.rs:480-513` | the modules and entries become the merged ones; it succeeds exactly if the ranges agree by id, and then the appended modules are exactly the first ones with new ids, in order; on failure only the module list may have grown |
| `DrCovMerge.DrCovReader.MergeModuleList` | `crates/libaflmm_bolts/src/drcov.rs:481-497` | the module loop with its early return |
| `IntelPt.PowerOfTwoTestSound` | `crates/libaflmm_intelpt/src/linux.rs:522-523` | the bit test accepts powers of two only |
| `IntelPt.PowerOfTwoTestComplete` | `crates/libaflmm_intelpt/src/linux.rs:522-523` | the bit test accepts all powers of two |
| `IntelPt.PerfBufferSizeAccepted` | `crates/libaflmm_intelpt/src/linux.rs:515-529` | accepted perf buffer sizes are exactly 1 + 2^k pages; an accepted size is stored and the other one stays |
| `IntelPt.AuxBufferSizeAccepted` | `crates/libaflmm_intelpt/src/linux.rs:532-546` | accepted aux buffer sizes are exactly the powers of two from one page up; an accepted size is stored and the other one stays |
| `IntelPt.NextPageIsLeast` | `crates/libaflmm_intelpt/src/linux.rs:749-751` | the least page boundary not below the address |
| `IntelPt.WrapIsMod` | `crates/libaflmm_intelpt/src/linux.rs:760-762` | masking by a power of two is the remainder |
| `IntelPt.WriteAllConsistent` | `crates/libaflmm_intelpt/src/linux.rs:187-289` | the producer keeps the buffer consistent with the stream |
| `IntelPt.InBoundsIff` | `crates/libaflmm_intelpt/src/linux.rs:223-244` | the slice stays in its memory if and only if less than one buffer is unread, or exactly one that begins at the start of the buffer |
| `IntelPt.DecodeDeliversUnread` | `crates/libaflmm_intelpt/src/linux.rs:196-257` | the decoder gets exactly the unread part of the stream, the tail advances to its end, and neither error is returned |
| `IntelPt.AllDecodedIffPaced` | `crates/libaflmm_intelpt/src/linux.rs:187-289` | every decoding of a sequence succeeds, without error and inside its memory, if and only if less than one buffer is unread whenever decoding starts, or exactly one that begins at the start of the buffer |
| `IntelPt.RunDeliversStream` | `crates/libaflmm_intelpt/src/linux.rs:187-289` | over every paced sequence of productions and decodings no decoding fails and the slices concatenate to the produced stream, nothing lost, repeated or reordered |
| `IntelPt.RunFromStart` | `crates/libaflmm_intelpt/src/linux.rs:187-289` | from a fresh buffer, after a final decoding, they are exactly the produced stream |
| `IntelPt.IntelPt.constructor` | `crates/libaflmm_intelpt/src/linux.rs:187-289` | an empty buffer with all counters at zero |
| `IntelPt.IntelPt.HardwareWrite` | `crates/libaflmm_intelpt/src/linux.rs:187-289` | the hardware writes behind the head modulo the size |
| `IntelPt.IntelPt.JoinSplitTrace` | `crates/libaflmm_intelpt/src/linux.rs:266-289` | copies the end and the start of the buffer into one piece |
| `IntelPt.IntelPt.DecodeTraces` | `crates/libaflmm_intelpt/src/linux.rs:187-258` | makes the step of the abstract ring in every branch: direct slice, joined slice, and the two errors with their exact conditions and nothing changed |
| `TupleExtract.MergeIsConcat` | `crates/libaflmm_bolts/src/tuples.rs:794-813` | merging tuple lists is concatenation |
| `TupleExtract.ExtractRound` | `crates/libaflmm_bolts/src/tuples.rs:600-651` | one round hands out the first match and goes on with the list without it, in its old order |
| `TupleExtract.NthWithoutFirst` | `crates/libaflmm_bolts/src/tuples.rs:641-648` | what a round leaves for the later handles |
| `TupleExtract.GetAllMutClosedForm` | `crates/libaflmm_bolts/src/tuples.rs:600-687` | a handle gets the match whose number is how often it occurred before |
| `TupleExtract.GetAllClosedForm` | `crates/libaflmm_bolts/src/tuples.rs:678-683` | `get_all` gives every handle the first match |
| `TupleExtract.GetAllMutFirstUntaken` | `crates/libaflmm_bolts/src/tuples.rs:600-687` | a handle gets the first matching element in list order that no earlier handle took, and None exactly if there is none |
| `TupleExtract.GetAllMutDistinct` | `crates/libaflmm_bolts/src/tuples.rs:641-687` | all elements handed out are different |
| `TupleExtract.AgreesIffNoRepeat` | `crates/libaflmm_bolts/src/tuples.rs:678-687` | `get_all_mut` agrees with `get_all` if and only if no matching handle is repeated |
| `TupleExtract.Extract` | `crates/libaflmm_bolts/src/tuples.rs:600-651` | one result for each handle; the recursion ends on handles left, elements left |
| `Simd.SelectSimplifies` | `crates/libaflmm_bolts/src/simd.rs:337-338` | compare with zero and select simplifies every lane |
| `Simd.SimplifyMapNaive` | `crates/libaflmm_bolts/src/simd.rs:314-318` | every zero becomes 0x1, every other byte 0x80 |
| `Simd.SimplifyMapSimd` | `crates/libaflmm_bolts/src/simd.rs:323-346` | the vector form leaves the same map for every length and lane count: 0x1 for zero, 0x80 for the rest |
| `Simd.SimplifyVector` | `crates/libaflmm_bolts/src/simd.rs:333-340` | one step simplifies its vector and nothing else |
| `Simd.VectorChanges` | `crates/libaflmm_bolts/src/simd.rs:382-386` | a vector changes exactly if one of its lanes does |
| `Simd.CovmapIsInterestingNaive` | `crates/libaflmm_bolts/src/simd.rs:413-431` | true exactly if a non-zero byte changes its history |
| `Simd.CovmapIsInterestingSimd` | `crates/libaflmm_bolts/src/simd.rs:365-404` | true exactly if a byte of the whole vectors changes its history, or one of the tail with swapped arguments does |
| `Simd.SimdExactIffSwapHarmless` | `crates/libaflmm_bolts/src/simd.rs:365-404` | it tells whether any index changes its history if and only if swapping the arguments is harmless for the reducer or there is one lane only |
| `Simd.NaiveExactIffZeroIdentity` | `crates/libaflmm_bolts/src/simd.rs:413-431` | the simple form does if and only if reducing with zero changes nothing |
| `Simd.SimdIsNaiveIffZeroIdentity` | `crates/libaflmm_bolts/src/simd.rs:365-431` | for commutative reducers the two forms agree if and only if zero is an identity |
| `Simd.MaxKeepsLarger` | `crates/libaflmm_bolts/src/simd.rs:62-202` | the maximum reducer yields the larger byte |
| `Simd.MinKeepsSmaller` | `crates/libaflmm_bolts/src/simd.rs:62-202` | the minimum reducer yields the smaller byte |
| `Simd.OrKeepsAllBits` | `crates/libaflmm_bolts/src/simd.rs:62-202` | the or reducer yields every bit of the two bytes and no other |
| `Simd.AndKeepsCommonBits` | `crates/libaflmm_bolts/src/simd.rs:62-202` | the and reducer yields exactly the bits of both bytes |
| `Simd.ReducerLaws` | `crates/libaflmm_bolts/src/simd.rs:62-202` | these conditions hold for Max and Or; zero is no identity for Min and And; swapping is not harmless for Nop, which yields its second argument |
| `Simd.NovelIsSortedNovelties` | `crates/libaflmm_bolts/src/simd.rs:244-253` | the novelties are exactly the indices above their history, ascending |
| `Simd.NovelSplit` | `crates/libaflmm_bolts/src/simd.rs:279-298` | splitting the range splits the novelties in order |
| `Simd.CollectNovelties` | `crates/libaflmm_bolts/src/simd.rs:246-251` | the loop appends the novelties of its range |
| `Simd.Novelties16` | `crates/libaflmm_bolts/src/simd.rs:244-253` | appends the novelties of 16 lanes |
| `Simd.Novelties32` | `crates/libaflmm_bolts/src/simd.rs:279-298` | the split loop appends what two consecutive 16-lane calls append |
| `IntegerSqrt.SaturationHarmless` | `crates/libaflmm_bolts/src/math.rs:49-49` | the saturated comparison is the true one below the largest value |
| `IntegerSqrt.Sqrt` | `crates/libaflmm_bolts/src/math.rs:38-57` | r * r <= val < (r + 1) * (r + 1) for every 64-bit value |
| `IntegerSqrt.RootUnique` | `crates/libaflmm_bolts/src/math.rs:38-57` | that determines the result |

## Left out

- FridaAllocator.Allocator.constructor: the search of `init` for a free shadow bit is a parameter with the properties that it ensures (at least 44, reservation granted); occupied ranges and `unpoison_all_existing_memory` are not modelled.
- FridaAllocator.Allocator.Alloc: the operating system is asked for a mapping at a hinted address and either returns that address or fails; it never maps beyond the end of user space, which is assumed to lie below 2^(shadow_bit+4) with 16 pages and a granule to spare; page size and granularity are multiples of 8. Sizes are unbounded numbers, because the configured maxima are far below the width of the machine word.
- AllocatorState.AllocKeepsInv: bounds the total by its maximum but does not equate it with a sum over regions, because reset zeroes it while unfreed regions remain and a failed mapping stays charged.
- FridaAllocator.Allocator.MapShadowForRegion: a rounded range that does not fit the reservation is not modelled; splitting a reserved mapping at offset 0 leaves an empty piece and committing never fails; the branch without a reservation, which `init` rules out, is not modelled.
- FridaAllocator.Allocator.CheckShadow: a read of shadow that is not committed is the outcome `OutsideShadow`; the original faults there, or reads managed memory behind the end of the reservation.
- Backtraces, error reports and leak checks of the Frida allocator: plumbing; whether a report asks for a crash is a parameter.
- QasanHeap.Heap.QuarantinePush: the byte count of the quarantine is never raised, so its eviction loop never executes; no bound and no order of eviction is claimed, and blocks in the quarantine are never returned.
- QasanHeap.Heap.Malloc: the backend hands out disjoint blocks at multiples of 16, or none; overflow of sizes is not modelled.
- QasanHeap.Heap.Free: needs a right header of its own chunk. A link that is written into a block the backend has not handed out again is assumed not to disturb the backend. Frees of a block that was returned, or of a foreign pointer, depend on what the backend left there and are not modelled.
- QasanHeap.Heap.Realloc: fills and copies are functions on memory contents instead of byte loops, and headers are kept apart from user bytes.
- Temporary zone before initialisation, `calloc`, `aligned_alloc`, locks, symbol lookup, logging and the string hooks of libqasan: plumbing or easy members; 32-bit guests.
- DrCovFormat.FileRoundTripIff: text is a sequence of characters, so UTF-8 decoding is not modelled, and upper-casing only changes ASCII letters; block entries are laid out little-endian.
- DrCov.Read: file errors and allocation failures for huge counts are not modelled.
- DrCov.WriteReadRoundTrip: additions and subtractions wrap as in a release build; a build with overflow checks would panic instead.
- `module_map`, rewriting a reader to disk and the address lists of DrCov: they depend on how the range map library splits overlapping ranges, or only project a field.
- IntelPt.IntelPt.DecodeTraces: a slice that leaves its memory is an outcome of its own after which nothing is claimed; counters do not wrap at 64 bits; the packet decoder, filling the coverage map, the memory barrier and the perf system calls are not modelled.
- TupleExtract.Extract: tuple lists are sequences of elements with type, name and identity; the type-level recursion is a recursion on sequences.
- Simd.CovmapIsInterestingSimd: vectors are sequences of lanes, and lane operations act on each lane; intrinsics are not modelled.
- Cumulative sums, floating-point helpers and the other traits of tuple lists: easy members.
- Compiler passes, wrappers, Nyx and QEMU glue, core pinning and register dumps: foreign calls.
