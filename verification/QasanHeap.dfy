/**
  The guest allocator: malloc, posix_memalign, realloc and free over a backend that hands out blocks.

  `shadow` is the guest shadow, `headers` the chunk headers by their addresses, `data` the user memory, `quarantine` the
  list of held-back chunks (newest first).  The ghost field `chunks` records every chunk whose block has not been handed
  out again.
 */
module QasanHeap {
  import opened Common
  import opened Bits
  import opened QasanShadow
  import opened QasanLayout

  const QUARANTINE_MAX_BYTES: nat := 52428800

  /** The chunk header without its list links; `alignedOrig` is 0 unless the chunk was allocated with an alignment. */
  datatype Header = Header(requestedSize: nat, alignedOrig: nat)

  /** User memory: the byte at every address. */
  type Memory = nat -> Byte

  /** What a call of `PosixMemalign` ends in; an alignment of 0 leads to a division by zero. */
  datatype MemalignOutcome = Aligned(ptr: nat) | NoBytes | Invalid | NoMemory | DividedByZero

  /** What a call of `Free` ends in. */
  datatype FreeOutcome = Freed | NothingFreed | FreeAborted

  /** What a call of `Realloc` ends in. */
  datatype ReallocOutcome = Moved(ptr: nat) | NotMoved | ReallocAborted

  /** Memory after `len` bytes at `at` have been set to `v`. */
  function Filled(data: Memory, at: nat, len: nat, v: Byte): Memory {
    (a: nat) => if at <= a < at + len then v else data(a)
  }

  /** Memory after `len` bytes have been copied from `src` to `dst`. */
  function Copied(data: Memory, dst: nat, src: nat, len: nat): Memory {
    (a: nat) => if dst <= a < dst + len then data(src + (a - dst)) else data(a)
  }

  /** The contents of `len` bytes at `at`. */
  function Bytes(data: Memory, at: nat, len: nat): (r: seq<Byte>)
    ensures |r| == len
  {
    seq(len, i requires 0 <= i < len => data(at + i))
  }

  /** The `n` bytes at `at`, cut off at `size` or filled up with 0xff. */
  function Resized(data: Memory, at: nat, n: nat, size: nat): seq<Byte> {
    if size <= n then Bytes(data, at, size) else Bytes(data, at, n) + seq(size - n, _ => 0xff)
  }

  /** Freeing the chunk is noticed as a double free: it is held back and has at least 8 bytes. */
  predicate FreeCaught(c: Chunk) {
    c.state.Quarantined? && c.size >= 8
  }

  /** The free has put its chunk into the quarantine. */
  predicate Pushed(outcome: FreeOutcome, returned: nat) {
    outcome.Freed? && returned == 0
  }

  /** The newest entry of the quarantine is the header of chunk `u`. */
  ghost predicate IsTop(quarantine: seq<nat>, u: nat) {
    quarantine != [] && quarantine[0] + HEADER_SIZE == u
  }

  /** The state of a chunk after it has been freed. */
  function FreedState(size: nat, lockBusy: bool): ChunkState {
    if size >= QUARANTINE_MAX_BYTES || lockBusy then Returned else Quarantined
  }

  /** The header of a chunk that has not been given back leads to the start of its block. */
  ghost predicate HeaderOk(headers: map<nat, Header>, u: nat, c: Chunk) {
    !c.state.Returned? ==>
      && u >= HEADER_SIZE && u - HEADER_SIZE in headers
      && var h := headers[u - HEADER_SIZE];
         h.requestedSize == c.size && c.orig == if h.alignedOrig != 0 then h.alignedOrig else u - HEADER_SIZE
  }

  /** `p` is the header of a quarantined chunk. */
  ghost predicate HeldBack(chunks: Chunks, p: nat) {
    p + HEADER_SIZE in chunks && chunks[p + HEADER_SIZE].state.Quarantined?
  }

  /** The quarantine holds the headers of exactly the quarantined chunks, each once. */
  ghost predicate QuarantineOk(quarantine: seq<nat>, chunks: Chunks) {
    && (forall p: nat {:trigger HeldBack(chunks, p)} {:trigger p in quarantine} ::
          p in quarantine <==> HeldBack(chunks, p))
    && NoDuplicates(quarantine)
  }

  /** The newest entry of the quarantine, the only one that is ever written to again, is held back. */
  ghost predicate TopOk(quarantine: seq<nat>, chunks: Chunks) {
    quarantine != [] ==> HeldBack(chunks, quarantine[0])
  }

  ghost predicate NoDuplicates(ps: seq<nat>) {
    forall i, j :: 0 <= i < j < |ps| ==> ps[i] != ps[j]
  }

  ghost predicate ShadowsOk(k: seq<Byte>, chunks: Chunks) {
    forall u {:trigger ChunkShadow(k, u, chunks[u])} :: u in chunks ==> ChunkShadow(k, u, chunks[u])
  }

  ghost predicate HeadersOk(headers: map<nat, Header>, chunks: Chunks) {
    forall u {:trigger HeaderOk(headers, u, chunks[u])} :: u in chunks ==> HeaderOk(headers, u, chunks[u])
  }

  /**
    What the invariant means for accesses: the user bytes of a chunk in use are open and both its redzones closed, and
    the user bytes of a freed chunk whose block has not been handed out again are closed.
   */
  lemma HeapProtected(k: seq<Byte>, chunks: Chunks, u: nat)
    requires Layout(chunks, |k|) && ShadowsOk(k, chunks) && u in chunks
    ensures var c := chunks[u];
            && u + Up16(c.size) + REDZONE_SIZE <= 8 * |k| && c.size <= Up16(c.size) && u >= HEADER_SIZE
            && (c.state.Live? ==> && AllAccessible(k, u, u + c.size)
                                  && NoneAccessible(k, u - REDZONE_SIZE, u)
                                  && NoneAccessible(k, u + c.size, u + Up16(c.size) + REDZONE_SIZE))
            && (!c.state.Live? ==> NoneAccessible(k, u, u + c.size))
  {
    var c := chunks[u];
    assert ChunkOk(u, c, |k|) && ChunkShadow(k, u, c);
    Up16Is(c.size);
    hide Up16, AndNot;
    if c.state.Live? {
      LiveUserBytes(k, u, c.size);
      LiveRedzones(k, u, c.size);
    } else {
      FreedUserBytes(k, u, c.size);
    }
  }

  /** The shadow after an allocation is right for every chunk. */
  lemma PlaceKeepsShadows(chunks: Chunks, k: seq<Byte>, u: nat, c: Chunk)
    requires Layout(chunks, |k|) && ShadowsOk(k, chunks)
    requires BackendBlock(chunks, c.orig, c.total, |k|) && ChunkOk(u, c, |k|) && c.state.Live?
    ensures ShadowsOk(NewShadow(k, c.orig, c.total, u, c.size), Place(chunks, u, c))
  {
    var chunks' := Place(chunks, u, c);
    forall v | v in chunks' ensures ChunkShadow(NewShadow(k, c.orig, c.total, u, c.size), v, chunks'[v]) {
      assert v in chunks ==> ChunkShadow(k, v, chunks[v]);
      PlaceKeepsShadow(chunks, k, u, c, v);
    }
  }

  /** Placing a chunk holds back the same chunks as before. */
  lemma PlaceKeepsHeld(chunks: Chunks, u: nat, c: Chunk, quarantine: seq<nat>, blocks: nat)
    requires Layout(chunks, blocks) && BackendBlock(chunks, c.orig, c.total, blocks) && ChunkOk(u, c, blocks)
    requires c.state.Live?
    ensures TopOk(quarantine, Place(chunks, u, c)) <==> TopOk(quarantine, chunks)
    ensures QuarantineOk(quarantine, chunks) ==> QuarantineOk(quarantine, Place(chunks, u, c))
  {
    PlaceKeepsLayout(chunks, u, c, blocks);
    hide Layout, BackendBlock, ChunkOk;
    assert forall p: nat :: HeldBack(Place(chunks, u, c), p) <==> HeldBack(chunks, p);
  }

  /** The headers after a chunk has been placed. */
  lemma PlaceKeepsHeaders(chunks: Chunks, headers: map<nat, Header>, u: nat, c: Chunk, h: Header, blocks: nat)
    requires Layout(chunks, blocks) && BackendBlock(chunks, c.orig, c.total, blocks) && ChunkOk(u, c, blocks)
    requires c.state.Live?
    requires HeadersOk(headers, chunks)
    requires h.requestedSize == c.size && c.orig == if h.alignedOrig != 0 then h.alignedOrig else u - HEADER_SIZE
    ensures HeadersOk(headers[u - HEADER_SIZE := h], Place(chunks, u, c))
  {
    hide Up16, AndNot, Layout, Disjoint, BackendBlock;
    PlaceKeepsLayout(chunks, u, c, blocks);
    var chunks' := Place(chunks, u, c);
    forall v | v in chunks' ensures HeaderOk(headers[u - HEADER_SIZE := h], v, chunks'[v]) {
      assert v != u ==> HeaderOk(headers, v, chunks[v]);
    }
  }

  /** The layout after a chunk that was not given back yet has been freed, for the first time or again. */
  lemma FreeKeepsLayout(chunks: Chunks, u: nat, state: ChunkState, blocks: nat)
    requires u in chunks && Layout(chunks, blocks)
    ensures Layout(chunks[u := chunks[u].(state := state)], blocks)
  {
    var chunks' := chunks[u := chunks[u].(state := state)];
    forall v | v in chunks' ensures ChunkOk(v, chunks'[v], blocks) {
      assert ChunkOk(v, chunks[v], blocks);
    }
    forall v, w | v in chunks' && w in chunks' && v != w ensures Disjoint(chunks'[v], chunks'[w]) {
      assert Disjoint(chunks[v], chunks[w]);
    }
  }

  lemma FreeKeepsHeaders(chunks: Chunks, headers: map<nat, Header>, u: nat, state: ChunkState)
    requires u in chunks && !chunks[u].state.Returned? && HeadersOk(headers, chunks)
    ensures HeadersOk(headers, chunks[u := chunks[u].(state := state)])
  {
    var chunks' := chunks[u := chunks[u].(state := state)];
    forall v | v in chunks' ensures HeaderOk(headers, v, chunks'[v]) {
      assert HeaderOk(headers, v, chunks[v]);
    }
  }

  /** The quarantine after a first free. */
  lemma FreeKeepsQuarantine(chunks: Chunks, quarantine: seq<nat>, u: nat, state: ChunkState)
    requires u in chunks && chunks[u].state.Live? && !state.Live? && u >= HEADER_SIZE
    requires QuarantineOk(quarantine, chunks)
    ensures QuarantineOk(if state.Quarantined? then [u - HEADER_SIZE] + quarantine else quarantine,
                         chunks[u := chunks[u].(state := state)])
  {
    var chunks' := chunks[u := chunks[u].(state := state)];
    var head := u - HEADER_SIZE;
    var quarantine' := if state.Quarantined? then [head] + quarantine else quarantine;
    assert !HeldBack(chunks, head);
    forall p: nat ensures p in quarantine' <==> HeldBack(chunks', p) {
      assert p in quarantine <==> HeldBack(chunks, p);
    }
    if state.Quarantined? {
      assert head !in quarantine;
      assert forall i :: 1 <= i < |quarantine'| ==> quarantine'[i] == quarantine[i - 1];
    }
  }

  // ----- the link that a push writes -----

  /** Where a header holds its second list link, and where it holds the start of its block. */
  const LINK_OFFSET: nat := 24
  const LINK_SIZE: nat := 8
  const ORIG_OFFSET: nat := 8

  /** The address of the link of the newest entry: a push writes the address of the new entry there. */
  function LinkOf(quarantine: seq<nat>): nat
    requires quarantine != []
  {
    quarantine[0] + LINK_OFFSET
  }

  /** Byte `i` of an address in memory, little endian. */
  function AddressByte(p: nat, i: nat): Byte {
    (p / Pow2(8 * i)) % 256
  }

  /** Memory after address `p` has been written at `link`. */
  function LinkedData(data: Memory, link: nat, p: nat): Memory {
    (a: nat) => if link <= a < link + LINK_SIZE then AddressByte(p, a - link) else data(a)
  }

  /**
    Headers after address `p` has been written at `link`. Headers and links lie at multiples of 8, so the link can only
    replace the size or the block start of a header as a whole.
   */
  function LinkedHeaders(headers: map<nat, Header>, link: nat, p: nat): map<nat, Header> {
    map at | at in headers :: Header(if link == at then p else headers[at].requestedSize,
                                     if link == at + ORIG_OFFSET then p else headers[at].alignedOrig)
  }

  function DataAfterPush(data: Memory, quarantine: seq<nat>, p: nat): Memory {
    if quarantine == [] then data else LinkedData(data, LinkOf(quarantine), p)
  }

  function HeadersAfterPush(headers: map<nat, Header>, quarantine: seq<nat>, p: nat): map<nat, Header> {
    if quarantine == [] then headers else LinkedHeaders(headers, LinkOf(quarantine), p)
  }

  /** Writing `p` at `link` leaves the header of a chunk right: it misses it or happens to write what is there. */
  predicate HeaderSpared(u: nat, c: Chunk, link: nat, p: nat)
    requires u >= HEADER_SIZE
  {
    && (link == u - HEADER_SIZE ==> p == c.size)
    && (link == u - HEADER_SIZE + ORIG_OFFSET ==> c.orig == if p != 0 then p else u - HEADER_SIZE)
  }

  /** A push leaves the headers of all chunks right that were not given back. */
  ghost predicate PushSpares(chunks: Chunks, quarantine: seq<nat>, p: nat) {
    quarantine != [] ==>
      forall v :: v in chunks && v >= HEADER_SIZE && !chunks[v].state.Returned? ==>
                    HeaderSpared(v, chunks[v], LinkOf(quarantine), p)
  }

  /** A push writes neither the size nor the block start in the header of chunk `u`. */
  predicate LinkMissesHeader(quarantine: seq<nat>, u: nat) {
    quarantine == [] || (LinkOf(quarantine) != u - HEADER_SIZE && LinkOf(quarantine) != u - HEADER_SIZE + ORIG_OFFSET)
  }

  /** A push does not write to the given bytes. */
  predicate PushMisses(quarantine: seq<nat>, at: nat, len: nat) {
    quarantine == [] || LinkOf(quarantine) + LINK_SIZE <= at || at + len <= LinkOf(quarantine)
  }

  /** All headers stay right after a push if and only if the link spares them. */
  lemma PushKeepsHeadersIff(headers: map<nat, Header>, chunks: Chunks, quarantine: seq<nat>, p: nat)
    requires HeadersOk(headers, chunks)
    ensures HeadersOk(HeadersAfterPush(headers, quarantine, p), chunks) <==> PushSpares(chunks, quarantine, p)
  {
    if quarantine != [] {
      var headers' := HeadersAfterPush(headers, quarantine, p);
      forall v | v in chunks && !chunks[v].state.Returned?
        ensures v >= HEADER_SIZE
        ensures HeaderOk(headers', v, chunks[v]) <==> HeaderSpared(v, chunks[v], LinkOf(quarantine), p)
      {
        assert HeaderOk(headers, v, chunks[v]);
      }
      assert forall v :: v in chunks && chunks[v].state.Returned? ==> HeaderOk(headers', v, chunks[v]);
    }
  }

  /** The contents of given bytes stay if and only if a push misses them or happens to write what is there. */
  lemma PushKeepsContentsIff(data: Memory, quarantine: seq<nat>, p: nat, at: nat, len: nat)
    ensures Bytes(DataAfterPush(data, quarantine, p), at, len) == Bytes(data, at, len) <==>
            (quarantine != [] ==>
               forall a: nat :: at <= a < at + len && LinkOf(quarantine) <= a < LinkOf(quarantine) + LINK_SIZE ==>
                                  AddressByte(p, a - LinkOf(quarantine)) == data(a))
    ensures PushMisses(quarantine, at, len) ==>
              Bytes(DataAfterPush(data, quarantine, p), at, len) == Bytes(data, at, len)
  {
    if quarantine != [] {
      var link, data' := LinkOf(quarantine), DataAfterPush(data, quarantine, p);
      if Bytes(data', at, len) == Bytes(data, at, len) {
        forall a: nat | at <= a < at + len && link <= a < link + LINK_SIZE ensures AddressByte(p, a - link) == data(a) {
          assert Bytes(data', at, len)[a - at] == Bytes(data, at, len)[a - at];
        }
      }
    }
  }

  /** While the newest entry is held back, a push spares all headers and all user bytes. */
  lemma HeldTopIsSafe(chunks: Chunks, quarantine: seq<nat>, p: nat, blocks: nat)
    requires Layout(chunks, blocks) && TopOk(quarantine, chunks)
    ensures PushSpares(chunks, quarantine, p)
    ensures forall v :: v in chunks ==>
                          LinkMissesHeader(quarantine, v) && PushMisses(quarantine, v, chunks[v].size)
  {
    if quarantine != [] {
      var t := quarantine[0] + HEADER_SIZE;
      hide Up16, AndNot;
      forall v | v in chunks
        ensures v >= HEADER_SIZE && HeaderSpared(v, chunks[v], LinkOf(quarantine), p)
        ensures LinkMissesHeader(quarantine, v) && PushMisses(quarantine, v, chunks[v].size)
      {
        Up16Is(chunks[v].size);
        Up16Is(chunks[t].size);
        assert ChunkOk(v, chunks[v], blocks) && ChunkOk(t, chunks[t], blocks);
        assert v != t ==> Disjoint(chunks[v], chunks[t]);
      }
    }
  }

  /** Filling or copying elsewhere leaves contents alone. */
  lemma ContentsElsewhere(data: Memory, data': Memory, at: nat, len: nat, lo: nat, hi: nat)
    requires forall a: nat :: !(lo <= a < hi) ==> data'(a) == data(a)
    requires at + len <= lo || hi <= at
    ensures Bytes(data', at, len) == Bytes(data, at, len)
  {
  }

  /**
    The contents after a block has been filled with 0xff and `n` bytes have been copied to its start from elsewhere.
   */
  lemma ContentsMoved(data: Memory, p: nat, size: nat, src: nat, n: nat)
    requires n <= size && (src + n <= p || p + size <= src)
    ensures Bytes(Copied(Filled(data, p, size, 0xff), p, src, n), p, size) ==
            Bytes(data, src, n) + seq(size - n, _ => 0xff)
  {
  }

  // ----- freed bytes -----

  /** The user bytes of a chunk. */
  ghost function UserBytes(u: nat, size: nat): set<nat> {
    set a {:trigger IsUserByte(u, size, a)} | u <= a < u + size && IsUserByte(u, size, a)
  }

  predicate IsUserByte(u: nat, size: nat, a: nat) {
    u <= a < u + size
  }

  /** Bytes that neither a block of the backend nor the 8 bytes behind it cover. */
  ghost function Uncovered(closed: set<nat>, orig: nat, total: nat): set<nat> {
    set a | a in closed && !(orig <= a < orig + total + 8)
  }

  ghost predicate StillClosed(k: seq<Byte>, closed: set<nat>) {
    forall a :: a in closed ==> a / 8 < |k| && !Accessible(k, a)
  }

  /** Placing a chunk keeps freed bytes closed that lie outside its block and the 8 bytes behind it. */
  lemma PlaceKeepsClosed(k: seq<Byte>, closed: set<nat>, u: nat, c: Chunk)
    requires ChunkOk(u, c, |k|) && StillClosed(k, closed)
    ensures StillClosed(NewShadow(k, c.orig, c.total, u, c.size), Uncovered(closed, c.orig, c.total))
  {
    NewShadowOk(k, u, c);
    assert c.orig % 16 == 0 && c.total % 16 == 8;
    var k' := NewShadow(k, c.orig, c.total, u, c.size);
    hide NewShadow, LiveShadow, ChunkOk;
    forall a | a in Uncovered(closed, c.orig, c.total) ensures a / 8 < |k'| && !Accessible(k', a) {
      OutsideBlock(a, c.orig, c.total);
    }
  }

  lemma OutsideBlock(a: nat, orig: nat, total: nat)
    requires a < orig || orig + total + 8 <= a
    ensures 8 * (a / 8) < orig || orig + total < 8 * (a / 8)
  {
  }

  /** Freeing a chunk keeps freed bytes closed and closes its user bytes. */
  lemma FreeKeepsClosed(k: seq<Byte>, closed: set<nat>, u: nat, c: Chunk)
    requires ChunkOk(u, c, |k|) && ChunkShadow(k, u, c) && StillClosed(k, closed)
    ensures StillClosed(AfterFree(k, u, c.size), closed + UserBytes(u, c.size))
  {
    AfterFreeOk(k, u, c);
    var k' := AfterFree(k, u, c.size);
    EndAligned(u, c.size);
    FreedUserBytes(k', u, c.size);
    hide Up16, AndNot, LiveShadow, FreedShadow, PoisonedShadow;
    forall a | a in closed ensures a / 8 < |k'| && !Accessible(k', a) {
      if c.size > 0 {
        PoisonMeaning(k, u, u + Up16(c.size), HEAP_FREED, a);
      }
    }
  }

  // ----- moving a chunk -----

  /** What the operations see of the heap besides the shadow. */
  datatype HeapState = HeapState(chunks: Chunks, headers: map<nat, Header>, data: Memory, quarantine: seq<nat>,
                                 closed: set<nat>)

  /** The arguments of `realloc`; `block` is the answer of the backend. */
  datatype Move = Move(ptr: nat, size: nat, block: nat)

  ghost predicate MoveOk(s: HeapState, m: Move) {
    m.ptr != 0 ==> m.ptr >= HEADER_SIZE && m.ptr in s.chunks && !s.chunks[m.ptr].state.Returned?
  }

  function NewChunk(m: Move): Chunk {
    Chunk(m.block, BackendSize(m.size), m.size, Live)
  }

  /** The state after the allocation and the copy. */
  ghost function Copy(s: HeapState, m: Move): HeapState
    requires MoveOk(s, m)
  {
    var p := m.block + HEADER_SIZE;
    var filled := Filled(s.data, p, m.size, 0xff);
    var copied := if m.ptr == 0 then filled
                  else Copied(filled, p, m.ptr, if m.size < s.chunks[m.ptr].size then m.size else s.chunks[m.ptr].size);
    HeapState(Place(s.chunks, p, NewChunk(m)), s.headers[m.block := Header(m.size, 0)], copied, s.quarantine,
              Uncovered(s.closed, m.block, BackendSize(m.size)))
  }

  /** The state after chunk `u` has been freed, for the first time or again. */
  ghost function AfterFreeing(s: HeapState, u: nat, lockBusy: bool): HeapState
    requires u >= HEADER_SIZE && u in s.chunks
  {
    var (state, p) := (FreedState(s.chunks[u].size, lockBusy), u - HEADER_SIZE);
    var chunks, closed := s.chunks[u := s.chunks[u].(state := state)], s.closed + UserBytes(u, s.chunks[u].size);
    if state.Quarantined?
    then HeapState(chunks, HeadersAfterPush(s.headers, s.quarantine, p), DataAfterPush(s.data, s.quarantine, p),
                   [p] + s.quarantine, closed)
    else s.(chunks := chunks, closed := closed)
  }

  /** The free behind a move goes through. */
  ghost predicate Frees(s: HeapState, m: Move)
    requires MoveOk(s, m)
  {
    m.block != 0 && m.ptr != 0 && !FreeCaught(s.chunks[m.ptr])
  }

  /** The move pushes the old chunk into the quarantine, and so writes a link if there is an older entry. */
  ghost predicate Links(s: HeapState, m: Move, lockBusy: bool)
    requires MoveOk(s, m)
  {
    Frees(s, m) && FreedState(s.chunks[m.ptr].size, lockBusy).Quarantined?
  }

  /** `realloc`. */
  ghost function MoveSpec(s: HeapState, m: Move, lockBusy: bool): (HeapState, ReallocOutcome)
    requires MoveOk(s, m)
  {
    var copy := Copy(s, m);
    if m.block == 0 then (s, NotMoved)
    else if Frees(s, m) && m.ptr in copy.chunks
    then (AfterFreeing(copy, m.ptr, lockBusy), Moved(m.block + HEADER_SIZE))
    else if m.ptr != 0 then (copy, ReallocAborted)
    else (copy, Moved(m.block + HEADER_SIZE))
  }

  /** The contents after a move: those of the moved chunk as far as they fit, and those of all others. */
  ghost predicate ContentsKept(s: HeapState, m: Move, lockBusy: bool, s': HeapState)
    requires MoveOk(s, m)
  {
    var p := m.block + HEADER_SIZE;
    && p in s'.chunks && s'.chunks[p] == NewChunk(m)
    && ((Links(s, m, lockBusy) ==> PushMisses(s.quarantine, p, m.size)) ==>
          Bytes(s'.data, p, m.size) == if m.ptr == 0 then seq(m.size, _ => 0xff)
                                       else Resized(s.data, m.ptr, s.chunks[m.ptr].size, m.size))
    && (forall v :: v in s.chunks && !s.chunks[v].state.Returned? ==>
          && v in s'.chunks && (v != m.ptr ==> s'.chunks[v] == s.chunks[v])
          && ((Links(s, m, lockBusy) ==> PushMisses(s.quarantine, v, s.chunks[v].size)) ==>
                Bytes(s'.data, v, s.chunks[v].size) == Bytes(s.data, v, s.chunks[v].size)))
  }

  lemma CopyKeepsContents(s: HeapState, m: Move, blocks: nat)
    requires MoveOk(s, m) && Layout(s.chunks, blocks) && m.block != 0
    requires BackendBlock(s.chunks, m.block, BackendSize(m.size), blocks)
    ensures var (p, s') := (m.block + HEADER_SIZE, Copy(s, m));
            && p in s'.chunks && s'.chunks[p] == NewChunk(m) && p != m.ptr
            && Bytes(s'.data, p, m.size) == (if m.ptr == 0 then seq(m.size, _ => 0xff)
                                             else Resized(s.data, m.ptr, s.chunks[m.ptr].size, m.size))
            && forall v :: v in s.chunks && !s.chunks[v].state.Returned? ==>
                             && v in s'.chunks && s'.chunks[v] == s.chunks[v]
                             && Bytes(s'.data, v, s.chunks[v].size) == Bytes(s.data, v, s.chunks[v].size)
  {
    var (p, c, s') := (m.block + HEADER_SIZE, NewChunk(m), Copy(s, m));
    PlainChunkOk(m.block, m.size, blocks);
    PlaceKeepsLayout(s.chunks, p, c, blocks);
    PlacedChunk(s.chunks, p, c, blocks);
    hide Layout, Place, BackendBlock, BackendSize, Up16, AndNot;
    OthersKeepContents(s'.chunks, p, s.data, s'.data, blocks);
    if m.ptr == 0 {
      assert Bytes(s'.data, p, m.size) == seq(m.size, _ => 0xff);
    } else {
      var n := s.chunks[m.ptr].size;
      UserRangesApart(s'.chunks, m.ptr, p, blocks);
      ContentsMoved(s.data, p, m.size, m.ptr, if m.size < n then m.size else n);
    }
  }

  lemma MoveKeepsContents(s: HeapState, m: Move, lockBusy: bool, blocks: nat)
    requires MoveOk(s, m) && Layout(s.chunks, blocks) && m.block != 0
    requires BackendBlock(s.chunks, m.block, BackendSize(m.size), blocks)
    ensures ContentsKept(s, m, lockBusy, MoveSpec(s, m, lockBusy).0)
    ensures m.ptr != 0 ==> m.ptr in Copy(s, m).chunks && Copy(s, m).chunks[m.ptr] == s.chunks[m.ptr]
  {
    CopyKeepsContents(s, m, blocks);
    CopyQuarantine(s, m);
    hide Layout, BackendBlock, Bytes, Copy, Resized, AfterFreeing, PushMisses, NewChunk, FreeCaught, FreedState;
    var (copy, p) := (Copy(s, m), m.block + HEADER_SIZE);
    if Frees(s, m) {
      var s' := AfterFreeing(copy, m.ptr, lockBusy);
      FreeingKeepsChunks(copy, m.ptr, lockBusy);
      forall v, n: nat | Links(s, m, lockBusy) ==> PushMisses(s.quarantine, v, n)
        ensures Bytes(s'.data, v, n) == Bytes(copy.data, v, n)
      {
        FreeingKeepsContents(copy, m.ptr, lockBusy, v, n);
      }
    }
  }

  lemma FreeingKeepsChunks(s: HeapState, u: nat, lockBusy: bool)
    requires u >= HEADER_SIZE && u in s.chunks
    ensures var s' := AfterFreeing(s, u, lockBusy);
            s'.chunks.Keys == s.chunks.Keys && forall v :: v in s.chunks && v != u ==> s'.chunks[v] == s.chunks[v]
  {
  }

  /** A free keeps all contents that it writes no link to. */
  lemma FreeingKeepsContents(s: HeapState, u: nat, lockBusy: bool, at: nat, len: nat)
    requires u >= HEADER_SIZE && u in s.chunks
    requires FreedState(s.chunks[u].size, lockBusy).Quarantined? ==> PushMisses(s.quarantine, at, len)
    ensures Bytes(AfterFreeing(s, u, lockBusy).data, at, len) == Bytes(s.data, at, len)
  {
    PushKeepsContentsIff(s.data, s.quarantine, u - HEADER_SIZE, at, len);
    hide Bytes, PushMisses, DataAfterPush;
  }

  lemma CopyQuarantine(s: HeapState, m: Move)
    requires MoveOk(s, m)
    ensures Copy(s, m).quarantine == s.quarantine
  {
  }

  class Heap {
    const shadow: array<Byte>
    /** Whether the C type `char` is signed on the guest. */
    const signedChar: bool
    var headers: map<nat, Header>
    var data: Memory
    var quarantine: seq<nat>
    var quarantineBytes: nat
    ghost var chunks: Chunks
    /** User bytes of freed chunks that no block has covered since. */
    ghost var closed: set<nat>

    /** What protects the program: layout and shadow; `HeapProtected` says what it means for accesses. */
    ghost predicate Valid()
      reads this, shadow
    {
      && Layout(chunks, shadow.Length)
      && ShadowsOk(shadow[..], chunks)
      && StillClosed(shadow[..], closed)
      && quarantineBytes == 0
    }

    ghost function View(): HeapState
      reads this
    {
      HeapState(chunks, headers, data, quarantine, closed)
    }

    /** The header of chunk `u` is right. */
    ghost predicate HeaderKept(u: nat)
      reads this
    {
      u in chunks && HeaderOk(headers, u, chunks[u])
    }

    ghost predicate AllHeadersKept()
      reads this
    {
      HeadersOk(headers, chunks)
    }

    /** The next chunk pushed into the quarantine is linked to a header that still belongs to the allocator. */
    ghost predicate TopHeld()
      reads this
    {
      TopOk(quarantine, chunks)
    }

    /** The quarantine is a list of exactly the chunks held back. */
    ghost predicate ListOk()
      reads this
    {
      QuarantineOk(quarantine, chunks)
    }

    /** An empty heap; fresh shadow memory is zero, so everything is accessible. */
    constructor (blocks: nat, signedChar: bool)
      ensures Valid() && AllHeadersKept() && TopHeld() && ListOk() && fresh(shadow) && shadow.Length == blocks
      ensures chunks == map[]
      ensures quarantine == [] && closed == {}
      ensures AllAccessible(shadow[..], 0, 8 * blocks)
    {
      shadow := new Byte[blocks](_ => 0);
      this.signedChar := signedChar;
      headers, data, quarantine, quarantineBytes, chunks, closed := map[], _ => 0, [], 0, map[], {};
    }

    /** Opens the block, writes the header, closes both redzones and fills the user bytes. */
    method SetUp(orig: nat, total: nat, u: nat, size: nat, h: Header)
      requires Valid()
      requires ChunkOk(u, Chunk(orig, total, size, Live), shadow.Length)
      requires BackendBlock(chunks, orig, total, shadow.Length)
      requires h.requestedSize == size && orig == if h.alignedOrig != 0 then h.alignedOrig else u - HEADER_SIZE
      modifies this`headers, this`data, this`chunks, this`closed, shadow
      ensures Valid() && TopHeld() == old(TopHeld()) && (old(ListOk()) ==> ListOk())
      ensures old(AllHeadersKept()) ==> AllHeadersKept()
      ensures chunks == Place(old(chunks), u, Chunk(orig, total, size, Live))
      ensures closed == Uncovered(old(closed), orig, total)
      ensures headers == old(headers)[u - HEADER_SIZE := h] && data == Filled(old(data), u, size, 0xff)
      ensures shadow[..] == NewShadow(old(shadow[..]), orig, total, u, size)
    {
      ghost var c := Chunk(orig, total, size, Live);
      assert u >= HEADER_SIZE;
      hide Up16, AndNot, NewShadow, Layout, ShadowsOk, HeadersOk, QuarantineOk, TopOk, Place, ChunkOk, BackendBlock,
           StillClosed, Uncovered;
      headers := headers[u - HEADER_SIZE := h];
      PaintChunk(orig, total, u, size);
      data := Filled(data, u, size, 0xff);
      chunks := Place(chunks, u, c);
      PlaceKeepsLayout(old(chunks), u, c, shadow.Length);
      if old(AllHeadersKept()) {
        PlaceKeepsHeaders(old(chunks), old(headers), u, c, h, shadow.Length);
      }
      PlaceKeepsHeld(old(chunks), u, c, quarantine, shadow.Length);
      PlaceKeepsShadows(old(chunks), old(shadow[..]), u, c);
      closed := Uncovered(closed, orig, total);
      PlaceKeepsClosed(old(shadow[..]), old(closed), u, c);
    }

    /** Opens the block and closes both redzones. */
    method PaintChunk(orig: nat, total: nat, u: nat, size: nat)
      requires ChunkOk(u, Chunk(orig, total, size, Live), shadow.Length) && u >= REDZONE_SIZE
      modifies shadow
      ensures shadow[..] == NewShadow(old(shadow[..]), orig, total, u, size)
    {
      assert REDZONE_SIZE > 0;
      hide *;
      var rightLen, rightEnd := RedzoneRange(orig, total, u, size, shadow.Length);
      OpenBlock(orig, total);
      ghost var unpoisoned := shadow[..];
      CloseRedzones(u, u + size, rightLen, rightEnd);
      NewShadowSteps(old(shadow[..]), unpoisoned, orig, total, u, size);
    }

    method CloseRedzones(u: nat, right: nat, rightLen: nat, rightEnd: nat)
      requires REDZONE_SIZE <= u && u % 8 == 0 && u <= 8 * shadow.Length
      requires rightEnd == right + rightLen && 0 < rightLen && rightEnd % 8 == 0 && rightEnd <= 8 * shadow.Length
      modifies shadow
      ensures shadow[..] == PoisonedShadow(PoisonedShadow(old(shadow[..]), u - REDZONE_SIZE, u, HEAP_LEFT_RZ),
                                           right, rightEnd, HEAP_RIGHT_RZ)
    {
      hide PoisonedShadow;
      CloseRedzone(u - REDZONE_SIZE, REDZONE_SIZE, u, HEAP_LEFT_RZ);
      CloseRedzone(right, rightLen, rightEnd, HEAP_RIGHT_RZ);
    }

    method OpenBlock(orig: nat, total: nat)
      requires orig % 8 == 0 && 0 < total && orig + total < 8 * shadow.Length
      modifies shadow
      ensures shadow[..] == UnpoisonedShadow(old(shadow[..]), orig, orig + total)
    {
      var _ := Unpoison(shadow, orig, total);
    }

    method CloseRedzone(start: nat, len: nat, end: nat, val: Byte)
      requires end == start + len && 0 < len && end % 8 == 0 && end <= 8 * shadow.Length
      modifies shadow
      ensures shadow[..] == PoisonedShadow(old(shadow[..]), start, end, val)
    {
      var _ := Poison(shadow, start, len, val);
    }

    /** `block` is the answer of the backend, 0 if it has no memory. */
    method Malloc(size: nat, block: nat) returns (ptr: nat)
      requires Valid()
      requires block != 0 ==> BackendBlock(chunks, block, BackendSize(size), shadow.Length)
      modifies this`headers, this`data, this`chunks, this`closed, shadow
      ensures Valid() && TopHeld() == old(TopHeld()) && (old(ListOk()) ==> ListOk())
      ensures old(AllHeadersKept()) ==> AllHeadersKept()
      ensures block == 0 ==> && ptr == 0 && chunks == old(chunks) && headers == old(headers) && data == old(data)
                             && closed == old(closed) && shadow[..] == old(shadow[..])
      ensures block != 0 ==> && ptr == block + HEADER_SIZE
                             && chunks == Place(old(chunks), ptr, Chunk(block, BackendSize(size), size, Live))
                             && headers == old(headers)[block := Header(size, 0)]
                             && data == Filled(old(data), ptr, size, 0xff)
                             && closed == Uncovered(old(closed), block, BackendSize(size))
    {
      hide Valid, Layout, QuarantineOk, TopOk, Place, Up16, AndNot, BackendSize, ChunkOk, NewShadow;
      if block == 0 {
        return 0;
      }
      ptr := block + HEADER_SIZE;
      PlainChunkOk(block, size, shadow.Length);
      SetUp(block, BackendSize(size), ptr, size, Header(size, 0));
    }

    /** `block` is the answer of the backend, 0 if it has no memory. */
    method PosixMemalign(align: nat, len: nat, block: nat) returns (outcome: MemalignOutcome)
      requires Valid()
      requires block != 0 ==> BackendBlock(chunks, block, BackendSize(len + align), shadow.Length)
      modifies this`headers, this`data, this`chunks, this`closed, shadow
      ensures outcome.Invalid? <==> align % 8 != 0
      ensures outcome.NoBytes? <==> align % 8 == 0 && len == 0
      ensures outcome.NoMemory? <==> align % 8 == 0 && len > 0 && block == 0
      ensures outcome.DividedByZero? <==> align == 0 && len > 0 && block != 0
      ensures !outcome.DividedByZero? ==> Valid() && TopHeld() == old(TopHeld()) && (old(ListOk()) ==> ListOk())
      ensures !outcome.DividedByZero? && old(AllHeadersKept()) ==> AllHeadersKept()
      ensures !outcome.Aligned? && !outcome.DividedByZero? ==>
                && chunks == old(chunks) && headers == old(headers) && data == old(data)
                && closed == old(closed) && shadow[..] == old(shadow[..])
      ensures outcome.Aligned? ==>
                && align > 0 && outcome.ptr % align == 0 && outcome.ptr == AlignedData(block, align)
                && block + 8 <= outcome.ptr - HEADER_SIZE
                && outcome.ptr + Up16(len) + REDZONE_SIZE <= block + BackendSize(len + align)
                && chunks == Place(old(chunks), outcome.ptr, Chunk(block, BackendSize(len + align), len, Live))
                && headers == old(headers)[outcome.ptr - HEADER_SIZE := Header(len, block)]
                && data == Filled(old(data), outcome.ptr, len, 0xff)
                && closed == Uncovered(old(closed), block, BackendSize(len + align))
    {
      hide AndNot, Up16, AlignedData, Layout, ShadowsOk, HeadersOk, QuarantineOk, TopOk;
      if align % 2 != 0 || align % 8 != 0 {
        return Invalid;
      }
      if len == 0 {
        return NoBytes;
      }
      var size := len + align;
      if block == 0 {
        return NoMemory;
      }
      if align == 0 {
        return DividedByZero;
      }
      AlignedLayout(block, align, len);
      var ptr := AlignedData(block, align);
      SetUp(block, BackendSize(size), ptr, len, Header(len, block));
      outcome := Aligned(ptr);
    }

    /** The two checks with which `free` validates its argument. */
    method CheckFree(ptr: nat) returns (aborted: bool)
      requires Valid() && HeaderKept(ptr) && !chunks[ptr].state.Returned?
      ensures aborted <==> FreeCaught(chunks[ptr])
    {
      ghost var c := chunks[ptr];
      assert ChunkOk(ptr, c, shadow.Length) && ChunkShadow(shadow[..], ptr, c) && HeaderOk(headers, ptr, c);
      Up16Is(c.size);
      hide Up16, AndNot;
      HeaderReadable(shadow[..], ptr);
      if c.state.Live? {
        LiveStorePasses(shadow[..], ptr, c.size);
      } else {
        FreedStoreCaught(shadow[..], ptr, c.size);
      }
      var p := ptr - HEADER_SIZE;
      aborted := IsPoison(shadow, p, MARK_SIZE, signedChar);
      if !aborted {
        aborted := IsPoison(shadow, ptr, headers[p].requestedSize, signedChar);
      }
    }

    /**
      Puts a chunk into the quarantine unless it is too large or the lock is taken, and links the newest entry to it.
      The byte count is never raised, so the eviction loop never runs.
     */
    method QuarantinePush(p: nat, lockBusy: bool) returns (kept: bool)
      requires quarantineBytes == 0 && p in headers
      modifies this`quarantine, this`headers, this`data
      ensures kept <==> FreedState(old(headers)[p].requestedSize, lockBusy).Quarantined?
      ensures quarantine == if kept then [p] + old(quarantine) else old(quarantine)
      ensures headers == if kept then HeadersAfterPush(old(headers), old(quarantine), p) else old(headers)
      ensures data == if kept then DataAfterPush(old(data), old(quarantine), p) else old(data)
    {
      if headers[p].requestedSize >= QUARANTINE_MAX_BYTES {
        return false;
      }
      if lockBusy {
        return false;
      }
      assert !(headers[p].requestedSize + quarantineBytes >= QUARANTINE_MAX_BYTES);
      if quarantine != [] {
        headers, data := LinkedHeaders(headers, LinkOf(quarantine), p), LinkedData(data, LinkOf(quarantine), p);
      }
      quarantine := [p] + quarantine;
      kept := true;
    }

    /**
      Frees a chunk; `lockBusy` tells whether the quarantine lock is taken. `returned` is the address given back to the
      backend, 0 if the chunk is held back. The program can free a chunk again that is held back; if it has fewer than
      8 bytes, this goes unnoticed. Layout and shadow stay right whatever happens. The other headers stay right if and
      only if the link that a push writes spares them, which it does while the newest entry is held back.
     */
    method Free(ptr: nat, lockBusy: bool) returns (outcome: FreeOutcome, returned: nat)
      requires Valid()
      requires ptr != 0 ==> HeaderKept(ptr) && !chunks[ptr].state.Returned?
      modifies this`quarantine, this`chunks, this`headers, this`data, this`closed, shadow
      ensures Valid()
      ensures outcome == if ptr == 0 then NothingFreed else if FreeCaught(old(chunks)[ptr]) then FreeAborted else Freed
      ensures !outcome.Freed? ==>
                && returned == 0 && chunks == old(chunks) && quarantine == old(quarantine) && headers == old(headers)
                && data == old(data) && closed == old(closed) && shadow[..] == old(shadow[..])
      ensures outcome.Freed? ==>
                (ptr in chunks && chunks[ptr].state.Quarantined? <==> old(chunks)[ptr].size < 0x320_0000 && !lockBusy)
      ensures outcome.Freed? ==>
                var (c, p) := (old(chunks)[ptr], ptr - HEADER_SIZE);
                var state := FreedState(c.size, lockBusy);
                && chunks == old(chunks)[ptr := c.(state := state)]
                && returned == (if state.Quarantined? then 0 else c.orig)
                && quarantine == (if state.Quarantined? then [p] + old(quarantine) else old(quarantine))
                && headers ==
                   (if state.Quarantined? then HeadersAfterPush(old(headers), old(quarantine), p) else old(headers))
                && data == (if state.Quarantined? then DataAfterPush(old(data), old(quarantine), p) else old(data))
                && closed == old(closed) + UserBytes(ptr, c.size)
      ensures old(AllHeadersKept()) ==>
                (AllHeadersKept() <==>
                    Pushed(outcome, returned) ==> PushSpares(chunks, old(quarantine), ptr - HEADER_SIZE))
      ensures old(TopHeld()) && Pushed(outcome, returned) ==>
                && PushSpares(chunks, old(quarantine), ptr - HEADER_SIZE)
                && forall v :: v in chunks ==> PushMisses(old(quarantine), v, chunks[v].size)
      ensures old(TopHeld()) ==> (TopHeld() <==> !(outcome.Freed? && lockBusy && IsTop(old(quarantine), ptr)))
      ensures old(ListOk()) && (ptr == 0 || old(chunks)[ptr].state.Live? || outcome.FreeAborted?) ==> ListOk()
    {
      hide Up16, AndNot, AfterFree, LiveShadow, FreedShadow, StillClosed, UserBytes;
      returned := 0;
      if ptr == 0 {
        return NothingFreed, 0;
      }
      ghost var c := chunks[ptr];
      var aborted := CheckFree(ptr);
      if aborted {
        return FreeAborted, 0;
      }
      assert ChunkOk(ptr, c, shadow.Length) && ChunkShadow(shadow[..], ptr, c) && HeaderOk(headers, ptr, c);
      hide ChunkOk, ChunkShadow;
      var p := ptr - HEADER_SIZE;
      var n := headers[p].requestedSize;
      var kept := QuarantinePush(p, lockBusy);
      if !kept {
        returned := if headers[p].alignedOrig != 0 then headers[p].alignedOrig else p;
      }
      ghost var state := FreedState(n, lockBusy);
      chunks := chunks[ptr := c.(state := state)];
      CloseUserBytes(ptr, n, c);
      closed := closed + UserBytes(ptr, n);
      FreeKeepsClosed(old(shadow[..]), old(closed), ptr, c);
      FreeKeepsLayout(old(chunks), ptr, state, shadow.Length);
      FreeKeepsShadows(old(shadow[..]), old(chunks), ptr, state);
      FreeKeepsTheRest(old(chunks), old(headers), old(quarantine), ptr, state, shadow.Length);
      hide Layout, ShadowsOk, HeadersOk, QuarantineOk, PushSpares, PushMisses, HeadersAfterPush, DataAfterPush,
           StillClosed;
      outcome := Freed;
    }

    /** Closes the user bytes of a freed chunk. */
    method CloseUserBytes(ptr: nat, n: nat, ghost c: Chunk)
      requires ChunkOk(ptr, c, shadow.Length) && n == c.size
      modifies shadow
      ensures shadow[..] == AfterFree(old(shadow[..]), ptr, n)
    {
      hide Up16, AndNot, PoisonedShadow;
      EndAligned(ptr, n);
      var _ := Poison(shadow, ptr, Up16(n), HEAP_FREED);
    }

    /**
      Moves a chunk: the new one keeps as much of the contents as fits, the rest is 0xff, and the old one is freed. A
      chunk that is held back is copied as well before the free catches it, if it does. Layout and shadow stay right
      whatever happens; contents and other headers can only change where the free writes a link.
     */
    method Realloc(ptr: nat, size: nat, block: nat, lockBusy: bool) returns (outcome: ReallocOutcome)
      requires Valid()
      requires block != 0 ==> BackendBlock(chunks, block, BackendSize(size), shadow.Length)
      requires ptr != 0 ==> HeaderKept(ptr) && !chunks[ptr].state.Returned?
      modifies this`headers, this`data, this`chunks, this`quarantine, this`closed, shadow
      ensures Valid()
      ensures MoveOk(old(View()), Move(ptr, size, block))
      ensures (View(), outcome) == MoveSpec(old(View()), Move(ptr, size, block), lockBusy)
      ensures outcome == if block == 0 then NotMoved
                         else if ptr != 0 && FreeCaught(old(chunks)[ptr]) then ReallocAborted
                         else Moved(block + HEADER_SIZE)
      ensures outcome.Moved? && ptr != 0 ==>
                var c := old(chunks)[ptr];
                ptr in chunks && chunks[ptr] == c.(state := FreedState(c.size, lockBusy))
      ensures block == 0 ==> shadow[..] == old(shadow[..])
      ensures block != 0 ==> ContentsKept(old(View()), Move(ptr, size, block), lockBusy, View())
      ensures old(AllHeadersKept()) ==>
                (AllHeadersKept() <==>
                   Links(old(View()), Move(ptr, size, block), lockBusy) ==>
                     PushSpares(chunks, old(quarantine), ptr - HEADER_SIZE))
      ensures old(TopHeld()) ==>
                && (old(AllHeadersKept()) ==> AllHeadersKept())
                && forall v :: v in chunks ==> PushMisses(old(quarantine), v, chunks[v].size)
      ensures old(TopHeld()) ==> (TopHeld() <==> !(outcome.Moved? && lockBusy && IsTop(old(quarantine), ptr)))
      ensures old(ListOk()) && (ptr == 0 || old(chunks)[ptr].state.Live? || !outcome.Moved?) ==> ListOk()
    {
      assert ptr != 0 ==> ptr >= HEADER_SIZE;
      ghost var m := Move(ptr, size, block);
      hide Layout, ShadowsOk, HeadersOk, QuarantineOk, TopOk, Up16, AndNot, Place, BackendBlock, PushSpares, PushMisses,
           HeadersAfterPush, DataAfterPush, HeaderOk, ContentsKept, Copy, BackendSize, StillClosed, Uncovered,
           UserBytes;
      if block == 0 {
        TopHeldMisses();
        var _ := Malloc(size, block);
        return NotMoved;
      }
      MoveKeepsContents(View(), m, lockBusy, shadow.Length);
      var _ := MallocAndCopy(ptr, size, block);
      TopHeldMisses();
      if ptr == 0 {
        return Moved(block + HEADER_SIZE);
      }
      var freed, returned := Free(ptr, lockBusy);
      outcome := if freed.FreeAborted? then ReallocAborted else Moved(block + HEADER_SIZE);
    }

    lemma TopHeldMisses()
      requires Valid()
      ensures TopHeld() ==> forall v :: v in chunks ==> PushMisses(quarantine, v, chunks[v].size)
    {
      if TopHeld() {
        HeldTopIsSafe(chunks, quarantine, 0, shadow.Length);
      }
    }

    /** The allocation and the copy: all chunks that were not given back stay as they are. */
    method MallocAndCopy(ptr: nat, size: nat, block: nat) returns (p: nat)
      requires Valid() && block != 0 && BackendBlock(chunks, block, BackendSize(size), shadow.Length)
      requires ptr != 0 ==> HeaderKept(ptr) && !chunks[ptr].state.Returned?
      modifies this`headers, this`data, this`chunks, this`closed, shadow
      ensures Valid() && TopHeld() == old(TopHeld()) && (old(ListOk()) ==> ListOk())
      ensures old(AllHeadersKept()) ==> AllHeadersKept()
      ensures p == block + HEADER_SIZE && p != ptr && (ptr != 0 ==> HeaderKept(ptr))
      ensures MoveOk(old(View()), Move(ptr, size, block))
      ensures View() == Copy(old(View()), Move(ptr, size, block))
      ensures p in chunks && chunks[p] == Chunk(block, BackendSize(size), size, Live)
      ensures Bytes(data, p, size) == if ptr == 0 then seq(size, _ => 0xff)
                                      else Resized(old(data), ptr, old(chunks)[ptr].size, size)
      ensures forall v :: v in old(chunks) && !old(chunks)[v].state.Returned? ==>
                            && v in chunks && chunks[v] == old(chunks)[v]
                            && Bytes(data, v, chunks[v].size) == Bytes(old(data), v, chunks[v].size)
    {
      assert ptr != 0 ==> ptr >= HEADER_SIZE && HeaderOk(headers, ptr, chunks[ptr]);
      CopyKeepsContents(View(), Move(ptr, size, block), shadow.Length);
      hide Layout, ShadowsOk, HeadersOk, QuarantineOk, TopOk, Up16, AndNot, Place, BackendBlock, Bytes, Resized,
           BackendSize, StillClosed, Uncovered;
      p := Malloc(size, block);
      if ptr == 0 {
        return;
      }
      var n := headers[ptr - HEADER_SIZE].requestedSize;
      if size < n {
        n := size;
      }
      data := Copied(data, p, ptr, n);
    }
  }

  /** What a free leaves of the headers and the list. */
  lemma FreeKeepsTheRest(chunks: Chunks, headers: map<nat, Header>, quarantine: seq<nat>, u: nat, state: ChunkState,
                         blocks: nat)
    requires u in chunks && !chunks[u].state.Returned? && !state.Live? && u >= HEADER_SIZE && Layout(chunks, blocks)
    ensures var (chunks', p) := (chunks[u := chunks[u].(state := state)], u - HEADER_SIZE);
            && (HeadersOk(headers, chunks) ==> HeadersOk(headers, chunks'))
            && (HeadersOk(headers, chunks) ==>
                  (HeadersOk(HeadersAfterPush(headers, quarantine, p), chunks') <==>
                      PushSpares(chunks', quarantine, p)))
            && (TopOk(quarantine, chunks) ==>
                  && PushSpares(chunks', quarantine, p)
                  && forall v :: v in chunks' ==> PushMisses(quarantine, v, chunks'[v].size))
            && (QuarantineOk(quarantine, chunks) && chunks[u].state.Live? ==>
                  QuarantineOk(if state.Quarantined? then [p] + quarantine else quarantine, chunks'))
  {
    hide Layout;
    var chunks', p := chunks[u := chunks[u].(state := state)], u - HEADER_SIZE;
    if HeadersOk(headers, chunks) {
      FreeKeepsHeaders(chunks, headers, u, state);
      PushKeepsHeadersIff(headers, chunks', quarantine, p);
    }
    if TopOk(quarantine, chunks) {
      HeldTopIsSafe(chunks, quarantine, p, blocks);
    }
    if QuarantineOk(quarantine, chunks) && chunks[u].state.Live? {
      FreeKeepsQuarantine(chunks, quarantine, u, state);
    }
    hide HeadersOk, QuarantineOk, TopOk, HeadersAfterPush, PushMisses;
  }

  // ----- a link that hits another chunk -----

  /**
    The condition that the newest entry is held back is needed. A chunk of one byte is freed, freed again unnoticed
    while the lock is taken, and its block is handed out again (`ReturnedTop`, `ReusedBlock`): the next free writes its
    link into the user bytes of the chunk that got the block.
   */
  method StrayLink() returns (h: Heap)
    ensures fresh(h) && h.Valid()
    ensures 336 in h.chunks && h.chunks[336].state.Live? && h.chunks[336].size == 64
    ensures Bytes(h.data, 336, 64) != seq(64, _ => 0xff)
  {
    h := ReusedBlock();
    FreeChangesContents(h);
  }

  /** Freeing the chunk at 800 changes the user bytes of the chunk at 336, which is in use. */
  method FreeChangesContents(h: Heap)
    requires h.Valid() && h.quarantine == [320] && h.HeaderKept(800)
    requires h.chunks == map[336 := Chunk(176, 360, 64, Live), 800 := Chunk(640, 312, 1, Live)]
    requires Bytes(h.data, 336, 64) == seq(64, _ => 0xff)
    modifies h, h.shadow
    ensures h.Valid() && 336 in h.chunks && h.chunks[336] == old(h.chunks)[336]
    ensures Bytes(h.data, 336, 64) != old(Bytes(h.data, 336, 64))
  {
    hide Layout, ShadowsOk, TopOk, QuarantineOk, PushSpares, PushMisses, HeadersOk, Bytes, AddressByte;
    var freed, returned := h.Free(800, false);
    LinkInContents(h.data, 336);
  }

  /** The block of that entry has been handed out again, and another chunk is in use. */
  method ReusedBlock() returns (h: Heap)
    ensures fresh(h) && fresh(h.shadow) && h.Valid() && h.quarantine == [320] && h.HeaderKept(800)
    ensures h.chunks == map[336 := Chunk(176, 360, 64, Live), 800 := Chunk(640, 312, 1, Live)]
    ensures Bytes(h.data, 336, 64) == seq(64, _ => 0xff)
  {
    h := BlockTwice();
    BackendSizeIs(1, 1);
    PlaceSecond(336, Chunk(176, 360, 64, Live), 800, Chunk(640, 312, 1, Live));
    hide Layout, ShadowsOk, TopOk, QuarantineOk, HeadersOk, StillClosed, Uncovered, Place, Bytes, BackendSize, Up16,
         AndNot;
    var other := h.Malloc(1, 640);
    FilledBytes(h.data, 336, 64);
  }

  /** The block of that entry has been handed out again. */
  method BlockTwice() returns (h: Heap)
    ensures fresh(h) && fresh(h.shadow) && h.Valid() && h.quarantine == [320] && h.shadow.Length == 120
    ensures h.chunks == map[336 := Chunk(176, 360, 64, Live)]
    ensures forall a: nat :: 336 <= a < 400 ==> h.data(a) == 0xff
  {
    h := ReturnedTop();
    BackendSizeIs(64, 4);
    hide Layout, ShadowsOk, TopOk, QuarantineOk, HeadersOk, StillClosed, Uncovered, Bytes, BackendSize, Up16, AndNot;
    var q := h.Malloc(64, 176);
  }

  lemma PlaceSecond(u: nat, c: Chunk, v: nat, d: Chunk)
    requires u != v && Disjoint(c, d)
    ensures Place(map[u := c], v, d) == map[u := c, v := d]
    ensures forall blocks: nat ::
              d.orig > 0 && d.orig % 16 == 0 && d.orig + d.total + 8 <= 8 * blocks ==>
                BackendBlock(map[u := c], d.orig, d.total, blocks)
  {
  }

  lemma FilledBytes(data: Memory, at: nat, len: nat)
    requires forall a: nat :: at <= a < at + len ==> data(a) == 0xff
    ensures Bytes(data, at, len) == seq(len, _ => 0xff)
  {
  }

  /** A heap with one chunk of one byte in use; its header is at 320. */
  method OneChunk() returns (h: Heap)
    ensures fresh(h) && fresh(h.shadow) && h.Valid() && h.AllHeadersKept() && h.TopHeld() && h.shadow.Length == 120
    ensures h.chunks == map[480 := Chunk(320, 312, 1, Live)] && h.quarantine == []
  {
    BackendSizeIs(1, 1);
    hide Up16, AndNot, BackendSize;
    h := new Heap(120, false);
    PlaceFirst(480, Chunk(320, 312, 1, Live));
    hide Place, Layout, ShadowsOk, HeadersOk, TopOk, QuarantineOk;
    var p := h.Malloc(1, 320);
  }

  lemma PlaceFirst(u: nat, c: Chunk)
    ensures Place(map[], u, c) == map[u := c]
    ensures forall orig: nat, total: nat, blocks: nat ::
              orig > 0 && orig % 16 == 0 && orig + total + 8 <= 8 * blocks ==> BackendBlock(map[], orig, total, blocks)
  {
  }

  /** A heap whose newest quarantine entry, the header at 320, has been given back. */
  method ReturnedTop() returns (h: Heap)
    ensures fresh(h) && fresh(h.shadow) && h.Valid() && h.AllHeadersKept() && h.shadow.Length == 120
    ensures h.chunks == map[480 := Chunk(320, 312, 1, Returned)] && h.quarantine == [320]
  {
    h := OneChunk();
    hide Layout, ShadowsOk, TopOk, QuarantineOk, PushSpares, PushMisses, HeadersAfterPush, DataAfterPush;
    assert h.HeaderKept(480);
    var first, r1 := h.Free(480, false);
    assert h.chunks[480] == Chunk(320, 312, 1, Quarantined) && h.quarantine == [320];
    assert h.AllHeadersKept() && h.HeaderKept(480);
    hide HeadersOk;
    var again, r2 := h.Free(480, true);
  }

  lemma BackendSizeIs(size: nat, k: nat)
    requires (size + 15) / 16 == k
    ensures BackendSize(size) == STRUCT_SIZE + 16 * k
  {
    Up16Is(size);
    hide Up16;
  }

  /** The link at 344 lies in the 64 bytes at 336; header address 640 is written there. */
  lemma LinkInContents(data: Memory, q: nat)
    requires q == 336 && data(344) == AddressByte(640, 0)
    ensures Bytes(data, q, 64) != seq(64, _ => 0xff)
  {
    assert AddressByte(640, 0) == 128;
    assert Bytes(data, q, 64)[8] == data(344);
  }

  /** The arguments of the three shadow calls for a new chunk. */
  method RedzoneRange(orig: nat, total: nat, u: nat, size: nat, blocks: nat) returns (rightLen: nat, rightEnd: nat)
    requires ChunkOk(u, Chunk(orig, total, size, Live), blocks)
    ensures orig % 8 == 0 && 0 < total && orig + total < 8 * blocks
    ensures u >= HEADER_SIZE && u % 8 == 0 && u <= 8 * blocks
    ensures rightEnd == u + Up16(size) + REDZONE_SIZE && rightEnd == u + size + rightLen
    ensures rightLen == Up16(size) - size + REDZONE_SIZE
    ensures 0 < rightLen && rightEnd % 8 == 0 && rightEnd <= 8 * blocks
  {
    EndAligned(u, size);
    MultipleOfMultiple(orig, 16, 8);
    hide Up16, AndNot;
    rightLen, rightEnd := Up16(size) - size + REDZONE_SIZE, u + Up16(size) + REDZONE_SIZE;
  }

  lemma NewShadowSteps(k: seq<Byte>, unpoisoned: seq<Byte>, orig: nat, total: nat, u: nat, size: nat)
    requires u >= REDZONE_SIZE && unpoisoned == UnpoisonedShadow(k, orig, orig + total)
    ensures NewShadow(k, orig, total, u, size) ==
            PoisonedShadow(PoisonedShadow(unpoisoned, u - REDZONE_SIZE, u, HEAP_LEFT_RZ),
                           u + size, u + Up16(size) + REDZONE_SIZE, HEAP_RIGHT_RZ)
  {
    hide UnpoisonedShadow, PoisonedShadow, Up16;
  }

  lemma PlainChunkOk(block: nat, size: nat, blocks: nat)
    requires block > 0 && block % 16 == 0 && block + BackendSize(size) + 8 <= 8 * blocks
    ensures ChunkOk(block + HEADER_SIZE, Chunk(block, BackendSize(size), size, Live), blocks)
  {
    PlainLayout(block, size);
    MultipleOfMultiple(block, 16, 8);
    SumOfMultiples(block, HEADER_SIZE, 8);
    hide BackendSize, Up16, AndNot;
  }

  lemma PlacedChunk(chunks: Chunks, u: nat, c: Chunk, blocks: nat)
    requires Layout(chunks, blocks) && BackendBlock(chunks, c.orig, c.total, blocks)
    requires Layout(Place(chunks, u, c), blocks)
    ensures u in Place(chunks, u, c) && Place(chunks, u, c)[u] == c
    ensures forall v :: v in chunks && !chunks[v].state.Returned? ==>
                          v != u && v in Place(chunks, u, c) && Place(chunks, u, c)[v] == chunks[v]
  {
    assert ChunkOk(u, Place(chunks, u, c)[u], blocks);
    PlaceKeepsLayout(chunks, u, c, blocks);
  }

  /** Writing the user bytes of one chunk leaves the contents of the others alone. */
  lemma OthersKeepContents(chunks: Chunks, p: nat, data: Memory, data': Memory, blocks: nat)
    requires Layout(chunks, blocks) && p in chunks
    requires forall a: nat :: !(p <= a < p + chunks[p].size) ==> data'(a) == data(a)
    ensures forall v :: v in chunks && v != p ==> Bytes(data', v, chunks[v].size) == Bytes(data, v, chunks[v].size)
  {
    forall v | v in chunks && v != p ensures Bytes(data', v, chunks[v].size) == Bytes(data, v, chunks[v].size) {
      UserRangesApart(chunks, v, p, blocks);
      ContentsElsewhere(data, data', v, chunks[v].size, p, p + chunks[p].size);
    }
  }

  /** The user bytes of two chunks are disjoint. */
  lemma UserRangesApart(chunks: Chunks, u: nat, v: nat, blocks: nat)
    requires Layout(chunks, blocks) && u in chunks && v in chunks && u != v
    ensures u + chunks[u].size <= v || v + chunks[v].size <= u
  {
    assert ChunkOk(u, chunks[u], blocks) && ChunkOk(v, chunks[v], blocks) && Disjoint(chunks[u], chunks[v]);
    Up16Is(chunks[u].size);
    Up16Is(chunks[v].size);
    hide Up16, AndNot;
  }

  /** The rounded end of a chunk's user bytes lies on a block boundary. */
  lemma EndAligned(u: nat, size: nat)
    requires u % 8 == 0
    ensures (u + Up16(size)) % 8 == 0 && (u + Up16(size) + REDZONE_SIZE) % 8 == 0
    ensures size <= Up16(size) && (size == 0 <==> Up16(size) == 0)
  {
    hide AndNot;
    Up16Is(size);
    hide Up16;
    ModUnique(u + Up16(size), 8, u / 8 + 2 * ((size + 15) / 16), 0);
    ModUnique(u + Up16(size) + REDZONE_SIZE, 8, u / 8 + 2 * ((size + 15) / 16) + 16, 0);
  }

  /** After a free, the first or another one, the shadow is right for the freed chunk and unchanged for the others. */
  lemma FreeKeepsShadows(k: seq<Byte>, chunks: Chunks, u: nat, state: ChunkState)
    requires Layout(chunks, |k|) && ShadowsOk(k, chunks) && u in chunks && !state.Live?
    ensures ShadowsOk(AfterFree(k, u, chunks[u].size), chunks[u := chunks[u].(state := state)])
  {
    var chunks' := chunks[u := chunks[u].(state := state)];
    var k' := AfterFree(k, u, chunks[u].size);
    assert ChunkOk(u, chunks[u], |k|) && ChunkShadow(k, u, chunks[u]);
    AfterFreeOk(k, u, chunks[u]);
    hide Up16, AndNot, AfterFree, LiveShadow, FreedShadow;
    forall v | v in chunks' ensures ChunkShadow(k', v, chunks'[v]) {
      if v != u {
        assert ChunkOk(v, chunks[v], |k|) && ChunkShadow(k, v, chunks[v]) && Disjoint(chunks[v], chunks[u]);
        ChunkShadowLocal(k, k', v, chunks[v]);
      }
    }
  }
}
