/**
  The chunk layout of the guest allocator, on plain values: where header, redzones and user bytes lie inside a
  backend block, and what the shadow says about them.
 */
module QasanLayout {
  import opened Common
  import opened Bits
  import opened QasanShadow

  const REDZONE_SIZE: nat := 128
  /** The size of the chunk header with the left redzone at its end. */
  const HEADER_SIZE: nat := 160
  /** The size of the chunk header without the left redzone. */
  const MARK_SIZE: nat := 32
  /** Header, right redzone and the trailing padding word. */
  const STRUCT_SIZE: nat := 296
  /** The alignment of `max_align_t`. */
  const MAX_ALIGN: nat := 16

  datatype ChunkState = Live | Quarantined | Returned

  /** A chunk: its backend block, the requested size, and whether it is in use, held back, or given back. */
  datatype Chunk = Chunk(orig: nat, total: nat, size: nat, state: ChunkState)

  /** Chunks by the address handed to the program. */
  type Chunks = map<nat, Chunk>

  function Up16(size: nat): nat {
    AlignUp(size, MAX_ALIGN)
  }

  lemma Up16Is(size: nat)
    ensures size <= Up16(size) < size + 16 && Up16(size) % 16 == 0
    ensures Up16(size) == 16 * ((size + 15) / 16)
  {
    assert Pow2(4) == 16;
    AlignUpPow2(size, 16, 4);
    AlignDownPow2(size + 15, 16, 4);
    hide AlignUp;
  }

  /** The number of bytes requested from the backend for a chunk with `size` bytes behind the header. */
  function BackendSize(size: nat): nat {
    STRUCT_SIZE + Up16(size)
  }

  // ----- layout -----

  /** Header, user bytes and right redzone lie inside the block, and one more shadow byte exists behind it. */
  ghost predicate ChunkOk(u: nat, c: Chunk, blocks: nat) {
    && c.orig > 0 && c.orig % 16 == 0 && c.total % 16 == 8 && u % 8 == 0
    && c.orig + HEADER_SIZE <= u && u + Up16(c.size) + REDZONE_SIZE <= c.orig + c.total
    && c.orig + c.total + 8 <= 8 * blocks
  }

  predicate Disjoint(c: Chunk, d: Chunk) {
    c.orig + c.total <= d.orig || d.orig + d.total <= c.orig
  }

  ghost predicate Layout(chunks: Chunks, blocks: nat) {
    && (forall u {:trigger ChunkOk(u, chunks[u], blocks)} :: u in chunks ==> ChunkOk(u, chunks[u], blocks))
    && (forall u, v {:trigger Disjoint(chunks[u], chunks[v])} ::
          u in chunks && v in chunks && u != v ==> Disjoint(chunks[u], chunks[v]))
  }

  /** A plain chunk: the header begins where the block begins. */
  lemma PlainLayout(orig: nat, size: nat)
    ensures orig + HEADER_SIZE + Up16(size) + REDZONE_SIZE + 8 == orig + BackendSize(size)
    ensures BackendSize(size) % 16 == 8
  {
    hide Up16, AndNot;
    Up16Is(size);
  }

  /** Where the user bytes of an aligned chunk begin. */
  function AlignedData(orig: nat, align: nat): nat
    requires align > 0
  {
    var data := orig + HEADER_SIZE;
    data + (align - data % align)
  }

  /** How far the user bytes of an aligned chunk are moved: by a positive multiple of 8, at most the alignment. */
  lemma AlignedShift(orig: nat, align: nat)
    requires orig % 16 == 0 && align > 0 && align % 8 == 0
    ensures var shift := AlignedData(orig, align) - (orig + HEADER_SIZE);
            8 <= shift <= align && shift % 8 == 0 && (align % 16 == 0 ==> shift % 16 == 0)
    ensures AlignedData(orig, align) % align == 0
  {
    var data := orig + HEADER_SIZE;
    var m := NextMultiple(data, align);
    MultipleOfMultiple(m, align, 8);
    DifferenceOfMultiples(m, data, 8);
    LeastMultiple(m - data, 8);
    if align % 16 == 0 {
      MultipleOfMultiple(m, align, 16);
      DifferenceOfMultiples(m, data, 16);
    }
  }

  /** The first multiple of `align` above `data`. */
  lemma NextMultiple(data: nat, align: nat) returns (m: nat)
    requires align > 0
    ensures m == data + (align - data % align) && m % align == 0
    ensures data < m <= data + align
  {
    var q, r := data / align, data % align;
    m := align * q + align;
    ModUnique(m, align, q + 1, 0);
  }

  lemma DivShift(x: nat, t: nat)
    ensures (x + 16 * t) / 16 == x / 16 + t
  {
    ModUnique(x + 16 * t, 16, x / 16 + t, x % 16);
  }

  /** A multiple of 8 that is not one of 16 is an odd multiple of 8. */
  lemma OddMultiple(align: nat)
    requires align % 8 == 0 && align % 16 != 0
    ensures align % 16 == 8
  {
  }

  lemma OddMultipleNot(align: nat)
    requires align % 8 == 0 && align % 16 != 8
    ensures align % 16 == 0
  {
  }

  /** Rounding a length up loses at most 8 bytes against rounding it up together with a multiple of 8. */
  lemma Up16Sum(len: nat, align: nat)
    requires align % 8 == 0
    ensures Up16(len) + align <= Up16(len + align) + 8
    ensures align % 16 == 0 ==> Up16(len) + align == Up16(len + align)
  {
    hide Up16, AndNot;
    Up16Is(len);
    Up16Is(len + align);
    var t := align / 16;
    if align % 16 == 0 {
      assert align == 16 * t;
      DivShift(len + 15, t);
      assert Up16(len + align) == 16 * ((len + 15) / 16 + t);
    } else {
      OddMultiple(align);
      assert align == 16 * t + 8;
      DivShift(len + 23, t);
      assert Up16(len + align) == 16 * ((len + 23) / 16 + t);
      assert (len + 23) / 16 >= (len + 15) / 16;
    }
  }

  /**
    An aligned chunk: for every length and every accepted alignment the result is a multiple of the alignment, the
    header begins at least 8 bytes behind the start of the block, and the right redzone ends inside the block.
   */
  lemma AlignedLayout(orig: nat, align: nat, len: nat)
    requires orig % 16 == 0 && align > 0 && align % 8 == 0
    ensures var data := AlignedData(orig, align);
            && data % align == 0 && data % 8 == 0
            && orig + 8 <= data - HEADER_SIZE
            && data + Up16(len) + REDZONE_SIZE <= orig + BackendSize(len + align)
    ensures BackendSize(len + align) % 16 == 8
  {
    hide Up16, AndNot, AlignedData;
    AlignedShift(orig, align);
    Up16Sum(len, align);
    PlainLayout(orig, len + align);
    MultipleOfMultiple(AlignedData(orig, align), align, 8);
    hide BackendSize;
  }

  /** The header of an aligned chunk can begin only 8 bytes into the block exactly for odd multiples of 8. */
  lemma HeaderBoundTight(align: nat)
    requires align > 0 && align % 8 == 0
    ensures align % 16 == 8 <==>
            exists orig: nat :: orig % 16 == 0 && AlignedData(orig, align) - HEADER_SIZE == orig + 8
  {
    if align % 16 == 8 {
      var orig := align - 8 + align * 320 - HEADER_SIZE;
      assert orig + HEADER_SIZE == align * 320 + (align - 8);
      ModUnique(orig + HEADER_SIZE, align, 320, align - 8);
      ModUnique(orig, 16, align / 16 + 20 * align - 10, 0);
      assert AlignedData(orig, align) - HEADER_SIZE == orig + 8;
    } else {
      OddMultipleNot(align);
      hide AlignedData;
      forall orig: nat | orig % 16 == 0 ensures AlignedData(orig, align) - HEADER_SIZE != orig + 8 {
        AlignedShift(orig, align);
      }
    }
  }

  /** The right redzone of an aligned chunk can end exactly at the end of the block exactly for odd multiples of 8. */
  lemma RedzoneBoundTight(align: nat)
    requires align > 0 && align % 8 == 0
    ensures align % 16 == 8 <==> exists orig: nat, len: nat :: orig % 16 == 0 && EndsTight(orig, align, len)
  {
    if align % 16 == 8 {
      TightExample(align);
    } else {
      OddMultipleNot(align);
      forall orig: nat, len: nat | orig % 16 == 0 ensures !EndsTight(orig, align, len) {
        NotTight(orig, align, len);
      }
    }
  }

  lemma TightExample(align: nat)
    requires align > 0 && align % 16 == 8
    ensures var orig: int := align * 320 - HEADER_SIZE; orig >= 0 && orig % 16 == 0 && EndsTight(orig, align, 8)
  {
    hide Up16, AndNot;
    var orig := align * 320 - HEADER_SIZE;
    ModUnique(orig + HEADER_SIZE, align, 320, 0);
    assert AlignedData(orig, align) == orig + HEADER_SIZE + align;
    hide AlignedData;
    Up16Is(8);
    Up16Is(8 + align);
    var t := align / 16;
    DivShift(31, t);
    ModUnique(orig, 16, 20 * align - 10, 0);
  }

  lemma NotTight(orig: nat, align: nat, len: nat)
    requires align > 0 && align % 16 == 0 && orig % 16 == 0
    ensures !EndsTight(orig, align, len)
  {
    hide Up16, AndNot, AlignedData;
    MultipleOfMultiple(align, 16, 8);
    AlignedShift(orig, align);
    Up16Sum(len, align);
  }

  /** The right redzone of an aligned chunk ends exactly where its block ends. */
  ghost predicate EndsTight(orig: nat, align: nat, len: nat)
    requires align > 0
  {
    AlignedData(orig, align) + Up16(len) + REDZONE_SIZE == orig + BackendSize(len + align)
  }

  // ----- the shadow of a chunk -----

  /** Shadow bytes `lo` to `hi` all have the value `v`. */
  ghost predicate AllAre(k: seq<Byte>, lo: int, hi: int, v: Byte) {
    0 <= lo && hi <= |k| && forall j :: lo <= j < hi ==> k[j] == v
  }

  /** The shadow of a chunk in use. */
  ghost predicate LiveShadow(k: seq<Byte>, u: nat, size: nat) {
    var b := u / 8;
    && AllAre(k, b - 20, b - 16, 0)
    && AllAre(k, b - 16, b, HEAP_LEFT_RZ)
    && AllAre(k, b, b + size / 8, 0)
    && (size % 8 != 0 ==> AllAre(k, b + size / 8, b + size / 8 + 1, size % 8))
    && AllAre(k, b + (size + 7) / 8, b + Up16(size) / 8 + 16, HEAP_RIGHT_RZ)
  }

  /** The shadow of a freed chunk. */
  ghost predicate FreedShadow(k: seq<Byte>, u: nat, size: nat) {
    var b := u / 8;
    && AllAre(k, b - 20, b - 16, 0)
    && AllAre(k, b, b + Up16(size) / 8, HEAP_FREED)
  }

  ghost predicate ChunkShadow(k: seq<Byte>, u: nat, c: Chunk) {
    if c.state.Live? then LiveShadow(k, u, c.size) else FreedShadow(k, u, c.size)
  }

  lemma ZeroesOpen(k: seq<Byte>, lo: nat, hi: nat)
    requires AllAre(k, lo, hi, 0) && lo <= hi
    ensures AllAccessible(k, 8 * lo, 8 * hi)
  {
  }

  lemma PoisonCloses(k: seq<Byte>, lo: nat, hi: nat, v: Byte)
    requires AllAre(k, lo, hi, v) && v >= 8 && lo <= hi
    ensures NoneAccessible(k, 8 * lo, 8 * hi)
  {
  }

  /** The user bytes of a chunk in use are accessible. */
  lemma LiveUserBytes(k: seq<Byte>, u: nat, size: nat)
    requires u % 8 == 0 && u + size <= 8 * |k| && LiveShadow(k, u, size)
    ensures AllAccessible(k, u, u + size)
  {
    hide Up16, AndNot;
    var b := u / 8;
    ZeroesOpen(k, b, b + size / 8);
    SplitAccessible(k, u, 8 * (b + size / 8), u + size);
    if size % 8 != 0 {
      assert k[b + size / 8] == size % 8;
      PartOfBlock(k, b + size / 8, 8 * (b + size / 8), u + size);
    }
  }

  /** Both redzones of a chunk in use are closed, the right one from the first byte behind the user bytes on. */
  lemma LiveRedzones(k: seq<Byte>, u: nat, size: nat)
    requires u % 8 == 0 && u >= HEADER_SIZE && u + Up16(size) + REDZONE_SIZE <= 8 * |k| && LiveShadow(k, u, size)
    ensures NoneAccessible(k, u - REDZONE_SIZE, u)
    ensures NoneAccessible(k, u + size, u + Up16(size) + REDZONE_SIZE)
  {
    PoisonCloses(k, u / 8 - 16, u / 8, HEAP_LEFT_RZ);
    RightRedzone(k, u, size);
    hide Up16, AndNot;
  }

  lemma RightRedzone(k: seq<Byte>, u: nat, size: nat)
    requires u % 8 == 0 && u + Up16(size) + REDZONE_SIZE <= 8 * |k| && LiveShadow(k, u, size)
    ensures NoneAccessible(k, u + size, u + Up16(size) + REDZONE_SIZE)
  {
    RedzoneBlocks(u, size);
    var first, last := u / 8 + (size + 7) / 8, u / 8 + Up16(size) / 8 + 16;
    PoisonCloses(k, first, last, HEAP_RIGHT_RZ);
    forall a: nat | u + size <= a < u + Up16(size) + REDZONE_SIZE ensures !Accessible(k, a) {
      if a < 8 * first {
        PartialBlock(u, size, a);
        PartialBlockValue(k, u, size);
        hide LiveShadow, Up16, AndNot;
      }
    }
  }

  lemma RedzoneBlocks(u: nat, size: nat)
    requires u % 8 == 0
    ensures 8 * (u / 8 + Up16(size) / 8 + 16) == u + Up16(size) + REDZONE_SIZE
    ensures (size + 7) / 8 <= Up16(size) / 8 + 16
  {
    Up16Is(size);
    hide Up16, AndNot;
    ModUnique(Up16(size), 8, 2 * ((size + 15) / 16), 0);
  }

  /** A byte between the end of the user bytes and the next block boundary lies in the partial block. */
  lemma PartialBlock(u: nat, size: nat, a: nat)
    requires u % 8 == 0 && u + size <= a < 8 * (u / 8 + (size + 7) / 8)
    ensures size % 8 != 0 && a / 8 == u / 8 + size / 8 && a % 8 >= size % 8
  {
    var b, s := u / 8, size / 8;
    ModUnique(a, 8, b + s, a - 8 * (b + s));
  }

  /** The bookkeeping words of a chunk stay accessible. */
  lemma HeaderReadable(k: seq<Byte>, u: nat)
    requires u % 8 == 0 && u >= HEADER_SIZE && u <= 8 * |k| && AllAre(k, u / 8 - 20, u / 8 - 16, 0)
    ensures !Reported(k, u - HEADER_SIZE, MARK_SIZE)
  {
    ZeroesOpen(k, u / 8 - 20, u / 8 - 16);
    ReportExact(k, u - HEADER_SIZE, MARK_SIZE);
  }

  /** All user bytes of a freed chunk are closed. */
  lemma FreedUserBytes(k: seq<Byte>, u: nat, size: nat)
    requires u % 8 == 0 && u + size <= 8 * |k| && FreedShadow(k, u, size)
    ensures NoneAccessible(k, u, u + size)
  {
    hide Up16, AndNot;
    Up16Is(size);
    PoisonCloses(k, u / 8, u / 8 + Up16(size) / 8, HEAP_FREED);
  }

  /** The check of the user bytes passes for a chunk in use. */
  lemma LiveStorePasses(k: seq<Byte>, u: nat, size: nat)
    requires u % 8 == 0 && u + size <= 8 * |k| && LiveShadow(k, u, size)
    ensures !Reported(k, u, size)
  {
    hide Up16, AndNot;
    LiveUserBytes(k, u, size);
    if Reported(k, u, size) {
      ReportSound(k, u, size);
    }
  }

  /** The check of the user bytes catches a freed chunk exactly if it has at least 8 of them. */
  lemma FreedStoreCaught(k: seq<Byte>, u: nat, size: nat)
    requires u % 8 == 0 && u + Up16(size) <= 8 * |k| && u + size <= 8 * |k| && FreedShadow(k, u, size)
    ensures Reported(k, u, size) <==> size >= 8
  {
    if size > 0 {
      FreedAccessCaughtIff(k, u, size, u, u + size);
      WholeRange(u, size);
    }
    hide Up16, AndNot, FreedShadow, AllAccessible;
  }

  lemma WholeRange(u: nat, size: nat)
    requires u % 8 == 0 && size > 0
    ensures (u + size) % 8 == 0 || u < u + size - (u + size) % 8 <==> size >= 8
  {
    EndOfUserBytes(u, size);
  }

  /**
    Which accesses are caught that begin at or behind the first user byte of a chunk in use and end in its right
    redzone: those with an aligned end, those that end in the partial last block of the user bytes, and those whose last
    block begins behind both the start of the access and the first byte behind the user bytes.
   */
  lemma OverrunCaughtIff(k: seq<Byte>, u: nat, size: nat, a: nat, end: nat)
    requires u % 8 == 0 && u >= HEADER_SIZE && u + Up16(size) + REDZONE_SIZE <= 8 * |k| && LiveShadow(k, u, size)
    requires u <= a < end && u + size < end <= u + Up16(size) + REDZONE_SIZE
    ensures Reported(k, a, end - a) <==>
            || end % 8 == 0
            || (end / 8 == (u + size) / 8 && size % 8 != 0)
            || (a < end - end % 8 && u + size < end - end % 8)
  {
    LiveUserBytes(k, u, size);
    LiveRedzones(k, u, size);
    LastBlockValue(k, u, size, end);
    hide Up16, AndNot, LiveShadow;
    var closed := if a < u + size then u + size else a;
    assert !Accessible(k, closed);
    if end % 8 != 0 && !(end / 8 == (u + size) / 8 && size % 8 != 0) && closed < end - end % 8 {
      assert CheckedEnd(k, a, end) == end - end % 8;
    }
  }

  /**
    An access that begins in the user bytes or right behind them and ends behind the right redzone is always caught.
   */
  lemma LongOverrunCaught(k: seq<Byte>, u: nat, size: nat, a: nat, end: nat)
    requires u % 8 == 0 && u >= HEADER_SIZE && u + Up16(size) + REDZONE_SIZE <= 8 * |k| && LiveShadow(k, u, size)
    requires u <= a < end && a <= u + size && u + Up16(size) + REDZONE_SIZE < end <= 8 * |k|
    ensures Reported(k, a, end - a)
  {
    Up16Is(size);
    LiveRedzones(k, u, size);
    hide Up16, AndNot, LiveShadow;
    assert !Accessible(k, u + size);
  }

  /** The shadow of the block that holds an unaligned end in the right redzone. */
  lemma LastBlockValue(k: seq<Byte>, u: nat, size: nat, end: nat)
    requires u % 8 == 0 && u + Up16(size) + REDZONE_SIZE <= 8 * |k| && LiveShadow(k, u, size)
    requires u + size < end <= u + Up16(size) + REDZONE_SIZE
    ensures end % 8 != 0 ==>
              && end / 8 < |k|
              && k[end / 8] == if end / 8 == (u + size) / 8 && size % 8 != 0 then size % 8 else HEAP_RIGHT_RZ
  {
    EndOfUserBytes(u, size);
    RedzoneBlocks(u, size);
    if end % 8 != 0 {
      EndBlock(u, size, end, Up16(size) / 8);
      if end / 8 == (u + size) / 8 && size % 8 != 0 {
        PartialBlockValue(k, u, size);
      }
    }
    hide Up16, AndNot;
  }

  lemma EndBlock(u: nat, size: nat, end: nat, n: nat)
    requires u % 8 == 0 && u + size < end <= 8 * (u / 8 + n + 16) && end % 8 != 0
    ensures end / 8 < u / 8 + n + 16
    ensures !(end / 8 == u / 8 + size / 8 && size % 8 != 0) ==> u / 8 + (size + 7) / 8 <= end / 8
  {
  }

  /** Where the user bytes end. */
  lemma EndOfUserBytes(u: nat, size: nat)
    requires u % 8 == 0
    ensures (u + size) / 8 == u / 8 + size / 8 && (u + size) % 8 == size % 8
  {
    ModUnique(u + size, 8, u / 8 + size / 8, size % 8);
  }

  /** The first byte behind the user bytes is only caught on its own if it lies in a partial block. */
  lemma FirstByteBehindCaughtIff(k: seq<Byte>, u: nat, size: nat)
    requires u % 8 == 0 && u >= HEADER_SIZE && u + Up16(size) + REDZONE_SIZE <= 8 * |k| && LiveShadow(k, u, size)
    ensures u + size < 8 * |k|
    ensures Reported(k, u + size, 1) <==> size % 8 != 0
  {
    Up16Is(size);
    OverrunCaughtIff(k, u, size, u + size, u + size + 1);
    EndOfUserBytes(u, size);
    NextByte(u + size);
    hide Up16, AndNot, LiveShadow, Reported;
  }

  lemma NextByte(a: nat)
    ensures (a + 1) % 8 == 0 <==> a % 8 == 7
    ensures (a + 1) % 8 != 0 ==> (a + 1) / 8 == a / 8
    ensures a + 1 - (a + 1) % 8 > a ==> (a + 1) % 8 == 0
  {
  }

  /**
    An access inside the user bytes of a freed chunk is caught if and only if its end is aligned or it spans a block.
   */
  lemma FreedAccessCaughtIff(k: seq<Byte>, u: nat, size: nat, a: nat, end: nat)
    requires u % 8 == 0 && u + Up16(size) <= 8 * |k| && u + size <= 8 * |k| && FreedShadow(k, u, size)
    requires u <= a < end <= u + size
    ensures Reported(k, a, end - a) <==> end % 8 == 0 || a < end - end % 8
  {
    FreedUserBytes(k, u, size);
    ClosedReportedIff(k, a, end);
    if end % 8 != 0 {
      FreedBlock(k, u, size, end);
    }
    hide Up16, AndNot, FreedShadow, Reported, Accessible;
  }

  lemma FreedBlock(k: seq<Byte>, u: nat, size: nat, end: nat)
    requires u % 8 == 0 && u + Up16(size) <= 8 * |k| && FreedShadow(k, u, size)
    requires u < end <= u + size && end % 8 != 0
    ensures end / 8 < |k| && k[end / 8] == HEAP_FREED
  {
    Up16Is(size);
    hide Up16, AndNot;
    Eighths(Up16(size));
    BlockInside(u, end, Up16(size) / 8);
  }

  lemma BlockInside(u: nat, end: nat, n: nat)
    requires u % 8 == 0 && u < end <= u + 8 * n && end % 8 != 0
    ensures u / 8 <= end / 8 < u / 8 + n
  {
  }

  lemma PartialBlockValue(k: seq<Byte>, u: nat, size: nat)
    requires u % 8 == 0 && u + Up16(size) + REDZONE_SIZE <= 8 * |k| && LiveShadow(k, u, size)
    requires size % 8 != 0
    ensures u / 8 + size / 8 < |k| && k[u / 8 + size / 8] == size % 8
  {
    Up16Is(size);
    hide Up16, AndNot;
  }

  /** Every access that begins in the left redzone of a chunk in use and reaches its user bytes is reported. */
  lemma UnderrunCaught(k: seq<Byte>, u: nat, size: nat, a: nat, end: nat)
    requires u % 8 == 0 && u >= HEADER_SIZE && u + Up16(size) + REDZONE_SIZE <= 8 * |k| && LiveShadow(k, u, size)
    requires u - REDZONE_SIZE <= a < u <= end <= 8 * |k|
    ensures Reported(k, a, end - a)
  {
    LiveRedzones(k, u, size);
    hide Up16, AndNot;
    assert !Accessible(k, u - 1);
  }

  // ----- the shadow after an allocation and after a free -----

  /** The shadow after a block has been opened and the redzones of a chunk in it have been closed. */
  function NewShadow(k: seq<Byte>, orig: nat, total: nat, u: nat, size: nat): seq<Byte>
    requires u >= REDZONE_SIZE
  {
    var unpoisoned := UnpoisonedShadow(k, orig, orig + total);
    var left := PoisonedShadow(unpoisoned, u - REDZONE_SIZE, u, HEAP_LEFT_RZ);
    PoisonedShadow(left, u + size, u + Up16(size) + REDZONE_SIZE, HEAP_RIGHT_RZ)
  }

  /**
    The new chunk gets the shadow of a chunk in use, and nothing outside its block and the 8 bytes behind it changes.
   */
  lemma NewShadowOk(k: seq<Byte>, u: nat, c: Chunk)
    requires ChunkOk(u, c, |k|)
    ensures var k' := NewShadow(k, c.orig, c.total, u, c.size);
            && |k'| == |k| && LiveShadow(k', u, c.size)
            && forall j :: 0 <= j < |k| && (8 * j < c.orig || c.orig + c.total < 8 * j) ==> k'[j] == k[j]
  {
    hide Up16, AndNot, UnpoisonedShadow, PoisonedShadow, ChunkOk;
    var o, e, b, s, r, n := ChunkBlocks(u, c, |k|);
    var k' := NewShadow(k, c.orig, c.total, u, c.size);
    assert u + c.size == 8 * (b + s) + r && u - REDZONE_SIZE == 8 * (b - 16);
    assert u + Up16(c.size) + REDZONE_SIZE == 8 * (b + n + 16);
    NewShadowBlocks(k, o, e, b, s, r, n, k');
  }

  lemma Eighths(x: nat)
    requires x % 16 == 0
    ensures x % 8 == 0 && x == 8 * (x / 8)
  {
    ModUnique(x, 8, 2 * (x / 16), 0);
  }

  /** The 8 bytes behind the block of a new chunk are open afterwards. */
  lemma NewShadowOpensBehind(k: seq<Byte>, u: nat, c: Chunk)
    requires ChunkOk(u, c, |k|)
    ensures var k' := NewShadow(k, c.orig, c.total, u, c.size);
            |k'| == |k| && AllAccessible(k', c.orig + c.total, c.orig + c.total + 8)
  {
    var e := BlockBehind(k, u, c);
    hide NewShadow, ChunkOk, Accessible;
    ZeroesOpen(NewShadow(k, c.orig, c.total, u, c.size), e, e + 1);
  }

  lemma BlockBehind(k: seq<Byte>, u: nat, c: Chunk) returns (e: nat)
    requires ChunkOk(u, c, |k|)
    ensures var k' := NewShadow(k, c.orig, c.total, u, c.size);
            c.orig + c.total == 8 * e && e < |k'| == |k| && k'[e] == 0
  {
    hide Up16, AndNot, UnpoisonedShadow, PoisonedShadow, ChunkOk;
    var o, e', b, s, r, n := ChunkBlocks(u, c, |k|);
    var k' := NewShadow(k, c.orig, c.total, u, c.size);
    assert u + c.size == 8 * (b + s) + r && u - REDZONE_SIZE == 8 * (b - 16);
    assert u + Up16(c.size) + REDZONE_SIZE == 8 * (b + n + 16);
    NewShadowBlocks(k, o, e', b, s, r, n, k');
    e := e';
  }

  /** The chunk measured in blocks. */
  lemma ChunkBlocks(u: nat, c: Chunk, blocks: nat) returns (o: nat, e: nat, b: nat, s: nat, r: nat, n: nat)
    requires ChunkOk(u, c, blocks)
    ensures c.orig == 8 * o && c.orig + c.total == 8 * e && u == 8 * b && c.size == 8 * s + r && Up16(c.size) == 8 * n
    ensures u / 8 == b && c.size / 8 == s && c.size % 8 == r && Up16(c.size) / 8 == n
    ensures (c.size + 7) / 8 == if r == 0 then s else s + 1
    ensures o + 20 <= b && b + n + 16 <= e < blocks && r < 8 && (if r == 0 then s <= n else s < n)
  {
    Up16Is(c.size);
    hide Up16, AndNot;
    Eighths(c.orig);
    Eighths(Up16(c.size));
    o, e, b, s, r, n := c.orig / 8, (c.orig + c.total) / 8, u / 8, c.size / 8, c.size % 8, Up16(c.size) / 8;
    ModUnique(c.total, 8, 2 * (c.total / 16) + 1, 0);
    SumOfMultiples(c.orig, c.total, 8);
    ModUnique(c.size + 7, 8, if r == 0 then s else s + 1, if r == 0 then 7 else r - 1);
  }

  /** The new shadow, block by block: `b` is the first user block, `s` full blocks and `r` bytes are used. */
  lemma NewShadowBlocks(k: seq<Byte>, o: nat, e: nat, b: nat, s: nat, r: nat, n: nat, k': seq<Byte>)
    requires o + 20 <= b && b + n + 16 <= e < |k| && r < 8 && (if r == 0 then s <= n else s < n)
    requires var k1 := UnpoisonedShadow(k, 8 * o, 8 * e);
             var k2 := PoisonedShadow(k1, 8 * (b - 16), 8 * b, HEAP_LEFT_RZ);
             k' == PoisonedShadow(k2, 8 * (b + s) + r, 8 * (b + n + 16), HEAP_RIGHT_RZ)
    ensures |k'| == |k|
    ensures forall j :: 0 <= j < |k| ==>
              k'[j] == if r != 0 && j == b + s then r
                       else if b + s <= j < b + n + 16 then HEAP_RIGHT_RZ
                       else if b - 16 <= j < b then HEAP_LEFT_RZ
                       else if o <= j <= e then 0
                       else k[j]
  {
    ModUnique(8 * (b + s) + r, 8, b + s, r);
  }

  /** The shadow after the user bytes of a chunk have been closed. */
  function AfterFree(k: seq<Byte>, u: nat, size: nat): seq<Byte> {
    if size == 0 then k else PoisonedShadow(k, u, u + Up16(size), HEAP_FREED)
  }

  lemma AfterFreeOk(k: seq<Byte>, u: nat, c: Chunk)
    requires ChunkOk(u, c, |k|) && ChunkShadow(k, u, c)
    ensures var k' := AfterFree(k, u, c.size);
            && |k'| == |k| && FreedShadow(k', u, c.size)
            && forall j :: 0 <= j < |k| && (8 * j < c.orig || c.orig + c.total <= 8 * j) ==> k'[j] == k[j]
  {
    hide Up16, AndNot;
    Up16Is(c.size);
    assert c.size == 0 ==> Up16(c.size) == 0;
  }

  /** The shadow of a chunk only depends on the shadow bytes of its own block. */
  lemma ChunkShadowLocal(k: seq<Byte>, k': seq<Byte>, u: nat, c: Chunk)
    requires |k'| == |k| && ChunkOk(u, c, |k|) && ChunkShadow(k, u, c)
    requires forall j :: c.orig <= 8 * j < c.orig + c.total ==> k'[j] == k[j]
    ensures ChunkShadow(k', u, c)
  {
    hide Up16, AndNot;
    Up16Is(c.size);
  }

  // ----- the chunks after an allocation -----

  /** The chunks after a new one has been placed: given-back chunks whose block is handed out again are forgotten. */
  function Place(chunks: Chunks, u: nat, c: Chunk): Chunks {
    (map v | v in chunks && Disjoint(chunks[v], c) :: chunks[v])[u := c]
  }

  /** The backend hands out a block that shares no byte with a chunk that is in use or held back. */
  ghost predicate BackendBlock(chunks: Chunks, orig: nat, total: nat, blocks: nat) {
    && orig > 0 && orig % 16 == 0 && orig + total + 8 <= 8 * blocks
    && forall v :: v in chunks && !chunks[v].state.Returned? ==> Disjoint(chunks[v], Chunk(orig, total, 0, Live))
  }

  /** Placing a chunk in a block of the backend keeps the layout and forgets no chunk that is in use or held back. */
  lemma PlaceKeepsLayout(chunks: Chunks, u: nat, c: Chunk, blocks: nat)
    requires Layout(chunks, blocks) && BackendBlock(chunks, c.orig, c.total, blocks) && ChunkOk(u, c, blocks)
    ensures Layout(Place(chunks, u, c), blocks)
    ensures forall v :: v in chunks && !chunks[v].state.Returned? ==>
              v != u && v in Place(chunks, u, c) && Place(chunks, u, c)[v] == chunks[v]
  {
    hide Up16, AndNot;
    var chunks' := Place(chunks, u, c);
    forall v | v in chunks && Disjoint(chunks[v], c) ensures v != u {
      assert ChunkOk(v, chunks[v], blocks);
    }
    forall v | v in chunks' ensures ChunkOk(v, chunks'[v], blocks) {
      assert v != u ==> ChunkOk(v, chunks[v], blocks);
    }
    forall v, w | v in chunks' && w in chunks' && v != w ensures Disjoint(chunks'[v], chunks'[w]) {
      assert v != u && w != u ==> Disjoint(chunks[v], chunks[w]);
    }
    forall v | v in chunks && !chunks[v].state.Returned? ensures Disjoint(chunks[v], c) {
      assert Disjoint(chunks[v], Chunk(c.orig, c.total, 0, Live));
    }
  }

  /**
    The shadow after an allocation is right for every remaining chunk: in particular the byte behind the block, which
    unpoisoning opens, belongs to no other chunk.
   */
  lemma PlaceKeepsShadow(chunks: Chunks, k: seq<Byte>, u: nat, c: Chunk, v: nat)
    requires Layout(chunks, |k|) && BackendBlock(chunks, c.orig, c.total, |k|) && ChunkOk(u, c, |k|) && c.state.Live?
    requires v in Place(chunks, u, c) && (v in chunks ==> ChunkShadow(k, v, chunks[v]))
    ensures ChunkShadow(NewShadow(k, c.orig, c.total, u, c.size), v, Place(chunks, u, c)[v])
  {
    hide Up16, AndNot, NewShadow, LiveShadow;
    NewShadowOk(k, u, c);
    if v != u {
      var d := chunks[v];
      assert ChunkOk(v, d, |k|);
      ByteBehindIsFree(u, c, v, d, |k|);
      hide ChunkOk;
      ChunkShadowLocal(k, NewShadow(k, c.orig, c.total, u, c.size), v, d);
    }
  }

  /** The 8 bytes behind a block, which unpoisoning opens as well, belong to no other block. */
  lemma ByteBehindIsFree(u: nat, c: Chunk, v: nat, d: Chunk, blocks: nat)
    requires ChunkOk(u, c, blocks) && ChunkOk(v, d, blocks) && Disjoint(d, c)
    ensures d.orig + d.total <= c.orig || c.orig + c.total + 8 <= d.orig
  {
    hide Up16, AndNot;
  }
}
