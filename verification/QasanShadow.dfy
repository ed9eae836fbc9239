/**
  The guest-side shadow of the QEMU address sanitizer: one shadow byte for every 8-byte block.

  Value 0 opens the whole block, values 1 to 7 open that many bytes at its start, every other value is a poison value
  and closes the block.  Shadow memory is an array; element `j` lies at shadow address `SHADOW_OFFSET + j`.
 */
module QasanShadow {
  import opened Common
  import opened Bits

  const SHADOW_OFFSET: nat := 0x7fff8000
  const ALLOC_ALIGN_SIZE: nat := 8
  const HEAP_LEFT_RZ: Byte := 0xfa
  const HEAP_RIGHT_RZ: Byte := 0xfb
  const HEAP_FREED: Byte := 0xfd

  /** Whether an operation went through or ended the process. */
  datatype Outcome = Done | Aborted

  // ----- address arithmetic -----

  /** `val & ~(align - 1)`. */
  function AlignDown(val: nat, align: nat): nat
    requires align > 0
  {
    AndNot(val, align - 1)
  }

  function AlignUp(val: nat, align: nat): nat
    requires align > 0
  {
    AlignDown(val + align - 1, align)
  }

  /** `(addr >> 3) + SHADOW_OFFSET`. */
  function GetShadow(addr: nat): nat {
    addr / 8 + SHADOW_OFFSET
  }

  lemma AlignDownPow2(val: nat, align: nat, e: nat)
    requires align == Pow2(e)
    ensures AlignDown(val, align) == val - val % align
  {
    AndNotIsFloor(val, e);
  }

  /** Rounding up to a power of two gives the least multiple that is not below the value. */
  lemma AlignUpPow2(val: nat, align: nat, e: nat)
    requires align == Pow2(e)
    ensures val <= AlignUp(val, align) < val + align
    ensures AlignUp(val, align) % align == 0
  {
    AlignDownPow2(val + align - 1, align, e);
    var x := val + align - 1;
    var q, r := x / align, x % align;
    assert x - r == align * q by {
      assert x == align * q + r;
    }
    ModUnique(align * q, align, q, 0);
  }

  lemma AlignDown8(val: nat)
    ensures AlignDown(val, 8) == val - val % 8
  {
    assert Pow2(3) == 8;
    AlignDownPow2(val, 8, 3);
  }

  lemma AlignUp8(val: nat)
    ensures AlignUp(val, 8) == if val % 8 == 0 then val else val - val % 8 + 8
  {
    AlignDown8(val + 7);
    var q, r := val / 8, val % 8;
    if r == 0 {
      ModUnique(val + 7, 8, q, 7);
    } else {
      ModUnique(val + 7, 8, q + 1, r - 1);
    }
  }

  /** An address of the guest program, outside the shadow and the gap. */
  predicate IsAppAddress(a: nat) {
    a <= 0x7fff7fff || 0x10007fff8000 <= a <= 0x7fffffffffff
  }

  /** A mapped shadow address: the low shadow or the high shadow. */
  predicate IsShadowAddress(a: nat) {
    0x7fff8000 <= a <= 0x8fff6fff || 0x02008fff7000 <= a <= 0x10007fff7fff
  }

  /**
    Below the top of user space, exactly the program's addresses have mapped shadow bytes, and these are not the
    program's.
   */
  lemma ShadowRegionsFit(a: nat)
    requires a <= 0x7fffffffffff
    ensures IsAppAddress(a) ==> IsShadowAddress(GetShadow(a)) && !IsAppAddress(GetShadow(a))
    ensures IsShadowAddress(GetShadow(a)) ==> IsAppAddress(a)
  {
  }

  /** Every mapped shadow byte describes a block of the program. */
  lemma ShadowRegionsFull(s: nat) returns (a: nat)
    requires IsShadowAddress(s)
    ensures IsAppAddress(a) && GetShadow(a) == s
  {
    a := 8 * (s - SHADOW_OFFSET);
  }

  // ----- meaning -----

  /** Byte `a` may be accessed. */
  predicate Accessible(k: seq<Byte>, a: nat)
    requires a / 8 < |k|
  {
    var v := k[a / 8];
    v == 0 || (v < 8 && a % 8 < v)
  }

  ghost predicate AllAccessible(k: seq<Byte>, lo: nat, hi: nat)
    requires hi <= 8 * |k|
  {
    forall a: nat :: lo <= a < hi ==> Accessible(k, a)
  }

  ghost predicate NoneAccessible(k: seq<Byte>, lo: nat, hi: nat)
    requires hi <= 8 * |k|
  {
    forall a: nat :: lo <= a < hi ==> !Accessible(k, a)
  }

  // ----- the shadow after poisoning and unpoisoning -----

  /** The shadow after `qasan_poison`: the block of an unaligned start keeps its first bytes open. */
  function PoisonedShadow(k: seq<Byte>, start: nat, end: nat, val: Byte): (k': seq<Byte>)
    ensures |k'| == |k|
  {
    seq(|k|, j requires 0 <= j < |k| => if start % 8 != 0 && j == start / 8 then start % 8
                                       else if start <= 8 * j < end then val
                                       else k[j])
  }

  /**
    The shadow after `qasan_unpoison`: the block that holds the end is open up to the end, or entirely if the end is
    aligned.
   */
  function UnpoisonedShadow(k: seq<Byte>, start: nat, end: nat): (k': seq<Byte>)
    ensures |k'| == |k|
  {
    seq(|k|, j requires 0 <= j < |k| => if j == end / 8 then end % 8
                                       else if start <= 8 * j < end then 0
                                       else k[j])
  }

  /**
    Poisoning closes the range and changes nothing else, except that it opens the bytes of the first block that lie
    before the start.
   */
  lemma PoisonMeaning(k: seq<Byte>, start: nat, end: nat, val: Byte, a: nat)
    requires start < end <= 8 * |k| && end % 8 == 0 && val >= 8 && a < 8 * |k|
    ensures Accessible(PoisonedShadow(k, start, end, val), a) ==
            if start <= a < end then false
            else if start - start % 8 <= a < start then true
            else Accessible(k, a)
  {
  }

  /**
    Unpoisoning opens the range; in the block that holds the end it closes what lies behind, unless the end is aligned:
    then it opens the whole next block.
   */
  lemma UnpoisonMeaning(k: seq<Byte>, start: nat, end: nat, a: nat)
    requires start < end < 8 * |k| && start % 8 == 0 && a < 8 * |k|
    ensures Accessible(UnpoisonedShadow(k, start, end), a) ==
            if start <= a < end then true
            else if end - end % 8 <= a < end - end % 8 + 8 then end % 8 == 0
            else Accessible(k, a)
  {
  }

  // ----- the operations -----

  /** `qemu_mem_set` on shadow bytes `kStart` to `kEnd`. */
  method MemSet(k: array<Byte>, kStart: nat, kEnd: nat, val: Byte)
    requires kStart <= kEnd ==> kEnd <= k.Length
    modifies k
    ensures forall j :: 0 <= j < k.Length ==> k[j] == if kStart <= j < kEnd then val else old(k[j])
  {
    var cursor := kStart;
    while cursor < kEnd
      invariant kStart <= cursor && (kStart <= kEnd ==> cursor <= kEnd)
      invariant forall j :: 0 <= j < k.Length ==> k[j] == if kStart <= j < cursor && j < kEnd then val else old(k[j])
    {
      k[cursor] := val;
      cursor := cursor + 1;
    }
  }

  /** `qemu_mem_test`: whether some shadow byte is not zero. */
  method MemTest(k: array<Byte>, kStart: nat, kEnd: nat) returns (r: bool)
    requires kStart <= kEnd ==> kEnd <= k.Length
    ensures r <==> exists j :: kStart <= j < kEnd && k[j] != 0
  {
    var cursor := kStart;
    while cursor < kEnd
      invariant kStart <= cursor && (kStart <= kEnd ==> cursor <= kEnd)
      invariant forall j :: kStart <= j < cursor && j < kEnd ==> k[j] == 0
    {
      if k[cursor] != 0 {
        return true;
      }
      cursor := cursor + 1;
    }
    r := false;
  }

  /** Closes [start, start + len); the end must be 8-byte aligned. */
  method Poison(k: array<Byte>, start: nat, len: nat, val: Byte) returns (outcome: Outcome)
    requires start + len <= 8 * k.Length
    modifies k
    ensures outcome == if len > 0 && (start + len) % 8 != 0 then Aborted else Done
    ensures k[..] == if len > 0 && (start + len) % 8 == 0 then PoisonedShadow(old(k[..]), start, start + len, val)
                     else old(k[..])
    ensures outcome == Done ==> forall j :: 0 <= j < k.Length && start <= 8 * j < start + len ==> k[j] == val
  {
    var end := start + len;
    var startAligned, endAligned := AlignUp(start, ALLOC_ALIGN_SIZE), AlignDown(end, ALLOC_ALIGN_SIZE);
    AlignUp8(start);
    AlignDown8(end);
    if len == 0 {
      return Done;
    }
    if end != endAligned {
      return Aborted;
    }
    var firstUnpoisoned := ALLOC_ALIGN_SIZE - (startAligned - start);
    var kStart := GetShadow(start) - SHADOW_OFFSET;
    // At least one byte of the first block lies before the aligned start or the start itself is aligned,
    // so the branch for zero is never taken.
    assert firstUnpoisoned != 0;
    k[kStart] := firstUnpoisoned;
    MemSet(k, GetShadow(startAligned) - SHADOW_OFFSET, GetShadow(endAligned) - SHADOW_OFFSET, val);
    outcome := Done;
  }

  /** Opens [start, start + len); the start must be 8-byte aligned. */
  method Unpoison(k: array<Byte>, start: nat, len: nat) returns (outcome: Outcome)
    requires len > 0 ==> start + len < 8 * k.Length
    modifies k
    ensures outcome == if len > 0 && start % 8 != 0 then Aborted else Done
    ensures k[..] == if len > 0 && start % 8 == 0 then UnpoisonedShadow(old(k[..]), start, start + len) else old(k[..])
  {
    var end := start + len;
    var startAligned, endAligned := AlignUp(start, ALLOC_ALIGN_SIZE), AlignDown(end, ALLOC_ALIGN_SIZE);
    AlignUp8(start);
    AlignDown8(end);
    if len == 0 {
      return Done;
    }
    if startAligned != start {
      return Aborted;
    }
    MemSet(k, GetShadow(startAligned) - SHADOW_OFFSET, GetShadow(endAligned) - SHADOW_OFFSET, 0);
    var lastUnpoisoned := end - endAligned;
    k[GetShadow(end) - SHADOW_OFFSET] := lastUnpoisoned;
    outcome := Done;
  }

  // ----- the access check -----

  /** A `char` read as a `size_t`: negative values become huge where `char` is signed. */
  function CharToSize(v: Byte, signedChar: bool): nat {
    if signedChar && v >= 128 then v + 0x1_0000_0000_0000_0000 - 256 else v
  }

  /** The part of an access that the check looks at: a last, partial block with a poison value is skipped. */
  function CheckedEnd(k: seq<Byte>, start: nat, end: nat): nat
    requires start < end <= 8 * |k|
  {
    if end % 8 != 0 && k[end / 8] >= 8 then (if end - end % 8 > start then end - end % 8 else start) else end
  }

  /** What `qasan_is_poison` answers. */
  ghost predicate Reported(k: seq<Byte>, start: nat, len: nat)
    requires start + len <= 8 * |k|
  {
    len > 0 && !AllAccessible(k, start, CheckedEnd(k, start, start + len))
  }

  lemma CheckedEndInside(k: seq<Byte>, start: nat, end: nat)
    requires start < end <= 8 * |k|
    ensures start <= CheckedEnd(k, start, end) <= end
  {
  }

  /** The check reports a range exactly when some byte of the part it looks at is closed; signedness plays no role. */
  method IsPoison(k: array<Byte>, start: nat, len: nat, signedChar: bool) returns (r: bool)
    requires start + len <= 8 * k.Length
    ensures r <==> Reported(k[..], start, len)
    ensures r ==> !AllAccessible(k[..], start, start + len)
    ensures (start + len) % 8 == 0 || k[(start + len) / 8] < 8 ==>
              (r <==> len > 0 && !AllAccessible(k[..], start, start + len))
  {
    hide AndNot, AlignUp, AlignDown, GetShadow, CharToSize, Reported, AllAccessible, Accessible, CheckedEnd;
    var end := start + len;
    var startAligned, endAligned := AlignUp(start, ALLOC_ALIGN_SIZE), AlignDown(end, ALLOC_ALIGN_SIZE);
    if len == 0 {
      NothingReported(k[..], start);
      return false;
    }
    CheckDecides(k[..], start, end);
    if Reported(k[..], start, len) {
      ReportSound(k[..], start, len);
    }
    if end % 8 == 0 || k[end / 8] < 8 {
      ReportExact(k[..], start, len);
    }
    if startAligned != start {
      var firstK := CharToSize(k[GetShadow(start) - SHADOW_OFFSET], signedChar);
      CharBelow8(k[GetShadow(start) - SHADOW_OFFSET], signedChar);
      if end < startAligned {
        var firstLen := end - endAligned;
        return firstK != 0 && firstLen > firstK;
      }
      if firstK != 0 {
        return true;
      }
    }
    if endAligned != end {
      var lastLen := end - endAligned;
      var lastK := CharToSize(k[GetShadow(end) - SHADOW_OFFSET], signedChar);
      CharBelow8(k[GetShadow(end) - SHADOW_OFFSET], signedChar);
      if lastK != 0 && lastLen > lastK {
        return true;
      }
    }
    r := MemTest(k, GetShadow(startAligned) - SHADOW_OFFSET, GetShadow(endAligned) - SHADOW_OFFSET);
  }

  lemma NothingReported(k: seq<Byte>, start: nat)
    requires start <= 8 * |k|
    ensures !Reported(k, start, 0)
  {
  }

  /** Values below 8 are read as they are, larger ones as more than 7. */
  lemma CharBelow8(v: Byte, signedChar: bool)
    ensures if v < 8 then CharToSize(v, signedChar) == v else CharToSize(v, signedChar) >= 8
  {
  }

  /** The answer of the check in terms of the pointers and shadow bytes that the code uses. */
  lemma CheckDecides(k: seq<Byte>, start: nat, end: nat)
    requires start < end <= 8 * |k|
    ensures var (startAligned, endAligned) := (AlignUp(start, ALLOC_ALIGN_SIZE), AlignDown(end, ALLOC_ALIGN_SIZE));
            var (first, last) := (GetShadow(start) - SHADOW_OFFSET, GetShadow(end) - SHADOW_OFFSET);
            var (from, to) := (GetShadow(startAligned) - SHADOW_OFFSET, GetShadow(endAligned) - SHADOW_OFFSET);
            && 0 <= first < |k| && start <= startAligned && endAligned <= end < endAligned + 8
            && 0 <= from && 0 <= to <= |k| && (endAligned != end ==> 0 <= last < |k|)
            && (startAligned != start && end < startAligned ==>
                  && endAligned < end && first == last
                  && (Reported(k, start, end - start) <==> 0 < k[first] < 8 && end - endAligned > k[first]))
            && (!(startAligned != start && end < startAligned) ==>
                  (Reported(k, start, end - start) <==>
                     || (startAligned != start && k[first] != 0)
                     || (endAligned != end && 0 < k[last] < 8 && end - endAligned > k[last])
                     || exists j :: from <= j < to && k[j] != 0))
  {
    AlignUp8(start);
    AlignDown8(end);
    CheckParts(k, start, end);
    hide AlignUp, AlignDown, AllAccessible, CheckedEnd;
  }

  /** A partial block shows a closed byte among bytes `lo` to `hi` exactly when its value is too small. */
  lemma PartOfBlock(k: seq<Byte>, b: nat, lo: nat, hi: nat)
    requires b < |k| && 8 * b <= lo < hi <= 8 * b + 8
    ensures AllAccessible(k, lo, hi) <==> k[b] == 0 || (k[b] < 8 && hi - 8 * b <= k[b])
  {
    assert (hi - 1) / 8 == b && (hi - 1) % 8 == hi - 1 - 8 * b;
    if AllAccessible(k, lo, hi) {
      assert Accessible(k, hi - 1);
    }
    if k[b] == 0 || (k[b] < 8 && hi - 8 * b <= k[b]) {
      forall a: nat | lo <= a < hi ensures Accessible(k, a) {
        assert a / 8 == b;
      }
    }
  }

  /** Whole blocks are accessible exactly when their shadow bytes are zero. */
  lemma WholeBlocks(k: seq<Byte>, lo: nat, hi: nat)
    requires lo <= hi <= |k|
    ensures AllAccessible(k, 8 * lo, 8 * hi) <==> forall j :: lo <= j < hi ==> k[j] == 0
  {
    if AllAccessible(k, 8 * lo, 8 * hi) {
      forall j | lo <= j < hi ensures k[j] == 0 {
        assert Accessible(k, 8 * j + 7);
      }
    }
    if forall j :: lo <= j < hi ==> k[j] == 0 {
      forall a: nat | 8 * lo <= a < 8 * hi ensures Accessible(k, a) {
        assert k[a / 8] == 0;
      }
    }
  }

  lemma SplitAccessible(k: seq<Byte>, lo: nat, mid: nat, hi: nat)
    requires lo <= mid <= hi <= 8 * |k|
    ensures AllAccessible(k, lo, hi) <==> AllAccessible(k, lo, mid) && AllAccessible(k, mid, hi)
  {
  }

  /** The answer of the check in terms of the head block, the whole blocks and the tail block. */
  lemma CheckParts(k: seq<Byte>, start: nat, end: nat)
    requires start < end <= 8 * |k|
    ensures var (s, e) := (if start % 8 == 0 then start / 8 else start / 8 + 1, end / 8);
            var tailOk := end % 8 == 0 || k[e] == 0 || k[e] >= 8 || end % 8 <= k[e];
            AllAccessible(k, start, CheckedEnd(k, start, end)) <==>
              if start % 8 != 0 && end < 8 * s then tailOk
              else (start % 8 != 0 ==> k[start / 8] == 0) && tailOk && (forall j :: s <= j < e ==> k[j] == 0)
  {
    var s, e := if start % 8 == 0 then start / 8 else start / 8 + 1, end / 8;
    var checked := CheckedEnd(k, start, end);
    if start % 8 != 0 && end < 8 * s {
      if checked == end {
        PartOfBlock(k, e, start, end);
      }
    } else {
      SplitAccessible(k, start, 8 * s, checked);
      SplitAccessible(k, 8 * s, 8 * e, checked);
      WholeBlocks(k, s, e);
      if start % 8 != 0 {
        PartOfBlock(k, start / 8, start, 8 * s);
      }
      if end % 8 != 0 && k[e] < 8 {
        PartOfBlock(k, e, 8 * e, end);
      }
    }
  }

  /** A report is never false: some byte of the reported range is closed. */
  lemma ReportSound(k: seq<Byte>, start: nat, len: nat)
    requires start + len <= 8 * |k| && Reported(k, start, len)
    ensures !AllAccessible(k, start, start + len)
  {
    CheckedEndInside(k, start, start + len);
  }

  /** Where the end is aligned or its block carries no poison value, the check is exact. */
  lemma ReportExact(k: seq<Byte>, start: nat, len: nat)
    requires start + len <= 8 * |k|
    requires (start + len) % 8 == 0 || k[(start + len) / 8] < 8
    ensures Reported(k, start, len) <==> len > 0 && !AllAccessible(k, start, start + len)
  {
  }

  /**
    A range of closed bytes is reported if and only if its end is aligned, its last block carries no poison value, or it
    begins before its last block.
   */
  lemma ClosedReportedIff(k: seq<Byte>, a: nat, end: nat)
    requires a < end <= 8 * |k| && NoneAccessible(k, a, end)
    ensures Reported(k, a, end - a) <==> end % 8 == 0 || k[end / 8] < 8 || a < end - end % 8
  {
    assert !Accessible(k, a);
  }

  /** An access of at least one byte is checked exactly against every shadow if and only if its end is aligned. */
  lemma ReportExactIffEndAligned(start: nat, len: nat, blocks: nat)
    requires len > 0 && start + len <= 8 * blocks
    ensures (start + len) % 8 == 0 <==>
            forall k: seq<Byte> :: |k| == blocks ==>
                  (Reported(k, start, len) <==> !AllAccessible(k, start, start + len))
  {
    if (start + len) % 8 != 0 {
      var e := (start + len) / 8;
      var k: seq<Byte> := seq(blocks, j => if j == e then HEAP_FREED else 0);
      assert !Accessible(k, start + len - 1) by {
        assert (start + len - 1) / 8 == e;
      }
      forall a: nat | start <= a < CheckedEnd(k, start, start + len) ensures Accessible(k, a) {
        assert a / 8 < e;
      }
      assert !Reported(k, start, len);
    }
  }
}
