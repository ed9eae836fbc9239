/**
  The one-bit-per-byte shadow encoding of the binary-only address sanitizer.

  A shadow byte describes one 8-byte block of memory, most significant bit first:
  a set bit means that the corresponding byte of the block may be accessed.
 */
module ShadowBits {

  /** Every address from `lo` up to but not including `hi` is in `s`. */
  ghost predicate Contains(s: set<nat>, lo: nat, hi: nat) {
    forall x: nat :: lo <= x < hi ==> x in s
  }

  /** The single bit that stands for byte `k` of a block. */
  function BitMask(k: nat): bv8
    requires k < 8
  {
    match k
    case 0 => 0x80
    case 1 => 0x40
    case 2 => 0x20
    case 3 => 0x10
    case 4 => 0x08
    case 5 => 0x04
    case 6 => 0x02
    case _ => 0x01
  }

  /** Whether byte `k` of the block described by `b` may be accessed. */
  predicate Bit(b: bv8, k: nat)
    requires k < 8
  {
    b & BitMask(k) != 0
  }

  /** The mask `0xff << (8 - n)`: the bits of the first `n` bytes of a block. */
  function HeadMask(n: nat): bv8
    requires n < 8
  {
    match n
    case 0 => 0x00
    case 1 => 0x80
    case 2 => 0xc0
    case 3 => 0xe0
    case 4 => 0xf0
    case 5 => 0xf8
    case 6 => 0xfc
    case _ => 0xfe
  }

  /** Whether memory byte `i` may be accessed, `mem[j]` describing bytes `8 * j` to `8 * j + 7`. */
  ghost predicate Open(mem: seq<bv8>, i: nat)
    requires i / 8 < |mem|
  {
    Bit(mem[i / 8], i % 8)
  }

  /** The table is the shift that the code computes. */
  lemma HeadMaskIsShift(n: nat)
    requires 0 < n < 8
    ensures HeadMask(n) == (0xff as bv8) << (8 - n)
  {
    var eight: nat := 8;
    if n == 1 { assert eight - n == 7; }
    else if n == 2 { assert eight - n == 6; }
    else if n == 3 { assert eight - n == 5; }
    else if n == 4 { assert eight - n == 4; }
    else if n == 5 { assert eight - n == 3; }
    else if n == 6 { assert eight - n == 2; }
    else { assert eight - n == 1; }
  }

  /** Setting the head mask opens exactly the first `n` bytes of the block and keeps the others. */
  lemma OrHeadMask(b: bv8, n: nat, k: nat)
    requires n < 8 && k < 8
    ensures Bit(b | HeadMask(n), k) <==> k < n || Bit(b, k)
  {
  }

  /** Clearing the head mask closes exactly the first `n` bytes of the block and keeps the others. */
  lemma AndNotHeadMask(b: bv8, n: nat, k: nat)
    requires n < 8 && k < 8
    ensures Bit(b & !HeadMask(n), k) <==> k >= n && Bit(b, k)
  {
  }

  /** Comparing with a single bit more tests one byte more. */
  lemma HeadMaskStep(b: bv8, n: nat)
    requires n < 7
    ensures b & HeadMask(n + 1) == HeadMask(n + 1) <==> b & HeadMask(n) == HeadMask(n) && Bit(b, n)
  {
  }

  /** The head-mask comparison tests exactly the first `n` bytes of the block. */
  lemma {:induction false} TestHeadMask(b: bv8, n: nat)
    requires n < 8
    ensures b & HeadMask(n) == HeadMask(n) <==> forall k :: 0 <= k < n ==> Bit(b, k)
  {
    if n > 0 {
      TestHeadMask(b, n - 1);
      HeadMaskStep(b, n - 1);
    }
  }

  lemma FullByte(b: bv8)
    ensures b == 0xff <==> forall k :: 0 <= k < 8 ==> Bit(b, k)
  {
    TestHeadMask(b, 7);
    if forall k :: 0 <= k < 8 ==> Bit(b, k) {
      assert Bit(b, 7);
    }
  }

  lemma EmptyByte(k: nat)
    requires k < 8
    ensures !Bit(0, k)
  {
  }

  /** A run of shadow bytes is all ones exactly when every byte it describes is open. */
  lemma AllOnesIsOpen(mem: seq<bv8>, lo: nat, hi: nat)
    requires lo <= hi <= |mem|
    ensures (forall j :: lo <= j < hi ==> mem[j] == 0xff) <==> (forall i :: 8 * lo <= i < 8 * hi ==> Open(mem, i))
  {
    if forall j :: lo <= j < hi ==> mem[j] == 0xff {
      forall i | 8 * lo <= i < 8 * hi ensures Open(mem, i) {
        assert mem[i / 8] == 0xff;
        FullByte(mem[i / 8]);
      }
    }
    if forall i :: 8 * lo <= i < 8 * hi ==> Open(mem, i) {
      forall j | lo <= j < hi ensures mem[j] == 0xff {
        forall k | 0 <= k < 8 ensures Bit(mem[j], k) {
          assert Open(mem, 8 * j + k);
        }
        FullByte(mem[j]);
      }
    }
  }

  /** The bits of a block in front of byte `a`, seen as bytes of memory. */
  lemma HeadBits(mem: seq<bv8>, a: nat)
    requires a / 8 < |mem|
    ensures (forall k :: 0 <= k < a % 8 ==> Bit(mem[a / 8], k)) <==> (forall i :: a - a % 8 <= i < a ==> Open(mem, i))
  {
    var block := a - a % 8;
    if forall k :: 0 <= k < a % 8 ==> Bit(mem[a / 8], k) {
      forall i | block <= i < a ensures Open(mem, i) {
        assert Bit(mem[a / 8], i - block);
      }
    }
    if forall i :: block <= i < a ==> Open(mem, i) {
      forall k | 0 <= k < a % 8 ensures Bit(mem[a / 8], k) {
        assert Open(mem, block + k);
      }
    }
  }

  /** The shadow memory after `Unpoison` or `Poison`: only the bytes of the range change, all to `value`. */
  ghost predicate Painted(before: seq<bv8>, after: seq<bv8>, lo: nat, hi: nat, value: bool) {
    && |after| == |before|
    && forall i: nat {:trigger Open(after, i)} {:trigger Open(before, i)} ::
         i / 8 < |before| ==> Open(after, i) == if lo <= i < hi then value else Open(before, i)
  }

  /** What `Unpoison` does to the shadow byte of memory byte `i`. */
  lemma UnpoisonedByte(before: bv8, after: bv8, i: nat, start: nat, size: nat)
    requires var j := i / 8;
             after == if start <= j < start + size / 8 then 0xff
                      else if j == start + size / 8 && size % 8 > 0 then before | HeadMask(size % 8)
                      else before
    ensures Bit(after, i % 8) == if 8 * start <= i < 8 * start + size then true else Bit(before, i % 8)
  {
    OrHeadMask(before, size % 8, i % 8);
    FullByte(0xff);
  }

  /** What `Poison` does to the shadow byte of memory byte `i`. */
  lemma PoisonedByte(before: bv8, after: bv8, i: nat, start: nat, size: nat)
    requires var j := i / 8;
             after == if start <= j < start + size / 8 then 0
                      else if j == start + size / 8 && size % 8 > 0 then before & !HeadMask(size % 8)
                      else before
    ensures Bit(after, i % 8) == if 8 * start <= i < 8 * start + size then false else Bit(before, i % 8)
  {
    AndNotHeadMask(before, size % 8, i % 8);
    EmptyByte(i % 8);
  }

  /**
    Opens `size` bytes of memory, the first described by the first bit of `mem[start]`.
    The shadow bytes written must be committed: `committed` holds the committed shadow addresses
    and `mem[0]` lies at shadow address `base`.
   */
  method Unpoison(mem: array<bv8>, start: nat, size: nat, ghost base: nat, ghost committed: set<nat>)
    requires start + (size + 7) / 8 <= mem.Length
    requires Contains(committed, base + start, base + start + (size + 7) / 8)
    modifies mem
    ensures Painted(old(mem[..]), mem[..], 8 * start, 8 * start + size, true)
  {
    ghost var before := mem[..];
    forall j | start <= j < start + size / 8 {
      mem[j] := 0xff;
    }
    var remainder := size % 8;
    if remainder > 0 {
      var currentValue := mem[start + size / 8];
      currentValue := currentValue | HeadMask(remainder);
      mem[start + size / 8] := currentValue;
    }
    forall i: nat | i / 8 < |before|
      ensures Open(mem[..], i) == if 8 * start <= i < 8 * start + size then true else Open(before, i)
    {
      UnpoisonedByte(before[i / 8], mem[i / 8], i, start, size);
    }
  }

  /** Closes `size` bytes of memory, the first described by the first bit of `mem[start]`. */
  method Poison(mem: array<bv8>, start: nat, size: nat, ghost base: nat, ghost committed: set<nat>)
    requires start + (size + 7) / 8 <= mem.Length
    requires Contains(committed, base + start, base + start + (size + 7) / 8)
    modifies mem
    ensures Painted(old(mem[..]), mem[..], 8 * start, 8 * start + size, false)
  {
    ghost var before := mem[..];
    forall j | start <= j < start + size / 8 {
      mem[j] := 0x0;
    }
    var remainder := size % 8;
    if remainder > 0 {
      var mask := !HeadMask(remainder);
      var currentValue := mem[start + size / 8];
      currentValue := currentValue & mask;
      mem[start + size / 8] := currentValue;
    }
    forall i: nat | i / 8 < |before|
      ensures Open(mem[..], i) == if 8 * start <= i < 8 * start + size then false else Open(before, i)
    {
      PoisonedByte(before[i / 8], mem[i / 8], i, start, size);
    }
  }
}
