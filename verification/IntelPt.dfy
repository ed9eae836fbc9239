/**
  The Intel PT aux ring buffer: the hardware writes trace bytes at a free-running head, decoding hands the unread bytes
  to the decoder and moves the tail up to the head.
 */
module IntelPt {
  import opened Common
  import opened Bits

  const PAGE_SIZE: nat := 4096

  // ----- configuration -----

  /** `usize::is_power_of_two`. */
  predicate PowerOfTwoTest(n: nat) {
    n == 1 || (n > 1 && n % 2 == 0 && PowerOfTwoTest(n / 2))
  }

  lemma {:induction false} PowerOfTwoTestSound(n: nat) returns (k: nat)
    requires PowerOfTwoTest(n)
    ensures n == Pow2(k)
  {
    if n == 1 {
      k := 0;
    } else {
      k := PowerOfTwoTestSound(n / 2);
      k := k + 1;
    }
  }

  lemma {:induction false} PowerOfTwoTestComplete(k: nat)
    ensures PowerOfTwoTest(Pow2(k))
  {
    if k > 0 {
      PowerOfTwoTestComplete(k - 1);
      assert Pow2(k) / 2 == Pow2(k - 1);
    }
  }

  datatype Builder = Builder(perfBufferSize: nat, perfAuxBufferSize: nat)

  datatype Result<+T> = Ok(value: T) | IllegalArgument

  /** Sets the size of the perf buffer: one page of metadata and a power of two of data pages. */
  function SetPerfBufferSize(b: Builder, size: nat): Result<Builder> {
    if size < PAGE_SIZE then IllegalArgument
    else
      var (q, r) := ((size - PAGE_SIZE) / PAGE_SIZE, (size - PAGE_SIZE) % PAGE_SIZE);
      if !PowerOfTwoTest(q) || r != 0 then IllegalArgument else Ok(b.(perfBufferSize := size))
  }

  /** Sets the size of the aux buffer: page aligned and a power of two. */
  function SetPerfAuxBufferSize(b: Builder, size: nat): Result<Builder> {
    if size % PAGE_SIZE != 0 then IllegalArgument
    else if !PowerOfTwoTest(size) then IllegalArgument
    else Ok(b.(perfAuxBufferSize := size))
  }

  /** Accepted perf buffer sizes are exactly 1 + 2^k pages; an accepted size is stored and nothing else changes. */
  lemma PerfBufferSizeAccepted(b: Builder, size: nat)
    ensures SetPerfBufferSize(b, size).Ok? <==> exists k: nat :: size == PAGE_SIZE * (1 + Pow2(k))
    ensures SetPerfBufferSize(b, size).Ok? ==> SetPerfBufferSize(b, size).value == Builder(size, b.perfAuxBufferSize)
  {
    if SetPerfBufferSize(b, size).Ok? {
      var k := PowerOfTwoTestSound((size - PAGE_SIZE) / PAGE_SIZE);
      assert size == PAGE_SIZE * (1 + Pow2(k));
    }
    if k: nat :| size == PAGE_SIZE * (1 + Pow2(k)) {
      PowerOfTwoTestComplete(k);
      assert (size - PAGE_SIZE) / PAGE_SIZE == Pow2(k);
    }
  }

  /** Accepted aux buffer sizes are exactly the powers of two from one page up; nothing but the size changes. */
  lemma AuxBufferSizeAccepted(b: Builder, size: nat)
    ensures SetPerfAuxBufferSize(b, size).Ok? <==> exists k: nat :: k >= 12 && size == Pow2(k)
    ensures SetPerfAuxBufferSize(b, size).Ok? ==> SetPerfAuxBufferSize(b, size).value == Builder(b.perfBufferSize, size)
  {
    assert Pow2(12) == PAGE_SIZE by {
      assert Pow2(4) == 16 && Pow2(8) == 256;
    }
    if SetPerfAuxBufferSize(b, size).Ok? {
      var k := PowerOfTwoTestSound(size);
      if k < 12 {
        Pow2Strict(k, 12);
      }
    }
    if k: nat :| k >= 12 && size == Pow2(k) {
      PowerOfTwoTestComplete(k);
      Pow2Add(12, k - 12);
      ModUnique(size, PAGE_SIZE, Pow2(k - 12), 0);
    }
  }

  /** `(address + PAGE_SIZE - 1) & !(PAGE_SIZE - 1)`. */
  function NextPageAlignedAddr(address: nat): nat {
    AndNot(address + PAGE_SIZE - 1, PAGE_SIZE - 1)
  }

  /** The least page boundary that is not below the address. */
  lemma NextPageIsLeast(address: nat)
    ensures var r := NextPageAlignedAddr(address);
            r % PAGE_SIZE == 0 && address <= r < address + PAGE_SIZE
  {
    assert Pow2(12) == PAGE_SIZE by {
      assert Pow2(4) == 16 && Pow2(8) == 256;
    }
    AndNotIsFloor(address + PAGE_SIZE - 1, 12);
  }

  // ----- the ring on values -----

  /** The buffer with the free-running counters. */
  datatype Ring = Ring(buffer: seq<Byte>, head: nat, tail: nat, previousDecodeHead: nat)

  datatype DecodeOutcome =
    | HeadBehindTail
    | PreviousBehindTail
    | OutOfBounds          // the slice handed to the decoder would leave the memory it points into
    | Decoded(trace: seq<Byte>)

  /** `ptr & (perf_aux_buffer_size - 1)`. */
  function WrapAuxPointer(ptr: nat, size: nat): nat
    requires size > 0
  {
    BitAnd(ptr, size - 1)
  }

  lemma WrapIsMod(ptr: nat, size: nat)
    requires size > 0 && IsPowerOfTwo(size)
    ensures WrapAuxPointer(ptr, size) == ptr % size
  {
    var k: nat :| size == Pow2(k);
    MaskIsMod(ptr, k);
  }

  /** One byte written by the hardware. */
  function Write(s: Ring, b: Byte): Ring
    requires |s.buffer| > 0
  {
    s.(buffer := s.buffer[s.head % |s.buffer| := b], head := s.head + 1)
  }

  function WriteAll(s: Ring, bs: seq<Byte>): (s': Ring)
    requires |s.buffer| > 0
    ensures |s'.buffer| == |s.buffer| && s'.head == s.head + |bs| && s'.tail == s.tail
    ensures s'.previousDecodeHead == s.previousDecodeHead
    decreases |bs|
  {
    if bs == [] then s else WriteAll(Write(s, bs[0]), bs[1..])
  }

  /** The memory that the data pointer of a decoding points into, from the pointer on. */
  function Backing(buffer: seq<Byte>, headWrap: nat, tailWrap: nat): seq<Byte>
    requires headWrap <= |buffer| && tailWrap <= |buffer|
  {
    if headWrap >= tailWrap then buffer[tailWrap..] else buffer[tailWrap..] + buffer[..headWrap]
  }

  /** `decode_traces_into_map`. */
  function DecodeSpec(s: Ring): (Ring, DecodeOutcome)
    requires |s.buffer| > 0
  {
    if s.head < s.tail then (s, HeadBehindTail)
    else if s.previousDecodeHead < s.tail then (s, PreviousBehindTail)
    else
      var len := s.head - s.tail;
      var backing := Backing(s.buffer, s.head % |s.buffer|, s.tail % |s.buffer|);
      if len > |backing| then (s, OutOfBounds)
      else (s.(tail := s.head, previousDecodeHead := s.head), Decoded(backing[..len]))
  }

  /** The buffer holds the latest bytes of the stream, and only decoding has moved the tail. */
  ghost predicate Consistent(s: Ring, stream: seq<Byte>) {
    && |s.buffer| > 0 && s.head == |stream| && s.tail <= s.head && s.previousDecodeHead == s.tail
    && forall i: nat :: s.head - |s.buffer| <= i < s.head ==> s.buffer[i % |s.buffer|] == stream[i]
  }

  /** Two positions less than a buffer size apart lie in different cells. */
  lemma CellsDiffer(i: nat, j: nat, size: nat)
    requires size > 0 && i < j < i + size
    ensures i % size != j % size
  {
    var q, r := i / size, i % size;
    assert i == size * q + r;
    if r + (j - i) < size {
      ModUnique(j, size, q, r + (j - i));
    } else {
      assert size * (q + 1) == size * q + size;
      ModUnique(j, size, q + 1, r + (j - i) - size);
    }
  }

  lemma WriteConsistent(s: Ring, stream: seq<Byte>, b: Byte)
    requires Consistent(s, stream)
    ensures Consistent(Write(s, b), stream + [b])
  {
    var s', size := Write(s, b), |s.buffer|;
    forall i: nat | s'.head - size <= i < s'.head ensures s'.buffer[i % size] == (stream + [b])[i] {
      if i < s.head {
        CellsDiffer(i, s.head, size);
      }
    }
  }

  lemma {:induction false} WriteAllConsistent(s: Ring, stream: seq<Byte>, bs: seq<Byte>)
    requires Consistent(s, stream)
    ensures Consistent(WriteAll(s, bs), stream + bs)
    decreases |bs|
  {
    if bs == [] {
      assert stream + bs == stream;
    } else {
      WriteConsistent(s, stream, bs[0]);
      WriteAllConsistent(Write(s, bs[0]), stream + [bs[0]], bs[1..]);
      assert stream + [bs[0]] + bs[1..] == stream + bs;
    }
  }

  /** Where the head lies in terms of the tail, as long as at most one buffer is unread. */
  lemma HeadWrap(tail: nat, len: nat, size: nat)
    requires size > 0 && len <= size
    ensures (tail + len) % size == if tail % size + len < size then tail % size + len else tail % size + len - size
  {
    var q, r := tail / size, tail % size;
    assert tail == size * q + r;
    if r + len < size {
      ModUnique(tail + len, size, q, r + len);
    } else {
      assert size * (q + 1) == size * q + size;
      ModUnique(tail + len, size, q + 1, r + len - size);
    }
  }

  /** With more than one buffer unread the slice always leaves its memory. */
  lemma TooFar(tail: nat, len: nat, size: nat)
    requires size > 0 && len > size
    ensures var (hw, tw) := ((tail + len) % size, tail % size);
            len > if hw >= tw then size - tw else size - tw + hw
  {
  }

  predicate InBounds(s: Ring)
    requires |s.buffer| > 0
  {
    s.head - s.tail < |s.buffer| || (s.head - s.tail == |s.buffer| && s.tail % |s.buffer| == 0)
  }

  /**
    The slice handed to the decoder stays inside its memory if and only if less than one buffer is unread, or exactly
    one that begins at the start of the buffer.
   */
  lemma InBoundsIff(s: Ring, stream: seq<Byte>)
    requires Consistent(s, stream)
    ensures DecodeSpec(s).1.OutOfBounds? <==> !InBounds(s)
  {
    var size, len := |s.buffer|, s.head - s.tail;
    if len <= size {
      HeadWrap(s.tail, len, size);
    } else {
      TooFar(s.tail, len, size);
    }
  }

  /** What is decoded is exactly the unread part of the stream, and neither error is ever returned. */
  lemma DecodeDeliversUnread(s: Ring, stream: seq<Byte>)
    requires Consistent(s, stream)
    ensures var (s', outcome) := DecodeSpec(s);
            && (outcome.OutOfBounds? || outcome.Decoded?)
            && (outcome.Decoded? ==> outcome.trace == stream[s.tail..] && s'.tail == |stream|)
            && Consistent(s', stream)
  {
    var (s', outcome) := DecodeSpec(s);
    var size, len := |s.buffer|, s.head - s.tail;
    if outcome.Decoded? {
      InBoundsIff(s, stream);
      HeadWrap(s.tail, len, size);
      forall k | 0 <= k < len ensures outcome.trace[k] == stream[s.tail..][k] {
        HeadWrap(s.tail, k, size);
        assert s.buffer[(s.tail + k) % size] == stream[s.tail + k];
      }
      assert outcome.trace == stream[s.tail..];
    }
  }

  // ----- whole runs -----

  datatype Event = Produce(bs: seq<Byte>) | Decode

  function Step(s: Ring, e: Event): Ring
    requires |s.buffer| > 0
  {
    match e
    case Produce(bs) => WriteAll(s, bs)
    case Decode => DecodeSpec(s).0
  }

  /** What a step hands to the decoder. */
  function Delivered(s: Ring, e: Event): seq<Byte>
    requires |s.buffer| > 0
  {
    if e.Decode? && DecodeSpec(s).1.Decoded? then DecodeSpec(s).1.trace else []
  }

  lemma StepKeepsSize(s: Ring, e: Event)
    requires |s.buffer| > 0
    ensures |Step(s, e).buffer| == |s.buffer|
  {
  }

  function Run(s: Ring, es: seq<Event>): (s': Ring)
    requires |s.buffer| > 0
    ensures |s'.buffer| == |s.buffer|
    decreases |es|
  {
    if es == [] then s else StepKeepsSize(s, es[0]); Run(Step(s, es[0]), es[1..])
  }

  /** The concatenation of everything handed to the decoder. */
  function AllDelivered(s: Ring, es: seq<Event>): seq<Byte>
    requires |s.buffer| > 0
    decreases |es|
  {
    if es == [] then []
    else StepKeepsSize(s, es[0]); Delivered(s, es[0]) + AllDelivered(Step(s, es[0]), es[1..])
  }

  /** The concatenation of everything the hardware wrote. */
  function AllProduced(es: seq<Event>): seq<Byte> {
    if es == [] then [] else (if es[0].Produce? then es[0].bs else []) + AllProduced(es[1..])
  }

  /**
    Whenever decoding starts, less than one buffer is unread, or exactly one that begins at the start of the buffer.
   */
  ghost predicate Paced(s: Ring, es: seq<Event>)
    requires |s.buffer| > 0
    decreases |es|
  {
    es == [] ||
    (StepKeepsSize(s, es[0]);
     && (es[0].Decode? && s.head >= s.tail ==> InBounds(s))
     && Paced(Step(s, es[0]), es[1..]))
  }

  /** Every decoding of the run succeeds: no error is returned and no slice leaves its memory. */
  ghost predicate AllDecoded(s: Ring, es: seq<Event>)
    requires |s.buffer| > 0
    decreases |es|
  {
    es == [] ||
    (StepKeepsSize(s, es[0]);
     && (es[0].Decode? ==> DecodeSpec(s).1.Decoded?)
     && AllDecoded(Step(s, es[0]), es[1..]))
  }

  /** From a consistent state on, every decoding of a run succeeds if and only if the run is paced. */
  lemma {:induction false} AllDecodedIffPaced(s: Ring, stream: seq<Byte>, es: seq<Event>)
    requires Consistent(s, stream)
    ensures AllDecoded(s, es) <==> Paced(s, es)
    decreases |es|
  {
    if es != [] {
      match es[0]
      case Produce(bs) =>
        WriteAllConsistent(s, stream, bs);
        AllDecodedIffPaced(Step(s, es[0]), stream + bs, es[1..]);
      case Decode =>
        InBoundsIff(s, stream);
        DecodeDeliversUnread(s, stream);
        AllDecodedIffPaced(Step(s, es[0]), stream, es[1..]);
    }
  }

  /** The unread bytes at the end of a run. */
  function Unread(s: Ring, stream: seq<Byte>): seq<Byte>
    requires s.tail <= |stream|
  {
    stream[s.tail..]
  }

  /**
    Over every paced run the slices handed to the decoder, followed by what is still unread, are exactly what was unread
    before followed by the produced stream: nothing is lost, repeated or reordered, and no decoding fails.
   */
  lemma {:induction false} RunDeliversStream(s: Ring, stream: seq<Byte>, es: seq<Event>)
    requires Consistent(s, stream) && Paced(s, es)
    ensures var s' := Run(s, es);
            && AllDecoded(s, es) && Consistent(s', stream + AllProduced(es))
            && Unread(s, stream) + AllProduced(es) == AllDelivered(s, es) + Unread(s', stream + AllProduced(es))
    decreases |es|
  {
    if es == [] {
      assert stream + [] == stream;
      assert Unread(s, stream) + [] == [] + Unread(s, stream);
    } else {
      AllDecodedIffPaced(s, stream, es);
      var s1, rest := Step(s, es[0]), AllProduced(es[1..]);
      match es[0]
      case Produce(bs) =>
        WriteAllConsistent(s, stream, bs);
        RunDeliversStream(s1, stream + bs, es[1..]);
        assert AllDelivered(s, es) == AllDelivered(s1, es[1..]);
        RegroupUnread(stream, s.tail, bs, rest);
      case Decode =>
        InBoundsIff(s, stream);
        DecodeDeliversUnread(s, stream);
        RunDeliversStream(s1, stream, es[1..]);
        assert AllProduced(es) == rest;
        assert Unread(s1, stream) == [];
        AppendDelivered(Unread(s, stream), rest, AllDelivered(s1, es[1..]), Unread(Run(s1, es[1..]), stream + rest));
    }
  }

  lemma RegroupUnread(stream: seq<Byte>, tail: nat, bs: seq<Byte>, rest: seq<Byte>)
    requires tail <= |stream|
    ensures stream + bs + rest == stream + (bs + rest)
    ensures (stream + bs)[tail..] + rest == stream[tail..] + (bs + rest)
  {
  }

  lemma AppendDelivered(unread: seq<Byte>, rest: seq<Byte>, delivered: seq<Byte>, last: seq<Byte>)
    requires [] + rest == delivered + last
    ensures unread + rest == unread + delivered + last
  {
    assert [] + rest == rest;
    assert unread + (delivered + last) == unread + delivered + last;
  }

  /** From a fresh buffer on, a paced run that ends with a decoding has delivered exactly the produced stream. */
  lemma RunFromStart(buffer: seq<Byte>, es: seq<Event>)
    requires |buffer| > 0
    requires var s := Ring(buffer, 0, 0, 0); Paced(s, es) && Run(s, es).head == Run(s, es).tail
    ensures AllDelivered(Ring(buffer, 0, 0, 0), es) == AllProduced(es)
  {
    var s := Ring(buffer, 0, 0, 0);
    RunDeliversStream(s, [], es);
    assert [] + AllProduced(es) == AllProduced(es);
    assert AllDelivered(s, es) + [] == AllDelivered(s, es);
  }

  // ----- the decoder's side -----

  class IntelPt {
    const perfAuxBuffer: array<Byte>
    var auxHead: nat
    var auxTail: nat
    var previousDecodeHead: nat

    ghost predicate Valid()
      reads this, perfAuxBuffer
    {
      perfAuxBuffer.Length > 0 && IsPowerOfTwo(perfAuxBuffer.Length)
    }

    ghost function View(): Ring
      reads this, perfAuxBuffer
    {
      Ring(perfAuxBuffer[..], auxHead, auxTail, previousDecodeHead)
    }

    constructor (size: nat)
      requires IsPowerOfTwo(size)
      ensures Valid() && fresh(perfAuxBuffer) && perfAuxBuffer.Length == size
      ensures View() == Ring(perfAuxBuffer[..], 0, 0, 0)
    {
      perfAuxBuffer := new Byte[size](_ => 0);
      auxHead, auxTail, previousDecodeHead := 0, 0, 0;
      new;
      var k: nat :| size == Pow2(k);
    }

    /** The hardware writes trace bytes and advances the head. */
    method HardwareWrite(bs: seq<Byte>)
      requires Valid()
      modifies this`auxHead, perfAuxBuffer
      ensures Valid() && View() == WriteAll(old(View()), bs)
    {
      var n := 0;
      while n < |bs|
        invariant 0 <= n <= |bs|
        invariant WriteAll(View(), bs[n..]) == WriteAll(old(View()), bs)
      {
        assert bs[n..][1..] == bs[n + 1..];
        ghost var before := View();
        perfAuxBuffer[auxHead % perfAuxBuffer.Length] := bs[n];
        auxHead := auxHead + 1;
        assert View() == Write(before, bs[n]);
        n := n + 1;
      }
    }

    /** Copies a trace that wraps around the end of the buffer into one piece. */
    method JoinSplitTrace(headWrap: nat, tailWrap: nat) returns (data: array<Byte>)
      requires headWrap < perfAuxBuffer.Length && tailWrap < perfAuxBuffer.Length
      ensures fresh(data) && data[..] == perfAuxBuffer[tailWrap..] + perfAuxBuffer[..headWrap]
    {
      var firstLen := perfAuxBuffer.Length - tailWrap;
      var secondLen := headWrap;
      data := new Byte[firstLen + secondLen](_ => 0);
      forall i | 0 <= i < firstLen {
        data[i] := perfAuxBuffer[tailWrap + i];
      }
      forall i | 0 <= i < secondLen {
        data[firstLen + i] := perfAuxBuffer[i];
      }
      assert data[..firstLen] == perfAuxBuffer[tailWrap..];
      assert data[firstLen..] == perfAuxBuffer[..headWrap];
    }

    /**
      Hands the unread trace to the decoder and moves the tail; nothing is said about the state after a read out of
      bounds.
     */
    method DecodeTraces() returns (outcome: DecodeOutcome)
      requires Valid()
      modifies this`auxTail, this`previousDecodeHead
      ensures outcome.HeadBehindTail? <==> old(auxHead) < old(auxTail)
      ensures outcome.PreviousBehindTail? <==> old(auxTail) <= old(auxHead) && old(previousDecodeHead) < old(auxTail)
      ensures auxTail == previousDecodeHead == auxHead || !outcome.Decoded?
      ensures outcome.HeadBehindTail? || outcome.PreviousBehindTail? ==> View() == old(View())
      ensures outcome == DecodeSpec(old(View())).1
      ensures !outcome.OutOfBounds? ==> View() == DecodeSpec(old(View())).0
    {
      var head, tail := auxHead, auxTail;
      if head < tail {
        return HeadBehindTail;
      }
      if previousDecodeHead < tail {
        return PreviousBehindTail;
      }
      var len := head - tail;
      var size := perfAuxBuffer.Length;
      WrapIsMod(head, size);
      WrapIsMod(tail, size);
      var headWrap, tailWrap := WrapAuxPointer(head, size), WrapAuxPointer(tail, size);
      if headWrap >= tailWrap {
        if tailWrap + len > size {
          return OutOfBounds;
        }
        outcome := Decoded(perfAuxBuffer[tailWrap..tailWrap + len]);
        assert perfAuxBuffer[tailWrap..][..len] == perfAuxBuffer[tailWrap..tailWrap + len];
      } else {
        var ownedData := JoinSplitTrace(headWrap, tailWrap);
        assert |ownedData[..]| == size - tailWrap + headWrap;
        if len > ownedData.Length {
          return OutOfBounds;
        }
        outcome := Decoded(ownedData[..len]);
        assert ownedData[..][..len] == ownedData[..len];
      }
      auxTail := head;
      previousDecodeHead := head;
    }
  }
}
