/**
  The lazily committed shadow reservation.

  The address range of the shadow is reserved once and committed page by page.  `pages` is the set of
  committed shadow addresses and `pieces` the list of address ranges that are still only reserved.
 */
module ReservedShadow {
  import Bits
  import opened ShadowBits

  datatype Range = Range(start: nat, end: nat)

  /** The end of the maximal run of uncommitted addresses that begins at `lo`, cut off at `hi`. */
  function RunEnd(pages: set<nat>, lo: nat, hi: nat): (e: nat)
    requires lo <= hi
    ensures lo <= e <= hi
    ensures forall x :: lo <= x < e ==> x !in pages
    ensures e == hi || e in pages
    decreases hi - lo
  {
    if lo == hi || lo in pages then lo else RunEnd(pages, lo + 1, hi)
  }

  /** The maximal uncommitted ranges inside [lo, hi), in ascending order. */
  function Gaps(pages: set<nat>, lo: nat, hi: nat): (gaps: seq<Range>)
    requires lo <= hi
    decreases hi - lo
  {
    if lo == hi then []
    else if lo in pages then Gaps(pages, lo + 1, hi)
    else
      var e := RunEnd(pages, lo, hi);
      [Range(lo, e)] + Gaps(pages, e, hi)
  }

  /** `g` is a non-empty uncommitted range inside [lo, hi) that cannot be extended in either direction. */
  ghost predicate MaximalGap(g: Range, pages: set<nat>, lo: nat, hi: nat) {
    && lo <= g.start < g.end <= hi
    && (forall x :: g.start <= x < g.end ==> x !in pages)
    && (g.start == lo || g.start - 1 in pages)
    && (g.end == hi || g.end in pages)
  }

  predicate InRange(g: Range, x: nat) {
    g.start <= x < g.end
  }

  ghost predicate InSome(gs: seq<Range>, x: nat) {
    exists i :: 0 <= i < |gs| && InRange(gs[i], x)
  }

  /** `Gaps` lists maximal gaps only, in order, and every uncommitted address is in one of them. */
  lemma {:induction false} GapsAreTheMaximalGaps(pages: set<nat>, lo: nat, hi: nat)
    requires lo <= hi
    ensures forall i :: 0 <= i < |Gaps(pages, lo, hi)| ==> MaximalGap(Gaps(pages, lo, hi)[i], pages, lo, hi)
    ensures forall i, j :: 0 <= i < j < |Gaps(pages, lo, hi)| ==>
                             Gaps(pages, lo, hi)[i].end <= Gaps(pages, lo, hi)[j].start
    ensures forall x: nat :: lo <= x < hi && x !in pages ==> InSome(Gaps(pages, lo, hi), x)
    decreases hi - lo
  {
    var gs := Gaps(pages, lo, hi);
    if lo == hi {
    } else if lo in pages {
      GapsAreTheMaximalGaps(pages, lo + 1, hi);
      assert gs == Gaps(pages, lo + 1, hi);
      forall i | 0 <= i < |gs| ensures MaximalGap(gs[i], pages, lo, hi) {
        assert MaximalGap(gs[i], pages, lo + 1, hi);
      }
    } else {
      var e := RunEnd(pages, lo, hi);
      var rest := Gaps(pages, e, hi);
      GapsAreTheMaximalGaps(pages, e, hi);
      assert gs == [Range(lo, e)] + rest;
      forall i | 0 <= i < |gs| ensures MaximalGap(gs[i], pages, lo, hi) && (i > 0 ==> e <= gs[i].start) {
        if i > 0 {
          assert MaximalGap(rest[i - 1], pages, e, hi);
        }
      }
      forall i, j | 0 <= i < j < |gs| ensures gs[i].end <= gs[j].start {
        assert gs[j] == rest[j - 1];
        if i > 0 {
          assert gs[i] == rest[i - 1];
        }
      }
      forall x: nat | lo <= x < hi && x !in pages ensures InSome(gs, x) {
        if x < e {
          assert InRange(gs[0], x);
        } else {
          var i :| 0 <= i < |rest| && InRange(rest[i], x);
          assert InRange(gs[i + 1], x);
        }
      }
    }
  }

  /** Committed memory consists of whole pages. */
  ghost predicate WholePages(pages: set<nat>, pageSize: nat)
    requires pageSize > 0
  {
    forall x: nat {:trigger PageStart(x, pageSize)} :: x in pages <==> PageStart(x, pageSize) in pages
  }

  /** The start of the page that holds `x`. */
  function PageStart(x: nat, pageSize: nat): nat
    requires pageSize > 0
  {
    x - x % pageSize
  }

  /**
    Committed pages and non-empty reserved pieces tile the reservation [lo, hi):
    an address is either committed or in a reserved piece, no two pieces share an address, and no two
    non-empty pieces touch, so that each piece is a whole maximal gap.
   */
  ghost predicate Tiling(pieces: seq<Range>, pages: set<nat>, lo: nat, hi: nat, pageSize: nat)
    requires pageSize > 0
  {
    && WholePages(pages, pageSize)
    && pages <= Addresses(Range(lo, hi))
    && (forall i {:trigger PieceOk(pieces[i], lo, hi, pageSize)} ::
          0 <= i < |pieces| ==> PieceOk(pieces[i], lo, hi, pageSize))
    && (forall i, j {:trigger Apart(pieces[i], pieces[j])} ::
          0 <= i < |pieces| && 0 <= j < |pieces| && i != j ==> Apart(pieces[i], pieces[j]))
    && (forall x: nat {:trigger InSome(pieces, x)} :: lo <= x < hi ==> (x !in pages <==> InSome(pieces, x)))
  }

  ghost predicate PieceOk(r: Range, lo: nat, hi: nat, pageSize: nat)
    requires pageSize > 0
  {
    lo <= r.start <= r.end <= hi && r.start % pageSize == 0 && r.end % pageSize == 0
  }

  /** Two pieces are apart if one of them is empty or there is an address between them. */
  ghost predicate Apart(r: Range, s: Range) {
    r.start == r.end || s.start == s.end || r.end < s.start || s.end < r.start
  }

  /** The reserved piece `r` is the one that holds the gap `g`. */
  predicate Holds(r: Range, g: Range) {
    g.start >= r.start && g.end <= r.end
  }

  /** Every uncommitted range of the reservation lies inside exactly one reserved piece. */
  lemma GapInOnePiece(pieces: seq<Range>, pages: set<nat>, lo: nat, hi: nat, pageSize: nat, g: Range) returns (i: nat)
    requires pageSize > 0 && Tiling(pieces, pages, lo, hi, pageSize)
    requires lo <= g.start < g.end <= hi
    requires forall x :: g.start <= x < g.end ==> x !in pages
    ensures i < |pieces| && Holds(pieces[i], g)
    ensures forall j :: 0 <= j < |pieces| && Holds(pieces[j], g) ==> j == i
  {
    assert InSome(pieces, g.start);
    i :| 0 <= i < |pieces| && InRange(pieces[i], g.start);
    assert pieces[i].end < hi ==> pieces[i].end in pages by {
      forall j | 0 <= j < |pieces| ensures !InRange(pieces[j], pieces[i].end) {
        assert j != i ==> Apart(pieces[i], pieces[j]);
      }
      assert !InSome(pieces, pieces[i].end);
    }
    forall j | 0 <= j < |pieces| && j != i ensures !Holds(pieces[j], g) {
      assert Apart(pieces[i], pieces[j]);
    }
  }

  /** Each maximal uncommitted gap of the reservation is exactly one of the reserved pieces. */
  lemma MaximalGapIsAPiece(pieces: seq<Range>, pages: set<nat>, lo: nat, hi: nat, pageSize: nat, g: Range)
    returns (i: nat)
    requires pageSize > 0 && Tiling(pieces, pages, lo, hi, pageSize)
    requires MaximalGap(g, pages, lo, hi)
    ensures i < |pieces| && pieces[i] == g
    ensures forall j :: 0 <= j < |pieces| && pieces[j] == g ==> j == i
  {
    i := GapInOnePiece(pieces, pages, lo, hi, pageSize, g);
    var r := pieces[i];
    assert PieceOk(r, lo, hi, pageSize);
    if r.start < g.start {
      assert InRange(r, g.start - 1);
      assert InSome(pieces, g.start - 1);
    }
    if g.end < r.end {
      assert InRange(r, g.end);
      assert InSome(pieces, g.end);
    }
    forall j | 0 <= j < |pieces| && pieces[j] == g ensures j == i {
      assert Holds(pieces[j], g);
    }
  }

  function Addresses(g: Range): (s: set<nat>) {
    set x: nat {:trigger InRange(g, x)} | g.start <= x < g.end && InRange(g, x)
  }

  /** All addresses of the given ranges. */
  function AllAddresses(gs: seq<Range>): (s: set<nat>)
    ensures forall x: nat :: x in s <==> InSome(gs, x)
  {
    if gs == [] then {}
    else
      var last := |gs| - 1;
      assert forall x: nat :: InSome(gs, x) <==> InSome(gs[..last], x) || InRange(gs[last], x) by {
        forall x: nat | InSome(gs, x) ensures InSome(gs[..last], x) || InRange(gs[last], x) {
          var i :| 0 <= i < |gs| && InRange(gs[i], x);
          if i < last { assert InRange(gs[..last][i], x); }
        }
        forall x: nat | InSome(gs[..last], x) ensures InSome(gs, x) {
          var i :| 0 <= i < last && InRange(gs[..last][i], x);
          assert InRange(gs[i], x);
        }
        forall x: nat | InRange(gs[last], x) ensures InSome(gs, x) {
        }
      }
      AllAddresses(gs[..last]) + Addresses(gs[last])
  }

  /** The reserved pieces after the gap `g` has been cut out of piece `i`. */
  function CutPieces(pieces: seq<Range>, i: nat, g: Range): seq<Range>
    requires i < |pieces| && Holds(pieces[i], g)
  {
    pieces[i := Range(pieces[i].start, g.start)] + if g.end < pieces[i].end then [Range(g.end, pieces[i].end)] else []
  }

  /** Cutting a page-aligned gap out of the piece that holds it and committing it keeps the tiling. */
  lemma CutKeepsTiling(pieces: seq<Range>, pages: set<nat>, lo: nat, hi: nat, pageSize: nat, i: nat, g: Range)
    requires pageSize > 0 && Tiling(pieces, pages, lo, hi, pageSize)
    requires i < |pieces| && Holds(pieces[i], g) && g.start < g.end
    requires g.start % pageSize == 0 && g.end % pageSize == 0
    ensures Tiling(CutPieces(pieces, i, g), pages + Addresses(g), lo, hi, pageSize)
  {
    var after := CutPieces(pieces, i, g);
    var pages' := pages + Addresses(g);
    assert PieceOk(pieces[i], lo, hi, pageSize);
    forall x: nat ensures x in pages' <==> PageStart(x, pageSize) in pages' {
      AlignedRange(g, pageSize, x);
    }
    forall x: nat | lo <= x < hi ensures x !in pages' <==> InSome(after, x) {
      CutCovers(pieces, pages, lo, hi, pageSize, i, g, x);
    }
    forall j, k | 0 <= j < |after| && 0 <= k < |after| && j != k ensures Apart(after[j], after[k]) {
      var j' := if j < |pieces| then j else i;
      var k' := if k < |pieces| then k else i;
      assert j' != k' ==> Apart(pieces[j'], pieces[k']);
    }
    forall j | 0 <= j < |after| ensures PieceOk(after[j], lo, hi, pageSize) {
      if j < |pieces| { assert PieceOk(pieces[j], lo, hi, pageSize); }
    }
  }

  /** After the cut an address of the reservation is either committed or in a reserved piece. */
  lemma CutCovers(pieces: seq<Range>, pages: set<nat>, lo: nat, hi: nat, pageSize: nat, i: nat, g: Range, x: nat)
    requires pageSize > 0 && Tiling(pieces, pages, lo, hi, pageSize) && lo <= x < hi
    requires i < |pieces| && Holds(pieces[i], g) && g.start < g.end
    ensures x !in pages + Addresses(g) <==> InSome(CutPieces(pieces, i, g), x)
  {
    CutAddress(pieces, i, g, x);
    assert x !in pages <==> InSome(pieces, x);
    assert x in Addresses(g) <==> InRange(g, x);
    if InRange(pieces[i], x) {
      forall k | 0 <= k < |pieces| && k != i ensures !InRange(pieces[k], x) {
        assert Apart(pieces[k], pieces[i]);
      }
    }
  }

  /** A page-aligned range contains an address exactly when it contains the start of the address's page. */
  lemma AlignedRange(g: Range, pageSize: nat, x: nat)
    requires pageSize > 0 && g.start % pageSize == 0 && g.end % pageSize == 0
    ensures InRange(g, x) <==> InRange(g, x - x % pageSize)
  {
    PageFloor(g.start, pageSize, x);
    PageFloor(g.end, pageSize, x);
  }

  /** A page boundary is at or below an address exactly when it is at or below the start of the address's page. */
  lemma PageFloor(b: nat, pageSize: nat, x: nat)
    requires pageSize > 0 && b % pageSize == 0
    ensures b <= x <==> b <= x - x % pageSize
  {
    var q, r := x / pageSize, x % pageSize;
    var n := b / pageSize;
    assert x == pageSize * q + r && b == pageSize * n;
    if n <= q {
      assert pageSize * n <= pageSize * q;
    } else {
      assert pageSize * (q + 1) <= pageSize * n;
    }
  }

  /** Which addresses the pieces hold after the cut. */
  lemma CutAddress(pieces: seq<Range>, i: nat, g: Range, x: nat)
    requires i < |pieces| && Holds(pieces[i], g) && g.start < g.end
    ensures InSome(CutPieces(pieces, i, g), x) <==>
            || (InRange(pieces[i], x) && !InRange(g, x))
            || exists k :: 0 <= k < |pieces| && k != i && InRange(pieces[k], x)
  {
    var after := CutPieces(pieces, i, g);
    if k :| 0 <= k < |pieces| && k != i && InRange(pieces[k], x) {
      assert InRange(after[k], x);
    }
    if InRange(pieces[i], x) && !InRange(g, x) {
      if x < g.start {
        assert InRange(after[i], x);
      } else {
        assert InRange(after[|pieces|], x);
      }
    }
    if InSome(after, x) {
      var k :| 0 <= k < |after| && InRange(after[k], x);
      if k < |pieces| && k != i {
        assert InRange(pieces[k], x);
      }
    }
  }

  /** Gap boundaries are page-aligned, so that a reserved piece can be split there. */
  lemma GapAligned(pages: set<nat>, lo: nat, hi: nat, pageSize: nat, g: Range)
    requires pageSize > 0 && WholePages(pages, pageSize)
    requires lo % pageSize == 0 && hi % pageSize == 0
    requires MaximalGap(g, pages, lo, hi)
    ensures g.start % pageSize == 0 && g.end % pageSize == 0
  {
    if g.start != lo {
      BoundaryAligned(pages, pageSize, g.start);
    }
    if g.end != hi {
      BoundaryAligned(pages, pageSize, g.end);
    }
  }

  /** Committed and uncommitted memory meet at page boundaries only. */
  lemma BoundaryAligned(pages: set<nat>, pageSize: nat, x: nat)
    requires pageSize > 0 && WholePages(pages, pageSize)
    requires x > 0 && (x in pages <==> x - 1 !in pages)
    ensures x % pageSize == 0
  {
    assert x in pages <==> PageStart(x, pageSize) in pages;
    assert x - 1 in pages <==> PageStart(x - 1, pageSize) in pages;
    if x % pageSize != 0 {
      FloorOfPrevious(x, pageSize);
    }
  }

  lemma FloorOfPrevious(x: nat, pageSize: nat)
    requires pageSize > 0 && x % pageSize != 0
    ensures (x - 1) - (x - 1) % pageSize == x - x % pageSize
  {
    var q, r := x / pageSize, x % pageSize;
    assert x == pageSize * q + r;
    Bits.ModUnique(x - 1, pageSize, q, r - 1);
  }
}
