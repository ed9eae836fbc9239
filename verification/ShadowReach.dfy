/**
  How far the shadow reaches that is committed with a region: whether it covers the unused pages up to the next region.
 */
module ShadowReach {
  import opened Bits
  import opened ReservedShadow
  import opened AllocatorState

  // ----- in pages -----

  /** Page `k` and `len` pages behind it, in regions at multiples of `g` pages: the shadow reaches the next region. */
  predicate Reaches(k: nat, len: nat, g: nat)
    requires g > 0
  {
    k + g * (len / g + 1) <= 8 * (k / 8 + len / 8 + 2)
  }

  /** The shadow reaches the next region in all cases if and only if the granularity is at most 16 pages. */
  lemma ReachesIffDense(g: nat)
    requires IsPowerOfTwo(g)
    ensures g <= 16 <==> forall k: nat, len: nat :: k % g == 0 ==> Reaches(k, len, g)
  {
    if g <= 16 {
      SmallPowers(g);
      forall k: nat, len: nat | k % g == 0 ensures Reaches(k, len, g) {
        DenseReaches(k, len, g);
      }
    } else {
      LargePowers(g);
      ModUnique(3, g, 0, 3);
      ModUnique(0, g, 0, 0);
      assert !Reaches(0, 3, g);
    }
  }

  lemma SmallPowers(g: nat)
    requires IsPowerOfTwo(g) && g <= 16
    ensures g in {1, 2, 4, 8, 16}
  {
    var n: nat :| g == Pow2(n);
    assert Pow2(0) == 1 && Pow2(1) == 2 && Pow2(2) == 4 && Pow2(3) == 8 && Pow2(4) == 16;
    if n > 4 {
      Pow2Strict(4, n);
    }
  }

  lemma LargePowers(g: nat)
    requires IsPowerOfTwo(g) && g > 16
    ensures g >= 32
  {
    var n: nat :| g == Pow2(n);
    assert Pow2(4) == 16 && Pow2(5) == 32;
    if n < 4 {
      Pow2Strict(n, 4);
    } else if n > 5 {
      Pow2Strict(5, n);
    }
  }

  lemma DenseReaches(k: nat, len: nat, g: nat)
    requires g in {1, 2, 4, 8, 16} && k % g == 0
    ensures Reaches(k, len, g)
  {
    WholePart(len, g);
    if g == 16 {
      ModUnique(k, 8, 2 * (k / 16), 0);
      assert 8 * (2 * (len / 16)) <= 8 * (len / 8);
    } else {
      LastPage(k, g);
    }
  }

  lemma WholePart(len: nat, g: nat)
    requires g > 0
    ensures g * (len / g) <= len
  {
  }

  lemma LastPage(k: nat, g: nat)
    requires g in {1, 2, 4, 8} && k % g == 0
    ensures k % 8 <= 8 - g
  {
  }

  // ----- in bytes -----

  /** `r` is the shadow range committed for `len` bytes at `current`: it covers all shadow up to the next region. */
  ghost predicate BytesReach(granularity: nat, offset: nat, current: nat, len: nat, r: Range)
    requires granularity > 0
  {
    offset + (current + RoundUpToPage(len, granularity) + 7) / 8 <= r.end
  }

  /** `r` is that range for `len` bytes at `current`, as the code rounds it. */
  ghost predicate RoundedRange(pageSize: nat, offset: nat, current: nat, len: nat, r: Range)
    requires pageSize > 0
  {
    && r.start % pageSize == 0 && r.end % pageSize == 0
    && r.start <= offset + current / 8 < r.start + pageSize
    && r.start + len / 8 + pageSize < r.end <= r.start + len / 8 + 2 * pageSize
  }

  /** For page `k` and `l` pages behind it, the range in bytes reaches the next region if and only if the pages do. */
  lemma BytesReachIff(pageSize: nat, g: nat, granularity: nat, offset: nat, k: nat, l: nat, r: Range)
    requires pageSize > 0 && pageSize % 8 == 0 && g > 0 && offset % pageSize == 0
    requires granularity > 0 && granularity == pageSize * g
    requires RoundedRange(pageSize, offset, pageSize * k, pageSize * l, r)
    ensures BytesReach(granularity, offset, pageSize * k, pageSize * l, r) <==> Reaches(k, l, g)
  {
    hide RoundUpToPage;
    var p := pageSize / 8;
    var o := Pages(offset, pageSize);
    var e := Pages(r.end, pageSize);
    RoundUpPages(pageSize * l, pageSize, l, g);
    StartPage(r.start, pageSize, o, k, p);
    EndPage(pageSize, o, k, l, e, r);
    hide RoundedRange;
    NextShadow(p, k, g * (l / g + 1), k / 8 + l / 8 + 2, pageSize);
    Distribute(pageSize, o, k / 8 + l / 8 + 2);
  }

  lemma Pages(x: nat, pageSize: nat) returns (q: nat)
    requires pageSize > 0 && x % pageSize == 0
    ensures x == pageSize * q
  {
    q := x / pageSize;
  }

  lemma RegionPage(current: nat, pageSize: nat, g: nat, granularity: nat) returns (k: nat)
    requires pageSize > 0 && g > 0 && granularity > 0 && granularity == pageSize * g && current % granularity == 0
    ensures current == pageSize * k && k % g == 0
  {
    var q := current / granularity;
    assert current == granularity * q;
    Associate(pageSize, g, q);
    k := g * q;
    ModUnique(k, g, q, 0);
  }

  /** The shadow of the first `k + n` pages ends within `m` pages. */
  lemma NextShadow(p: nat, k: nat, n: nat, m: nat, pageSize: nat)
    requires pageSize == 8 * p && p > 0
    ensures (pageSize * k + pageSize * n + 7) / 8 <= pageSize * m <==> k + n <= 8 * m
  {
    var x := k + n;
    assert pageSize * k + pageSize * n == 8 * (p * x) by {
      Associate(8, p, x);
      assert pageSize * (k + n) == pageSize * k + pageSize * n;
    }
    ModUnique(8 * (p * x) + 7, 8, p * x, 7);
    assert pageSize * m == p * (8 * m) by {
      Associate(p, 8, m);
    }
    if x <= 8 * m {
      MulMonotone(p, x, 8 * m);
    } else {
      MulMonotone(p, 8 * m + 1, x);
      assert p * (8 * m + 1) == p * (8 * m) + p;
    }
  }

  lemma Distribute(m: nat, x: nat, y: nat)
    ensures m * (x + y) == m * x + m * y
  {
  }

  lemma MulMonotone(m: nat, x: nat, y: nat)
    requires x <= y
    ensures m * x <= m * y
  {
  }

  /** The shadow of `k` pages of `8 * p` bytes is `k / 8` whole pages and a rest below a page. */
  lemma EighthOfPages(p: nat, k: nat)
    ensures ((8 * p) * k) / 8 == p * k
    ensures (8 * p) * (k / 8) <= p * k
    ensures p > 0 ==> p * k < (8 * p) * (k / 8) + 8 * p
  {
    assert (8 * p) * k == 8 * (p * k);
    var a, b := k / 8, k % 8;
    assert p * k == (8 * p) * a + p * b by {
      assert p * (8 * a + b) == p * (8 * a) + p * b;
    }
    MulMonotone(p, b, 7);
  }

  lemma RoundUpPages(len: nat, pageSize: nat, l: nat, g: nat)
    requires pageSize > 0 && g > 0 && len == pageSize * l
    ensures RoundUpToPage(len, pageSize * g) == pageSize * (g * (l / g + 1))
  {
    hide *;
    var m := pageSize * g;
    var a, b := l / g, l % g;
    assert l == g * a + b && b < g;
    WholeAndRest(pageSize, g, a, b, l);
    ModUnique(len + m, m, a + 1, pageSize * b);
    RoundUpIs(len, m, a + 1);
    Associate(pageSize, g, a + 1);
  }

  lemma RoundUpIs(size: nat, m: nat, q: nat)
    requires m > 0 && (size + m) / m == q
    ensures RoundUpToPage(size, m) == m * q
  {
  }

  lemma Associate(x: nat, y: nat, z: nat)
    ensures (x * y) * z == x * (y * z)
  {
  }

  lemma WholeAndRest(pageSize: nat, g: nat, a: nat, b: nat, l: nat)
    requires pageSize > 0 && l == g * a + b && b < g
    ensures pageSize * l + pageSize * g == (pageSize * g) * (a + 1) + pageSize * b
    ensures pageSize * b < pageSize * g && pageSize * g > 0
  {
    Associate(pageSize, g, a);
    assert pageSize * (g * a + b) == pageSize * (g * a) + pageSize * b;
    assert (pageSize * g) * (a + 1) == (pageSize * g) * a + pageSize * g;
    MulMonotone(pageSize, b + 1, g);
    assert pageSize * (b + 1) == pageSize * b + pageSize;
  }

  lemma StartPage(start: nat, pageSize: nat, o: nat, k: nat, p: nat)
    requires pageSize > 0 && start % pageSize == 0 && pageSize == 8 * p
    requires start <= pageSize * o + (pageSize * k) / 8 < start + pageSize
    ensures start == pageSize * (o + k / 8)
  {
    EighthOfPages(p, k);
    var x := pageSize * o + p * k;
    var f := pageSize * (o + k / 8);
    assert f == pageSize * o + pageSize * (k / 8);
    ModUnique(x, pageSize, o + k / 8, x - f);
    var s := Pages(start, pageSize);
    ModUnique(x, pageSize, s, x - start);
  }

  lemma EndPage(pageSize: nat, o: nat, k: nat, l: nat, e: nat, r: Range)
    requires pageSize > 0 && pageSize % 8 == 0
    requires r.start == pageSize * (o + k / 8) && r.end == pageSize * e
    requires r.start + (pageSize * l) / 8 + pageSize < r.end <= r.start + (pageSize * l) / 8 + 2 * pageSize
    ensures e == o + (k / 8 + l / 8 + 2)
  {
    EighthOfPages(pageSize / 8, l);
    var m := o + k / 8 + l / 8 + 1;
    assert pageSize * m == pageSize * (o + k / 8) + pageSize * (l / 8) + pageSize;
    assert pageSize * (m + 2) == pageSize * m + 2 * pageSize;
    if e <= m {
      MulMonotone(pageSize, e, m);
    }
    if e >= m + 2 {
      MulMonotone(pageSize, m + 2, e);
    }
  }

  /** A region takes a whole number of pages. */
  lemma WholePagesCharged(size: nat, pageSize: nat)
    requires pageSize > 0
    ensures RegionSize(size, pageSize) % pageSize == 0
  {
    RoundUpIsNextPage(size, pageSize);
    ModUnique(2 * pageSize, pageSize, 2, 0);
    SumOfMultiples(RoundUpToPage(size, pageSize), 2 * pageSize, pageSize);
  }
}
