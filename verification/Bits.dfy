/**
  Bit-level arithmetic on unbounded naturals.

  The modelled code computes remainders and alignments with masks (`x & (2^k - 1)`, `x & !(2^k - 1)`).
  The masks are modelled bit by bit here, and the lemmas give their arithmetic meaning.
 */
module Bits {

  function Pow2(k: nat): (r: nat)
    ensures r > 0
  {
    if k == 0 then 1 else 2 * Pow2(k - 1)
  }

  ghost predicate IsPowerOfTwo(n: nat) {
    exists k: nat :: n == Pow2(k)
  }

  /** `x & y`, one bit at a time. */
  function BitAnd(x: nat, y: nat): nat {
    if x == 0 || y == 0 then 0
    else 2 * BitAnd(x / 2, y / 2) + (if x % 2 == 1 && y % 2 == 1 then 1 else 0)
  }

  /** `x & !y`, one bit at a time. */
  function AndNot(x: nat, y: nat): nat {
    if x == 0 then 0
    else 2 * AndNot(x / 2, y / 2) + (if x % 2 == 1 && y % 2 == 0 then 1 else 0)
  }

  lemma {:induction false} Pow2Add(a: nat, b: nat)
    ensures Pow2(a + b) == Pow2(a) * Pow2(b)
  {
    if a != 0 {
      Pow2Add(a - 1, b);
      assert Pow2(a + b) == 2 * (Pow2(a - 1) * Pow2(b));
    }
  }

  lemma {:induction false} Pow2Strict(a: nat, b: nat)
    requires a < b
    ensures Pow2(a) < Pow2(b)
  {
    if a < b - 1 {
      Pow2Strict(a, b - 1);
    }
  }

  /** Halving commutes with taking a remainder by a power of two. */
  lemma ModHalf(x: nat, m: nat)
    requires m > 0
    ensures x % (2 * m) == 2 * ((x / 2) % m) + x % 2
  {
    var h := x / 2;
    var q := h / m;
    assert h == m * q + h % m;
    assert x == (2 * m) * q + (2 * (h % m) + x % 2) by {
      assert x == 2 * h + x % 2;
      assert 2 * (m * q) == (2 * m) * q;
    }
    ModUnique(x, 2 * m, q, 2 * (h % m) + x % 2);
  }

  lemma MulAtLeast(m: nat, d: int)
    requires d >= 1
    ensures m * d >= m
  {
  }

  /** Quotient and remainder are unique. */
  lemma ModUnique(x: int, m: nat, q: int, r: nat)
    requires m > 0 && x == m * q + r && r < m
    ensures x % m == r && x / m == q
  {
    var q', r' := x / m, x % m;
    var d := q - q';
    assert m * d == r' - r by {
      assert m * q == m * q' + m * d;
    }
    if d >= 1 {
      MulAtLeast(m, d);
    } else if d <= -1 {
      assert m * d == -(m * -d);
      MulAtLeast(m, -d);
    }
  }

  // ----- multiples -----

  lemma SumOfMultiples(x: nat, y: nat, m: nat)
    requires m > 0 && x % m == 0 && y % m == 0
    ensures (x + y) % m == 0
  {
    var p, q := x / m, y / m;
    assert x == m * p && y == m * q;
    assert x + y == m * (p + q);
    ModUnique(x + y, m, p + q, 0);
  }

  lemma MultipleOfMultiple(x: nat, m: nat, d: nat)
    requires m > 0 && d > 0 && x % m == 0 && m % d == 0
    ensures x % d == 0
  {
    var p, q := x / m, m / d;
    assert x == (d * q) * p && (d * q) * p == d * (q * p);
    ModUnique(x, d, q * p, 0);
  }

  lemma DifferenceOfMultiples(x: nat, y: nat, m: nat)
    requires m > 0 && x % m == 0 && y % m == 0 && y <= x
    ensures (x - y) % m == 0
  {
    var p, q := x / m, y / m;
    assert x == m * p && y == m * q;
    assert x - y == m * (p - q);
    ModUnique(x - y, m, p - q, 0);
  }

  /** A positive multiple is at least the number itself. */
  lemma LeastMultiple(x: nat, m: nat)
    requires m > 0 && x % m == 0 && x > 0
    ensures m <= x
  {
  }

  // ----- masks -----

  /** `x & (2^k - 1)` is the remainder by `2^k`. */
  lemma {:induction false} MaskIsMod(x: nat, k: nat)
    ensures BitAnd(x, Pow2(k) - 1) == x % Pow2(k)
  {
    hide BitAnd;
    if k == 0 {
      BitAndZero(x);
      ModUnique(x, 1, x, 0);
    } else {
      MaskIsMod(x / 2, k - 1);
      MaskStep(x, Pow2(k - 1), Pow2(k));
    }
  }

  lemma BitAndZero(x: nat)
    ensures BitAnd(x, 0) == 0
  {
  }

  lemma MaskStep(x: nat, m: nat, p: nat)
    requires m > 0 && p == 2 * m && BitAnd(x / 2, m - 1) == (x / 2) % m
    ensures BitAnd(x, p - 1) == x % p
  {
    ModUnique(p - 1, 2, m - 1, 1);
    assert BitAnd(x, p - 1) == 2 * BitAnd(x / 2, m - 1) + x % 2;
    hide BitAnd;
    ModHalf(x, m);
  }

  /** `x & !(2^k - 1)` rounds down to a multiple of `2^k`. */
  lemma {:induction false} AndNotIsFloor(x: nat, k: nat)
    ensures AndNot(x, Pow2(k) - 1) == x - x % Pow2(k)
  {
    hide AndNot;
    if k == 0 {
      AndNotZero(x);
      ModUnique(x, 1, x, 0);
    } else if x == 0 {
      AndNotOfZero(Pow2(k) - 1);
      ModUnique(0, Pow2(k), 0, 0);
    } else {
      AndNotIsFloor(x / 2, k - 1);
      AndNotStep(x, Pow2(k - 1), Pow2(k));
    }
  }

  lemma AndNotOfZero(y: nat)
    ensures AndNot(0, y) == 0
  {
  }

  lemma AndNotStep(x: nat, m: nat, p: nat)
    requires m > 0 && p == 2 * m && AndNot(x / 2, m - 1) == x / 2 - (x / 2) % m
    ensures AndNot(x, p - 1) == x - x % p
  {
    ModUnique(p - 1, 2, m - 1, 1);
    assert AndNot(x, p - 1) == 2 * AndNot(x / 2, m - 1);
    hide AndNot;
    ModHalf(x, m);
  }

  lemma {:induction false} AndNotZero(x: nat)
    ensures AndNot(x, 0) == x
  {
    if x != 0 {
      AndNotZero(x / 2);
    }
  }
}
