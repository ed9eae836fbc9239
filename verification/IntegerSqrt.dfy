/** The integer square root by binary search over unsigned 64-bit numbers. */
module IntegerSqrt {

  const U64_MAX: nat := 0xffff_ffff_ffff_ffff

  type U64 = x: nat | x <= U64_MAX

  /** The product, cut off at the largest 64-bit number. */
  function SaturatingMul(a: U64, b: U64): U64 {
    if a * b > U64_MAX then U64_MAX else a * b
  }

  /** The midpoint, rounded down, without overflow. */
  function Midpoint(a: U64, b: U64): U64 {
    (a + b) / 2
  }

  /** Comparing the saturated square with a number below the largest one compares the true square. */
  lemma SaturationHarmless(m: U64, val: U64)
    requires val < U64_MAX
    ensures SaturatingMul(m, m) <= val <==> m * m <= val
  {
  }

  lemma SquareMonotone(a: nat, b: nat)
    requires a <= b
    ensures a * a <= b * b
  {
    assert b * b == a * a + (b - a) * (b + a);
  }

  /** For every 64-bit number the result is the largest number whose square is not above it. */
  method Sqrt(val: U64) returns (ret: U64)
    ensures ret * ret <= val < (ret + 1) * (ret + 1)
  {
    if val == U64_MAX {
      return 0xffff_ffff;
    }
    ret := 0;
    var i: U64 := val + 1;
    while ret != i - 1
      invariant ret < i <= val + 1
      invariant ret * ret <= val < i * i
      decreases i - ret
    {
      var m := Midpoint(ret, i);
      SaturationHarmless(m, val);
      if SaturatingMul(m, m) <= val {
        ret := m;
      } else {
        i := m;
      }
    }
  }

  /** The result is determined by the contract of `Sqrt`. */
  lemma RootUnique(val: nat, r: nat, s: nat)
    requires r * r <= val < (r + 1) * (r + 1) && s * s <= val < (s + 1) * (s + 1)
    ensures r == s
  {
    if r < s {
      SquareMonotone(r + 1, s);
    } else if s < r {
      SquareMonotone(s + 1, r);
    }
  }
}
