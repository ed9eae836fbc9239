/**
  Vectorised operations on coverage maps against their simple loops.

  A vector type is its lane count; a reducer is a function on bytes that vectors apply lane by lane.
 */
module Simd {

  type Reducer = (bv8, bv8) -> bv8

  function MaxReducer(first: bv8, second: bv8): bv8 {
    if first > second then first else second
  }

  function MinReducer(first: bv8, second: bv8): bv8 {
    if first < second then first else second
  }

  function OrReducer(history: bv8, current: bv8): bv8 {
    history | current
  }

  function AndReducer(history: bv8, current: bv8): bv8 {
    history & current
  }

  function NopReducer(history: bv8, current: bv8): bv8 {
    current
  }

  // ----- simplify_map -----

  function Simplify(x: bv8): bv8 {
    if x == 0 then 0x1 else 0x80
  }

  /** A map with every byte simplified. */
  function Simplified(cov: seq<bv8>): (r: seq<bv8>)
    ensures |r| == |cov|
  {
    seq(|cov|, i requires 0 <= i < |cov| => Simplify(cov[i]))
  }

  /** The vector comparison: lanes that are equal become all ones, the others zero. */
  function SimdEq(a: seq<bv8>, b: seq<bv8>): (mask: seq<bv8>)
    requires |a| == |b|
    ensures |mask| == |a|
  {
    seq(|a|, i requires 0 <= i < |a| => if a[i] == b[i] then 0xff else 0)
  }

  /** The bitwise selection between two vectors. */
  function Select(mask: seq<bv8>, ifTrue: seq<bv8>, ifFalse: seq<bv8>): (r: seq<bv8>)
    requires |mask| == |ifTrue| == |ifFalse|
    ensures |r| == |mask|
  {
    seq(|mask|, i requires 0 <= i < |mask| => (mask[i] & ifTrue[i]) | (!mask[i] & ifFalse[i]))
  }

  function Splat(n: nat, x: bv8): (r: seq<bv8>)
    ensures |r| == n
  {
    seq(n, _ => x)
  }

  /** Comparing with zero and selecting simplifies every lane. */
  lemma SelectSimplifies(mp: seq<bv8>)
    ensures Select(SimdEq(mp, Splat(|mp|, 0)), Splat(|mp|, 0x1), Splat(|mp|, 0x80)) == Simplified(mp)
  {
    forall i | 0 <= i < |mp|
      ensures Select(SimdEq(mp, Splat(|mp|, 0)), Splat(|mp|, 0x1), Splat(|mp|, 0x80))[i] == Simplify(mp[i])
    {
    }
  }

  method SimplifyMapNaive(cov: array<bv8>)
    modifies cov
    ensures cov[..] == Simplified(old(cov[..]))
    ensures forall k :: 0 <= k < cov.Length ==> cov[k] == if old(cov[k]) == 0 then 0x1 else 0x80
  {
    for i := 0 to cov.Length
      invariant forall k :: 0 <= k < i ==> cov[k] == Simplify(old(cov[k]))
      invariant forall k :: i <= k < cov.Length ==> cov[k] == old(cov[k])
    {
      cov[i] := if cov[i] == 0 then 0x1 else 0x80;
    }
  }

  /** The vector version, for `n` lanes: it leaves the same map as the simple loop. */
  method SimplifyMapSimd(cov: array<bv8>, n: nat)
    requires n > 0
    modifies cov
    ensures cov[..] == Simplified(old(cov[..]))
    ensures forall k :: 0 <= k < cov.Length ==> cov[k] == if old(cov[k]) == 0 then 0x1 else 0x80
  {
    var size := cov.Length;
    var steps, left := size / n, size % n;
    StepsFit(size, n);
    for step := 0 to steps
      invariant step * n <= size
      invariant forall k :: 0 <= k < step * n ==> cov[k] == Simplify(old(cov[k]))
      invariant forall k :: step * n <= k < size ==> cov[k] == old(cov[k])
    {
      StepInside(step, steps, n, size);
      SimplifyVector(cov, step * n, n);
    }
    for j := size - left to size
      invariant forall k :: 0 <= k < j ==> cov[k] == Simplify(old(cov[k]))
      invariant forall k :: j <= k < size ==> cov[k] == old(cov[k])
    {
      cov[j] := if cov[j] == 0 then 0x1 else 0x80;
    }
  }

  /** One vector: load, compare with zero, select, store. */
  method SimplifyVector(cov: array<bv8>, i: nat, n: nat)
    requires i + n <= cov.Length
    modifies cov
    ensures forall k :: 0 <= k < cov.Length ==> cov[k] == if i <= k < i + n then Simplify(old(cov[k])) else old(cov[k])
  {
    var mp := cov[i..i + n];
    var mask := SimdEq(mp, Splat(n, 0));
    var out := Select(mask, Splat(n, 0x1), Splat(n, 0x80));
    SelectSimplifies(mp);
    forall k | i <= k < i + n {
      cov[k] := out[k - i];
    }
    assert forall k :: i <= k < i + n ==> mp[k - i] == old(cov[k]);
  }

  /** The part of a map that fills whole vectors. */
  function Whole(size: nat, n: nat): (w: nat)
    requires n > 0
    ensures w <= size
  {
    size - size % n
  }

  lemma StepsFit(size: nat, n: nat)
    requires n > 0
    ensures size / n * n == Whole(size, n) == size - size % n
  {
  }

  lemma StepInside(step: nat, steps: nat, n: nat, size: nat)
    requires step < steps && steps * n <= size
    ensures step * n + n == (step + 1) * n && (step + 1) * n <= size
  {
    var rest := steps - step - 1;
    assert steps * n == (step + 1) * n + rest * n by {
      assert steps == (step + 1) + rest;
    }
    assert rest * n >= 0;
  }

  // ----- covmap_is_interesting -----

  /** Reducing the map into the history would change the history at index `i`. */
  predicate Changes(r: Reducer, hist: seq<bv8>, cov: seq<bv8>, i: nat)
    requires i < |cov| <= |hist|
  {
    r(hist[i], cov[i]) != hist[i]
  }

  /** The reference: some index would change. */
  ghost predicate Interesting(r: Reducer, hist: seq<bv8>, cov: seq<bv8>)
    requires |cov| <= |hist|
  {
    exists i :: 0 <= i < |cov| && Changes(r, hist, cov, i)
  }

  /** What the simple loop answers: it skips the indices where the map is zero. */
  ghost predicate NaiveAnswer(r: Reducer, hist: seq<bv8>, cov: seq<bv8>)
    requires |cov| <= |hist|
  {
    exists i :: 0 <= i < |cov| && cov[i] != 0 && Changes(r, hist, cov, i)
  }

  /** What the vector version answers: in the rest that fills no vector it swaps the arguments of the reducer. */
  ghost predicate SimdAnswer(r: Reducer, hist: seq<bv8>, cov: seq<bv8>, n: nat)
    requires |cov| <= |hist| && n > 0
  {
    exists i :: 0 <= i < |cov| &&
                if i < Whole(|cov|, n) then Changes(r, hist, cov, i) else r(cov[i], hist[i]) != hist[i]
  }

  /** The lanewise application of a reducer. */
  function Reduce(r: Reducer, a: seq<bv8>, b: seq<bv8>): (c: seq<bv8>)
    requires |a| == |b|
    ensures |c| == |a|
  {
    seq(|a|, i requires 0 <= i < |a| => r(a[i], b[i]))
  }

  /** A vector changes exactly if one of its lanes does. */
  lemma VectorChanges(r: Reducer, hist: seq<bv8>, cov: seq<bv8>, i: nat, n: nat)
    requires i + n <= |cov| <= |hist|
    ensures Reduce(r, hist[i..i + n], cov[i..i + n]) != hist[i..i + n] <==>
            exists k :: i <= k < i + n && Changes(r, hist, cov, k)
  {
    var history, out := hist[i..i + n], Reduce(r, hist[i..i + n], cov[i..i + n]);
    if out != history {
      var k :| 0 <= k < n && out[k] != history[k];
      assert Changes(r, hist, cov, i + k);
    }
    if k :| i <= k < i + n && Changes(r, hist, cov, k) {
      assert out[k - i] != history[k - i];
    }
  }

  method CovmapIsInterestingNaive(r: Reducer, hist: seq<bv8>, cov: seq<bv8>) returns (interesting: bool)
    requires |cov| <= |hist|
    ensures interesting <==> NaiveAnswer(r, hist, cov)
  {
    interesting := false;
    for i := 0 to |cov|
      invariant forall k :: 0 <= k < i ==> cov[k] == 0 || !Changes(r, hist, cov, k)
    {
      if cov[i] != 0 {
        var existing := hist[i];
        var reduced := r(existing, cov[i]);
        if existing != reduced {
          assert Changes(r, hist, cov, i);
          return true;
        }
      }
    }
  }

  /** The vector version for `n` lanes. */
  method CovmapIsInterestingSimd(r: Reducer, hist: seq<bv8>, cov: seq<bv8>, n: nat) returns (interesting: bool)
    requires |cov| <= |hist| && n > 0
    ensures interesting <==> SimdAnswer(r, hist, cov, n)
  {
    var size := |cov|;
    var steps, left := size / n, size % n;
    StepsFit(size, n);
    assert left == size - Whole(size, n) && steps * n == Whole(size, n);
    hide Whole, Reduce, Changes;
    for step := 0 to steps
      invariant step * n <= Whole(size, n)
      invariant forall k :: 0 <= k < step * n ==> !Changes(r, hist, cov, k)
    {
      var i := step * n;
      StepInside(step, steps, n, Whole(size, n));
      var history, items := hist[i..i + n], cov[i..i + n];
      var out := Reduce(r, history, items);
      VectorChanges(r, hist, cov, i, n);
      if out != history {
        return true;
      }
    }
    for j := size - left to size
      invariant forall k :: size - left <= k < j ==> r(cov[k], hist[k]) == hist[k]
    {
      var item, history := cov[j], hist[j];
      if r(item, history) != history {
        return true;
      }
    }
    interesting := false;
  }

  /** Swapping the arguments never changes whether the history changes. */
  ghost predicate SwapHarmless(r: Reducer) {
    forall h: bv8, m: bv8 :: r(h, m) != h <==> r(m, h) != h
  }

  ghost predicate Commutative(r: Reducer) {
    forall a: bv8, b: bv8 :: r(a, b) == r(b, a)
  }

  /** Reducing with zero changes nothing. */
  ghost predicate ZeroIdentity(r: Reducer) {
    forall h: bv8 :: r(h, 0) == h
  }

  /**
    The vector version tells for all histories and maps whether some index would change, if and only if swapping the
    arguments of the reducer is harmless or there is only one lane, so that no rest is left.
   */
  lemma SimdExactIffSwapHarmless(r: Reducer, n: nat)
    requires n > 0
    ensures n == 1 || SwapHarmless(r) <==>
            forall hist: seq<bv8>, cov: seq<bv8> :: |cov| <= |hist| ==>
                  (SimdAnswer(r, hist, cov, n) <==> Interesting(r, hist, cov))
  {
    if n == 1 {
      forall hist: seq<bv8>, cov: seq<bv8> | |cov| <= |hist|
        ensures SimdAnswer(r, hist, cov, n) <==> Interesting(r, hist, cov)
      {
        assert Whole(|cov|, n) == |cov|;
      }
    } else if SwapHarmless(r) {
      forall hist: seq<bv8>, cov: seq<bv8> | |cov| <= |hist|
        ensures SimdAnswer(r, hist, cov, n) <==> Interesting(r, hist, cov)
      {
        forall i | 0 <= i < |cov| ensures Changes(r, hist, cov, i) <==> r(cov[i], hist[i]) != hist[i] {
          var h, m := hist[i], cov[i];
          assert r(h, m) != h <==> r(m, h) != h;
        }
      }
    } else {
      var h: bv8, m: bv8 :| !(r(h, m) != h <==> r(m, h) != h);
      assert |[m]| % n == 1;
      assert Interesting(r, [h], [m]) <==> Changes(r, [h], [m], 0);
      assert SimdAnswer(r, [h], [m], n) <==> r([m][0], [h][0]) != [h][0];
    }
  }

  /** The simple loop tells the same for all histories and maps if and only if reducing with zero changes nothing. */
  lemma NaiveExactIffZeroIdentity(r: Reducer)
    ensures ZeroIdentity(r) <==>
            forall hist: seq<bv8>, cov: seq<bv8> :: |cov| <= |hist| ==>
                  (NaiveAnswer(r, hist, cov) <==> Interesting(r, hist, cov))
  {
    if !ZeroIdentity(r) {
      var h: bv8 :| r(h, 0) != h;
      assert Changes(r, [h], [0], 0);
      assert Interesting(r, [h], [0]) && !NaiveAnswer(r, [h], [0]);
    }
  }

  /**
    For a commutative reducer the vector version agrees with the simple loop everywhere exactly if zero is an identity.
   */
  lemma SimdIsNaiveIffZeroIdentity(r: Reducer, n: nat)
    requires n > 0 && Commutative(r)
    ensures ZeroIdentity(r) <==>
            forall hist: seq<bv8>, cov: seq<bv8> :: |cov| <= |hist| ==>
                  (SimdAnswer(r, hist, cov, n) <==> NaiveAnswer(r, hist, cov))
  {
    assert SwapHarmless(r) by {
      forall h: bv8, m: bv8 ensures r(h, m) != h <==> r(m, h) != h {
        assert r(h, m) == r(m, h);
      }
    }
    SimdExactIffSwapHarmless(r, n);
    NaiveExactIffZeroIdentity(r);
  }

  /** The maximum reducer keeps the larger byte. */
  lemma MaxKeepsLarger(a: bv8, b: bv8)
    ensures MaxReducer(a, b) == a || MaxReducer(a, b) == b
    ensures !(MaxReducer(a, b) < a) && !(MaxReducer(a, b) < b)
  {
    if a > b {
    }
  }

  /** The minimum reducer keeps the smaller byte. */
  lemma MinKeepsSmaller(a: bv8, b: bv8)
    ensures MinReducer(a, b) == a || MinReducer(a, b) == b
    ensures !(MinReducer(a, b) > a) && !(MinReducer(a, b) > b)
  {
    if a < b {
    }
  }

  /** The first bitwise reducer keeps every bit of the two bytes and no other. */
  lemma OrKeepsAllBits(a: bv8, b: bv8)
    ensures var r := OrReducer(a, b); r & a == a && r & b == b && r & !a & !b == 0
  {
  }

  /** The second bitwise reducer keeps the bits that both bytes have. */
  lemma AndKeepsCommonBits(a: bv8, b: bv8)
    ensures var r := AndReducer(a, b); r & !a == 0 && r & !b == 0 && !r & a & b == 0
  {
  }

  /** Which reducers of the library these conditions hold for. */
  lemma ReducerLaws()
    ensures Commutative(MaxReducer) && ZeroIdentity(MaxReducer)
    ensures Commutative(OrReducer) && ZeroIdentity(OrReducer)
    ensures Commutative(MinReducer) && !ZeroIdentity(MinReducer)
    ensures Commutative(AndReducer) && !ZeroIdentity(AndReducer)
    ensures !SwapHarmless(NopReducer) && !ZeroIdentity(NopReducer)
    ensures forall a, b :: NopReducer(a, b) == b
  {
    assert MinReducer(1, 0) != 1;
    assert AndReducer(1, 0) != 1;
    assert NopReducer(1, 0) != 1 && NopReducer(0, 1) == 1;
  }

  // ----- novelties -----

  /** The indices from `lo` to `hi` where the map exceeds the history, in ascending order. */
  function Novel(hist: seq<bv8>, cov: seq<bv8>, lo: nat, hi: nat): seq<nat>
    requires lo <= hi <= |cov| && |cov| <= |hist|
    decreases hi - lo
  {
    if lo == hi then []
    else (if cov[lo] > hist[lo] then [lo] else []) + Novel(hist, cov, lo + 1, hi)
  }

  lemma {:induction false} NovelSplit(hist: seq<bv8>, cov: seq<bv8>, lo: nat, mid: nat, hi: nat)
    requires lo <= mid <= hi <= |cov| && |cov| <= |hist|
    ensures Novel(hist, cov, lo, hi) == Novel(hist, cov, lo, mid) + Novel(hist, cov, mid, hi)
    decreases mid - lo
  {
    if lo < mid {
      NovelSplit(hist, cov, lo + 1, mid, hi);
    }
  }

  /** `Novel` lists exactly the novel indices, each once and in ascending order. */
  lemma {:induction false} NovelIsSortedNovelties(hist: seq<bv8>, cov: seq<bv8>, lo: nat, hi: nat)
    requires lo <= hi <= |cov| && |cov| <= |hist|
    ensures forall j :: j in Novel(hist, cov, lo, hi) <==> lo <= j < hi && cov[j] > hist[j]
    ensures forall i, j :: 0 <= i < j < |Novel(hist, cov, lo, hi)| ==>
              Novel(hist, cov, lo, hi)[i] < Novel(hist, cov, lo, hi)[j]
    decreases hi - lo
  {
    if lo < hi {
      NovelIsSortedNovelties(hist, cov, lo + 1, hi);
      var rest := Novel(hist, cov, lo + 1, hi);
      assert forall j :: 0 <= j < |rest| ==> rest[j] in rest;
    }
  }

  /** The loop over one half or one whole vector. */
  method CollectNovelties(hist: seq<bv8>, cov: seq<bv8>, lo: nat, hi: nat, before: seq<nat>)
    returns (novelties: seq<nat>)
    requires lo <= hi <= |cov| && |cov| <= |hist|
    ensures novelties == before + Novel(hist, cov, lo, hi)
  {
    novelties := before;
    for j := lo to hi
      invariant novelties == before + Novel(hist, cov, lo, j)
    {
      NovelSplit(hist, cov, lo, j, j + 1);
      var item := cov[j];
      if item > hist[j] {
        novelties := novelties + [j];
      }
      assert Novel(hist, cov, j + 1, j + 1) == [];
    }
  }

  /** The 16-lane version: one loop. */
  method Novelties16(hist: seq<bv8>, cov: seq<bv8>, base: nat, before: seq<nat>) returns (novelties: seq<nat>)
    requires base + 16 <= |cov| && |cov| <= |hist|
    ensures novelties == before + Novel(hist, cov, base, base + 16)
  {
    novelties := CollectNovelties(hist, cov, base, base + 16, before);
  }

  /** The 32-lane version, split into two loops: it collects what two 16-lane calls in a row collect. */
  method Novelties32(hist: seq<bv8>, cov: seq<bv8>, base: nat, before: seq<nat>) returns (novelties: seq<nat>)
    requires base + 32 <= |cov| && |cov| <= |hist|
    ensures novelties == before + Novel(hist, cov, base, base + 32)
    ensures novelties == before + Novel(hist, cov, base, base + 16) + Novel(hist, cov, base + 16, base + 16 + 16)
  {
    NovelSplit(hist, cov, base, base + 16, base + 32);
    novelties := CollectNovelties(hist, cov, base, base + 32 / 2, before);
    novelties := CollectNovelties(hist, cov, base + 32 / 2, base + 32, novelties);
  }
}
