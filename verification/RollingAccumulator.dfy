/** Statistics over the most recent samples, include/base/rollingaccumulator.h, in exact
    arithmetic and before the final cast to the sample type. */
module RollingAccumulator {

  /** The sum of f over the samples. */
  function SumBy(f: real -> real, s: seq<real>): real
    decreases |s|
  {
    if s == [] then 0.0 else SumBy(f, s[..|s| - 1]) + f(s[|s| - 1])
  }

  function Self(): real -> real { x => x }

  function Squared(): real -> real { x => x * x }

  /** Squared distance to x. */
  function SquaredFrom(x: real): real -> real { y => (y - x) * (y - x) }

  /** The last `max` samples, or all of them. */
  function Window(history: seq<real>, max: nat): (w: seq<real>)
    ensures |w| == if |history| < max then |history| else max
  {
    if |history| < max then history else history[|history| - max..]
  }

  // ---- sums over a moving window ----

  lemma SumSnoc(f: real -> real, s: seq<real>, x: real)
    ensures SumBy(f, s + [x]) == SumBy(f, s) + f(x)
  {
    assert (s + [x])[..|s|] == s;
  }

  lemma {:induction false} SumCons(f: real -> real, x: real, s: seq<real>)
    ensures SumBy(f, [x] + s) == f(x) + SumBy(f, s)
    decreases |s|
  {
    if s == [] {
      assert [x] + s == [x] && [x][..0] == [];
    } else {
      var front := s[..|s| - 1];
      SumCons(f, x, front);
      assert ([x] + s)[..|s|] == [x] + front;
    }
  }

  lemma SumSlides(f: real -> real, w: seq<real>, x: real)
    requires w != []
    ensures SumBy(f, w[1..] + [x]) == SumBy(f, w) - f(w[0]) + f(x)
  {
    var first, rest := w[0], w[1..];
    assert w == [first] + rest;
    SumCons(f, first, rest);
    SumSnoc(f, rest, x);
  }

  /** How the window moves when a sample arrives. */
  lemma WindowMoves(history: seq<real>, x: real, max: nat)
    requires max > 0
    ensures var w, w' := Window(history, max), Window(history + [x], max);
      && (|history| < max ==> w' == w + [x])
      && (|history| >= max ==> w' == w[1..] + [x])
  {
  }

  /** The samples in the ring, oldest first. */
  function InOrder(cells: seq<real>, count: nat, next: nat): seq<real>
    requires count <= |cells| && next < |cells|
  {
    if count < |cells| then cells[..count] else cells[next..] + cells[..next]
  }

  function Advance(next: nat, max: nat): (r: nat)
    requires next < max
    ensures r < max
  {
    if next + 1 == max then 0 else next + 1
  }

  /** The next index is the remainder the original computes. */
  lemma AdvanceIsMod(next: nat, max: nat)
    requires next < max
    ensures Advance(next, max) == (next + 1) % max
  {
  }

  lemma RingMoves(cells: seq<real>, count: nat, next: nat, x: real)
    requires count <= |cells| && next < |cells| && (count < |cells| ==> next == count)
    ensures var w, cells' := InOrder(cells, count, next), cells[next := x];
      && (count < |cells| ==> InOrder(cells', count + 1, Advance(next, |cells|)) == w + [x])
      && (count == |cells| ==> w[0] == cells[next] && InOrder(cells', count, Advance(next, |cells|)) == w[1..] + [x])
  {
    var w, cells' := InOrder(cells, count, next), cells[next := x];
    if count == |cells| {
      assert w[1..] == cells[next + 1..] + cells[..next];
      if next + 1 < |cells| {
        assert cells'[next + 1..] == cells[next + 1..];
        assert cells'[..next + 1] == cells[..next] + [x];
      } else {
        assert cells' == cells[..next] + [x];
      }
    } else {
      if count + 1 < |cells| { assert cells'[..count + 1] == cells[..count] + [x]; }
      else { assert cells' == cells[..count] + [x]; }
    }
  }

  /** The ring holds the window, and the running sums are those of the window.  What is summed
      second is left open, so that no proof about the ring meets a product. */
  ghost predicate InStep(cells: seq<real>, count: nat, next: nat, square: real -> real,
                         sum: real, sum2: real, history: seq<real>) {
    var w := Window(history, |cells|);
    && count <= |cells| && next < |cells| && (count < |cells| ==> next == count == |history|)
    && w == InOrder(cells, count, next)
    && sum == SumBy(Self(), w) && sum2 == SumBy(square, w)
  }

  /** One sample later they are again. */
  lemma StaysInStep(cells: seq<real>, count: nat, next: nat, square: real -> real,
                    sum: real, sum2: real, history: seq<real>, x: real,
                    count': nat, sum': real, sum2': real)
    requires InStep(cells, count, next, square, sum, sum2, history)
    requires count < |cells| ==> count' == count + 1 && sum' == sum + x && sum2' == sum2 + square(x)
    requires count == |cells| ==>
      count' == count && sum' == sum - cells[next] + x && sum2' == sum2 - square(cells[next]) + square(x)
    ensures InStep(cells[next := x], count', Advance(next, |cells|), square, sum', sum2', history + [x])
  {
    var w := Window(history, |cells|);
    WindowMoves(history, x, |cells|);
    RingMoves(cells, count, next, x);
    if count == |cells| {
      SumSlides(Self(), w, x);
      SumSlides(square, w, x);
    } else {
      SumSnoc(Self(), w, x);
      SumSnoc(square, w, x);
    }
  }

  // ---- variance ----

  function Times(x: real): real -> real { y => x * y }

  function Always(c: real): real -> real { y => c }

  lemma SquareOfDifference(y: real, x: real)
    ensures (y - x) * (y - x) == y * y - 2.0 * (x * y) + x * x
  {
  }

  lemma {:induction false} SpreadSplits(s: seq<real>, x: real)
    ensures SumBy(SquaredFrom(x), s)
         == SumBy(Squared(), s) - 2.0 * SumBy(Times(x), s) + SumBy(Always(x * x), s)
    decreases |s|
  {
    if s != [] {
      SpreadSplits(s[..|s| - 1], x);
      SquareOfDifference(s[|s| - 1], x);
    }
  }

  lemma {:induction false} SumOfMultiples(s: seq<real>, x: real)
    ensures SumBy(Times(x), s) == x * SumBy(Self(), s)
    decreases |s|
  {
    if s != [] {
      var a, y := SumBy(Self(), s[..|s| - 1]), s[|s| - 1];
      SumOfMultiples(s[..|s| - 1], x);
      assert x * (a + y) == x * a + x * y;
    }
  }

  lemma {:induction false} SumOfConstant(s: seq<real>, c: real)
    ensures SumBy(Always(c), s) == |s| as real * c
    decreases |s|
  {
    if s != [] {
      var n := (|s| - 1) as real;
      SumOfConstant(s[..|s| - 1], c);
      assert (n + 1.0) * c == n * c + c;
    }
  }

  /** Spread around x from the count and the two running sums. */
  lemma SpreadFromSums(s: seq<real>, x: real)
    ensures SumBy(SquaredFrom(x), s)
         == SumBy(Squared(), s) - 2.0 * (x * SumBy(Self(), s)) + |s| as real * (x * x)
  {
    SpreadSplits(s, x);
    SumOfMultiples(s, x);
    SumOfConstant(s, x * x);
  }

  lemma {:induction false} SpreadSign(s: seq<real>, x: real)
    ensures SumBy(SquaredFrom(x), s) >= 0.0
    ensures SumBy(SquaredFrom(x), s) == 0.0 <==> forall i :: 0 <= i < |s| ==> s[i] == x
    decreases |s|
  {
    if s != [] {
      var f, y := s[..|s| - 1], s[|s| - 1];
      SpreadSign(f, x);
      SquareSign(y - x);
      assert forall i :: 0 <= i < |f| ==> f[i] == s[i];
    }
  }

  lemma SquareSign(d: real)
    ensures d * d >= 0.0 && (d * d == 0.0 <==> d == 0.0)
  {
    if d > 0.0 { ProductSign(d, d); }
    if d < 0.0 { ProductSign(-d, -d); assert (-d) * (-d) == d * d; }
  }

  lemma ProductSign(a: real, b: real)
    requires a >= 0.0 && b > 0.0
    ensures a * b >= 0.0 && (a * b == 0.0 <==> a == 0.0)
  {
  }

  lemma InversePositive(n: real, inv: real)
    requires n > 0.0 && inv * n == 1.0
    ensures inv > 0.0
  {
    if inv < 0.0 { ProductSign(-inv, n); }
  }

  /** Around the mean the formula loses a term. */
  lemma SpreadAtMean(n: real, s1: real, mean: real)
    requires mean * n == s1
    ensures n * (mean * mean) == mean * s1
  {
    assert n * (mean * mean) == (mean * n) * mean;
  }

  lemma ScaledMean(s1: real, n: real, inv: real)
    requires inv * n == 1.0
    ensures (s1 * inv) * n == s1
  {
    assert (s1 * inv) * n == s1 * (inv * n);
  }

  /** E[x^2] - E[x]^2 from the two sums, `inv` being one over the count. */
  function Variance(s1: real, s2: real, inv: real): real {
    var mean2 := s2 * inv;
    var mean := s1 * inv;
    mean2 - mean * mean
  }

  lemma VarianceFactors(s1: real, s2: real, inv: real, mean: real, spread: real)
    requires mean == s1 * inv && spread == s2 - mean * s1
    ensures Variance(s1, s2, inv) == spread * inv
  {
    var cross := mean * s1;
    assert cross * inv == mean * (s1 * inv);
    assert (s2 - cross) * inv == s2 * inv - cross * inv;
  }

  /** One over the count, the two sums, the mean and the squared distances to it, by name:
      keeping the recursive functions out of products keeps the algebra quick. */
  ghost predicate Figures(s: seq<real>, inv: real, s1: real, s2: real, mean: real, spread: real) {
    && s != [] && inv * |s| as real == 1.0
    && s1 == SumBy(Self(), s) && s2 == SumBy(Squared(), s)
    && mean == s1 * inv && spread == SumBy(SquaredFrom(mean), s)
  }

  /** The shortcut is the mean squared distance to the mean. */
  lemma VarianceIsMeanSpread(s: seq<real>, inv: real, s1: real, s2: real, mean: real, spread: real)
    requires Figures(s, inv, s1, s2, mean, spread)
    ensures Variance(s1, s2, inv) == spread * inv
  {
    var n := |s| as real;
    ScaledMean(s1, n, inv);
    SpreadFromSums(s, mean);
    SpreadAtMean(n, s1, mean);
    VarianceFactors(s1, s2, inv, mean, spread);
  }

  ghost predicate AllEqual(s: seq<real>) {
    forall i, j :: 0 <= i < |s| && 0 <= j < |s| ==> s[i] == s[j]
  }

  lemma {:induction false} SumOfEqual(s: seq<real>, x: real)
    requires forall i :: 0 <= i < |s| ==> s[i] == x
    ensures SumBy(Self(), s) == |s| as real * x
    decreases |s|
  {
    if s != [] {
      SumOfEqual(s[..|s| - 1], x);
      var n := (|s| - 1) as real;
      assert (n + 1.0) * x == n * x + x;
    }
  }

  /** The spread around the mean is zero exactly when all samples are equal. */
  lemma SpreadAroundMean(s: seq<real>, inv: real, s1: real, s2: real, mean: real, spread: real)
    requires Figures(s, inv, s1, s2, mean, spread)
    ensures spread >= 0.0 && (spread == 0.0 <==> AllEqual(s))
  {
    SpreadSign(s, mean);
    if AllEqual(s) {
      SumOfEqual(s, s[0]);
      var n, x := |s| as real, s[0];
      assert (n * x) * inv == (inv * n) * x;
    }
  }

  /** The variance is never negative and is zero exactly when all samples are equal. */
  lemma VarianceSign(s: seq<real>, inv: real, s1: real, s2: real, mean: real, spread: real)
    requires Figures(s, inv, s1, s2, mean, spread)
    ensures Variance(s1, s2, inv) >= 0.0 && (Variance(s1, s2, inv) == 0.0 <==> AllEqual(s))
  {
    VarianceIsMeanSpread(s, inv, s1, s2, mean, spread);
    InversePositive(|s| as real, inv);
    SpreadAroundMean(s, inv, s1, s2, mean, spread);
    ProductSign(spread, inv);
  }

  /** For any samples, `inv` being one over their number: the shortcut is the mean squared
      distance to the mean, never negative, and zero exactly when the samples are all equal. */
  lemma VarianceLaw(s: seq<real>, inv: real) returns (s1: real, s2: real, mean: real, spread: real)
    requires s != [] && inv * |s| as real == 1.0
    ensures Figures(s, inv, s1, s2, mean, spread)
    ensures Variance(s1, s2, inv) == spread * inv
    ensures Variance(s1, s2, inv) >= 0.0 && (Variance(s1, s2, inv) == 0.0 <==> AllEqual(s))
  {
    s1, s2 := SumBy(Self(), s), SumBy(Squared(), s);
    mean := s1 * inv;
    spread := SumBy(SquaredFrom(mean), s);
    VarianceIsMeanSpread(s, inv, s1, s2, mean, spread);
    VarianceSign(s, inv, s1, s2, mean, spread);
  }

  // ---- the class ----

  class Accumulator {
    const square: real -> real   // x => x * x, written out where the original squares a sample
    var count: nat
    var nextIndex: nat
    var sum: real
    var sum2: real
    var samples: array<real>
    ghost var history: seq<real>

    ghost function Recent(): seq<real> reads this { Window(history, samples.Length) }

    ghost predicate Valid() reads this, samples {
      square == Squared() && InStep(samples[..], count, nextIndex, square, sum, sum2, history)
    }

    constructor (maxCount: nat)
      requires maxCount > 0
      ensures Valid()
      ensures history == [] && samples.Length == maxCount && fresh(samples)
    {
      square := Squared();
      count, nextIndex, sum, sum2 := 0, 0, 0.0, 0.0;
      samples := new real[maxCount];
      history := [];
    }

    method AddSample(sample: real)
      requires Valid()
      modifies this, samples
      ensures Valid() && history == old(history) + [sample] && samples == old(samples)
    {
      ghost var cells, count0, next0 := samples[..], count, nextIndex;
      ghost var first, second := sum, sum2;
      if count == samples.Length {
        var toRemove := samples[nextIndex];
        sum := sum - toRemove;
        sum2 := sum2 - square(toRemove);
      } else {
        count := count + 1;
      }
      samples[nextIndex] := sample;
      sum := sum + sample;
      sum2 := sum2 + square(sample);
      nextIndex := NextIndex(nextIndex, samples.Length);
      StaysInStep(cells, count0, next0, square, first, second, history, sample, count, sum, sum2);
      history := history + [sample];
      assert samples[..] == cells[next0 := sample];
    }

    method ComputeSum() returns (r: real)
      requires Valid()
      ensures r == SumBy(Self(), Recent())
    {
      r := sum;
    }

    method ComputeMean() returns (mean: real)
      requires Valid()
      ensures count == |Recent()| && sum == SumBy(Self(), Recent())
      ensures if count == 0 then mean == 0.0 else mean * count as real == sum
    {
      if count == 0 { return 0.0; }
      mean := sum / count as real;
    }

    /** The mean squared distance of the window's samples to their mean, `inv` being one over
        their number: never negative, and zero exactly when they are all equal. */
    method ComputeVariance() returns (variance: real, ghost inv: real, ghost mean: real, ghost spread: real)
      requires Valid()
      ensures count == 0 ==> variance == 0.0
      ensures count > 0 ==> Figures(Recent(), inv, sum, sum2, mean, spread) && variance == spread * inv
      ensures variance >= 0.0
      ensures count > 0 ==> (variance == 0.0 <==> AllEqual(Recent()))
    {
      if count == 0 { return 0.0, 0.0, 0.0, 0.0; }
      variance, inv, mean, spread := VarianceOf(Recent(), count, sum, sum2);
    }
  }

  method VarianceOf(ghost w: seq<real>, count: nat, sum: real, sum2: real)
    returns (variance: real, ghost inv: real, ghost mean: real, ghost spread: real)
    requires w != [] && count == |w| && sum == SumBy(Self(), w) && sum2 == SumBy(Squared(), w)
    ensures Figures(w, inv, sum, sum2, mean, spread) && variance == spread * inv
    ensures variance >= 0.0 && (variance == 0.0 <==> AllEqual(w))
  {
    var countInv := Inverse(count);
    variance := Variance(sum, sum2, countInv);
    inv := countInv;
    ghost var s1, s2;
    s1, s2, mean, spread := VarianceLaw(w, inv);
  }

  /** The index arithmetic of the original. */
  method NextIndex(next: nat, max: nat) returns (r: nat)
    requires next < max
    ensures r == Advance(next, max)
  {
    AdvanceIsMod(next, max);
    r := (next + 1) % max;
  }

  method Inverse(n: nat) returns (inv: real)
    requires n > 0
    ensures inv * n as real == 1.0
  {
    inv := 1.0 / n as real;
  }
}
