/** The two anomaly detectors of internal/alertengine/anomaly.go over the reals. A standard
    deviation is kept as its square, and "|x| / stdDev > threshold" is compared by squares. */
module Anomaly {

  // -------------------------------------------------------------- arithmetic

  function Times(x: real, y: real): real {
    x * y
  }

  function Square(x: real): real {
    x * x
  }

  lemma TimesNotNegative(x: real, y: real)
    requires x >= 0.0 && y >= 0.0
    ensures Times(x, y) >= 0.0
  {
  }

  lemma SquareNotNegative(x: real)
    ensures Square(x) >= 0.0
  {
    if x >= 0.0 { TimesNotNegative(x, x); } else { TimesNotNegative(-x, -x); }
  }

  lemma TimesMonotone(x: real, y: real, v: real)
    requires x > y && v > 0.0
    ensures Times(x, v) > Times(y, v)
  {
    assert (x - y) * v > 0.0;
  }

  lemma Distribute(k: real, x: real, y: real)
    ensures Times(k, x + y) == Times(k, x) + Times(k, y)
  {
  }

  lemma Associate(x: real, y: real, z: real)
    ensures Times(x, Times(y, z)) == Times(Times(x, y), z)
  {
  }

  // ----------------------------------------------------------- weighted sums

  function Sum(w: seq<real>): real {
    if w == [] then 0.0 else Sum(w[..|w|-1]) + w[|w|-1]
  }

  function Dot(w: seq<real>, xs: seq<real>): real
    requires |w| == |xs|
  {
    if w == [] then 0.0 else Dot(w[..|w|-1], xs[..|xs|-1]) + Times(w[|w|-1], xs[|xs|-1])
  }

  /** The squared distances to `c`. */
  function Distances(xs: seq<real>, c: real): (r: seq<real>)
    ensures |r| == |xs|
  {
    seq(|xs|, i requires 0 <= i < |xs| => Square(xs[i] - c))
  }

  /** The weighted mean square distance to `c`. */
  function Spread(w: seq<real>, xs: seq<real>, c: real): real
    requires |w| == |xs|
  {
    Dot(w, Distances(xs, c))
  }

  function Scale(k: real, w: seq<real>): (r: seq<real>)
    ensures |r| == |w|
  {
    seq(|w|, i requires 0 <= i < |w| => Times(k, w[i]))
  }

  lemma DotLast(w: seq<real>, a: real, xs: seq<real>, x: real)
    requires |w| == |xs|
    ensures Dot(w + [a], xs + [x]) == Dot(w, xs) + Times(a, x)
  {
    assert (w + [a])[..|w|] == w && (xs + [x])[..|xs|] == xs;
  }

  lemma SumLast(w: seq<real>, a: real)
    ensures Sum(w + [a]) == Sum(w) + a
  {
    assert (w + [a])[..|w|] == w;
  }

  lemma {:induction false} DotScale(k: real, w: seq<real>, xs: seq<real>)
    requires |w| == |xs|
    ensures Dot(Scale(k, w), xs) == Times(k, Dot(w, xs))
  {
    if w != [] {
      var n := |w| - 1;
      DotScale(k, w[..n], xs[..n]);
      assert Scale(k, w)[..n] == Scale(k, w[..n]);
      Distribute(k, Dot(w[..n], xs[..n]), Times(w[n], xs[n]));
      Associate(k, w[n], xs[n]);
    }
  }

  lemma {:induction false} SumScale(k: real, w: seq<real>)
    ensures Sum(Scale(k, w)) == Times(k, Sum(w))
  {
    if w != [] {
      var n := |w| - 1;
      SumScale(k, w[..n]);
      assert Scale(k, w)[..n] == Scale(k, w[..n]);
      Distribute(k, Sum(w[..n]), w[n]);
    }
  }

  lemma SpreadLast(w: seq<real>, a: real, xs: seq<real>, x: real, c: real)
    requires |w| == |xs|
    ensures Spread(w + [a], xs + [x], c) == Spread(w, xs, c) + Times(a, Square(x - c))
  {
    assert Distances(xs + [x], c) == Distances(xs, c) + [Square(x - c)];
    DotLast(w, a, Distances(xs, c), Square(x - c));
  }

  /** One term of the shift, and one step of the sum, as algebra. */
  lemma SquareOfDifference(d: real, e: real)
    ensures Square(d - e) == Square(d) - Times(2.0 * e, d) + Square(e)
  {
  }

  lemma Rotate(a: real, e: real, x: real, c: real)
    ensures Times(a, Times(2.0 * e, x - c)) == Times(2.0 * e, Times(a, x) - Times(c, a))
    ensures Times(a, Square(e)) == Times(Square(e), a)
  {
  }

  lemma ShiftTerm(a: real, x: real, c: real, e: real)
    ensures Times(a, Square(x - (c + e))) ==
            Times(a, Square(x - c)) - Times(2.0 * e, Times(a, x) - Times(c, a)) + Times(Square(e), a)
  {
    var d := x - c;
    assert x - (c + e) == d - e;
    SquareOfDifference(d, e);
    Distribute(a, Square(d) - Times(2.0 * e, d), Square(e));
    DistributeMinus(a, Square(d), Times(2.0 * e, d));
    Rotate(a, e, x, c);
  }

  lemma DistributeMinus(k: real, x: real, y: real)
    ensures Times(k, x - y) == Times(k, x) - Times(k, y)
  {
  }

  lemma ShiftStep(moved: real, here: real, p: real, s: real, a: real, x: real, c: real, e: real)
    requires moved == here - Times(2.0 * e, p - Times(c, s)) + Times(Square(e), s)
    ensures moved + Times(a, Square(x - (c + e))) ==
            here + Times(a, Square(x - c)) - Times(2.0 * e, p + Times(a, x) - Times(c, s + a)) + Times(Square(e), s + a)
  {
    ShiftTerm(a, x, c, e);
    Distribute(Square(e), s, a);
    Distribute(c, s, a);
    Distribute(2.0 * e, p - Times(c, s), Times(a, x) - Times(c, a));
  }

  /** Moving the centre by `e`. */
  lemma {:induction false} ShiftCentre(w: seq<real>, xs: seq<real>, c: real, e: real)
    requires |w| == |xs|
    ensures Spread(w, xs, c + e) ==
            Spread(w, xs, c) - Times(2.0 * e, Dot(w, xs) - Times(c, Sum(w))) + Times(Square(e), Sum(w))
  {
    if w != [] {
      var n := |w| - 1;
      ShiftCentre(w[..n], xs[..n], c, e);
      assert w == w[..n] + [w[n]] && xs == xs[..n] + [xs[n]];
      SpreadLast(w[..n], w[n], xs[..n], xs[n], c + e);
      SpreadLast(w[..n], w[n], xs[..n], xs[n], c);
      ShiftStep(Spread(w[..n], xs[..n], c + e), Spread(w[..n], xs[..n], c), Dot(w[..n], xs[..n]), Sum(w[..n]),
                w[n], xs[n], c, e);
    }
  }

  // ------------------------------------------------------------------- EWMA

  /** The weight of each of `n` samples, the newest last. */
  function Weights(a: real, n: nat): (w: seq<real>)
    ensures |w| == n
  {
    if n == 0 then [] else if n == 1 then [1.0] else Scale(1.0 - a, Weights(a, n - 1)) + [a]
  }

  function Power(x: real, n: nat): real {
    if n == 0 then 1.0 else Times(x, Power(x, n - 1))
  }

  /** The weights in closed form: (1-a)^(n-1) for the first sample, a(1-a)^(n-1-i) for the
      others. */
  lemma {:induction false} WeightsClosedForm(a: real, n: nat, i: nat)
    requires i < n
    ensures Weights(a, n)[i] == (if i == 0 then Power(1.0 - a, n - 1) else Times(a, Power(1.0 - a, n - 1 - i)))
  {
    if n > 1 && i < n - 1 {
      WeightsClosedForm(a, n - 1, i);
      assert Weights(a, n)[i] == Times(1.0 - a, Weights(a, n - 1)[i]);
      if i > 0 { Commute(1.0 - a, a, Power(1.0 - a, n - 2 - i)); }
    }
  }

  lemma Commute(x: real, y: real, z: real)
    ensures Times(x, Times(y, z)) == Times(y, Times(x, z))
  {
  }

  lemma {:induction false} WeightsNotNegative(a: real, n: nat)
    requires 0.0 < a < 1.0
    ensures forall i | 0 <= i < n :: Weights(a, n)[i] >= 0.0
  {
    if n > 1 {
      WeightsNotNegative(a, n - 1);
      ScaleNotNegative(1.0 - a, Weights(a, n - 1));
    }
  }

  lemma ScaleNotNegative(k: real, w: seq<real>)
    requires k >= 0.0 && forall i | 0 <= i < |w| :: w[i] >= 0.0
    ensures forall i | 0 <= i < |w| :: Scale(k, w)[i] >= 0.0
  {
    forall i | 0 <= i < |w| ensures Scale(k, w)[i] >= 0.0 {
      TimesNotNegative(k, w[i]);
    }
  }

  lemma {:induction false} WeightsSum(a: real, n: nat)
    requires n > 0
    ensures Sum(Weights(a, n)) == 1.0
  {
    if n == 1 {
      assert [1.0][..0] == [];
    } else {
      WeightsSum(a, n - 1);
      SumScale(1.0 - a, Weights(a, n - 1));
      SumLast(Scale(1.0 - a, Weights(a, n - 1)), a);
    }
  }

  /** The detector's (mean, variance) after the samples `xs`. */
  function Ewma(a: real, xs: seq<real>): (real, real)
    requires xs != []
  {
    if |xs| == 1 then (xs[0], 0.0)
    else
      var (m, v) := Ewma(a, xs[..|xs|-1]);
      var diff := xs[|xs|-1] - m;
      (m + Times(a, diff), Times(1.0 - a, v + Times(Times(a, diff), diff)))
  }

  /** One update, as algebra. */
  lemma UpdateAlgebra(a: real, v: real, d: real)
    ensures Times(1.0 - a, v + Square(Times(a, d))) + Times(a, Square(d - Times(a, d))) ==
            Times(1.0 - a, v + Times(Times(a, d), d))
  {
    var b := 1.0 - a;
    var q := Times(Times(a, d), d);
    assert Square(Times(a, d)) == Times(a, q);
    assert Times(a, Square(d - Times(a, d))) == Times(b, Times(b, q)) by {
      assert d - Times(a, d) == b * d;
      assert Square(b * d) == b * b * (d * d);
    }
    Distribute(b, v + Times(a, q), Times(b, q));
    assert Times(a, q) + Times(b, q) == q;
  }

  /** For every list of samples the running value is the exponentially weighted mean of all
      of them and the running variance is exactly their weighted variance about it. */
  lemma {:induction false} EwmaIsWeightedMeanAndVariance(a: real, xs: seq<real>)
    requires 0.0 < a < 1.0 && xs != []
    ensures Ewma(a, xs).0 == Dot(Weights(a, |xs|), xs)
    ensures Ewma(a, xs).1 == Spread(Weights(a, |xs|), xs, Ewma(a, xs).0)
  {
    var n := |xs| - 1;
    if n == 0 {
      OneSample(xs[0]);
      assert xs == [xs[0]];
    } else {
      EwmaIsWeightedMeanAndVariance(a, xs[..n]);
      var (m, v) := Ewma(a, xs[..n]);
      EwmaAdd(a, xs[..n], xs[n]);
      WeightsSum(a, n);
      UpdatedMoments(a, Weights(a, n), xs[..n], xs[n], m, v);
      assert xs[..n] + [xs[n]] == xs;
    }
  }

  /** Weighted mean and variance after one more sample. */
  lemma UpdatedMoments(a: real, w: seq<real>, xs: seq<real>, x: real, m: real, v: real)
    requires |w| == |xs| && Sum(w) == 1.0 && m == Dot(w, xs) && v == Spread(w, xs, m)
    ensures var w', xs', m' := Scale(1.0 - a, w) + [a], xs + [x], m + Times(a, x - m);
            && Dot(w', xs') == m'
            && Spread(w', xs', m') == Times(1.0 - a, v + Times(Times(a, x - m), x - m))
  {
    NewMean(a, w, xs, x, m);
    var e := Times(a, x - m);
    var q, total := Square((x - m) - e), v + Square(e);
    assert Distances(xs + [x], m + e) == Distances(xs, m + e) + [q] by { NewDistances(xs, x, m, e); }
    assert Spread(w, xs, m + e) == total by { CentreMoved(w, xs, m, e); }
    assert Times(1.0 - a, total) + Times(a, q) == Times(1.0 - a, v + Times(e, x - m)) by { UpdateAlgebra(a, v, x - m); }
    NewSpread(a, w, xs, x, m + e, q, total);
  }

  lemma EwmaAdd(a: real, xs: seq<real>, x: real)
    requires xs != []
    ensures var (m, v) := Ewma(a, xs);
            && Ewma(a, xs + [x]).0 == m + Times(a, x - m)
            && Ewma(a, xs + [x]).1 == Times(1.0 - a, v + Times(Times(a, x - m), x - m))
  {
    var more := xs + [x];
    assert more[..|more|-1] == xs && more[|more|-1] == x;
  }

  lemma OneSample(x: real)
    ensures Dot([1.0], [x]) == x && Spread([1.0], [x], x) == 0.0
  {
    DotLast([], 1.0, [], x);
    SpreadLast([], 1.0, [], x, x);
    assert [] + [1.0] == [1.0] && [] + [x] == [x];
  }

  lemma NewMean(a: real, w: seq<real>, xs: seq<real>, x: real, m: real)
    requires |w| == |xs| && m == Dot(w, xs)
    ensures Dot(Scale(1.0 - a, w) + [a], xs + [x]) == m + Times(a, x - m)
  {
    NewDot(1.0 - a, w, a, xs, x, m);
    MeanAlgebra(a, m, x);
  }

  lemma MeanAlgebra(a: real, m: real, x: real)
    ensures Times(1.0 - a, m) + Times(a, x) == m + Times(a, x - m)
  {
  }

  lemma NewDot(k: real, w: seq<real>, a: real, ys: seq<real>, y: real, total: real)
    requires |w| == |ys| && Dot(w, ys) == total
    ensures Dot(Scale(k, w) + [a], ys + [y]) == Times(k, total) + Times(a, y)
  {
    DotScale(k, w, ys);
    DotLast(Scale(k, w), a, ys, y);
  }

  lemma NewDistances(xs: seq<real>, x: real, m: real, e: real)
    ensures Distances(xs + [x], m + e) == Distances(xs, m + e) + [Square((x - m) - e)]
  {
    assert x - (m + e) == (x - m) - e;
  }

  lemma NewSpread(a: real, w: seq<real>, xs: seq<real>, x: real, c: real, q: real, total: real)
    requires |w| == |xs| && Spread(w, xs, c) == total && Distances(xs + [x], c) == Distances(xs, c) + [q]
    ensures Spread(Scale(1.0 - a, w) + [a], xs + [x], c) == Times(1.0 - a, total) + Times(a, q)
  {
    NewDot(1.0 - a, w, a, Distances(xs, c), q, total);
  }

  lemma CentreMoved(w: seq<real>, xs: seq<real>, m: real, e: real)
    requires |w| == |xs| && Sum(w) == 1.0 && m == Dot(w, xs)
    ensures Spread(w, xs, m + e) == Spread(w, xs, m) + Square(e)
  {
    ShiftCentre(w, xs, m, e);
    UnitSum(m, e);
  }

  lemma UnitSum(m: real, e: real)
    ensures Times(2.0 * e, m - Times(m, 1.0)) == 0.0 && Times(Square(e), 1.0) == Square(e)
  {
  }

  /** Consequences: the variance is never negative and the value stays between the smallest
      and the largest sample. */
  lemma {:induction false} EwmaBounds(a: real, xs: seq<real>, lo: real, hi: real)
    requires 0.0 < a < 1.0 && xs != []
    requires forall i | 0 <= i < |xs| :: lo <= xs[i] <= hi
    ensures lo <= Ewma(a, xs).0 <= hi && Ewma(a, xs).1 >= 0.0
  {
    var n := |xs| - 1;
    if n > 0 {
      EwmaBounds(a, xs[..n], lo, hi);
      var (m, v) := Ewma(a, xs[..n]);
      StepBounds(a, m, v, xs[n], lo, hi);
    }
  }

  lemma StepBounds(a: real, m: real, v: real, x: real, lo: real, hi: real)
    requires 0.0 < a < 1.0 && lo <= m <= hi && lo <= x <= hi && v >= 0.0
    ensures lo <= m + Times(a, x - m) <= hi
    ensures Times(1.0 - a, v + Times(Times(a, x - m), x - m)) >= 0.0
  {
    MeanAlgebra(a, m, x);
    TimesNotNegative(1.0 - a, m - lo);
    TimesNotNegative(a, x - lo);
    TimesNotNegative(1.0 - a, hi - m);
    TimesNotNegative(a, hi - x);
    assert Times(1.0 - a, m - lo) + Times(a, x - lo) == Times(1.0 - a, m) + Times(a, x) - lo;
    assert Times(1.0 - a, hi - m) + Times(a, hi - x) == hi - (Times(1.0 - a, m) + Times(a, x));
    SquareNotNegative(x - m);
    TimesNotNegative(a, Square(x - m));
    Associate(a, x - m, x - m);
    assert Square(x - m) == Times(x - m, x - m);
    TimesNotNegative(1.0 - a, v + Times(Times(a, x - m), x - m));
  }

  /** Further than `threshold` standard deviations from the mean. */
  predicate Beyond(x: real, mean: real, variance: real, threshold: real) {
    Square(x - mean) > Times(Square(threshold), variance)
  }

  /** In terms of the standard deviation: above the upper bound or below the lower one. */
  predicate OutOfBounds(x: real, mean: real, sd: real, threshold: real) {
    x > mean + threshold * sd || x < mean - threshold * sd
  }

  /** Comparing squares finds exactly the values out of bounds, on both sides. */
  lemma BeyondIff(x: real, mean: real, variance: real, threshold: real, sd: real)
    requires threshold > 0.0 && sd >= 0.0 && sd * sd == variance
    ensures Beyond(x, mean, variance, threshold) <==> x > mean + threshold * sd || x < mean - threshold * sd
  {
    var d, t := x - mean, Times(threshold, sd);
    TimesNotNegative(threshold, sd);
    SquareOfTimes(threshold, sd, variance);
    SquaresCompare(d, t);
  }

  lemma SquareOfTimes(a: real, b: real, bb: real)
    requires b * b == bb
    ensures Times(Square(a), bb) == Square(Times(a, b))
  {
    assert Square(b) == bb;
    Associate(a, a, bb);
    Associate(a, b, b);
    Commute(a, a, bb);
    Associate(Times(a, b), a, b);
    assert Times(a, Times(b, b)) == Times(Times(a, b), b);
    assert Square(Times(a, b)) == Times(Times(a, b), Times(a, b)) == Times(Times(Times(a, b), a), b);
    assert Times(Times(a, b), a) == Times(a, Times(a, b));
    Associate(a, Times(a, b), b);
  }

  lemma SquaresCompare(d: real, t: real)
    requires t >= 0.0
    ensures Square(d) > Square(t) <==> d > t || d < -t
  {
    assert Square(d) - Square(t) == Times(d - t, d + t);
    if d > t {
      Positive(d - t, d + t);
    } else if d < -t {
      Positive(t - d, -d - t);
      assert Times(t - d, -d - t) == Times(d - t, d + t);
    } else {
      TimesNotNegative(t - d, d + t);
      assert Times(t - d, d + t) == -Times(d - t, d + t);
    }
  }

  lemma Positive(x: real, y: real)
    requires x > 0.0 && y > 0.0
    ensures Times(x, y) > 0.0
  {
  }

  /** The weight of the samples beyond the threshold. */
  function WeightBeyond(w: seq<real>, xs: seq<real>, mean: real, variance: real, threshold: real): real
    requires |w| == |xs|
  {
    if w == [] then 0.0
    else
      var n := |w| - 1;
      WeightBeyond(w[..n], xs[..n], mean, variance, threshold)
      + (if Beyond(xs[n], mean, variance, threshold) then w[n] else 0.0)
  }

  lemma {:induction false} ChebyshevSum(w: seq<real>, xs: seq<real>, mean: real, variance: real, threshold: real)
    requires |w| == |xs| && forall i | 0 <= i < |w| :: w[i] >= 0.0
    ensures Times(WeightBeyond(w, xs, mean, variance, threshold), Times(Square(threshold), variance))
            <= Spread(w, xs, mean)
  {
    if w != [] {
      var n := |w| - 1;
      var w0, x0, a, x := w[..n], xs[..n], w[n], xs[n];
      assert w == w0 + [a] && xs == x0 + [x];
      ChebyshevSum(w0, x0, mean, variance, threshold);
      SpreadLast(w0, a, x0, x, mean);
      var t := Times(Square(threshold), variance);
      ChebyshevStep(WeightBeyond(w0, x0, mean, variance, threshold), a, t, Square(x - mean));
      SquareNotNegative(x - mean);
      TimesNotNegative(a, Square(x - mean));
    }
  }

  lemma ChebyshevStep(b: real, a: real, t: real, d: real)
    requires a >= 0.0
    ensures d > t ==> Times(b + a, t) <= Times(b, t) + Times(a, d)
  {
    if d > t {
      TimesNotNegative(a, d - t);
      assert Times(a, d - t) == Times(a, d) - Times(a, t);
      assert Times(b + a, t) == Times(b, t) + Times(a, t);
    }
  }

  lemma DivideOut(b: real, t: real, v: real, total: real)
    requires v > 0.0 && Times(b, Times(t, v)) <= Times(total, v)
    ensures Times(b, t) <= total
  {
    Associate(b, t, v);
    if Times(b, t) > total { TimesMonotone(Times(b, t), total, v); }
  }

  class EWMADetector {
    const alpha: real
    const threshold: real
    var ewma: real
    var ewmaVar: real
    var initialized: bool
    ghost var samples: seq<real>

    ghost predicate Valid()
      reads this
    {
      && 0.0 < alpha < 1.0 && threshold > 0.0
      && (initialized <==> samples != [])
      && (initialized ==> ewma == Ewma(alpha, samples).0 && ewmaVar == Ewma(alpha, samples).1)
    }

    constructor (alpha: real, threshold: real)
      ensures Valid() && samples == []
      ensures this.alpha == (if alpha <= 0.0 || alpha >= 1.0 then 0.3 else alpha)
      ensures this.threshold == (if threshold <= 0.0 then 3.0 else threshold)
    {
      this.alpha := if alpha <= 0.0 || alpha >= 1.0 then 0.3 else alpha;
      this.threshold := if threshold <= 0.0 then 3.0 else threshold;
      this.ewma, this.ewmaVar, this.initialized := 0.0, 0.0, false;
      this.samples := [];
    }

    method Add(value: real)
      requires Valid()
      modifies this
      ensures Valid() && samples == old(samples) + [value]
    {
      samples := samples + [value];
      if !initialized {
        ewma := value;
        ewmaVar := 0.0;
        initialized := true;
        return;
      }
      assert samples[..|samples|-1] == old(samples);
      var diff := value - ewma;
      ewma := ewma + Times(alpha, diff);
      ewmaVar := Times(1.0 - alpha, ewmaVar + Times(Times(alpha, diff), diff));
    }

    method IsAnomaly(value: real) returns (anomaly: bool)
      requires Valid()
      ensures anomaly <==> samples != [] && ewmaVar > 0.0 && Beyond(value, ewma, ewmaVar, threshold)
      ensures anomaly <==> Flags(Exponential(alpha, threshold, samples), value)
      ensures samples != [] && ewmaVar > 0.0 ==>
                forall sd | sd >= 0.0 && Square(sd) == ewmaVar :: anomaly <==> OutOfBounds(value, ewma, sd, threshold)
    {
      forall sd | sd >= 0.0 && Square(sd) == ewmaVar
        ensures Beyond(value, ewma, ewmaVar, threshold) <==> OutOfBounds(value, ewma, sd, threshold)
      {
        BeyondIff(value, ewma, ewmaVar, threshold, sd);
      }
      if !initialized || ewmaVar <= 0.0 {
        return false;
      }
      return Square(value - ewma) > Times(Square(threshold), ewmaVar);
    }
  }

  /** Samples the detector would flag carry at most 1/threshold^2 of the weight. */
  lemma FlaggedWeightIsSmall(a: real, xs: seq<real>, threshold: real)
    requires 0.0 < a < 1.0 && xs != [] && Ewma(a, xs).1 > 0.0
    ensures var (m, v) := Ewma(a, xs);
            Times(WeightBeyond(Weights(a, |xs|), xs, m, v, threshold), Square(threshold)) <= 1.0
  {
    var (m, v) := Ewma(a, xs);
    var w := Weights(a, |xs|);
    EwmaIsWeightedMeanAndVariance(a, xs);
    WeightsNotNegative(a, |xs|);
    ChebyshevSum(w, xs, m, v, threshold);
    DivideOut(WeightBeyond(w, xs, m, v, threshold), Square(threshold), v, 1.0);
  }

  // --------------------------------------------------------- sliding window

  /** The newest `n` elements. */
  function LastN<T>(xs: seq<T>, n: nat): seq<T> {
    if |xs| <= n then xs else xs[|xs|-n..]
  }

  /** Counted from the end, they are the list's own, and there are `n` of them if there can be. */
  lemma LastNFromTheEnd<T>(xs: seq<T>, n: nat, i: nat)
    requires i < n && i < |xs|
    ensures |LastN(xs, n)| == if |xs| <= n then |xs| else n
    ensures LastN(xs, n)[|LastN(xs, n)| - 1 - i] == xs[|xs| - 1 - i]
  {
  }

  function MeanOf(xs: seq<real>): real
    requires xs != []
  {
    Sum(xs) / |xs| as real
  }

  /** The population variance. */
  function VarianceOf(xs: seq<real>): real
    requires xs != []
  {
    Sum(Distances(xs, MeanOf(xs))) / |xs| as real
  }

  /** What makes the two the mean and the variance: about any other centre `c` the samples are
      spread wider, by the square of its distance from the mean. */
  lemma SpreadAbout(xs: seq<real>, c: real)
    requires xs != []
    ensures Sum(Distances(xs, c)) == Times(|xs| as real, VarianceOf(xs) + Square(c - MeanOf(xs)))
  {
    var n, m := |xs| as real, MeanOf(xs);
    DotOnes(xs);
    DotOnes(Distances(xs, m));
    DotOnes(Distances(xs, c));
    SumOnes(|xs|);
    ShiftCentre(Ones(|xs|), xs, m, c - m);
    assert m + (c - m) == c;
    TimesQuotient(Sum(xs), n);
    TimesQuotient(Sum(Distances(xs, m)), n);
    CentredShift(n, m, c - m, Sum(xs), Sum(Distances(xs, m)), VarianceOf(xs));
  }

  lemma CentredShift(n: real, m: real, e: real, total: real, spread: real, v: real)
    requires total == Times(n, m) && spread == Times(n, v)
    ensures spread - Times(2.0 * e, total - Times(m, n)) + Times(Square(e), n) == Times(n, v + Square(e))
  {
    assert total - Times(m, n) == 0.0;
    Distribute(n, v, Square(e));
  }

  lemma {:induction false} SumOnes(n: nat)
    ensures Sum(Ones(n)) == n as real
  {
    if n > 0 {
      assert Ones(n)[..n-1] == Ones(n - 1);
      SumOnes(n - 1);
    }
  }

  class BaselineDetector {
    var window: seq<real>
    const maxSize: nat
    var mean: real
    var variance: real
    const threshold: real
    ghost var samples: seq<real>

    ghost predicate Valid()
      reads this
    {
      && maxSize > 0 && threshold > 0.0
      && window == LastN(samples, maxSize)
      && (window == [] ==> mean == 0.0 && variance == 0.0)
      && (window != [] ==> mean == MeanOf(window) && variance == VarianceOf(window))
    }

    constructor (windowSize: int, threshold: real)
      ensures Valid() && samples == []
      ensures maxSize == (if windowSize <= 0 then 100 else windowSize)
      ensures this.threshold == (if threshold <= 0.0 then 3.0 else threshold)
    {
      this.maxSize := if windowSize <= 0 then 100 else windowSize;
      this.threshold := if threshold <= 0.0 then 3.0 else threshold;
      this.window, this.mean, this.variance := [], 0.0, 0.0;
      this.samples := [];
    }

    method Add(value: real)
      requires Valid()
      modifies this
      ensures Valid() && samples == old(samples) + [value]
    {
      if |window| >= maxSize {
        window := window[1..];
      }
      window := window + [value];
      samples := samples + [value];
      assert window == LastN(samples, maxSize);
      mean, variance := Recompute(window);
    }

    method IsAnomaly(value: real) returns (anomaly: bool)
      requires Valid()
      ensures anomaly <==> |window| >= 2 && variance != 0.0 && Beyond(value, mean, variance, threshold)
      ensures anomaly <==> Flags(Baseline(maxSize, threshold, samples), value)
      ensures |window| >= 2 && variance != 0.0 ==>
                forall sd | sd >= 0.0 && Square(sd) == variance :: anomaly <==> OutOfBounds(value, mean, sd, threshold)
    {
      forall sd | sd >= 0.0 && Square(sd) == variance
        ensures Beyond(value, mean, variance, threshold) <==> OutOfBounds(value, mean, sd, threshold)
      {
        BeyondIff(value, mean, variance, threshold, sd);
      }
      if |window| < 2 || variance == 0.0 {
        return false;
      }
      return Square(value - mean) > Times(Square(threshold), variance);
    }
  }

  method Recompute(window: seq<real>) returns (mean: real, variance: real)
    ensures window == [] ==> mean == 0.0 && variance == 0.0
    ensures window != [] ==> mean == MeanOf(window) && variance == VarianceOf(window)
  {
    var n := |window|;
    if n == 0 {
      return 0.0, 0.0;
    }
    var sum := 0.0;
    for i := 0 to n
      invariant sum == Sum(window[..i])
    {
      assert window[..i+1][..i] == window[..i];
      sum := sum + window[i];
    }
    assert window[..n] == window;
    mean := sum / n as real;
    var sqSum := 0.0;
    ghost var ds := Distances(window, mean);
    for i := 0 to n
      invariant sqSum == Sum(ds[..i])
    {
      assert ds[..i+1][..i] == ds[..i];
      var d := window[i] - mean;
      sqSum := sqSum + Square(d);
    }
    assert ds[..n] == ds;
    variance := sqSum / n as real;
  }

  function Ones(n: nat): (w: seq<real>)
    ensures |w| == n
  {
    seq(n, i => 1.0)
  }

  lemma {:induction false} DotOnes(ys: seq<real>)
    ensures Dot(Ones(|ys|), ys) == Sum(ys)
  {
    if ys != [] {
      var n := |ys| - 1;
      assert Ones(|ys|)[..n] == Ones(n);
      DotOnes(ys[..n]);
    }
  }

  /** How many points of the window are beyond the threshold. */
  function CountBeyond(xs: seq<real>, mean: real, variance: real, threshold: real): nat {
    if xs == [] then 0
    else CountBeyond(xs[..|xs|-1], mean, variance, threshold)
         + (if Beyond(xs[|xs|-1], mean, variance, threshold) then 1 else 0)
  }

  lemma {:induction false} CountIsWeight(xs: seq<real>, mean: real, variance: real, threshold: real)
    ensures WeightBeyond(Ones(|xs|), xs, mean, variance, threshold) == CountBeyond(xs, mean, variance, threshold) as real
  {
    if xs != [] {
      var n := |xs| - 1;
      assert Ones(|xs|)[..n] == Ones(n);
      CountIsWeight(xs[..n], mean, variance, threshold);
    }
  }

  /** Chebyshev for the sliding window: with threshold t at most |window| / t^2 of its points
      are further than t standard deviations from its mean. */
  lemma FewPointsBeyond(window: seq<real>, threshold: real)
    requires window != [] && VarianceOf(window) > 0.0
    ensures Times(CountBeyond(window, MeanOf(window), VarianceOf(window), threshold) as real, Square(threshold))
            <= |window| as real
  {
    var m, v, n := MeanOf(window), VarianceOf(window), |window|;
    PointsAgainstSum(window, m, v, threshold);
    TimesQuotient(Sum(Distances(window, m)), n as real);
    DivideOut(CountBeyond(window, m, v, threshold) as real, Square(threshold), v, n as real);
  }

  lemma TimesQuotient(x: real, n: real)
    requires n > 0.0
    ensures Times(n, x / n) == x
  {
  }

  lemma PointsAgainstSum(xs: seq<real>, m: real, v: real, threshold: real)
    ensures Times(CountBeyond(xs, m, v, threshold) as real, Times(Square(threshold), v)) <= Sum(Distances(xs, m))
  {
    ChebyshevSum(Ones(|xs|), xs, m, v, threshold);
    CountIsWeight(xs, m, v, threshold);
    DotOnes(Distances(xs, m));
  }

  // ------------------------------------------------------------- the engine

  /** A detector as the engine sees it: its settings and the samples it has been fed. */
  datatype Detector =
    | Baseline(maxSize: nat, threshold: real, samples: seq<real>)
    | Exponential(alpha: real, threshold: real, samples: seq<real>)

  predicate Flags(d: Detector, value: real) {
    match d
    case Baseline(maxSize, threshold, samples) =>
      var window := LastN(samples, maxSize);
      |window| >= 2 && VarianceOf(window) != 0.0 && Beyond(value, MeanOf(window), VarianceOf(window), threshold)
    case Exponential(alpha, threshold, samples) =>
      samples != [] && Ewma(alpha, samples).1 > 0.0
      && Beyond(value, Ewma(alpha, samples).0, Ewma(alpha, samples).1, threshold)
  }

  /** What the detector judges by. */
  function Basis(d: Detector): seq<real> {
    if d.Baseline? then LastN(d.samples, d.maxSize) else d.samples
  }

  ghost predicate Constant(xs: seq<real>) {
    forall i | 0 <= i < |xs| :: xs[i] == xs[0]
  }

  /** A detector is silent about every value exactly while the samples it judges by are all
      equal, or there are none. */
  lemma SilentIff(d: Detector)
    requires d.Exponential? ==> 0.0 < d.alpha < 1.0
    ensures (forall value :: !Flags(d, value)) <==> Constant(Basis(d))
  {
    var xs := Basis(d);
    if xs != [] {
      var (m, v) := if d.Baseline? then (MeanOf(xs), VarianceOf(xs)) else Ewma(d.alpha, xs);
      if d.Baseline? { NoVarianceIff(xs); } else { NoEwmaVarianceIff(d.alpha, xs); }
      FarOut(m, v, d.threshold);
      if !Constant(xs) {
        assert |xs| >= 2;
        assert Flags(d, m + 1.0 + Times(Square(d.threshold), v));
      }
    }
  }

  /** With any variance at all there is a value beyond the threshold. */
  lemma FarOut(m: real, v: real, threshold: real)
    ensures v >= 0.0 ==> Beyond(m + 1.0 + Times(Square(threshold), v), m, v, threshold)
  {
    if v >= 0.0 {
      var t := Times(Square(threshold), v);
      SquareNotNegative(threshold);
      TimesNotNegative(Square(threshold), v);
      SquareNotNegative(t);
      assert Square(1.0 + t) == 1.0 + 2.0 * t + Square(t);
      assert m + 1.0 + t - m == 1.0 + t;
    }
  }

  lemma {:induction false} DistancesSum(xs: seq<real>, c: real)
    ensures Sum(Distances(xs, c)) >= 0.0
    ensures Sum(Distances(xs, c)) == 0.0 <==> forall i | 0 <= i < |xs| :: xs[i] == c
  {
    if xs != [] {
      var n := |xs| - 1;
      assert Distances(xs, c)[..n] == Distances(xs[..n], c);
      DistancesSum(xs[..n], c);
      SquareNotNegative(xs[n] - c);
      SquareZeroIff(xs[n] - c);
      assert xs == xs[..n] + [xs[n]];
    }
  }

  lemma SquareZeroIff(x: real)
    ensures Square(x) == 0.0 <==> x == 0.0
  {
    if x > 0.0 {
      Positive(x, x);
    } else if x < 0.0 {
      Positive(-x, -x);
      assert Times(-x, -x) == Square(x);
    }
  }

  lemma NoVarianceIff(xs: seq<real>)
    requires xs != []
    ensures VarianceOf(xs) >= 0.0 && (VarianceOf(xs) == 0.0 <==> Constant(xs))
  {
    var m, n := MeanOf(xs), |xs| as real;
    DistancesSum(xs, m);
    TimesQuotient(Sum(Distances(xs, m)), n);
    ZeroQuotient(Sum(Distances(xs, m)), n);
    if Constant(xs) {
      SpreadAbout(xs, xs[0]);
      DistancesSum(xs, xs[0]);
      SquareNotNegative(xs[0] - m);
      NoSpread(n, VarianceOf(xs), Square(xs[0] - m));
    }
  }

  lemma ZeroQuotient(x: real, n: real)
    requires n > 0.0 && x >= 0.0
    ensures x / n >= 0.0 && (x / n == 0.0 <==> x == 0.0)
  {
  }

  lemma NoSpread(n: real, v: real, q: real)
    requires n > 0.0 && v >= 0.0 && q >= 0.0 && Times(n, v + q) == 0.0
    ensures v == 0.0
  {
    if v > 0.0 { Positive(n, v + q); }
  }

  lemma {:induction false} NoEwmaVarianceIff(a: real, xs: seq<real>)
    requires 0.0 < a < 1.0 && xs != []
    ensures Ewma(a, xs).1 >= 0.0 && (Ewma(a, xs).1 == 0.0 <==> Constant(xs))
    ensures Constant(xs) ==> Ewma(a, xs).0 == xs[0]
  {
    var n := |xs| - 1;
    if n > 0 {
      NoEwmaVarianceIff(a, xs[..n]);
      var (m, v) := Ewma(a, xs[..n]);
      ConstantOneMore(xs);
      UpdatedVariance(a, v, xs[n] - m);
      if xs[n] == m { NoChange(a, xs[n] - m); }
    }
  }

  lemma ConstantOneMore(xs: seq<real>)
    requires |xs| > 1
    ensures Constant(xs) <==> Constant(xs[..|xs|-1]) && xs[|xs|-1] == xs[0]
  {
    assert forall i | 0 <= i < |xs| - 1 :: xs[i] == xs[..|xs|-1][i];
  }

  lemma NoChange(a: real, d: real)
    requires d == 0.0
    ensures Times(a, d) == 0.0
  {
  }

  lemma UpdatedVariance(a: real, v: real, d: real)
    requires 0.0 < a < 1.0 && v >= 0.0
    ensures Times(1.0 - a, v + Times(Times(a, d), d)) >= 0.0
    ensures Times(1.0 - a, v + Times(Times(a, d), d)) == 0.0 <==> v == 0.0 && d == 0.0
  {
    var q := Times(a, Square(d));
    Associate(a, d, d);
    assert Square(d) == Times(d, d);
    SquareNotNegative(d);
    SquareZeroIff(d);
    TimesNotNegative(a, Square(d));
    TimesNotNegative(1.0 - a, v + q);
    if d != 0.0 { Positive(a, Square(d)); } else { NoChange(a, Square(d)); }
    if v + q > 0.0 { Positive(1.0 - a, v + q); } else { NoChange(1.0 - a, v + q); }
  }

  function Fed(d: Detector, value: real): Detector {
    d.(samples := d.samples + [value])
  }

  /** One value offered to the matching detectors in rule order: judge, feed, and return at
      the first alarm. The second component is the position of the alarm, or the number of
      detectors. */
  function Evaluate(ds: seq<Detector>, value: real): (r: (seq<Detector>, nat))
    ensures |r.0| == |ds| && r.1 <= |ds|
    ensures forall i | 0 <= i < |ds| :: r.0[i] == if i <= r.1 then Fed(ds[i], value) else ds[i]
    ensures r.1 < |ds| ==> Flags(ds[r.1], value)
    ensures forall i | 0 <= i < r.1 :: !Flags(ds[i], value)
  {
    if ds == [] then ([], 0)
    else if Flags(ds[0], value) then ([Fed(ds[0], value)] + ds[1..], 0)
    else
      var rest := Evaluate(ds[1..], value);
      ([Fed(ds[0], value)] + rest.0, rest.1 + 1)
  }

  method EvaluateInOrder(ds: seq<Detector>, value: real) returns (out: seq<Detector>, alarm: nat)
    ensures (out, alarm) == Evaluate(ds, value)
  {
    out := ds;
    for i := 0 to |ds|
      invariant |out| == |ds|
      invariant forall k | 0 <= k < |ds| :: out[k] == if k < i then Fed(ds[k], value) else ds[k]
      invariant forall k | 0 <= k < i :: !Flags(ds[k], value)
    {
      var isAnomaly := Flags(out[i], value);
      out := out[i := Fed(out[i], value)];
      if isAnomaly {
        assert Evaluate(ds, value).1 == i && out == Evaluate(ds, value).0;
        return out, i;
      }
    }
    alarm := |ds|;
    assert Evaluate(ds, value).1 == |ds| && out == Evaluate(ds, value).0;
  }

  /** Every matching detector is meant to learn every value. Because the loop returns at the
      first alarm, that is so exactly when no detector but the last raises one. */
  lemma AllDetectorsLearnIff(ds: seq<Detector>, value: real)
    ensures (forall i | 0 <= i < |ds| :: Evaluate(ds, value).0[i] == Fed(ds[i], value)) <==>
            (forall i | 0 <= i < |ds| - 1 :: !Flags(ds[i], value))
  {
    var k := Evaluate(ds, value).1;
    if k + 1 < |ds| {
      assert |Fed(ds[k+1], value).samples| != |ds[k+1].samples|;
    }
  }
}
