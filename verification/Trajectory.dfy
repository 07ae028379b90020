/** Batch definitions of the statistics that pkg/swarm/logic_collapse_trigger.go keeps incrementally. */
module BatchStatistics {

  type Vector = seq<real>

  /** A coordinate a vector does not have counts as zero. */
  function At(x: Vector, i: nat): real {
    if i < |x| then x[i] else 0.0
  }

  function Sum(xs: seq<Vector>, i: nat): real {
    if xs == [] then 0.0 else Sum(xs[..|xs| - 1], i) + At(xs[|xs| - 1], i)
  }

  function Square(d: real): real {
    d * d
  }

  /** The sum of the squared deviations of coordinate `i` from `c`. */
  function SquaredDeviation(xs: seq<Vector>, i: nat, c: real): real {
    if xs == [] then 0.0 else SquaredDeviation(xs[..|xs| - 1], i, c) + Square(At(xs[|xs| - 1], i) - c)
  }

  predicate IsMean(mean: real, k: real, s: real) {
    mean * k == s
  }

  /** `mean` and `m2` are the mean of coordinate `i` over `xs` and its sum of squared deviations from that mean. */
  ghost predicate Batch(xs: seq<Vector>, i: nat, mean: real, m2: real) {
    IsMean(mean, |xs| as real, Sum(xs, i)) && m2 == SquaredDeviation(xs, i, mean)
  }

  ghost predicate AllAt(xs: seq<Vector>, i: nat, c: real) {
    forall t :: 0 <= t < |xs| ==> At(xs[t], i) == c
  }

  lemma PositiveProduct(a: real, b: real, z: real)
    requires a > 0.0 && b > 0.0 && z == a * b
    ensures z > 0.0
  {
  }

  lemma SquareZero(d: real)
    ensures Square(d) >= 0.0 && (Square(d) == 0.0 <==> d == 0.0)
  {
    if d > 0.0 {
      PositiveProduct(d, d, Square(d));
    } else if d < 0.0 {
      PositiveProduct(-d, -d, Square(d));
    }
  }

  lemma {:induction false} DeviationZero(xs: seq<Vector>, i: nat, c: real)
    ensures SquaredDeviation(xs, i, c) >= 0.0
    ensures SquaredDeviation(xs, i, c) == 0.0 <==> AllAt(xs, i, c)
  {
    if xs != [] {
      var rest, v := xs[..|xs| - 1], At(xs[|xs| - 1], i);
      DeviationZero(rest, i, c);
      SquareZero(v - c);
      assert AllAt(xs, i, c) <==> AllAt(rest, i, c) && v == c;
    }
  }

  // --- the streaming step -------------------------------------------------------------------

  /** The deviations from `c + d`, given those from `c`, the sum `s` and the count `k`. */
  ghost function Shifted(dev: real, s: real, k: real, c: real, d: real): real {
    dev - 2.0 * (d * (s - k * c)) + k * (d * d)
  }

  lemma ShiftOne(dev: real, s: real, k: real, c: real, d: real, v: real)
    ensures Shifted(dev, s, k, c, d) + Square(v - (c + d)) == Shifted(dev + Square(v - c), s + v, k + 1.0, c, d)
  {
    var w, x := v - c, s - k * c;
    assert Square(v - (c + d)) == w * w - 2.0 * (d * w) + d * d;
    assert (s + v) - (k + 1.0) * c == x + w;
    assert d * (x + w) == d * x + d * w;
    assert (k + 1.0) * (d * d) == k * (d * d) + d * d;
  }

  lemma {:induction false} ShiftCentre(xs: seq<Vector>, i: nat, c: real, d: real)
    ensures SquaredDeviation(xs, i, c + d) == Shifted(SquaredDeviation(xs, i, c), Sum(xs, i), |xs| as real, c, d)
  {
    if xs != [] {
      var rest, v := xs[..|xs| - 1], At(xs[|xs| - 1], i);
      ShiftCentre(rest, i, c, d);
      ShiftOne(SquaredDeviation(rest, i, c), Sum(rest, i), |rest| as real, c, d, v);
      assert |xs| as real == |rest| as real + 1.0;
    }
  }

  lemma StepIdentity(q: real, k: real)
    ensures (q * (k + 1.0)) * (q * k) == k * (q * q) + Square(q * k)
  {
    var p := q * k;
    assert q * (k + 1.0) == p + q;
    assert (p + q) * p == p * p + q * p;
    assert q * p == k * (q * q);
  }

  lemma NewMean(mean: real, q: real, k: real, v: real)
    requires q * (k + 1.0) == v - mean
    ensures (mean + q) * (k + 1.0) == mean * k + v
    ensures v - (mean + q) == q * k
  {
    assert q * (k + 1.0) == q * k + q;
    assert (mean + q) * (k + 1.0) == mean * k + mean + q * (k + 1.0);
  }

  lemma NewDeviation(dev': real, dev: real, k: real, mean: real, q: real, v: real)
    requires dev' == Shifted(dev, mean * k, k, mean, q) && q * (k + 1.0) == v - mean
    ensures dev' + Square(v - (mean + q)) == dev + (v - mean) * (v - (mean + q))
  {
    assert mean * k == k * mean;
    assert dev' == dev + k * (q * q);
    NewMean(mean, q, k, v);
    StepIdentity(q, k);
  }

  function NextMean(k: real, mean: real, v: real): real
    requires k + 1.0 != 0.0
  {
    mean + (v - mean) / (k + 1.0)
  }

  function Increment(v: real, mean: real, mean': real): real {
    (v - mean) * (v - mean')
  }

  /** The same in numbers: `s` is the sum so far, `dev` and `dev'` the deviations from the old and the new mean. */
  lemma WelfordNumbers(s: real, k: real, mean: real, v: real, mean': real, dev: real, dev': real)
    requires k + 1.0 != 0.0 && mean' == NextMean(k, mean, v) && dev' == Shifted(dev, s, k, mean, mean' - mean)
    ensures IsMean(mean', k + 1.0, s + v) <==> IsMean(mean, k, s)
    ensures IsMean(mean, k, s) ==> dev' + Square(v - mean') == dev + Increment(v, mean, mean')
  {
    var q := (v - mean) / (k + 1.0);
    Undivided(v - mean, k + 1.0);
    assert mean' - mean == q && mean' == mean + q;
    NewMean(mean, q, k, v);
    if mean * k == s {
      NewDeviation(dev', dev, k, mean, q, v);
    }
  }

  lemma IncrementNotNegative(k: real, mean: real, v: real, mean': real)
    requires k >= 0.0 && mean' == NextMean(k, mean, v)
    ensures Increment(v, mean, mean') >= 0.0
  {
    var q := (v - mean) / (k + 1.0);
    Undivided(v - mean, k + 1.0);
    assert mean' == mean + q;
    NewMean(mean, q, k, v);
    StepIdentity(q, k);
    SquareZero(q * k);
    SquareZero(q);
    NotNegative(k, Square(q), k * (q * q));
  }

  lemma NotNegative(a: real, b: real, z: real)
    requires a >= 0.0 && b >= 0.0 && z == a * b
    ensures z >= 0.0
  {
  }

  /** The batch values with one more input. */
  lemma BatchSnoc(xs: seq<Vector>, x: Vector, i: nat, mean: real, m2: real)
    ensures Batch(xs + [x], i, mean, m2) <==>
              IsMean(mean, |xs| as real + 1.0, Sum(xs, i) + At(x, i)) &&
              m2 == SquaredDeviation(xs, i, mean) + Square(At(x, i) - mean)
  {
    assert (xs + [x])[..|xs|] == xs;
    assert |xs + [x]| as real == |xs| as real + 1.0;
  }

  /** One step of the streaming formula. */
  predicate Streamed(n: nat, v: real, mean: real, m2: real, mean': real, m2': real) {
    mean' == NextMean(n as real, mean, v) && m2' == m2 + Increment(v, mean, mean')
  }

  lemma ShiftedTo(xs: seq<Vector>, i: nat, c: real, c': real)
    ensures SquaredDeviation(xs, i, c') == Shifted(SquaredDeviation(xs, i, c), Sum(xs, i), |xs| as real, c, c' - c)
  {
    ShiftCentre(xs, i, c, c' - c);
    assert c + (c' - c) == c';
  }

  /** The step is exact, and repairs nothing: it yields the batch values of `xs + [x]` exactly from those of `xs`. */
  lemma WelfordStep(xs: seq<Vector>, x: Vector, i: nat, mean: real, m2: real, mean': real, m2': real)
    requires Streamed(|xs|, At(x, i), mean, m2, mean', m2')
    ensures Batch(xs + [x], i, mean', m2') <==> Batch(xs, i, mean, m2)
  {
    ShiftedTo(xs, i, mean, mean');
    WelfordNumbers(Sum(xs, i), |xs| as real, mean, At(x, i), mean', SquaredDeviation(xs, i, mean), SquaredDeviation(xs, i, mean'));
    BatchSnoc(xs, x, i, mean', m2');
  }

  lemma Undivided(x: real, d: real)
    requires d != 0.0
    ensures x / d * d == x
  {
  }
}

/** pkg/swarm/logic_collapse_trigger.go: TrajectoryStats. */
module Trajectory {
  import opened BatchStatistics

  const WINDOW := 50

  function LastOf(xs: seq<Vector>): seq<Vector> {
    if |xs| <= WINDOW then xs else xs[|xs| - WINDOW..]
  }

  /** The sum of the sample variances that the first `upto` entries of m2 stand for. */
  function SampleSum(m2: seq<real>, n: nat, upto: nat): real
    requires upto <= |m2| && n > 1
  {
    if upto == 0 then 0.0 else SampleSum(m2, n, upto - 1) + m2[upto - 1] / (n - 1) as real
  }

  /** The sum of the per-coordinate sample variances of the first `upto` coordinates. */
  ghost function VarianceSum(inputs: seq<Vector>, mean: seq<real>, upto: nat): real
    requires upto <= |mean| && |inputs| > 1
  {
    if upto == 0 then 0.0
    else VarianceSum(inputs, mean, upto - 1) + SquaredDeviation(inputs, upto - 1, mean[upto - 1]) / (|inputs| - 1) as real
  }

  ghost predicate AllExact(inputs: seq<Vector>, mean: seq<real>, m2: seq<real>) {
    |mean| == |m2| && forall i :: 0 <= i < |mean| ==> Batch(inputs, i, mean[i], m2[i])
  }

  /** No input lacks a coordinate. */
  predicate LongEnough(inputs: seq<Vector>, dim: nat) {
    forall t :: 0 <= t < |inputs| ==> |inputs[t]| >= dim
  }

  /** One streaming step on the coordinates that the input has; all of them, if no input was too short. */
  lemma CoveredCoordinates(xs: seq<Vector>, x: Vector, mean: seq<real>, m2: seq<real>, mean': seq<real>, m2': seq<real>)
    requires |mean| == |m2| == |mean'| == |m2'|
    requires forall t :: 0 <= t < |mean| && t < |x| ==> Streamed(|xs|, x[t], mean[t], m2[t], mean'[t], m2'[t])
    ensures forall t :: 0 <= t < |mean| && t < |x| ==>
              (Batch(xs + [x], t, mean'[t], m2'[t]) <==> Batch(xs, t, mean[t], m2[t]))
    ensures LongEnough(xs + [x], |mean|) ==> LongEnough(xs, |mean|) && |x| >= |mean|
    ensures LongEnough(xs + [x], |mean|) && AllExact(xs, mean, m2) ==> AllExact(xs + [x], mean', m2')
  {
    forall t | 0 <= t < |mean| && t < |x| ensures Batch(xs + [x], t, mean'[t], m2'[t]) <==> Batch(xs, t, mean[t], m2[t]) {
      WelfordStep(xs, x, t, mean[t], m2[t], mean'[t], m2'[t]);
    }
    var all := xs + [x];
    assert all[|xs|] == x && forall t :: 0 <= t < |xs| ==> xs[t] == all[t];
  }

  lemma {:induction false} SampleIsVariance(inputs: seq<Vector>, mean: seq<real>, m2: seq<real>, upto: nat)
    requires AllExact(inputs, mean, m2) && upto <= |mean| && |inputs| > 1
    ensures SampleSum(m2, |inputs|, upto) == VarianceSum(inputs, mean, upto)
  {
    if upto > 0 {
      SampleIsVariance(inputs, mean, m2, upto - 1);
      assert Batch(inputs, upto - 1, mean[upto - 1], m2[upto - 1]);
    }
  }

  lemma {:induction false} SampleNotNegative(m2: seq<real>, n: nat, upto: nat)
    requires upto <= |m2| && n > 1 && forall i :: 0 <= i < |m2| ==> m2[i] >= 0.0
    ensures SampleSum(m2, n, upto) >= 0.0
  {
    if upto > 0 {
      SampleNotNegative(m2, n, upto - 1);
      Quotient(m2[upto - 1], (n - 1) as real);
    }
  }

  /** All inputs agree on every tracked coordinate. */
  ghost predicate Constant(inputs: seq<Vector>, mean: seq<real>, upto: nat)
    requires upto <= |mean|
  {
    forall i :: 0 <= i < upto ==> AllAt(inputs, i, mean[i])
  }

  lemma {:induction false} VarianceSumZero(inputs: seq<Vector>, mean: seq<real>, upto: nat)
    requires upto <= |mean| && |inputs| > 1
    ensures VarianceSum(inputs, mean, upto) >= 0.0
    ensures VarianceSum(inputs, mean, upto) == 0.0 <==> Constant(inputs, mean, upto)
  {
    if upto > 0 {
      VarianceSumZero(inputs, mean, upto - 1);
      DeviationZero(inputs, upto - 1, mean[upto - 1]);
      Quotient(SquaredDeviation(inputs, upto - 1, mean[upto - 1]), (|inputs| - 1) as real);
    }
  }

  lemma Quotient(x: real, d: real)
    requires x >= 0.0 && d > 0.0
    ensures x / d >= 0.0 && (x / d == 0.0 <==> x == 0.0)
  {
  }

  class TrajectoryStats {
    var successCount: nat
    var embeddings: seq<Vector>
    var mean: seq<real>
    var m2: seq<real>
    var n: nat
    ghost var inputs: seq<Vector>  // every non-empty embedding so far

    /** In particular every coordinate is exact as long as no input was too short for it. */
    ghost predicate Valid()
      reads this
    {
      && n == |inputs| <= successCount
      && |mean| == |m2|
      && (mean == [] <==> inputs == [])
      && embeddings == LastOf(inputs)
      && (forall i :: 0 <= i < |m2| ==> m2[i] >= 0.0)
      && (LongEnough(inputs, |mean|) ==> AllExact(inputs, mean, m2))
    }

    /** Coordinate `i` holds the batch mean and the batch sum of squared deviations of all inputs. */
    ghost predicate ExactAt(i: nat)
      reads this
    {
      i < |mean| && i < |m2| && Batch(inputs, i, mean[i], m2[i])
    }

    constructor ()
      ensures Valid() && inputs == [] && successCount == 0
    {
      successCount, embeddings, mean, m2, n := 0, [], [], [], 0;
      inputs := [];
    }

    /** Coordinate by coordinate: the first embedding makes all of them exact. Later ones leave a coordinate that they
        have as exact or inexact as it was. One that they lack stays as it is, and if it was exact it remains so exactly
        when its mean is zero: the source counts the input for it without moving the mean. */
    method AddEmbedding(emb: Vector)
      requires Valid()
      modifies this
      ensures Valid() && successCount == old(successCount) + 1
      ensures inputs == if emb == [] then old(inputs) else old(inputs) + [emb]
      ensures |mean| == if old(mean) == [] then |emb| else |old(mean)|
      ensures emb == [] ==> mean == old(mean) && m2 == old(m2)
      ensures old(mean) == [] ==> forall i :: 0 <= i < |mean| ==> ExactAt(i)
      ensures emb != [] ==> forall i :: 0 <= i < |old(mean)| && i < |emb| ==> (ExactAt(i) <==> old(ExactAt(i)))
      ensures forall i :: |emb| <= i < |old(mean)| ==> mean[i] == old(mean)[i] && m2[i] == old(m2)[i]
      ensures emb != [] ==>
                forall i :: |emb| <= i < |old(mean)| && old(ExactAt(i)) ==> (ExactAt(i) <==> old(mean)[i] == 0.0)
    {
      successCount := successCount + 1;
      if |emb| == 0 { return; }
      FixDimension(|emb|);
      ghost var mean0, m20, before := mean, m2, inputs;
      n := n + 1;
      UpdateCoordinates(before, emb);
      inputs := inputs + [emb];
      SlideWindow(before, emb);
      CoveredCoordinates(before, emb, mean0, m20, mean, m2);
      forall t | |emb| <= t < |mean| && Batch(before, t, mean0[t], m20[t]) ensures ExactAt(t) <==> mean0[t] == 0.0 {
        MissedCoordinate(before, emb, t, mean0[t], m20[t]);
      }
    }

    method SlideWindow(ghost before: seq<Vector>, emb: Vector)
      requires embeddings == LastOf(before)
      modifies this`embeddings
      ensures embeddings == LastOf(before + [emb])
    {
      embeddings := embeddings + [emb];
      if |embeddings| > WINDOW {
        embeddings := embeddings[1..];
      }
    }

    /** The first embedding fixes the number of coordinates. */
    method FixDimension(dim: nat)
      requires |mean| == |m2|
      modifies this`mean, this`m2
      ensures |mean| == |m2|
      ensures if old(mean) == [] then mean == seq(dim, _ => 0.0) == m2 else mean == old(mean) && m2 == old(m2)
    {
      if mean == [] {
        mean := seq(dim, _ => 0.0);
        m2 := seq(dim, _ => 0.0);
      }
    }

    /** The Welford loop of AddEmbedding. */
    method UpdateCoordinates(ghost before: seq<Vector>, emb: Vector)
      requires |mean| == |m2| && n == |before| + 1 && forall t :: 0 <= t < |m2| ==> m2[t] >= 0.0
      modifies this`mean, this`m2
      ensures |mean| == |m2| == |old(mean)| && forall t :: 0 <= t < |m2| ==> m2[t] >= 0.0
      ensures forall t :: 0 <= t < |mean| && t < |emb| ==>
                Streamed(|before|, emb[t], old(mean)[t], old(m2)[t], mean[t], m2[t])
      ensures forall t :: |emb| <= t < |mean| ==> mean[t] == old(mean)[t] && m2[t] == old(m2)[t]
    {
      var i := 0;
      while i < |emb| && i < |mean|
        invariant i <= |emb| && i <= |mean| == |m2| == |old(mean)|
        invariant forall t :: 0 <= t < |m2| ==> m2[t] >= 0.0
        invariant forall t :: 0 <= t < i ==> Streamed(|before|, emb[t], old(mean)[t], old(m2)[t], mean[t], m2[t])
        invariant forall t :: i <= t < |mean| ==> mean[t] == old(mean)[t] && m2[t] == old(m2)[t]
      {
        var delta := emb[i] - mean[i];
        mean := mean[i := mean[i] + delta / n as real];
        var delta2 := emb[i] - mean[i];
        IncrementNotNegative(|before| as real, old(mean)[i], emb[i], mean[i]);
        m2 := m2[i := m2[i] + delta * delta2];
        i := i + 1;
      }
    }

    /** What SemanticVariance takes the square root of, which is never negative; while every coordinate is exact, it is
        the average sample variance per coordinate, and zero for constant inputs only. */
    method MeanVariance() returns (v: real)
      requires Valid()
      ensures v >= 0.0 && (n < 2 ==> v == 0.0)
      ensures n >= 2 ==> v * |mean| as real == SampleSum(m2, n, |m2|)
      ensures n >= 2 && AllExact(inputs, mean, m2) ==>
                v * |mean| as real == VarianceSum(inputs, mean, |mean|) && (v == 0.0 <==> Constant(inputs, mean, |mean|))
    {
      if n < 2 || |m2| == 0 { return 0.0; }
      var total := 0.0;
      for i := 0 to |m2|
        invariant total == SampleSum(m2, n, i)
      {
        total := total + m2[i] / (n - 1) as real;
      }
      SampleNotNegative(m2, n, |m2|);
      Quotient(total, |m2| as real);
      v := total / |m2| as real;
      if AllExact(inputs, mean, m2) {
        SampleIsVariance(inputs, mean, m2, |mean|);
        VarianceSumZero(inputs, mean, |mean|);
      }
    }
  }

  /** The window holds the latest inputs, all of them up to fifty. */
  lemma WindowIsLatest(ts: TrajectoryStats)
    requires ts.Valid()
    ensures |ts.embeddings| == if |ts.inputs| < 50 then |ts.inputs| else 50
    ensures ts.inputs[|ts.inputs| - |ts.embeddings|..] == ts.embeddings
  {
  }

  /** Two embeddings are enough: the second one lacks a coordinate in which the first one is not zero. */
  method ShortEmbeddingSpoils() returns (ts: TrajectoryStats)
    ensures ts.Valid() && ts.inputs == [[1.0, 1.0], [1.0]] && |ts.mean| == 2 && !ts.ExactAt(1)
  {
    ts := new TrajectoryStats();
    ts.AddEmbedding([1.0, 1.0]);
    assert ts.ExactAt(1) && ts.inputs[..0] == [];
    assert Sum(ts.inputs, 1) == 1.0 && |ts.inputs| as real == 1.0;
    assert IsMean(ts.mean[1], 1.0, 1.0) && ts.mean[1] * 1.0 == ts.mean[1];
    ts.AddEmbedding([1.0]);
  }

  lemma MissedCoordinate(xs: seq<Vector>, x: Vector, i: nat, mean: real, m2: real)
    requires |x| <= i && Batch(xs, i, mean, m2)
    ensures Batch(xs + [x], i, mean, m2) <==> mean == 0.0
  {
    var all := xs + [x];
    assert all[..|all| - 1] == xs;
    assert mean * |all| as real == mean * |xs| as real + mean;
  }
}
