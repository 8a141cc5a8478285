/** One-pass and two-pass variance (scripts/python/myStat.py; cronjobs/hstrmon/TickHist.py,
    get_mean_stdev) over the reals. Square roots are not taken: the argument of the root is returned. */
module Stats {
  import opened Options

  function Sum(xs: seq<real>): real {
    if xs == [] then 0.0 else Sum(xs[..|xs| - 1]) + xs[|xs| - 1]
  }

  function SumOfSquares(xs: seq<real>): real {
    if xs == [] then 0.0 else SumOfSquares(xs[..|xs| - 1]) + xs[|xs| - 1] * xs[|xs| - 1]
  }

  /** Squared deviations from a centre. */
  function SquaredDeviations(xs: seq<real>, c: real): real {
    if xs == [] then 0.0
    else SquaredDeviations(xs[..|xs| - 1], c) + (xs[|xs| - 1] - c) * (xs[|xs| - 1] - c)
  }

  lemma SquareOfDifference(x: real, c: real)
    ensures (x - c) * (x - c) == x * x - 2.0 * c * x + c * c
  {
  }

  lemma SquareIsNotNegative(x: real)
    ensures x * x >= 0.0 && (x * x == 0.0 <==> x == 0.0)
  {
    if x >= 0.0 {
      ProductSign(x, x);
    } else {
      ProductSign(-x, -x);
      assert x * x == (-x) * (-x);
    }
  }

  lemma ExpandOneMore(dev: real, sum2: real, sum: real, n: real, x: real, c: real)
    requires dev == sum2 - 2.0 * c * sum + n * (c * c)
    ensures dev + (x - c) * (x - c) == sum2 + x * x - 2.0 * c * (sum + x) + (n + 1.0) * (c * c)
  {
    SquareOfDifference(x, c);
    assert 2.0 * c * (sum + x) == 2.0 * c * sum + 2.0 * c * x;
    assert (n + 1.0) * (c * c) == n * (c * c) + c * c;
  }

  lemma {:induction false} DeviationsExpand(xs: seq<real>, c: real)
    ensures SquaredDeviations(xs, c) == SumOfSquares(xs) - 2.0 * c * Sum(xs) + |xs| as real * (c * c)
  {
    if xs != [] {
      var front, x := xs[..|xs| - 1], xs[|xs| - 1];
      DeviationsExpand(front, c);
      ExpandOneMore(SquaredDeviations(front, c), SumOfSquares(front), Sum(front), |front| as real, x, c);
    }
  }

  /** The stream stays at c. */
  ghost predicate StaysAt(xs: seq<real>, c: real) {
    forall i :: 0 <= i < |xs| ==> xs[i] == c
  }

  lemma StaysAtLonger(xs: seq<real>, c: real)
    requires xs != []
    ensures StaysAt(xs, c) <==> StaysAt(xs[..|xs| - 1], c) && xs[|xs| - 1] == c
  {
    assert forall i :: 0 <= i < |xs| - 1 ==> xs[..|xs| - 1][i] == xs[i];
  }

  /** Deviations vanish exactly for a stream that stays at the centre. */
  lemma {:induction false} DeviationsVanishIff(xs: seq<real>, c: real)
    ensures SquaredDeviations(xs, c) >= 0.0
    ensures SquaredDeviations(xs, c) == 0.0 <==> StaysAt(xs, c)
  {
    if xs != [] {
      DeviationsVanishIff(xs[..|xs| - 1], c);
      SquareIsNotNegative(xs[|xs| - 1] - c);
      StaysAtLonger(xs, c);
    }
  }

  lemma MeanTimesCount(sum: real, n: real)
    requires n > 0.0
    ensures n * (sum / n) == sum
  {
  }

  /** Deviations from the mean, without dividing. */
  lemma DeviationsFromMean(xs: seq<real>, mean: real)
    requires |xs| as real * mean == Sum(xs)
    ensures SquaredDeviations(xs, mean) == SumOfSquares(xs) - |xs| as real * (mean * mean)
    ensures |xs| as real * SquaredDeviations(xs, mean) == |xs| as real * SumOfSquares(xs) - Sum(xs) * Sum(xs)
  {
    DeviationsExpand(xs, mean);
    Algebra(|xs| as real, mean, Sum(xs), SumOfSquares(xs));
  }

  lemma Algebra(n: real, mean: real, sum: real, sum2: real)
    requires n * mean == sum
    ensures sum2 - 2.0 * mean * sum + n * (mean * mean) == sum2 - n * (mean * mean)
    ensures n * (sum2 - n * (mean * mean)) == n * sum2 - sum * sum
  {
    var b := n * (mean * mean);
    assert mean * sum == mean * (n * mean) == b;
    assert 2.0 * mean * sum == 2.0 * (mean * sum);
    assert sum * sum == (n * mean) * sum == n * (mean * sum);
    assert n * (sum2 - b) == n * sum2 - n * b;
  }

  /** n times the one-pass variance is the two-pass sum of squared deviations from the mean. */
  lemma OnePassIsTwoPass(xs: seq<real>, mean: real)
    requires xs != [] && |xs| as real * mean == Sum(xs)
    ensures |xs| as real * (SumOfSquares(xs) / |xs| as real - mean * mean) == SquaredDeviations(xs, mean)
  {
    var n := |xs| as real;
    DeviationsFromMean(xs, mean);
    MeanTimesCount(SumOfSquares(xs), n);
    Distribute(n, SumOfSquares(xs) / n, mean * mean);
  }

  lemma Distribute(n: real, a: real, b: real)
    ensures n * (a - b) == n * a - n * b
  {
  }

  function MeanOf(xs: seq<real>): (mean: real)
    requires xs != []
    ensures |xs| as real * mean == Sum(xs)
  {
    MeanTimesCount(Sum(xs), |xs| as real);
    Sum(xs) / |xs| as real
  }

  ghost predicate Constant(xs: seq<real>) {
    forall i :: 0 <= i < |xs| ==> xs[i] == xs[0]
  }

  /** Staying at the first value is staying at the mean. */
  lemma ConstantIsMean(xs: seq<real>, mean: real)
    requires xs != [] && |xs| as real * mean == Sum(xs)
    ensures Constant(xs) <==> StaysAt(xs, mean)
  {
    if Constant(xs) {
      SumOfConstant(xs, xs[0]);
      CancelFactor(|xs| as real, mean, xs[0]);
    }
  }

  lemma DeviationsOfStream(xs: seq<real>, mean: real)
    requires xs != [] && |xs| as real * mean == Sum(xs)
    ensures SquaredDeviations(xs, mean) >= 0.0
    ensures SquaredDeviations(xs, mean) == 0.0 <==> Constant(xs)
  {
    DeviationsVanishIff(xs, mean);
    ConstantIsMean(xs, mean);
  }

  lemma DeviationsTimesCount(xs: seq<real>, mean: real) returns (a: real, b: real, dev: real)
    requires |xs| as real * mean == Sum(xs)
    ensures a == |xs| as real * SumOfSquares(xs) && b == Sum(xs) * Sum(xs) && dev == SquaredDeviations(xs, mean)
    ensures |xs| as real * dev == a - b
  {
    a, b, dev := |xs| as real * SumOfSquares(xs), Sum(xs) * Sum(xs), SquaredDeviations(xs, mean);
    DeviationsFromMean(xs, mean);
  }

  lemma SumsAreOrderedAt(xs: seq<real>, mean: real)
    requires xs != [] && |xs| as real * mean == Sum(xs)
    ensures |xs| as real * SumOfSquares(xs) >= Sum(xs) * Sum(xs)
    ensures |xs| as real * SumOfSquares(xs) == Sum(xs) * Sum(xs) <==> Constant(xs)
  {
    DeviationsOfStream(xs, mean);
    var a, b, dev := DeviationsTimesCount(xs, mean);
    Compare(|xs| as real, dev, a, b);
  }

  /** n * sum2 is at least sum squared, with equality exactly for a constant stream. */
  lemma SumsAreOrdered(xs: seq<real>)
    requires xs != []
    ensures |xs| as real * SumOfSquares(xs) >= Sum(xs) * Sum(xs)
    ensures |xs| as real * SumOfSquares(xs) == Sum(xs) * Sum(xs) <==> Constant(xs)
  {
    SumsAreOrderedAt(xs, MeanOf(xs));
  }

  lemma Compare(n: real, dev: real, a: real, b: real)
    requires n > 0.0 && dev >= 0.0 && n * dev == a - b
    ensures a >= b && (a == b <==> dev == 0.0)
  {
    ProductSign(n, dev);
  }

  lemma ProductSign(n: real, x: real)
    requires n >= 0.0 && x >= 0.0
    ensures n * x >= 0.0 && (n * x == 0.0 <==> n == 0.0 || x == 0.0)
  {
  }

  lemma CancelFactor(n: real, x: real, y: real)
    requires n > 0.0 && n * x == n * y
    ensures x == y
  {
    assert n * (x - y) == 0.0;
  }

  lemma {:induction false} SumOfConstant(xs: seq<real>, c: real)
    requires forall i :: 0 <= i < |xs| ==> xs[i] == c
    ensures Sum(xs) == |xs| as real * c
  {
    if xs != [] {
      SumOfConstant(xs[..|xs| - 1], c);
      assert |xs| as real * c == (|xs| - 1) as real * c + c;
    }
  }

  /** The streaming accumulator. */
  class Acc {
    var sum: real
    var sum2: real
    var n: real
    ghost var stream: seq<real>

    ghost predicate Valid()
      reads this
    {
      sum == Sum(stream) && sum2 == SumOfSquares(stream) && n == |stream| as real
    }

    constructor ()
      ensures Valid() && stream == []
    {
      sum, sum2, n, stream := 0.0, 0.0, 0.0, [];
    }

    method Add(x: real)
      requires Valid()
      modifies this
      ensures Valid() && stream == old(stream) + [x]
    {
      sum := sum + x;
      sum2 := sum2 + x * x;
      n := n + 1.0;
      stream := stream + [x];
      assert stream[..|stream| - 1] == old(stream);
    }

    method Mean() returns (mean: real)
      requires Valid()
      ensures mean == if stream == [] then 0.0 else MeanOf(stream)
    {
      if n == 0.0 {
        return 0.0;
      }
      mean := sum / n;
    }

    /** The argument of the square root in std(); `None` is the division by zero of an empty stream. The
        root is always defined, and it is zero exactly for a constant stream. */
    method Variance() returns (v: Option<real>)
      requires Valid()
      ensures v.None? <==> stream == []
      ensures v.Some? ==>
                && v.value >= 0.0
                && |stream| as real * v.value == SquaredDeviations(stream, MeanOf(stream))
                && (v.value == 0.0 <==> Constant(stream))
    {
      if n == 0.0 {
        return None;
      }
      var mean := Mean();
      v := Some(sum2 / n - mean * mean);
      OnePassIsTwoPass(stream, mean);
      DeviationsOfStream(stream, mean);
      SignOfFactor(n, v.value);
    }
  }

  lemma SignOfFactor(n: real, x: real)
    requires n > 0.0
    ensures n * x >= 0.0 <==> x >= 0.0
    ensures n * x == 0.0 <==> x == 0.0
  {
    if x >= 0.0 {
      ProductSign(n, x);
    } else {
      ProductSign(n, -x);
      assert n * x == -(n * -x);
    }
  }

  /** get_mean_stdev: mean and the argument of its square root, both 0 below two entries. */
  method GetMeanAndVariance(series: seq<real>) returns (mean: real, variance: real)
    ensures |series| < 2 ==> mean == 0.0 && variance == 0.0
    ensures |series| >= 2 ==> mean == MeanOf(series) && variance >= 0.0
    ensures |series| >= 2 ==> (|series| - 1) as real * variance
                              == |series| as real * (SumOfSquares(series) / |series| as real - mean * mean)
  {
    if |series| < 2 {
      return 0.0, 0.0;
    }
    var total := AddUp(series);
    mean := total / |series| as real;
    var sdsq := AddUpDeviations(series, mean);
    ghost var d := (|series| - 1) as real;
    variance := sdsq / (|series| - 1) as real;
    MeanTimesCount(sdsq, d);
    OnePassIsTwoPass(series, mean);
    DeviationsVanishIff(series, mean);
    QuotientSign(sdsq, d);
  }

  /** The total of a series, one entry at a time. */
  method AddUp(series: seq<real>) returns (total: real)
    ensures total == Sum(series)
  {
    total := 0.0;
    for i := 0 to |series|
      invariant total == Sum(series[..i])
    {
      total := total + series[i];
      assert series[..i + 1][..i] == series[..i];
    }
    assert series[..|series|] == series;
  }

  /** The sum of the squared deviations, one entry at a time. */
  method AddUpDeviations(series: seq<real>, mean: real) returns (sdsq: real)
    ensures sdsq == SquaredDeviations(series, mean)
  {
    sdsq := 0.0;
    for i := 0 to |series|
      invariant sdsq == SquaredDeviations(series[..i], mean)
    {
      sdsq := sdsq + (series[i] - mean) * (series[i] - mean);
      assert series[..i + 1][..i] == series[..i];
    }
    assert series[..|series|] == series;
  }

  lemma QuotientSign(x: real, d: real)
    requires d > 0.0 && x >= 0.0
    ensures x / d >= 0.0
  {
  }
}
