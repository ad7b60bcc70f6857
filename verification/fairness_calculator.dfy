/** Fairness statistics: mean, population standard deviation, the 0-100
    fairness score derived from the standard deviations of hours, nights and
    weekends, and score normalisation. Numbers are exact reals; `Math.sqrt` is
    a parameter, constrained by `IsSquareRoot` where a property needs it. */
module FairnessCalculator {

  function Sum(values: seq<real>): real {
    if values == [] then 0.0 else values[0] + Sum(values[1..])
  }

  /** `mean(values)`: 0 for an empty list. */
  function Mean(values: seq<real>): real {
    if |values| == 0 then 0.0 else Sum(values) / |values| as real
  }

  /** The squared distances of the values from `avg`. */
  function SquareDiffs(values: seq<real>, avg: real): (r: seq<real>)
    ensures |r| == |values|
    ensures forall i :: 0 <= i < |r| ==> r[i] == (values[i] - avg) * (values[i] - avg)
  {
    seq(|values|, i requires 0 <= i < |values| => (values[i] - avg) * (values[i] - avg))
  }

  /** The mean squared difference from the mean. */
  function Variance(values: seq<real>): real {
    Mean(SquareDiffs(values, Mean(values)))
  }

  /** What a correct `Math.sqrt` delivers on non-negative numbers. */
  ghost predicate IsSquareRoot(sqrt: real -> real) {
    forall x :: x >= 0.0 ==> sqrt(x) >= 0.0 && sqrt(x) * sqrt(x) == x
  }

  /** `standardDeviation(values)`: 0 for an empty list, otherwise the square root
      of the variance (population, not sample). */
  function StandardDeviation(values: seq<real>, sqrt: real -> real): real {
    if |values| == 0 then 0.0 else sqrt(Variance(values))
  }

  /** `Math.round(x)`: the nearest integer, halves rounded up. */
  function Round(x: real): int {
    (x + 0.5).Floor
  }

  /** `Math.round(x * 100) / 100`: `x` to two decimal places. */
  function Round2(x: real): (r: real)
    ensures x - 0.005 < r <= x + 0.005
  {
    Round(x * 100.0) as real / 100.0
  }

  datatype StdDevs = StdDevs(hoursStdDev: real, nightsStdDev: real, weekendsStdDev: real)

  datatype FairnessScore = FairnessScore(overall: real, hoursScore: real, nightsScore: real, weekendsScore: real)

  /** One component: 100 less the scaled deviation, never below 0. */
  function ComponentScore(stdDev: real, scale: real): (r: real)
    requires scale > 0.0
    ensures r >= 0.0
    ensures stdDev >= 0.0 ==> r <= 100.0
    ensures r == 100.0 <==> stdDev == 0.0
    ensures r == 0.0 <==> stdDev * scale >= 100.0
  {
    if 100.0 - stdDev * scale > 0.0 then 100.0 - stdDev * scale else 0.0
  }

  /** `calculateFairnessScore(stats)`: hours, nights and weekends are penalised 2,
      10 and 20 points per unit of deviation, weighted 40%, 35% and 25%, and
      each result is rounded to two decimals. */
  function CalculateFairnessScore(stats: StdDevs): (r: FairnessScore)
    ensures r.hoursScore >= 0.0 && r.nightsScore >= 0.0 && r.weekendsScore >= 0.0 && r.overall >= 0.0
    ensures stats.hoursStdDev >= 0.0 && stats.nightsStdDev >= 0.0 && stats.weekendsStdDev >= 0.0 ==>
      r.hoursScore <= 100.0 && r.nightsScore <= 100.0 && r.weekendsScore <= 100.0 && r.overall <= 100.0
  {
    var hoursScore := ComponentScore(stats.hoursStdDev, 2.0);
    var nightsScore := ComponentScore(stats.nightsStdDev, 10.0);
    var weekendsScore := ComponentScore(stats.weekendsStdDev, 20.0);
    var overall := hoursScore * 0.4 + nightsScore * 0.35 + weekendsScore * 0.25;
    Round2Bounds(hoursScore);
    Round2Bounds(nightsScore);
    Round2Bounds(weekendsScore);
    Round2Bounds(overall);
    FairnessScore(Round2(overall), Round2(hoursScore), Round2(nightsScore), Round2(weekendsScore))
  }

  /** `normalizeScore(value, min, max)`: the position of `value` between `min` and
      `max` on a 0-100 scale, clamped; 100 when the range is empty. */
  function NormalizeScore(value: real, min: real, max: real): (r: real)
    ensures 0.0 <= r <= 100.0
    ensures max == min ==> r == 100.0
  {
    if max == min then 100.0
    else
      var scaled := (value - min) / (max - min) * 100.0;
      if scaled < 0.0 then 0.0 else if scaled > 100.0 then 100.0 else scaled
  }

  // ---------------------------------------------------------------------------
  // Properties.
  // ---------------------------------------------------------------------------

  lemma FloorMonotone(x: real, y: real)
    requires x <= y
    ensures x.Floor <= y.Floor
  {
    assert x.Floor as real <= x;
    assert y < y.Floor as real + 1.0;
  }

  lemma Round2Bounds(x: real)
    ensures 0.0 <= x ==> 0.0 <= Round2(x)
    ensures x <= 100.0 ==> Round2(x) <= 100.0
  {
    if 0.0 <= x {
      FloorMonotone(0.5, x * 100.0 + 0.5);
    }
    if x <= 100.0 {
      FloorMonotone(x * 100.0 + 0.5, 10000.5);
    }
  }

  /** Rounding never reverses the order of two numbers. */
  lemma Round2Monotone(x: real, y: real)
    requires x <= y
    ensures Round2(x) <= Round2(y)
  {
    FloorMonotone(x * 100.0 + 0.5, y * 100.0 + 0.5);
  }

  /** Larger deviations never give a higher score, component by component and
      overall. */
  lemma ScoreAntitone(a: StdDevs, b: StdDevs)
    requires a.hoursStdDev <= b.hoursStdDev && a.nightsStdDev <= b.nightsStdDev
    requires a.weekendsStdDev <= b.weekendsStdDev
    ensures CalculateFairnessScore(b).hoursScore <= CalculateFairnessScore(a).hoursScore
    ensures CalculateFairnessScore(b).nightsScore <= CalculateFairnessScore(a).nightsScore
    ensures CalculateFairnessScore(b).weekendsScore <= CalculateFairnessScore(a).weekendsScore
    ensures CalculateFairnessScore(b).overall <= CalculateFairnessScore(a).overall
  {
    var ha, hb := ComponentScore(a.hoursStdDev, 2.0), ComponentScore(b.hoursStdDev, 2.0);
    var na, nb := ComponentScore(a.nightsStdDev, 10.0), ComponentScore(b.nightsStdDev, 10.0);
    var wa, wb := ComponentScore(a.weekendsStdDev, 20.0), ComponentScore(b.weekendsStdDev, 20.0);
    Round2Monotone(hb, ha);
    Round2Monotone(nb, na);
    Round2Monotone(wb, wa);
    Round2Monotone(hb * 0.4 + nb * 0.35 + wb * 0.25, ha * 0.4 + na * 0.35 + wa * 0.25);
  }

  /** A perfectly even schedule scores 100 everywhere. */
  lemma PerfectScore()
    ensures CalculateFairnessScore(StdDevs(0.0, 0.0, 0.0)) == FairnessScore(100.0, 100.0, 100.0, 100.0)
  {
    assert Round(10000.0) == 10000;
  }

  /** Deviations of 5 hours, 1 night and half a weekend cost each component
      exactly 10 points, so every score is 90. */
  lemma NinetyEverywhere()
    ensures CalculateFairnessScore(StdDevs(5.0, 1.0, 0.5)) == FairnessScore(90.0, 90.0, 90.0, 90.0)
  {
    assert ComponentScore(5.0, 2.0) == 90.0;
    assert ComponentScore(1.0, 10.0) == 90.0;
    assert ComponentScore(0.5, 20.0) == 90.0;
    assert Round(9000.0) == 9000;
  }

  /** With every value inside `[lo, hi]`, the sum lies in `[|s| * lo, |s| * hi]`. */
  lemma {:induction false} SumBounds(values: seq<real>, lo: real, hi: real)
    requires forall i :: 0 <= i < |values| ==> lo <= values[i] <= hi
    ensures |values| as real * lo <= Sum(values) <= |values| as real * hi
  {
    if values != [] {
      SumBounds(values[1..], lo, hi);
    }
  }

  /** The mean of values inside `[lo, hi]` is inside `[lo, hi]`. */
  lemma MeanBounds(values: seq<real>, lo: real, hi: real)
    requires |values| > 0
    requires forall i :: 0 <= i < |values| ==> lo <= values[i] <= hi
    ensures lo <= Mean(values) <= hi
  {
    SumBounds(values, lo, hi);
    var n := |values| as real;
    assert Sum(values) / n >= lo by {
      assert n * lo <= Sum(values);
    }
    assert Sum(values) / n <= hi by {
      assert Sum(values) <= n * hi;
    }
  }

  /** The position of a largest value. */
  function ArgMax(values: seq<real>): (m: nat)
    requires |values| > 0
    ensures m < |values| && forall i :: 0 <= i < |values| ==> values[i] <= values[m]
  {
    if |values| == 1 then 0
    else
      var k := ArgMax(values[1..]);
      if values[0] >= values[1..][k] then 0 else k + 1
  }

  /** A sum of non-negative numbers is zero exactly when each of them is. */
  lemma {:induction false} SumZero(values: seq<real>)
    requires forall i :: 0 <= i < |values| ==> values[i] >= 0.0
    ensures Sum(values) >= 0.0
    ensures Sum(values) == 0.0 <==> forall i :: 0 <= i < |values| ==> values[i] == 0.0
  {
    if values != [] {
      SumZero(values[1..]);
      if Sum(values) == 0.0 {
        forall i | 0 <= i < |values|
          ensures values[i] == 0.0
        {
          if i > 0 {
            assert values[i] == values[1..][i - 1];
          }
        }
      }
    }
  }

  /** Equal values are their own mean. */
  lemma MeanOfEqual(values: seq<real>)
    requires |values| > 0
    requires forall i :: 0 <= i < |values| ==> values[i] == values[0]
    ensures Mean(values) == values[0]
  {
    MeanBounds(values, values[0], values[0]);
  }

  /** Values all equal to their mean have no squared differences. */
  lemma SquareDiffsOfEqual(values: seq<real>)
    requires forall i, j :: 0 <= i < |values| && 0 <= j < |values| ==> values[i] == values[j]
    ensures Variance(values) == 0.0
  {
    if |values| > 0 {
      MeanOfEqual(values);
      var sq := SquareDiffs(values, Mean(values));
      assert forall i :: 0 <= i < |sq| ==> sq[i] == 0.0;
      SumZero(sq);
    }
  }

  /** Zero squared differences mean every value equals the mean. */
  lemma ZeroSquareDiffs(values: seq<real>)
    requires |values| > 0
    requires Sum(SquareDiffs(values, Mean(values))) == 0.0
    ensures forall i :: 0 <= i < |values| ==> values[i] == Mean(values)
  {
    var avg := Mean(values);
    var sq := SquareDiffs(values, avg);
    forall i | 0 <= i < |sq|
      ensures sq[i] >= 0.0
    {
      SquareIsZero(values[i] - avg, sq[i]);
    }
    SumZero(sq);
    forall i | 0 <= i < |values|
      ensures values[i] == avg
    {
      SquareIsZero(values[i] - avg, sq[i]);
    }
  }

  /** A square is never negative, and it is zero only for zero. */
  lemma SquareIsZero(x: real, square: real)
    requires square == x * x
    ensures square >= 0.0
    ensures square == 0.0 <==> x == 0.0
  {
    if x > 0.0 {
      calc {
        square;
        x * x;
      >
        0.0;
      }
    } else if x < 0.0 {
      calc {
        square;
        x * x;
        (-x) * (-x);
      >
        0.0;
      }
    } else {
      calc {
        square;
        0.0 * 0.0;
        0.0;
      }
    }
  }

  /** The variance is never negative, and it is zero exactly when all values are
      equal. */
  lemma VarianceZero(values: seq<real>)
    ensures Variance(values) >= 0.0
    ensures Variance(values) == 0.0 <==> forall i, j :: 0 <= i < |values| && 0 <= j < |values| ==> values[i] == values[j]
  {
    if |values| > 0 {
      var sq := SquareDiffs(values, Mean(values));
      forall i | 0 <= i < |sq|
        ensures sq[i] >= 0.0
      {
        SquareIsZero(values[i] - Mean(values), sq[i]);
      }
      SumZero(sq);
      var n := |values| as real;
      assert Variance(values) == Sum(sq) / n;
      if forall i, j :: 0 <= i < |values| && 0 <= j < |values| ==> values[i] == values[j] {
        SquareDiffsOfEqual(values);
      } else if Sum(sq) == 0.0 {
        ZeroSquareDiffs(values);
      }
    }
  }

  /** With a correct square root, the standard deviation is non-negative and it is
      zero exactly when everyone has the same value. */
  lemma StandardDeviationZero(values: seq<real>, sqrt: real -> real)
    requires IsSquareRoot(sqrt)
    ensures StandardDeviation(values, sqrt) >= 0.0
    ensures StandardDeviation(values, sqrt) == 0.0 <==>
      forall i, j :: 0 <= i < |values| && 0 <= j < |values| ==> values[i] == values[j]
  {
    VarianceZero(values);
    if |values| > 0 {
      var v := Variance(values);
      SquareIsZero(sqrt(v), v);
    }
  }

  /** Inside a non-empty range, values between the ends are not clamped, and a
      larger value never normalises lower. */
  lemma NormalizeScoreInRange(value: real, value': real, min: real, max: real)
    requires min < max
    ensures min <= value <= max ==> NormalizeScore(value, min, max) == (value - min) / (max - min) * 100.0
    ensures value <= value' ==> NormalizeScore(value, min, max) <= NormalizeScore(value', min, max)
  {
    var d := max - min;
    if min <= value <= max {
      DivideBounds(value - min, d);
    }
    if value <= value' {
      DivideMonotone(value - min, value' - min, d);
    }
  }

  lemma DivideBounds(a: real, d: real)
    requires 0.0 <= a <= d && d > 0.0
    ensures 0.0 <= a / d <= 1.0
  {
    assert (a / d) * d == a;
  }

  lemma DivideMonotone(a: real, b: real, d: real)
    requires a <= b && d > 0.0
    ensures a / d <= b / d
  {
    assert b / d - a / d == (b - a) / d;
  }
}
