/** The speed calibration of components/domain/include/domain/ols.hpp, over the reals. */
module LeastSquares {

  datatype SpeedCalResult = SpeedCalResult(k: real, rSquared: real)

  function Abs(x: real): real {
    if x < 0.0 then -x else x
  }

  function Square(x: real): real {
    x * x
  }

  /** Sum of the first n elements. */
  function Sum(s: seq<real>, n: nat): real
    requires n <= |s|
  {
    if n == 0 then 0.0 else Sum(s, n - 1) + s[n - 1]
  }

  function Dot(a: seq<real>, b: seq<real>, n: nat): real
    requires n <= |a| && n <= |b|
  {
    if n == 0 then 0.0 else Dot(a, b, n - 1) + a[n - 1] * b[n - 1]
  }

  /** Squared error of the line a * f + b over the first n points. */
  function SquaredError(f: seq<real>, v: seq<real>, n: nat, a: real, b: real): real
    requires n <= |f| && n <= |v|
  {
    if n == 0 then 0.0 else SquaredError(f, v, n - 1, a, b) + Square(v[n - 1] - (a * f[n - 1] + b))
  }

  // ---- What the code computes ----------------------------------------------

  /** sumXY - sumX * sumY / n: the shape of both the numerator and the denominator. */
  function Centred(xy: real, x: real, y: real, n: real): real
    requires n > 0.0
  {
    xy - x * y / n
  }

  function Denominator(f: seq<real>): real
    requires f != []
  {
    Centred(Dot(f, f, |f|), Sum(f, |f|), Sum(f, |f|), |f| as real)
  }

  predicate Degenerate(f: seq<real>)
    requires f != []
  {
    Abs(Denominator(f)) < 0.000001
  }

  function Slope(f: seq<real>, v: seq<real>): real
    requires |f| == |v| && f != [] && Denominator(f) != 0.0
  {
    Centred(Dot(f, v, |f|), Sum(f, |f|), Sum(v, |f|), |f| as real) / Denominator(f)
  }

  /** Sum of squared deviations from the mean. */
  function Spread(s: seq<real>): real
    requires s != []
  {
    SquaredError(s, s, |s|, 0.0, Sum(s, |s|) / (|s| as real))
  }

  function RSquared(f: seq<real>, v: seq<real>, k: real): real
    requires |f| == |v| && v != []
  {
    if Spread(v) > 0.000001 then 1.0 - SquaredError(f, v, |f|, k, 0.0) / Spread(v) else 0.0
  }

  /** The first loop: the sums of the points. */
  method Accumulate(xs: seq<real>, ys: seq<real>) returns (sumX: real, sumY: real, sumXX: real, sumXY: real)
    requires |xs| == |ys|
    ensures sumX == Sum(xs, |xs|) && sumY == Sum(ys, |ys|)
    ensures sumXX == Dot(xs, xs, |xs|) && sumXY == Dot(xs, ys, |xs|)
  {
    sumX, sumY, sumXX, sumXY := 0.0, 0.0, 0.0, 0.0;
    for i := 0 to |xs|
      invariant sumX == Sum(xs, i) && sumY == Sum(ys, i)
      invariant sumXX == Dot(xs, xs, i) && sumXY == Dot(xs, ys, i)
    {
      sumX := sumX + xs[i];
      sumY := sumY + ys[i];
      sumXX := sumXX + xs[i] * xs[i];
      sumXY := sumXY + xs[i] * ys[i];
    }
  }

  method CalculateSpeedCalibration(frequencies: seq<real>, speeds: seq<real>) returns (result: SpeedCalResult)
    requires |frequencies| == |speeds|
    ensures |frequencies| < 2 || Degenerate(frequencies) ==> result == SpeedCalResult(0.0, 0.0)
    ensures |frequencies| >= 2 && !Degenerate(frequencies) ==>
              result.k == Slope(frequencies, speeds) && result.rSquared == RSquared(frequencies, speeds, result.k)
  {
    result := SpeedCalResult(0.0, 0.0);
    var count := |frequencies|;
    if count < 2 {
      return;
    }
    hide Centred, Sum, Dot, SquaredError, RSquared;
    var sumF, sumV, sumFF, sumFV := Accumulate(frequencies, speeds);
    var n := count as real;
    var denom := Centred(sumFF, sumF, sumF, n);
    if Abs(denom) < 0.000001 {
      return;
    }
    var k := Centred(sumFV, sumF, sumV, n) / denom;
    var rSquared := ComputeRSquared(frequencies, speeds, k, sumV / n);
    result := SpeedCalResult(k, rSquared);
  }

  /** The second loop: residuals against the line through the origin. */
  method ComputeRSquared(frequencies: seq<real>, speeds: seq<real>, k: real, meanV: real) returns (rSquared: real)
    requires |frequencies| == |speeds| && speeds != []
    requires meanV == Sum(speeds, |speeds|) / (|speeds| as real)
    ensures rSquared == RSquared(frequencies, speeds, k)
  {
    var ssRes, ssTot := 0.0, 0.0;
    for i := 0 to |frequencies|
      invariant ssRes == SquaredError(frequencies, speeds, i, k, 0.0)
      invariant ssTot == SquaredError(speeds, speeds, i, 0.0, meanV)
    {
      var pred := k * frequencies[i];
      var res := speeds[i] - pred;
      var dev := speeds[i] - meanV;
      ssRes := ssRes + res * res;
      ssTot := ssTot + dev * dev;
    }
    rSquared := 0.0;
    if ssTot > 0.000001 {
      rSquared := 1.0 - ssRes / ssTot;
    }
  }

  /** One minus r-squared is the share of the spread that the line leaves. */
  lemma RSquaredMeans(f: seq<real>, v: seq<real>, k: real)
    requires |f| == |v| && v != []
    ensures Spread(v) > 0.000001 ==>
              (1.0 - RSquared(f, v, k)) * Spread(v) == SquaredError(f, v, |f|, k, 0.0)
  {
    if Spread(v) > 0.000001 {
      QuotientBack(SquaredError(f, v, |f|, k, 0.0), Spread(v));
    }
    hide SquaredError, Spread;
  }

  lemma QuotientBack(x: real, y: real)
    requires y > 0.0
    ensures (1.0 - (1.0 - x / y)) * y == x
  {
  }

  // ---- Squared error as a polynomial in the line ----------------------------

  datatype Moments = Moments(n: real, f: real, v: real, ff: real, fv: real, vv: real)

  function MomentsOf(f: seq<real>, v: seq<real>, n: nat): Moments
    requires n <= |f| && n <= |v|
  {
    Moments(n as real, Sum(f, n), Sum(v, n), Dot(f, f, n), Dot(f, v, n), Dot(v, v, n))
  }

  function AddPoint(m: Moments, f: real, v: real): Moments {
    Moments(m.n + 1.0, m.f + f, m.v + v, m.ff + f * f, m.fv + f * v, m.vv + v * v)
  }

  function Expansion(m: Moments, a: real, b: real): real {
    m.vv - 2.0 * a * m.fv - 2.0 * b * m.v + a * a * m.ff + 2.0 * a * b * m.f + m.n * (b * b)
  }

  lemma ExpansionAdds(m: Moments, a: real, b: real, f: real, v: real)
    ensures Expansion(m, a, b) + Square(v - (a * f + b))
         == Expansion(AddPoint(m, f, v), a, b)
  {
  }

  lemma NoPoints(f: seq<real>, v: seq<real>, a: real, b: real)
    ensures SquaredError(f, v, 0, a, b) == Expansion(MomentsOf(f, v, 0), a, b)
  {
  }

  lemma ErrorStep(f: seq<real>, v: seq<real>, n: nat, a: real, b: real)
    requires 0 < n <= |f| && n <= |v|
    ensures SquaredError(f, v, n, a, b) == SquaredError(f, v, n - 1, a, b) + Square(v[n - 1] - (a * f[n - 1] + b))
  {
    hide Square;
  }

  lemma MomentsStep(f: seq<real>, v: seq<real>, n: nat)
    requires 0 < n <= |f| && n <= |v|
    ensures MomentsOf(f, v, n) == AddPoint(MomentsOf(f, v, n - 1), f[n - 1], v[n - 1])
  {
  }

  lemma {:induction false} SquaredErrorExpands(f: seq<real>, v: seq<real>, n: nat, a: real, b: real)
    requires n <= |f| && n <= |v|
    ensures SquaredError(f, v, n, a, b) == Expansion(MomentsOf(f, v, n), a, b)
  {
    hide *;
    if n == 0 {
      NoPoints(f, v, a, b);
    } else {
      SquaredErrorExpands(f, v, n - 1, a, b);
      ErrorStep(f, v, n, a, b);
      MomentsStep(f, v, n);
      ExpansionAdds(MomentsOf(f, v, n - 1), a, b, f[n - 1], v[n - 1]);
    }
  }

  lemma ProductSign(x: real, y: real, p: real)
    requires p == x * y
    ensures (x > 0.0 && y > 0.0) || (x < 0.0 && y < 0.0) ==> p > 0.0
    ensures x == 0.0 ==> p == 0.0
  {
  }

  lemma SquareSign(x: real)
    ensures Square(x) >= 0.0 && (Square(x) == 0.0 <==> x == 0.0)
  {
    ProductSign(x, x, Square(x));
  }

  lemma {:induction false} ErrorVanishesOnTheLine(f: seq<real>, v: seq<real>, n: nat, a: real, b: real)
    requires n <= |f| && n <= |v|
    ensures SquaredError(f, v, n, a, b) >= 0.0
    ensures SquaredError(f, v, n, a, b) == 0.0 <==> forall i :: 0 <= i < n ==> v[i] == a * f[i] + b
  {
    if n > 0 {
      ErrorVanishesOnTheLine(f, v, n - 1, a, b);
      SquareSign(v[n - 1] - (a * f[n - 1] + b));
    }
  }

  // ---- What the slope is -----------------------------------------------------

  lemma SpreadAlgebra(m: Moments, mean: real)
    requires m.n > 0.0 && mean == m.v / m.n
    ensures Expansion(m, 0.0, mean) == Centred(m.vv, m.v, m.v, m.n)
  {
    assert m.n * mean == m.v;
    assert m.n * (mean * mean) == (m.n * mean) * mean;
    assert m.v * m.v / m.n == m.v * mean;
  }

  /** The denominator is the sum of squared deviations, hence not negative. */
  lemma DenominatorIsSpread(f: seq<real>)
    requires f != []
    ensures Denominator(f) == Spread(f) >= 0.0
  {
    var mean := Sum(f, |f|) / (|f| as real);
    SquaredErrorExpands(f, f, |f|, 0.0, mean);
    SpreadAlgebra(MomentsOf(f, f, |f|), mean);
    ErrorVanishesOnTheLine(f, f, |f|, 0.0, mean);
  }

  /** The squared deviations contain those of any two points. */
  lemma {:induction false} ErrorOfTwo(s: seq<real>, n: nat, mean: real, i: nat, j: nat)
    requires i < j < n <= |s|
    ensures SquaredError(s, s, n, 0.0, mean) >= Square(s[i] - mean) + Square(s[j] - mean)
  {
    hide Square;
    ErrorStep(s, s, n, 0.0, mean);
    SquareSign(s[n - 1] - mean);
    if j < n - 1 {
      ErrorOfTwo(s, n - 1, mean, i, j);
    } else {
      ErrorOfOne(s, n - 1, mean, i);
    }
  }

  lemma {:induction false} ErrorOfOne(s: seq<real>, n: nat, mean: real, i: nat)
    requires i < n <= |s|
    ensures SquaredError(s, s, n, 0.0, mean) >= Square(s[i] - mean)
  {
    hide Square;
    ErrorStep(s, s, n, 0.0, mean);
    SquareSign(s[n - 1] - mean);
    if i < n - 1 {
      ErrorOfOne(s, n - 1, mean, i);
    } else {
      ErrorVanishesOnTheLine(s, s, n - 1, 0.0, mean);
    }
  }

  lemma TwoDeviations(x: real, y: real, mean: real)
    ensures Square(x - mean) + Square(y - mean) >= Square(x - y) / 2.0
  {
    var a, b := x - mean, y - mean;
    SquareSign(a + b);
    assert Square(a - b) + Square(a + b) == 2.0 * Square(a) + 2.0 * Square(b);
    assert a - b == x - y;
  }

  /** Frequencies that are whole numbers are degenerate exactly when they are all the same. */
  lemma WholeFrequenciesDegenerateExactly(f: seq<real>)
    requires f != [] && forall i :: 0 <= i < |f| ==> f[i] == f[i].Floor as real
    ensures Degenerate(f) <==> forall i, j :: 0 <= i < j < |f| ==> f[i] == f[j]
  {
    DenominatorIsSpread(f);
    var mean := Sum(f, |f|) / (|f| as real);
    hide Denominator, Square;
    if i, j :| 0 <= i < j < |f| && f[i] != f[j] {
      ErrorOfTwo(f, |f|, mean, i, j);
      TwoDeviations(f[i], f[j], mean);
      WholeApart(f[i].Floor - f[j].Floor, f[i] - f[j]);
    } else {
      SameMean(f, |f|);
      ErrorVanishesOnTheLine(f, f, |f|, 0.0, mean);
    }
  }

  lemma WholeApart(d: int, x: real)
    requires d != 0 && x == d as real
    ensures Square(x) >= 1.0
  {
    if d > 0 {
      ProductGrows(x, x);
    } else {
      ProductGrows(-x, -x);
    }
  }

  lemma ProductGrows(x: real, y: real)
    requires x >= 1.0 && y >= 1.0
    ensures x * y >= 1.0
  {
    assert (x - 1.0) * (y - 1.0) >= 0.0;
  }

  /** The mean of equal values is their value. */
  lemma SameMean(f: seq<real>, n: nat)
    requires 0 < n == |f| && forall i, j :: 0 <= i < j < |f| ==> f[i] == f[j]
    ensures forall i :: 0 <= i < n ==> f[i] == 0.0 * f[i] + Sum(f, n) / (n as real)
  {
    SumOfSame(f, n);
    assert Sum(f, n) / (n as real) == f[0];
  }

  lemma {:induction false} SumOfSame(f: seq<real>, n: nat)
    requires n <= |f| && f != [] && forall i, j :: 0 <= i < j < |f| ==> f[i] == f[j]
    ensures Sum(f, n) == (n as real) * f[0]
  {
    if n > 0 {
      SumOfSame(f, n - 1);
      assert f[n - 1] == f[0];
    }
  }

  function CostOfMove(n: real, d: real, x: real, z: real): real {
    d * Square(x) + n * Square(z)
  }

  /** Completing the square: moving the line away from slope k and its best intercept c
      costs d * x^2 plus n times the squared shift at the centre of the points. */
  lemma CompleteSquare(m: Moments, d: real, k: real, c: real, x: real, y: real)
    requires m.n > 0.0 && d == Centred(m.ff, m.f, m.f, m.n)
    requires k * d == Centred(m.fv, m.f, m.v, m.n) && m.n * c == m.v - k * m.f
    ensures Expansion(m, k + x, c + y) - Expansion(m, k, c) == CostOfMove(m.n, d, x, y + x * (m.f / m.n))
  {
    hide Expansion, CostOfMove, Centred;
    var n, mean := m.n, m.f / m.n;
    CentredAt(m.ff, m.f, m.f, n, mean);
    CentredAt(m.fv, m.f, m.v, n, mean);
    CompleteSquareCore(m, d, k, c, mean, x, y);
  }

  lemma CentredAt(xy: real, x: real, y: real, n: real, mean: real)
    requires n > 0.0 && mean == x / n
    ensures x == n * mean && Centred(xy, x, y, n) == xy - mean * y
  {
    assert x == n * mean;
    assert x * y / n == mean * y;
  }

  lemma CompleteSquareCore(m: Moments, d: real, k: real, c: real, mean: real, x: real, y: real)
    requires m.f == m.n * mean && m.v == m.n * c + k * m.f
    requires m.ff == d + mean * m.f && m.fv == k * d + mean * m.v
    ensures Expansion(m, k + x, c + y) - Expansion(m, k, c) == CostOfMove(m.n, d, x, y + x * mean)
  {
  }

  lemma MovingCosts(n: real, d: real, x: real, z: real)
    requires n > 0.0 && d > 0.0
    ensures CostOfMove(n, d, x, z) >= 0.0
    ensures x != 0.0 ==> CostOfMove(n, d, x, z) > 0.0
  {
    SquareSign(x);
    SquareSign(z);
    ProductSign(d, Square(x), d * Square(x));
    ProductSign(n, Square(z), n * Square(z));
    ProductSign(Square(x), d, Square(x) * d);
    ProductSign(Square(z), n, Square(z) * n);
  }

  function Intercept(f: seq<real>, v: seq<real>): real
    requires |f| == |v| && f != [] && Denominator(f) != 0.0
  {
    (Sum(v, |f|) - Slope(f, v) * Sum(f, |f|)) / (|f| as real)
  }

  lemma SlopeSolves(m: Moments, d: real, k: real, c: real)
    requires m.n > 0.0 && d != 0.0
    requires k == Centred(m.fv, m.f, m.v, m.n) / d && c == (m.v - k * m.f) / m.n
    ensures k * d == Centred(m.fv, m.f, m.v, m.n) && m.n * c == m.v - k * m.f
  {
  }

  lemma OptimalAmongLines(m: Moments, d: real, k: real, c: real, a: real, b: real)
    requires m.n > 0.0 && d == Centred(m.ff, m.f, m.f, m.n) && d > 0.0
    requires k == Centred(m.fv, m.f, m.v, m.n) / d && c == (m.v - k * m.f) / m.n
    ensures Expansion(m, k, c) <= Expansion(m, a, b)
    ensures a != k ==> Expansion(m, k, c) < Expansion(m, a, b)
  {
    hide Centred, Expansion, CostOfMove;
    SlopeSolves(m, d, k, c);
    var x, y := a - k, b - c;
    assert a == k + x && b == c + y;
    CompleteSquare(m, d, k, c, x, y);
    MovingCosts(m.n, d, x, y + x * (m.f / m.n));
  }

  lemma OptimalSlope(f: seq<real>, v: seq<real>, a: real, b: real)
    requires |f| == |v| && f != [] && Denominator(f) != 0.0
    ensures var m, k, c := MomentsOf(f, v, |f|), Slope(f, v), Intercept(f, v);
            Expansion(m, k, c) <= Expansion(m, a, b) && (a != k ==> Expansion(m, k, c) < Expansion(m, a, b))
  {
    hide Expansion, Centred;
    var m, d, k, c := MomentsOf(f, v, |f|), Denominator(f), Slope(f, v), Intercept(f, v);
    DenominatorIsSpread(f);
    assert d == Centred(m.ff, m.f, m.f, m.n) && d > 0.0 && m.n > 0.0;
    assert k == Centred(m.fv, m.f, m.v, m.n) / d;
    assert c == (m.v - k * m.f) / m.n;
    OptimalAmongLines(m, d, k, c, a, b);
  }

  /** The returned slope is least-squares optimal: no slope and intercept do better, and a
      line with another slope does strictly worse. */
  lemma SlopeIsOptimal(f: seq<real>, v: seq<real>, a: real, b: real)
    requires |f| == |v| && f != [] && Denominator(f) != 0.0
    ensures SquaredError(f, v, |f|, Slope(f, v), Intercept(f, v)) <= SquaredError(f, v, |f|, a, b)
    ensures a != Slope(f, v) ==> SquaredError(f, v, |f|, Slope(f, v), Intercept(f, v)) < SquaredError(f, v, |f|, a, b)
  {
    hide Expansion, Slope, Intercept, Denominator;
    var m, d, k, c := MomentsOf(f, v, |f|), Denominator(f), Slope(f, v), Intercept(f, v);
    OptimalSlope(f, v, a, b);
    SquaredErrorExpands(f, v, |f|, a, b);
    SquaredErrorExpands(f, v, |f|, k, c);
  }

  /** Points on a line give back its slope exactly. */
  lemma SlopeIsRecovered(f: seq<real>, v: seq<real>, a: real, b: real)
    requires |f| == |v| && f != [] && Denominator(f) != 0.0
    requires forall i :: 0 <= i < |f| ==> v[i] == a * f[i] + b
    ensures Slope(f, v) == a
  {
    ErrorVanishesOnTheLine(f, v, |f|, a, b);
    ErrorVanishesOnTheLine(f, v, |f|, Slope(f, v), Intercept(f, v));
    SlopeIsOptimal(f, v, a, b);
  }

  lemma {:induction false} SumOfLine(f: seq<real>, v: seq<real>, n: nat, a: real, b: real)
    requires n <= |f| == |v|
    requires forall i :: 0 <= i < |f| ==> v[i] == a * f[i] + b
    ensures Sum(v, n) == a * Sum(f, n) + b * (n as real)
  {
    if n > 0 {
      SumOfLine(f, v, n - 1, a, b);
      LineStep(a, b, Sum(f, n - 1), f[n - 1], n);
    }
  }

  lemma LineStep(a: real, b: real, sum: real, x: real, n: nat)
    requires n > 0
    ensures (a * sum + b * ((n - 1) as real)) + (a * x + b) == a * (sum + x) + b * (n as real)
  {
  }

  lemma InterceptIsRecovered(f: seq<real>, v: seq<real>, a: real, b: real)
    requires |f| == |v| && f != [] && Denominator(f) != 0.0
    requires forall i :: 0 <= i < |f| ==> v[i] == a * f[i] + b
    ensures Intercept(f, v) == b
  {
    hide Slope, Denominator, Sum;
    assert Intercept(f, v) == (Sum(v, |f|) - Slope(f, v) * Sum(f, |f|)) / (|f| as real);
    SlopeIsRecovered(f, v, a, b);
    SumOfLine(f, v, |f|, a, b);
    SolveForIntercept(Sum(v, |f|), Sum(f, |f|), |f| as real, a, b, Slope(f, v), Intercept(f, v));
  }

  lemma SolveForIntercept(sv: real, sf: real, n: real, a: real, b: real, k: real, c: real)
    requires n > 0.0 && sv == a * sf + b * n && k == a && c == (sv - k * sf) / n
    ensures c == b
  {
  }

  lemma QuotientFacts(x: real, y: real)
    requires x >= 0.0 && y > 0.0
    ensures x / y >= 0.0 && (x / y == 0.0 <==> x == 0.0)
  {
  }

  /** The reported r-squared never exceeds 1, and it is 1 exactly when every point lies on
      the line through the origin: an exact line with an intercept does not reach it. */
  lemma RSquaredAtMostOne(f: seq<real>, v: seq<real>, k: real)
    requires |f| == |v| && v != []
    ensures RSquared(f, v, k) <= 1.0
    ensures Spread(v) > 0.000001 ==> (RSquared(f, v, k) == 1.0 <==> forall i :: 0 <= i < |f| ==> v[i] == k * f[i])
  {
    ErrorVanishesOnTheLine(f, v, |f|, k, 0.0);
    if Spread(v) > 0.000001 {
      QuotientFacts(SquaredError(f, v, |f|, k, 0.0), Spread(v));
      assert forall i :: 0 <= i < |f| ==> (v[i] == k * f[i] + 0.0 <==> v[i] == k * f[i]);
    }
  }

  /** So on an exact line with enough spread the reported r-squared is 1 exactly when the
      line has no intercept. */
  lemma ExactLineReachesOne(f: seq<real>, v: seq<real>, a: real, b: real)
    requires |f| == |v| && f != [] && Denominator(f) != 0.0 && Spread(v) > 0.000001
    requires forall i :: 0 <= i < |f| ==> v[i] == a * f[i] + b
    ensures RSquared(f, v, Slope(f, v)) == 1.0 <==> b == 0.0
  {
    SlopeIsRecovered(f, v, a, b);
    RSquaredAtMostOne(f, v, a);
    hide RSquared, Slope, Spread, Denominator;
    assert v[0] == a * f[0] + b;
  }

  /** The spread of the values splits into what the best line explains and its error. */
  lemma SpreadSplits(m: Moments, d: real, k: real, c: real)
    requires m.n > 0.0 && d != 0.0 && d == Centred(m.ff, m.f, m.f, m.n)
    requires k == Centred(m.fv, m.f, m.v, m.n) / d && c == (m.v - k * m.f) / m.n
    ensures Expansion(m, 0.0, m.v / m.n) == Expansion(m, k, c) + d * Square(k)
  {
    hide Centred, Expansion;
    SlopeSolves(m, d, k, c);
    var x, y := -k, m.v / m.n - c;
    assert k + x == 0.0 && c + y == m.v / m.n;
    CompleteSquare(m, d, k, c, x, y);
    LinesMeet(m.n, m.f, m.v, k, c);
    assert x * (m.f / m.n) == -(k * (m.f / m.n));
    assert Square(x) == Square(k) && Square(0.0) == 0.0;
  }

  /** The best line runs through the centre of the points. */
  lemma LinesMeet(n: real, f: real, v: real, k: real, c: real)
    requires n > 0.0 && n * c == v - k * f
    ensures v / n - c == k * (f / n)
  {
    var mean := f / n;
    assert f == n * mean;
    assert v == n * (c + k * mean);
    Divided(n, c + k * mean, v);
  }

  lemma Divided(n: real, q: real, v: real)
    requires n > 0.0 && v == n * q
    ensures v / n == q
  {
  }
}
