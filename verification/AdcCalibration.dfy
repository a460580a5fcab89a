/** Fixed-point ADC calibration: handleAdcCalCompute in
    components/application/src/handlers/sensors.cpp and calibratedFromRaw in
    components/infrastructure/src/drivers/adc.cpp, with doubles as reals. */
module AdcCalibration {
  import opened LeastSquares
  import S = Stepper

  const ADC_CAL_MAX_POINTS: nat := 5

  const INT16_MIN: int := -32768
  const INT16_MAX: int := 32767
  const UINT16_MAX: int := 65535
  const INT32_LIMIT: int := 0x8000_0000

  datatype Outcome =
    | NotEnoughPoints
    | DegeneratePoints
    | Saturated(aX1000: int, b: int)   // a zero slope: the infinities are clamped
    | NotANumber                       // with readings all zero: 0 / 0
    | Computed(coeffA: real, coeffB: real, aX1000: int, b: int, rSquared: real)

  function ClampReal(x: real, lo: real, hi: real): (y: real)
    ensures lo <= hi ==> lo <= y <= hi && (y == x || (x < lo && y == lo) || (x > hi && y == hi))
  {
    if x < lo then lo else if x > hi then hi else x
  }

  function ClampInt(x: int, lo: int, hi: int): (y: int)
    ensures lo <= hi ==> lo <= y <= hi && (y == x || (x < lo && y == lo) || (x > hi && y == hi))
  {
    if x < lo then lo else if x > hi then hi else x
  }

  /** Conversion of a double to an integer drops the fraction. */
  function Truncate(x: real): (n: int)
    ensures x >= 0.0 ==> n as real <= x < n as real + 1.0
    ensures x <= 0.0 ==> n as real - 1.0 < x <= n as real
  {
    if x >= 0.0 then x.Floor else -((-x).Floor)
  }

  function QuantiseA(coeffA: real): int {
    Truncate(ClampReal(coeffA * 1000.0 + 0.5, 0.0, 65535.0))
  }

  function QuantiseB(coeffB: real): int {
    Truncate(ClampReal(coeffB + 0.5, -32768.0, 32767.0))
  }

  /** n * sumXY - sumX * sumY. */
  function Scaled(xy: real, x: real, y: real, n: real): real {
    n * xy - x * y
  }

  function ScaledDenominator(xs: seq<real>): real {
    Scaled(Dot(xs, xs, |xs|), Sum(xs, |xs|), Sum(xs, |xs|), |xs| as real)
  }

  function RegressionSlope(xs: seq<real>, ys: seq<real>): real
    requires |xs| == |ys| && ScaledDenominator(xs) != 0.0
  {
    ScaledCovariance(xs, ys) / ScaledDenominator(xs)
  }

  function RegressionIntercept(xs: seq<real>, ys: seq<real>): real
    requires |xs| == |ys| && xs != [] && ScaledDenominator(xs) != 0.0
  {
    (Sum(ys, |xs|) - RegressionSlope(xs, ys) * Sum(xs, |xs|)) / (|xs| as real)
  }

  function ScaledCovariance(xs: seq<real>, ys: seq<real>): real
    requires |xs| == |ys|
  {
    Scaled(Dot(xs, ys, |xs|), Sum(xs, |xs|), Sum(ys, |xs|), |xs| as real)
  }

  /** The reported r-squared: the square of num / sqrt(denomR). */
  function Determination(xs: seq<real>, ys: seq<real>): real
    requires |xs| == |ys|
  {
    var denomR := ScaledDenominator(xs) * ScaledDenominator(ys);
    if denomR > 0.0 then Square(ScaledCovariance(xs, ys)) / denomR else 0.0
  }

  /** The inverse line, from raw reading to reference. */
  function CoeffA(xs: seq<real>, ys: seq<real>): real
    requires |xs| == |ys| && ScaledDenominator(xs) != 0.0 && RegressionSlope(xs, ys) != 0.0
  {
    1.0 / RegressionSlope(xs, ys)
  }

  function CoeffB(xs: seq<real>, ys: seq<real>): real
    requires |xs| == |ys| && xs != [] && ScaledDenominator(xs) != 0.0 && RegressionSlope(xs, ys) != 0.0
  {
    -RegressionIntercept(xs, ys) / RegressionSlope(xs, ys)
  }

  /** The regression maps reference to raw; the stored pair maps raw back to reference.  A
      zero slope is divided by all the same, which gives infinities or no number at all. */
  method ComputeCalibration(refs: seq<real>, raws: seq<real>) returns (r: Outcome)
    requires |refs| == |raws| <= ADC_CAL_MAX_POINTS
    requires forall i :: 0 <= i < |raws| ==> 0.0 <= raws[i]
    ensures r.NotEnoughPoints? <==> |refs| < ADC_CAL_MAX_POINTS
    ensures r.DegeneratePoints? <==> |refs| == ADC_CAL_MAX_POINTS && Abs(ScaledDenominator(refs)) < 0.000000000001
    ensures !r.NotEnoughPoints? && !r.DegeneratePoints? ==>
              && (r.Computed? <==> RegressionSlope(refs, raws) != 0.0)
              && (r.NotANumber? <==> RegressionSlope(refs, raws) == 0.0 && Sum(raws, |raws|) == 0.0)
    ensures r.Saturated? ==> r.aX1000 == UINT16_MAX && r.b == INT16_MIN
    ensures r.Computed? ==>
              && r.coeffA == CoeffA(refs, raws) && r.coeffB == CoeffB(refs, raws)
              && r.aX1000 == QuantiseA(r.coeffA) && r.b == QuantiseB(r.coeffB)
              && r.rSquared == Determination(refs, raws)
  {
    if |refs| < ADC_CAL_MAX_POINTS {
      return NotEnoughPoints;
    }
    hide RegressionSlope, RegressionIntercept, QuantiseA, QuantiseB, Determination, Sum;
    var degenerate, aRaw, bRaw, rSquared, sumY := Regress(refs, raws);
    if degenerate {
      return DegeneratePoints;
    }
    if aRaw == 0.0 {
      if sumY == 0.0 {
        return NotANumber;
      }
      return Saturated(UINT16_MAX, INT16_MIN);
    }
    var coeffA := 1.0 / aRaw;
    var coeffB := -bRaw / aRaw;
    return Computed(coeffA, coeffB, QuantiseA(coeffA), QuantiseB(coeffB), rSquared);
  }

  /** The line through the points, unless their references coincide, and its r-squared. */
  method Regress(refs: seq<real>, raws: seq<real>)
      returns (degenerate: bool, aRaw: real, bRaw: real, rSquared: real, sumY: real)
    requires |refs| == |raws| && refs != []
    ensures degenerate <==> Abs(ScaledDenominator(refs)) < 0.000000000001
    ensures !degenerate ==> aRaw == RegressionSlope(refs, raws) && bRaw == RegressionIntercept(refs, raws)
    ensures !degenerate ==> rSquared == Determination(refs, raws) && sumY == Sum(raws, |raws|)
  {
    degenerate, aRaw, bRaw, rSquared := true, 0.0, 0.0, 0.0;
    hide Scaled, Sum, Dot, Square;
    var sumX, sumX2, sumXY;
    sumX, sumY, sumX2, sumXY := Accumulate(refs, raws);
    var _, _, sumY2, _ := Accumulate(raws, raws);
    var n := |refs| as real;
    var denom := Scaled(sumX2, sumX, sumX, n);
    if Abs(denom) < 0.000000000001 {
      return;
    }
    degenerate := false;
    aRaw := Scaled(sumXY, sumX, sumY, n) / denom;
    bRaw := (sumY - aRaw * sumX) / n;
    var num := Scaled(sumXY, sumX, sumY, n);
    var denomR := Scaled(sumX2, sumX, sumX, n) * Scaled(sumY2, sumY, sumY, n);
    rSquared := if denomR > 0.0 then Square(num) / denomR else 0.0;
  }

  /** Division of C, which cuts towards zero. */
  function CutDiv(x: int, d: nat): int
    requires d > 0
  {
    if x >= 0 then x / d else -((-x) / d)
  }

  /** The driver's reading: a 32-bit product, cut, shifted and clamped to 16 bits. */
  method CalibratedFromRaw(aX1000: int, b: int, raw: int) returns (reading: int)
    requires 0 <= aX1000 <= UINT16_MAX && INT16_MIN <= b <= INT16_MAX && 0 <= raw <= UINT16_MAX
    ensures reading == Reading(aX1000, b, raw)
    ensures INT16_MIN <= reading <= INT16_MAX
  {
    var product := S.Wrap32(aX1000 * raw);
    var result := CutDiv(product, 1000) + b;
    reading := ClampInt(result, INT16_MIN, INT16_MAX);
  }

  function Reading(aX1000: int, b: int, raw: int): int {
    ClampInt(CutDiv(S.Wrap32(aX1000 * raw), 1000) + b, INT16_MIN, INT16_MAX)
  }

  /** The product is what it should be exactly when it stays below 2^31. */
  lemma ProductFitsExactly(aX1000: int, raw: int, product: int)
    requires 0 <= product && product == aX1000 * raw
    ensures S.Wrap32(product) == product <==> product < INT32_LIMIT
  {
    if product < INT32_LIMIT {
      S.WrapIsUnique(product, product, 0);
    }
  }

  // ---- Error of the fixed-point form ----------------------------------------

  lemma ProductBounded(a: int, raw: int)
    requires 0 <= a <= UINT16_MAX && 0 <= raw <= 32768
    ensures 0 <= a * raw < INT32_LIMIT
  {
    assert a * raw <= 65535 * raw;
  }

  lemma FloorBounds(x: real)
    ensures (x.Floor as real) <= x < (x.Floor as real) + 1.0
  {
  }

  lemma QuantisedA(coeffA: real)
    requires 0.0 <= coeffA * 1000.0 + 0.5 <= 65535.0
    ensures 0 <= QuantiseA(coeffA) <= UINT16_MAX
    ensures -0.5 < (QuantiseA(coeffA) as real) - coeffA * 1000.0 <= 0.5
  {
    FloorBounds(coeffA * 1000.0 + 0.5);
  }

  lemma QuantisedB(coeffB: real)
    requires -32768.0 <= coeffB + 0.5 <= 32767.0
    ensures INT16_MIN <= QuantiseB(coeffB) <= INT16_MAX
    ensures -0.5 < (QuantiseB(coeffB) as real) - coeffB < 1.5
  {
    var x := coeffB + 0.5;
    if x >= 0.0 {
      FloorBounds(x);
    } else {
      FloorBounds(-x);
    }
  }

  lemma Halved(d: real, raw: real, e: real)
    requires raw >= 0.0 && -0.5 <= d <= 0.5 && e == d * raw
    ensures -raw / 2.0 <= e <= raw / 2.0
  {
    NonnegativeProduct(0.5 - d, raw, 0.5 * raw - e);
    NonnegativeProduct(d + 0.5, raw, e + 0.5 * raw);
  }

  lemma NonnegativeProduct(x: real, y: real, p: real)
    requires x >= 0.0 && y >= 0.0 && p == x * y
    ensures p >= 0.0
  {
  }

  lemma ScaledError(a: real, coeffA: real, raw: real, p: real, line: real)
    requires raw >= 0.0 && -0.5 <= a - coeffA * 1000.0 <= 0.5
    requires p == a * raw && line == coeffA * raw
    ensures -raw / 2000.0 <= p / 1000.0 - line <= raw / 2000.0
  {
    var d := a - coeffA * 1000.0;
    assert d * raw == p - 1000.0 * line;
    Halved(d, raw, p - 1000.0 * line);
  }

  lemma DividedDown(p: int)
    requires p >= 0
    ensures -1.0 < ((p / 1000) as real) - (p as real) / 1000.0 <= 0.0
  {
    var q := p / 1000;
    assert 1000 * q <= p < 1000 * q + 1000;
    assert 1000.0 * (q as real) == (1000 * q) as real;
  }

  predicate Unclamped(coeffA: real, coeffB: real, raw: int) {
    && 0.0 <= coeffA * 1000.0 + 0.5 <= 65535.0
    && -32768.0 <= coeffB + 0.5 <= 32767.0
    && INT16_MIN <= QuantiseA(coeffA) * raw / 1000 + QuantiseB(coeffB) <= INT16_MAX
  }

  lemma ProductError(a: int, coeffA: real, raw: int)
    requires a >= 0 && raw >= 0 && -0.5 <= (a as real) - coeffA * 1000.0 <= 0.5
    ensures var w := (raw as real) / 2000.0;
            -1.0 - w < ((a * raw / 1000) as real) - coeffA * (raw as real) <= w
  {
    DividedDown(a * raw);
    ScaledError(a as real, coeffA, raw as real, (a * raw) as real, coeffA * (raw as real));
  }

  /** With no clamp hit the reading is within 1.5 + raw / 2000 of the exact line, and the
      32-bit product does not overflow. */
  lemma ReadingIsClose(coeffA: real, coeffB: real, raw: int)
    requires 0 <= raw <= 32768 && Unclamped(coeffA, coeffB, raw)
    ensures 0 <= QuantiseA(coeffA) * raw < INT32_LIMIT
    ensures Abs((Reading(QuantiseA(coeffA), QuantiseB(coeffB), raw) as real) - (coeffA * (raw as real) + coeffB))
            < 1.5 + (raw as real) / 2000.0
  {
    hide QuantiseA, QuantiseB;
    var a, b := QuantiseA(coeffA), QuantiseB(coeffB);
    QuantisedA(coeffA);
    QuantisedB(coeffB);
    ProductBounded(a, raw);
    ProductFitsExactly(a, raw, a * raw);
    ProductError(a, coeffA, raw);
    ErrorsAdd((a * raw / 1000) as real, coeffA * (raw as real), b as real, coeffB, (raw as real) / 2000.0);
  }

  lemma ErrorsAdd(q: real, line: real, b: real, coeffB: real, w: real)
    requires -1.0 - w < q - line <= w && -0.5 < b - coeffB < 1.5
    ensures Abs((q + b) - (line + coeffB)) < 1.5 + w
  {
  }

  // ---- From measured points back to readings ---------------------------------

  lemma ScalingKeepsQuotient(n: real, num: real, den: real)
    requires n != 0.0 && den != 0.0
    ensures n * den != 0.0 && (n * num) / (n * den) == num / den
  {
  }

  /** The regression of the handler is least squares: its slope is the optimal one. */
  lemma RegressionIsLeastSquares(xs: seq<real>, ys: seq<real>)
    requires |xs| == |ys| && xs != [] && ScaledDenominator(xs) != 0.0
    ensures Denominator(xs) != 0.0
    ensures RegressionSlope(xs, ys) == Slope(xs, ys) && RegressionIntercept(xs, ys) == Intercept(xs, ys)
  {
    hide Centred, Scaled;
    var n := |xs| as real;
    ScaleCentred(Dot(xs, xs, |xs|), Sum(xs, |xs|), Sum(xs, |xs|), n);
    ScaleCentred(Dot(xs, ys, |xs|), Sum(xs, |xs|), Sum(ys, |xs|), n);
    var num, den := Centred(Dot(xs, ys, |xs|), Sum(xs, |xs|), Sum(ys, |xs|), n), Denominator(xs);
    assert ScaledDenominator(xs) == n * den;
    assert n * 0.0 == 0.0;
    ScalingKeepsQuotient(n, num, den);
  }

  lemma ScaleCentred(xy: real, x: real, y: real, n: real)
    requires n > 0.0
    ensures n * Centred(xy, x, y, n) == Scaled(xy, x, y, n)
  {
  }

  /** The reported r-squared is the share of the spread that the regression line explains. */
  lemma DeterminationIsExplained(xs: seq<real>, ys: seq<real>)
    requires |xs| == |ys| && xs != [] && ScaledDenominator(xs) * ScaledDenominator(ys) > 0.0
    ensures Denominator(xs) != 0.0 && Spread(ys) > 0.0
    ensures Determination(xs, ys)
         == 1.0 - SquaredError(xs, ys, |xs|, Slope(xs, ys), Intercept(xs, ys)) / Spread(ys)
  {
    hide Scaled, Centred, Determination, ScaledCovariance, ScaledDenominator, Denominator, Slope, Intercept;
    hide Spread, Square;
    var n, dx, dy := |xs| as real, Denominator(xs), Denominator(ys);
    ScaledParts(xs, ys);
    DenominatorIsSpread(xs);
    DenominatorIsSpread(ys);
    PositiveParts(n, dx, dy, ScaledDenominator(xs), ScaledDenominator(ys));
    ErrorSplits(xs, ys);
    var sx, sy, cov, k := ScaledDenominator(xs), ScaledDenominator(ys), ScaledCovariance(xs, ys), Slope(xs, ys);
    var error := SquaredError(xs, ys, |xs|, k, Intercept(xs, ys));
    var product, share := sx * sy, 1.0 - error / dy;
    Share(n, dx, dy, k, error, cov, sx, sy, product, share);
    DeterminationIs(xs, ys);
    SameFactor(Determination(xs, ys), share, product);
  }

  lemma DeterminationIs(xs: seq<real>, ys: seq<real>)
    requires |xs| == |ys|
    ensures var product := ScaledDenominator(xs) * ScaledDenominator(ys);
            product > 0.0 ==> Square(ScaledCovariance(xs, ys)) == Determination(xs, ys) * product
  {
    hide Square, ScaledDenominator, ScaledCovariance;
    var product := ScaledDenominator(xs) * ScaledDenominator(ys);
    if product > 0.0 {
      Times(Square(ScaledCovariance(xs, ys)), product, Determination(xs, ys));
    }
  }

  lemma SameFactor(x: real, y: real, p: real)
    requires p > 0.0 && x * p == y * p
    ensures x == y
  {
  }

  lemma ErrorSplits(xs: seq<real>, ys: seq<real>)
    requires |xs| == |ys| && xs != [] && Denominator(xs) != 0.0
    ensures Denominator(ys)
         == SquaredError(xs, ys, |xs|, Slope(xs, ys), Intercept(xs, ys)) + Denominator(xs) * Square(Slope(xs, ys))
  {
    var m, k, c := MomentsOf(xs, ys, |xs|), Slope(xs, ys), Intercept(xs, ys);
    hide Centred, Expansion, Square;
    SpreadSplits(m, Denominator(xs), k, c);
    SquaredErrorExpands(xs, ys, |xs|, k, c);
    SpreadOf(xs, ys);
  }

  lemma ScaledParts(xs: seq<real>, ys: seq<real>)
    requires |xs| == |ys| && xs != []
    ensures var n := |xs| as real;
            && ScaledDenominator(xs) == n * Denominator(xs) && ScaledDenominator(ys) == n * Denominator(ys)
            && (Denominator(xs) != 0.0 ==> ScaledCovariance(xs, ys) == n * (Slope(xs, ys) * Denominator(xs)))
  {
    hide Centred, Scaled;
    var n := |xs| as real;
    ScaleCentred(Dot(xs, xs, |xs|), Sum(xs, |xs|), Sum(xs, |xs|), n);
    ScaleCentred(Dot(ys, ys, |ys|), Sum(ys, |ys|), Sum(ys, |ys|), n);
    ScaleCentred(Dot(xs, ys, |xs|), Sum(xs, |xs|), Sum(ys, |xs|), n);
    if Denominator(xs) != 0.0 {
      Times(Centred(Dot(xs, ys, |xs|), Sum(xs, |xs|), Sum(ys, |xs|), n), Denominator(xs), Slope(xs, ys));
    }
  }

  lemma Times(num: real, den: real, q: real)
    requires den != 0.0 && q == num / den
    ensures q * den == num
  {
  }

  lemma PositiveParts(n: real, dx: real, dy: real, sx: real, sy: real)
    requires n > 0.0 && dx >= 0.0 && dy >= 0.0 && sx == n * dx && sy == n * dy && sx * sy > 0.0
    ensures dx > 0.0 && dy > 0.0
  {
  }

  lemma SpreadOf(xs: seq<real>, ys: seq<real>)
    requires |xs| == |ys| && xs != []
    ensures Expansion(MomentsOf(xs, ys, |xs|), 0.0, Sum(ys, |ys|) / (|ys| as real)) == Denominator(ys)
  {
    var m, mean := MomentsOf(xs, ys, |xs|), Sum(ys, |ys|) / (|ys| as real);
    hide Centred, Expansion;
    SpreadAlgebra(m, mean);
  }

  lemma Share(n: real, dx: real, dy: real, k: real, error: real, cov: real, sx: real, sy: real,
              product: real, share: real)
    requires n > 0.0 && dx > 0.0 && dy > 0.0 && dy == error + dx * Square(k)
    requires cov == n * (k * dx) && sx == n * dx && sy == n * dy && product == sx * sy > 0.0
    requires share == 1.0 - error / dy
    ensures Square(cov) == share * product
  {
    var x := dx * Square(k);
    var q := x / dy;
    Times(x, dy, q);
    SquaresMeet(n, dx, dy, k, q, cov, sx, sy);
    Complement(x, error, dy);
  }

  lemma SquaresMeet(n: real, dx: real, dy: real, k: real, q: real, cov: real, sx: real, sy: real)
    requires cov == n * (k * dx) && sx == n * dx && sy == n * dy && q * dy == dx * Square(k)
    ensures Square(cov) == q * (sx * sy)
  {
    var p := n * n * dx;
    assert sx * sy == p * dy;
    Swap(q, p, dy);
    assert Square(cov) == p * (dx * Square(k));
  }

  lemma Swap(q: real, p: real, y: real)
    ensures q * (p * y) == p * (q * y)
  {
  }

  lemma QuotientIs(x: real, y: real, q: real)
    requires y != 0.0 && x == q * y
    ensures x / y == q
  {
  }

  lemma Complement(x: real, e: real, y: real)
    requires y > 0.0 && y == e + x
    ensures x / y == 1.0 - e / y
  {
    var r := e / y;
    Times(e, y, r);
    assert (1.0 - r) * y == y - r * y;
    QuotientIs(x, y, 1.0 - r);
  }

  /** Hence it lies between 0 and 1, and is 1 exactly when the points are on their line. */
  lemma DeterminationBetween(xs: seq<real>, ys: seq<real>)
    requires |xs| == |ys| && xs != []
    ensures 0.0 <= Determination(xs, ys) <= 1.0
    ensures ScaledDenominator(xs) * ScaledDenominator(ys) > 0.0 ==>
              Denominator(xs) != 0.0
              && (Determination(xs, ys) == 1.0
                  <==> forall i :: 0 <= i < |xs| ==> ys[i] == Slope(xs, ys) * xs[i] + Intercept(xs, ys))
  {
    if ScaledDenominator(xs) * ScaledDenominator(ys) > 0.0 {
      DeterminationIsExplained(xs, ys);
      ErrorVanishesOnTheLine(xs, ys, |xs|, Slope(xs, ys), Intercept(xs, ys));
      QuotientFacts(SquaredError(xs, ys, |xs|, Slope(xs, ys), Intercept(xs, ys)), Spread(ys));
      QuotientFacts(Square(ScaledCovariance(xs, ys)), ScaledDenominator(xs) * ScaledDenominator(ys));
    }
  }

  /** Inverting the line that the readings follow gives the reference back. */
  lemma InverseLine(a: real, b: real, ref: real, raw: real, coeffA: real, coeffB: real)
    requires a != 0.0 && raw == a * ref + b && coeffA == 1.0 / a && coeffB == -b / a
    ensures coeffA * raw + coeffB == ref
  {
    assert coeffA * raw == raw / a;
    assert raw / a + coeffB == (raw - b) / a;
    assert raw - b == a * ref;
  }

  /** Calibrating on points that lie on a line and then reading one of them gives its
      reference value back, up to the fixed-point error. */
  lemma CalibratedReadingIsClose(refs: seq<real>, raws: seq<int>, ys: seq<real>, a: real, b: real, i: nat)
    requires |refs| == |raws| == |ys| && i < |refs| && ScaledDenominator(refs) != 0.0
    requires forall j :: 0 <= j < |refs| ==> ys[j] == raws[j] as real && ys[j] == a * refs[j] + b
    requires RegressionSlope(refs, ys) != 0.0 && 0 <= raws[i] <= 32768
    requires Unclamped(CoeffA(refs, ys), CoeffB(refs, ys), raws[i])
    ensures Abs((Reading(QuantiseA(CoeffA(refs, ys)), QuantiseB(CoeffB(refs, ys)), raws[i]) as real) - refs[i])
            < 1.5 + ys[i] / 2000.0
  {
    hide QuantiseA, QuantiseB, Reading, Unclamped, RegressionSlope, RegressionIntercept;
    RegressionRecoversLine(refs, ys, a, b);
    InverseLine(a, b, refs[i], ys[i], CoeffA(refs, ys), CoeffB(refs, ys));
    ReadingIsClose(CoeffA(refs, ys), CoeffB(refs, ys), raws[i]);
  }

  lemma RegressionRecoversLine(refs: seq<real>, ys: seq<real>, a: real, b: real)
    requires |refs| == |ys| && refs != [] && ScaledDenominator(refs) != 0.0
    requires forall j :: 0 <= j < |refs| ==> ys[j] == a * refs[j] + b
    ensures RegressionSlope(refs, ys) == a && RegressionIntercept(refs, ys) == b
  {
    hide RegressionSlope, RegressionIntercept, Slope, Intercept;
    RegressionIsLeastSquares(refs, ys);
    SlopeIsRecovered(refs, ys, a, b);
    InterceptIsRecovered(refs, ys, a, b);
  }
}
