/** The Z-factor lookup of components/domain/include/domain/z_factor.hpp: clamped bilinear
    interpolation in a table, over the reals. */
module ZFactor {

  ghost predicate StrictlyIncreasing(xs: seq<real>) {
    forall i, j :: 0 <= i < j < |xs| ==> xs[i] < xs[j]
  }

  ghost predicate NonDecreasing(ys: seq<real>) {
    forall i, j :: 0 <= i <= j < |ys| ==> ys[i] <= ys[j]
  }

  /** An axis has at least one cell. */
  ghost predicate Axis(xs: seq<real>) {
    2 <= |xs| && StrictlyIncreasing(xs)
  }

  /** Pointwise order of two rows. */
  ghost predicate Below(a: seq<real>, b: seq<real>) {
    |a| == |b| && forall i :: 0 <= i < |a| ==> a[i] <= b[i]
  }

  ghost predicate Grid(ts: seq<real>, ps: seq<real>, table: seq<seq<real>>) {
    Axis(ts) && Axis(ps) && |table| == |ts| && forall r :: 0 <= r < |table| ==> |table[r]| == |ps|
  }

  /** Monotone in both directions. */
  ghost predicate MonotoneTable(table: seq<seq<real>>) {
    && (forall r :: 0 <= r < |table| ==> NonDecreasing(table[r]))
    && (forall q, r :: 0 <= q <= r < |table| ==> Below(table[q], table[r]))
  }

  function Lerp(a: real, b: real, t: real): real {
    a + (b - a) * t
  }

  function Clamp(x: real, lo: real, hi: real): real {
    var y := if x < lo then lo else x;
    if y > hi then hi else y
  }

  /** The result of the scan over the cells below index n. */
  function Scan(xs: seq<real>, x: real, n: nat): (i: nat)
    requires n < |xs|
    ensures i < n || (n == 0 && i == 0)
  {
    if n == 0 then 0 else if x >= xs[n - 1] then n - 1 else Scan(xs, x, n - 1)
  }

  function CellOf(xs: seq<real>, x: real): (i: nat)
    requires 2 <= |xs|
    ensures i + 1 < |xs|
  {
    Scan(xs, x, |xs| - 1)
  }

  function Fraction(xs: seq<real>, i: nat, x: real): real
    requires i + 1 < |xs| && xs[i] != xs[i + 1]
  {
    (x - xs[i]) / (xs[i + 1] - xs[i])
  }

  /** Piecewise linear interpolation of ys over the axis xs. */
  ghost function Interpolate(xs: seq<real>, ys: seq<real>, x: real): real
    requires Axis(xs) && |ys| == |xs|
  {
    var i := CellOf(xs, x);
    Lerp(ys[i], ys[i + 1], Fraction(xs, i, x))
  }

  ghost function Column(ts: seq<real>, ps: seq<real>, table: seq<seq<real>>, p: real): (rows: seq<real>)
    requires Grid(ts, ps, table)
    ensures |rows| == |ts|
  {
    seq(|ts|, r requires 0 <= r < |ts| => Interpolate(ps, table[r], p))
  }

  ghost function Lookup(ts: seq<real>, ps: seq<real>, table: seq<seq<real>>, t: real, p: real): real
    requires Grid(ts, ps, table)
  {
    var t' := Clamp(t, ts[0], ts[|ts| - 1]);
    var p' := Clamp(p, ps[0], ps[|ps| - 1]);
    Interpolate(ts, Column(ts, ps, table, p'), t')
  }

  lemma LookupUnfolds(ts: seq<real>, ps: seq<real>, table: seq<seq<real>>, t: real, p: real)
    requires Grid(ts, ps, table)
    ensures var ti, pi := CellOf(ts, t), CellOf(ps, p);
            var pFrac := Fraction(ps, pi, p);
            Interpolate(ts, Column(ts, ps, table, p), t)
            == Lerp(Lerp(table[ti][pi], table[ti][pi + 1], pFrac),
                    Lerp(table[ti + 1][pi], table[ti + 1][pi + 1], pFrac),
                    Fraction(ts, ti, t))
  {
  }

  method GetZFactor(ts: seq<real>, ps: seq<real>, table: seq<seq<real>>, t: real, p: real) returns (z: real)
    requires Grid(ts, ps, table)
    ensures z == Lookup(ts, ps, table, t, p)
  {
    var temperature, pressure := t, p;
    if temperature < ts[0] {
      temperature := ts[0];
    }
    if temperature > ts[|ts| - 1] {
      temperature := ts[|ts| - 1];
    }
    if pressure < ps[0] {
      pressure := ps[0];
    }
    if pressure > ps[|ps| - 1] {
      pressure := ps[|ps| - 1];
    }
    var ti, pi := 0, 0;
    for i := 0 to |ts| - 1
      invariant ti == Scan(ts, temperature, i)
    {
      if temperature >= ts[i] {
        ti := i;
      }
    }
    for i := 0 to |ps| - 1
      invariant pi == Scan(ps, pressure, i)
    {
      if pressure >= ps[i] {
        pi := i;
      }
    }
    var tFrac := Fraction(ts, ti, temperature);
    var pFrac := Fraction(ps, pi, pressure);
    var zT1 := Lerp(table[ti][pi], table[ti][pi + 1], pFrac);
    var zT2 := Lerp(table[ti + 1][pi], table[ti + 1][pi + 1], pFrac);
    z := Lerp(zT1, zT2, tFrac);
    hide Lerp, Fraction, Interpolate, Column, Grid;
    LookupUnfolds(ts, ps, table, temperature, pressure);
  }

  // ---- Linear interpolation ------------------------------------------------

  lemma ProductMonotone(a: real, b: real, t: real, at: real, bt: real)
    requires a <= b && t >= 0.0 && at == a * t && bt == b * t
    ensures at <= bt
  {
  }

  lemma LerpBetween(a: real, b: real, t: real)
    requires a <= b && 0.0 <= t <= 1.0
    ensures a <= Lerp(a, b, t) <= b
  {
    ProductMonotone(0.0, b - a, t, 0.0, (b - a) * t);
    ProductMonotone(t, 1.0, b - a, t * (b - a), b - a);
  }

  lemma LerpMonotoneInT(a: real, b: real, t: real, u: real)
    requires a <= b && t <= u
    ensures Lerp(a, b, t) <= Lerp(a, b, u)
  {
    ProductMonotone(t, u, b - a, t * (b - a), u * (b - a));
  }

  lemma LerpMonotoneInEnds(a: real, b: real, c: real, d: real, t: real)
    requires a <= c && b <= d && 0.0 <= t <= 1.0
    ensures Lerp(a, b, t) <= Lerp(c, d, t)
  {
    LerpAsMean(a, b, t);
    LerpAsMean(c, d, t);
    ProductMonotone(a, c, 1.0 - t, a * (1.0 - t), c * (1.0 - t));
    ProductMonotone(b, d, t, b * t, d * t);
  }

  lemma LerpAsMean(a: real, b: real, t: real)
    ensures Lerp(a, b, t) == a * (1.0 - t) + b * t
  {
  }

  lemma QuotientMonotone(x: real, y: real, w: real)
    requires w > 0.0
    ensures x <= y ==> x / w <= y / w
    ensures 0.0 / w == 0.0 && w / w == 1.0
  {
  }

  // ---- One axis ------------------------------------------------------------

  lemma {:induction false} ScanFindsCell(xs: seq<real>, x: real, n: nat)
    requires 0 < n < |xs| && StrictlyIncreasing(xs) && xs[0] <= x <= xs[n]
    ensures var i := Scan(xs, x, n); xs[i] <= x <= xs[i + 1] && (x == xs[i + 1] ==> i + 1 == n)
  {
    if x < xs[n - 1] {
      ScanFindsCell(xs, x, n - 1);
    }
  }

  ghost predicate InRange(xs: seq<real>, x: real)
    requires xs != []
  {
    xs[0] <= x <= xs[|xs| - 1]
  }

  lemma FractionInUnit(xs: seq<real>, x: real)
    requires Axis(xs) && InRange(xs, x)
    ensures 0.0 <= Fraction(xs, CellOf(xs, x), x) <= 1.0
  {
    var i := CellOf(xs, x);
    ScanFindsCell(xs, x, |xs| - 1);
    var w := xs[i + 1] - xs[i];
    QuotientMonotone(0.0, x - xs[i], w);
    QuotientMonotone(x - xs[i], w, w);
  }

  lemma CellsInOrder(xs: seq<real>, i: nat, j: nat, x: real, y: real)
    requires Axis(xs) && i + 1 < |xs| && j + 1 < |xs|
    requires xs[i] <= x <= y <= xs[j + 1] && (y == xs[j + 1] ==> j + 2 == |xs|)
    ensures i <= j
  {
  }

  /** Interpolation is monotone along the axis, across cell boundaries. */
  lemma InterpolationMonotone(xs: seq<real>, ys: seq<real>, x: real, y: real)
    requires Axis(xs) && |ys| == |xs| && NonDecreasing(ys)
    requires InRange(xs, x) && InRange(xs, y) && x <= y
    ensures Interpolate(xs, ys, x) <= Interpolate(xs, ys, y)
  {
    var i, j := CellOf(xs, x), CellOf(xs, y);
    ScanFindsCell(xs, x, |xs| - 1);
    ScanFindsCell(xs, y, |xs| - 1);
    if i == j {
      QuotientMonotone(x - xs[i], y - xs[i], xs[i + 1] - xs[i]);
      LerpMonotoneInT(ys[i], ys[i + 1], Fraction(xs, i, x), Fraction(xs, i, y));
    } else {
      CellsInOrder(xs, i, j, x, y);
      FractionInUnit(xs, x);
      FractionInUnit(xs, y);
      LerpBetween(ys[i], ys[i + 1], Fraction(xs, i, x));
      LerpBetween(ys[j], ys[j + 1], Fraction(xs, j, y));
    }
  }

  /** Larger values interpolate to larger values. */
  lemma InterpolationMonotoneInValues(xs: seq<real>, ys: seq<real>, zs: seq<real>, x: real)
    requires Axis(xs) && |ys| == |xs| && Below(ys, zs) && InRange(xs, x)
    ensures Interpolate(xs, ys, x) <= Interpolate(xs, zs, x)
  {
    var i := CellOf(xs, x);
    FractionInUnit(xs, x);
    LerpMonotoneInEnds(ys[i], ys[i + 1], zs[i], zs[i + 1], Fraction(xs, i, x));
  }

  /** Interpolation passes through the given values. */
  lemma InterpolationHits(xs: seq<real>, ys: seq<real>, k: nat)
    requires Axis(xs) && |ys| == |xs| && k < |xs|
    ensures Interpolate(xs, ys, xs[k]) == ys[k]
  {
    var i := CellOf(xs, xs[k]);
    ScanFindsCell(xs, xs[k], |xs| - 1);
    QuotientMonotone(0.0, 0.0, xs[i + 1] - xs[i]);
  }

  lemma InterpolationBetween(xs: seq<real>, ys: seq<real>, x: real)
    requires Axis(xs) && |ys| == |xs| && NonDecreasing(ys) && InRange(xs, x)
    ensures ys[0] <= Interpolate(xs, ys, x) <= ys[|ys| - 1]
  {
    InterpolationHits(xs, ys, 0);
    InterpolationHits(xs, ys, |ys| - 1);
    InterpolationMonotone(xs, ys, xs[0], x);
    InterpolationMonotone(xs, ys, x, xs[|xs| - 1]);
  }

  // ---- The table -----------------------------------------------------------

  lemma ColumnNonDecreasing(ts: seq<real>, ps: seq<real>, table: seq<seq<real>>, p: real)
    requires Grid(ts, ps, table) && MonotoneTable(table) && InRange(ps, p)
    ensures NonDecreasing(Column(ts, ps, table, p))
  {
    forall q, r | 0 <= q <= r < |ts|
      ensures Column(ts, ps, table, p)[q] <= Column(ts, ps, table, p)[r]
    {
      InterpolationMonotoneInValues(ps, table[q], table[r], p);
    }
  }

  lemma ColumnMonotone(ts: seq<real>, ps: seq<real>, table: seq<seq<real>>, p: real, p': real)
    requires Grid(ts, ps, table) && MonotoneTable(table) && InRange(ps, p) && InRange(ps, p') && p <= p'
    ensures Below(Column(ts, ps, table, p), Column(ts, ps, table, p'))
  {
    forall r | 0 <= r < |ts|
      ensures Column(ts, ps, table, p)[r] <= Column(ts, ps, table, p')[r]
    {
      InterpolationMonotone(ps, table[r], p, p');
    }
  }

  /** The lookup is monotone in temperature and in pressure, over all real inputs. */
  lemma LookupMonotone(ts: seq<real>, ps: seq<real>, table: seq<seq<real>>, t: real, p: real, t': real, p': real)
    requires Grid(ts, ps, table) && MonotoneTable(table) && t <= t' && p <= p'
    ensures Lookup(ts, ps, table, t, p) <= Lookup(ts, ps, table, t', p')
  {
    var a, a' := Clamp(t, ts[0], ts[|ts| - 1]), Clamp(t', ts[0], ts[|ts| - 1]);
    var b, b' := Clamp(p, ps[0], ps[|ps| - 1]), Clamp(p', ps[0], ps[|ps| - 1]);
    ColumnNonDecreasing(ts, ps, table, b);
    ColumnMonotone(ts, ps, table, b, b');
    InterpolationMonotone(ts, Column(ts, ps, table, b), a, a');
    InterpolationMonotoneInValues(ts, Column(ts, ps, table, b), Column(ts, ps, table, b'), a');
  }

  /** At a grid point the lookup gives the table entry. */
  lemma LookupHitsGrid(ts: seq<real>, ps: seq<real>, table: seq<seq<real>>, r: nat, c: nat)
    requires Grid(ts, ps, table) && r < |ts| && c < |ps|
    ensures Lookup(ts, ps, table, ts[r], ps[c]) == table[r][c]
  {
    InterpolationHits(ts, Column(ts, ps, table, ps[c]), r);
    InterpolationHits(ps, table[r], c);
  }

  /** Every input, however far outside the axes, gives a value between the table's extremes. */
  lemma LookupBetweenExtremes(ts: seq<real>, ps: seq<real>, table: seq<seq<real>>, t: real, p: real)
    requires Grid(ts, ps, table) && MonotoneTable(table)
    ensures table[0][0] <= Lookup(ts, ps, table, t, p) <= table[|ts| - 1][|ps| - 1]
  {
    var b := Clamp(p, ps[0], ps[|ps| - 1]);
    ColumnNonDecreasing(ts, ps, table, b);
    InterpolationBetween(ts, Column(ts, ps, table, b), Clamp(t, ts[0], ts[|ts| - 1]));
    InterpolationBetween(ps, table[0], b);
    InterpolationBetween(ps, table[|ts| - 1], b);
  }

  function LineAt(a: real, b: real, x: real): real {
    a + b * x
  }

  ghost predicate OnLine(xs: seq<real>, ys: seq<real>, a: real, b: real) {
    |ys| == |xs| && forall i :: 0 <= i < |xs| ==> ys[i] == LineAt(a, b, xs[i])
  }

  /** On values of a straight line interpolation gives the line. */
  lemma LineIsReproduced(xs: seq<real>, ys: seq<real>, a: real, b: real, x: real)
    requires Axis(xs) && OnLine(xs, ys, a, b)
    ensures Interpolate(xs, ys, x) == LineAt(a, b, x)
  {
    var i := CellOf(xs, x);
    LineInCell(a, b, xs[i], xs[i + 1], x);
  }

  lemma LineInCell(a: real, b: real, from: real, to: real, x: real)
    requires from < to
    ensures Lerp(LineAt(a, b, from), LineAt(a, b, to), (x - from) / (to - from)) == LineAt(a, b, x)
  {
    var w, t := to - from, (x - from) / (to - from);
    assert w * t == x - from;
    assert (a + b * to) - (a + b * from) == b * w;
    assert (b * w) * t == b * (w * t);
  }

  /** Each row is linear in the pressure, with coefficients that are linear in the
      temperature: the row of t is (a + b * t) + (c + d * t) * p. */
  ghost predicate Bilinear(ts: seq<real>, ps: seq<real>, table: seq<seq<real>>, a: real, b: real, c: real, d: real)
    requires Grid(ts, ps, table)
  {
    forall r :: 0 <= r < |ts| ==> OnLine(ps, table[r], LineAt(a, b, ts[r]), LineAt(c, d, ts[r]))
  }

  lemma ColumnOnLine(ts: seq<real>, ps: seq<real>, table: seq<seq<real>>,
                     a: real, b: real, c: real, d: real, p: real)
    requires Grid(ts, ps, table) && Bilinear(ts, ps, table, a, b, c, d)
    ensures OnLine(ts, Column(ts, ps, table, p), LineAt(a, c, p), LineAt(b, d, p))
  {
    hide LineAt;
    forall r | 0 <= r < |ts|
      ensures Column(ts, ps, table, p)[r] == LineAt(LineAt(a, c, p), LineAt(b, d, p), ts[r])
    {
      LineIsReproduced(ps, table[r], LineAt(a, b, ts[r]), LineAt(c, d, ts[r]), p);
      Rearranged(a, b, c, d, ts[r], p);
    }
  }

  /** The lookup is exact on a table whose values are bilinear in temperature and pressure,
      for every input within the axes; outside it takes the nearest end of the axis. */
  lemma BilinearTableIsReproduced(ts: seq<real>, ps: seq<real>, table: seq<seq<real>>,
                                  a: real, b: real, c: real, d: real, t: real, p: real)
    requires Grid(ts, ps, table) && Bilinear(ts, ps, table, a, b, c, d)
    ensures var t' := if t < ts[0] then ts[0] else if t > ts[|ts| - 1] then ts[|ts| - 1] else t;
            var p' := if p < ps[0] then ps[0] else if p > ps[|ps| - 1] then ps[|ps| - 1] else p;
            Lookup(ts, ps, table, t, p) == LineAt(LineAt(a, b, t'), LineAt(c, d, t'), p')
  {
    var p' := Clamp(p, ps[0], ps[|ps| - 1]);
    var t' := Clamp(t, ts[0], ts[|ts| - 1]);
    hide LineAt, OnLine, Interpolate, Column, Bilinear;
    ColumnOnLine(ts, ps, table, a, b, c, d, p');
    LineIsReproduced(ts, Column(ts, ps, table, p'), LineAt(a, c, p'), LineAt(b, d, p'), t');
    Rearranged(a, b, c, d, t', p');
  }

  lemma Rearranged(a: real, b: real, c: real, d: real, t: real, p: real)
    ensures LineAt(LineAt(a, b, t), LineAt(c, d, t), p) == LineAt(LineAt(a, c, p), LineAt(b, d, p), t)
  {
  }

  // ---- The shipped table -----------------------------------------------------

  const Temperatures: seq<real> := seq(31, i requires 0 <= i < 31 => 15.0 + 0.5 * (i as real))
  const Pressures: seq<real> := [80.0, 85.3, 90.7, 96.0, 101.3, 106.7]

  /** A table row in units of 0.0001. */
  datatype Row = Row(p0: int, p1: int, p2: int, p3: int, p4: int, p5: int) {
    function Entry(c: nat): int
      requires c < 6
    {
      match c
      case 0 => p0 case 1 => p1 case 2 => p2 case 3 => p3 case 4 => p4 case 5 => p5
    }

    predicate Ascends() {
      p0 <= p1 <= p2 <= p3 <= p4 <= p5
    }

    predicate DominatedBy(x: Row) {
      p0 <= x.p0 && p1 <= x.p1 && p2 <= x.p2 && p3 <= x.p3 && p4 <= x.p4 && p5 <= x.p5
    }
  }

  function RowAt(r: nat): Row
    requires r < 31
  {
    match r
    case 0 => Row(10018, 10018, 10019, 10019, 10020, 10020)
    case 1 => Row(10018, 10018, 10019, 10020, 10020, 10021)
    case 2 => Row(10019, 10020, 10020, 10021, 10022, 10022)
    case 3 => Row(10020, 10020, 10021, 10022, 10022, 10023)
    case 4 => Row(10021, 10021, 10022, 10022, 10023, 10023)
    case 5 => Row(10022, 10022, 10023, 10024, 10024, 10024)
    case 6 => Row(10022, 10023, 10024, 10024, 10025, 10025)
    case 7 => Row(10023, 10024, 10025, 10025, 10026, 10026)
    case 8 => Row(10024, 10025, 10025, 10026, 10027, 10027)
    case 9 => Row(10025, 10026, 10026, 10027, 10028, 10028)
    case 10 => Row(10026, 10027, 10027, 10028, 10029, 10029)
    case 11 => Row(10027, 10028, 10028, 10029, 10030, 10030)
    case 12 => Row(10028, 10029, 10031, 10031, 10032, 10032)
    case 13 => Row(10030, 10030, 10032, 10032, 10033, 10033)
    case 14 => Row(10031, 10031, 10033, 10033, 10034, 10035)
    case 15 => Row(10032, 10032, 10034, 10035, 10035, 10036)
    case 16 => Row(10033, 10033, 10035, 10036, 10036, 10037)
    case 17 => Row(10034, 10035, 10036, 10037, 10038, 10038)
    case 18 => Row(10035, 10036, 10037, 10038, 10039, 10039)
    case 19 => Row(10037, 10037, 10038, 10039, 10040, 10041)
    case 20 => Row(10038, 10038, 10039, 10040, 10041, 10042)
    case 21 => Row(10039, 10040, 10041, 10041, 10042, 10043)
    case 22 => Row(10040, 10041, 10042, 10042, 10043, 10045)
    case 23 => Row(10042, 10042, 10043, 10044, 10045, 10046)
    case 24 => Row(10043, 10044, 10044, 10045, 10048, 10049)
    case 25 => Row(10046, 10046, 10047, 10048, 10048, 10049)
    case 26 => Row(10046, 10046, 10047, 10048, 10049, 10049)
    case 27 => Row(10047, 10048, 10048, 10049, 10050, 10050)
    case 28 => Row(10049, 10049, 10050, 10051, 10051, 10052)
    case 29 => Row(10050, 10051, 10051, 10052, 10053, 10053)
    case 30 => Row(10052, 10052, 10053, 10054, 10054, 10055)
  }

  function RealRow(row: Row): (reals: seq<real>)
    ensures |reals| == 6
  {
    seq(6, c requires 0 <= c < 6 => (row.Entry(c) as real) / 10000.0)
  }

  const Table: seq<seq<real>> := seq(31, r requires 0 <= r < 31 => RealRow(RowAt(r)))

  lemma RowAscends(r: nat)
    requires r < 31
    ensures RowAt(r).Ascends()
  {
  }

  lemma NextRowAboveCold(r: nat)
    requires r < 15
    ensures RowAt(r).DominatedBy(RowAt(r + 1))
  {
  }

  lemma NextRowAboveWarm(r: nat)
    requires 15 <= r < 30
    ensures RowAt(r).DominatedBy(RowAt(r + 1))
  {
  }

  lemma {:induction false} RowsBelow(q: nat, r: nat)
    requires q <= r < 31
    ensures RowAt(q).DominatedBy(RowAt(r))
    decreases r
  {
    hide RowAt;
    if q < r {
      RowsBelow(q, r - 1);
      if r <= 15 {
        NextRowAboveCold(r - 1);
      } else {
        NextRowAboveWarm(r - 1);
      }
    }
  }

  lemma RealRowsBelow(w: Row, x: Row)
    requires w.DominatedBy(x)
    ensures Below(RealRow(w), RealRow(x))
  {
  }

  lemma RealRowAscends(w: Row)
    requires w.Ascends()
    ensures NonDecreasing(RealRow(w))
  {
  }

  /** The shipped axes and table satisfy what the lemmas above ask for. */
  lemma ShippedTableIsMonotone()
    ensures Grid(Temperatures, Pressures, Table) && MonotoneTable(Table)
  {
    hide RowAt, RealRow;
    forall r | 0 <= r < 31
      ensures NonDecreasing(Table[r])
    {
      RowAscends(r);
      RealRowAscends(RowAt(r));
    }
    forall q, r | 0 <= q <= r < 31
      ensures Below(Table[q], Table[r])
    {
      RowsBelow(q, r);
      RealRowsBelow(RowAt(q), RowAt(r));
    }
  }
}
