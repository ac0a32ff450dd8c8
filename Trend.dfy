/**
 * The least-squares trendline of `linearRegression`: over the points of one category it
 * fits `count = m * year + b` and returns, for every input point, its year with the
 * fitted count. The arithmetic is stated over exact reals.
 */
module Trend {

  import opened Aggregation

  /**
   * A fitted count. `Undefined` stands for NaN, what JavaScript computes for the slope
   * when the least-squares denominator is zero (the numerator is then zero too).
   */
  datatype Fitted = Value(v: real) | Undefined

  /** One point of the trendline: `{year, count}` with the fitted count. */
  datatype TrendPoint = TrendPoint(year: int, count: Fitted)

  /** `sumX`: the sum of the years. */
  function SumX(ps: seq<Point>): int
  {
    if ps == [] then 0 else ps[0].year + SumX(ps[1..])
  }

  /** `sumXY`: the sum of year times count. */
  function SumXY(ps: seq<Point>): int
  {
    if ps == [] then 0 else ps[0].year * ps[0].count + SumXY(ps[1..])
  }

  /** `sumX2`: the sum of the squared years. */
  function SumX2(ps: seq<Point>): int
  {
    if ps == [] then 0 else ps[0].year * ps[0].year + SumX2(ps[1..])
  }

  /** The denominator of the slope, `n * sumX2 - sumX * sumX`. */
  function Denominator(ps: seq<Point>): int
  {
    |ps| * SumX2(ps) - SumX(ps) * SumX(ps)
  }

  /** The slope `m` of the least-squares line. */
  function Slope(data: seq<Point>): real
    requires Denominator(data) != 0
  {
    (|data| * SumXY(data) - SumX(data) * SumCounts(data)) as real / Denominator(data) as real
  }

  /** The intercept `b` of the least-squares line. */
  function Intercept(data: seq<Point>): real
    requires Denominator(data) != 0
  {
    assert |data| != 0;
    InterceptFrom(SumCounts(data), SumX(data), |data|, Slope(data))
  }

  /** `(sumY - m * sumX) / n`. */
  function InterceptFrom(sy: int, sx: int, n: int, m: real): real
    requires n != 0
  {
    (sy as real - m * sx as real) / n as real
  }

  /** The value of the line `m * year + b` at a year. */
  function OnLine(m: real, b: real, year: int): real
  {
    m * year as real + b
  }

  /**
   * `linearRegression`: one trend point per input point, with the same year, in the same
   * order; the fitted counts are undefined exactly when the denominator is zero.
   */
  function LinearRegression(data: seq<Point>): (r: seq<TrendPoint>)
    ensures |r| == |data|
    ensures forall i :: 0 <= i < |data| ==> r[i].year == data[i].year
    ensures forall i :: 0 <= i < |data| ==> (r[i].count.Undefined? <==> Denominator(data) == 0)
  {
    if Denominator(data) == 0 then
      seq(|data|, i requires 0 <= i < |data| => TrendPoint(data[i].year, Undefined))
    else
      var m, b := Slope(data), Intercept(data);
      FitAll(data, m, b)
  }

  /** The line `m * year + b` at the year of every point. */
  function FitAll(ps: seq<Point>, m: real, b: real): seq<TrendPoint>
  {
    seq(|ps|, i requires 0 <= i < |ps| => TrendPoint(ps[i].year, Value(OnLine(m, b, ps[i].year))))
  }

  // ---------------------------------------------------------------------------
  // When the fit is undefined

  /** All points have the same year (vacuously so when there are none). */
  predicate SameYear(ps: seq<Point>)
  {
    forall i, j :: 0 <= i < |ps| && 0 <= j < |ps| ==> ps[i].year == ps[j].year
  }

  /** The sum of the squared distances of the years from `x`. */
  function SquaredSpread(ps: seq<Point>, x: int): int
  {
    if ps == [] then 0 else (ps[0].year - x) * (ps[0].year - x) + SquaredSpread(ps[1..], x)
  }

  // Ring identities, stated once on plain numbers so that the proofs below stay linear.

  lemma SquareOfDifference(y: int, x: int)
    ensures (y - x) * (y - x) == y * y - 2 * (x * y) + x * x
  {
  }

  lemma SquareNonNegative(d: int)
    ensures d * d >= 0 && (d * d == 0 <==> d == 0)
  {
  }

  lemma MulAddRight(a: int, b: int, c: int)
    ensures a * (b + c) == a * b + a * c
  {
  }

  lemma MulAddLeft(a: int, b: int, c: int)
    ensures (a + b) * c == a * c + b * c
  {
  }

  lemma MulAssoc(a: int, b: int, c: int)
    ensures a * (b * c) == (a * b) * c
  {
  }

  lemma {:induction false} SquaredSpreadExpand(ps: seq<Point>, x: int)
    ensures SquaredSpread(ps, x) == SumX2(ps) - 2 * (x * SumX(ps)) + |ps| * (x * x)
  {
    if ps != [] {
      var y, rest := ps[0].year, ps[1..];
      var n, s1, s2 := |rest|, SumX(rest), SumX2(rest);
      SquaredSpreadExpand(rest, x);
      assert SumX(ps) == y + s1;
      assert SumX2(ps) == y * y + s2;
      SquareOfDifference(y, x);
      MulAddRight(x, y, s1);
      MulAddLeft(n, 1, x * x);
    }
  }

  lemma {:induction false} SquaredSpreadZero(ps: seq<Point>, x: int)
    ensures SquaredSpread(ps, x) >= 0
    ensures SquaredSpread(ps, x) == 0 <==> forall i :: 0 <= i < |ps| ==> ps[i].year == x
  {
    if ps != [] {
      SquaredSpreadZero(ps[1..], x);
      SquareNonNegative(ps[0].year - x);
      assert forall i :: 1 <= i < |ps| ==> ps[i] == ps[1..][i - 1];
    }
  }

  /** Adding a point adds its squared distances to the others (Lagrange's identity, one step). */
  lemma DenominatorCons(ps: seq<Point>)
    requires ps != []
    ensures Denominator(ps) == Denominator(ps[1..]) + SquaredSpread(ps[1..], ps[0].year)
  {
    var x, rest := ps[0].year, ps[1..];
    var n, s1, s2 := |rest|, SumX(rest), SumX2(rest);
    SquaredSpreadExpand(rest, x);
    assert |ps| == n + 1 && SumX(ps) == x + s1 && SumX2(ps) == x * x + s2;
    MulAddLeft(n, 1, x * x + s2);
    MulAddRight(n, x * x, s2);
    MulAddLeft(x, s1, x + s1);
    MulAddRight(x, x, s1);
    MulAddRight(s1, x, s1);
    assert s1 * x == x * s1;
  }

  /**
   * The denominator is never negative, and it is zero exactly when all years are equal
   * (in particular when there are no points): then the slope is a division by zero.
   */
  lemma {:induction false} DenominatorZero(ps: seq<Point>)
    ensures Denominator(ps) >= 0
    ensures Denominator(ps) == 0 <==> SameYear(ps)
  {
    if ps != [] {
      var rest := ps[1..];
      DenominatorCons(ps);
      DenominatorZero(rest);
      SquaredSpreadZero(rest, ps[0].year);
      assert forall i :: 1 <= i < |ps| ==> ps[i] == rest[i - 1];
      if SameYear(ps) {
        assert SameYear(rest) by {
          forall i, j | 0 <= i < |rest| && 0 <= j < |rest| ensures rest[i].year == rest[j].year {
            assert rest[i] == ps[i + 1] && rest[j] == ps[j + 1];
          }
        }
        forall i | 0 <= i < |rest| ensures rest[i].year == ps[0].year {
          assert rest[i] == ps[i + 1];
        }
      }
    }
  }

  /** Where all years are `x`, the year sums are multiples of `x`. */
  lemma {:induction false} SameYearSums(ps: seq<Point>, x: int)
    requires forall i :: 0 <= i < |ps| ==> ps[i].year == x
    ensures SumX(ps) == |ps| * x && SumXY(ps) == x * SumCounts(ps)
  {
    if ps != [] {
      var rest := ps[1..];
      assert forall i :: 0 <= i < |rest| ==> rest[i] == ps[i + 1];
      SameYearSums(rest, x);
      MulAddLeft(|rest|, 1, x);
      MulAddRight(x, ps[0].count, SumCounts(rest));
    }
  }

  /**
   * When the denominator of the slope is zero, so is its numerator: the division on
   * main.js line 169 is then 0 / 0, which JavaScript evaluates to NaN.
   */
  lemma NumeratorZero(ps: seq<Point>)
    requires Denominator(ps) == 0
    ensures |ps| * SumXY(ps) - SumX(ps) * SumCounts(ps) == 0
  {
    DenominatorZero(ps);
    if ps != [] {
      var x := ps[0].year;
      assert forall i :: 0 <= i < |ps| ==> ps[i].year == x;
      SameYearSums(ps, x);
      MulAssoc(|ps|, x, SumCounts(ps));
    }
  }

  // ---------------------------------------------------------------------------
  // Least-squares properties

  /** The sum of the defined fitted counts. */
  function FittedSum(r: seq<TrendPoint>): real
  {
    if r == [] then 0.0 else (if r[0].count.Value? then r[0].count.v else 0.0) + FittedSum(r[1..])
  }

  lemma RDist(a: real, p: real, q: real)
    ensures a * (p + q) == a * p + a * q
  {
  }

  lemma RDistLeft(p: real, q: real, a: real)
    ensures (p + q) * a == p * a + q * a
  {
  }

  lemma DivMul(q: real, n: real)
    requires n != 0.0
    ensures n * (q / n) == q
  {
  }

  /** The fitted counts of a line add up to `m * sumX + n * b`. */
  lemma {:induction false} FitAllSum(ps: seq<Point>, m: real, b: real)
    ensures FittedSum(FitAll(ps, m, b)) == m * SumX(ps) as real + |ps| as real * b
  {
    if ps != [] {
      var rest := ps[1..];
      assert FitAll(ps, m, b)[1..] == FitAll(rest, m, b);
      FitAllSum(rest, m, b);
      assert FitAll(ps, m, b)[0].count == Value(m * ps[0].year as real + b);
      RDist(m, ps[0].year as real, SumX(rest) as real);
      RDistLeft(1.0, |rest| as real, b);
    }
  }

  /**
   * Least squares leaves no net residual: where the fit is defined, the fitted counts add
   * up to the observed counts.
   */
  lemma FittedSumIsCountSum(data: seq<Point>)
    requires Denominator(data) != 0
    ensures FittedSum(LinearRegression(data)) == SumCounts(data) as real
  {
    DefinedFit(data);
    InterceptNoResidual(data, Slope(data));
  }

  /** Any slope, with the intercept least squares gives it, leaves no net residual. */
  lemma InterceptNoResidual(ps: seq<Point>, m: real)
    requires |ps| != 0
    ensures FittedSum(FitAll(ps, m, InterceptFrom(SumCounts(ps), SumX(ps), |ps|, m))) == SumCounts(ps) as real
  {
    var b := InterceptFrom(SumCounts(ps), SumX(ps), |ps|, m);
    BalancedIntercept(SumCounts(ps), SumX(ps), |ps|, m);
    FitAllNoResidual(ps, m, b);
  }

  /** The intercept balances the sums: `n * b == sumY - m * sumX`. */
  lemma BalancedIntercept(sy: int, sx: int, n: int, m: real)
    requires n != 0
    ensures n as real * InterceptFrom(sy, sx, n, m) == sy as real - m * sx as real
  {
    DivMul(sy as real - m * sx as real, n as real);
  }

  /** Any slope, with an intercept that balances the sums, leaves no net residual. */
  lemma FitAllNoResidual(ps: seq<Point>, m: real, b: real)
    requires |ps| as real * b == SumCounts(ps) as real - m * SumX(ps) as real
    ensures FittedSum(FitAll(ps, m, b)) == SumCounts(ps) as real
  {
    FitAllSum(ps, m, b);
  }

  /** Where the fit is defined, it is the least-squares line at every year. */
  lemma DefinedFit(data: seq<Point>)
    requires Denominator(data) != 0
    ensures |data| != 0
    ensures LinearRegression(data) == FitAll(data, Slope(data), Intercept(data))
    ensures Intercept(data) == InterceptFrom(SumCounts(data), SumX(data), |data|, Slope(data))
  {
  }

  // ---------------------------------------------------------------------------
  // Exact fits
  //
  // A line through points with integer years and counts has a rational slope and
  // intercept, so it is `q * count == p * year + r` for integers `p`, `q` and `r`.

  lemma MulSwap(x: int, a: int, y: int)
    ensures x * (a * y) == a * (x * y)
  {
  }

  lemma ScaleDifference(q: int, n: int, sxy: int, sx: int, sy: int)
    ensures q * (n * sxy - sx * sy) == n * (q * sxy) - sx * (q * sy)
  {
    MulAddRight(q, n * sxy, -(sx * sy));
    MulSwap(q, n, sxy);
    MulSwap(q, sx, sy);
  }

  lemma NumeratorOnLine(n: int, sx: int, sx2: int, p: int, r: int)
    ensures n * (p * sx2 + r * sx) - sx * (p * sx + r * n) == p * (n * sx2 - sx * sx)
  {
    MulAddRight(n, p * sx2, r * sx);
    MulAddRight(sx, p * sx, r * n);
    MulAddRight(p, n * sx2, -(sx * sx));
    MulSwap(n, p, sx2);
    MulSwap(sx, p, sx);
    assert n * (r * sx) == sx * (r * n);
  }

  /** Two fractions are equal when their cross products are. */
  lemma SameRatio(num: int, den: int, p: int, q: int)
    requires den != 0 && q != 0 && q * num == p * den
    ensures num as real / den as real == p as real / q as real
  {
    assert (q * num) as real == q as real * num as real;
    assert (p * den) as real == p as real * den as real;
  }

  lemma InterceptOnLine(sy: int, sx: int, n: int, p: int, q: int, r: int)
    requires n != 0 && q != 0 && q * sy == p * sx + r * n
    ensures InterceptFrom(sy, sx, n, p as real / q as real) == r as real / q as real
  {
    var m := p as real / q as real;
    assert (q * sy) as real == q as real * sy as real;
    assert (r * n) as real == r as real * n as real;
    assert (p * sx) as real == p as real * sx as real;
    assert q as real * (sy as real - m * sx as real) == r as real * n as real;
  }

  lemma FitOnLine(p: int, q: int, r: int, year: int, count: int)
    requires q != 0 && q * count == p * year + r
    ensures OnLine(p as real / q as real, r as real / q as real, year) == count as real
  {
    assert (q * count) as real == q as real * count as real;
    assert (p * year) as real == p as real * year as real;
  }

  lemma StepY(q: int, y: int, sy: int, p: int, x: int, s1: int, r: int, n: int)
    requires q * y == p * x + r && q * sy == p * s1 + r * n
    ensures q * (y + sy) == p * (x + s1) + r * (n + 1)
  {
    MulAddRight(q, y, sy);
    MulAddRight(p, x, s1);
    MulAddRight(r, n, 1);
  }

  lemma StepXY(q: int, x: int, y: int, sxy: int, p: int, s2: int, r: int, s1: int)
    requires q * y == p * x + r && q * sxy == p * s2 + r * s1
    ensures q * (x * y + sxy) == p * (x * x + s2) + r * (x + s1)
  {
    MulAddRight(q, x * y, sxy);
    MulSwap(q, x, y);
    MulAddRight(x, p * x, r);
    MulSwap(x, p, x);
    MulAddRight(p, x * x, s2);
    MulAddRight(r, x, s1);
    assert x * r == r * x;
  }

  /** On the line, the count sum and the cross sum are determined by the year sums. */
  lemma {:induction false} LinearSums(ps: seq<Point>, p: int, q: int, r: int)
    requires forall i :: 0 <= i < |ps| ==> q * ps[i].count == p * ps[i].year + r
    ensures q * SumCounts(ps) == p * SumX(ps) + r * |ps|
    ensures q * SumXY(ps) == p * SumX2(ps) + r * SumX(ps)
  {
    if ps != [] {
      var rest := ps[1..];
      assert forall i :: 0 <= i < |rest| ==> rest[i] == ps[i + 1];
      LinearSums(rest, p, q, r);
      var x, y := ps[0].year, ps[0].count;
      assert q * y == p * x + r;
      StepY(q, y, SumCounts(rest), p, x, SumX(rest), r, |rest|);
      StepXY(q, x, y, SumXY(rest), p, SumX2(rest), r, SumX(rest));
    }
  }

  lemma SlopeIs(data: seq<Point>, p: int, q: int, r: int)
    requires Denominator(data) != 0 && q != 0
    requires q * SumCounts(data) == p * SumX(data) + r * |data|
    requires q * SumXY(data) == p * SumX2(data) + r * SumX(data)
    ensures Slope(data) == p as real / q as real
  {
    var n, sx, sy, sxy, sx2 := |data|, SumX(data), SumCounts(data), SumXY(data), SumX2(data);
    ScaleDifference(q, n, sxy, sx, sy);
    NumeratorOnLine(n, sx, sx2, p, r);
    SameRatio(n * sxy - sx * sy, Denominator(data), p, q);
  }

  lemma InterceptIs(data: seq<Point>, p: int, q: int, r: int)
    requires Denominator(data) != 0 && q != 0
    requires q * SumCounts(data) == p * SumX(data) + r * |data|
    requires Slope(data) == p as real / q as real
    ensures Intercept(data) == r as real / q as real
  {
    assert |data| != 0;
    InterceptOnLine(SumCounts(data), SumX(data), |data|, p, q, r);
  }

  /**
   * Points that lie on a line are fitted exactly: when `q * count == p * year + r` at
   * every point (slope `p / q`, intercept `r / q`), the trendline returns every count
   * unchanged, provided the years are not all equal.
   */
  lemma ExactFit(data: seq<Point>, p: int, q: int, r: int)
    requires q != 0
    requires forall i :: 0 <= i < |data| ==> q * data[i].count == p * data[i].year + r
    requires !SameYear(data)
    ensures forall i :: 0 <= i < |data| ==>
      LinearRegression(data)[i] == TrendPoint(data[i].year, Value(data[i].count as real))
  {
    DenominatorZero(data);
    LinearSums(data, p, q, r);
    SlopeIs(data, p, q, r);
    InterceptIs(data, p, q, r);
    forall i | 0 <= i < |data|
      ensures LinearRegression(data)[i] == TrendPoint(data[i].year, Value(data[i].count as real))
    {
      FitOnLine(p, q, r, data[i].year, data[i].count);
    }
  }

  /** A perfectly linear series is reproduced: slope 1, intercept -1999. */
  lemma LinearSeriesFit()
    ensures LinearRegression([Point(2000, 1, "STEM"), Point(2001, 2, "STEM"), Point(2002, 3, "STEM")]) ==
      [TrendPoint(2000, Value(1.0)), TrendPoint(2001, Value(2.0)), TrendPoint(2002, Value(3.0))]
  {
    var data := [Point(2000, 1, "STEM"), Point(2001, 2, "STEM"), Point(2002, 3, "STEM")];
    assert data[0].year != data[1].year;
    ExactFit(data, 1, 1, -1999);
  }

  /** A constant series is reproduced: slope 0, intercept 5. */
  lemma ConstantSeriesFit()
    ensures LinearRegression([Point(2000, 5, "STEM"), Point(2001, 5, "STEM"), Point(2002, 5, "STEM")]) ==
      [TrendPoint(2000, Value(5.0)), TrendPoint(2001, Value(5.0)), TrendPoint(2002, Value(5.0))]
  {
    var data := [Point(2000, 5, "STEM"), Point(2001, 5, "STEM"), Point(2002, 5, "STEM")];
    assert data[0].year != data[1].year;
    ExactFit(data, 0, 1, 5);
  }

  /** A line with a fractional slope is reproduced: slope 1/2, intercept -999. */
  lemma HalfSlopeFit()
    ensures LinearRegression([Point(2000, 1, "STEM"), Point(2002, 2, "STEM")]) ==
      [TrendPoint(2000, Value(1.0)), TrendPoint(2002, Value(2.0))]
  {
    var data := [Point(2000, 1, "STEM"), Point(2002, 2, "STEM")];
    assert data[0].year != data[1].year;
    ExactFit(data, 1, 2, -1998);
  }
}
