/** The kernel's two series against the polynomials they round: the Taylor polynomial of the exponential and the odd series of
    the logarithm, on real numbers. */
module FixedPointSeries {
  import opened Numbers
  import opened Products
  import opened IntegerSqrt
  import opened FixedPoint
  import opened FixedPointRange
  import Q32

  ghost function Real(v: int): real {
    v as real / 1_000_000_000_000.0
  }

  /** `v` on the scale is within `bound` units of `x`. */
  ghost predicate Near(v: int, x: real, bound: real) {
    Q32.Close(v as real, 1_000_000_000_000.0 * x, bound)
  }

  // ---- rounded steps on reals

  /** A rounded product of fixed-point numbers is within half a unit of their real product. */
  lemma ProductNear(a: int, b: int)
    ensures Q32.Close(Rounded(a * b, SCALE) as real, a as real * Real(b), 0.5)
  {
    hide Rounded;
    RoundedNearest(a * b, SCALE);
    var v := Rounded(a * b, SCALE);
    assert (a * b) as real == a as real * b as real;
    assert a as real * Real(b) == a as real * b as real / 1_000_000_000_000.0 by {
      Quotient(a as real, b as real);
    }
  }

  lemma Quotient(a: real, b: real)
    ensures a * (b / 1_000_000_000_000.0) == a * b / 1_000_000_000_000.0
  {
  }

  lemma DivisionNear(n: int, d: nat)
    requires 0 < d
    ensures Q32.Close(Rounded(n, d) as real, n as real / d as real, 0.5)
  {
    hide Rounded, Q32.Close;
    RoundedNearest(n, d);
    var v := Rounded(n, d);
    var product := d * v;
    ProductReal(d, v);
    TwiceReal(d, product, n);
    DivisionScaled(n as real, d as real, v as real, product as real);
  }

  lemma TwiceReal(d: int, w: int, n: int)
    requires 2 * Abs(w - n) <= d
    ensures -(d as real) <= 2.0 * (w as real - n as real) <= d as real
  {
  }

  lemma ProductReal(a: int, b: int)
    ensures (a * b) as real == a as real * b as real
  {
  }

  lemma DivisionScaled(n: real, d: real, v: real, product: real)
    requires 0.0 < d && product == d * v && -d <= 2.0 * (product - n) <= d
    ensures Q32.Close(v, n / d, 0.5)
  {
    var q := n / d;
    assert d * q == n;
    assert d * (v - q + 0.5) >= 0.0 && d * (0.5 - (v - q)) >= 0.0 by {
      assert d * (v - q) == d * v - n;
    }
    Q32.Unscale(d, v - q, 0.5);
  }

  // ---- the exponential

  ghost function Factorial(n: nat): (f: nat)
    ensures 0 < f
  {
    if n == 0 then 1 else n * Factorial(n - 1)
  }

  /** One term of the exponential series. */
  ghost function Term(x: real, k: nat): real {
    Q32.RealPow(x, k) / Factorial(k) as real
  }

  /** The first `n` terms of the exponential series. */
  ghost function Taylor(x: real, n: nat): real {
    if n == 0 then 0.0 else Taylor(x, n - 1) + Term(x, n - 1)
  }

  lemma TermNext(x: real, k: nat)
    requires 0 < k
    ensures Term(x, k) == Term(x, k - 1) * x / k as real && Term(x, 0) == 1.0
  {
    var (p, f) := (Q32.RealPow(x, k - 1), Factorial(k - 1));
    assert (k * f) as real == k as real * f as real;
    NestedQuotient(p, x, f as real, k as real);
  }

  lemma NestedQuotient(p: real, x: real, f: real, k: real)
    requires 0.0 < f && 0.0 < k
    ensures x * p / (k * f) == p / f * x / k
  {
    var q := p / f;
    assert p == q * f;
    assert x * p == (q * x / k) * (k * f) by {
      assert q * x / k * k == q * x;
    }
  }

  /** One step of the series keeps a term within two units. */
  lemma TermNear(term: int, reduced: int, divisor: nat)
    requires 0 < divisor && Abs(reduced) <= HALF_LN_2 && Near(term, Term(Real(reduced), divisor - 1), 2.0)
    ensures Near(Rounded(Rounded(term * reduced, SCALE), divisor), Term(Real(reduced), divisor), 2.0)
  {
    hide Rounded, Real, Term, Taylor, Factorial;
    var product := Rounded(term * reduced, SCALE);
    ReducedReal(reduced);
    ProductNear(term, reduced);
    DivisionNear(product, divisor);
    TermNext(Real(reduced), divisor);
    StepError(term as real, product as real, Rounded(product, divisor) as real, Real(reduced), divisor as real,
              Term(Real(reduced), divisor - 1), Term(Real(reduced), divisor));
  }

  lemma ReducedReal(reduced: int)
    requires Abs(reduced) <= HALF_LN_2
    ensures -0.35 <= Real(reduced) <= 0.35
  {
  }

  lemma StepError(term: real, product: real, next: real, x: real, d: real, tau: real, tau': real)
    requires 1.0 <= d && -0.35 <= x <= 0.35 && tau' == tau * x / d
    requires Q32.Close(term, 1_000_000_000_000.0 * tau, 2.0)
    requires Q32.Close(product, term * x, 0.5) && Q32.Close(next, product / d, 0.5)
    ensures Q32.Close(next, 1_000_000_000_000.0 * tau', 2.0)
  {
    var s := 1_000_000_000_000.0;
    ErrorCarried(term, s, tau, x, 2.0, 0.35);
    var exact := s * (tau * x);
    DividedError(product, exact, 1.2, d);
    assert exact / d == s * tau' by {
      Moves(s, tau * x, d);
    }
  }

  /** The error of a factor, carried into a product. */
  lemma ErrorCarried(a: real, s: real, y: real, x: real, bound: real, reach: real)
    requires Q32.Close(a, s * y, bound) && -reach <= x <= reach
    ensures Q32.Close(a * x, s * (y * x), reach * bound)
  {
    var e := a - s * y;
    ErrorTimes(e, bound, x, reach);
    assert a * x == (s * y) * x + e * x;
    assert (s * y) * x == s * (y * x);
  }

  lemma ErrorTimes(e: real, bound: real, x: real, reach: real)
    requires -bound <= e <= bound && -reach <= x <= reach
    ensures -(reach * bound) <= e * x <= reach * bound
  {
    if 0.0 <= x {
      Q32.ScaledBound(e, bound, x, reach);
    } else {
      Q32.ScaledBound(e, bound, -x, reach);
      assert e * -x == -(e * x);
    }
  }

  lemma DividedError(a: real, b: real, bound: real, d: real)
    requires 1.0 <= d && 0.0 <= bound && Q32.Close(a, b, bound)
    ensures Q32.Close(a / d, b / d, bound)
  {
    var (u, v) := (a / d, b / d);
    assert d * u == a && d * v == b;
    assert d * (u - v + bound) >= 0.0 && d * (bound - (u - v)) >= 0.0 by {
      assert d * (u - v) == a - b;
      assert d * bound >= bound by {
        assert (d - 1.0) * bound >= 0.0;
      }
    }
    Q32.Unscale(d, u - v, bound);
  }

  lemma Moves(s: real, a: real, d: real)
    requires 1.0 <= d
    ensures s * a / d == s * (a / d)
  {
  }

  /** Each term is at most 35% of the one before, so what the series leaves out is less than its next two terms. */
  lemma {:induction false} TailSmall(x: real, k: nat, n: nat, bound: real)
    requires k <= n && -0.35 <= x <= 0.35 && Q32.Close(Term(x, k), 0.0, bound)
    ensures Q32.Close(Taylor(x, n), Taylor(x, k), 2.0 * bound)
    decreases n - k
  {
    hide Term;
    if k == n {
    } else {
      TermNext(x, k + 1);
      TermShrinks(Term(x, k), x, (k + 1) as real, bound);
      TailSmall(x, k + 1, n, 0.35 * bound);
    }
  }

  lemma TermShrinks(tau: real, x: real, d: real, bound: real)
    requires 1.0 <= d && -0.35 <= x <= 0.35 && Q32.Close(tau, 0.0, bound)
    ensures Q32.Close(tau * x / d, 0.0, 0.35 * bound)
  {
    ErrorTimes(tau, bound, x, 0.35);
    DividedError(tau * x, 0.0, 0.35 * bound, d);
    assert 0.0 / d == 0.0;
  }

  /** The rounded series of the exponential is within 72 units of the Taylor polynomial of 35 terms. */
  lemma {:induction false} ExpSeriesNear(term: int, sum: int, reduced: int, divisor: nat)
    requires 1 <= divisor <= EXP_TERMS + 1 && Abs(reduced) <= HALF_LN_2 && Abs(term) <= SCALE
    requires 20 * Abs(sum - SCALE) + 11 * Abs(term) <= 11 * SCALE + 16 * (divisor - 1)
    requires Near(term, Term(Real(reduced), divisor - 1), 2.0)
    requires Near(sum, Taylor(Real(reduced), divisor), 2.0 * (divisor - 1) as real)
    ensures ExpSeries(term, sum, reduced, divisor).Ok?
    ensures Near(ExpSeries(term, sum, reduced, divisor).value, Taylor(Real(reduced), 35), 72.0)
    decreases EXP_TERMS + 1 - divisor
  {
    hide MulFixed, RoundDivSigned, Rounded, Real, Term;
    if divisor <= EXP_TERMS {
      ExpTerm(term, reduced, divisor);
      TermNear(term, reduced, divisor);
      var next := Rounded(Rounded(term * reduced, SCALE), divisor);
      if next != 0 {
        ExpSeriesNear(next, sum + next, reduced, divisor + 1);
      } else {
        ReducedReal(reduced);
        TailSmall(Real(reduced), divisor, 35, 2.0 / 1_000_000_000_000.0);
      }
    }
  }

  /** The exponential's series starts from one. */
  lemma SeriesNear(reduced: int)
    requires Abs(reduced) <= HALF_LN_2
    ensures ExpSeries(SCALE, SCALE, reduced, 1).Ok?
    ensures Near(ExpSeries(SCALE, SCALE, reduced, 1).value, Taylor(Real(reduced), 35), 72.0)
  {
    hide Real, ExpSeries;
    assert Term(Real(reduced), 0) == 1.0;
    assert Taylor(Real(reduced), 1) == Taylor(Real(reduced), 0) + Term(Real(reduced), 0);
    ExpSeriesNear(SCALE, SCALE, reduced, 1);
  }

  /** A result is `p` times an exact value on the scale, to within 72 units times `p`. */
  ghost predicate UpNear(result: int, p: int, exact: real) {
    Q32.Close(result as real, p as real * exact, p as real * 72.0)
  }

  /** A result is one part in `d` of an exact value on the scale, to within 72 units of that value and half a unit of its
      own. */
  ghost predicate DownNear(result: int, d: int, exact: real) {
    Q32.Close(d as real * result as real, exact, 72.0 + d as real / 2.0)
  }

  ghost predicate ShiftedNear(result: int, power: int, exact: real) {
    if 0 <= power then UpNear(result, Pow2(power), exact) else DownNear(result, Pow2(-power), exact)
  }

  /** The exponential is a power of two times the Taylor polynomial at what is left of the argument, at most half of ln 2. */
  lemma ExpNear(value: int) returns (power: int)
    requires -1_000 * SCALE <= value <= 5 * SCALE
    ensures Exp(value).Ok? && 2 * Abs(value - power * 693_147_180_560) <= 693_147_180_560
    ensures ShiftedNear(Exp(value).value, power,
                        1_000_000_000_000.0 * Taylor(Real(value - power * 693_147_180_560), 35))
  {
    hide Rounded, RoundDivSigned, ExpSeries, Taylor, Real, Pow2, ShiftedNear, ShiftBack;
    ExpRange(value);
    ReducedRange(value);
    power := Rounded(value, LN_2);
    var reduced := value - power * LN_2;
    SeriesNear(reduced);
    ExpSeriesRange(SCALE, SCALE, reduced, 1);
    var sum := ExpSeries(SCALE, SCALE, reduced, 1).value;
    assert Exp(value) == ShiftBack(sum, power);
    ShiftNear(sum, power, 1_000_000_000_000.0 * Taylor(Real(reduced), 35));
  }

  lemma ShiftNear(sum: int, power: int, exact: real)
    requires 0 < sum <= 2 * SCALE && Q32.Close(sum as real, exact, 72.0) && ShiftBack(sum, power).Ok?
    ensures ShiftedNear(ShiftBack(sum, power).value, power, exact)
  {
    hide Rounded, Pow2, Q32.Close, UpNear, DownNear;
    if 0 <= power {
      ShiftedUp(sum, Pow2(power), exact);
    } else if power <= -127 {
      Pow2Large();
      Pow2Order(127, -power);
      ShiftedOut(sum, Pow2(-power), exact);
    } else {
      RoundDivOk(sum, Pow2(-power));
      ShiftedDown(sum, Pow2(-power), exact);
    }
  }

  lemma ShiftedUp(sum: int, p: nat, exact: real)
    requires Q32.Close(sum as real, exact, 72.0)
    ensures UpNear(sum * p, p, exact)
  {
    var v := sum * p;
    ProductReal(sum, p);
    ScaledClose(v as real, p as real, sum as real, exact, 72.0);
  }

  lemma ScaledClose(v: real, p: real, a: real, b: real, bound: real)
    requires 0.0 <= p && v == a * p && Q32.Close(a, b, bound)
    ensures Q32.Close(v, p * b, p * bound)
  {
    Q32.ScaledBound(a - b, bound, p, p);
    DifferenceTimes(a, b, p);
  }

  lemma DifferenceTimes(a: real, b: real, p: real)
    ensures (a - b) * p == a * p - p * b
  {
  }

  lemma ShiftedDown(sum: int, d: nat, exact: real)
    requires 0 < d && Q32.Close(sum as real, exact, 72.0)
    ensures DownNear(Rounded(sum, d), d, exact)
  {
    hide Rounded;
    RoundedNearest(sum, d);
    var v := Rounded(sum, d);
    var product := d * v;
    ProductReal(d, v);
    TwiceReal(d, product, sum);
    HalfMore(product as real, sum as real, exact, d as real);
  }

  lemma HalfMore(product: real, sum: real, exact: real, d: real)
    requires -d <= 2.0 * (product - sum) <= d && Q32.Close(sum, exact, 72.0)
    ensures Q32.Close(product, exact, 72.0 + d / 2.0)
  {
  }

  lemma ShiftedOut(sum: int, d: nat, exact: real)
    requires 0 < sum <= 2 * SCALE && I128_MAX < d && Q32.Close(sum as real, exact, 72.0)
    ensures DownNear(0, d, exact)
  {
    assert d as real * 0 as real == 0.0;
  }

  lemma Pow2Order(j: nat, k: nat)
    requires j <= k
    ensures Pow2(j) <= Pow2(k)
  {
    hide Pow2;
    Pow2Adds(j, k - j);
    MulOrder(1, Pow2(k - j), Pow2(j));
  }

  // ---- the logarithm

  /** The first `n` terms of the odd series: half the logarithm of (1 + y) / (1 - y). */
  ghost function OddSeries(y: real, n: nat): real {
    if n == 0 then 0.0 else OddSeries(y, n - 1) + Q32.RealPow(y, 2 * n - 1) / (2 * n - 1) as real
  }

  lemma {:induction false} SmallPower(y: real, n: nat)
    requires 0.0 <= y <= 0.34 && 0 < n
    ensures 0.0 <= Q32.RealPow(y, n) <= 0.34
  {
    if n == 1 {
      assert Q32.RealPow(y, 1) == y * Q32.RealPow(y, 0);
    } else {
      SmallPower(y, n - 1);
      Q32.ScaledBound(y, 0.34, Q32.RealPow(y, n - 1), 1.0);
      NonNegativeProduct(y, Q32.RealPow(y, n - 1));
    }
  }

  lemma NonNegativeProduct(a: real, b: real)
    requires 0.0 <= a && 0.0 <= b
    ensures 0.0 <= a * b
  {
  }

  lemma OddPowerNext(y: real, n: nat)
    ensures Q32.RealPow(y, n + 2) == Q32.RealPow(y, n) * (y * y)
  {
    var p := Q32.RealPow(y, n);
    assert Q32.RealPow(y, n + 1) == y * p;
    assert Q32.RealPow(y, n + 2) == y * (y * p);
  }

  /** One step of the odd series keeps the power within a unit. */
  lemma PowerNear(term: int, square: int, y: real, n: nat)
    requires 0.0 <= y <= 0.34 && 0 < n && Near(term, Q32.RealPow(y, n), 1.0) && Near(square, y * y, 0.5)
    ensures Near(Rounded(term * square, SCALE), Q32.RealPow(y, n + 2), 1.0)
  {
    hide Rounded, Q32.RealPow;
    SmallPower(y, n);
    OddPowerNext(y, n);
    ProductNear(term, square);
    SquareReal(square, y);
    PowerStep(Rounded(term * square, SCALE) as real, term as real, square as real, Real(square), Q32.RealPow(y, n), y * y);
  }

  lemma PowerStep(next: real, term: real, square: real, z: real, p: real, w: real)
    requires Q32.Close(next, term * z, 0.5) && Q32.Close(term, 1_000_000_000_000.0 * p, 1.0)
    requires Q32.Close(square, 1_000_000_000_000.0 * w, 0.5) && 1_000_000_000_000.0 * z == square
    requires -0.12 <= z <= 0.12 && 0.0 <= p <= 0.34
    ensures Q32.Close(next, 1_000_000_000_000.0 * (p * w), 1.0)
  {
    var s := 1_000_000_000_000.0;
    ErrorCarried(term, s, p, z, 1.0, 0.12);
    ErrorCarried(square, s, w, p, 0.5, 0.34);
    SameProducts(s, p, z, square, w);
    ChainedErrors(next, term * z, s * (p * z), square * p, s * (w * p), s * (p * w));
  }

  lemma SameProducts(s: real, p: real, z: real, square: real, w: real)
    requires s * z == square
    ensures s * (p * z) == square * p && s * (w * p) == s * (p * w)
  {
    assert s * (p * z) == (s * z) * p;
  }

  lemma ChainedErrors(next: real, a: real, b: real, c: real, d: real, e: real)
    requires Q32.Close(next, a, 0.5) && Q32.Close(a, b, 0.12) && b == c && Q32.Close(c, d, 0.17) && d == e
    ensures Q32.Close(next, e, 1.0)
  {
  }

  lemma SquareReal(square: int, y: real)
    requires 0.0 <= y <= 0.34 && Near(square, y * y, 0.5)
    ensures -0.12 <= Real(square) <= 0.12
  {
    Q32.ScaledBound(y, 0.34, y, 0.34);
  }

  /** A term of the odd series and its rounded quotient differ by at most a unit and a half. */
  lemma PartNear(term: int, power: real, d: nat)
    requires 0 < d && Near(term, power, 1.0)
    ensures Near(Rounded(term, d), power / d as real, 1.5)
  {
    hide Rounded;
    var s := 1_000_000_000_000.0;
    DivisionNear(term, d);
    DividedError(term as real, s * power, 1.0, d as real);
    assert s * power / d as real == s * (power / d as real) by {
      Moves(s, power, d as real);
    }
  }

  /** The rounded series of the logarithm is within 45 units of the odd series of 30 terms. */
  lemma {:induction false} LogSeriesNear(term: int, square: int, index: nat, series: int, bound: int, y: real)
    requires index <= LOG_TERMS && 0 <= term <= SCALE && 0 <= 9 * square <= SCALE + 9 && 0 <= series
    requires series + 2 * term + 4 * (LOG_TERMS - index) <= bound <= 4 * SCALE
    requires 0.0 <= y <= 0.34 && Near(term, Q32.RealPow(y, 2 * index + 1), 1.0) && Near(square, y * y, 0.5)
    requires Near(series, OddSeries(y, index), 1.5 * index as real)
    ensures LogSeries(term, square, index, series).Ok?
    ensures Near(LogSeries(term, square, index, series).value, OddSeries(y, 30), 45.0)
    decreases LOG_TERMS - index
  {
    hide Rounded, MulFixed, RoundDivSigned, LogSeries, Q32.RealPow;
    if index == LOG_TERMS {
      LogSeriesEnd(term, square, series);
    } else {
      LogSeriesStep(term, square, index, series);
      RoundDivOk(term, 2 * index + 1);
      RoundedNearest(term, 2 * index + 1);
      NextTerm(term, square);
      PowerNear(term, square, y, 2 * index + 1);
      PartNear(term, Q32.RealPow(y, 2 * index + 1), 2 * index + 1);
      LogSeriesNear(Rounded(term * square, SCALE), square, index + 1, series + Rounded(term, 2 * index + 1), bound, y);
    }
  }

  /** The argument the logarithm gives its series: the mantissa less one over the mantissa and one, rounded. */
  ghost function Argument(mantissa: int): int
    requires 0 < mantissa
  {
    Rounded((mantissa - SCALE) * SCALE, mantissa + SCALE)
  }

  /** The logarithm is the power of two times ln 2 and twice the odd series, to within ninety units. */
  lemma LogNear(value: int)
    requires 0 < value <= I128_MAX
    ensures Normalize(value).Ok? && 0 < Normalize(value).value.mantissa && NaturalLog(value).Ok?
    ensures var Normal(mantissa, power) := Normalize(value).value;
      Near(NaturalLog(value).value - power * 693_147_180_560, 2.0 * OddSeries(Real(Argument(mantissa)), 30), 90.0)
  {
    hide Normalize, DivFixed, MulFixed, LogSeries, Rounded, OddSeries, Q32.RealPow;
    NormalRange(value);
    LogRange(value);
    var m := Normalize(value).value.mantissa;
    SeriesArgument(m);
    var y := Argument(m);
    SquareRange(y);
    var square := Rounded(y * y, SCALE);
    LogSeriesRange(y, square, 0, 0, 666_666_666_800);
    ArgumentReal(y);
    ProductNear(y, y);
    SquareNear(y, square);
    FirstPower(Real(y));
    LogSeriesNear(y, square, 0, 0, 666_666_666_800, Real(y));
  }

  lemma ArgumentReal(y: int)
    requires 0 <= 3 * y <= SCALE + 1
    ensures 0.0 <= Real(y) <= 0.34 && Near(y, Real(y), 0.0)
  {
  }

  lemma SquareNear(y: int, square: int)
    requires Q32.Close(square as real, y as real * Real(y), 0.5)
    ensures Near(square, Real(y) * Real(y), 0.5)
  {
    var s := 1_000_000_000_000.0;
    assert s * (Real(y) * Real(y)) == (s * Real(y)) * Real(y);
    assert s * Real(y) == y as real;
  }

  lemma FirstPower(y: real)
    ensures Q32.RealPow(y, 1) == y && OddSeries(y, 0) == 0.0
  {
    assert Q32.RealPow(y, 1) == y * Q32.RealPow(y, 0);
  }

  // ---- the mantissa

  /** Halving with rounding ends within a unit of dividing by the power of two. */
  lemma {:induction false} ScaleDownNear(m: int, power: int)
    requires 0 < m && ScaleDown(m, power).Ok?
    ensures var down := ScaleDown(m, power).value;
      power <= down.power && Abs(down.mantissa * Pow2(down.power - power) - m) < Pow2(down.power - power)
    decreases m
  {
    hide RoundDivSigned, Rounded, Pow2;
    Pow2Base();
    if m >= SCALE * 2 {
      HalfIs(m);
      HalfShrinks(m);
      ScaleDownNear(Rounded(m, 2), power + 1);
      var down := ScaleDown(m, power).value;
      Pow2Next(down.power - power - 1);
      assert down.mantissa * (2 * Pow2(down.power - power - 1)) == 2 * (down.mantissa * Pow2(down.power - power - 1));
    }
  }

  /** The mantissa is the value scaled by its power of two: exactly when it is scaled up, to within a unit when down. */
  lemma MantissaNear(value: int)
    requires 0 < value <= I128_MAX
    ensures Normalize(value).Ok?
    ensures var Normal(mantissa, power) := Normalize(value).value;
      && SCALE <= mantissa < 2 * SCALE
      && (power <= 0 ==> mantissa == value * Pow2(-power))
      && (0 <= power ==> Abs(mantissa * Pow2(power) - value) < Pow2(power))
  {
    hide Normalize, ScaleDown, Pow2;
    NormalRange(value);
    Pow2Base();
    if SCALE <= value {
      ScaleDownNear(value, 0);
    }
  }
}
