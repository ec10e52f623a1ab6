/** The inverse normal is the published rational function: a rounded quotient of a numerator and a denominator that are near the
    published polynomials on real numbers, in the middle and in the tails. */
module InverseNormalForm {
  import opened Numbers
  import opened Products
  import opened IntegerSqrt
  import opened FixedPoint
  import opened FixedPointRange
  import opened InverseNormal
  import opened InverseNormalSign
  import FixedPointSeries
  import Q32

  /** `v` on the scale is within `bound` units of `h`. */
  ghost predicate Within(v: int, h: real, bound: real) {
    Q32.Close(v as real, 1_000_000_000_000.0 * h, bound)
  }

  lemma RealsAgree(v: int)
    ensures Real(v) == FixedPointSeries.Real(v)
  {
  }

  lemma RealUnits(v: int)
    ensures 1_000_000_000_000.0 * Real(v) == v as real
  {
  }

  // ---- Horner's scheme away from the middle

  /** The error of an evaluation after some more steps with an argument of at most six. */
  ghost function Grown(e: real, steps: nat): real
    decreases steps
  {
    if steps == 0 then e else Grown(6.0 * e + 0.5, steps - 1)
  }

  lemma StepWithin(acc: int, v: int, h: real, c: int, e: real, next: real)
    requires Within(acc, h, e) && Abs(v) <= 6 * SCALE && Abs(acc) <= REACH && next == h * Real(v) + Real(c)
    ensures MulFixed(acc, v).Ok? && Within(MulFixed(acc, v).value + c, next, 6.0 * e + 0.5)
  {
    hide Rounded, Real, MulFixed;
    var rounded := RoundedProduct(acc, v);
    RealUnits(c);
    SixAtMost(v);
    StepOnReals(rounded as real, acc as real, h, Real(v), c as real, Real(c), e);
  }

  lemma RoundedProduct(acc: int, v: int) returns (rounded: int)
    requires Abs(v) <= 6 * SCALE && Abs(acc) <= REACH
    ensures MulFixed(acc, v) == Ok(rounded) && Q32.Close(rounded as real, acc as real * Real(v), 0.5)
  {
    hide Rounded, Real, FixedPointSeries.Real;
    AbsProduct(acc, v, REACH, 6 * SCALE);
    ProductRounded(acc, v, REACH * (6 * SCALE));
    RealsAgree(v);
    FixedPointSeries.ProductNear(acc, v);
    rounded := Rounded(acc * v, SCALE);
  }

  lemma SixAtMost(v: int)
    requires Abs(v) <= 6 * SCALE
    ensures -6.0 <= Real(v) <= 6.0
  {
  }

  lemma StepOnReals(rounded: real, acc: real, h: real, x: real, c: real, share: real, e: real)
    requires Q32.Close(rounded, acc * x, 0.5) && Q32.Close(acc, 1_000_000_000_000.0 * h, e) && -6.0 <= x <= 6.0
    requires 1_000_000_000_000.0 * share == c
    ensures Q32.Close(rounded + c, 1_000_000_000_000.0 * (h * x + share), 6.0 * e + 0.5)
  {
    FixedPointSeries.ErrorCarried(acc, 1_000_000_000_000.0, h, x, e, 6.0);
    RealDistributes(1_000_000_000_000.0, h * x, share);
  }

  lemma {:induction false} HornerWithin(acc: int, rest: seq<int>, v: int, steps: nat, h: real, e: real)
    requires Within(acc, h, e) && Abs(v) <= 6 * SCALE
    requires Abs(acc) <= Reach(steps) && Coefficients(rest) && steps + |rest| <= 5
    ensures HornerFrom(acc, rest, v).Ok?
    ensures Within(HornerFrom(acc, rest, v).value, RealHorner(h, rest, Real(v)), Grown(e, |rest|))
    decreases |rest|
  {
    hide MulFixed, Within, Real;
    ReachBelow(steps);
    if rest == [] {
    } else {
      ReachBelow(steps + 1);
      HornerStep(acc, v, Reach(steps));
      StepWithin(acc, v, h, rest[0], e, h * Real(v) + Real(rest[0]));
      HornerWithin(MulFixed(acc, v).value + rest[0], rest[1..], v, steps + 1, h * Real(v) + Real(rest[0]), 6.0 * e + 0.5);
    }
  }

  lemma HornerFromStart(cs: seq<int>, v: int)
    requires 0 < |cs| <= 6 && Coefficients(cs) && Abs(v) <= 6 * SCALE
    ensures Horner(cs, v).Ok? && Abs(Horner(cs, v).value) <= REACH
    ensures Within(Horner(cs, v).value, RealHorner(Real(cs[0]), cs[1..], Real(v)), Grown(0.0, |cs| - 1))
  {
    hide HornerFrom, RealHorner, Real;
    assert Reach(0) == 300 * SCALE;
    RealUnits(cs[0]);
    HornerOk(cs, v);
    HornerWithin(cs[0], cs[1..], v, 0, Real(cs[0]), 0.0);
  }

  lemma GrownFrom(e: real)
    ensures Grown(e, 3) == 6.0 * (6.0 * (6.0 * e + 0.5) + 0.5) + 0.5
    ensures Grown(e, 5) == 6.0 * (6.0 * (6.0 * (6.0 * (6.0 * e + 0.5) + 0.5) + 0.5) + 0.5) + 0.5
  {
    assert Grown(e, 5) == Grown(6.0 * e + 0.5, 4);
    assert Grown(6.0 * e + 0.5, 4) == Grown(6.0 * (6.0 * e + 0.5) + 0.5, 3);
  }

  // ---- the quotient

  /** The result is the quotient of two numbers, rounded to nearest. */
  ghost predicate QuotientOf(result: int, n: int, d: int) {
    0 < d && 2 * Abs(d * result - n * SCALE) <= d
  }

  lemma DividedRounds(n: int, d: int)
    requires Abs(n) <= 20_000_000 * SCALE && 0 < d
    ensures DivFixed(n, d).Ok? && QuotientOf(DivFixed(n, d).value, n, d)
  {
    hide Rounded;
    RoundDivOk(n * SCALE, d);
    RoundedNearest(n * SCALE, d);
  }

  // ---- the tails

  /** Numerator and denominator of a tail as polynomials in the root. */
  ghost function TailTop(x: real): real {
    RealHorner(Real(C[0]), C[1..], x)
  }

  ghost function TailBottom(x: real): real {
    RealHorner(Real(D[0]), D[1..], x) * x + Real(SCALE)
  }

  /** The tail's polynomials with their published coefficients. */
  lemma UnrolledTail(x: real)
    ensures TailTop(x)
         == ((((-0.007784894002 * x - 0.322396458041) * x - 2.400758277162) * x - 2.549732539344) * x + 4.374664141465) * x
            + 2.938163982699
    ensures TailBottom(x)
         == (((0.007784695709 * x + 0.322467129070) * x + 2.445134137143) * x + 3.754408661907) * x + 1.0
  {
    hide RealHorner;
    var t1 := Real(C[0]) * x + Real(C[1]);
    var t2 := t1 * x + Real(C[2]);
    var t3 := t2 * x + Real(C[3]);
    var t4 := t3 * x + Real(C[4]);
    var t5 := t4 * x + Real(C[5]);
    NextCoefficient(Real(C[0]), C, 1, x);
    NextCoefficient(t1, C, 2, x);
    NextCoefficient(t2, C, 3, x);
    NextCoefficient(t3, C, 4, x);
    NextCoefficient(t4, C, 5, x);
    NoCoefficient(t5, x);
    var b1 := Real(D[0]) * x + Real(D[1]);
    var b2 := b1 * x + Real(D[2]);
    var b3 := b2 * x + Real(D[3]);
    NextCoefficient(Real(D[0]), D, 1, x);
    NextCoefficient(b1, D, 2, x);
    NextCoefficient(b2, D, 3, x);
    NoCoefficient(b3, x);
  }

  lemma NextCoefficient(h: real, cs: seq<int>, k: nat, x: real)
    requires k < |cs|
    ensures RealHorner(h, cs[k..], x) == RealHorner(h * x + Real(cs[k]), cs[k + 1..], x)
    ensures cs[|cs|..] == []
  {
    assert cs[k..][1..] == cs[k + 1..];
  }

  lemma NoCoefficient(h: real, x: real)
    ensures RealHorner(h, [], x) == h
  {
  }

  /** In a tail the value is the published quotient at the floor of the root of minus twice the logarithm. */
  lemma TailForm(probability: int) returns (q: int, n: int, d: int)
    requires 500_000 <= probability < P_LOW
    ensures NaturalLog(probability).Ok? && Tail(probability).Ok? && QuotientOf(Tail(probability).value, n, d)
    ensures 0 <= q && q * q <= -2 * NaturalLog(probability).value * SCALE < (q + 1) * (q + 1)
    ensures Within(n, TailTop(Real(q)), 800.0) && Within(d, TailBottom(Real(q)), 130.0)
  {
    hide NaturalLog, SqrtFixed, Horner, HornerFrom, MulFixed, DivFixed, RealHorner, Real, Within, QuotientOf;
    TailRoot(probability);
    q := SqrtFixed(NaturalLog(probability).value * -2).value;
    RootIs(NaturalLog(probability).value * -2);
    HornerFromStart(C, q);
    HornerFromStart(D, q);
    HornerOk(D, q);
    GrownFrom(0.0);
    n := Horner(C, q).value;
    HornerStep(Horner(D, q).value, q, REACH);
    d := MulFixed(Horner(D, q).value, q).value + SCALE;
    TailBottomIs(Real(q));
    StepWithin(Horner(D, q).value, q, RealHorner(Real(D[0]), D[1..], Real(q)), SCALE, Grown(0.0, 3), TailBottom(Real(q)));
    Looser(n, TailTop(Real(q)), Grown(0.0, 5), 800.0);
    Looser(d, TailBottom(Real(q)), 6.0 * Grown(0.0, 3) + 0.5, 130.0);
    DividedRounds(n, d);
  }

  lemma TailBottomIs(x: real)
    ensures TailBottom(x) == RealHorner(Real(D[0]), D[1..], x) * x + Real(SCALE)
    ensures TailTop(x) == RealHorner(Real(C[0]), C[1..], x)
  {
    hide RealHorner, Real;
  }

  lemma Looser(v: int, h: real, bound: real, looser: real)
    requires Within(v, h, bound) && bound <= looser
    ensures Within(v, h, looser)
  {
  }

  lemma RootIs(value: int)
    requires SqrtFixed(value).Ok?
    ensures var root := SqrtFixed(value).value; 0 <= root && root * root <= value * SCALE < (root + 1) * (root + 1)
  {
    hide IntegerRoot;
  }

  // ---- the middle

  /** In the middle the value is the published quotient at the rounded square of the distance from one half. */
  lemma MiddleForm(q: int) returns (r: int, n: int, d: int)
    requires -475_750_000_000 <= q <= 475_750_000_000
    ensures Middle(q).Ok? && QuotientOf(Middle(q).value, n, d)
    ensures 2 * Abs(SCALE * r - q * q) <= SCALE
    ensures Within(n, Slope(Real(r)) * Real(q), 2.0) && Within(d, Bend(Real(r)), 1.0)
  {
    hide Horner, MulFixed, DivFixed, Slope, Bend, Real, Within, QuotientOf;
    MiddleSquare(q);
    SquareRounds(q);
    r := MulFixed(q, q).value;
    SlopeWithin(r);
    BendWithin(r);
    var slope := Horner(A, r).value;
    HornerStep(slope, q, REACH);
    n := MulFixed(slope, q).value;
    SlopeTimesWithin(slope, q, Slope(Real(r)), Slope(Real(r)) * Real(q));
    d := MulFixed(Horner(B, r).value, r).value + SCALE;
    MiddleDenominator(r);
    DividedRounds(n, d);
  }

  lemma SquareRounds(q: int)
    requires -475_750_000_000 <= q <= 475_750_000_000
    ensures MulFixed(q, q).Ok? && 2 * Abs(SCALE * MulFixed(q, q).value - q * q) <= SCALE
  {
    hide Rounded;
    AbsProduct(q, q, 475_750_000_000, 475_750_000_000);
    ProductRounded(q, q, 226_338_062_500_000_000_000_000);
    RoundedNearest(q * q, SCALE);
  }

  lemma SlopeWithin(r: int)
    requires 0 <= r <= MIDDLE_SQUARE
    ensures Horner(A, r).Ok? && Abs(Horner(A, r).value) <= REACH && Within(Horner(A, r).value, Slope(Real(r)), 1.0)
  {
    hide HornerFrom, RealHorner, Real;
    assert Reach(0) == 300 * SCALE;
    SelfNear(A[0]);
    HornerNear(A[0], A[1..], r, 0, Real(A[0]));
    HornerOk(A, r);
  }

  lemma BendWithin(r: int)
    requires 0 <= r <= MIDDLE_SQUARE
    ensures Horner(B, r).Ok? && MulFixed(Horner(B, r).value, r).Ok?
    ensures Within(MulFixed(Horner(B, r).value, r).value + SCALE, Bend(Real(r)), 1.0)
  {
    hide Horner, MulFixed, Real, Bend, RealHorner, Near;
    BendNear(r);
    BendIs(Real(r));
    NearStepTo(Horner(B, r).value, r, RealHorner(Real(B[0]), B[1..], Real(r)), SCALE, Bend(Real(r)));
    NearIsWithin(MulFixed(Horner(B, r).value, r).value + SCALE, Bend(Real(r)));
  }

  lemma NearIsWithin(v: int, h: real)
    requires Near(v, h)
    ensures Within(v, h, 1.0)
  {
  }

  lemma SlopeTimesWithin(slope: int, q: int, h: real, product: real)
    requires Abs(slope) <= REACH && Abs(q) <= SCALE && Within(slope, h, 1.0) && product == h * Real(q)
    ensures MulFixed(slope, q).Ok? && Abs(MulFixed(slope, q).value) <= 7 * REACH
    ensures Within(MulFixed(slope, q).value, product, 2.0)
  {
    hide MulFixed, Real;
    HornerStep(slope, q, REACH);
    var rounded := RoundedProduct(slope, q);
    OneAtMost(q);
    TimesOnReals(rounded as real, slope as real, h, Real(q), product);
  }

  lemma TimesOnReals(rounded: real, slope: real, h: real, x: real, product: real)
    requires Q32.Close(rounded, slope * x, 0.5) && Q32.Close(slope, 1_000_000_000_000.0 * h, 1.0)
    requires -1.0 <= x <= 1.0 && product == h * x
    ensures Q32.Close(rounded, 1_000_000_000_000.0 * product, 2.0)
  {
    FixedPointSeries.ErrorCarried(slope, 1_000_000_000_000.0, h, x, 1.0, 1.0);
  }

  lemma OneAtMost(q: int)
    requires Abs(q) <= SCALE
    ensures -1.0 <= Real(q) <= 1.0
  {
  }

  /** Every draw is its midpoint's value: the lower tail, the mirrored upper tail, or the middle. */
  lemma DrawForm(draw: int)
    requires 0 <= draw < DRAW_SCALE
    ensures var p := (2 * draw + 1) * 500_000;
      if p < 24_250_000_000 then InverseNormal.InverseNormal(draw) == Tail(p)
      else if p > 975_750_000_000
      then Tail(SCALE - p).Ok? && InverseNormal.InverseNormal(draw) == Ok(-Tail(SCALE - p).value)
      else InverseNormal.InverseNormal(draw) == Middle(p - 500_000_000_000)
  {
    hide Tail, Middle, RoundDivSigned;
    Midpoint(draw);
    var p := (2 * draw + 1) * 500_000;
    if p > SCALE - P_LOW {
      TailOk(SCALE - p);
    }
  }
}
