/** The inverse normal is positive on the upper half of the draws and negative on the lower half. */
module InverseNormalSign {
  import opened Numbers
  import opened Products
  import opened IntegerSqrt
  import opened FixedPoint
  import opened FixedPointRange
  import opened InverseNormal

  // ---- the middle's numerator

  /** The slope of the middle as a polynomial in the square. */
  ghost function Slope(x: real): real {
    RealHorner(Real(A[0]), A[1..], x)
  }

  lemma UnrolledSlope(x: real)
    ensures Slope(x)
         == ((((-39.696830286654 * x + 220.946098424521) * x - 275.928510446969) * x + 138.357751867269) * x
             - 30.664798066147) * x + 2.506628277459
  {
    var h0 := Real(A[0]);
    var h1 := h0 * x + Real(A[1]);
    var h2 := h1 * x + Real(A[2]);
    var h3 := h2 * x + Real(A[3]);
    var h4 := h3 * x + Real(A[4]);
    var h5 := h4 * x + Real(A[5]);
    assert RealHorner(h5, [], x) == h5;
    assert RealHorner(h4, [A[5]], x) == RealHorner(h5, [], x) by {
      assert [A[5]][1..] == [];
    }
    assert RealHorner(h3, [A[4], A[5]], x) == RealHorner(h4, [A[5]], x) by {
      assert [A[4], A[5]][1..] == [A[5]];
    }
    assert RealHorner(h2, [A[3], A[4], A[5]], x) == RealHorner(h3, [A[4], A[5]], x) by {
      assert [A[3], A[4], A[5]][1..] == [A[4], A[5]];
    }
    assert RealHorner(h1, [A[2], A[3], A[4], A[5]], x) == RealHorner(h2, [A[3], A[4], A[5]], x) by {
      assert [A[2], A[3], A[4], A[5]][1..] == [A[3], A[4], A[5]];
    }
    assert RealHorner(h0, A[1..], x) == RealHorner(h1, [A[2], A[3], A[4], A[5]], x) by {
      assert A[1..][1..] == [A[2], A[3], A[4], A[5]];
    }
  }

  /** The slope written in the distance `t` from the end of the middle's range: every coefficient is positive. */
  lemma SlopeFromEnd(t: real) returns (cs: seq<real>)
    ensures Slope(0.2263380625 - t) == Poly(cs, t)
    ensures cs != [] && 0.01 <= cs[0] && forall c <- cs :: 0.0 <= c
  {
    hide Slope, Poly;
    var r := 0.2263380625;
    var a0, a1, a2 := -39.696830286654, 220.946098424521, -275.928510446969;
    var a3, a4, a5 := 138.357751867269, -30.664798066147, 2.506628277459;
    UnrolledSlope(r - t);
    var c10, c11 := a0 * r + a1, -a0;
    TimesDistance(a0, 0.0, 0.0, 0.0, 0.0, r, t, a1);
    var c20, c21, c22 := c10 * r + a2, c11 * r - c10, -c11;
    TimesDistance(c10, c11, 0.0, 0.0, 0.0, r, t, a2);
    var c30, c31, c32, c33 := c20 * r + a3, c21 * r - c20, c22 * r - c21, -c22;
    TimesDistance(c20, c21, c22, 0.0, 0.0, r, t, a3);
    var c40, c41, c42, c43, c44 := c30 * r + a4, c31 * r - c30, c32 * r - c31, c33 * r - c32, -c33;
    TimesDistance(c30, c31, c32, c33, 0.0, r, t, a4);
    TimesDistance(c40, c41, c42, c43, c44, r, t, a5);
    cs := [c40 * r + a5, c41 * r - c40, c42 * r - c41, c43 * r - c42, c44 * r - c43, -c44];
    PolyOfSix(cs[0], cs[1], cs[2], cs[3], cs[4], cs[5], t);
    assert cs == [cs[0], cs[1], cs[2], cs[3], cs[4], cs[5]];
  }

  lemma SlopePositive(x: real)
    requires 0.0 <= x <= 0.2263380625
    ensures 0.01 <= Slope(x)
  {
    hide Slope, Poly;
    var t := 0.2263380625 - x;
    assert 0.2263380625 - t == x;
    var cs := SlopeFromEnd(t);
    PolyAtLeast(cs, t);
  }

  /** The fixed-point slope is at least nine thousandths. */
  lemma MiddleSlope(r: int)
    requires 0 <= r <= MIDDLE_SQUARE
    ensures Horner(A, r).Ok? && 9_000_000_000 <= Horner(A, r).value <= REACH
  {
    hide HornerFrom, RealHorner, Real;
    assert Reach(0) == 300 * SCALE;
    SelfNear(A[0]);
    HornerNear(A[0], A[1..], r, 0, Real(A[0]));
    HornerOk(A, r);
    MiddleArgument(r);
    SlopePositive(Real(r));
    NearAtLeast(Horner(A, r).value, Slope(Real(r)));
  }

  lemma SelfNear(v: int)
    ensures Near(v, Real(v))
  {
  }

  lemma NearAtLeast(v: int, h: real)
    requires Near(v, h) && 0.01 <= h
    ensures 9_000_000_000 <= v
  {
  }

  // ---- the middle's denominator

  /** With an argument of at most a quarter an evaluation stays within 220. */
  lemma {:induction false} HornerSmall(acc: int, rest: seq<int>, v: int)
    requires Abs(acc) <= 220 * SCALE && 0 <= 4 * v <= SCALE && forall c <- rest :: Abs(c) <= 162 * SCALE
    ensures HornerFrom(acc, rest, v).Ok? && Abs(HornerFrom(acc, rest, v).value) <= 220 * SCALE
    decreases |rest|
  {
    hide MulFixed, Rounded;
    if rest == [] {
    } else {
      QuarterStep(acc, v);
      assert rest[0] in rest && forall c <- rest[1..] :: c in rest;
      HornerSmall(MulFixed(acc, v).value + rest[0], rest[1..], v);
    }
  }

  lemma QuarterStep(acc: int, v: int)
    requires Abs(acc) <= 220 * SCALE && 0 <= 4 * v <= SCALE
    ensures MulFixed(acc, v).Ok? && Abs(MulFixed(acc, v).value) <= 55 * SCALE + 1
  {
    hide Rounded;
    AbsProduct(acc, v, 220 * SCALE, SCALE / 4);
    ProductRounded(acc, v, 220 * SCALE * (SCALE / 4));
  }

  lemma MiddleBend(r: int)
    requires 0 <= r <= MIDDLE_SQUARE
    ensures Horner(B, r).Ok? && MulFixed(Horner(B, r).value, r).Ok?
    ensures 0 < MulFixed(Horner(B, r).value, r).value + SCALE <= 57 * SCALE
  {
    hide HornerFrom, MulFixed;
    MiddleDenominator(r);
    HornerSmall(B[0], B[1..], r);
    QuarterStep(Horner(B, r).value, r);
  }

  /** A numerator that is large against the denominator has a positive quotient. */
  lemma QuotientPositive(numerator: int, denominator: int)
    requires 0 < denominator <= 2 * (numerator * SCALE) && numerator <= 20_000_000 * SCALE
    ensures DivFixed(numerator, denominator).Ok? && 0 < DivFixed(numerator, denominator).value
  {
    hide Rounded;
    RoundDivOk(numerator * SCALE, denominator);
    RoundsUp(numerator * SCALE, denominator);
  }

  lemma RoundsUp(n: int, d: int)
    requires 0 < d <= 2 * n
    ensures 0 < Rounded(n, d)
  {
    if n < d {
      QuotientUnique(d, n / d, n % d, 0, n);
    } else {
      QuotientOrder(d, 1, 0, n / d, n % d);
    }
  }

  /** The middle is positive above one half. */
  lemma MiddlePositive(q: int)
    requires 500_000 <= q <= 475_750_000_000
    ensures Middle(q).Ok? && 0 < Middle(q).value
  {
    hide Horner, MulFixed, DivFixed;
    MiddleOk(q);
    MiddleSquare(q);
    var r := MulFixed(q, q).value;
    MiddleSlope(r);
    HornerStep(Horner(A, r).value, q, REACH);
    SlopeTimes(Horner(A, r).value, q);
    MiddleBend(r);
    QuotientPositive(MulFixed(Horner(A, r).value, q).value, MulFixed(Horner(B, r).value, r).value + SCALE);
  }

  lemma SlopeTimes(slope: int, q: int)
    requires 9_000_000_000 <= slope <= REACH && 500_000 <= q <= SCALE
    ensures MulFixed(slope, q).Ok? && 4_000 <= MulFixed(slope, q).value <= 7 * REACH
  {
    hide Rounded;
    MulOrder(9_000_000_000, slope, q);
    MulOrder(500_000, q, 9_000_000_000);
    AbsProduct(slope, q, REACH, SCALE);
    ProductRounded(slope, q, REACH * SCALE);
    RoundedNearest(slope * q, SCALE);
  }

  // ---- the tails

  /** The root of a tail is more than 2.37. */
  lemma TailRootFar(probability: int)
    requires 500_000 <= probability < P_LOW
    ensures NaturalLog(probability).Ok? && SqrtFixed(NaturalLog(probability).value * -2).Ok?
    ensures InI128(NaturalLog(probability).value * -2)
    ensures 2_370_000_000_000 <= SqrtFixed(NaturalLog(probability).value * -2).value <= 6 * SCALE
  {
    hide NaturalLog, Normalize, IntegerRoot;
    TailRoot(probability);
    LogRange(probability);
    TailPower(probability);
    var radicand := NaturalLog(probability).value * -2;
    var root := IntegerRoot(radicand * SCALE);
    assert 5_650_000_000_000 <= radicand;
    if root < 2_370_000_000_000 {
      NextSquare(root, 2_370_000_000_000);
    }
  }

  lemma NextSquare(a: int, b: int)
    requires 0 <= a < b
    ensures (a + 1) * (a + 1) <= b * b
  {
    MulOrder(a + 1, b, a + 1);
    MulOrder(a + 1, b, b);
  }

  /** One step of Horner's scheme below a bound, with an argument of more than 2.37. */
  lemma NegativeStep(acc: int, v: int, bound: int)
    requires -REACH <= acc <= -bound && 0 <= bound && 2_370_000_000_000 <= v <= 6 * SCALE
    ensures MulFixed(acc, v).Ok? && 1_000 * MulFixed(acc, v).value <= -2_370 * bound + 1_000
  {
    hide Rounded;
    MulOrder(bound, -acc, v);
    MulOrder(2_370_000_000_000, v, bound);
    HornerStep(acc, v, REACH);
    AbsProduct(acc, v, REACH, 6 * SCALE);
    ProductRounded(acc, v, REACH * (6 * SCALE));
    RoundedNearest(acc * v, SCALE);
    assert -acc * v == -(acc * v);
  }

  /** The numerator of a tail is below minus thirty. */
  lemma TailNumerator(q: int)
    requires 2_370_000_000_000 <= q <= 6 * SCALE
    ensures Horner(C, q).Ok? && -REACH <= Horner(C, q).value <= -30 * SCALE
  {
    hide MulFixed;
    HornerOk(C, q);
    ReachBelow(0);
    ReachBelow(1);
    ReachBelow(2);
    ReachBelow(3);
    ReachBelow(4);
    ReachBelow(5);
    var c := C;
    var h0 := c[0];
    NegativeStep(h0, q, 0);
    HornerStep(h0, q, Reach(0));
    var h1 := MulFixed(h0, q).value + c[1];
    NegativeStep(h1, q, 0);
    HornerStep(h1, q, Reach(1));
    var h2 := MulFixed(h1, q).value + c[2];
    NegativeStep(h2, q, 2_400_000_000_000);
    HornerStep(h2, q, Reach(2));
    var h3 := MulFixed(h2, q).value + c[3];
    NegativeStep(h3, q, 8_200_000_000_000);
    HornerStep(h3, q, Reach(3));
    var h4 := MulFixed(h3, q).value + c[4];
    NegativeStep(h4, q, 15_000_000_000_000);
    HornerStep(h4, q, Reach(4));
    var h5 := MulFixed(h4, q).value + c[5];
    HornerUnrolled(q, h1, h2, h3, h4, h5);
  }

  lemma HornerUnrolled(q: int, h1: int, h2: int, h3: int, h4: int, h5: int)
    requires InI128(h1) && InI128(h2) && InI128(h3) && InI128(h4) && InI128(h5)
    requires MulFixed(C[0], q).Ok? && h1 == MulFixed(C[0], q).value + C[1]
    requires MulFixed(h1, q).Ok? && h2 == MulFixed(h1, q).value + C[2]
    requires MulFixed(h2, q).Ok? && h3 == MulFixed(h2, q).value + C[3]
    requires MulFixed(h3, q).Ok? && h4 == MulFixed(h3, q).value + C[4]
    requires MulFixed(h4, q).Ok? && h5 == MulFixed(h4, q).value + C[5]
    ensures Horner(C, q) == Ok(h5)
  {
    hide MulFixed;
    assert HornerFrom(h5, [], q) == Ok(h5);
    assert HornerFrom(h4, [C[5]], q) == HornerFrom(h5, [], q) by {
      assert [C[5]][1..] == [];
    }
    assert HornerFrom(h3, [C[4], C[5]], q) == HornerFrom(h4, [C[5]], q) by {
      assert [C[4], C[5]][1..] == [C[5]];
    }
    assert HornerFrom(h2, [C[3], C[4], C[5]], q) == HornerFrom(h3, [C[4], C[5]], q) by {
      assert [C[3], C[4], C[5]][1..] == [C[4], C[5]];
    }
    assert HornerFrom(h1, [C[2], C[3], C[4], C[5]], q) == HornerFrom(h2, [C[3], C[4], C[5]], q) by {
      assert [C[2], C[3], C[4], C[5]][1..] == [C[3], C[4], C[5]];
    }
    assert HornerFrom(C[0], C[1..], q) == HornerFrom(h1, [C[2], C[3], C[4], C[5]], q) by {
      assert C[1..][1..] == [C[2], C[3], C[4], C[5]];
    }
  }

  /** The lower tail is negative. */
  lemma TailNegative(probability: int)
    requires 500_000 <= probability < P_LOW
    ensures Tail(probability).Ok? && Tail(probability).value < 0
  {
    hide NaturalLog, SqrtFixed, Horner, MulFixed, DivFixed;
    TailRootFar(probability);
    var q := SqrtFixed(NaturalLog(probability).value * -2).value;
    TailNumerator(q);
    HornerOk(D, q);
    HornerStep(Horner(D, q).value, q, REACH);
    QuotientNegative(Horner(C, q).value, MulFixed(Horner(D, q).value, q).value + SCALE);
  }

  lemma QuotientNegative(numerator: int, denominator: int)
    requires -REACH <= numerator <= -30 * SCALE && 0 < denominator <= 7 * REACH
    ensures DivFixed(numerator, denominator).Ok? && DivFixed(numerator, denominator).value < 0
  {
    hide Rounded;
    QuotientOk(numerator, denominator);
    RoundDivOk(numerator * SCALE, denominator);
    RoundsUp(-numerator * SCALE, denominator);
    RoundedNearest(numerator * SCALE, denominator);
    assert -numerator * SCALE == -(numerator * SCALE);
  }

  // ---- the whole range

  /** The value is positive from the middle of the draws up, and negative below it. */
  lemma InverseNormalSign(draw: int)
    requires 0 <= draw < DRAW_SCALE
    ensures InverseNormal.InverseNormal(draw).Ok?
    ensures 500_000 <= draw ==> 0 < InverseNormal.InverseNormal(draw).value
    ensures draw < 500_000 ==> InverseNormal.InverseNormal(draw).value < 0
  {
    hide InverseNormal.InverseNormal;
    InverseNormalOdd(draw);
    if 500_000 <= draw {
      UpperHalf(draw);
    } else {
      UpperHalf(DRAW_SCALE - 1 - draw);
    }
  }

  lemma UpperHalf(draw: int)
    requires 500_000 <= draw < DRAW_SCALE
    ensures InverseNormal.InverseNormal(draw).Ok? && 0 < InverseNormal.InverseNormal(draw).value
  {
    hide Tail, Middle, RoundDivSigned;
    Midpoint(draw);
    InverseNormalTotal(draw);
    var p := (2 * draw + 1) * 500_000;
    if p > SCALE - P_LOW {
      TailNegative(SCALE - p);
    } else {
      MiddlePositive(p - SCALE / 2);
    }
  }
}
