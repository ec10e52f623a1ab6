/** The fixed-point inverse of the normal distribution behind a fish's weight: it never fails on a valid draw and is odd
    about the middle of the draw range. */
module InverseNormal {
  import opened Numbers
  import opened Products
  import opened IntegerSqrt
  import opened FixedPoint
  import opened FixedPointRange
  import Q32

  const DRAW_SCALE := 1_000_000
  const P_LOW := 24_250_000_000

  const A := [-39_696_830_286_654, 220_946_098_424_521, -275_928_510_446_969, 138_357_751_867_269,
              -30_664_798_066_147, 2_506_628_277_459]
  const B := [-54_476_098_798_224, 161_585_836_858_041, -155_698_979_859_887, 66_801_311_887_720, -13_280_681_552_886]
  const C := [-7_784_894_002, -322_396_458_041, -2_400_758_277_162, -2_549_732_539_344, 4_374_664_141_465,
              2_938_163_982_699]
  const D := [7_784_695_709, 322_467_129_070, 2_445_134_137_143, 3_754_408_661_907]

  function HornerFrom(acc: int, rest: seq<int>, v: int): Result<int, NumericError>
    decreases |rest|
  {
    if rest == [] then Ok(acc)
    else
      var product :- MulFixed(acc, v);
      var next :- Checked(product + rest[0]);
      HornerFrom(next, rest[1..], v)
  }

  function Horner(coefficients: seq<int>, v: int): Result<int, NumericError> {
    if coefficients == [] then Err(InvalidNumericDomain) else HornerFrom(coefficients[0], coefficients[1..], v)
  }

  function UnitMidpoint(draw: int): Result<int, NumericError> {
    if draw >= DRAW_SCALE then Err(DrawOutOfRange(draw))
    else
      var numerator :- Checked((draw * 2 + 1) * SCALE);
      RoundDivSigned(numerator, DRAW_SCALE * 2)
  }

  /** The tail: a rational function of the square root of minus twice the logarithm. */
  function Tail(probability: int): Result<int, NumericError> {
    var logarithm :- NaturalLog(probability);
    var radicand :- Checked(logarithm * -2);
    var q :- SqrtFixed(radicand);
    var numerator :- Horner(C, q);
    var slope :- Horner(D, q);
    var scaled :- MulFixed(slope, q);
    var denominator :- Checked(scaled + SCALE);
    DivFixed(numerator, denominator)
  }

  /** The middle: an odd rational function of the distance from one half. */
  function Middle(q: int): Result<int, NumericError> {
    var r :- MulFixed(q, q);
    var slope :- Horner(A, r);
    var numerator :- MulFixed(slope, q);
    var bend :- Horner(B, r);
    var scaled :- MulFixed(bend, r);
    var denominator :- Checked(scaled + SCALE);
    DivFixed(numerator, denominator)
  }

  function InverseNormal(draw: int): Result<int, NumericError> {
    var probability :- UnitMidpoint(draw);
    if probability < P_LOW then Tail(probability)
    else if probability > SCALE - P_LOW then
      var value :- Tail(SCALE - probability);
      Checked(-value)
    else Middle(probability - SCALE / 2)
  }

  // ---- odd symmetry

  /** Rounded products and quotients are odd in either sign. */
  function Negated(r: Result<int, NumericError>): Result<int, NumericError> {
    match r
    case Err(e) => Err(e)
    case Ok(v) => Ok(-v)
  }

  lemma RoundDivOdd(n: int, d: int)
    requires InI128(n) && InI128(-n)
    ensures RoundDivSigned(-n, d) == Negated(RoundDivSigned(n, d))
    ensures RoundDivSigned(n, d).Ok? ==> Abs(RoundDivSigned(n, d).value) <= I128_MAX
  {
    hide Rounded;
    if d > 0 {
      RoundDivOk(n, d);
      RoundDivOk(-n, d);
      RoundedNearest(n, d);
    }
  }

  lemma MulFixedOdd(a: int, b: int)
    requires InI128(a * b) && InI128(-(a * b))
    ensures MulFixed(a, -b) == Negated(MulFixed(a, b)) && MulFixed(-a, -b) == MulFixed(a, b)
    ensures MulFixed(a, b).Ok? ==> Abs(MulFixed(a, b).value) <= I128_MAX
  {
    hide RoundDivSigned;
    RoundDivOdd(a * b, SCALE);
    assert a * -b == -(a * b) && -a * -b == a * b;
  }

  // ---- the draw's midpoint

  lemma Midpoint(draw: int)
    requires 0 <= draw < DRAW_SCALE
    ensures UnitMidpoint(draw) == Ok((2 * draw + 1) * 500_000)
  {
    RoundDivOk((draw * 2 + 1) * SCALE, DRAW_SCALE * 2);
    assert (draw * 2 + 1) * SCALE == (DRAW_SCALE * 2) * ((2 * draw + 1) * 500_000);
  }

  // ---- Horner's scheme stays in range

  /** How far an evaluation can be from nought after some steps, with an argument of at most six and coefficients of at
      most three hundred. */
  function Reach(steps: nat): (bound: int)
    ensures 0 < bound
  {
    if steps == 0 then 300 * SCALE else 6 * Reach(steps - 1) + 300 * SCALE + 1
  }

  const REACH := 3_000_000 * SCALE

  lemma ReachBelow(steps: nat)
    requires steps <= 5
    ensures Reach(steps) <= REACH
  {
    assert Reach(1) == 6 * Reach(0) + 300 * SCALE + 1;
    assert Reach(2) == 6 * Reach(1) + 300 * SCALE + 1;
    assert Reach(3) == 6 * Reach(2) + 300 * SCALE + 1;
    assert Reach(4) == 6 * Reach(3) + 300 * SCALE + 1;
    assert Reach(5) == 6 * Reach(4) + 300 * SCALE + 1;
  }

  ghost predicate Coefficients(cs: seq<int>) {
    forall i :: 0 <= i < |cs| ==> Abs(cs[i]) <= 300 * SCALE
  }

  ghost predicate NonNegative(cs: seq<int>) {
    forall i :: 0 <= i < |cs| ==> 0 <= cs[i]
  }

  lemma {:induction false} HornerRange(acc: int, rest: seq<int>, v: int, steps: nat)
    requires Abs(acc) <= Reach(steps) && Abs(v) <= 6 * SCALE && Coefficients(rest) && steps + |rest| <= 5
    ensures HornerFrom(acc, rest, v).Ok? && Abs(HornerFrom(acc, rest, v).value) <= REACH
    ensures 0 <= acc && 0 <= v && NonNegative(rest) ==> 0 <= HornerFrom(acc, rest, v).value
    decreases |rest|
  {
    hide MulFixed, Rounded;
    ReachBelow(steps);
    if rest == [] {
    } else {
      ReachBelow(steps + 1);
      HornerStep(acc, v, Reach(steps));
      HornerRange(MulFixed(acc, v).value + rest[0], rest[1..], v, steps + 1);
    }
  }

  lemma HornerStep(acc: int, v: int, bound: int)
    requires Abs(acc) <= bound <= REACH && Abs(v) <= 6 * SCALE
    ensures MulFixed(acc, v).Ok? && Abs(MulFixed(acc, v).value) <= 6 * bound + 1
    ensures 0 <= acc && 0 <= v ==> 0 <= MulFixed(acc, v).value
  {
    hide Rounded;
    AbsProduct(acc, v, bound, 6 * SCALE);
    ProductRounded(acc, v, bound * (6 * SCALE));
    RoundedNearest(acc * v, SCALE);
    if 0 <= acc && 0 <= v {
      MulNonNegative(acc, v);
    }
  }

  lemma HornerOk(cs: seq<int>, v: int)
    requires 0 < |cs| <= 6 && Coefficients(cs) && Abs(v) <= 6 * SCALE
    ensures Horner(cs, v).Ok? && Abs(Horner(cs, v).value) <= REACH
    ensures 0 <= v && NonNegative(cs) ==> 0 <= Horner(cs, v).value
  {
    hide HornerFrom;
    assert Reach(0) == 300 * SCALE;
    HornerRange(cs[0], cs[1..], v, 0);
  }

  /** A quotient of an evaluation by a positive denominator. */
  lemma QuotientOk(numerator: int, denominator: int)
    requires Abs(numerator) <= 20_000_000 * SCALE && 0 < denominator
    ensures DivFixed(numerator, denominator).Ok? && Abs(DivFixed(numerator, denominator).value) <= I128_MAX
  {
    hide Rounded;
    RoundDivOk(numerator * SCALE, denominator);
    RoundedNearest(numerator * SCALE, denominator);
  }

  // ---- the tails

  /** The root of a tail is at most six. */
  lemma TailRoot(probability: int)
    requires 500_000 <= probability < P_LOW
    ensures NaturalLog(probability).Ok? && SqrtFixed(NaturalLog(probability).value * -2).Ok?
    ensures InI128(NaturalLog(probability).value * -2)
    ensures 0 <= SqrtFixed(NaturalLog(probability).value * -2).value <= 6 * SCALE
  {
    hide NaturalLog, Normalize, IntegerRoot;
    LogRange(probability);
    TailPower(probability);
    var radicand := NaturalLog(probability).value * -2;
    assert 0 <= radicand <= 30 * SCALE;
    var root := IntegerRoot(radicand * SCALE);
    if root > 6 * SCALE {
      MulOrder(6 * SCALE, root, root);
      MulOrder(6 * SCALE, root, 6 * SCALE);
    }
  }

  /** A tail probability is between 2^-21 and 2^-5. */
  lemma TailPower(probability: int)
    requires 500_000 <= probability < P_LOW
    ensures Normalize(probability).Ok? && -21 <= Normalize(probability).value.power <= -6
  {
    hide Normalize, Pow2;
    NormalRange(probability);
    var k: nat := -Normalize(probability).value.power;
    SmallPowers();
    MulOrder(500_000, probability, 4_194_304);
    if k > 21 {
      Pow2Order(22, k);
      MulOrder(4_194_304, Pow2(k), probability);
    }
    if k < 6 {
      Pow2Order(k, 5);
      MulOrder(Pow2(k), 32, probability);
    }
  }

  lemma SmallPowers()
    ensures Pow2(5) == 32 && Pow2(22) == 4_194_304
  {
    assert Pow2(8) == 256;
    Pow2Adds(8, 8);
    Pow2Adds(16, 6);
  }

  lemma Pow2Order(j: nat, k: nat)
    requires j <= k
    ensures Pow2(j) <= Pow2(k)
  {
    Pow2Adds(j, k - j);
    MulOrder(1, Pow2(k - j), Pow2(j));
  }

  /** The tails never fail: the logarithm is negative, the root is small and the denominator is positive. */
  lemma TailOk(probability: int)
    requires 500_000 <= probability < P_LOW
    ensures Tail(probability).Ok? && Abs(Tail(probability).value) <= I128_MAX
  {
    hide NaturalLog, SqrtFixed, Horner, MulFixed, DivFixed;
    TailRoot(probability);
    var q := SqrtFixed(NaturalLog(probability).value * -2).value;
    HornerOk(C, q);
    HornerOk(D, q);
    HornerStep(Horner(D, q).value, q, REACH);
    QuotientOk(Horner(C, q).value, MulFixed(Horner(D, q).value, q).value + SCALE);
  }

  // ---- the middle

  ghost function Real(v: int): real {
    v as real / SCALE as real
  }

  /** The polynomial a Horner evaluation approximates. */
  ghost function RealHorner(h: real, rest: seq<int>, x: real): real
    decreases |rest|
  {
    if rest == [] then h else RealHorner(h * x + Real(rest[0]), rest[1..], x)
  }

  ghost predicate Near(v: int, h: real) {
    -1.0 <= v as real - SCALE as real * h <= 1.0
  }

  /** One rounded product with an argument of at most a quarter halves the error it is given. */
  lemma NearStep(acc: int, v: int, h: real, c: int)
    requires Near(acc, h) && 0 <= 4 * v <= SCALE && Abs(acc) <= REACH
    ensures MulFixed(acc, v).Ok? && Near(MulFixed(acc, v).value + c, h * Real(v) + Real(c))
  {
    hide Rounded, Near, Real;
    HornerStep(acc, v, REACH);
    AbsProduct(acc, v, REACH, SCALE);
    ProductRounded(acc, v, REACH * SCALE);
    RoundedNearest(acc * v, SCALE);
    RoundingError(acc, v, Rounded(acc * v, SCALE));
    NearRounded(acc, v, h, c, Rounded(acc * v, SCALE));
  }

  lemma NearRounded(acc: int, v: int, h: real, c: int, rounded: int)
    requires Near(acc, h) && 0 <= 4 * v <= SCALE && -0.5 <= rounded as real - acc as real * Real(v) <= 0.5
    ensures Near(rounded + c, h * Real(v) + Real(c))
  {
    hide Real;
    QuarterArgument(v);
    var e := acc as real - SCALE as real * h;
    Q32.ScaledBound(e, 1.0, Real(v), 0.25);
    NearSum(acc as real, rounded as real, c as real, SCALE as real, h, Real(v), e);
    RealScaled(c);
  }

  lemma QuarterArgument(v: int)
    requires 0 <= 4 * v <= SCALE
    ensures 0.0 <= Real(v) <= 0.25
  {
  }

  lemma RealScaled(c: int)
    ensures Real(c) == c as real / SCALE as real
  {
  }

  lemma RoundingError(acc: int, v: int, rounded: int)
    requires 2 * Abs(SCALE * rounded - acc * v) <= SCALE
    ensures -0.5 <= rounded as real - acc as real * Real(v) <= 0.5
  {
    var product := acc * v;
    assert product as real == acc as real * v as real;
    assert acc as real * Real(v) == product as real / SCALE as real by {
      DivideProduct(acc as real, v as real, SCALE as real);
    }
  }

  lemma DivideProduct(a: real, b: real, s: real)
    requires s > 0.0
    ensures a * (b / s) == a * b / s
  {
  }

  lemma NearSum(acc: real, rounded: real, c: real, s: real, h: real, x: real, e: real)
    requires e == acc - s * h && -0.25 <= e * x <= 0.25 && -0.5 <= rounded - acc * x <= 0.5 && s > 0.0
    ensures -1.0 <= rounded + c - s * (h * x + c / s) <= 1.0
  {
    var hx, share, sh := h * x, c / s, s * h;
    RealDistributes(s, hx, share);
    RealQuotient(s, c);
    RealAssociates(s, h, x);
    RealDistributes(x, sh, e);
  }

  lemma RealDistributes(a: real, b: real, c: real)
    ensures a * (b + c) == a * b + a * c && (b + c) * a == b * a + c * a
  {
  }

  lemma RealAssociates(a: real, b: real, c: real)
    ensures a * (b * c) == (a * b) * c
  {
  }

  lemma RealQuotient(s: real, c: real)
    requires s > 0.0
    ensures s * (c / s) == c
  {
  }

  lemma RealNonNegative(a: real, b: real)
    requires 0.0 <= a && 0.0 <= b
    ensures 0.0 <= a * b
  {
  }

  lemma {:induction false} HornerNear(acc: int, rest: seq<int>, v: int, steps: nat, h: real)
    requires Near(acc, h) && 0 <= 4 * v <= SCALE
    requires Abs(acc) <= Reach(steps) && Coefficients(rest) && steps + |rest| <= 5
    ensures HornerFrom(acc, rest, v).Ok? && Near(HornerFrom(acc, rest, v).value, RealHorner(h, rest, Real(v)))
    decreases |rest|
  {
    hide MulFixed, Near, Real;
    ReachBelow(steps);
    if rest == [] {
    } else {
      ReachBelow(steps + 1);
      HornerStep(acc, v, Reach(steps));
      NearStep(acc, v, h, rest[0]);
      HornerNear(MulFixed(acc, v).value + rest[0], rest[1..], v, steps + 1, h * Real(v) + Real(rest[0]));
    }
  }

  /** Multiplying a polynomial in t by (r - t). */
  lemma TimesDistance(a0: real, a1: real, a2: real, a3: real, a4: real, r: real, t: real, b: real)
    ensures (a0 + t * (a1 + t * (a2 + t * (a3 + t * a4)))) * (r - t) + b
         == (a0 * r + b) + t * ((a1 * r - a0) + t * ((a2 * r - a1) + t * ((a3 * r - a2) + t * ((a4 * r - a3) + t * -a4))))
  {
    var p4 := t * a4;
    var p3 := a3 + p4;
    var p2 := a2 + t * p3;
    assert p4 * (r - t) == t * (a4 * r + t * -a4);
    assert p3 * (r - t) == a3 * r + t * ((a4 * r - a3) + t * -a4);
    assert p2 * (r - t) == a2 * r + t * ((a3 * r - a2) + t * ((a4 * r - a3) + t * -a4));
  }

  /** The largest square the middle is evaluated on. */
  const MIDDLE_SQUARE := 226_338_062_500

  /** The denominator of the middle as a polynomial in the square. */
  ghost function Bend(x: real): real {
    RealHorner(Real(B[0]), B[1..], x) * x + Real(SCALE)
  }

  /** A polynomial by its coefficients, lowest first. */
  ghost function Poly(cs: seq<real>, t: real): real {
    if cs == [] then 0.0 else cs[0] + t * Poly(cs[1..], t)
  }

  lemma {:induction false} PolyNonNegative(cs: seq<real>, t: real)
    requires 0.0 <= t && forall c <- cs :: 0.0 <= c
    ensures 0.0 <= Poly(cs, t)
  {
    if cs == [] {
    } else {
      assert cs[0] in cs && forall c <- cs[1..] :: c in cs;
      PolyNonNegative(cs[1..], t);
      RealNonNegative(t, Poly(cs[1..], t));
    }
  }

  lemma PolyAtLeast(cs: seq<real>, t: real)
    requires cs != [] && 0.0 <= t && forall c <- cs :: 0.0 <= c
    ensures cs[0] <= Poly(cs, t)
  {
    assert forall c <- cs[1..] :: c in cs;
    PolyNonNegative(cs[1..], t);
    RealNonNegative(t, Poly(cs[1..], t));
  }

  lemma PolyOfSix(a0: real, a1: real, a2: real, a3: real, a4: real, a5: real, t: real)
    ensures Poly([a0, a1, a2, a3, a4, a5], t) == a0 + t * (a1 + t * (a2 + t * (a3 + t * (a4 + t * a5))))
  {
    assert [a5][1..] == [];
    assert Poly([a5], t) == a5;
    assert [a4, a5][1..] == [a5];
    assert [a3, a4, a5][1..] == [a4, a5];
    assert [a2, a3, a4, a5][1..] == [a3, a4, a5];
    assert [a1, a2, a3, a4, a5][1..] == [a2, a3, a4, a5];
    assert [a0, a1, a2, a3, a4, a5][1..] == [a1, a2, a3, a4, a5];
    assert Poly([a4, a5], t) == a4 + t * Poly([a5], t);
    assert Poly([a3, a4, a5], t) == a3 + t * Poly([a4, a5], t);
    assert Poly([a2, a3, a4, a5], t) == a2 + t * Poly([a3, a4, a5], t);
    assert Poly([a1, a2, a3, a4, a5], t) == a1 + t * Poly([a2, a3, a4, a5], t);
    assert Poly([a0, a1, a2, a3, a4, a5], t) == a0 + t * Poly([a1, a2, a3, a4, a5], t);
  }

  lemma UnrolledBend(x: real)
    ensures Bend(x)
         == ((((-54.476098798224 * x + 161.585836858041) * x - 155.698979859887) * x + 66.801311887720) * x
             - 13.280681552886) * x + 1.0
  {
    var h0 := Real(B[0]);
    var h1 := h0 * x + Real(B[1]);
    var h2 := h1 * x + Real(B[2]);
    var h3 := h2 * x + Real(B[3]);
    var h4 := h3 * x + Real(B[4]);
    assert RealHorner(h4, [], x) == h4;
    assert RealHorner(h3, [B[4]], x) == RealHorner(h4, [], x) by {
      assert [B[4]][1..] == [];
    }
    assert RealHorner(h2, [B[3], B[4]], x) == RealHorner(h3, [B[4]], x) by {
      assert [B[3], B[4]][1..] == [B[4]];
    }
    assert RealHorner(h1, [B[2], B[3], B[4]], x) == RealHorner(h2, [B[3], B[4]], x) by {
      assert [B[2], B[3], B[4]][1..] == [B[3], B[4]];
    }
    assert RealHorner(h0, B[1..], x) == RealHorner(h1, [B[2], B[3], B[4]], x) by {
      assert B[1..][1..] == [B[2], B[3], B[4]];
    }
  }

  lemma BendIs(x: real)
    ensures Bend(x) == RealHorner(Real(B[0]), B[1..], x) * x + Real(SCALE)
  {
    hide RealHorner, Real;
  }

  /** The denominator's polynomial written in the distance `t` from the end of the middle's range. */
  lemma BendFromEnd(t: real) returns (cs: seq<real>)
    ensures Bend(0.2263380625 - t) == Poly(cs, t)
    ensures cs != [] && 0.002 <= cs[0] && forall c <- cs :: 0.0 <= c
  {
    hide Bend, Poly;
    var r := 0.2263380625;
    var b0, b1, b2, b3, b4 := -54.476098798224, 161.585836858041, -155.698979859887, 66.801311887720, -13.280681552886;
    UnrolledBend(r - t);
    var c10, c11 := b0 * r + b1, -b0;
    TimesDistance(b0, 0.0, 0.0, 0.0, 0.0, r, t, b1);
    var c20, c21, c22 := c10 * r + b2, c11 * r - c10, -c11;
    TimesDistance(c10, c11, 0.0, 0.0, 0.0, r, t, b2);
    var c30, c31, c32, c33 := c20 * r + b3, c21 * r - c20, c22 * r - c21, -c22;
    TimesDistance(c20, c21, c22, 0.0, 0.0, r, t, b3);
    var c40, c41, c42, c43, c44 := c30 * r + b4, c31 * r - c30, c32 * r - c31, c33 * r - c32, -c33;
    TimesDistance(c30, c31, c32, c33, 0.0, r, t, b4);
    TimesDistance(c40, c41, c42, c43, c44, r, t, 1.0);
    cs := [c40 * r + 1.0, c41 * r - c40, c42 * r - c41, c43 * r - c42, c44 * r - c43, -c44];
    PolyOfSix(cs[0], cs[1], cs[2], cs[3], cs[4], cs[5], t);
    assert cs == [cs[0], cs[1], cs[2], cs[3], cs[4], cs[5]];
  }

  /** On the middle's range the denominator stays above two thousandths: every coefficient of that form is positive. */
  lemma BendPositive(x: real)
    requires 0.0 <= x <= 0.2263380625
    ensures 0.002 <= Bend(x)
  {
    hide Bend, Poly;
    var t := 0.2263380625 - x;
    assert 0.2263380625 - t == x;
    var cs := BendFromEnd(t);
    PolyAtLeast(cs, t);
  }

  /** The fixed-point denominator of the middle is positive. */
  lemma MiddleDenominator(r: int)
    requires 0 <= r <= MIDDLE_SQUARE
    ensures Horner(B, r).Ok? && MulFixed(Horner(B, r).value, r).Ok?
    ensures 0 < MulFixed(Horner(B, r).value, r).value + SCALE && Abs(MulFixed(Horner(B, r).value, r).value) <= 7 * REACH
  {
    hide Horner, MulFixed, Real, Near, Bend, RealHorner;
    BendNear(r);
    var bend := Horner(B, r).value;
    HornerStep(bend, r, REACH);
    BendIs(Real(r));
    NearStepTo(bend, r, RealHorner(Real(B[0]), B[1..], Real(r)), SCALE, Bend(Real(r)));
    MiddleArgument(r);
    BendPositive(Real(r));
    NearPositive(MulFixed(bend, r).value + SCALE, Bend(Real(r)));
  }

  lemma NearStepTo(acc: int, v: int, h: real, c: int, g: real)
    requires Near(acc, h) && 0 <= 4 * v <= SCALE && Abs(acc) <= REACH && g == h * Real(v) + Real(c)
    ensures MulFixed(acc, v).Ok? && Near(MulFixed(acc, v).value + c, g)
  {
    hide MulFixed, Real, Near;
    NearStep(acc, v, h, c);
  }

  lemma BendNear(r: int)
    requires 0 <= r <= MIDDLE_SQUARE
    ensures Horner(B, r).Ok? && Abs(Horner(B, r).value) <= REACH
    ensures Near(Horner(B, r).value, RealHorner(Real(B[0]), B[1..], Real(r)))
  {
    hide HornerFrom, RealHorner;
    assert Reach(0) == 300 * SCALE;
    HornerNear(B[0], B[1..], r, 0, Real(B[0]));
    HornerOk(B, r);
  }

  lemma MiddleArgument(r: int)
    requires 0 <= r <= MIDDLE_SQUARE
    ensures 0.0 <= Real(r) <= 0.2263380625
  {
  }

  lemma NearPositive(v: int, h: real)
    requires Near(v, h) && 0.002 <= h
    ensures 0 < v
  {
  }

  lemma MiddleSquare(q: int)
    requires -475_750_000_000 <= q <= 475_750_000_000
    ensures MulFixed(q, q).Ok? && 0 <= MulFixed(q, q).value <= MIDDLE_SQUARE
  {
    hide Rounded;
    AbsProduct(q, q, 475_750_000_000, 475_750_000_000);
    ProductRounded(q, q, 226_338_062_500_000_000_000_000);
    assert 0 <= q * q;
    RoundedNearest(q * q, SCALE);
  }

  /** The middle never fails. */
  lemma MiddleOk(q: int)
    requires -475_750_000_000 <= q <= 475_750_000_000
    ensures Middle(q).Ok? && Abs(Middle(q).value) <= I128_MAX
  {
    hide Horner, MulFixed, DivFixed;
    MiddleSquare(q);
    var r := MulFixed(q, q).value;
    HornerOk(A, r);
    HornerStep(Horner(A, r).value, q, REACH);
    MiddleDenominator(r);
    QuotientOk(MulFixed(Horner(A, r).value, q).value, MulFixed(Horner(B, r).value, r).value + SCALE);
  }

  /** The inverse normal exists for every draw, and rejects every other one. */
  lemma InverseNormalTotal(draw: int)
    requires 0 <= draw
    ensures if draw < DRAW_SCALE then InverseNormal(draw).Ok? else InverseNormal(draw) == Err(DrawOutOfRange(draw))
  {
    hide Tail, Middle, RoundDivSigned;
    if draw < DRAW_SCALE {
      Midpoint(draw);
      var p := (2 * draw + 1) * 500_000;
      if p < P_LOW {
        TailOk(p);
      } else if p > SCALE - P_LOW {
        TailOk(SCALE - p);
      } else {
        MiddleOk(p - SCALE / 2);
      }
    }
  }

  lemma MiddleOdd(q: int)
    requires -475_750_000_000 <= q <= 475_750_000_000
    ensures Middle(-q) == Negated(Middle(q))
  {
    hide Horner, MulFixed, RoundDivSigned;
    MiddleSquare(q);
    SquareFits(q);
    MulFixedOdd(q, q);
    var r := MulFixed(q, q).value;
    HornerOk(A, r);
    var slope := Horner(A, r).value;
    HornerStep(slope, q, REACH);
    SlopeFits(slope, q);
    MulFixedOdd(slope, q);
    MiddleDenominator(r);
    var n, d := MulFixed(slope, q).value, MulFixed(Horner(B, r).value, r).value + SCALE;
    RoundDivOdd(n * SCALE, d);
    assert -n * SCALE == -(n * SCALE);
  }

  lemma SquareFits(q: int)
    requires -475_750_000_000 <= q <= 475_750_000_000
    ensures InI128(q * q) && InI128(-(q * q))
  {
    AbsProduct(q, q, 475_750_000_000, 475_750_000_000);
  }

  lemma SlopeFits(slope: int, q: int)
    requires Abs(slope) <= REACH && Abs(q) <= SCALE
    ensures InI128(slope * q) && InI128(-(slope * q))
  {
    AbsProduct(slope, q, REACH, SCALE);
  }

  /** Mirrored draws give opposite values, over the whole draw range. */
  lemma InverseNormalOdd(draw: int)
    requires 0 <= draw < DRAW_SCALE
    ensures InverseNormal(draw).Ok? && InverseNormal(DRAW_SCALE - 1 - draw) == Ok(-InverseNormal(draw).value)
  {
    hide Tail, Middle, RoundDivSigned;
    var mirror := DRAW_SCALE - 1 - draw;
    InverseNormalTotal(draw);
    Midpoint(draw);
    Midpoint(mirror);
    var p := (2 * draw + 1) * 500_000;
    assert (2 * mirror + 1) * 500_000 == SCALE - p;
    if p < P_LOW {
      TailOk(p);
    } else if p > SCALE - P_LOW {
      TailOk(SCALE - p);
    } else {
      MiddleOk(p - SCALE / 2);
      MiddleOdd(p - SCALE / 2);
    }
  }
}
