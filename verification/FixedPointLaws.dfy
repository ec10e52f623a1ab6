/** Laws of the kernel over whole ranges of arguments: how the logarithm and the exponential double, and how near their
    series are to the polynomials they stand for. */
module FixedPointLaws {
  import opened Numbers
  import opened Products
  import opened IntegerSqrt
  import opened FixedPoint
  import opened FixedPointRange

  // ---- doubling the argument of the logarithm

  /** Doubling does not depend on the power it starts from. */
  lemma {:induction false} ScaleUpShift(m: int, p: int, q: int)
    requires 0 < m && ScaleUp(m, p).Ok? && ScaleUp(m, q).Ok?
    ensures ScaleUp(m, q).value == Normal(ScaleUp(m, p).value.mantissa, ScaleUp(m, p).value.power - p + q)
    decreases SCALE - m
  {
    if m < SCALE {
      ScaleUpShift(m * 2, p - 1, q - 1);
    }
  }

  lemma {:induction false} ScaleDownShift(m: int, p: int, q: int)
    requires 0 < m && ScaleDown(m, p).Ok? && ScaleDown(m, q).Ok?
    ensures ScaleDown(m, q).value == Normal(ScaleDown(m, p).value.mantissa, ScaleDown(m, p).value.power - p + q)
    decreases m
  {
    hide RoundDivSigned, Rounded;
    if m >= SCALE * 2 {
      HalfIs(m);
      ScaleDownShift(RoundDivSigned(m, 2).value, p + 1, q + 1);
    }
  }

  /** Twice the value has the same mantissa and the next power. */
  lemma NormalDoubles(value: int)
    requires 0 < value && 2 * value <= I128_MAX
    ensures Normalize(value).Ok? && Normalize(2 * value).Ok?
    ensures Normalize(2 * value).value == Normal(Normalize(value).value.mantissa, Normalize(value).value.power + 1)
  {
    hide RoundDivSigned, Rounded;
    NormalRange(value);
    NormalRange(2 * value);
    ScaleUpPositive(value, 0);
    ScaleUpPositive(2 * value, 0);
    if value < SCALE {
      assert ScaleUp(value, 0) == ScaleUp(2 * value, -1);
      ScaleUpShift(2 * value, -1, 0);
      var up := ScaleUp(value, 0).value;
      ScaleDownShift(up.mantissa, up.power, up.power + 1);
    } else {
      HalfOfDouble(value);
      assert ScaleDown(2 * value, 0) == ScaleDown(value, 1);
      ScaleDownShift(value, 0, 1);
    }
  }

  lemma HalfOfDouble(m: int)
    requires 0 < m && 2 * m <= I128_MAX
    ensures RoundDivSigned(2 * m, 2) == Ok(m)
  {
    RoundDivOk(2 * m, 2);
  }

  /** Doubling the argument adds exactly the logarithm of two. */
  lemma LogDoubles(value: int)
    requires 0 < value && 2 * value <= I128_MAX
    ensures NaturalLog(value).Ok? && NaturalLog(2 * value) == Ok(NaturalLog(value).value + 693_147_180_560)
  {
    hide Normalize, DivFixed, MulFixed, LogSeries;
    LogRange(value);
    LogRange(2 * value);
    NormalDoubles(value);
  }

  // ---- adding the logarithm of two to the argument of the exponential

  /** The one argument whose reduction is a tie, and still one after adding the logarithm of two. */
  const TIE := -346_573_590_280

  /** Rounding by ln 2 steps with its argument, except across the tie. */
  lemma RoundedSteps(value: int)
    ensures Rounded(value + LN_2, LN_2) == Rounded(value, LN_2) + (if value == TIE then 2 else 1)
  {
  }

  /** Rounding a quotient by twice as much and doubling it is off by at most one. */
  lemma RoundedHalves(n: int, d: int)
    requires 0 < d
    ensures Abs(2 * Rounded(n, 2 * d) - Rounded(n, d)) <= 1
  {
    hide Rounded;
    RoundedNearest(n, d);
    RoundedNearest(n, 2 * d);
    HalvesWithin(d, Rounded(n, 2 * d), Rounded(n, d), n);
  }

  lemma HalvesWithin(d: int, a: int, b: int, n: int)
    requires 0 < d && 2 * Abs(2 * d * a - n) <= 2 * d && 2 * Abs(d * b - n) <= d
    ensures Abs(2 * a - b) <= 1
  {
    assert d * (2 * a - b) == 2 * d * a - d * b;
    GapWithin(d, 2 * a - b, 2 * d * a, d * b, n);
  }

  lemma GapWithin(d: int, gap: int, x: int, y: int, n: int)
    requires 0 < d && d * gap == x - y && 2 * Abs(x - n) <= 2 * d && 2 * Abs(y - n) <= d
    ensures Abs(gap) <= 1
  {
    if gap >= 2 {
      MulOrder(2, gap, d);
    } else if gap <= -2 {
      MulOrder(2, -gap, d);
    }
  }

  /** One power more doubles the result, exactly from power zero up and to within a unit below. */
  lemma ShiftDoubles(sum: int, power: int)
    requires 0 < sum <= 2 * SCALE
    ensures ShiftBack(sum, power).Ok? && ShiftBack(sum, power + 1).Ok? ==>
      Abs(2 * ShiftBack(sum, power).value - ShiftBack(sum, power + 1).value) <= 1
  {
    hide Rounded, Pow2;
    Pow2Base();
    if 0 <= power {
      Pow2Next(power);
      assert sum * (2 * Pow2(power)) == 2 * (sum * Pow2(power));
    } else if power == -1 {
      Pow2Next(0);
      RoundDivOk(sum, 2);
      RoundedHalves(sum, 1);
      RoundedWhole(sum);
    } else if -127 < power {
      Pow2Next(-power - 1);
      RoundDivOk(sum, Pow2(-power));
      RoundDivOk(sum, Pow2(-power - 1));
      RoundedHalves(sum, Pow2(-power - 1));
    } else if power == -127 {
      RoundDivOk(sum, Pow2(126));
      Pow2Large();
      Pow2Next(126);
      TinyRounds(sum, Pow2(126));
    }
  }

  lemma RoundedWhole(n: int)
    ensures Rounded(n, 1) == n
  {
  }

  lemma TinyRounds(n: int, d: int)
    requires 0 <= n && 4 * n < d
    ensures Rounded(n, d) == 0
  {
    QuotientUnique(d, n / d, n % d, 0, n);
  }

  lemma ExpStep(term: int, sum: int, reduced: int, divisor: nat, next: int)
    requires 1 <= divisor <= EXP_TERMS && Abs(term) <= SCALE && Abs(reduced) <= SCALE && 0 <= sum <= 2 * SCALE
    requires next == Rounded(Rounded(term * reduced, SCALE), divisor)
    ensures ExpSeries(term, sum, reduced, divisor)
         == if next == 0 then Ok(sum) else ExpSeries(next, sum + next, reduced, divisor + 1)
  {
    hide Rounded, MulFixed, RoundDivSigned;
    AbsProduct(term, reduced, SCALE, SCALE);
    ProductRounded(term, reduced, SCALE * SCALE);
    var product := Rounded(term * reduced, SCALE);
    RoundedNearest(term * reduced, SCALE);
    RoundDivOk(product, divisor);
    RoundedNearest(product, divisor);
  }

  lemma SeriesAboveTie()
    ensures ExpSeries(SCALE, SCALE, 346_573_590_280, 1) == Ok(1_414_213_562_373)
  {
    hide ExpSeries;
    var reduced := 346_573_590_280;
    ExpStep(SCALE, SCALE, reduced, 1, 346_573_590_280);
    ExpStep(346_573_590_280, 1_346_573_590_280, reduced, 2, 60_056_626_740);
    ExpStep(60_056_626_740, 1_406_630_217_020, reduced, 3, 6_938_013_583);
    ExpStep(6_938_013_583, 1_413_568_230_603, reduced, 4, 601_133_069);
    ExpStep(601_133_069, 1_414_169_363_672, reduced, 5, 41_667_369);
    ExpStep(41_667_369, 1_414_211_031_041, reduced, 6, 2_406_802);
    ExpStep(2_406_802, 1_414_213_437_843, reduced, 7, 119_162);
    ExpStep(119_162, 1_414_213_557_005, reduced, 8, 5_162);
    ExpStep(5_162, 1_414_213_562_167, reduced, 9, 199);
    ExpStep(199, 1_414_213_562_366, reduced, 10, 7);
    ExpStep(7, 1_414_213_562_373, reduced, 11, 0);
  }

  lemma SeriesBelowTie()
    ensures ExpSeries(SCALE, SCALE, -346_573_590_280, 1) == Ok(707_106_781_187)
  {
    hide ExpSeries;
    var reduced := -346_573_590_280;
    ExpStep(SCALE, SCALE, reduced, 1, -346_573_590_280);
    ExpStep(-346_573_590_280, 653_426_409_720, reduced, 2, 60_056_626_740);
    ExpStep(60_056_626_740, 713_483_036_460, reduced, 3, -6_938_013_583);
    ExpStep(-6_938_013_583, 706_545_022_877, reduced, 4, 601_133_069);
    ExpStep(601_133_069, 707_146_155_946, reduced, 5, -41_667_369);
    ExpStep(-41_667_369, 707_104_488_577, reduced, 6, 2_406_802);
    ExpStep(2_406_802, 707_106_895_379, reduced, 7, -119_162);
    ExpStep(-119_162, 707_106_776_217, reduced, 8, 5_162);
    ExpStep(5_162, 707_106_781_379, reduced, 9, -199);
    ExpStep(-199, 707_106_781_180, reduced, 10, 7);
    ExpStep(7, 707_106_781_187, reduced, 11, 0);
  }

  /** Both sides of the tie: a half of the square root of two, and the square root of two. */
  lemma ExpAtTie()
    ensures Exp(TIE) == Ok(707_106_781_187) && Exp(TIE + LN_2) == Ok(1_414_213_562_374)
  {
    hide ExpSeries, Pow2;
    SeriesAboveTie();
    SeriesBelowTie();
    Pow2Base();
    Pow2Next(0);
    assert Rounded(TIE, LN_2) == -1 && Rounded(TIE + LN_2, LN_2) == 1;
  }

  /** Adding the logarithm of two to any argument doubles the exponential, to within a unit, wherever both exist; they do on
      the whole moderate range. */
  lemma ExpDoubles(value: int)
    requires InI128(value) && InI128(value + 693_147_180_560)
    ensures Exp(value).Ok? && Exp(value + 693_147_180_560).Ok? ==>
      Abs(2 * Exp(value).value - Exp(value + 693_147_180_560).value) <= 1
    ensures -1_000 * SCALE <= value <= 4 * SCALE ==> Exp(value).Ok? && Exp(value + 693_147_180_560).Ok?
  {
    hide Exp;
    ExpRange(value);
    ExpRange(value + LN_2);
    if value == TIE {
      ExpAtTie();
    } else {
      ExpDoublesBeside(value);
    }
  }

  lemma ExpDoublesBeside(value: int)
    requires InI128(value) && InI128(value + LN_2) && value != TIE
    ensures Exp(value).Ok? && Exp(value + LN_2).Ok? ==> Abs(2 * Exp(value).value - Exp(value + LN_2).value) <= 1
  {
    hide Rounded, RoundDivSigned, ExpSeries, ShiftBack;
    var next := value + LN_2;
    RoundedSteps(value);
    if InI128(Abs(value)) && InI128(Abs(next)) {
      ReducedRange(value);
      ReducedRange(next);
      var power := Rounded(value, LN_2);
      assert next - (power + 1) * LN_2 == value - power * LN_2;
      ExpSeriesRange(SCALE, SCALE, value - power * LN_2, 1);
      ShiftDoubles(ExpSeries(SCALE, SCALE, value - power * LN_2, 1).value, power);
    } else if !InI128(Abs(value)) {
      RoundDivFails(value);
    }
  }
}
