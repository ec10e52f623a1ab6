/** The line-break chance as published: 0.81% at one and a half times the line strength, in any units, never more than 1.7% up
    to twice, never less from there on, and for every ratio the formula with each of its roundings. */
module LineBreakTurn {
  import opened Numbers
  import opened Products
  import opened IntegerSqrt
  import opened FixedPoint
  import opened FixedPointRange
  import opened FixedPointLaws
  import opened LineBreak
  import opened FixedPointAnchors

  // ---- one and a half times the strength

  lemma LogOfHalf()
    ensures NaturalLog(500_000_000_000) == Ok(-693_147_180_560)
  {
    hide NaturalLog;
    LogOfOne();
    LogDoubles(500_000_000_000);
  }

  lemma SeriesOfHalf()
    ensures ExpSeries(SCALE, SCALE, -207_944_154_168, 1) == Ok(812_252_396_357)
  {
    hide ExpSeries;
    var reduced := -207_944_154_168;
    ExpStep(SCALE, SCALE, reduced, 1, -207_944_154_168);
    ExpStep(-207_944_154_168, 792_055_845_832, reduced, 2, 21_620_385_627);
    ExpStep(21_620_385_627, 813_676_231_459, reduced, 3, -1_498_610_934);
    ExpStep(-1_498_610_934, 812_177_620_525, reduced, 4, 77_906_846);
    ExpStep(77_906_846, 812_255_527_371, reduced, 5, -3_240_055);
    ExpStep(-3_240_055, 812_252_287_316, reduced, 6, 112_292);
    ExpStep(112_292, 812_252_399_608, reduced, 7, -3_336);
    ExpStep(-3_336, 812_252_396_272, reduced, 8, 87);
    ExpStep(87, 812_252_396_359, reduced, 9, -2);
    ExpStep(-2, 812_252_396_357, reduced, 10, 0);
  }

  /** A half to the power 1.3. */
  lemma PowerOfHalf()
    ensures PowPositive(500_000_000_000, 13, 10) == Ok(406_126_198_179)
  {
    hide NaturalLog, ExpSeries, Pow2;
    LogOfHalf();
    SeriesOfHalf();
    Pow2Base();
    Pow2Next(0);
    assert Rounded(-9_010_913_347_280, 10) == -901_091_334_728;
    assert Rounded(-901_091_334_728, LN_2) == -1;
  }

  /** A catch of one and a half times the line strength breaks the line in 0.8092% of casts, 0.7283% with the Sturdy bait,
      whatever the units. */
  lemma OneAndAHalf(half: int, sturdy: bool)
    requires 0 < half && InU128(half * SCALE)
    ensures PreviewLineBreakChance(3 * half, 2 * half, sturdy)
         == Ok(LineBreakChance(sturdy, false, 8_092, if sturdy then 7_283 else 8_092))
  {
    hide RawProbability;
    RawAtHalf(half);
    assert (3 * half - 2 * half) / (2 * half) == 0;
  }

  lemma RawAtHalf(half: int)
    requires 0 < half && InU128(half * SCALE)
    ensures RawProbability(half, 2 * half) == Ok(8_091_892_973)
  {
    hide PowPositive;
    HalfExcess(half);
    PowerOfHalf();
  }

  lemma HalfExcess(half: int)
    requires 0 < half && InU128(half * SCALE)
    ensures RoundDivUnsigned(half * SCALE, 2 * half) == Ok(500_000_000_000)
  {
    var (n, d) := (half * SCALE, 2 * half);
    QuotientUnique(d, n / d, n % d, 500_000_000_000, 0);
  }

  // ---- logarithms of at most one are not positive

  lemma RoundedOrder(n: int, n': int, d: int)
    requires 0 < d && n <= n'
    ensures Rounded(n, d) <= Rounded(n', d)
  {
    hide Rounded;
    RoundedNearest(n, d);
    RoundedNearest(n', d);
    var a, b := Rounded(n, d), Rounded(n', d);
    if b < a {
      MulOrder(b + 1, a, d);
      MulAdd(d, b, 1);
    }
  }

  /** The series of the logarithm grows with its argument. */
  lemma {:induction false} LogSeriesOrder(term: int, square: int, index: nat, series: int, term': int, square': int,
                                          series': int, bound: int)
    requires index <= LOG_TERMS && 0 <= term <= term' <= SCALE && 0 <= square <= square' && 9 * square' <= SCALE + 9
    requires 0 <= series <= series' && series' + 2 * term' + 4 * (LOG_TERMS - index) <= bound <= 4 * SCALE
    ensures LogSeries(term, square, index, series).Ok? && LogSeries(term', square', index, series').Ok?
    ensures LogSeries(term, square, index, series).value <= LogSeries(term', square', index, series').value
    decreases LOG_TERMS - index
  {
    hide Rounded, MulFixed, RoundDivSigned, LogSeries;
    if index == LOG_TERMS {
      LogSeriesEnd(term, square, series);
      LogSeriesEnd(term', square', series');
    } else {
      var d := 2 * index + 1;
      LogSeriesStep(term, square, index, series);
      LogSeriesStep(term', square', index, series');
      RoundDivOk(term, d);
      RoundDivOk(term', d);
      RoundedNearest(term, d);
      RoundedNearest(term', d);
      RoundedOrder(term, term', d);
      NextTerm(term, square);
      NextTerm(term', square');
      MulOrder(term, term', square);
      MulOrder(square, square', term');
      RoundedOrder(term * square, term' * square', SCALE);
      LogSeriesOrder(Rounded(term * square, SCALE), square, index + 1, series + Rounded(term, d),
                     Rounded(term' * square', SCALE), square', series' + Rounded(term', d), bound);
    }
  }

  /** The largest value of the series: half of ln 2, less two units. */
  lemma LargestSeries()
    ensures LogSeries(333_333_333_333, 111_111_111_111, 0, 0) == Ok(346_573_590_278)
  {
    hide LogSeries;
    var square := 111_111_111_111;
    LogStep(333_333_333_333, square, 0, 0, 333_333_333_333, 37_037_037_037);
    LogStep(37_037_037_037, square, 1, 333_333_333_333, 12_345_679_012, 4_115_226_337);
    LogStep(4_115_226_337, square, 2, 345_679_012_345, 823_045_267, 457_247_371);
    LogStep(457_247_371, square, 3, 346_502_057_612, 65_321_053, 50_805_263);
    LogStep(50_805_263, square, 4, 346_567_378_665, 5_645_029, 5_645_029);
    LogStep(5_645_029, square, 5, 346_573_023_694, 513_184, 627_225);
    LogStep(627_225, square, 6, 346_573_536_878, 48_248, 69_692);
    LogStep(69_692, square, 7, 346_573_585_126, 4_646, 7_744);
    LogStep(7_744, square, 8, 346_573_589_772, 456, 860);
    LogStep(860, square, 9, 346_573_590_228, 45, 96);
    LogStep(96, square, 10, 346_573_590_273, 5, 11);
    LogStep(11, square, 11, 346_573_590_278, 0, 1);
    LogStep(1, square, 12, 346_573_590_278, 0, 0);
    LogRest(square, 13, 346_573_590_278);
  }

  /** The logarithm has the sign of the value against one. */
  lemma LogSign(value: int)
    requires 0 < value <= I128_MAX
    ensures NaturalLog(value).Ok?
    ensures value <= SCALE ==> NaturalLog(value).value <= 0
    ensures SCALE <= value ==> 0 <= NaturalLog(value).value
  {
    hide NaturalLog, Normalize;
    LogRange(value);
    NormalRange(value);
    if value < SCALE {
      LogBelowOne(value);
    } else if value == SCALE {
      LogOfOne();
    } else {
      ScaleDownRises(value, 0);
    }
  }

  lemma {:induction false} ScaleDownRises(m: int, power: int)
    requires 0 < m
    ensures ScaleDown(m, power).Ok? ==> power <= ScaleDown(m, power).value.power
    decreases m
  {
    hide RoundDivSigned, Rounded;
    if m >= SCALE * 2 && RoundDivSigned(m, 2).Ok? {
      HalfIs(m);
      ScaleDownRises(RoundDivSigned(m, 2).value, power + 1);
    }
  }

  lemma LogBelowOne(value: int)
    requires 0 < value < SCALE
    ensures NaturalLog(value).Ok? && NaturalLog(value).value <= 0
  {
    hide Normalize, DivFixed, MulFixed, LogSeries, Rounded;
    LogRange(value);
    NormalRange(value);
    var m := Normalize(value).value.mantissa;
    SeriesArgument(m);
    var y := Rounded((m - SCALE) * SCALE, m + SCALE);
    SquareRange(y);
    MulOrder(y, 333_333_333_333, y);
    MulOrder(y, 333_333_333_333, 333_333_333_333);
    RoundedOrder(y * y, 333_333_333_333 * 333_333_333_333, SCALE);
    SquareOfThird();
    LogSeriesOrder(y, Rounded(y * y, SCALE), 0, 0, 333_333_333_333, 111_111_111_111, 0, 666_666_666_800);
    LargestSeries();
  }

  lemma SquareOfThird()
    ensures Rounded(333_333_333_333 * 333_333_333_333, SCALE) == 111_111_111_111
  {
  }

  // ---- powers around one

  /** What is still to be added is small against the last term. */
  lemma {:induction false} ExpSeriesTail(term: int, sum: int, reduced: int, divisor: nat)
    requires 1 <= divisor <= EXP_TERMS + 1 && Abs(reduced) <= HALF_LN_2 && Abs(term) <= SCALE && Abs(sum) <= 4 * SCALE
    requires 20 * Abs(sum) + 11 * Abs(term) + 16 * (EXP_TERMS + 1 - divisor) <= 80 * SCALE
    ensures ExpSeries(term, sum, reduced, divisor).Ok?
    ensures 20 * Abs(ExpSeries(term, sum, reduced, divisor).value - sum)
         <= 11 * Abs(term) + 16 * (EXP_TERMS + 1 - divisor)
    decreases EXP_TERMS + 1 - divisor
  {
    hide MulFixed, RoundDivSigned, Rounded;
    if divisor <= EXP_TERMS {
      ExpTerm(term, reduced, divisor);
      var next := Rounded(Rounded(term * reduced, SCALE), divisor);
      if next != 0 {
        ExpSeriesTail(next, sum + next, reduced, divisor + 1);
      }
    }
  }

  /** The series is at least one plus its argument, and at most one for a negative argument, up to thirty units. */
  lemma ExpSeriesSign(reduced: int)
    requires Abs(reduced) <= HALF_LN_2
    ensures ExpSeries(SCALE, SCALE, reduced, 1).Ok?
    ensures var sum := ExpSeries(SCALE, SCALE, reduced, 1).value;
      SCALE + reduced - 30 <= sum && (reduced <= 0 ==> sum <= SCALE + 30)
  {
    hide ExpSeries, Rounded;
    FirstTerm(reduced);
    ExpStep(SCALE, SCALE, reduced, 1, reduced);
    if reduced != 0 {
      var next := Rounded(Rounded(reduced * reduced, SCALE), 2);
      ExpTerm(reduced, reduced, 2);
      SecondTerm(reduced);
      ExpStep(reduced, SCALE + reduced, reduced, 2, next);
      if next != 0 {
        ExpSeriesTail(next, SCALE + reduced + next, reduced, 3);
      }
    }
  }

  lemma FirstTerm(reduced: int)
    ensures Rounded(Rounded(SCALE * reduced, SCALE), 1) == reduced
  {
  }

  lemma SecondTerm(reduced: int)
    ensures 0 <= Rounded(Rounded(reduced * reduced, SCALE), 2)
  {
    hide Rounded;
    SquareNonNegative(reduced);
    RoundedNearest(reduced * reduced, SCALE);
    RoundedNearest(Rounded(reduced * reduced, SCALE), 2);
  }

  lemma SquareNonNegative(x: int)
    ensures 0 <= x * x
  {
  }

  /** The exponential is at most one for an argument that is not positive and at least one otherwise, up to thirty units. */
  lemma ExpSign(value: int)
    requires -1_000 * SCALE <= value <= 5 * SCALE
    ensures Exp(value).Ok?
    ensures value <= 0 ==> Exp(value).value <= SCALE + 30
    ensures 0 <= value ==> SCALE - 30 <= Exp(value).value
  {
    hide Rounded, RoundDivSigned, ExpSeries, ShiftBack;
    ExpRange(value);
    ReducedRange(value);
    RoundedNearest(value, LN_2);
    var power := Rounded(value, LN_2);
    var reduced := value - power * LN_2;
    ExpSeriesSign(reduced);
    ExpSeriesRange(SCALE, SCALE, reduced, 1);
    ShiftSign(ExpSeries(SCALE, SCALE, reduced, 1).value, power, reduced);
  }

  lemma ShiftSign(sum: int, power: int, reduced: int)
    requires 0 < sum <= 2 * SCALE && Abs(reduced) <= HALF_LN_2 && ShiftBack(sum, power).Ok?
    requires SCALE + reduced - 30 <= sum && (reduced <= 0 ==> sum <= SCALE + 30)
    ensures power < 0 || (power == 0 && reduced <= 0) ==> ShiftBack(sum, power).value <= SCALE + 30
    ensures 0 < power || (power == 0 && 0 <= reduced) ==> SCALE - 30 <= ShiftBack(sum, power).value
  {
    hide Rounded, Pow2;
    Pow2Base();
    if power > 0 {
      Pow2Next(power - 1);
      MulOrder(2, Pow2(power), sum);
    } else if -127 < power < 0 {
      Pow2Next(-power - 1);
      RoundDivOk(sum, Pow2(-power));
      HalfAtMost(sum, Pow2(-power));
    }
  }

  lemma HalfAtMost(sum: int, d: int)
    requires 0 < sum <= 2 * SCALE && 2 <= d
    ensures Rounded(sum, d) <= SCALE + 30
  {
    hide Rounded;
    RoundedNearest(sum, d);
    if Rounded(sum, d) > SCALE + 30 {
      MulOrder(SCALE + 31, Rounded(sum, d), d);
    }
  }

  /** Powers of at most one are at most one, and of at least one at least one, up to thirty units. */
  lemma PowerSign(value: int)
    requires 0 < value <= 6 * SCALE + 1
    ensures PowPositive(value, 13, 10).Ok?
    ensures value <= SCALE ==> PowPositive(value, 13, 10).value <= SCALE + 30
    ensures SCALE <= value ==> SCALE - 30 <= PowPositive(value, 13, 10).value
  {
    hide NaturalLog, Exp, Rounded;
    LogUpTo(value);
    LogSign(value);
    var scaled := NaturalLog(value).value * 13;
    RoundDivOk(scaled, 10);
    RoundedNearest(scaled, 10);
    ExpSign(Rounded(scaled, 10));
  }

  // ---- the turn at twice the strength

  lemma ExcessSign(excess: int, denominator: int)
    requires 0 < excess && 0 < denominator && InU128(excess * SCALE)
    ensures excess <= denominator ==> Rounded(excess * SCALE, denominator) <= SCALE
    ensures denominator <= excess ==> SCALE <= Rounded(excess * SCALE, denominator)
  {
    hide Rounded;
    RoundedNearest(denominator * SCALE, denominator);
    WholeQuotient(denominator);
    if excess <= denominator {
      RoundedOrder(excess * SCALE, denominator * SCALE, denominator);
    }
    if denominator <= excess {
      RoundedOrder(denominator * SCALE, excess * SCALE, denominator);
    }
  }

  lemma WholeQuotient(d: int)
    requires 0 < d
    ensures Rounded(d * SCALE, d) == SCALE
  {
    var n := d * SCALE;
    QuotientUnique(d, n / d, n % d, SCALE, 0);
  }

  lemma RawSign(excess: int, denominator: int)
    requires 0 < excess && 0 < denominator && excess / denominator < SHORT_CIRCUIT_EXCESS && InU128(excess * SCALE)
    ensures RawProbability(excess, denominator).Ok?
    ensures excess <= denominator ==> RawProbability(excess, denominator).value <= 17_000_000_001
    ensures denominator <= excess ==> 16_999_999_999 <= RawProbability(excess, denominator).value
  {
    hide Rounded, PowPositive, RoundDivUnsigned, MulFixed;
    RawRange(excess, denominator);
    ScaledExcess(excess, denominator);
    ExcessSign(excess, denominator);
    var scaled := Rounded(excess * SCALE, denominator);
    if scaled != 0 {
      PowRange(scaled);
      PowerSign(scaled);
    }
    var powered := if scaled == 0 then 0 else PowPositive(scaled, 13, 10).value;
    ProductRounded(COEFFICIENT_FIXED, powered, COEFFICIENT_FIXED * powered);
    RoundedNearest(COEFFICIENT_FIXED * powered, SCALE);
  }

  /** Up to twice the line strength the line breaks in at most 1.7% of casts, and from there on in at least 1.7%. */
  lemma TurnAtTwice(numerator: int, denominator: int, sturdy: bool)
    requires InU128(numerator) && 0 < denominator < numerator
    requires PreviewLineBreakChance(numerator, denominator, sturdy).Ok?
    ensures var chance := PreviewLineBreakChance(numerator, denominator, sturdy).value;
      && (numerator <= 2 * denominator ==> chance.basePpm <= 17_000)
      && (2 * denominator <= numerator ==> 17_000 <= chance.basePpm)
  {
    hide RawProbability, FinalProbability;
    var excess := numerator - denominator;
    if excess / denominator < SHORT_CIRCUIT_EXCESS {
      RawRange(excess, denominator);
      RawSign(excess, denominator);
    } else {
      assert denominator < excess by {
        assert excess == denominator * (excess / denominator) + excess % denominator;
        MulOrder(6, excess / denominator, denominator);
      }
    }
  }

  // ---- the whole formula

  /** A whole number nearest to a quotient. */
  predicate Nearest(q: int, n: int, d: int) {
    2 * Abs(d * q - n) <= d
  }

  /** The base probability of a ratio past the short circuit is the cap; below it, it is 0.002 and 0.015 times the 1.3 power of
      the excess, up to the cap, where excess, exponent and product are each rounded to nearest. */
  ghost predicate BaseForm(excess: int, denominator: int, base: int, scaled: int, exponent: int, powered: int)
    requires 0 < denominator
  {
    if excess / denominator >= 6 then base == 150_000_000_000
    else
      && Nearest(scaled, excess * 1_000_000_000_000, denominator)
      && (if scaled == 0 then powered == 0
          else NaturalLog(scaled).Ok? && Nearest(exponent, 13 * NaturalLog(scaled).value, 10) && Exp(exponent) == Ok(powered))
      && exists term :: Nearest(term, 15_000_000_000 * powered, 1_000_000_000_000)
           && base == Min(2_000_000_000 + term, 150_000_000_000)
  }

  /** Every chance is the published formula, rounded once more to parts per million, and nine tenths of it with Sturdy. */
  lemma ChanceForm(numerator: int, denominator: int, sturdy: bool)
    returns (base: int, scaled: int, exponent: int, powered: int)
    requires InU128(numerator) && 0 < denominator < numerator
    requires PreviewLineBreakChance(numerator, denominator, sturdy).Ok?
    ensures BaseForm(numerator - denominator, denominator, base, scaled, exponent, powered)
    ensures var chance := PreviewLineBreakChance(numerator, denominator, sturdy).value;
      && Nearest(chance.basePpm, base, 1_000_000)
      && (if sturdy then 2 * Abs(10_000_000 * chance.finalPpm - 9 * base) <= 10_000_010
          else chance.finalPpm == chance.basePpm)
  {
    hide RawProbability, Rounded, BaseForm;
    var excess := numerator - denominator;
    scaled, exponent, powered, base := 0, 0, 0, MAX_FIXED;
    if excess / denominator < SHORT_CIRCUIT_EXCESS {
      RawRange(excess, denominator);
      base, scaled, exponent, powered := RawForm(excess, denominator);
    } else {
      CappedForm(excess, denominator);
    }
    FinalForm(base, sturdy);
  }

  lemma CappedForm(excess: int, denominator: int)
    requires 0 < denominator && excess / denominator >= 6
    ensures BaseForm(excess, denominator, MAX_FIXED, 0, 0, 0)
  {
  }

  lemma RawForm(excess: int, denominator: int) returns (base: int, scaled: int, exponent: int, powered: int)
    requires 0 < excess && 0 < denominator && excess / denominator < SHORT_CIRCUIT_EXCESS && InU128(excess * SCALE)
    ensures RawProbability(excess, denominator).Ok? && base == Min(RawProbability(excess, denominator).value, MAX_FIXED)
    ensures BaseForm(excess, denominator, base, scaled, exponent, powered) && BASE_FIXED <= base
  {
    hide Rounded, NaturalLog, Exp, RoundDivUnsigned, MulFixed;
    RawRange(excess, denominator);
    ScaledExcess(excess, denominator);
    RoundedNearest(excess * SCALE, denominator);
    scaled := Rounded(excess * SCALE, denominator);
    exponent, powered := 0, 0;
    if scaled != 0 {
      LogUpTo(scaled);
      PowRange(scaled);
      RoundDivOk(NaturalLog(scaled).value * 13, 10);
      RoundedNearest(NaturalLog(scaled).value * 13, 10);
      exponent := Rounded(NaturalLog(scaled).value * 13, 10);
      powered := PowPositive(scaled, 13, 10).value;
    }
    ProductRounded(COEFFICIENT_FIXED, powered, COEFFICIENT_FIXED * powered);
    RoundedNearest(COEFFICIENT_FIXED * powered, SCALE);
    var term := Rounded(COEFFICIENT_FIXED * powered, SCALE);
    base := Min(RawProbability(excess, denominator).value, MAX_FIXED);
    assert Nearest(term, 15_000_000_000 * powered, 1_000_000_000_000);
  }

  lemma FinalForm(base: int, sturdy: bool)
    requires BASE_FIXED <= base <= MAX_FIXED
    ensures Ppm(base).Ok? && Nearest(Ppm(base).value, base, 1_000_000)
    ensures FinalProbability(base, sturdy).Ok? && 0 <= FinalProbability(base, sturdy).value
    ensures Ppm(FinalProbability(base, sturdy).value).Ok?
    ensures var final := Ppm(FinalProbability(base, sturdy).value).value;
      if sturdy then 2 * Abs(10_000_000 * final - 9 * base) <= 10_000_010 else final == Ppm(base).value
  {
    hide Rounded;
    SturdyRange(base);
    var final := FinalProbability(base, sturdy).value;
    PpmRange(base, final);
    RoundDivUnsignedRange(base, FIXED_PER_PPM);
    RoundDivUnsignedRange(final, FIXED_PER_PPM);
    RoundDivUnsignedRange(base * STURDY_NUMERATOR, STURDY_DENOMINATOR);
  }
}
