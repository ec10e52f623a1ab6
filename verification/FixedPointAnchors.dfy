/** The kernel at known points: one is a fixed point of every power, a ratio of two has the published chance, and the
    published power of six is reached to the last digit. */
module FixedPointAnchors {
  import opened Numbers
  import opened Products
  import opened IntegerSqrt
  import opened FixedPoint
  import opened FixedPointRange
  import opened FixedPointLaws
  import opened LineBreak

  // ---- steps of the two series

  lemma LogStep(term: int, square: int, index: nat, series: int, part: int, next: int)
    requires index < LOG_TERMS && 0 <= term <= SCALE && 0 <= square <= SCALE && 0 <= series <= SCALE
    requires part == Rounded(term, 2 * index + 1) && next == Rounded(term * square, SCALE)
    ensures LogSeries(term, square, index, series) == LogSeries(next, square, index + 1, series + part)
  {
    hide Rounded, MulFixed, RoundDivSigned, LogSeries;
    MulNonNegative(term, square);
    MulOrder(term, SCALE, square);
    RoundDivOk(term, 2 * index + 1);
    RoundedNearest(term, 2 * index + 1);
    ProductRounded(term, square, SCALE * SCALE);
    LogSeriesStep(term, square, index, series);
  }

  lemma {:induction false} LogRest(square: int, index: nat, series: int)
    requires index <= LOG_TERMS && 0 <= square <= SCALE && 0 <= series <= SCALE
    ensures LogSeries(0, square, index, series) == Ok(series)
    decreases LOG_TERMS - index
  {
    hide Rounded, MulFixed, RoundDivSigned, LogSeries;
    if index == LOG_TERMS {
      LogSeriesEnd(0, square, series);
    } else {
      ZeroRounds(2 * index + 1);
      ZeroRounds(SCALE);
      LogStep(0, square, index, series, 0, 0);
      LogRest(square, index + 1, series);
    }
  }

  lemma ZeroRounds(d: int)
    requires 0 < d
    ensures Rounded(0, d) == 0
  {
  }

  // ---- one

  lemma LogOfOne()
    ensures NaturalLog(SCALE) == Ok(0)
  {
    hide LogSeries;
    assert Normalize(SCALE) == Ok(Normal(SCALE, 0));
    LogRest(0, 0, 0);
  }

  lemma ExpOfZero()
    ensures Exp(0) == Ok(SCALE)
  {
    hide ExpSeries;
    ExpStep(SCALE, SCALE, 0, 1, 0);
    assert Pow2(0) == 1;
  }

  /** Every power of one is one, to the last unit. */
  lemma PowerOfOne(numerator: int, denominator: int)
    requires 0 < denominator
    ensures PowPositive(SCALE, numerator, denominator) == Ok(SCALE)
  {
    hide NaturalLog, Exp, Rounded;
    LogOfOne();
    ExpOfZero();
    RoundDivOk(0, denominator);
    ZeroRounds(denominator);
  }

  // ---- twice the line strength

  /** A catch of twice the line strength breaks the line in 1.7% of casts, 1.53% with the Sturdy bait, whatever the units. */
  lemma TwiceTheStrength(strength: int, sturdy: bool)
    requires 0 < strength && InU128(strength * SCALE)
    ensures PreviewLineBreakChance(2 * strength, strength, sturdy)
         == Ok(LineBreakChance(sturdy, false, 17_000, if sturdy then 15_300 else 17_000))
  {
    hide RawProbability;
    RawAtTwice(strength);
  }

  lemma RawAtTwice(strength: int)
    requires 0 < strength && InU128(strength * SCALE)
    ensures RawProbability(strength, strength) == Ok(17_000_000_000)
  {
    hide PowPositive;
    OneExcess(strength);
    PowerOfOne(13, 10);
  }

  lemma OneExcess(strength: int)
    requires 0 < strength && InU128(strength * SCALE)
    ensures RoundDivUnsigned(strength * SCALE, strength) == Ok(SCALE)
  {
    QuotientUnique(strength, strength * SCALE / strength, strength * SCALE % strength, SCALE, 0);
  }

  // ---- the published power of six

  lemma SeriesOfSix()
    ensures LogSeries(200_000_000_000, 40_000_000_000, 0, 0) == Ok(202_732_554_054)
  {
    hide LogSeries;
    var square := 40_000_000_000;
    LogStep(200_000_000_000, square, 0, 0, 200_000_000_000, 8_000_000_000);
    LogStep(8_000_000_000, square, 1, 200_000_000_000, 2_666_666_667, 320_000_000);
    LogStep(320_000_000, square, 2, 202_666_666_667, 64_000_000, 12_800_000);
    LogStep(12_800_000, square, 3, 202_730_666_667, 1_828_571, 512_000);
    LogStep(512_000, square, 4, 202_732_495_238, 56_889, 20_480);
    LogStep(20_480, square, 5, 202_732_552_127, 1_862, 819);
    LogStep(819, square, 6, 202_732_553_989, 63, 33);
    LogStep(33, square, 7, 202_732_554_052, 2, 1);
    LogStep(1, square, 8, 202_732_554_054, 0, 0);
    LogRest(square, 9, 202_732_554_054);
  }

  lemma NormalOfSix()
    ensures Normalize(6 * SCALE) == Ok(Normal(1_500_000_000_000, 2))
  {
    assert ScaleDown(1_500_000_000_000, 2) == Ok(Normal(1_500_000_000_000, 2));
    assert RoundDivSigned(3_000_000_000_000, 2) == Ok(1_500_000_000_000);
    assert ScaleDown(3_000_000_000_000, 1) == ScaleDown(1_500_000_000_000, 2);
    assert RoundDivSigned(6_000_000_000_000, 2) == Ok(3_000_000_000_000);
    assert ScaleDown(6_000_000_000_000, 0) == ScaleDown(3_000_000_000_000, 1);
  }

  lemma LogOfSix()
    ensures NaturalLog(6 * SCALE) == Ok(1_791_759_469_228)
  {
    hide LogSeries, Normalize;
    NormalOfSix();
    SeriesOfSix();
  }

  lemma SeriesOfExponent()
    ensures ExpSeries(SCALE, SCALE, 249_845_768_316, 1) == Ok(1_283_827_394_556)
  {
    hide ExpSeries;
    var reduced := 249_845_768_316;
    ExpStep(SCALE, SCALE, reduced, 1, reduced);
    ExpStep(249_845_768_316, 1_249_845_768_316, reduced, 2, 31_211_453_973);
    ExpStep(31_211_453_973, 1_281_057_222_289, reduced, 3, 2_599_349_899);
    ExpStep(2_599_349_899, 1_283_656_572_188, reduced, 4, 162_359_143);
    ExpStep(162_359_143, 1_283_818_931_331, reduced, 5, 8_112_949);
    ExpStep(8_112_949, 1_283_827_044_280, reduced, 6, 337_831);
    ExpStep(337_831, 1_283_827_382_111, reduced, 7, 12_058);
    ExpStep(12_058, 1_283_827_394_169, reduced, 8, 377);
    ExpStep(377, 1_283_827_394_546, reduced, 9, 10);
    ExpStep(10, 1_283_827_394_556, reduced, 10, 0);
  }

  lemma ExpOfExponent()
    ensures Exp(2_329_287_309_996) == Ok(10_270_619_156_448)
  {
    hide ExpSeries, Pow2;
    SeriesOfExponent();
    assert Rounded(2_329_287_309_996, LN_2) == 3;
    EightAt3();
  }

  lemma EightAt3()
    ensures Pow2(3) == 8
  {
  }

  /** Six to the power 1.3, as the published vector has it. */
  lemma PowerOfSix()
    ensures PowPositive(6 * SCALE, 13, 10) == Ok(10_270_619_156_448)
  {
    hide NaturalLog, Exp;
    LogOfSix();
    ExpOfExponent();
  }
}
