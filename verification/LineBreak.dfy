/** The line-break chance of an over-cap catch: min(0.15, 0.002 + 0.015 * (R - 1)^1.3) in the fixed-point kernel, with the
    Sturdy bait's nine tenths, as parts per million. */
module LineBreak {
  import opened Numbers
  import opened Products
  import opened FixedPoint
  import opened FixedPointRange

  const BASE_FIXED := 2_000_000_000
  const COEFFICIENT_FIXED := 15_000_000_000
  const MAX_FIXED := 150_000_000_000
  const SHORT_CIRCUIT_EXCESS := 6
  const FIXED_PER_PPM := 1_000_000
  const STURDY_NUMERATOR := 9
  const STURDY_DENOMINATOR := 10

  datatype LineBreakChance = LineBreakChance(sturdy: bool, capApplied: bool, basePpm: int, finalPpm: int)

  /** The base probability on the fixed scale for an excess ratio below the short circuit, before the cap. */
  function RawProbability(excess: int, denominator: int): Result<int, NumericError>
    requires 0 < excess && 0 < denominator
  {
    if !InU128(excess * SCALE) then Err(ArithmeticOverflow)
    else
      var scaled :- RoundDivUnsigned(excess * SCALE, denominator);
      var base :- Checked(scaled);
      var powered :- (if scaled == 0 then Ok(0) else PowPositive(base, 13, 10));
      var term :- MulFixed(COEFFICIENT_FIXED, powered);
      var raw :- Checked(BASE_FIXED + term);
      if raw < 0 then Err(ArithmeticOverflow) else Ok(raw)
  }

  /** The capped base probability and whether the cap applied. */
  function BaseProbability(numerator: int, denominator: int): Result<(int, bool), NumericError>
    requires 0 < denominator < numerator
  {
    var excess := numerator - denominator;
    if excess / denominator >= SHORT_CIRCUIT_EXCESS then Ok((MAX_FIXED, true))
    else
      var raw :- RawProbability(excess, denominator);
      Ok((Min(raw, MAX_FIXED), raw >= MAX_FIXED))
  }

  function FinalProbability(base: int, sturdy: bool): Result<int, NumericError>
    requires 0 <= base
  {
    if !sturdy then Ok(Min(base, MAX_FIXED))
    else if !InU128(base * STURDY_NUMERATOR) then Err(ArithmeticOverflow)
    else
      var scaled :- RoundDivUnsigned(base * STURDY_NUMERATOR, STURDY_DENOMINATOR);
      Ok(Min(scaled, MAX_FIXED))
  }

  function Ppm(fixed: int): Result<int, NumericError>
    requires 0 <= fixed
  {
    var ppm :- RoundDivUnsigned(fixed, FIXED_PER_PPM);
    if ppm <= 0xFFFF_FFFF then Ok(ppm) else Err(ArithmeticOverflow)
  }

  function PreviewLineBreakChance(numerator: int, denominator: int, sturdy: bool): Result<LineBreakChance, NumericError>
    requires 0 <= numerator && 0 <= denominator
  {
    if denominator == 0 || numerator <= denominator then Err(CapabilityRatioNotOverCap)
    else
      var (base, capApplied) :- BaseProbability(numerator, denominator);
      if base < 0 then Err(ArithmeticOverflow)
      else
        var final :- FinalProbability(base, sturdy);
        if final < 0 then Err(ArithmeticOverflow)
        else
          var basePpm :- Ppm(base);
          var finalPpm :- Ppm(final);
          Ok(LineBreakChance(sturdy, capApplied, basePpm, finalPpm))
  }

  // ---- the published range

  lemma RoundDivUnsignedRange(n: int, d: int)
    requires 0 <= n <= U128_MAX && 0 < d
    ensures RoundDivUnsigned(n, d) == Ok(Rounded(n, d)) && 0 <= Rounded(n, d) <= n
    ensures 2 * Abs(d * Rounded(n, d) - n) <= d
  {
    MagnitudeShrinks(n, d);
    RoundedNearest(n, d);
  }

  /** The scaled excess of a ratio below the short circuit is at most six, up to rounding. */
  lemma ScaledExcess(excess: int, denominator: int)
    requires 0 < excess && 0 < denominator && excess / denominator < SHORT_CIRCUIT_EXCESS && InU128(excess * SCALE)
    ensures RoundDivUnsigned(excess * SCALE, denominator) == Ok(Rounded(excess * SCALE, denominator))
    ensures 0 <= Rounded(excess * SCALE, denominator) <= 6 * SCALE
  {
    hide Rounded, RoundDivUnsigned;
    RoundDivUnsignedRange(excess * SCALE, denominator);
    var rounded := Rounded(excess * SCALE, denominator);
    assert excess == denominator * (excess / denominator) + excess % denominator;
    MulOrder(excess / denominator, 5, denominator);
    assert excess < 6 * denominator;
    if rounded > 6 * SCALE {
      MulOrder(6 * SCALE + 1, rounded, denominator);
    }
  }

  /** A raw probability exists unless the scaled excess overflows, and is at least the base. */
  lemma RawRange(excess: int, denominator: int)
    requires 0 < excess && 0 < denominator && excess / denominator < SHORT_CIRCUIT_EXCESS
    ensures !InU128(excess * SCALE) ==> RawProbability(excess, denominator) == Err(ArithmeticOverflow)
    ensures InU128(excess * SCALE) ==>
      RawProbability(excess, denominator).Ok? && BASE_FIXED <= RawProbability(excess, denominator).value
  {
    hide Rounded, PowPositive, RoundDivUnsigned, MulFixed;
    if InU128(excess * SCALE) {
      ScaledExcess(excess, denominator);
      var scaled := Rounded(excess * SCALE, denominator);
      if scaled != 0 {
        PowRange(scaled);
      }
      var powered := if scaled == 0 then 0 else PowPositive(scaled, 13, 10).value;
      ProductRounded(COEFFICIENT_FIXED, powered, COEFFICIENT_FIXED * powered);
      RoundedNearest(COEFFICIENT_FIXED * powered, SCALE);
    }
  }

  lemma PpmRange(base: int, final: int)
    requires BASE_FIXED <= base <= MAX_FIXED && 1_800_000_000 <= final <= base
    ensures Ppm(base).Ok? && Ppm(final).Ok?
    ensures 2_000 <= Ppm(base).value <= 150_000 && 1_800 <= Ppm(final).value <= Ppm(base).value
    ensures final <= 135_000_000_000 ==> Ppm(final).value <= 135_000
    ensures base == MAX_FIXED ==> Ppm(base).value == 150_000
  {
  }

  /** Everything a caller can rely on, for every ratio: when it fails, the range of both probabilities, that the Sturdy
      bait only ever lowers the chance, and that the cap is reported exactly when the ratio is past the short circuit or the
      uncapped probability reaches it. */
  lemma LineBreakContract(numerator: int, denominator: int, sturdy: bool)
    requires InU128(numerator) && InU128(denominator)
    ensures var excess := numerator - denominator;
      match PreviewLineBreakChance(numerator, denominator, sturdy)
      case Err(e) =>
        if numerator <= denominator || denominator == 0 then e == CapabilityRatioNotOverCap
        else e == ArithmeticOverflow && excess / denominator < 6 && !InU128(excess * SCALE)
      case Ok(chance) =>
        && 0 < denominator < numerator
        && (excess / denominator < 6 ==>
              InU128(excess * SCALE) && RawProbability(excess, denominator).Ok?)
        && chance.sturdy == sturdy
        && 2_000 <= chance.basePpm <= 150_000
        && 1_800 <= chance.finalPpm <= chance.basePpm
        && (if sturdy then chance.finalPpm <= 135_000 else chance.finalPpm == chance.basePpm)
        && (chance.capApplied ==> chance.basePpm == 150_000)
        && (chance.capApplied <==>
              excess / denominator >= 6 || RawProbability(excess, denominator).value >= 150_000_000_000)
  {
    hide RawProbability, Ppm, Rounded;
    if 0 < denominator < numerator {
      var excess := numerator - denominator;
      if excess / denominator < SHORT_CIRCUIT_EXCESS {
        RawRange(excess, denominator);
      }
      var probability := BaseProbability(numerator, denominator);
      if probability.Ok? {
        var base := probability.value.0;
        SturdyRange(base);
        PpmRange(base, FinalProbability(base, sturdy).value);
      }
    }
  }

  lemma SturdyRange(base: int)
    requires BASE_FIXED <= base <= MAX_FIXED
    ensures FinalProbability(base, false) == Ok(base)
    ensures FinalProbability(base, true).Ok? && 1_800_000_000 <= FinalProbability(base, true).value <= base
    ensures FinalProbability(base, true).value <= 135_000_000_000
  {
    hide Rounded;
    RoundDivUnsignedRange(base * STURDY_NUMERATOR, STURDY_DENOMINATOR);
  }
}
