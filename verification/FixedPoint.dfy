/** The fixed-point kernel: rounded division, logarithm, exponential and power on integers scaled by 10^12, every step
    checked against i128. */
module FixedPoint {
  import opened Numbers
  import opened Products
  import opened IntegerSqrt

  const SCALE := 1_000_000_000_000
  const LN_2 := 693_147_180_560
  const LOG_TERMS := 30
  const EXP_TERMS := 34
  const I32_MAX := 0x7FFF_FFFF
  const I32_MIN := -0x8000_0000

  datatype NumericError = DrawOutOfRange(draw: int) | CapabilityRatioNotOverCap | ArithmeticOverflow | InvalidNumericDomain

  function Checked(x: int): Result<int, NumericError> {
    if InI128(x) then Ok(x) else Err(ArithmeticOverflow)
  }

  predicate InI32(x: int) {
    I32_MIN <= x <= I32_MAX
  }

  // ---- rounded division

  /** A magnitude divided and rounded half up. */
  function RoundedMagnitude(n: int, d: int): int
    requires 0 <= n && 0 < d
  {
    if n % d >= d / 2 + d % 2 then n / d + 1 else n / d
  }

  /** Rounded to nearest, ties away from zero. */
  function Rounded(n: int, d: int): int
    requires 0 < d
  {
    if n < 0 then -RoundedMagnitude(-n, d) else RoundedMagnitude(n, d)
  }

  function RoundDivSigned(n: int, d: int): Result<int, NumericError> {
    if d <= 0 then Err(InvalidNumericDomain)
    else if !InI128(Abs(n)) then Err(ArithmeticOverflow)
    else Checked(Rounded(n, d))
  }

  function RoundDivUnsigned(n: int, d: int): Result<int, NumericError>
    requires 0 <= n && 0 <= d
  {
    if d == 0 then Err(InvalidNumericDomain)
    else if InU128(RoundedMagnitude(n, d)) then Ok(RoundedMagnitude(n, d)) else Err(ArithmeticOverflow)
  }

  function MulFixed(left: int, right: int): Result<int, NumericError> {
    var product :- Checked(left * right);
    RoundDivSigned(product, SCALE)
  }

  function DivFixed(numerator: int, denominator: int): Result<int, NumericError> {
    if denominator == 0 then Err(InvalidNumericDomain)
    else
      var n :- (if denominator < 0 then Checked(-numerator) else Ok(numerator));
      var d :- (if denominator < 0 then Checked(-denominator) else Ok(denominator));
      var scaled :- Checked(n * SCALE);
      RoundDivSigned(scaled, d)
  }

  /** No integer is nearer to the quotient, a tie goes away from zero, and rounding is odd. */
  lemma RoundedNearest(n: int, d: int)
    requires 0 < d
    ensures 2 * Abs(d * Rounded(n, d) - n) <= d
    ensures 2 * Abs(d * Rounded(n, d) - n) == d ==> Abs(n) < Abs(d * Rounded(n, d))
    ensures Rounded(-n, d) == -Rounded(n, d)
    ensures 0 <= n ==> 0 <= Rounded(n, d)
    ensures Abs(Rounded(n, d)) <= Abs(n)
  {
    var m := Abs(n);
    var q := m / d;
    assert m == d * q + m % d;
    MulAdd(d, q, 1);
    MagnitudeShrinks(m, d);
    assert d * -RoundedMagnitude(m, d) == -(d * RoundedMagnitude(m, d));
  }

  lemma MagnitudeShrinks(n: int, d: int)
    requires 0 <= n && 0 < d
    ensures 0 <= RoundedMagnitude(n, d) <= n
  {
    var q := n / d;
    assert n == d * q + n % d;
    QuotientOrder(d, 0, 0, q, n % d);
    MulOrder(1, d, q);
    if d == 1 {
      assert n % d == 0;
    } else if n > 0 && q > 0 {
      MulOrder(2, d, q);
    }
  }

  lemma RoundDivOk(n: int, d: int)
    requires InI128(Abs(n)) && 0 < d
    ensures RoundDivSigned(n, d) == Ok(Rounded(n, d))
  {
    hide Rounded;
    RoundedNearest(n, d);
  }

  // ---- square root

  function SqrtFixed(value: int): Result<int, NumericError> {
    if value < 0 then Err(InvalidNumericDomain)
    else if !InU128(value * SCALE) then Err(ArithmeticOverflow)
    else Ok(IntegerRoot(value * SCALE))
  }

  method ComputeSqrtFixed(value: int) returns (r: Result<int, NumericError>)
    requires InI128(value)
    ensures r == SqrtFixed(value)
  {
    if value < 0 {
      return Err(InvalidNumericDomain);
    }
    if !InU128(value * SCALE) {
      return Err(ArithmeticOverflow);
    }
    var root := ComputeIntegerSqrt(value * SCALE);
    return Ok(root);
  }

  // ---- logarithm

  datatype Normal = Normal(mantissa: int, power: int)

  /** Doubles a mantissa below the scale. */
  function ScaleUp(m: int, power: int): Result<Normal, NumericError>
    requires 0 < m
    decreases SCALE - m
  {
    if m >= SCALE then Ok(Normal(m, power))
    else if !InI128(m * 2) || !InI32(power - 1) then Err(ArithmeticOverflow)
    else ScaleUp(m * 2, power - 1)
  }

  lemma HalfShrinks(m: int)
    requires 2 <= m
    ensures 0 < Rounded(m, 2) && (3 <= m ==> Rounded(m, 2) < m) && m <= 2 * Rounded(m, 2) <= m + 1
  {
  }

  /** Halves, rounding, a mantissa of twice the scale or more. */
  function ScaleDown(m: int, power: int): Result<Normal, NumericError>
    requires 0 < m
    decreases m
  {
    if m < SCALE * 2 then Ok(Normal(m, power))
    else
      var half :- RoundDivSigned(m, 2);
      HalfShrinks(m);
      if !InI32(power + 1) then Err(ArithmeticOverflow) else ScaleDown(half, power + 1)
  }

  function Normalize(value: int): Result<Normal, NumericError>
    requires 0 < value
  {
    var up :- ScaleUp(value, 0);
    ScaleUpPositive(value, 0);
    ScaleDown(up.mantissa, up.power)
  }

  lemma {:induction false} ScaleUpPositive(m: int, power: int)
    requires 0 < m
    ensures ScaleUp(m, power).Ok? ==> 0 < ScaleUp(m, power).value.mantissa
    decreases SCALE - m
  {
    if m < SCALE {
      ScaleUpPositive(m * 2, power - 1);
    }
  }

  /** The odd powers of `y`, divided and added up from position `index` on. */
  function LogSeries(term: int, square: int, index: nat, series: int): Result<int, NumericError>
    decreases LOG_TERMS - index
  {
    if index >= LOG_TERMS then Ok(series)
    else
      var part :- RoundDivSigned(term, 2 * index + 1);
      var sum :- Checked(series + part);
      var next :- MulFixed(term, square);
      LogSeries(next, square, index + 1, sum)
  }

  function NaturalLog(value: int): Result<int, NumericError> {
    if value <= 0 then Err(InvalidNumericDomain)
    else
      var normal :- Normalize(value);
      var y :- DivFixed(normal.mantissa - SCALE, normal.mantissa + SCALE);
      var square :- MulFixed(y, y);
      var series :- LogSeries(y, square, 0, 0);
      if InI128(series * 2) && InI128(normal.power * LN_2) then Checked(series * 2 + normal.power * LN_2)
      else Err(ArithmeticOverflow)
  }

  /** The two normalisation loops. */
  method ComputeNormalize(value: int) returns (r: Result<Normal, NumericError>)
    requires 0 < value
    ensures r == Normalize(value)
  {
    hide RoundDivSigned, InI128, InI32, Rounded;
    var mantissa, power := value, 0;
    while mantissa < SCALE
      invariant 0 < mantissa && ScaleUp(value, 0) == ScaleUp(mantissa, power)
      decreases SCALE - mantissa
    {
      if !InI128(mantissa * 2) || !InI32(power - 1) {
        return Err(ArithmeticOverflow);
      }
      mantissa, power := mantissa * 2, power - 1;
    }
    while mantissa >= SCALE * 2
      invariant 0 < mantissa && Normalize(value) == ScaleDown(mantissa, power)
      decreases mantissa
    {
      var half := RoundDivSigned(mantissa, 2);
      if half.Err? {
        return Err(half.error);
      }
      HalfIs(mantissa);
      if !InI32(power + 1) {
        return Err(ArithmeticOverflow);
      }
      mantissa, power := half.value, power + 1;
    }
    return Ok(Normal(mantissa, power));
  }

  method ComputeLogSeries(y: int, square: int) returns (r: Result<int, NumericError>)
    ensures r == LogSeries(y, square, 0, 0)
  {
    hide RoundDivSigned, MulFixed, InI128, LogSeries;
    var term, series := y, 0;
    for index := 0 to LOG_TERMS
      invariant LogSeries(y, square, 0, 0) == LogSeries(term, square, index, series)
    {
      LogSeriesStep(term, square, index, series);
      var part := RoundDivSigned(term, 2 * index + 1);
      if part.Err? {
        return Err(part.error);
      }
      if !InI128(series + part.value) {
        return Err(ArithmeticOverflow);
      }
      series := series + part.value;
      var next := MulFixed(term, square);
      if next.Err? {
        return Err(next.error);
      }
      term := next.value;
    }
    LogSeriesEnd(term, square, series);
    return Ok(series);
  }

  lemma LogSeriesStep(term: int, square: int, index: nat, series: int)
    requires index < LOG_TERMS
    ensures var part, next := RoundDivSigned(term, 2 * index + 1), MulFixed(term, square);
      LogSeries(term, square, index, series)
      == if part.Err? then Err(part.error)
         else if !InI128(series + part.value) then Err(ArithmeticOverflow)
         else if next.Err? then Err(next.error)
         else LogSeries(next.value, square, index + 1, series + part.value)
  {
    hide RoundDivSigned, MulFixed, InI128;
  }

  lemma LogSeriesEnd(term: int, square: int, series: int)
    ensures LogSeries(term, square, LOG_TERMS, series) == Ok(series)
  {
  }

  method ComputeNaturalLog(value: int) returns (r: Result<int, NumericError>)
    ensures r == NaturalLog(value)
  {
    hide RoundDivSigned, MulFixed, DivFixed, InI128, InI32, Rounded, Normalize, LogSeries;
    if value <= 0 {
      return Err(InvalidNumericDomain);
    }
    var normal := ComputeNormalize(value);
    if normal.Err? {
      return Err(normal.error);
    }
    var Normal(mantissa, power) := normal.value;
    var y := DivFixed(mantissa - SCALE, mantissa + SCALE);
    if y.Err? {
      return Err(y.error);
    }
    var square := MulFixed(y.value, y.value);
    if square.Err? {
      return Err(square.error);
    }
    var sum := ComputeLogSeries(y.value, square.value);
    if sum.Err? {
      return Err(sum.error);
    }
    var series := sum.value;
    if !InI128(series * 2) || !InI128(power * LN_2) || !InI128(series * 2 + power * LN_2) {
      return Err(ArithmeticOverflow);
    }
    return Ok(series * 2 + power * LN_2);
  }

  lemma HalfIs(m: int)
    requires SCALE * 2 <= m && RoundDivSigned(m, 2).Ok?
    ensures RoundDivSigned(m, 2) == Ok(Rounded(m, 2)) && 0 < RoundDivSigned(m, 2).value < m
  {
    HalfShrinks(m);
  }

  // ---- exponential

  /** The terms of the series from `divisor` on, stopping early at a zero term. */
  function ExpSeries(term: int, sum: int, reduced: int, divisor: nat): Result<int, NumericError>
    requires 0 < divisor
    decreases EXP_TERMS + 1 - divisor
  {
    if divisor > EXP_TERMS then Ok(sum)
    else
      var product :- MulFixed(term, reduced);
      var next :- RoundDivSigned(product, divisor);
      var total :- Checked(sum + next);
      if next == 0 then Ok(total) else ExpSeries(next, total, reduced, divisor + 1)
  }

  /** Scales the series back by a power of two. */
  function ShiftBack(sum: int, power: int): Result<int, NumericError> {
    if power >= 127 then Err(ArithmeticOverflow)
    else if power >= 0 then Checked(sum * Pow2(power))
    else if power == I32_MIN then Err(ArithmeticOverflow)
    else if power <= -127 then Ok(0)
    else RoundDivSigned(sum, Pow2(-power))
  }

  function Exp(value: int): Result<int, NumericError> {
    var power :- RoundDivSigned(value, LN_2);
    if !InI32(power) || !InI128(power * LN_2) || !InI128(value - power * LN_2) then Err(ArithmeticOverflow)
    else
      var sum :- ExpSeries(SCALE, SCALE, value - power * LN_2, 1);
      ShiftBack(sum, power)
  }

  method ComputeExp(value: int) returns (r: Result<int, NumericError>)
    ensures r == Exp(value)
  {
    hide RoundDivSigned, MulFixed, ShiftBack, InI128, InI32, Rounded;
    var power := RoundDivSigned(value, LN_2);
    if power.Err? {
      return Err(power.error);
    }
    if !InI32(power.value) || !InI128(power.value * LN_2) || !InI128(value - power.value * LN_2) {
      return Err(ArithmeticOverflow);
    }
    var reduced := value - power.value * LN_2;
    var term, sum := SCALE, SCALE;
    for divisor := 1 to EXP_TERMS + 1
      invariant ExpSeries(SCALE, SCALE, reduced, 1) == ExpSeries(term, sum, reduced, divisor)
    {
      var product := MulFixed(term, reduced);
      if product.Err? {
        return Err(product.error);
      }
      var next := RoundDivSigned(product.value, divisor);
      if next.Err? {
        return Err(next.error);
      }
      if !InI128(sum + next.value) {
        return Err(ArithmeticOverflow);
      }
      term, sum := next.value, sum + next.value;
      if term == 0 {
        return ShiftBack(sum, power.value);
      }
    }
    return ShiftBack(sum, power.value);
  }

  function PowPositive(value: int, numerator: int, denominator: int): Result<int, NumericError> {
    if value <= 0 || denominator <= 0 then Err(InvalidNumericDomain)
    else
      var logarithm :- NaturalLog(value);
      var scaled :- Checked(logarithm * numerator);
      var exponent :- RoundDivSigned(scaled, denominator);
      Exp(exponent)
  }
}
