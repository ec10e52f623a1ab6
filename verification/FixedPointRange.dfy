/** The kernel stays in range: normalisation ends in [scale, 2 * scale), the logarithm never overflows, and the series of
    the exponential stays positive. */
module FixedPointRange {
  import opened Numbers
  import opened Products
  import opened IntegerSqrt
  import opened FixedPoint

  // ---- normalisation

  lemma ProductRounded(left: int, right: int, bound: int)
    requires Abs(left * right) <= bound && InI128(bound)
    ensures MulFixed(left, right) == Ok(Rounded(left * right, SCALE))
    ensures 2 * SCALE * Abs(Rounded(left * right, SCALE)) <= 2 * bound + SCALE
  {
    hide Rounded;
    RoundDivOk(left * right, SCALE);
    RoundedNearest(left * right, SCALE);
  }

  lemma AbsProduct(a: int, b: int, x: int, y: int)
    requires Abs(a) <= x && Abs(b) <= y
    ensures Abs(a * b) <= x * y
  {
    MulOrder(Abs(a), x, Abs(b));
    MulOrder(Abs(b), y, x);
    assert Abs(a * b) == Abs(a) * Abs(b);
  }

  /** Doubling reaches the scale: the mantissa is the value times a power of two, exactly. */
  lemma {:induction false} ScaleUpRange(value: int, j: nat, m: int)
    requires 0 < value <= I128_MAX && m == value * Pow2(j) && j <= 40 && (j > 0 ==> m < 2 * SCALE)
    ensures ScaleUp(m, 0 - j).Ok?
    ensures var up := ScaleUp(m, 0 - j).value;
      && -40 <= up.power <= 0 - j && up.mantissa == value * Pow2(-up.power)
      && SCALE <= up.mantissa && (up.power < 0 ==> up.mantissa < 2 * SCALE) && (up.power == 0 ==> up.mantissa == value)
    decreases 40 - j
  {
    hide Pow2;
    MulPositive(value, Pow2(j));
    Pow2Base();
    if m < SCALE {
      Pow2Forty();
      Pow2Next(j);
      MulAssociates(value, 2, Pow2(j));
      MulAssociates(2, value, Pow2(j));
      MulOrder(1, value, Pow2(j));
      assert j < 40;
      ScaleUpRange(value, j + 1, 2 * m);
    }
  }

  lemma Pow2Forty()
    ensures Pow2(40) == 1_099_511_627_776
  {
    assert Pow2(8) == 256;
    Pow2Adds(8, 8);
    Pow2Adds(16, 8);
    Pow2Adds(24, 16);
  }

  /** Halving ends in range after at most `j` halvings of a mantissa up to 2^j. */
  lemma {:induction false} ScaleDownRange(m: int, power: int, j: nat)
    requires SCALE <= m <= Pow2(j) && InI128(m) && -40 <= power && power + j <= 1_000
    ensures ScaleDown(m, power).Ok?
    ensures var down := ScaleDown(m, power).value;
      && SCALE <= down.mantissa < 2 * SCALE && power <= down.power <= power + j
      && (m < 2 * SCALE ==> down == Normal(m, power))
    decreases j
  {
    hide Pow2, Rounded;
    if m >= 2 * SCALE {
      HalfShrinks(m);
      RoundDivOk(m, 2);
      Pow2Base();
      assert j > 0;
      Pow2Next(j - 1);
      ScaleDownRange(Rounded(m, 2), power + 1, j - 1);
    }
  }

  lemma Pow2Base()
    ensures Pow2(0) == 1
  {
  }

  /** The normalised mantissa lies in [scale, 2 * scale), for every positive i128. */
  lemma NormalRange(value: int)
    requires 0 < value <= I128_MAX
    ensures Normalize(value).Ok?
    ensures SCALE <= Normalize(value).value.mantissa < 2 * SCALE && -40 <= Normalize(value).value.power <= 128
    ensures value < SCALE ==>
      var normal := Normalize(value).value; normal.power < 0 && normal.mantissa == value * Pow2(-normal.power)
    ensures SCALE <= value ==> Normalize(value) == ScaleDown(value, 0)
  {
    hide Pow2, ScaleUp, ScaleDown;
    Pow2Base();
    Pow2Large();
    ScaleUpRange(value, 0, value);
    ScaleUpStays(value);
    var up := ScaleUp(value, 0).value;
    ScaleDownRange(up.mantissa, up.power, 128);
  }

  lemma ScaleUpStays(value: int)
    requires 0 < value
    ensures SCALE <= value ==> ScaleUp(value, 0) == Ok(Normal(value, 0))
    ensures value < SCALE && ScaleUp(value, 0).Ok? ==> ScaleUp(value, 0).value.power < 0
  {
    if value < SCALE {
      ScaleUpFalls(value * 2, -1);
    }
  }

  lemma {:induction false} ScaleUpFalls(m: int, power: int)
    requires 0 < m
    ensures ScaleUp(m, power).Ok? ==> ScaleUp(m, power).value.power <= power
    decreases SCALE - m
  {
    if m < SCALE {
      ScaleUpFalls(m * 2, power - 1);
    }
  }

  lemma Pow2Large()
    ensures Pow2(127) == I128_MAX + 1 && Pow2(128) == U128_MAX + 1
  {
    Pow2Sixtyfour();
    hide Pow2;
    Pow2Adds(64, 63);
    Pow2Adds(64, 64);
  }

  // ---- logarithm

  /** The argument of the series is between nothing and a third. */
  lemma SeriesArgument(m: int)
    requires SCALE <= m < 2 * SCALE
    ensures DivFixed(m - SCALE, m + SCALE) == Ok(Rounded((m - SCALE) * SCALE, m + SCALE))
    ensures 0 <= 3 * Rounded((m - SCALE) * SCALE, m + SCALE) <= SCALE + 1
  {
    hide Rounded;
    var n, d := (m - SCALE) * SCALE, m + SCALE;
    RoundDivOk(n, d);
    RoundedNearest(n, d);
    var y := Rounded(n, d);
    if 3 * y > SCALE + 1 {
      MulOrder(SCALE + 2, 3 * y, d);
      MulAssociates(d, 3, y);
      MulAssociates(3, d, y);
    }
  }

  lemma SquareRange(y: int)
    requires 0 <= 3 * y <= SCALE + 1
    ensures MulFixed(y, y) == Ok(Rounded(y * y, SCALE)) && 0 <= 9 * Rounded(y * y, SCALE) <= SCALE + 9
  {
    hide Rounded;
    MulOrder(3 * y, SCALE + 1, 3 * y);
    MulOrder(3 * y, SCALE + 1, SCALE + 1);
    assert (3 * y) * (3 * y) == 9 * (y * y);
    MulNonNegative(y, y);
    ProductRounded(y, y, y * y);
    RoundedNearest(y * y, SCALE);
  }

  /** Each term is at most a ninth of the one before, up to rounding. */
  lemma NextTerm(term: int, square: int)
    requires 0 <= term <= SCALE && 0 <= 9 * square <= SCALE + 9
    ensures MulFixed(term, square) == Ok(Rounded(term * square, SCALE))
    ensures 0 <= 9 * Rounded(term * square, SCALE) <= term + 18
  {
    hide Rounded, MulFixed;
    var product := term * square;
    TermProduct(term, square, product);
    ProductRounded(term, square, product);
    RoundedNearest(product, SCALE);
    TermRounded(term, product, Rounded(product, SCALE));
  }

  lemma TermProduct(term: int, square: int, product: int)
    requires 0 <= term <= SCALE && 0 <= 9 * square <= SCALE + 9 && product == term * square
    ensures 0 <= 9 * product <= SCALE * term + 9 * term
  {
    MulNonNegative(term, square);
    MulOrder(9 * square, SCALE + 9, term);
    assert term * (9 * square) == 9 * product;
  }

  lemma TermRounded(term: int, product: int, rounded: int)
    requires 0 <= term <= SCALE && 0 <= 9 * product <= SCALE * term + 9 * term
    requires -SCALE <= 2 * (SCALE * rounded - product) <= SCALE
    ensures 0 <= 9 * rounded <= term + 18
  {
  }

  lemma {:induction false} LogSeriesRange(term: int, square: int, index: nat, series: int, bound: int)
    requires index <= LOG_TERMS && 0 <= term <= SCALE && 0 <= 9 * square <= SCALE + 9 && 0 <= series
    requires series + 2 * term + 4 * (LOG_TERMS - index) <= bound <= 4 * SCALE
    ensures LogSeries(term, square, index, series).Ok? && 0 <= LogSeries(term, square, index, series).value <= bound
    decreases LOG_TERMS - index
  {
    hide Rounded, MulFixed, RoundDivSigned, LogSeries;
    if index == LOG_TERMS {
      LogSeriesEnd(term, square, series);
    } else {
      LogSeriesStep(term, square, index, series);
      RoundDivOk(term, 2 * index + 1);
      RoundedNearest(term, 2 * index + 1);
      NextTerm(term, square);
      LogSeriesRange(Rounded(term * square, SCALE), square, index + 1, series + Rounded(term, 2 * index + 1), bound);
    }
  }

  const LOG_MARGIN := 1_333_333_333_600

  /** The logarithm of every positive i128 exists and lies just above its power of two. */
  lemma LogRange(value: int)
    requires 0 < value <= I128_MAX
    ensures NaturalLog(value).Ok? && Normalize(value).Ok?
    ensures var floor := Normalize(value).value.power * LN_2;
      floor <= NaturalLog(value).value <= floor + LOG_MARGIN
  {
    hide Normalize, DivFixed, MulFixed, LogSeries, Rounded;
    NormalRange(value);
    var m := Normalize(value).value.mantissa;
    SeriesArgument(m);
    var y := Rounded((m - SCALE) * SCALE, m + SCALE);
    SquareRange(y);
    LogSeriesRange(y, Rounded(y * y, SCALE), 0, 0, 666_666_666_800);
  }

  /** Small values have small logarithms. */
  lemma LogUpTo(value: int)
    requires 0 < value <= 6 * SCALE + 1
    ensures NaturalLog(value).Ok? && -40 * LN_2 <= NaturalLog(value).value <= 2 * LN_2 + LOG_MARGIN
  {
    hide NaturalLog, Normalize;
    LogRange(value);
    NormalRange(value);
    SmallPower(value);
  }

  lemma SmallPower(value: int)
    requires 0 < value <= 6 * SCALE + 1
    ensures Normalize(value).Ok? && Normalize(value).value.power <= 2
  {
    NormalRange(value);
    if SCALE <= value {
      Unfolded(value, 0);
      if 2 * SCALE <= value {
        HalfShrinks(value);
        var half := Rounded(value, 2);
        Unfolded(half, 1);
        if 2 * SCALE <= half {
          HalfShrinks(half);
          Unfolded(Rounded(half, 2), 2);
        }
      }
    }
  }

  lemma Unfolded(m: int, power: int)
    requires 0 < m <= 6 * SCALE + 1 && 0 <= power <= 2
    ensures m < 2 * SCALE ==> ScaleDown(m, power) == Ok(Normal(m, power))
    ensures 2 * SCALE <= m ==> 0 < Rounded(m, 2) && ScaleDown(m, power) == ScaleDown(Rounded(m, 2), power + 1)
  {
    if 2 * SCALE <= m {
      HalfShrinks(m);
      RoundDivOk(m, 2);
    }
  }

  // ---- exponential

  const HALF_LN_2 := 346_573_590_280

  /** The reduced argument is at most half of ln 2. */
  lemma ReducedRange(value: int)
    requires InI128(Abs(value))
    ensures RoundDivSigned(value, LN_2) == Ok(Rounded(value, LN_2))
    ensures Abs(value - Rounded(value, LN_2) * LN_2) <= HALF_LN_2
  {
    hide Rounded;
    RoundDivOk(value, LN_2);
    RoundedNearest(value, LN_2);
  }

  /** Each term is at most 35% of the one before it, up to rounding. */
  lemma ExpTerm(term: int, reduced: int, divisor: nat)
    requires Abs(term) <= SCALE && Abs(reduced) <= HALF_LN_2 && 0 < divisor
    ensures MulFixed(term, reduced) == Ok(Rounded(term * reduced, SCALE))
    ensures var product := Rounded(term * reduced, SCALE);
      && RoundDivSigned(product, divisor) == Ok(Rounded(product, divisor))
      && 20 * Abs(Rounded(product, divisor)) <= 7 * Abs(term) + 10
  {
    hide Rounded;
    AbsProduct(term, reduced, Abs(term), HALF_LN_2);
    ProductRounded(term, reduced, Abs(term) * HALF_LN_2);
    var product := Rounded(term * reduced, SCALE);
    RoundDivOk(product, divisor);
    RoundedNearest(product, divisor);
  }

  /** The series never moves further from one than 55% of the scale, so it stays positive. */
  lemma {:induction false} ExpSeriesRange(term: int, sum: int, reduced: int, divisor: nat)
    requires 1 <= divisor <= EXP_TERMS + 1 && Abs(reduced) <= HALF_LN_2 && Abs(term) <= SCALE
    requires 20 * Abs(sum - SCALE) + 11 * Abs(term) <= 11 * SCALE + 16 * (divisor - 1)
    ensures ExpSeries(term, sum, reduced, divisor).Ok?
    ensures 20 * Abs(ExpSeries(term, sum, reduced, divisor).value - SCALE) <= 11 * SCALE + 16 * EXP_TERMS
    decreases EXP_TERMS + 1 - divisor
  {
    hide MulFixed, RoundDivSigned, Rounded;
    if divisor <= EXP_TERMS {
      ExpTerm(term, reduced, divisor);
      var next := Rounded(Rounded(term * reduced, SCALE), divisor);
      if next != 0 {
        ExpSeriesRange(next, sum + next, reduced, divisor + 1);
      }
    }
  }

  /** The exponential is never negative, and it exists for every argument of moderate size. */
  lemma ExpRange(value: int)
    requires InI128(value)
    ensures Exp(value).Ok? ==> 0 <= Exp(value).value
    ensures -1_000 * SCALE <= value <= 5 * SCALE ==> Exp(value).Ok? && Exp(value).value <= 256 * SCALE
  {
    hide Rounded, RoundDivSigned, ExpSeries, ShiftBack, MulFixed;
    if InI128(Abs(value)) {
      ReducedRange(value);
      RoundedNearest(value, LN_2);
      var power := Rounded(value, LN_2);
      ExpSeriesRange(SCALE, SCALE, value - power * LN_2, 1);
      var sum := ExpSeries(SCALE, SCALE, value - power * LN_2, 1).value;
      ShiftRange(sum, power);
    } else {
      RoundDivFails(value);
    }
  }

  lemma RoundDivFails(value: int)
    requires !InI128(Abs(value))
    ensures RoundDivSigned(value, LN_2).Err?
  {
  }

  lemma ShiftRange(sum: int, power: int)
    requires 0 < sum <= 2 * SCALE
    ensures ShiftBack(sum, power).Ok? ==> 0 <= ShiftBack(sum, power).value
    ensures -2_000 <= power <= 7 ==> ShiftBack(sum, power).Ok? && ShiftBack(sum, power).value <= 256 * SCALE
  {
    hide Rounded, Pow2;
    if power >= 0 {
      MulPositive(sum, Pow2(power));
      if power <= 7 {
        PowersUpTo7(power);
        MulOrder(Pow2(power), 128, sum);
      }
    } else {
      RoundDivOk(sum, Pow2(-power));
      RoundedNearest(sum, Pow2(-power));
    }
  }

  lemma PowersUpTo7(k: nat)
    requires k <= 7
    ensures Pow2(k) <= 128
  {
    Pow2Adds(k, 7 - k);
    assert Pow2(7) == 128;
    MulOrder(1, Pow2(7 - k), Pow2(k));
  }

  /** A power with a positive exponent of at most 13/10 exists for every small base and is never negative. */
  lemma PowRange(value: int)
    requires 0 < value <= 6 * SCALE + 1
    ensures PowPositive(value, 13, 10).Ok? && 0 <= PowPositive(value, 13, 10).value <= 256 * SCALE
  {
    hide NaturalLog, Exp, Rounded;
    LogUpTo(value);
    var scaled := NaturalLog(value).value * 13;
    RoundDivOk(scaled, 10);
    RoundedNearest(scaled, 10);
    ExpRange(Rounded(scaled, 10));
  }
}
