/** Activity levels: a three-piece closed form for the points a level needs, and the search that inverts it. */
module ActivityLevels {
  import opened Numbers
  import opened Products
  import Q32

  datatype ProgressionMathError = InvalidActivityXp | ProgressionOverflow

  datatype ActivityProgress = ActivityProgress(
    points: int, level: nat, pointsIntoLevel: int, pointsForNextLevel: int, pointsRemaining: int)

  /** Points from `level` to the next one. */
  function Cost(level: nat): int {
    if level <= 15 then 2 * level + 7
    else if level <= 30 then 5 * level - 38
    else 9 * level - 158
  }

  /** The meaning of a level's total: the points of every level below it. */
  ghost function SumOfCosts(level: nat): int {
    if level == 0 then 0 else SumOfCosts(level - 1) + Cost(level - 1)
  }

  /** Twice the closed form. */
  function TotalNumerator(level: nat): int {
    if level <= 16 then (level * level + level * 6) * 2
    else if level <= 31 then level * level * 5 - level * 81 + 720
    else level * level * 9 - level * 325 + 4_440
  }

  /** Every intermediate value of the closed form fits i128. */
  predicate TotalFits(level: nat) {
    && InI128(level * level)
    && (level > 16 ==> InI128(level * level * (if level <= 31 then 5 else 9)))
    && InI128(TotalNumerator(level))
  }

  function ActivityTotal(level: nat): Result<int, ProgressionMathError> {
    if TotalFits(level) then Ok(TruncDiv(TotalNumerator(level), 2)) else Err(ProgressionOverflow)
  }

  function ActivityXpToNext(level: nat): Result<int, ProgressionMathError> {
    if InI64(Cost(level)) then Ok(Cost(level)) else Err(ProgressionOverflow)
  }

  function ActivityTotalXpForLevel(level: nat): Result<int, ProgressionMathError> {
    var total :- ActivityTotal(level);
    if InI64(total) then Ok(total) else Err(ProgressionOverflow)
  }

  // ---- the closed form

  lemma NumeratorStep(level: nat)
    ensures TotalNumerator(level + 1) == TotalNumerator(level) + 2 * Cost(level)
  {
    var square := level * level;
    assert (level + 1) * (level + 1) == square + 2 * level + 1 by {
      MulAdd(level + 1, level, 1);
      MulAdd(level, level, 1);
    }
  }

  /** The closed form is the sum of the per-level costs, across both joins. */
  lemma {:induction false} TotalIsSumOfCosts(level: nat)
    ensures TotalNumerator(level) == 2 * SumOfCosts(level)
    ensures 0 <= SumOfCosts(level)
  {
    if level == 0 {
    } else {
      TotalIsSumOfCosts(level - 1);
      NumeratorStep(level - 1);
    }
  }

  lemma {:induction false} TotalsIncrease(low: nat, high: nat)
    requires low < high
    ensures SumOfCosts(low) < SumOfCosts(high)
  {
    if low + 1 < high {
      TotalsIncrease(low, high - 1);
    }
  }

  lemma TotalsOrdered(low: nat, high: nat)
    ensures low <= high ==> SumOfCosts(low) <= SumOfCosts(high)
  {
    hide SumOfCosts;
    if low < high {
      TotalsIncrease(low, high);
    }
  }

  /** A point count belongs to at most one level, and more points never mean a lower level. */
  lemma LevelsMonotone(points: int, level: nat, points': int, level': nat)
    requires SumOfCosts(level) <= points < SumOfCosts(level + 1)
    requires SumOfCosts(level') <= points' < SumOfCosts(level' + 1)
    requires points <= points'
    ensures level <= level' && (points == points' ==> level == level')
  {
    hide SumOfCosts;
    TotalsOrdered(level' + 1, level);
    TotalsOrdered(level + 1, level');
  }

  /** 2^32 levels need more points than an i64 can hold. */
  const LEVEL_BOUND := 0x1_0000_0000

  lemma TotalAtBound()
    ensures SumOfCosts(LEVEL_BOUND) > I64_MAX
  {
    TotalIsSumOfCosts(LEVEL_BOUND);
  }

  lemma SmallTotalFits(level: nat)
    requires level <= 2 * LEVEL_BOUND
    ensures ActivityTotal(level) == Ok(SumOfCosts(level))
  {
    hide SumOfCosts, TotalFits, TotalNumerator;
    TotalIsSumOfCosts(level);
    NumeratorFits(level);
  }

  lemma NumeratorFits(level: nat)
    requires level <= 2 * LEVEL_BOUND
    ensures TotalFits(level)
  {
    var square := level * level;
    assert 0 <= square <= 2 * LEVEL_BOUND * (2 * LEVEL_BOUND) by {
      MulOrder(level, 2 * LEVEL_BOUND, level);
      MulOrder(level, 2 * LEVEL_BOUND, 2 * LEVEL_BOUND);
      MulNonNegative(level, level);
    }
  }

  lemma ReachableLevel(level: nat, points: int)
    requires SumOfCosts(level) <= points <= I64_MAX
    ensures level < LEVEL_BOUND
  {
    hide SumOfCosts;
    TotalAtBound();
    TotalsOrdered(LEVEL_BOUND, level);
  }

  /** The total of a level is reported exactly when it fits i64. */
  lemma TotalXpExact(level: nat)
    ensures ActivityTotalXpForLevel(level)
         == if SumOfCosts(level) <= I64_MAX then Ok(SumOfCosts(level)) else Err(ProgressionOverflow)
  {
    TotalIsSumOfCosts(level);
    if SumOfCosts(level) <= I64_MAX {
      ReachableLevel(level, I64_MAX);
      SmallTotalFits(level);
    }
  }

  // ---- the search

  /** Doubles until a level is out of reach, then bisects. On every non-negative i64 it succeeds with the one level whose
      points are reached and whose next level's are not. */
  method ComputeActivityProgress(points: int) returns (r: Result<ActivityProgress, ProgressionMathError>)
    requires InI64(points)
    ensures points < 0 ==> r == Err(InvalidActivityXp)
    ensures points >= 0 ==>
      && r.Ok? && r.value.points == points
      && SumOfCosts(r.value.level) <= points < SumOfCosts(r.value.level + 1)
      && r.value.pointsIntoLevel == points - SumOfCosts(r.value.level)
      && r.value.pointsForNextLevel == Cost(r.value.level)
      && r.value.pointsRemaining == SumOfCosts(r.value.level + 1) - points
  {
    hide ActivityTotal, SumOfCosts;
    if points < 0 {
      return Err(InvalidActivityXp);
    }
    FirstLevel();
    var low, high := 0, 1;
    SmallTotalFits(1);
    var total := ActivityTotal(high);
    while total.Ok? && total.value <= points
      invariant 0 <= low < high <= 2 * low + 1 && high <= 2 * LEVEL_BOUND
      invariant SumOfCosts(low) <= points && total == ActivityTotal(high) == Ok(SumOfCosts(high))
      decreases 2 * LEVEL_BOUND - high
    {
      ReachableLevel(high, points);
      if !InU64(high * 2) {
        return Err(ProgressionOverflow);
      }
      low, high := high, high * 2;
      SmallTotalFits(high);
      total := ActivityTotal(high);
    }
    if total.Err? {
      return Err(ProgressionOverflow);
    }
    while low + 1 < high
      invariant 0 <= low < high <= 2 * LEVEL_BOUND
      invariant SumOfCosts(low) <= points < SumOfCosts(high)
    {
      var middle := low + (high - low) / 2;
      SmallTotalFits(middle);
      var reached := ActivityTotal(middle);
      if reached.Err? {
        return Err(ProgressionOverflow);
      }
      if reached.value <= points {
        low := middle;
      } else {
        high := middle;
      }
    }
    SmallTotalFits(low);
    NextLevel(low);
    ReachableLevel(low, points);
    var levelStart := ActivityTotalXpForLevel(low);
    var toNext := ActivityXpToNext(low);
    if levelStart.Err? || toNext.Err? {
      return Err(ProgressionOverflow);
    }
    var into := Sub64(points, levelStart.value);
    if into.None? {
      return Err(ProgressionOverflow);
    }
    var remaining := Sub64(toNext.value, into.value);
    if remaining.None? {
      return Err(ProgressionOverflow);
    }
    return Ok(ActivityProgress(points, low, into.value, toNext.value, remaining.value));
  }

  lemma FirstLevel()
    ensures SumOfCosts(0) == 0
  {
  }

  lemma NextLevel(level: nat)
    ensures SumOfCosts(level + 1) == SumOfCosts(level) + Cost(level) && 0 <= SumOfCosts(level)
  {
    TotalIsSumOfCosts(level);
  }

  // ---- rebirth effects

  const REBIRTH_AEXP_BONUS_MAX_PPM := 300_000
  const REBIRTH_REPAIR_REDUCTION_MAX_PPM := 100_000
  const REBIRTH_AEXP_DECAY_Q32 := 4_085_499_269
  const REBIRTH_REPAIR_DECAY_Q32 := 4_126_559_220

  function RebirthEffectPpm(rebirths: nat, maximum: int, decay: int): Result<int, ProgressionMathError> {
    match Q32.PowFrom(Q32.ONE, decay, rebirths)
    case None => Err(ProgressionOverflow)
    case Some(power) =>
      var growth := Q32.ONE - power;
      var numerator := maximum * growth + Q32.ONE / 2;
      if InI128(growth) && InI128(maximum * growth) && InI128(numerator) && InI64(TruncDiv(numerator, Q32.ONE))
      then Ok(TruncDiv(numerator, Q32.ONE)) else Err(ProgressionOverflow)
  }

  function RebirthAexpBonusPpm(rebirths: nat): Result<int, ProgressionMathError> {
    RebirthEffectPpm(rebirths, REBIRTH_AEXP_BONUS_MAX_PPM, REBIRTH_AEXP_DECAY_Q32)
  }

  function RebirthRepairReductionPpm(rebirths: nat): Result<int, ProgressionMathError> {
    RebirthEffectPpm(rebirths, REBIRTH_REPAIR_REDUCTION_MAX_PPM, REBIRTH_REPAIR_DECAY_Q32)
  }

  /** For every rebirth count the effect is between nothing and its maximum, and is the maximum's share of the rounded
      growth to within half a unit. */
  lemma RebirthEffectBounded(rebirths: nat, maximum: int, decay: int)
    requires 0 <= maximum <= I64_MAX && 0 <= decay <= Q32.ONE
    ensures RebirthEffectPpm(rebirths, maximum, decay).Ok? && Q32.PowFrom(Q32.ONE, decay, rebirths).Some?
    ensures var effect := RebirthEffectPpm(rebirths, maximum, decay).value;
      var exact := maximum * (Q32.ONE - Q32.PowFrom(Q32.ONE, decay, rebirths).value);
      && 0 <= effect <= maximum
      && 2 * Abs(effect * Q32.ONE - exact) <= Q32.ONE
  {
    hide Q32.PowFrom;
    Q32.PowError(decay, rebirths);
    var growth := Q32.ONE - Q32.PowFrom(Q32.ONE, decay, rebirths).value;
    MulOrder(growth, Q32.ONE, maximum);
    MulNonNegative(maximum, growth);
  }

  /** Both published effects stay within their published maxima, for every rebirth count. */
  lemma PublishedEffectsBounded(rebirths: nat)
    ensures RebirthAexpBonusPpm(rebirths).Ok? && 0 <= RebirthAexpBonusPpm(rebirths).value <= 300_000
    ensures RebirthRepairReductionPpm(rebirths).Ok? && 0 <= RebirthRepairReductionPpm(rebirths).value <= 100_000
  {
    hide RebirthEffectPpm;
    RebirthEffectBounded(rebirths, REBIRTH_AEXP_BONUS_MAX_PPM, REBIRTH_AEXP_DECAY_Q32);
    RebirthEffectBounded(rebirths, REBIRTH_REPAIR_REDUCTION_MAX_PPM, REBIRTH_REPAIR_DECAY_Q32);
  }

  ghost predicate EffectWithin(effect: int, maximum: int, decayed: real, rebirths: nat) {
    Q32.Close(effect as real, maximum as real * (1.0 - decayed), 0.5 + maximum as real * rebirths as real / 8_589_934_592.0)
  }

  /** For every rebirth count an effect is its maximum times one minus the decayed power, to within half a unit and the error
      of the power. */
  lemma EffectNear(rebirths: nat, maximum: int, decay: int)
    requires 0 <= maximum <= I64_MAX && 0 <= decay <= Q32.ONE
    ensures RebirthEffectPpm(rebirths, maximum, decay).Ok?
    ensures EffectWithin(RebirthEffectPpm(rebirths, maximum, decay).value, maximum,
                         Q32.RealPow(decay as real / 4_294_967_296.0, rebirths), rebirths)
  {
    hide RebirthEffectPpm, Q32.PowFrom, Q32.RealPow, Abs, EffectWithin;
    RebirthEffectBounded(rebirths, maximum, decay);
    Q32.PowError(decay, rebirths);
    EffectError(RebirthEffectPpm(rebirths, maximum, decay).value, maximum, Q32.PowFrom(Q32.ONE, decay, rebirths).value,
                Q32.RealPow(decay as real / 4_294_967_296.0, rebirths), rebirths);
  }

  lemma EffectError(effect: int, maximum: int, power: int, exact: real, n: nat)
    requires 0 <= maximum && 2 * Abs(effect * Q32.ONE - maximum * (Q32.ONE - power)) <= Q32.ONE
    requires Q32.Close(power as real, 4_294_967_296.0 * exact, n as real / 2.0)
    ensures EffectWithin(effect, maximum, exact, n)
  {
    var product := maximum * (Q32.ONE - power);
    ProductReal(maximum, Q32.ONE - power);
    WithinHalf(effect, product);
    EffectOnReals(effect as real, product as real, maximum as real, power as real, exact, n as real);
  }

  lemma ProductReal(a: int, b: int)
    ensures (a * b) as real == a as real * b as real
  {
  }

  lemma WithinHalf(effect: int, product: int)
    requires 2 * Abs(effect * Q32.ONE - product) <= Q32.ONE
    ensures Q32.Close(effect as real * 4_294_967_296.0, product as real, 2_147_483_648.0)
  {
  }

  lemma EffectOnReals(effect: real, product: real, m: real, power: real, exact: real, n: real)
    requires 0.0 <= m && product == m * (4_294_967_296.0 - power)
    requires Q32.Close(effect * 4_294_967_296.0, product, 2_147_483_648.0)
    requires Q32.Close(power, 4_294_967_296.0 * exact, n / 2.0)
    ensures Q32.Close(effect, m * (1.0 - exact), 0.5 + m * n / 8_589_934_592.0)
  {
    var s, e := 4_294_967_296.0, power - 4_294_967_296.0 * exact;
    Q32.ScaledBound(e, n / 2.0, m, m);
    assert m * (s - power) == s * (m * (1.0 - exact)) - e * m;
    assert m * (n / 2.0) == s * (m * n / 8_589_934_592.0);
    EffectScaled(effect, s, m * (1.0 - exact), m * n / 8_589_934_592.0, e * m);
  }

  lemma EffectScaled(effect: real, s: real, target: real, slack: real, error: real)
    requires s == 4_294_967_296.0 && -(s * slack) <= error <= s * slack
    requires -s <= 2.0 * (effect * s - (s * target - error)) <= s
    ensures Q32.Close(effect, target, 0.5 + slack)
  {
  }

  /** Both published effects follow their published curves: up to 300_000 and up to 100_000 parts per million. */
  lemma PublishedEffectsNear(rebirths: nat)
    ensures RebirthAexpBonusPpm(rebirths).Ok? && RebirthRepairReductionPpm(rebirths).Ok?
    ensures Q32.Close(RebirthAexpBonusPpm(rebirths).value as real,
                      300_000.0 * (1.0 - Q32.RealPow(4_085_499_269.0 / 4_294_967_296.0, rebirths)),
                      0.5 + 300_000.0 * rebirths as real / 8_589_934_592.0)
    ensures Q32.Close(RebirthRepairReductionPpm(rebirths).value as real,
                      100_000.0 * (1.0 - Q32.RealPow(4_126_559_220.0 / 4_294_967_296.0, rebirths)),
                      0.5 + 100_000.0 * rebirths as real / 8_589_934_592.0)
  {
    hide RebirthEffectPpm, Q32.RealPow;
    EffectNear(rebirths, 300_000, 4_085_499_269);
    EffectNear(rebirths, 100_000, 4_126_559_220);
  }
}
