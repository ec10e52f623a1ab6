/** The chance of landing an over-cap catch once its line has held: clamp(0.85 - 0.25 * (R - 1) + 0.02 * SharpHook, 0.15,
    0.95), as an exact fraction in lowest terms. */
module OverCap {
  import opened Numbers
  import opened Products
  import opened Sums
  import opened Rationals
  import opened CatchLoad
  import FixedPoint
  import LineBreak

  const SHARP_HOOK_MAX_LEVEL := 10
  const MIN_PERCENT := 15
  const MAX_PERCENT := 95
  const BASE_PERCENT := 85
  const PENALTY_PERCENT := 25
  const POINTS_PER_LEVEL := 2

  datatype Bound = Minimum | Interior | Maximum

  datatype OverCapError = CapabilityRatioNotOverCap | SharpHookLevelOutOfRange(level: int) | OverCapOverflow

  datatype Chance = Chance(bound: Bound, value: Fraction)

  function LevelValue(sharpHook: Option<int>): int {
    match sharpHook { case None => 0 case Some(level) => level }
  }

  predicate LevelLegal(sharpHook: Option<int>) {
    sharpHook.Some? ==> 1 <= sharpHook.value <= SHARP_HOOK_MAX_LEVEL
  }

  function PercentPolicy(bound: Bound, percent: nat): Chance {
    Chance(bound, Reduced(percent, 100))
  }

  function PreviewChance(ratio: CapabilityRatio, sharpHook: Option<int>): Result<Chance, OverCapError> {
    var n, d := ratio.value.numerator, ratio.value.denominator;
    if ratio.classification != OverRodCapability || n <= d then Err(CapabilityRatioNotOverCap)
    else if !LevelLegal(sharpHook) then Err(SharpHookLevelOutOfRange(sharpHook.value))
    else
      var penalty := n * PENALTY_PERCENT;
      var bonus := LevelValue(sharpHook) * POINTS_PER_LEVEL;
      var intercept := BASE_PERCENT + PENALTY_PERCENT;
      if !InU128(penalty) || !InU128(d * (intercept - MIN_PERCENT + bonus)) then Err(OverCapOverflow)
      else if penalty >= d * (intercept - MIN_PERCENT + bonus) then Ok(PercentPolicy(Minimum, MIN_PERCENT))
      else if !InU128(d * (intercept - MAX_PERCENT + bonus)) then Err(OverCapOverflow)
      else if penalty <= d * (intercept - MAX_PERCENT + bonus) then Ok(PercentPolicy(Maximum, MAX_PERCENT))
      else if !InU128(d * (intercept + bonus)) || !InU128(d * (intercept + bonus) - penalty) || !InU128(d * 100) || d == 0
      then Err(OverCapOverflow)
      else Ok(Chance(Interior, Reduced(d * (intercept + bonus) - penalty, d * 100)))
  }

  /** The clamped formula times 100 times the ratio's denominator. */
  function Clamped(n: int, d: int, level: int): int {
    Max(15 * d, Min(95 * d, (110 + 2 * level) * d - 25 * n))
  }

  /** The chance is the clamped formula exactly, in lowest terms; the reported bound says which clamp applies; and the only
      failures are a ratio that is not over cap, an illegal hook level, and an overflowing product. */
  lemma ChanceExact(ratio: CapabilityRatio, sharpHook: Option<int>)
    ensures var (n, d, level) := (ratio.value.numerator, ratio.value.denominator, LevelValue(sharpHook));
      match PreviewChance(ratio, sharpHook)
      case Err(CapabilityRatioNotOverCap) => ratio.classification != OverRodCapability || n <= d
      case Err(SharpHookLevelOutOfRange(l)) => sharpHook == Some(l) && !(1 <= l <= 10)
      case Err(OverCapOverflow) => U128_MAX < 25 * n || U128_MAX < (110 + 2 * level) * d || d == 0
      case Ok(Chance(bound, value)) =>
        && ratio.classification == OverRodCapability && d < n && (sharpHook.Some? ==> 1 <= sharpHook.value <= 10)
        && 0 < value.denominator && GcdOf(value.numerator, value.denominator) == 1
        && value.numerator * (100 * d) == Clamped(n, d, level) * value.denominator
        && (bound == Minimum <==> (110 + 2 * level) * d - 25 * n <= 15 * d)
        && (bound == Maximum <==> (110 + 2 * level) * d - 25 * n >= 95 * d && bound != Minimum)
  {
    hide Reduced, GcdOf;
    var n, d, level := ratio.value.numerator, ratio.value.denominator, LevelValue(sharpHook);
    if LevelLegal(sharpHook) {
      LevelProducts(d, level);
      var result := PreviewChance(ratio, sharpHook);
      if result.Ok? {
        var value := result.value.value;
        match result.value.bound
        case Minimum => Percent(value, 15, d);
        case Maximum => Percent(value, 95, d);
        case Interior => InteriorPercent(value, (110 + 2 * level) * d - 25 * n, d);
      }
    }
  }

  lemma LevelProducts(d: nat, level: int)
    requires 0 <= level <= 10
    ensures d * (110 - 15 + level * 2) == (110 + 2 * level) * d - 15 * d
    ensures d * (110 - 95 + level * 2) == (110 + 2 * level) * d - 95 * d
    ensures d * (110 + level * 2) == (110 + 2 * level) * d
    ensures 110 * d <= (110 + 2 * level) * d
  {
    MulAdd(d, 110 + level * 2, 15);
    MulOrder(110, 110 + 2 * level, d);
  }

  lemma Percent(value: Fraction, percent: nat, d: nat)
    requires percent * value.denominator == value.numerator * 100
    ensures value.numerator * (100 * d) == (percent * d) * value.denominator
  {
    MulAssociates(value.numerator, 100, d);
    MulAssociates(percent, value.denominator, d);
    MulAssociates(percent, d, value.denominator);
    MulCommutes(d, value.denominator);
  }

  lemma InteriorPercent(value: Fraction, raw: int, d: nat)
    requires raw * value.denominator == value.numerator * (d * 100)
    ensures value.numerator * (100 * d) == raw * value.denominator
  {
  }

  /** Always between 15% and 95%. */
  lemma ChanceBounded(ratio: CapabilityRatio, sharpHook: Option<int>)
    requires PreviewChance(ratio, sharpHook).Ok? && 0 < ratio.value.denominator
    ensures var value := PreviewChance(ratio, sharpHook).value.value;
      15 * value.denominator <= 100 * value.numerator <= 95 * value.denominator
  {
    hide PreviewChance, GcdOf;
    ChanceExact(ratio, sharpHook);
    var value, d := PreviewChance(ratio, sharpHook).value.value, ratio.value.denominator;
    var c := Clamped(ratio.value.numerator, d, LevelValue(sharpHook));
    ScaledBounds(value.numerator, value.denominator, d, c);
  }

  lemma ScaledBounds(p: int, q: int, d: int, c: int)
    requires 0 < d && 0 < q && p * (100 * d) == c * q && 15 * d <= c <= 95 * d
    ensures 15 * q <= 100 * p <= 95 * q
  {
    MulOrder(15 * d, c, q);
    MulOrder(c, 95 * d, q);
    assert d * (100 * p) == c * q && d * (15 * q) == (15 * d) * q && d * (95 * q) == (95 * d) * q;
    CancelOrder(d, 15 * q, 100 * p);
    CancelOrder(d, 100 * p, 95 * q);
  }

  /** A higher ratio never raises the chance, and a higher hook level never lowers it. */
  lemma ChanceMonotone(ratio: CapabilityRatio, sharpHook: Option<int>, ratio': CapabilityRatio, sharpHook': Option<int>)
    requires PreviewChance(ratio, sharpHook).Ok? && PreviewChance(ratio', sharpHook').Ok?
    requires 0 < ratio.value.denominator && 0 < ratio'.value.denominator
    requires ratio.value.numerator * ratio'.value.denominator <= ratio'.value.numerator * ratio.value.denominator
    requires LevelValue(sharpHook') <= LevelValue(sharpHook)
    ensures var (c, c') := (PreviewChance(ratio, sharpHook).value.value, PreviewChance(ratio', sharpHook').value.value);
      c'.numerator * c.denominator <= c.numerator * c'.denominator
  {
    hide PreviewChance, GcdOf, Clamped;
    ChanceExact(ratio, sharpHook);
    ChanceExact(ratio', sharpHook');
    var (c, c') := (PreviewChance(ratio, sharpHook).value.value, PreviewChance(ratio', sharpHook').value.value);
    var (n, d, n', d') := (ratio.value.numerator, ratio.value.denominator, ratio'.value.numerator, ratio'.value.denominator);
    ClampedMonotone(n, d, LevelValue(sharpHook), n', d', LevelValue(sharpHook'));
    CrossChances(c.numerator, c.denominator, d, Clamped(n, d, LevelValue(sharpHook)),
                 c'.numerator, c'.denominator, d', Clamped(n', d', LevelValue(sharpHook')));
  }

  lemma ClampedMonotone(n: int, d: int, level: int, n': int, d': int, level': int)
    requires 0 < d && 0 < d' && n * d' <= n' * d && level' <= level
    ensures Clamped(n', d', level') * d <= Clamped(n, d, level) * d'
  {
    hide Clamped, Max, Min;
    var both := d * d';
    MulPositive(d, d');
    MulOrder(110 + 2 * level', 110 + 2 * level, both);
    ClampScaled(n, d, level, d', both, n * d');
    ClampScaled(n', d', level', d, both, n' * d);
    ExtremesOrdered(15 * both, 95 * both, (110 + 2 * level') * both - 25 * (n' * d),
                    (110 + 2 * level) * both - 25 * (n * d'));
  }

  lemma ExtremesOrdered(low: int, high: int, a: int, b: int)
    requires a <= b
    ensures Max(low, Min(high, a)) <= Max(low, Min(high, b))
  {
  }

  lemma ClampScaled(n: int, d: int, level: int, k: int, both: int, scaled: int)
    requires 0 < k && both == d * k && scaled == n * k
    ensures Clamped(n, d, level) * k == Max(15 * both, Min(95 * both, (110 + 2 * level) * both - 25 * scaled))
  {
    var raw := (110 + 2 * level) * d - 25 * n;
    assert raw * k == (110 + 2 * level) * both - 25 * scaled by {
      MulAdd(k, (110 + 2 * level) * d, 25 * n);
      MulAssociates(110 + 2 * level, d, k);
    }
    ScaledExtremes(95 * d, raw, k);
    ScaledExtremes(15 * d, Min(95 * d, raw), k);
    MulAssociates(95, d, k);
    MulAssociates(15, d, k);
  }

  lemma ScaledExtremes(a: int, b: int, k: int)
    requires 0 < k
    ensures Min(a, b) * k == Min(a * k, b * k) && Max(a, b) * k == Max(a * k, b * k)
  {
    CancelOrder(k, a, b);
    CancelOrder(k, b, a);
    MulCommutes(k, a);
    MulCommutes(k, b);
  }

  lemma CrossChances(p: int, q: int, d: int, c: int, p': int, q': int, d': int, c': int)
    requires 0 < q && 0 < q' && 0 < d && 0 < d' && p * (100 * d) == c * q && p' * (100 * d') == c' * q'
    requires c' * d <= c * d'
    ensures p' * q <= p * q'
  {
    var u, u' := 100 * p, 100 * p';
    CrossSide(u, q', d, d', c, q);
    CrossSide(u', q, d', d, c', q');
    MulPositive(q, q');
    MulCommutes(q, q');
    MulPositive(d, d');
    MulCommutes(d, d');
    MulOrder(c' * d, c * d', q * q');
    CancelOrder(d * d', u' * q, u * q');
    assert u' * q == 100 * (p' * q) && u * q' == 100 * (p * q');
  }

  lemma CrossSide(u: int, r: int, d: int, e: int, c: int, q: int)
    requires u * d == c * q
    ensures (d * e) * (u * r) == (c * e) * (q * r)
  {
    Exchange(u, r, d, e);
    MulCommutes(d * e, u * r);
    Exchange(c, q, e, r);
    MulCommutes(e, r);
    assert (u * d) * (r * e) == (c * q) * (e * r);
  }

  lemma Exchange(a: int, b: int, c: int, d: int)
    ensures (a * b) * (c * d) == (a * c) * (b * d)
  {
    MulAssociates(a * b, c, d);
    MulAssociates(a, b, c);
    MulCommutes(b, c);
    MulAssociates(a, c, b);
    MulAssociates(a * c, b, d);
  }

  /** For every over-cap catch of real fish on a legal rod both following steps succeed: the line-break chance and the
      landing chance, for every legal hook level and either bait. */
  lemma RealCatchResolves(tensions: seq<Fraction>, grid: int, strength: Fraction, sturdy: bool, sharpHook: Option<int>)
    requires RealCatch(tensions, grid) && RealStrength(strength) && 1 <= |tensions| <= MAX_FISH_PER_CAST
    requires LevelLegal(sharpHook)
    ensures (forall t <- tensions :: 0 < t.denominator) && 0 < strength.denominator && Capability(tensions, strength).Ok?
    ensures var ratio := Capability(tensions, strength).value;
      if ratio.classification == WithinRodCapability
      then PreviewChance(ratio, sharpHook) == Err(CapabilityRatioNotOverCap)
      else
        && PreviewChance(ratio, sharpHook).Ok?
        && LineBreak.PreviewLineBreakChance(ratio.value.numerator, ratio.value.denominator, sturdy).Ok?
  {
    hide Capability, Units, OnGrid, LineBreak.PreviewLineBreakChance, PreviewChance, GcdOf;
    CapabilityExact(tensions, grid, strength);
    RatioSmall(tensions, grid, strength);
    var ratio := Capability(tensions, strength).value;
    ChanceExact(ratio, sharpHook);
    SmallProducts(ratio.value.numerator, ratio.value.denominator, LevelValue(sharpHook));
    LineBreak.LineBreakContract(ratio.value.numerator, ratio.value.denominator, sturdy);
    WithinRefused(ratio, sharpHook);
  }

  lemma WithinRefused(ratio: CapabilityRatio, sharpHook: Option<int>)
    ensures ratio.classification == WithinRodCapability ==> PreviewChance(ratio, sharpHook) == Err(CapabilityRatioNotOverCap)
  {
  }

  lemma SmallProducts(n: nat, d: nat, level: int)
    requires n <= 5 * MAX_UNITS * 250 && d <= SCALED_GRID * 61_600_000 && 0 <= level <= 10
    ensures 25 * n <= U128_MAX && (110 + 2 * level) * d <= U128_MAX
    ensures d < n ==> InU128((n - d) * FixedPoint.SCALE)
    ensures InU128(n) && InU128(d)
  {
    MulOrder(110 + 2 * level, 130, d);
  }

  lemma RatioSmall(tensions: seq<Fraction>, grid: int, strength: Fraction)
    requires RealCatch(tensions, grid) && RealStrength(strength) && 1 <= |tensions| <= MAX_FISH_PER_CAST
    ensures (forall t <- tensions :: 0 < t.denominator) && 0 < strength.denominator && Capability(tensions, strength).Ok?
    ensures var ratio := Capability(tensions, strength).value;
      && 0 < ratio.value.denominator <= SCALED_GRID * 61_600_000 && ratio.value.numerator <= 5 * MAX_UNITS * 250
  {
    hide Units, OnGrid, UnitsOf, SumFrom, GcdOf, Reduced;
    RealUnits(tensions, grid);
    GridPositive(strength, STRENGTH_GRID);
    CapabilityExact(tensions, grid, strength);
    assert AllOnGrid(tensions, grid);
    CatchLoadExact(tensions, grid);
    var load := CatchLoadOf(tensions).value.value;
    RatioFits(load, strength, grid);
    GridPositive(load, grid);
    MulPositive(load.denominator, strength.numerator);
    ReducedBelow(load.numerator * strength.denominator, load.denominator * strength.numerator);
  }

  lemma ReducedBelow(n: nat, d: nat)
    requires 0 < d
    ensures Reduced(n, d).numerator <= n && 0 < Reduced(n, d).denominator <= d
  {
    hide GcdOf;
    GcdPositive(n, d);
    MulOrder(1, GcdOf(n, d), Reduced(n, d).numerator);
    MulOrder(1, GcdOf(n, d), Reduced(n, d).denominator);
  }
}
