/** Fish tension, catch load and line strength as exact fractions, and the capability they decide.

    All tensions of one catch lie on a common grid: whole-gram weights give multiples of 1/20, and canonical weights, which
    are scaled by 10^12, multiples of 1/(20 * 10^12). A fraction's units on its grid are a whole number. */
module CatchLoad {
  import opened Numbers
  import opened Products
  import opened Sums
  import opened Rationals

  const MAX_FISH_PER_CAST := 5
  const STRENGTHEN_MAX_LEVEL := 10
  const STRENGTHEN_DENOMINATOR := 25
  const WEIGHT_SCALE := 1_000_000_000_000
  const GRAM_GRID := 20
  const SCALED_GRID := 20 * WEIGHT_SCALE
  const STRENGTH_GRID := 250

  datatype Rarity = Common | Uncommon | Rare | Epic | Legendary | Mythic

  datatype Tier = StarterLeather | Wood | Stone | Copper | Gold | Iron | Diamond | Obsidian | Netherite | Graphite

  datatype CapabilityError = NotOrdinaryFishingRod | StarterLeatherIsNotOrdinaryRodTier | ZeroFishWeight
                           | FishCountOutOfRange(count: nat) | StrengthenLevelOutOfRange(level: int) | ArithmeticOverflow

  datatype Load = Load(fishCount: nat, value: Fraction)

  datatype Classification = WithinRodCapability | OverRodCapability

  datatype CapabilityRatio = CapabilityRatio(classification: Classification, value: Fraction)

  // ---- tension of one fish

  function Multiplier(rarity: Rarity): Fraction {
    match rarity
    case Common => Fraction(1, 1)
    case Uncommon => Fraction(11, 10)
    case Rare => Fraction(5, 4)
    case Epic => Fraction(29, 20)
    case Legendary => Fraction(7, 4)
    case Mythic => Fraction(11, 5)
  }

  /** The multiplier in twentieths. */
  function Twentieths(rarity: Rarity): nat {
    match rarity
    case Common => 20
    case Uncommon => 22
    case Rare => 25
    case Epic => 29
    case Legendary => 35
    case Mythic => 44
  }

  function Tension(weightGrams: nat, rarity: Rarity): Result<Fraction, CapabilityError> {
    if weightGrams == 0 then Err(ZeroFishWeight)
    else if !InU64(weightGrams * Multiplier(rarity).numerator) then Err(ArithmeticOverflow)
    else
      var value := Reduced(weightGrams * Multiplier(rarity).numerator, Multiplier(rarity).denominator);
      if value.denominator <= 0xFFFF then Ok(value) else Err(ArithmeticOverflow)
  }

  function ScaledTension(weightScaled: nat, rarity: Rarity): Result<Fraction, CapabilityError> {
    if weightScaled == 0 then Err(ZeroFishWeight)
    else if !InU128(weightScaled * Multiplier(rarity).numerator) || !InU128(WEIGHT_SCALE * Multiplier(rarity).denominator)
    then Err(ArithmeticOverflow)
    else Ok(Reduced(weightScaled * Multiplier(rarity).numerator, WEIGHT_SCALE * Multiplier(rarity).denominator))
  }

  // ---- sums

  /** Adds a tension over the least common denominator, every product checked, and reduces. */
  function AddTension(sum: Fraction, tension: Fraction): Result<Fraction, CapabilityError>
    requires 0 < sum.denominator && 0 < tension.denominator
  {
    GcdPositive(sum.denominator, tension.denominator);
    var common := sum.denominator / GcdOf(sum.denominator, tension.denominator) * tension.denominator;
    var left := sum.numerator * (common / sum.denominator);
    var right := tension.numerator * (common / tension.denominator);
    if !InU128(common) || !InU128(left) || !InU128(right) || !InU128(left + right) || common == 0
    then Err(ArithmeticOverflow)
    else Ok(Reduced(left + right, common))
  }

  function SumFrom(sum: Fraction, tensions: seq<Fraction>): Result<Fraction, CapabilityError>
    requires 0 < sum.denominator && forall t <- tensions :: 0 < t.denominator
    decreases |tensions|
  {
    if tensions == [] then Ok(sum)
    else
      assert tensions[0] in tensions;
      var next :- AddTension(sum, tensions[0]);
      SumFrom(next, tensions[1..])
  }

  function CatchLoadOf(tensions: seq<Fraction>): Result<Load, CapabilityError>
    requires forall t <- tensions :: 0 < t.denominator
  {
    if |tensions| == 0 || |tensions| > MAX_FISH_PER_CAST then Err(FishCountOutOfRange(|tensions|))
    else
      var value :- SumFrom(Fraction(0, 1), tensions);
      Ok(Load(|tensions|, value))
  }

  method ComputeCatchLoad(tensions: seq<Fraction>) returns (r: Result<Load, CapabilityError>)
    requires forall t <- tensions :: 0 < t.denominator
    ensures r == CatchLoadOf(tensions)
  {
    hide AddTension, Reduced;
    if |tensions| == 0 || |tensions| > MAX_FISH_PER_CAST {
      return Err(FishCountOutOfRange(|tensions|));
    }
    var sum := Fraction(0, 1);
    for i := 0 to |tensions|
      invariant 0 < sum.denominator
      invariant SumFrom(Fraction(0, 1), tensions) == SumFrom(sum, tensions[i..])
    {
      assert tensions[i] in tensions && tensions[i..][0] == tensions[i] && tensions[i..][1..] == tensions[i + 1..];
      var next := AddTension(sum, tensions[i]);
      if next.Err? {
        return Err(next.error);
      }
      AddedPositive(sum, tensions[i]);
      sum := next.value;
    }
    return Ok(Load(|tensions|, sum));
  }

  lemma AddedPositive(sum: Fraction, tension: Fraction)
    requires 0 < sum.denominator && 0 < tension.denominator && AddTension(sum, tension).Ok?
    ensures 0 < AddTension(sum, tension).value.denominator
  {
  }

  // ---- units on a grid

  ghost predicate OnGrid(f: Fraction, grid: int) {
    0 < f.denominator && 0 < grid && Divides(f.denominator, grid)
  }

  ghost function Units(f: Fraction, grid: int): int
    requires OnGrid(f, grid)
  {
    f.numerator * (grid / f.denominator)
  }

  /** The whole number of times a divisor goes into the grid. */
  lemma GridQuotient(d: int, grid: int)
    requires 0 < d && 0 < grid && Divides(d, grid)
    ensures grid == d * (grid / d) && 0 < grid / d
  {
    var k: int :| grid == d * k;
    QuotientUnique(d, grid / d, grid % d, k, 0);
    if grid / d <= 0 {
      MulOrder(grid / d, 0, d);
    }
  }

  lemma QuotientIs(d: int, grid: int, k: int)
    requires 0 < d && grid == d * k
    ensures grid / d == k && Divides(d, grid)
  {
    QuotientUnique(d, grid / d, grid % d, k, 0);
  }

  /** Reducing a fraction changes neither its units nor the grid it lies on. */
  lemma ReducedUnits(n: nat, d: nat, grid: int)
    requires 0 < d && 0 < grid && Divides(d, grid)
    ensures OnGrid(Reduced(n, d), grid) && Units(Reduced(n, d), grid) == n * (grid / d)
  {
    hide Reduced;
    var f, g := Reduced(n, d), GcdOf(n, d);
    GridQuotient(d, grid);
    var k := grid / d;
    assert grid == f.denominator * (g * k) by {
      MulCommutes(g, f.denominator);
      MulAssociates(f.denominator, g, k);
    }
    QuotientIs(f.denominator, grid, g * k);
    MulAssociates(f.numerator, g, k);
    MulCommutes(f.numerator, g);
  }

  /** The least common denominator of two divisors of the grid divides it too. */
  lemma CommonDivides(a: nat, b: nat, grid: int)
    requires 0 < a && 0 < b && 0 < grid && Divides(a, grid) && Divides(b, grid)
    ensures 0 < GcdOf(a, b)
    ensures var common := a / GcdOf(a, b) * b;
      && 0 < common && Divides(common, grid)
      && common == a * (common / a) && common == b * (common / b)
  {
    hide GcdOf;
    GcdPositive(a, b);
    var g := GcdOf(a, b);
    var p, q := GcdDivides(a, b);
    QuotientIs(g, a, p);
    var common := p * b;
    assert p > 0 by {
      if p <= 0 {
        MulOrder(p, 0, g);
      }
    }
    MulPositive(p, b);
    var x, y := Bezout(a, b);
    var s: int :| grid == a * s;
    var t: int :| grid == b * t;
    CommonMultiple(a, b, g, p, q, x, y, s, t, grid);
    assert common == a * q by {
      MulAssociates(p, g, q);
      MulCommutes(p, g);
    }
    QuotientIs(a, common, q);
    MulCommutes(p, b);
    QuotientIs(b, common, p);
  }

  lemma CommonMultiple(a: int, b: int, g: int, p: int, q: int, x: int, y: int, s: int, t: int, grid: int)
    requires 0 < g && a == g * p && b == g * q && a * x + b * y == g && grid == a * s && grid == b * t
    ensures Divides(p * b, grid)
  {
    var k := x * t + y * s;
    assert grid * g == grid * (a * x) + grid * (b * y) by {
      MulAdd(grid, a * x, b * y);
    }
    assert grid * (a * x) == (b * t) * (a * x) == (a * b) * (x * t);
    assert grid * (b * y) == (a * s) * (b * y) == (a * b) * (y * s);
    assert (a * b) * (x * t) + (a * b) * (y * s) == (a * b) * k by {
      MulAdd(a * b, x * t, y * s);
    }
    assert a * b == g * (p * b) by {
      MulAssociates(g, p, b);
    }
    assert g * grid == g * ((p * b) * k) by {
      MulAssociates(g, p * b, k);
      MulCommutes(g, grid);
    }
    CancelLeft(g, grid, (p * b) * k);
  }

  // ---- the sum is exact

  lemma {:induction false} UnitsRescaled(n: nat, d: int, common: int, grid: int)
    requires 0 < d && 0 < common && 0 < grid && Divides(d, grid) && Divides(common, grid)
    requires common == d * (common / d)
    ensures (n * (common / d)) * (grid / common) == n * (grid / d)
  {
    GridQuotient(common, grid);
    var k, m := common / d, grid / common;
    MulAssociates(d, k, m);
    QuotientIs(d, grid, k * m);
    MulAssociates(n, k, m);
  }

  /** The least common denominator, as the program forms it. */
  function Common(a: nat, b: nat): (common: nat)
    requires 0 < a && 0 < b
  {
    GcdPositive(a, b);
    MulNonNegative(a / GcdOf(a, b), b);
    a / GcdOf(a, b) * b
  }

  /** Adding a tension to an exact partial sum of `n` units stays within 128 bits: the common denominator, and the new sum
      written over it. */
  ghost predicate Fits(n: nat, t: Fraction, grid: int)
    requires OnGrid(t, grid)
  {
    var common := Common(Reduced(n, grid).denominator, t.denominator);
    common <= U128_MAX && 0 < common && n + Units(t, grid) <= U128_MAX * (grid / common)
  }

  /** Adding a tension adds its units and leaves lowest terms, or overflows exactly when the sum does not fit. */
  lemma AddTensionExact(sum: Fraction, t: Fraction, grid: int)
    requires OnGrid(sum, grid) && OnGrid(t, grid) && GcdOf(sum.numerator, sum.denominator) == 1 && 0 <= Units(sum, grid)
    ensures AddTension(sum, t).Ok? <==> Fits(Units(sum, grid), t, grid)
    ensures match AddTension(sum, t)
      case Err(e) => e == ArithmeticOverflow
      case Ok(next) =>
        && OnGrid(next, grid) && Units(next, grid) == Units(sum, grid) + Units(t, grid)
        && GcdOf(next.numerator, next.denominator) == 1
  {
    hide GcdOf, Reduced, Divides, Common;
    ReducedIs(sum, grid);
    var a, b := sum.denominator, t.denominator;
    CommonDivides(a, b, grid);
    CommonIs(a, b);
    var common := Common(a, b);
    var left, right := sum.numerator * (common / a), t.numerator * (common / b);
    UnitsRescaled(sum.numerator, a, common, grid);
    UnitsRescaled(t.numerator, b, common, grid);
    GridQuotient(common, grid);
    var m := grid / common;
    SmallerThanUnits(sum.numerator, common / a, a, common, left, m);
    SmallerThanUnits(t.numerator, common / b, b, common, right, m);
    MulAdd(m, left, right);
    CancelOrder(m, left + right, U128_MAX);
    ReducedUnits(left + right, common, grid);
  }

  lemma CommonIs(a: nat, b: nat)
    requires 0 < a && 0 < b
    ensures 0 < GcdOf(a, b) && Common(a, b) == a / GcdOf(a, b) * b
  {
    GcdPositive(a, b);
  }

  /** A fraction in lowest terms is its units over the grid, reduced. */
  lemma ReducedIs(f: Fraction, grid: int)
    requires OnGrid(f, grid) && GcdOf(f.numerator, f.denominator) == 1 && 0 <= Units(f, grid)
    ensures Reduced(Units(f, grid), grid) == f
  {
    hide GcdOf, Reduced;
    QuotientIs(grid, grid, 1);
    ReducedUnits(Units(f, grid), grid, grid);
    UnitsDetermine(Reduced(Units(f, grid), grid), f, grid);
  }

  lemma SmallerThanUnits(n: nat, k: int, d: int, common: int, part: int, m: int)
    requires 0 < d && 0 < common && common == d * k && part == n * k && 0 < m
    ensures 0 <= part <= part * m
  {
    if k < 0 {
      MulOrder(k, 0, d);
    }
    MulNonNegative(n, k);
    MulOrder(1, m, part);
  }

  function UnitsOf(tensions: seq<Fraction>, grid: int): (units: seq<int>)
    requires 0 < grid && forall t <- tensions :: 0 < t.denominator
    ensures |units| == |tensions|
  {
    seq(|tensions|, i requires 0 <= i < |tensions| =>
      assert tensions[i] in tensions; tensions[i].numerator * (grid / tensions[i].denominator))
  }

  ghost predicate AllOnGrid(tensions: seq<Fraction>, grid: int) {
    0 < grid && forall t <- tensions :: OnGrid(t, grid)
  }

  lemma UnitsNonNegative(tensions: seq<Fraction>, grid: int)
    requires AllOnGrid(tensions, grid)
    ensures 0 <= Sum(UnitsOf(tensions, grid))
    ensures tensions != [] ==>
      UnitsOf(tensions, grid)[1..] == UnitsOf(tensions[1..], grid) && 0 <= UnitsOf(tensions, grid)[0]
  {
    forall i | 0 <= i < |tensions|
      ensures 0 <= UnitsOf(tensions, grid)[i]
    {
      assert tensions[i] in tensions;
      GridQuotient(tensions[i].denominator, grid);
      MulNonNegative(tensions[i].numerator, grid / tensions[i].denominator);
    }
    SumNonNegative(UnitsOf(tensions, grid));
  }

  /** Every partial sum from `n` units on fits. */
  ghost predicate AllFit(n: nat, tensions: seq<Fraction>, grid: int)
    requires AllOnGrid(tensions, grid)
    decreases |tensions|
  {
    tensions == []
    || (assert tensions[0] in tensions;
        Fits(n, tensions[0], grid) && 0 <= Units(tensions[0], grid)
        && AllFit(n + Units(tensions[0], grid), tensions[1..], grid))
  }

  lemma {:induction false} SumFromExact(sum: Fraction, tensions: seq<Fraction>, grid: int)
    requires OnGrid(sum, grid) && AllOnGrid(tensions, grid) && 0 <= Units(sum, grid)
    requires GcdOf(sum.numerator, sum.denominator) == 1 && forall t <- tensions :: 0 < t.denominator
    ensures SumFrom(sum, tensions).Ok? <==> AllFit(Units(sum, grid), tensions, grid)
    ensures match SumFrom(sum, tensions)
      case Err(e) => e == ArithmeticOverflow
      case Ok(total) =>
        && OnGrid(total, grid) && Units(total, grid) == Units(sum, grid) + Sum(UnitsOf(tensions, grid))
        && GcdOf(total.numerator, total.denominator) == 1
    decreases |tensions|
  {
    hide AddTension, GcdOf, OnGrid, Units, Fits;
    UnitsNonNegative(tensions, grid);
    if tensions == [] {
    } else {
      UnitsNonNegative(tensions[1..], grid);
      assert tensions[0] in tensions;
      assert Units(tensions[0], grid) == UnitsOf(tensions, grid)[0] by {
        UnitsAre(tensions[0], grid);
      }
      GridPositive(sum, grid);
      GridPositive(tensions[0], grid);
      AddTensionExact(sum, tensions[0], grid);
      if AddTension(sum, tensions[0]).Ok? {
        SumFromExact(AddTension(sum, tensions[0]).value, tensions[1..], grid);
      }
    }
  }

  /** A total that fits the grid's own denominator fits at every step. */
  lemma {:induction false} SmallFits(n: nat, tensions: seq<Fraction>, grid: int)
    requires AllOnGrid(tensions, grid) && grid <= U128_MAX && n + Sum(UnitsOf(tensions, grid)) <= U128_MAX
    requires forall t <- tensions :: 0 < t.denominator
    ensures AllFit(n, tensions, grid)
    decreases |tensions|
  {
    hide GcdOf, Reduced, Common, Divides, Units;
    UnitsNonNegative(tensions, grid);
    if tensions == [] {
    } else {
      UnitsNonNegative(tensions[1..], grid);
      assert tensions[0] in tensions;
      UnitsAre(tensions[0], grid);
      StepSmall(n, tensions[0], grid);
      SmallFits(n + Units(tensions[0], grid), tensions[1..], grid);
    }
  }

  lemma StepSmall(n: nat, t: Fraction, grid: int)
    requires OnGrid(t, grid) && grid <= U128_MAX && n + Units(t, grid) <= U128_MAX
    ensures Fits(n, t, grid)
  {
    hide GcdOf, Reduced, Common, Divides, Units;
    QuotientIs(grid, grid, 1);
    ReducedUnits(n, grid, grid);
    var d := Reduced(n, grid).denominator;
    CommonDivides(d, t.denominator, grid);
    CommonIs(d, t.denominator);
    var common := Common(d, t.denominator);
    GridQuotient(common, grid);
    MulPositive(common, grid / common);
    MulOrder(1, grid / common, U128_MAX);
  }

  lemma UnitsAre(f: Fraction, grid: int)
    requires OnGrid(f, grid)
    ensures 0 < f.denominator && 0 < grid && Units(f, grid) == f.numerator * (grid / f.denominator)
  {
  }

  lemma GridPositive(f: Fraction, grid: int)
    requires OnGrid(f, grid)
    ensures 0 < f.denominator
  {
  }

  /** The catch load is exactly the sum of the tensions, in lowest terms. For one to five fish it exists if and only if every
      partial sum fits 128 bits, in particular when the total and the grid do. */
  lemma CatchLoadExact(tensions: seq<Fraction>, grid: int)
    requires AllOnGrid(tensions, grid)
    ensures forall t <- tensions :: 0 < t.denominator
    ensures CatchLoadOf(tensions).Ok? <==> 1 <= |tensions| <= 5 && AllFit(0, tensions, grid)
    ensures CatchLoadOf(tensions).Err? ==>
      CatchLoadOf(tensions).error
      == if 1 <= |tensions| <= 5 then ArithmeticOverflow else FishCountOutOfRange(|tensions|)
    ensures CatchLoadOf(tensions).Ok? ==>
      var load := CatchLoadOf(tensions).value;
      && load.fishCount == |tensions| && OnGrid(load.value, grid)
      && Units(load.value, grid) == Sum(UnitsOf(tensions, grid))
      && GcdOf(load.value.numerator, load.value.denominator) == 1
    ensures grid <= U128_MAX && Sum(UnitsOf(tensions, grid)) <= U128_MAX && 1 <= |tensions| <= 5 ==>
      CatchLoadOf(tensions).Ok?
  {
    hide SumFrom, AllFit;
    GridDenominators(tensions, grid);
    QuotientIs(1, grid, grid);
    assert GcdOf(0, 1) == 1;
    SumFromExact(Fraction(0, 1), tensions, grid);
    if grid <= U128_MAX && Sum(UnitsOf(tensions, grid)) <= U128_MAX {
      SmallFits(0, tensions, grid);
    }
  }

  lemma GridDenominators(tensions: seq<Fraction>, grid: int)
    requires AllOnGrid(tensions, grid)
    ensures forall t <- tensions :: 0 < t.denominator
  {
  }

  /** Two fractions on the grid with the same units are the same fraction once reduced. */
  lemma UnitsDetermine(f: Fraction, g: Fraction, grid: int)
    requires OnGrid(f, grid) && OnGrid(g, grid) && Units(f, grid) == Units(g, grid)
    requires GcdOf(f.numerator, f.denominator) == 1 && GcdOf(g.numerator, g.denominator) == 1
    ensures f == g
  {
    GridQuotient(f.denominator, grid);
    GridQuotient(g.denominator, grid);
    CrossUnits(f.numerator, f.denominator, grid / f.denominator, g.numerator, g.denominator, grid / g.denominator,
               grid);
    LowestTermsUnique(f.numerator, f.denominator, g.numerator, g.denominator);
  }

  lemma Regroup(d: int, k: int, n: int, e: int)
    ensures (d * k) * (n * e) == (d * e) * (n * k)
  {
    MulAssociates(d, k, n * e);
    MulAssociates(k, n, e);
    MulCommutes(k, n);
    MulCommutes(n * k, e);
    MulAssociates(d, e, n * k);
  }

  /** Comparing units is comparing fractions. */
  lemma CrossUnits(n: int, d: int, k: int, n': int, d': int, k': int, grid: int)
    requires 0 < grid && grid == d * k && grid == d' * k' && 0 < d && 0 < d' && 0 < k && 0 < k'
    ensures n * k <= n' * k' <==> n * d' <= n' * d
    ensures n * k == n' * k' <==> n * d' == n' * d
  {
    var u, u' := n * k, n' * k';
    Regroup(d, k, n, d');
    Regroup(d', k', n', d);
    MulCommutes(d, d');
    MulPositive(d, d');
    CancelOrder(grid, n * d', n' * d);
    CancelOrder(grid, n' * d, n * d');
    CancelOrder(d * d', u, u');
    CancelOrder(d * d', u', u);
  }

  /** The order of the fish does not change a load: two orders that both succeed agree, and while the total fits, in
      particular for every catch of real fish, one succeeds when the other does. */
  lemma CatchLoadOrderIrrelevant(tensions: seq<Fraction>, reordered: seq<Fraction>, grid: int)
    requires AllOnGrid(tensions, grid) && multiset(tensions) == multiset(reordered)
    ensures (forall t <- tensions :: 0 < t.denominator) && (forall t <- reordered :: 0 < t.denominator)
    ensures CatchLoadOf(tensions).Ok? && CatchLoadOf(reordered).Ok? ==> CatchLoadOf(tensions) == CatchLoadOf(reordered)
    ensures RealCatch(tensions, grid) || (grid <= U128_MAX && Sum(UnitsOf(tensions, grid)) <= U128_MAX) ==>
      CatchLoadOf(tensions) == CatchLoadOf(reordered)
  {
    hide CatchLoadOf, OnGrid, Units, AllFit, RealCatch, GcdOf;
    forall t | t in reordered
      ensures t in tensions
    {
      assert t in multiset(reordered);
    }
    assert |tensions| == |multiset(tensions)| == |reordered|;
    GridDenominators(tensions, grid);
    SumReordered(tensions, reordered, grid);
    CatchLoadExact(tensions, grid);
    CatchLoadExact(reordered, grid);
    if CatchLoadOf(tensions).Ok? && CatchLoadOf(reordered).Ok? {
      UnitsDetermine(CatchLoadOf(tensions).value.value, CatchLoadOf(reordered).value.value, grid);
    }
    if RealCatch(tensions, grid) && |tensions| <= MAX_FISH_PER_CAST {
      RealTotal(tensions, grid);
    }
  }

  /** A denominator whose product with the next one leaves 128 bits. */
  const WIDE := 0x7FFF_FFFF_FFFF_FFFF_FFFF_FFFF_FFFF_FFFF

  /** Outside real catches the order can decide whether the sum overflows: two parts of a whole one after the other, or with a
      third denominator between them. */
  lemma OrderCanOverflow()
    ensures var (x, y, z) := (Fraction(1, WIDE), Fraction(WIDE - 1, WIDE), Fraction(1, WIDE + 1));
      && CatchLoadOf([x, y, z]) == Ok(Load(3, Fraction(WIDE + 2, WIDE + 1)))
      && CatchLoadOf([x, z, y]) == Err(ArithmeticOverflow)
  {
    hide AddTension, SumFrom;
    var (x, y, z) := (Fraction(1, WIDE), Fraction(WIDE - 1, WIDE), Fraction(1, WIDE + 1));
    WideSums();
    ThreeTensions(x, y, z, x);
    ThreeTensions(x, z, y, x);
  }

  lemma ThreeTensions(x: Fraction, y: Fraction, z: Fraction, one: Fraction)
    requires 0 < x.denominator && 0 < y.denominator && 0 < z.denominator && 0 < one.denominator
    requires AddTension(Fraction(0, 1), x) == Ok(one)
    ensures AddTension(one, y).Err? ==> SumFrom(Fraction(0, 1), [x, y, z]) == Err(AddTension(one, y).error)
    ensures AddTension(one, y).Ok? && 0 < AddTension(one, y).value.denominator ==>
      SumFrom(Fraction(0, 1), [x, y, z]) == AddTension(AddTension(one, y).value, z)
  {
    hide AddTension;
    assert [x, y, z][1..] == [y, z] && [y, z][1..] == [z];
    assert SumFrom(Fraction(0, 1), [x, y, z]) == SumFrom(one, [y, z]);
    if AddTension(one, y).Ok? && 0 < AddTension(one, y).value.denominator {
      assert SumFrom(one, [y, z]) == SumFrom(AddTension(one, y).value, [z]);
      LastTension(AddTension(one, y).value, z);
    }
  }

  lemma LastTension(sum: Fraction, z: Fraction)
    requires 0 < sum.denominator && 0 < z.denominator
    ensures SumFrom(sum, [z]) == AddTension(sum, z)
  {
    hide AddTension;
    assert [z][1..] == [];
    if AddTension(sum, z).Ok? {
      AddedPositive(sum, z);
      assert SumFrom(AddTension(sum, z).value, []) == AddTension(sum, z);
    }
  }

  lemma WideSums()
    ensures AddTension(Fraction(0, 1), Fraction(1, WIDE)) == Ok(Fraction(1, WIDE))
    ensures AddTension(Fraction(1, WIDE), Fraction(WIDE - 1, WIDE)) == Ok(Fraction(1, 1))
    ensures AddTension(Fraction(1, 1), Fraction(1, WIDE + 1)) == Ok(Fraction(WIDE + 2, WIDE + 1))
    ensures AddTension(Fraction(1, WIDE), Fraction(1, WIDE + 1)) == Err(ArithmeticOverflow)
  {
    hide GcdOf;
    WideDivisors();
  }

  lemma WideDivisors()
    ensures GcdOf(1, WIDE) == 1 && GcdOf(WIDE, WIDE) == WIDE && GcdOf(1, WIDE + 1) == 1 && GcdOf(WIDE, WIDE + 1) == 1
    ensures GcdOf(WIDE + 2, WIDE + 1) == 1
  {
    assert GcdOf(WIDE + 2, WIDE + 1) == GcdOf(WIDE + 1, 1);
    assert GcdOf(WIDE, WIDE + 1) == GcdOf(WIDE + 1, WIDE) == GcdOf(WIDE, 1);
  }

  /** Taking the first element of one arrangement out of the other leaves arrangements of the same rest. */
  lemma Removed(s: seq<Fraction>, t: seq<Fraction>) returns (i: nat)
    requires s != [] && multiset(s) == multiset(t)
    ensures i < |t| && t[i] == s[0] && multiset(s[1..]) == multiset(t[..i] + t[i + 1..])
  {
    assert s[0] in multiset(s);
    i :| 0 <= i < |t| && t[i] == s[0];
    assert s == [s[0]] + s[1..];
    assert t == t[..i] + ([t[i]] + t[i + 1..]);
    assert multiset(s) == multiset{s[0]} + multiset(s[1..]);
    assert multiset(t) == multiset(t[..i]) + (multiset{t[i]} + multiset(t[i + 1..]));
    assert multiset(t[..i] + t[i + 1..]) == multiset(t[..i]) + multiset(t[i + 1..]);
    forall x
      ensures multiset(s[1..])[x] == multiset(t[..i] + t[i + 1..])[x]
    {
      assert multiset(s)[x] == multiset(t)[x];
    }
  }

  lemma {:induction false} SumReordered(tensions: seq<Fraction>, reordered: seq<Fraction>, grid: int)
    requires 0 < grid && multiset(tensions) == multiset(reordered)
    requires forall t <- tensions :: 0 < t.denominator
    requires forall t <- reordered :: 0 < t.denominator
    ensures Sum(UnitsOf(tensions, grid)) == Sum(UnitsOf(reordered, grid))
    decreases |tensions|
  {
    assert |tensions| == |multiset(tensions)| == |reordered|;
    if tensions == [] {
    } else {
      var i := Removed(tensions, reordered);
      var rest := reordered[..i] + reordered[i + 1..];
      SumReordered(tensions[1..], rest, grid);
      var units := UnitsOf(reordered, grid);
      assert UnitsOf(tensions, grid)[1..] == UnitsOf(tensions[1..], grid);
      assert units == units[..i] + [units[i]] + units[i + 1..];
      assert UnitsOf(rest, grid) == units[..i] + units[i + 1..];
      SumConcat(units[..i] + [units[i]], units[i + 1..]);
      SumConcat(units[..i], [units[i]]);
      SumConcat(units[..i], units[i + 1..]);
    }
  }

  // ---- tensions of real fish lie on their grid

  /** A tension is the weight times the multiplier, exactly: in units of a twentieth. */
  lemma TensionExact(weightGrams: nat, rarity: Rarity)
    requires InU64(weightGrams)
    ensures Tension(weightGrams, rarity).Ok? <==>
      0 < weightGrams && InU64(weightGrams * Multiplier(rarity).numerator)
    ensures Tension(weightGrams, rarity).Ok? ==>
      var t := Tension(weightGrams, rarity).value;
      && OnGrid(t, GRAM_GRID) && Units(t, GRAM_GRID) == weightGrams * Twentieths(rarity)
  {
    hide Reduced, GcdOf;
    var m := Multiplier(rarity);
    QuotientIs(m.denominator, GRAM_GRID, GRAM_GRID / m.denominator);
    assert m.numerator * (GRAM_GRID / m.denominator) == Twentieths(rarity);
    var n := weightGrams * m.numerator;
    ReducedUnits(n, m.denominator, GRAM_GRID);
    MulAssociates(weightGrams, m.numerator, GRAM_GRID / m.denominator);
    ReducedSmaller(n, m.denominator);
  }

  lemma ReducedSmaller(n: nat, d: nat)
    requires 0 < d
    ensures Reduced(n, d).denominator <= d
  {
    hide Reduced, GcdOf;
    GcdPositive(n, d);
    MulOrder(1, GcdOf(n, d), Reduced(n, d).denominator);
  }

  /** A canonical weight is not rounded: its tension is the scaled weight times the multiplier. */
  lemma ScaledTensionExact(weightScaled: nat, rarity: Rarity)
    requires InU64(weightScaled)
    ensures ScaledTension(weightScaled, rarity).Ok? <==> 0 < weightScaled
    ensures ScaledTension(weightScaled, rarity).Ok? ==>
      var t := ScaledTension(weightScaled, rarity).value;
      && OnGrid(t, SCALED_GRID) && Units(t, SCALED_GRID) == weightScaled * Twentieths(rarity)
  {
    hide Reduced, GcdOf;
    var m := Multiplier(rarity);
    var n, d := weightScaled * m.numerator, WEIGHT_SCALE * m.denominator;
    QuotientIs(d, SCALED_GRID, GRAM_GRID / m.denominator);
    assert m.numerator * (GRAM_GRID / m.denominator) == Twentieths(rarity);
    ReducedUnits(n, d, SCALED_GRID);
    MulAssociates(weightScaled, m.numerator, GRAM_GRID / m.denominator);
  }

  // ---- line strength

  function BaseLineStrength(tier: Tier): nat {
    match tier
    case StarterLeather => 0
    case Wood => 6_000
    case Stone => 10_000
    case Copper => 18_000
    case Gold => 40_000
    case Iron => 30_000
    case Diamond => 55_000
    case Obsidian => 85_000
    case Netherite => 120_000
    case Graphite => 160_000
  }

  function LineStrength(tier: Tier, ordinaryRod: bool, strengthen: Option<int>,
                        sturdy: bool): Result<Fraction, CapabilityError> {
    if !ordinaryRod then Err(NotOrdinaryFishingRod)
    else if tier == StarterLeather then Err(StarterLeatherIsNotOrdinaryRodTier)
    else if strengthen.Some? && !(1 <= strengthen.value <= STRENGTHEN_MAX_LEVEL)
    then Err(StrengthenLevelOutOfRange(strengthen.value))
    else
      var level := if strengthen.Some? then strengthen.value else 0;
      var numerator := BaseLineStrength(tier) * (STRENGTHEN_DENOMINATOR + level);
      Ok(if sturdy then Reduced(numerator * 11, STRENGTHEN_DENOMINATOR * 10) else Reduced(numerator, STRENGTHEN_DENOMINATOR))
  }

  /** Every ordinary rod above the starter has a strength at every legal level, and only those do. In units of 1/250 it is the
      base with four percent more per level, and a tenth more with the Sturdy bait. */
  lemma LineStrengthExact(tier: Tier, ordinaryRod: bool, strengthen: Option<int>, sturdy: bool)
    ensures LineStrength(tier, ordinaryRod, strengthen, sturdy).Ok?
        <==> ordinaryRod && tier != StarterLeather && (strengthen.Some? ==> 1 <= strengthen.value <= 10)
    ensures LineStrength(tier, ordinaryRod, strengthen, sturdy).Err? ==>
      LineStrength(tier, ordinaryRod, strengthen, sturdy).error
      == if !ordinaryRod then NotOrdinaryFishingRod
         else if tier == StarterLeather then StarterLeatherIsNotOrdinaryRodTier
         else StrengthenLevelOutOfRange(if strengthen.Some? then strengthen.value else 0)
    ensures LineStrength(tier, ordinaryRod, strengthen, sturdy).Ok? ==>
      var strength := LineStrength(tier, ordinaryRod, strengthen, sturdy).value;
      var level := if strengthen.Some? then strengthen.value else 0;
      && OnGrid(strength, STRENGTH_GRID) && 0 < strength.numerator
      && Units(strength, STRENGTH_GRID) == BaseLineStrength(tier) * (25 + level) * (if sturdy then 11 else 10)
      && 0 < Units(strength, STRENGTH_GRID) <= 61_600_000
  {
    hide Reduced, GcdOf;
    if LineStrength(tier, ordinaryRod, strengthen, sturdy).Ok? {
      var level := if strengthen.Some? then strengthen.value else 0;
      var n := BaseLineStrength(tier) * (STRENGTHEN_DENOMINATOR + level);
      QuotientIs(25, STRENGTH_GRID, 10);
      QuotientIs(250, STRENGTH_GRID, 1);
      ReducedUnits(n, 25, STRENGTH_GRID);
      ReducedUnits(n * 11, 250, STRENGTH_GRID);
      assert 0 < n <= 5_600_000;
      ReducedPositive(n, 25);
      ReducedPositive(n * 11, 250);
    }
  }

  lemma ReducedPositive(n: nat, d: nat)
    requires 0 < n && 0 < d
    ensures 0 < Reduced(n, d).numerator
  {
    hide GcdOf;
    var f, g := Reduced(n, d), GcdOf(n, d);
    assert g * 0 == 0;
    assert f.numerator != 0;
  }

  // ---- capability

  function CapabilityRatioOf(load: Fraction, strength: Fraction): Result<CapabilityRatio, CapabilityError>
    requires 0 < load.denominator && 0 < strength.denominator && 0 < strength.numerator
  {
    var n, d := load.numerator * strength.denominator, load.denominator * strength.numerator;
    MulPositive(load.denominator, strength.numerator);
    if !InU128(n) || !InU128(d) then Err(ArithmeticOverflow)
    else
      var value := Reduced(n, d);
      Ok(CapabilityRatio(if value.numerator <= value.denominator then WithinRodCapability else OverRodCapability, value))
  }

  /** A load is within capability exactly when its units are at most the strength's, on a common grid. */
  lemma WithinExactly(load: Fraction, strength: Fraction, grid: int)
    requires OnGrid(load, grid) && OnGrid(strength, STRENGTH_GRID) && 0 < strength.numerator
    requires CapabilityRatioOf(load, strength).Ok?
    ensures var ratio := CapabilityRatioOf(load, strength).value;
      && (ratio.classification == WithinRodCapability
          <==> Units(load, grid) * STRENGTH_GRID <= Units(strength, STRENGTH_GRID) * grid)
      && (ratio.classification == OverRodCapability <==> ratio.value.numerator > ratio.value.denominator)
      && ratio.value.numerator * (Units(strength, STRENGTH_GRID) * grid)
         == ratio.value.denominator * (Units(load, grid) * STRENGTH_GRID)
  {
    hide Reduced, GcdOf, Divides;
    GridQuotient(load.denominator, grid);
    GridQuotient(strength.denominator, STRENGTH_GRID);
    var n, d := load.numerator * strength.denominator, load.denominator * strength.numerator;
    MulPositive(load.denominator, strength.numerator);
    var ratio := Reduced(n, d);
    GcdPositive(n, d);
    CancelOrder(GcdOf(n, d), ratio.numerator, ratio.denominator);
    var k, m := grid / load.denominator, STRENGTH_GRID / strength.denominator;
    RatioUnits(load.numerator, load.denominator, k, grid, strength.numerator, strength.denominator, m, n, d);
    RatioCross(ratio.numerator, ratio.denominator, n, d, k * m, Units(load, grid) * STRENGTH_GRID,
               Units(strength, STRENGTH_GRID) * grid);
  }

  /** Both sides of the comparison, scaled by the same positive number. */
  lemma RatioUnits(a: int, b: int, k: int, grid: int, s: int, t: int, m: int, n: int, d: int)
    requires grid == b * k && STRENGTH_GRID == t * m && n == a * t && d == b * s && 0 < k && 0 < m
    ensures 0 < k * m && a * k * STRENGTH_GRID == (k * m) * n && s * m * grid == (k * m) * d
    ensures a * k * STRENGTH_GRID <= s * m * grid <==> n <= d
  {
    MulPositive(k, m);
    assert a * k * STRENGTH_GRID == (k * m) * n by {
      assert a * k * (t * m) == (k * m) * (a * t);
    }
    assert s * m * (b * k) == (k * m) * (b * s);
    CancelOrder(k * m, n, d);
  }

  lemma RatioCross(p: int, q: int, n: int, d: int, c: int, load: int, strength: int)
    requires n * q == p * d && load == c * n && strength == c * d
    ensures p * strength == q * load
  {
    assert p * (c * d) == c * (p * d);
    assert q * (c * n) == c * (n * q);
  }

  // ---- every real catch

  /** The units of a tension built from any u64 weight. */
  const MAX_UNITS := 44 * U64_MAX

  ghost predicate RealCatch(tensions: seq<Fraction>, grid: int) {
    && grid in {GRAM_GRID, SCALED_GRID}
    && forall t <- tensions :: OnGrid(t, grid) && 0 < Units(t, grid) <= MAX_UNITS
  }

  lemma {:induction false} RealUnits(tensions: seq<Fraction>, grid: int)
    requires RealCatch(tensions, grid)
    ensures forall t <- tensions :: 0 < t.denominator
    ensures |tensions| <= Sum(UnitsOf(tensions, grid)) <= |tensions| * MAX_UNITS
    decreases |tensions|
  {
    hide Units, OnGrid;
    forall t | t in tensions
      ensures 0 < t.denominator
    {
      GridPositive(t, grid);
    }
    if tensions == [] {
    } else {
      RealUnits(tensions[1..], grid);
      assert tensions[0] in tensions;
      UnitsAre(tensions[0], grid);
      assert UnitsOf(tensions, grid)[1..] == UnitsOf(tensions[1..], grid);
    }
  }

  lemma RealTotal(tensions: seq<Fraction>, grid: int)
    requires RealCatch(tensions, grid) && |tensions| <= MAX_FISH_PER_CAST
    ensures forall t <- tensions :: 0 < t.denominator
    ensures grid <= U128_MAX && Sum(UnitsOf(tensions, grid)) <= U128_MAX
  {
    hide OnGrid, Units;
    RealUnits(tensions, grid);
  }

  /** The capability of a catch on a rod, through load and ratio. */
  function Capability(tensions: seq<Fraction>, strength: Fraction): Result<CapabilityRatio, CapabilityError>
    requires (forall t <- tensions :: 0 < t.denominator) && 0 < strength.denominator && 0 < strength.numerator
  {
    var load :- CatchLoadOf(tensions);
    CatchLoadPositive(tensions);
    CapabilityRatioOf(load.value, strength)
  }

  lemma {:induction false} SumFromPositive(sum: Fraction, tensions: seq<Fraction>)
    requires 0 < sum.denominator && forall t <- tensions :: 0 < t.denominator
    ensures SumFrom(sum, tensions).Ok? ==> 0 < SumFrom(sum, tensions).value.denominator
    decreases |tensions|
  {
    hide AddTension;
    if tensions == [] {
    } else {
      assert tensions[0] in tensions;
      var next := AddTension(sum, tensions[0]);
      if next.Ok? {
        AddedPositive(sum, tensions[0]);
        SumFromPositive(next.value, tensions[1..]);
      }
    }
  }

  lemma CatchLoadPositive(tensions: seq<Fraction>)
    requires forall t <- tensions :: 0 < t.denominator
    ensures CatchLoadOf(tensions).Ok? ==> 0 < CatchLoadOf(tensions).value.value.denominator
  {
    SumFromPositive(Fraction(0, 1), tensions);
  }

  /** A strength as some legal rod and bait give it. */
  ghost predicate RealStrength(strength: Fraction) {
    && OnGrid(strength, STRENGTH_GRID) && 0 < strength.numerator && 0 < Units(strength, STRENGTH_GRID) <= 61_600_000
  }

  /** For every catch of one to five real fish on every legal rod the whole chain succeeds, and the catch is within
      capability exactly when the sum of the tensions is at most the line strength. */
  lemma CapabilityExact(tensions: seq<Fraction>, grid: int, strength: Fraction)
    requires RealCatch(tensions, grid) && RealStrength(strength) && 1 <= |tensions| <= MAX_FISH_PER_CAST
    ensures (forall t <- tensions :: 0 < t.denominator) && 0 < strength.denominator && Capability(tensions, strength).Ok?
    ensures var ratio := Capability(tensions, strength).value;
      var (load, limit) := (Sum(UnitsOf(tensions, grid)) * STRENGTH_GRID, Units(strength, STRENGTH_GRID) * grid);
      && (ratio.classification == WithinRodCapability <==> load <= limit)
      && (ratio.classification == OverRodCapability <==> ratio.value.numerator > ratio.value.denominator)
      && ratio.value.numerator * limit == ratio.value.denominator * load
  {
    hide Units, OnGrid, UnitsOf, CatchLoadOf, CapabilityRatioOf;
    RealUnits(tensions, grid);
    CatchLoadPositive(tensions);
    GridPositive(strength, STRENGTH_GRID);
    assert AllOnGrid(tensions, grid);
    CatchLoadExact(tensions, grid);
    var load := CatchLoadOf(tensions).value.value;
    RatioFits(load, strength, grid);
    WithinExactly(load, strength, grid);
  }

  /** Neither side of the ratio overflows. */
  lemma RatioFits(load: Fraction, strength: Fraction, grid: int)
    requires OnGrid(load, grid) && 0 <= Units(load, grid) <= 5 * MAX_UNITS && grid in {GRAM_GRID, SCALED_GRID}
    requires RealStrength(strength)
    ensures CapabilityRatioOf(load, strength).Ok?
    ensures load.numerator * strength.denominator <= 5 * MAX_UNITS * 250
    ensures load.denominator * strength.numerator <= SCALED_GRID * 61_600_000
  {
    hide Reduced, GcdOf, Divides;
    GridQuotient(load.denominator, grid);
    GridQuotient(strength.denominator, STRENGTH_GRID);
    MulOrder(1, grid / load.denominator, load.numerator);
    MulOrder(1, STRENGTH_GRID / strength.denominator, strength.numerator);
    MulOrder(1, grid / load.denominator, load.denominator);
    MulOrder(1, STRENGTH_GRID / strength.denominator, strength.denominator);
    MulOrder(load.numerator, 5 * MAX_UNITS, strength.denominator);
    MulOrder(strength.denominator, 250, 5 * MAX_UNITS);
    MulOrder(load.denominator, SCALED_GRID, strength.numerator);
    MulOrder(strength.numerator, 61_600_000, SCALED_GRID);
    MulNonNegative(load.numerator, strength.denominator);
    MulNonNegative(load.denominator, strength.numerator);
  }

  /** One more fish never brings a catch back within capability. */
  lemma MoreFishStayOver(tensions: seq<Fraction>, more: Fraction, grid: int, strength: Fraction)
    requires RealCatch(tensions + [more], grid) && RealStrength(strength) && 1 <= |tensions| < MAX_FISH_PER_CAST
    ensures (forall t <- tensions :: 0 < t.denominator) && (forall t <- tensions + [more] :: 0 < t.denominator)
    ensures 0 < strength.denominator && Capability(tensions, strength).Ok? && Capability(tensions + [more], strength).Ok?
    ensures Capability(tensions, strength).value.classification == OverRodCapability ==>
      Capability(tensions + [more], strength).value.classification == OverRodCapability
  {
    hide Units, OnGrid, Capability;
    assert forall t <- tensions :: t in tensions + [more];
    assert more in tensions + [more];
    CapabilityExact(tensions, grid, strength);
    CapabilityExact(tensions + [more], grid, strength);
    UnitsAre(more, grid);
    assert UnitsOf(tensions + [more], grid) == UnitsOf(tensions, grid) + [Units(more, grid)];
    SumConcat(UnitsOf(tensions, grid), [Units(more, grid)]);
  }
}
