/** Rounded square-and-multiply powers in Q32 fixed point.

    The program holds two identical copies of this code, one behind the bank's rebirth interest rate and one behind
    the rebirth utility bonuses; both are this module. */
module Q32 {
  import opened Numbers

  const ONE := 0x1_0000_0000

  /** Product of two Q32 numbers rounded half up; None when a checked i128 step overflows. */
  function Mul(left: int, right: int): Option<int> {
    var product := left * right;
    if !InI128(product) || !InI128(product + ONE / 2) then
      None
    else
      Some(TruncDiv(product + ONE / 2, ONE))
  }

  /** What the loop of `Pow` still has to do from an intermediate `result` and `base`. */
  function PowFrom(result: int, base: int, exponent: nat): Option<int>
    decreases exponent
  {
    if exponent == 0 then
      Some(result)
    else
      var next :- if exponent % 2 == 1 then Mul(result, base) else Some(result);
      if exponent / 2 > 0 then
        var square :- Mul(base, base);
        PowFrom(next, square, exponent / 2)
      else
        Some(next)
  }

  method Pow(base: int, exponent: nat) returns (r: Option<int>)
    ensures r == PowFrom(ONE, base, exponent)
  {
    var b, e := base, exponent;
    var result := ONE;
    while e > 0
      invariant PowFrom(result, b, e) == PowFrom(ONE, base, exponent)
    {
      ghost var e0 := e;
      if e % 2 == 1 {
        var next := Mul(result, b);
        if next.None? {
          return None;
        }
        result := next.value;
      }
      e := e / 2;
      if e > 0 {
        var square := Mul(b, b);
        if square.None? {
          return None;
        }
        b := square.value;
      }
    }
    return Some(result);
  }

  /** The exact power that the fixed-point code approximates. */
  ghost function RealPow(x: real, n: nat): real {
    if n == 0 then 1.0 else x * RealPow(x, n - 1)
  }

  ghost predicate Unit(x: real) {
    0.0 <= x <= 1.0
  }

  ghost predicate Close(x: real, y: real, bound: real) {
    -bound <= x - y <= bound
  }

  lemma UnitProduct(x: real, y: real)
    requires Unit(x) && Unit(y)
    ensures Unit(x * y)
  {
    ScaledBound(x, 1.0, y, 1.0);
    if x * y < 0.0 {
      ScaledBound(1.0 - x, 1.0, y, 1.0);
    }
  }

  /** Squaring the base and halving the exponent leaves the power unchanged. */
  lemma {:induction false} RealPowSquare(x: real, k: nat)
    ensures RealPow(x, 2 * k) == RealPow(Product(x, x), k)
  {
    if k == 0 {
    } else {
      RealPowSquare(x, k - 1);
      var r := RealPow(x, 2 * k - 2);
      assert RealPow(x, 2 * k) == x * (x * r);
      assert x * (x * r) == (x * x) * r;
    }
  }

  lemma {:induction false} RealPowHalve(x: real, n: nat)
    requires n > 0
    ensures RealPow(x, n) == (if n % 2 == 1 then x else 1.0) * RealPow(Product(x, x), n / 2)
  {
    RealPowSquare(x, n / 2);
    var r := RealPow(Product(x, x), n / 2);
    if n % 2 == 1 {
      assert RealPow(x, 2 * (n / 2) + 1) == x * r;
    } else {
      assert RealPow(x, 2 * (n / 2)) == 1.0 * r;
    }
  }

  /** One rounded product of two Q32 numbers stays in range and is within half a unit of the real product. */
  lemma MulRounds(a: int, b: int)
    requires 0 <= a <= ONE && 0 <= b <= ONE
    ensures Mul(a, b).Some? && 0 <= Mul(a, b).value <= ONE
    ensures Close(Mul(a, b).value as real * ONE as real, a as real * b as real, ONE as real / 2.0)
  {
    assert 0 <= a * b <= ONE * ONE by {
      assert (ONE - a) * b >= 0;
      assert ONE * (ONE - b) >= 0;
    }
    var v := Mul(a, b).value;
    assert v == (a * b + ONE / 2) / ONE;
    assert ONE * v <= a * b + ONE / 2 < ONE * v + ONE;
    assert (a * b) as real == a as real * b as real;
    assert (v * ONE) as real == v as real * ONE as real;
  }

  /** How the errors of two factors carry into a product rounded to within half a unit of scale `s`. */
  lemma RoundedProductError(s: real, p: real, q: real, v: real, x: real, y: real, alpha: real, beta: real)
    requires s > 0.0 && 0.0 <= q <= s && Unit(x)
    requires Close(p, s * x, alpha) && Close(q, s * y, beta) && Close(v * s, p * q, s / 2.0)
    ensures Close(v, s * (x * y), alpha + beta + 0.5)
  {
    UnitScale(s, x);
    ProductDifference(s, p, q, x, y);
    ScaledErrors(s, v, s * (x * y), p * q, q, p - s * x, s * x, q - s * y, alpha, beta);
  }

  lemma ScaledErrors(s: real, v: real, target: real, product: real, q: real, d: real, w: real, e: real, alpha: real,
                     beta: real)
    requires s > 0.0 && 0.0 <= q <= s && 0.0 <= w <= s && -alpha <= d <= alpha && -beta <= e <= beta
    requires product - s * target == d * q + w * e && Close(v * s, product, s / 2.0)
    ensures Close(v, target, alpha + beta + 0.5)
  {
    ScaledBound(d, alpha, q, s);
    ScaledBound(e, beta, w, s);
    AddErrors(s, v, target, product, d * q, w * e, alpha, beta);
  }

  lemma AddErrors(s: real, v: real, w: real, product: real, left: real, right: real, alpha: real, beta: real)
    requires s > 0.0 && product - s * w == left + right && Close(v * s, product, s / 2.0)
    requires -(s * alpha) <= left <= s * alpha && -(s * beta) <= right <= s * beta
    ensures Close(v, w, alpha + beta + 0.5)
  {
    var d, b := v - w, alpha + beta + 0.5;
    assert s * d == v * s - s * w;
    assert s * b == s * alpha + s * beta + s / 2.0;
    Unscale(s, d, b);
  }

  lemma ProductDifference(s: real, p: real, q: real, x: real, y: real)
    ensures p * q - s * (s * (x * y)) == (p - s * x) * q + (s * x) * (q - s * y)
  {
    assert (p - s * x) * q == p * q - (s * x) * q;
    assert (s * x) * (q - s * y) == (s * x) * q - (s * x) * (s * y);
    assert (s * x) * (s * y) == s * (s * (x * y));
  }

  lemma UnitScale(s: real, x: real)
    requires s > 0.0 && Unit(x)
    ensures 0.0 <= s * x <= s
  {
  }

  lemma Unscale(s: real, d: real, bound: real)
    requires s > 0.0 && s * (d + bound) >= 0.0 && s * (bound - d) >= 0.0
    ensures -bound <= d <= bound
  {
  }

  lemma ScaledBound(d: real, bound: real, w: real, s: real)
    requires -bound <= d <= bound && 0.0 <= w <= s
    ensures -(s * bound) <= d * w <= s * bound
    ensures -(s * bound) <= w * d <= s * bound
  {
    assert (bound - d) * w >= 0.0;
    assert (bound + d) * w >= 0.0;
    assert bound * (s - w) >= 0.0;
  }

  lemma MulError(a: int, b: int, x: real, y: real, alpha: real, beta: real)
    requires 0 <= a <= ONE && 0 <= b <= ONE && Unit(x) && Unit(y)
    requires Close(a as real, ONE as real * x, alpha) && Close(b as real, ONE as real * y, beta)
    ensures Mul(a, b).Some? && 0 <= Mul(a, b).value <= ONE
    ensures Close(Mul(a, b).value as real, ONE as real * Product(x, y), alpha + beta + 0.5)
    ensures Unit(Product(x, y))
  {
    hide Mul;
    UnitProduct(x, y);
    MulRounds(a, b);
    RoundedProductError(ONE as real, a as real, b as real, Mul(a, b).value as real, x, y, alpha, beta);
  }

  ghost function Product(x: real, y: real): real {
    x * y
  }

  /** The exact value of an unfinished power. */
  ghost function Target(t: real, u: real, e: nat): real {
    t * RealPow(u, e)
  }

  /** The error allowed at the end of an unfinished power: the error `alpha` of its result, plus the error `beta` of its
      base and half a unit for each remaining factor. */
  ghost function Budget(alpha: real, beta: real, e: nat): real {
    alpha + e as real * (beta + 0.5)
  }

  lemma TargetStep(t: real, u: real, e: nat)
    ensures Target(t, u, 0) == t
    ensures e > 0 ==> Target(t, u, e) == Target(if e % 2 == 1 then Product(t, u) else t, Product(u, u), e / 2)
  {
    if e > 0 {
      RealPowHalve(u, e);
      TimesShifts(t, u, RealPow(Product(u, u), e / 2), RealPow(u, e), e % 2 == 1);
    }
  }

  lemma TimesShifts(t: real, u: real, r: real, power: real, odd: bool)
    requires power == (if odd then u else 1.0) * r
    ensures t * power == if odd then (t * u) * r else t * r
  {
    if odd {
      assert t * (u * r) == (t * u) * r;
    }
  }

  lemma BudgetStep(alpha: real, beta: real, e: nat)
    ensures Budget(alpha, beta, 0) == alpha
    ensures Budget(alpha, beta, e)
         == Budget(if e % 2 == 1 then alpha + beta + 0.5 else alpha, beta + beta + 0.5, e / 2)
  {
    var h := (e / 2) as real;
    assert e as real == 2.0 * h + (if e % 2 == 1 then 1.0 else 0.0);
    assert h * (beta + beta + 1.0) == (2.0 * h) * (beta + 0.5);
  }

  lemma {:induction false} PowFromError(result: int, base: int, e: nat, t: real, u: real, alpha: real, beta: real)
    requires 0 <= result <= ONE && 0 <= base <= ONE && Unit(t) && Unit(u)
    requires Close(result as real, ONE as real * t, alpha) && Close(base as real, ONE as real * u, beta)
    ensures PowFrom(result, base, e).Some? && 0 <= PowFrom(result, base, e).value <= ONE
    ensures Close(PowFrom(result, base, e).value as real, ONE as real * Target(t, u, e), Budget(alpha, beta, e))
    decreases e
  {
    hide Mul, Product, Target, Budget;
    TargetStep(t, u, e);
    BudgetStep(alpha, beta, e);
    if e == 0 {
    } else {
      var next, t', alpha' := result, t, alpha;
      if e % 2 == 1 {
        MulError(result, base, t, u, alpha, beta);
        next, t', alpha' := Mul(result, base).value, Product(t, u), alpha + beta + 0.5;
      }
      var u', beta' := Product(u, u), beta + beta + 0.5;
      TargetStep(t', u', 0);
      BudgetStep(alpha', beta', 0);
      if e / 2 > 0 {
        MulError(base, base, u, u, beta, beta);
        PowFromError(next, Mul(base, base).value, e / 2, t', u', alpha', beta');
      }
    }
  }

  /** For a base in 0..=1 the power never overflows, stays in 0..=1 and is off by at most half a unit per factor. */
  lemma PowError(base: int, n: nat)
    requires 0 <= base <= ONE
    ensures PowFrom(ONE, base, n).Some? && 0 <= PowFrom(ONE, base, n).value <= ONE
    ensures Close(PowFrom(ONE, base, n).value as real, ONE as real * RealPow(base as real / ONE as real, n),
                  n as real / 2.0)
  {
    var u := base as real / ONE as real;
    assert ONE as real * u == base as real;
    PowFromError(ONE, base, n, 1.0, u, 0.0, 0.0);
  }
}
