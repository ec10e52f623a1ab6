/** The bit-by-bit integer square root, exact for every 128-bit value. */
module IntegerSqrt {
  import opened Numbers
  import opened Products

  /** The floor of the square root, found by counting up. */
  function IntegerRoot(n: nat): (root: nat)
    ensures root * root <= n < (root + 1) * (root + 1)
  {
    if n == 0 then 0
    else
      var root := IntegerRoot(n - 1);
      if (root + 1) * (root + 1) <= n then root + 1 else root
  }

  /** Two floors of the same root are equal. */
  lemma FloorRootUnique(n: int, r: int, s: int)
    requires 0 <= r && 0 <= s && r * r <= n < (r + 1) * (r + 1) && s * s <= n < (s + 1) * (s + 1)
    ensures r == s
  {
    if r < s {
      MulOrder(r + 1, s, s);
      MulOrder(r + 1, s, r + 1);
    } else if s < r {
      MulOrder(s + 1, r, r);
      MulOrder(s + 1, r, s + 1);
    }
  }

  function Pow2(k: nat): (p: int)
    ensures 1 <= p
  {
    if k == 0 then 1 else 2 * Pow2(k - 1)
  }

  lemma {:induction false} Pow2Adds(j: nat, k: nat)
    ensures Pow2(j + k) == Pow2(j) * Pow2(k)
  {
    if j == 0 {
    } else {
      Pow2Adds(j - 1, k);
      MulAssociates(2, Pow2(j - 1), Pow2(k));
    }
  }

  lemma Pow2Sixtyfour()
    ensures Pow2(64) == 0x1_0000_0000_0000_0000 && Pow2(63) == 0x8000_0000_0000_0000
  {
    assert Pow2(8) == 256;
    Pow2Adds(8, 8);
    Pow2Adds(16, 16);
    hide Pow2;
    Pow2Adds(32, 32);
    Pow2Next(63);
  }

  /** The bit that decides position k - 1 of the root; nothing is left to decide at k = 0. */
  function BitAt(k: nat): int {
    if k == 0 then 0 else Pow2(k - 1) * Pow2(k - 1)
  }

  lemma BitFirst()
    ensures BitAt(64) == 0x4000_0000_0000_0000_0000_0000_0000_0000
    ensures Pow2(64) * Pow2(64) == U128_MAX + 1
  {
    Pow2Sixtyfour();
  }

  /** Shifting the bit right by two moves to the next position. */
  lemma BitShift(k: nat)
    requires 0 < k
    ensures BitAt(k) / 4 == BitAt(k - 1) && Pow2(k) == 2 * Pow2(k - 1) && 4 * BitAt(k) == Pow2(k) * Pow2(k)
  {
    if k > 1 {
      var h := Pow2(k - 2);
      assert Pow2(k - 1) == 2 * h;
      assert (2 * h) * (2 * h) == 4 * (h * h);
    }
    var p := Pow2(k - 1);
    assert (2 * p) * (2 * p) == 4 * (p * p);
  }

  /** The root found so far is a multiple `m` of 2^k, `result` holds it scaled by 2^k, and the root lies in the next 2^k. */
  ghost predicate Partial(n: int, k: nat, m: nat, value: int, result: int) {
    && k <= 64 && m < Pow2(64 - k)
    && result == m * Pow2(k) * Pow2(k)
    && value == n - (m * Pow2(k)) * (m * Pow2(k)) && 0 <= value
    && n < (m * Pow2(k) + Pow2(k)) * (m * Pow2(k) + Pow2(k))
  }

  method ComputeIntegerSqrt(n: int) returns (root: int)
    requires InU128(n)
    ensures root == IntegerRoot(n) && InU64(root)
  {
    hide Pow2, Partial, BitAt, IntegerRoot;
    var value, result := n, 0;
    var bit := 0x4000_0000_0000_0000_0000_0000_0000_0000;
    ghost var k: nat := 64;
    BitFirst();
    while bit > value
      invariant k <= 64 && bit == BitAt(k) && n < Pow2(k) * Pow2(k)
      decreases k
    {
      BitAtZero();
      BitShift(k);
      bit, k := bit / 4, k - 1;
      BitShiftBound(k, n);
    }
    ghost var m: nat := 0;
    PartialStart(n, k);
    while bit != 0
      invariant bit == BitAt(k) && Partial(n, k, m, value, result)
      decreases k
    {
      BitAtZero();
      PartialFits(n, k, m, value, result);
      PartialStep(n, k, m, value, result);
      BitShift(k);
      var candidate := result + bit;
      if value >= candidate {
        value := value - candidate;
        result := result / 2 + bit;
        m := 2 * m + 1;
      } else {
        result := result / 2;
        m := 2 * m;
      }
      bit, k := bit / 4, k - 1;
    }
    PartialEnd(n, k, m, value, result);
    FloorRootUnique(n, result, IntegerRoot(n));
    return result;
  }

  lemma BitAtZero()
    ensures BitAt(0) == 0 && forall k: nat :: BitAt(k) == 0 <==> k == 0
  {
    forall k: nat
      ensures BitAt(k) == 0 <==> k == 0
    {
      if k > 0 {
        MulPositive(Pow2(k - 1), Pow2(k - 1));
      }
    }
  }

  lemma BitShiftBound(k: nat, n: int)
    requires n < BitAt(k + 1)
    ensures n < Pow2(k) * Pow2(k)
  {
  }

  lemma PartialStart(n: int, k: nat)
    requires 0 <= n < Pow2(k) * Pow2(k) && k <= 64
    ensures Partial(n, k, 0, n, 0)
  {
  }

  /** The candidate never leaves u128. */
  lemma PartialFits(n: int, k: nat, m: nat, value: int, result: int)
    requires Partial(n, k, m, value, result) && 0 < k
    ensures InU128(result + BitAt(k))
  {
    hide Pow2, BitAt;
    var p, q := Pow2(k), Pow2(64 - k);
    Pow2Adds(k, 64 - k);
    BitShift(k);
    BitFirst();
    assert m * p + p <= Pow2(64) by {
      MulOrder(m + 1, q, p);
      MulAdd(p, m, 1);
    }
    CandidateBound(m * p, p, Pow2(64));
  }

  lemma CandidateBound(r: int, p: int, whole: int)
    requires 0 <= r && 1 <= p && r + p <= whole
    ensures 0 <= 4 * (r * p) + p * p <= 3 * (whole * whole)
  {
    MulNonNegative(r, p);
    MulNonNegative(p, p);
    MulOrder(r, whole, p);
    MulOrder(p, whole, whole);
    MulOrder(p, whole, p);
    HalfSquare(r, p, whole);
  }

  lemma HalfSquare(r: int, p: int, whole: int)
    requires 0 <= r && 0 <= p && r + p <= whole
    ensures 2 * (r * p) <= whole * whole
  {
    MulOrder(r + p, whole, whole);
    MulOrder(r + p, whole, r + p);
    assert (r + p) * (r + p) == r * r + 2 * (r * p) + p * p;
    MulNonNegative(r, r);
    MulNonNegative(p, p);
  }

  /** One position decided, whichever way. */
  lemma PartialStep(n: int, k: nat, m: nat, value: int, result: int)
    requires Partial(n, k, m, value, result) && 0 < k
    ensures var candidate := result + BitAt(k);
      if value >= candidate
      then Partial(n, k - 1, 2 * m + 1, value - candidate, result / 2 + BitAt(k))
      else Partial(n, k - 1, 2 * m, value, result / 2)
  {
    hide Pow2, BitAt;
    var h, r := Pow2(k - 1), m * Pow2(k);
    BitShift(k);
    BitSquare(k);
    Pow2Next(64 - k);
    assert r == (2 * m) * h by {
      MulAssociates(m, 2, h);
    }
    assert (2 * m + 1) * h == r + h by {
      MulAdd(h, 2 * m, 1);
    }
    SquareStep(r, h);
  }

  lemma BitSquare(k: nat)
    requires 0 < k
    ensures BitAt(k) == Pow2(k - 1) * Pow2(k - 1)
  {
  }

  lemma Pow2Next(k: nat)
    ensures Pow2(k + 1) == 2 * Pow2(k)
  {
  }

  lemma SquareStep(r: int, h: int)
    ensures r * (2 * h) == 2 * (r * h)
    ensures (r + h) * (r + h) == r * r + 2 * (r * h) + h * h
    ensures (r + 2 * h) * (r + 2 * h) == r * r + 4 * (r * h) + 4 * (h * h)
    ensures (r + h) * h == r * h + h * h
    ensures 0 <= h * h
  {
  }

  lemma PartialEnd(n: int, k: nat, m: nat, value: int, result: int)
    requires Partial(n, k, m, value, result) && BitAt(k) == 0
    ensures result * result <= n < (result + 1) * (result + 1) && InU64(result)
  {
    BitAtZero();
    Pow2Sixtyfour();
    assert Pow2(0) == 1 && m * 1 == m && m * 1 * 1 == m;
  }
}
