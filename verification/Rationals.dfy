/** Greatest common divisors and fractions in lowest terms. */
module Rationals {
  import opened Products

  ghost predicate Divides(d: int, n: int) {
    exists k: int :: n == d * k
  }

  function GcdOf(left: nat, right: nat): nat
    decreases right
  {
    if right == 0 then left else GcdOf(right, left % right)
  }

  method Gcd(left: nat, right: nat) returns (divisor: nat)
    ensures divisor == GcdOf(left, right)
  {
    var a, b := left, right;
    while b != 0
      invariant GcdOf(left, right) == GcdOf(a, b)
      decreases b
    {
      a, b := b, a % b;
    }
    return a;
  }

  lemma GcdPositive(a: nat, b: nat)
    ensures a > 0 || b > 0 ==> 0 < GcdOf(a, b)
    decreases b
  {
    if b != 0 {
      GcdPositive(b, a % b);
    }
  }

  /** The divisor is a combination of the two numbers. */
  lemma {:induction false} Bezout(a: nat, b: nat) returns (x: int, y: int)
    ensures a * x + b * y == GcdOf(a, b)
    decreases b
  {
    if b == 0 {
      x, y := 1, 0;
    } else {
      var u, v := Bezout(b, a % b);
      var q := a / b;
      x, y := v, u - q * v;
      assert a % b == a - b * q;
      MulAdd(v, a, b * q);
      MulAdd(b, u, q * v);
      MulAssociates(b, q, v);
    }
  }

  /** It divides both numbers. */
  lemma {:induction false} GcdDivides(a: nat, b: nat) returns (p: int, q: int)
    ensures a == GcdOf(a, b) * p && b == GcdOf(a, b) * q
    decreases b
  {
    if b == 0 {
      p, q := 1, 0;
    } else {
      var s, t := GcdDivides(b, a % b);
      var g, k := GcdOf(a, b), a / b;
      p, q := s * k + t, s;
      assert a == b * k + a % b;
      MulAdd(g, s * k, t);
      MulAssociates(g, s, k);
    }
  }

  /** Every common divisor divides it, so it is the greatest. */
  lemma GcdGreatest(a: nat, b: nat, d: int)
    requires Divides(d, a) && Divides(d, b)
    ensures Divides(d, GcdOf(a, b))
  {
    var p: int :| a == d * p;
    var q: int :| b == d * q;
    var x, y := Bezout(a, b);
    MulAssociates(d, p, x);
    MulAssociates(d, q, y);
    MulAdd(d, p * x, q * y);
    assert GcdOf(a, b) == d * (p * x + q * y);
  }

  /** Dividing both numbers by it leaves a fraction in lowest terms. */
  lemma GcdReduces(a: nat, b: nat, p: nat, q: nat)
    requires 0 < GcdOf(a, b) && a == GcdOf(a, b) * p && b == GcdOf(a, b) * q
    ensures GcdOf(p, q) == 1
  {
    var g := GcdOf(a, b);
    var x, y := Bezout(a, b);
    MulAssociates(g, p, x);
    MulAssociates(g, q, y);
    MulAdd(g, p * x, q * y);
    assert g * (p * x + q * y) == g * 1;
    CancelLeft(g, p * x + q * y, 1);
    var s, t := GcdDivides(p, q);
    var h := GcdOf(p, q);
    MulAssociates(h, s, x);
    MulAssociates(h, t, y);
    MulAdd(h, s * x, t * y);
    UnitDivisor(h, s * x + t * y);
  }

  lemma UnitDivisor(h: nat, k: int)
    requires h * k == 1
    ensures h == 1
  {
    if h > 1 {
      if k >= 1 {
        MulOrder(1, k, h);
      } else {
        MulOrder(k, 0, h);
      }
    }
  }

  lemma CancelLeft(c: int, a: int, b: int)
    requires 0 < c && c * a == c * b
    ensures a == b
  {
    if a < b {
      MulOrder(a + 1, b, c);
      MulAdd(c, a, 1);
    } else if b < a {
      MulOrder(b + 1, a, c);
      MulAdd(c, b, 1);
    }
  }

  lemma CancelOrder(c: int, a: int, b: int)
    requires 0 < c
    ensures c * a <= c * b <==> a <= b
  {
    if a <= b {
      MulOrder(a, b, c);
    } else {
      MulOrder(b + 1, a, c);
      MulAdd(c, b, 1);
    }
  }

  /** A number prime to `n` that divides `n * m` divides `m`. */
  lemma Gauss(n: nat, d: nat, m: int, k: int) returns (q: int)
    requires GcdOf(n, d) == 1 && n * m == d * k
    ensures m == d * q
  {
    var x, y := Bezout(n, d);
    q := k * x + m * y;
    assert m * (n * x + d * y) == m by {
      assert n * x + d * y == 1;
    }
    MulAdd(m, n * x, d * y);
    MulAdd(d, k * x, m * y);
    MulAssociates(d, k, x);
    MulAssociates(n, m, x);
    MulAssociates(m, n, x);
    MulAssociates(m, d, y);
    MulAssociates(d, m, y);
    MulCommutes(m, n);
    MulCommutes(m, d);
  }

  /** Equal fractions in lowest terms are the same pair. */
  lemma LowestTermsUnique(n: nat, d: nat, n': nat, d': nat)
    requires 0 < d && 0 < d' && GcdOf(n, d) == 1 && GcdOf(n', d') == 1
    requires n * d' == n' * d
    ensures n == n' && d == d'
  {
    MulCommutes(n', d);
    var q := Gauss(n, d, d', n');
    MulCommutes(n, d');
    var q' := Gauss(n', d', d, n);
    assert q > 0 by {
      if q <= 0 {
        MulOrder(q, 0, d);
      }
    }
    assert q' > 0 by {
      if q' <= 0 {
        MulOrder(q', 0, d');
      }
    }
    MulOrder(1, q, d);
    MulOrder(1, q', d');
    CancelLeft(d, n, n');
  }

  datatype Fraction = Fraction(numerator: nat, denominator: nat)

  /** A fraction divided through by the greatest common divisor. */
  function Reduced(n: nat, d: nat): (f: Fraction)
    requires 0 < d
    ensures 0 < f.denominator && n == GcdOf(n, d) * f.numerator && d == GcdOf(n, d) * f.denominator
    ensures GcdOf(f.numerator, f.denominator) == 1
    ensures n * f.denominator == f.numerator * d
  {
    GcdPositive(n, d);
    ReducedParts(n, d);
    Fraction(n / GcdOf(n, d), d / GcdOf(n, d))
  }

  lemma ReducedParts(n: nat, d: nat)
    requires 0 < d && 0 < GcdOf(n, d)
    ensures var (g, p, q) := (GcdOf(n, d), n / GcdOf(n, d), d / GcdOf(n, d));
      && n == g * p && d == g * q && 0 < q && 0 <= p && GcdOf(p, q) == 1 && n * q == p * d
  {
    hide GcdOf;
    var g := GcdOf(n, d);
    var p, q := GcdDivides(n, d);
    QuotientUnique(g, n / g, n % g, p, 0);
    QuotientUnique(g, d / g, d % g, q, 0);
    assert q > 0 by {
      if q <= 0 {
        MulOrder(q, 0, g);
      }
    }
    assert p >= 0 by {
      if p < 0 {
        MulOrder(p, -1, g);
      }
    }
    GcdReduces(n, d, p, q);
    MulAssociates(p, g, q);
    MulCommutes(p, g);
  }
}
