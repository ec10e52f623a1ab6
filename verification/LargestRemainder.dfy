/** Sharing a whole amount over weights by largest remainder, as bank interest is shared over deposit lots. */
module LargestRemainder {
  import opened Numbers
  import opened Products
  import opened Sums

  /** What is left of one lot's exact share after its whole part is taken. */
  datatype Fraction = Fraction(index: nat, remainder: int)

  /** The order in which leftover units are handed out: larger remainder first, then lower index. */
  predicate Before(a: Fraction, b: Fraction) {
    a.remainder > b.remainder || (a.remainder == b.remainder && a.index < b.index)
  }

  function Insert(f: Fraction, s: seq<Fraction>): seq<Fraction> {
    if s == [] then [f]
    else if Before(f, s[0]) then [f] + s
    else [s[0]] + Insert(f, s[1..])
  }

  function Ranked(s: seq<Fraction>): seq<Fraction> {
    if s == [] then [] else Insert(s[0], Ranked(s[1..]))
  }

  /** Adds one unit to the entry named by each fraction. */
  function Bump(allocation: seq<int>, winners: seq<Fraction>): seq<int>
    requires forall w <- winners :: w.index < |allocation|
    decreases |winners|
  {
    if winners == [] then allocation
    else Bump(allocation[winners[0].index := allocation[winners[0].index] + 1], winners[1..])
  }

  function Quotient(product: int, total: int): (q: int)
    requires total > 0
  {
    product / total
  }

  function Remainder(product: int, total: int): (r: int)
    requires total > 0
  {
    product % total
  }

  lemma Division(product: int, total: int)
    requires total > 0
    ensures product == total * Quotient(product, total) + Remainder(product, total)
    ensures 0 <= Remainder(product, total) < total
  {
  }

  function Scaled(amount: int, weights: seq<int>): (products: seq<int>)
    ensures |products| == |weights|
  {
    seq(|weights|, i requires 0 <= i < |weights| => amount * weights[i])
  }

  function Floors(products: seq<int>, total: int): (floors: seq<int>)
    requires total > 0
    ensures |floors| == |products|
  {
    seq(|products|, i requires 0 <= i < |products| => Quotient(products[i], total))
  }

  function Fractions(products: seq<int>, total: int): (fractions: seq<Fraction>)
    requires total > 0
    ensures |fractions| == |products|
  {
    seq(|products|, i requires 0 <= i < |products| => Fraction(i, Remainder(products[i], total)))
  }

  function Remainders(s: seq<Fraction>): (r: seq<int>)
    ensures |r| == |s|
  {
    seq(|s|, i requires 0 <= i < |s| => s[i].remainder)
  }

  /** The split: whole parts first, then one more unit each for the highest-ranked fractions. */
  function Split(products: seq<int>, total: int, amount: int): seq<int>
    requires total > 0
    requires 0 <= amount - Sum(Floors(products, total)) <= |products|
  {
    var leftover := amount - Sum(Floors(products, total));
    var ranked := Ranked(Fractions(products, total));
    RankedMembers(Fractions(products, total));
    assert forall w <- ranked[..leftover] :: w in ranked;
    Bump(Floors(products, total), ranked[..leftover])
  }

  // ---- ranking

  predicate Distinct(s: seq<Fraction>) {
    forall i, j :: 0 <= i < j < |s| ==> s[i].index != s[j].index
  }

  /** Entry `i` is given a leftover unit. */
  predicate Wins(winners: seq<Fraction>, i: nat) {
    exists k :: 0 <= k < |winners| && winners[k].index == i
  }

  predicate Sorted(s: seq<Fraction>) {
    forall i, j :: 0 <= i < j < |s| ==> Before(s[i], s[j])
  }

  lemma {:induction false} InsertMembers(f: Fraction, s: seq<Fraction>)
    ensures |Insert(f, s)| == |s| + 1
    ensures forall g :: g in Insert(f, s) <==> g == f || g in s
    ensures Sum(Remainders(Insert(f, s))) == f.remainder + Sum(Remainders(s))
  {
    if s == [] || Before(f, s[0]) {
      assert Insert(f, s) == [f] + s;
      assert Remainders([f] + s)[1..] == Remainders(s);
    } else {
      InsertMembers(f, s[1..]);
      assert Remainders(Insert(f, s))[1..] == Remainders(Insert(f, s[1..]));
      assert Remainders(s)[1..] == Remainders(s[1..]);
    }
  }

  lemma {:induction false} RankedMembers(s: seq<Fraction>)
    ensures |Ranked(s)| == |s|
    ensures forall g :: g in Ranked(s) <==> g in s
    ensures Sum(Remainders(Ranked(s))) == Sum(Remainders(s))
  {
    if s == [] {
    } else {
      RankedMembers(s[1..]);
      InsertMembers(s[0], Ranked(s[1..]));
      assert Remainders(s)[1..] == Remainders(s[1..]);
    }
  }

  lemma {:induction false} InsertOrder(f: Fraction, s: seq<Fraction>)
    requires Sorted(s) && Distinct(s) && forall g <- s :: g.index != f.index
    ensures Sorted(Insert(f, s)) && Distinct(Insert(f, s))
  {
    if s == [] {
    } else if Before(f, s[0]) {
      forall j | 0 <= j < |s|
        ensures Before(f, s[j])
      {
        assert j > 0 ==> Before(s[0], s[j]);
      }
      OrderedHead(f, s);
    } else {
      var rest := Insert(f, s[1..]);
      assert s[0] in s;
      InsertOrder(f, s[1..]);
      InsertMembers(f, s[1..]);
      forall j | 0 <= j < |rest|
        ensures Before(s[0], rest[j]) && s[0].index != rest[j].index
      {
        assert rest[j] in rest;
      }
      OrderedHead(s[0], rest);
    }
  }

  lemma OrderedHead(f: Fraction, s: seq<Fraction>)
    requires Sorted(s) && Distinct(s) && forall j :: 0 <= j < |s| ==> Before(f, s[j]) && s[j].index != f.index
    ensures Sorted([f] + s) && Distinct([f] + s)
  {
    hide Before;
  }

  lemma {:induction false} RankedOrder(s: seq<Fraction>)
    requires Distinct(s)
    ensures Sorted(Ranked(s)) && Distinct(Ranked(s))
  {
    if s == [] {
    } else {
      RankedOrder(s[1..]);
      RankedMembers(s[1..]);
      InsertOrder(s[0], Ranked(s[1..]));
    }
  }

  // ---- handing out units

  lemma WinsFirst(winners: seq<Fraction>, i: nat)
    requires winners != []
    ensures Wins(winners, i) <==> i == winners[0].index || Wins(winners[1..], i)
  {
    var rest := winners[1..];
    if k :| 0 <= k < |winners| && winners[k].index == i {
      assert k > 0 ==> rest[k - 1].index == i;
    }
    if k :| 0 <= k < |rest| && rest[k].index == i {
      assert winners[k + 1].index == i;
    }
  }

  lemma {:induction false} BumpEffect(a: seq<int>, winners: seq<Fraction>)
    requires Distinct(winners) && forall w <- winners :: w.index < |a|
    decreases |winners|
    ensures |Bump(a, winners)| == |a|
    ensures Sum(Bump(a, winners)) == Sum(a) + |winners|
    ensures forall i :: 0 <= i < |a| ==>
      Bump(a, winners)[i] == if Wins(winners, i) then a[i] + 1 else a[i]
  {
    if winners == [] {
    } else {
      var k := winners[0].index;
      SumUpdate(a, k, a[k] + 1);
      BumpEffect(a[k := a[k] + 1], winners[1..]);
      forall i: nat
        ensures Wins(winners, i) <==> i == k || Wins(winners[1..], i)
      {
        WinsFirst(winners, i);
      }
      assert !Wins(winners[1..], k);
    }
  }

  // ---- how many units are left over

  lemma {:induction false} SumScaled(amount: int, weights: seq<int>)
    ensures Sum(Scaled(amount, weights)) == amount * Sum(weights)
  {
    if weights == [] {
    } else {
      SumScaled(amount, weights[1..]);
      assert Scaled(amount, weights)[1..] == Scaled(amount, weights[1..]);
      assert amount * (weights[0] + Sum(weights[1..])) == amount * weights[0] + amount * Sum(weights[1..]);
    }
  }

  /** `Fractions` with its indices counted from `first`. */
  function FractionsFrom(products: seq<int>, total: int, first: nat): seq<Fraction>
    requires total > 0
  {
    seq(|products|, i requires 0 <= i < |products| => Fraction(first + i, Remainder(products[i], total)))
  }

  lemma {:induction false} SumDivision(products: seq<int>, total: int, first: nat)
    requires total > 0
    ensures Sum(products) == total * Sum(Floors(products, total)) + Sum(Remainders(FractionsFrom(products, total, first)))
  {
    if products == [] {
    } else {
      hide Quotient, Remainder;
      var tail := products[1..];
      SumDivision(tail, total, first + 1);
      Division(products[0], total);
      assert Floors(products, total)[1..] == Floors(tail, total);
      assert Remainders(FractionsFrom(products, total, first))[1..] == Remainders(FractionsFrom(tail, total, first + 1));
      assert total * (Quotient(products[0], total) + Sum(Floors(tail, total)))
          == total * Quotient(products[0], total) + total * Sum(Floors(tail, total));
    }
  }

  lemma {:induction false} SumCapped(s: seq<int>, cap: int)
    requires forall i :: 0 <= i < |s| ==> s[i] <= cap
    ensures Sum(s) <= |s| * cap
  {
    if s == [] {
    } else {
      SumCapped(s[1..], cap);
      assert |s| * cap == cap + (|s| - 1) * cap;
    }
  }

  /** The leftover units are worth exactly the sum of the remainders, so there are fewer of them than lots. */
  lemma LeftoverUnits(products: seq<int>, total: int, amount: int)
    requires total > 0 && products != [] && Sum(products) == amount * total
    ensures var leftover := amount - Sum(Floors(products, total));
      && total * leftover == Sum(Remainders(Fractions(products, total)))
      && 0 <= leftover < |products|
  {
    var floors, rest := Sum(Floors(products, total)), Remainders(Fractions(products, total));
    SumDivision(products, total, 0);
    assert FractionsFrom(products, total, 0) == Fractions(products, total);
    assert total * (amount - floors) == amount * total - total * floors;
    forall i | 0 <= i < |rest|
      ensures 0 <= rest[i] <= total - 1
    {
      Division(products[i], total);
    }
    SumNonNegative(rest);
    SumCapped(rest, total - 1);
    Bracket(total, amount - floors, |products|);
  }

  lemma Bracket(total: int, units: int, count: nat)
    requires total > 0 && count > 0 && 0 <= total * units <= count * (total - 1)
    ensures 0 <= units < count
  {
    assert units < 0 ==> total * (-units) > 0;
    assert count * (total - 1) == total * count - count;
    assert units >= count ==> total * (units - count) >= 0;
  }

  // ---- the threshold remainder

  /** Entry `i` is the whole part, or one more with a positive remainder; `rho` separates the two groups. */
  ghost predicate Threshold(products: seq<int>, total: int, allocation: seq<int>, rho: int)
    requires total > 0 && |allocation| == |products|
  {
    && 0 <= rho <= total
    && forall i :: 0 <= i < |products| ==>
      var q, r := Quotient(products[i], total), Remainder(products[i], total);
      (allocation[i] == q && r <= rho) || (allocation[i] == q + 1 && rho <= r && 0 < r)
  }

  /** Only positive remainders win a leftover unit. */
  lemma WinnersPositive(ranked: seq<Fraction>, total: int, leftover: nat, k: nat)
    requires total > 0 && Sorted(ranked) && leftover <= |ranked| && k < leftover
    requires forall i :: 0 <= i < |ranked| ==> 0 <= ranked[i].remainder < total
    requires Sum(Remainders(ranked)) == total * leftover
    ensures 0 < ranked[k].remainder
  {
    if ranked[k].remainder == 0 {
      ZeroTail(ranked, total, k);
      FewerUnits(total, k, leftover);
    }
  }

  lemma ZeroTail(ranked: seq<Fraction>, total: int, k: nat)
    requires total > 0 && Sorted(ranked) && k < |ranked| && ranked[k].remainder == 0
    requires forall i :: 0 <= i < |ranked| ==> 0 <= ranked[i].remainder < total
    ensures Sum(Remainders(ranked)) <= k * (total - 1)
  {
    var r := Remainders(ranked);
    assert r == r[..k] + r[k..];
    SumConcat(r[..k], r[k..]);
    SumCapped(r[..k], total - 1);
    forall i | k < i < |ranked|
      ensures ranked[i].remainder <= 0
    {
      assert Before(ranked[k], ranked[i]);
    }
    SumCapped(r[k..], 0);
  }

  lemma FewerUnits(total: int, k: nat, leftover: nat)
    requires total > 0 && k < leftover
    ensures k * (total - 1) < total * leftover
  {
    assert k * (total - 1) == total * k - k;
    assert total * (leftover - k) > 0;
  }

  lemma SplitThreshold(products: seq<int>, total: int, amount: int) returns (rho: int)
    requires total > 0 && products != [] && Sum(products) == amount * total
    requires 0 <= amount - Sum(Floors(products, total)) <= |products|
    ensures |Split(products, total, amount)| == |products| && Sum(Split(products, total, amount)) == amount
    ensures Threshold(products, total, Split(products, total, amount), rho)
  {
    hide Quotient, Remainder, Ranked, Bump, Wins, Sorted, Distinct, Sum;
    var fractions := Fractions(products, total);
    var ranked := Ranked(fractions);
    var leftover := amount - Sum(Floors(products, total));
    assert Sum(Remainders(ranked)) == total * leftover by {
      LeftoverUnits(products, total, amount);
      RankedMembers(fractions);
    }
    RankedMembers(fractions);
    FractionsShape(products, total);
    RankedOrder(fractions);
    var winners := ranked[..leftover];
    assert forall w <- winners :: w in ranked;
    DistinctPrefix(ranked, leftover);
    BumpEffect(Floors(products, total), winners);
    var split := Split(products, total, amount);
    assert split == Bump(Floors(products, total), winners);
    rho := if leftover == 0 then total else ranked[leftover - 1].remainder;
    forall i | 0 <= i < |products|
      ensures 0 <= rho <= total
      ensures var q, r := Quotient(products[i], total), Remainder(products[i], total);
        (split[i] == q && r <= rho) || (split[i] == q + 1 && rho <= r && 0 < r)
    {
      EntryRank(fractions, ranked, total, leftover, i, rho);
      assert fractions[i].remainder == Remainder(products[i], total);
      assert Floors(products, total)[i] == Quotient(products[i], total);
    }
    EntryRank(fractions, ranked, total, leftover, 0, rho);
  }

  /** The leftover units go to the largest remainders, and among equal ones to the lowest index: whoever is ahead of a
      winner wins too. */
  lemma SplitRanked(products: seq<int>, total: int, amount: int, i: nat, j: nat)
    requires total > 0 && products != [] && Sum(products) == amount * total && i < |products| && j < |products|
    requires 0 <= amount - Sum(Floors(products, total)) <= |products|
    requires products[i] % total > products[j] % total || (products[i] % total == products[j] % total && i < j)
    ensures |Split(products, total, amount)| == |products|
    ensures Split(products, total, amount)[j] > products[j] / total ==> Split(products, total, amount)[i] > products[i] / total
  {
    hide Ranked, Bump, Wins, Sorted, Distinct, Sum;
    var fractions := Fractions(products, total);
    var ranked := Ranked(fractions);
    var leftover := amount - Sum(Floors(products, total));
    RankedMembers(fractions);
    FractionsShape(products, total);
    RankedOrder(fractions);
    var winners := ranked[..leftover];
    assert forall w <- winners :: w in ranked;
    DistinctPrefix(ranked, leftover);
    BumpEffect(Floors(products, total), winners);
    if Wins(winners, j) {
      AheadWins(fractions, ranked, total, leftover, i, j);
    }
  }

  lemma AheadWins(fractions: seq<Fraction>, ranked: seq<Fraction>, total: int, leftover: nat, i: nat, j: nat)
    requires i < |fractions| == |ranked| && j < |fractions| && leftover <= |ranked|
    requires Sorted(ranked) && Indexed(fractions, total) && forall g :: g in ranked <==> g in fractions
    requires fractions[i].remainder > fractions[j].remainder
             || (fractions[i].remainder == fractions[j].remainder && i < j)
    requires Wins(ranked[..leftover], j)
    ensures Wins(ranked[..leftover], i)
  {
    var k :| 0 <= k < leftover && ranked[..leftover][k].index == j;
    assert ranked[k] in ranked;
    assert fractions[i] in ranked;
    var m :| 0 <= m < |ranked| && ranked[m] == fractions[i];
    NotBehind(ranked, m, k);
    assert ranked[..leftover][m].index == i;
  }

  lemma NotBehind(ranked: seq<Fraction>, m: nat, k: nat)
    requires Sorted(ranked) && m < |ranked| && k < |ranked| && !Before(ranked[k], ranked[m])
    ensures m <= k
  {
    hide Before;
  }

  lemma SplitLength(products: seq<int>, total: int, amount: int)
    requires total > 0
    requires 0 <= amount - Sum(Floors(products, total)) <= |products|
    ensures |Split(products, total, amount)| == |products|
  {
    var ranked := Ranked(Fractions(products, total));
    RankedMembers(Fractions(products, total));
    var winners := ranked[..amount - Sum(Floors(products, total))];
    assert forall w <- winners :: w in ranked;
    BumpLength(Floors(products, total), winners);
  }

  lemma {:induction false} BumpLength(a: seq<int>, winners: seq<Fraction>)
    requires forall w <- winners :: w.index < |a|
    decreases |winners|
    ensures |Bump(a, winners)| == |a|
  {
    if winners == [] {
    } else {
      BumpLength(a[winners[0].index := a[winners[0].index] + 1], winners[1..]);
    }
  }

  lemma DistinctPrefix(s: seq<Fraction>, k: nat)
    requires Distinct(s) && k <= |s|
    ensures Distinct(s[..k])
  {
  }

  lemma FractionsShape(products: seq<int>, total: int)
    requires total > 0
    ensures Indexed(Fractions(products, total), total) && Distinct(Fractions(products, total))
  {
    forall i | 0 <= i < |products|
      ensures 0 <= Remainder(products[i], total) < total
    {
      Division(products[i], total);
    }
  }

  ghost predicate Indexed(fractions: seq<Fraction>, total: int) {
    forall k :: 0 <= k < |fractions| ==> fractions[k].index == k && 0 <= fractions[k].remainder < total
  }

  lemma EntryRank(fractions: seq<Fraction>, ranked: seq<Fraction>, total: int, leftover: nat, i: nat, rho: int)
    requires total > 0 && i < |fractions| == |ranked| && leftover <= |ranked|
    requires Sorted(ranked) && Indexed(fractions, total) && forall g :: g in ranked <==> g in fractions
    requires Sum(Remainders(ranked)) == total * leftover
    requires rho == if leftover == 0 then total else ranked[leftover - 1].remainder
    ensures 0 <= rho <= total
    ensures if Wins(ranked[..leftover], i) then rho <= fractions[i].remainder && 0 < fractions[i].remainder
            else fractions[i].remainder <= rho
  {
    forall k | 0 <= k < |ranked|
      ensures 0 <= ranked[k].remainder < total && ranked[k].index < |fractions| && ranked[k] == fractions[ranked[k].index]
    {
      assert ranked[k] in ranked;
    }
    assert fractions[i] in ranked;
    var k :| 0 <= k < |ranked| && ranked[k] == fractions[i];
    if k < leftover {
      assert ranked[..leftover][k].index == i;
      assert k < leftover - 1 ==> Before(ranked[k], ranked[leftover - 1]);
      WinnersPositive(ranked, total, leftover, k);
    } else {
      forall m | 0 <= m < leftover
        ensures ranked[m].index != i
      {
        assert Before(ranked[m], ranked[k]);
      }
      assert leftover > 0 ==> Before(ranked[leftover - 1], ranked[k]);
    }
  }

  // ---- what the threshold gives

  lemma TermsNonNegative(products: seq<int>, total: int, allocation: seq<int>, rho: int)
    requires total > 0 && |allocation| == |products| && Threshold(products, total, allocation, rho)
    requires forall i :: 0 <= i < |products| ==> 0 <= products[i]
    ensures forall i :: 0 <= i < |allocation| ==> 0 <= allocation[i]
  {
    hide Quotient, Remainder;
    forall i | 0 <= i < |allocation|
      ensures 0 <= allocation[i]
    {
      Division(products[i], total);
      QuotientOrder(total, 0, 0, Quotient(products[i], total), Remainder(products[i], total));
    }
  }

  /** A larger product is never given less. */
  lemma LargerGetsNoLess(products: seq<int>, total: int, allocation: seq<int>, rho: int, i: nat, j: nat)
    requires total > 0 && |allocation| == |products| && Threshold(products, total, allocation, rho)
    requires i < |products| && j < |products| && products[j] < products[i]
    ensures allocation[j] <= allocation[i]
  {
    var qi, ri := Quotient(products[i], total), Remainder(products[i], total);
    var qj, rj := Quotient(products[j], total), Remainder(products[j], total);
    hide Quotient, Remainder;
    Division(products[i], total);
    Division(products[j], total);
    QuotientOrder(total, qj, rj, qi, ri);
  }

  /** Twice a slope: how fast the distance to the exact share grows at the threshold. No entry can do better. */
  lemma EntryOptimal(total: int, q: int, r: int, a: int, rho: int, b: int)
    requires 0 <= rho <= total && 0 <= r < total
    requires (a == q && r <= rho) || (a == q + 1 && rho <= r)
    ensures Abs(b * total - (total * q + r)) >= Abs(a * total - (total * q + r)) + (total - 2 * rho) * (b - a)
  {
    var n := b - a;
    assert b * total - (total * q + r) == n * total + (a * total - (total * q + r));
    if a == q {
      assert a * total - (total * q + r) == -r;
      SlopeBelow(total, r, rho, n);
    } else {
      assert a * total - (total * q + r) == total - r;
      SlopeAbove(total, r, rho, n);
    }
  }

  lemma SlopeBelow(total: int, r: int, rho: int, n: int)
    requires 0 <= r <= rho <= total
    ensures Abs(n * total - r) >= r + (total - 2 * rho) * n
  {
    SlopeProduct(total, rho, n);
    if n >= 1 {
      MulOrder(r, rho, n);
      MulOrder(1, n, r);
    } else {
      MulNonNegative(total - rho, -n);
      MulAdd(-n, total, rho);
    }
  }

  lemma SlopeAbove(total: int, r: int, rho: int, n: int)
    requires 0 <= rho <= r < total
    ensures Abs(n * total + (total - r)) >= (total - r) + (total - 2 * rho) * n
  {
    SlopeProduct(total, rho, n);
    if n >= 0 {
      MulNonNegative(rho, n);
    } else {
      MulOrder(1, -n, total - rho);
      MulAdd(-n, total, rho);
    }
  }

  lemma SlopeProduct(total: int, rho: int, n: int)
    ensures (total - 2 * rho) * n == n * total - 2 * (rho * n)
    ensures -n * total == -(n * total) && -n * rho == -(rho * n)
  {
  }

  /** Summed distance of a split from the exact shares `products[i] / total`, in units of `1 / total`. */
  function Distance(split: seq<int>, products: seq<int>, total: int): int
    requires |split| == |products|
  {
    if split == [] then 0
    else Abs(split[0] * total - products[0]) + Distance(split[1..], products[1..], total)
  }

  lemma {:induction false} DistanceOptimal(products: seq<int>, total: int, a: seq<int>, rho: int, b: seq<int>)
    requires total > 0 && |a| == |b| == |products| && Threshold(products, total, a, rho)
    ensures Distance(b, products, total) >= Distance(a, products, total) + (total - 2 * rho) * (Sum(b) - Sum(a))
  {
    if products == [] {
    } else {
      hide Quotient, Remainder;
      DistanceOptimal(products[1..], total, a[1..], rho, b[1..]);
      Division(products[0], total);
      EntryOptimal(total, Quotient(products[0], total), Remainder(products[0], total), a[0], rho, b[0]);
      MulAdd(total - 2 * rho, b[0] - a[0], Sum(b[1..]) - Sum(a[1..]));
    }
  }
}
