/** The bank's withdrawal fee: age, balance and rolling 24-hour bands in parts per million, rounded up once.

    Instants are microseconds. A lot's age is the elapsed time truncated to whole seconds and never negative. */
module Fees {
  import opened Numbers
  import opened Products
  import opened Sums
  import opened Lots

  const PPM := 1_000_000
  const MICROS_PER_SECOND := 1_000_000
  const DAY_SECONDS := 86_400
  const BANK_MIN_WITHDRAWAL := 500

  function AgeSeconds(now: int, depositedAt: int): int {
    Max(TruncDiv(now - depositedAt, MICROS_PER_SECOND), 0)
  }

  function AgeFeePpm(ageSeconds: int): int {
    if ageSeconds < DAY_SECONDS then 10_000
    else if ageSeconds < 7 * DAY_SECONDS then 5_000
    else if ageSeconds < 14 * DAY_SECONDS then 3_250
    else if ageSeconds < 30 * DAY_SECONDS then 2_000
    else 1_200
  }

  function BalanceSurchargePpm(bankBefore: int): int {
    if bankBefore < 1_000_000 then 0
    else if bankBefore < 10_000_000 then 200
    else if bankBefore < 100_000_000 then 400
    else 600
  }

  /** The marginal rate of the unit that follows `position` units already withdrawn in the last 24 hours. */
  function UnitRate(position: int): int {
    if position < 100_000 then 0
    else if position < 1_000_000 then 100
    else if position < 10_000_000 then 250
    else 500
  }

  /** The meaning of the rolling surcharge: every withdrawn unit pays the rate of its own position. */
  ghost function UnitByUnit(prior: int, amount: nat): int {
    if amount == 0 then 0 else UnitByUnit(prior, amount - 1) + UnitRate(prior + amount - 1)
  }

  function Band(prior: int, end: int, start: int, stop: int, rate: int): int {
    if Min(end, stop) > Max(prior, start) then (Min(end, stop) - Max(prior, start)) * rate else 0
  }

  function Rolling(prior: int, amount: int): int {
    var end := prior + amount;
    Band(prior, end, 0, 100_000, 0) + Band(prior, end, 100_000, 1_000_000, 100)
    + Band(prior, end, 1_000_000, 10_000_000, 250)
    + if end > Max(prior, 10_000_000) then (end - Max(prior, 10_000_000)) * 500 else 0
  }

  /** The three bounded segments and the open tail, each step checked against i128. */
  method RollingMarginalNumerator(prior: int, amount: int) returns (r: Option<int>)
    requires 0 <= prior && 0 < amount <= I64_MAX
    ensures r == if InI128(prior + amount) then Some(Rolling(prior, amount)) else None
  {
    if !InI128(prior + amount) {
      return None;
    }
    var end := prior + amount;
    var segments := [(0, 100_000, 0), (100_000, 1_000_000, 100), (1_000_000, 10_000_000, 250)];
    var numerator := 0;
    for i := 0 to 3
      invariant 0 <= numerator <= i * 10_000_000 * 250
      invariant numerator == (if i >= 1 then Band(prior, end, 0, 100_000, 0) else 0)
                             + (if i >= 2 then Band(prior, end, 100_000, 1_000_000, 100) else 0)
                             + (if i >= 3 then Band(prior, end, 1_000_000, 10_000_000, 250) else 0)
    {
      var (start, stop, rate) := segments[i];
      var overlapStart, overlapEnd := Max(prior, start), Min(end, stop);
      if overlapEnd > overlapStart {
        var part := (overlapEnd - overlapStart) * rate;
        if !InI128(part) || !InI128(numerator + part) {
          return None;
        }
        numerator := numerator + part;
      }
    }
    var tailStart := Max(prior, 10_000_000);
    if end > tailStart {
      if !InI128((end - tailStart) * 500) || !InI128(numerator + (end - tailStart) * 500) {
        return None;
      }
      numerator := numerator + (end - tailStart) * 500;
    }
    return Some(numerator);
  }

  function AgeCharge(amount: int, depositedAt: int, now: int): int {
    amount * AgeFeePpm(AgeSeconds(now, depositedAt))
  }

  function AgeNumerator(debits: seq<Debit>, now: int): int {
    if debits == [] then 0
    else AgeCharge(debits[0].amount, debits[0].depositedAt, now) + AgeNumerator(debits[1..], now)
  }

  function FeeNumerator(amount: int, bankBefore: int, prior: int, debits: seq<Debit>, now: int): int {
    AgeNumerator(debits, now) + amount * BalanceSurchargePpm(bankBefore) + Rolling(prior, amount)
  }

  function CeilPpm(numerator: int): int {
    (numerator + PPM - 1) / PPM
  }

  /** The fee, or None when a checked step overflows. */
  function WithdrawalFee(amount: int, bankBefore: int, prior: int, debits: seq<Debit>, now: int): Option<int> {
    var numerator := FeeNumerator(amount, bankBefore, prior, debits, now);
    if InI128(AgeNumerator(debits, now)) && InI128(prior + amount) && InI128(numerator + PPM - 1)
       && InI64(CeilPpm(numerator))
    then Some(CeilPpm(numerator)) else None
  }

  method ComputeWithdrawalFee(amount: int, bankBefore: int, prior: int, debits: seq<Debit>, now: int)
    returns (r: Option<int>)
    requires 0 < amount <= I64_MAX && 0 <= prior
    requires forall d <- debits :: 0 < d.amount <= I64_MAX
    ensures r == WithdrawalFee(amount, bankBefore, prior, debits, now)
  {
    hide Rolling;
    var numerator := 0;
    for i := 0 to |debits|
      invariant 0 <= numerator && InI128(numerator)
      invariant AgeNumerator(debits, now) == numerator + AgeNumerator(debits[i..], now)
    {
      AgeStep(debits, i, now);
      var contribution := AgeCharge(debits[i].amount, debits[i].depositedAt, now);
      assert debits[i] in debits;
      if !InI128(contribution) || !InI128(numerator + contribution) {
        return None;
      }
      numerator := numerator + contribution;
    }
    var balance := amount * BalanceSurchargePpm(bankBefore);
    if !InI128(balance) {
      return None;
    }
    var rolling := RollingMarginalNumerator(prior, amount);
    if rolling.None? {
      return None;
    }
    RollingRange(prior, amount);
    if !InI128(numerator + balance) || !InI128(numerator + balance + rolling.value) {
      return None;
    }
    numerator := numerator + balance + rolling.value;
    if !InI128(numerator + PPM - 1) || !InI64((numerator + PPM - 1) / PPM) {
      return None;
    }
    return Some((numerator + PPM - 1) / PPM);
  }

  lemma AgeStep(debits: seq<Debit>, i: nat, now: int)
    requires i < |debits| && forall d <- debits :: 0 < d.amount
    ensures AgeNumerator(debits[i..], now)
         == AgeCharge(debits[i].amount, debits[i].depositedAt, now) + AgeNumerator(debits[i + 1..], now)
    ensures 0 <= AgeNumerator(debits[i + 1..], now)
  {
    assert debits[i..][0] == debits[i] && debits[i..][1..] == debits[i + 1..];
    AgeRange(debits[i + 1..], now);
  }

  /** Every unit pays between the oldest and the youngest age rate. */
  lemma {:induction false} AgeRange(debits: seq<Debit>, now: int)
    requires forall d <- debits :: 0 < d.amount
    ensures 1_200 * Sum(DebitAmounts(debits)) <= AgeNumerator(debits, now) <= 10_000 * Sum(DebitAmounts(debits))
    ensures 0 <= Sum(DebitAmounts(debits))
  {
    if debits == [] {
    } else {
      hide AgeSeconds;
      AgeRange(debits[1..], now);
      assert DebitAmounts(debits)[1..] == DebitAmounts(debits[1..]);
      var rate := AgeFeePpm(AgeSeconds(now, debits[0].depositedAt));
      MulOrder(1_200, rate, debits[0].amount);
      MulOrder(rate, 10_000, debits[0].amount);
    }
  }

  lemma RollingRange(prior: int, amount: int)
    requires 0 <= prior && 0 <= amount
    ensures 0 <= Rolling(prior, amount) <= 500 * amount
  {
  }

  /** The segment arithmetic charges exactly what charging unit by unit would. */
  lemma {:induction false} RollingIsUnitByUnit(prior: int, amount: nat)
    requires 0 <= prior
    ensures Rolling(prior, amount) == UnitByUnit(prior, amount)
  {
    if amount == 0 {
    } else {
      RollingIsUnitByUnit(prior, amount - 1);
      RollingNextUnit(prior, amount - 1);
    }
  }

  lemma RollingNextUnit(prior: int, amount: nat)
    requires 0 <= prior
    ensures Rolling(prior, amount + 1) == Rolling(prior, amount) + UnitRate(prior + amount)
  {
  }

  lemma {:induction false} UnitByUnitAdds(prior: int, a: nat, b: nat)
    ensures UnitByUnit(prior, a) + UnitByUnit(prior + a, b) == UnitByUnit(prior, a + b)
  {
    if b == 0 {
    } else {
      UnitByUnitAdds(prior, a, b - 1);
    }
  }

  lemma RollingAdds(prior: int, a: nat, b: nat)
    requires 0 <= prior
    ensures Rolling(prior, a) + Rolling(prior + a, b) == Rolling(prior, a + b)
  {
    hide Rolling;
    RollingIsUnitByUnit(prior, a);
    RollingIsUnitByUnit(prior + a, b);
    RollingIsUnitByUnit(prior, a + b);
    UnitByUnitAdds(prior, a, b);
  }

  /** Two withdrawals at one instant charge the same age numerator as one of the combined amount. */
  lemma {:induction false} AgeAdds(rows: seq<Lot>, a: int, b: int, now: int)
    requires 0 <= a && 0 <= b && forall i :: 0 <= i < |rows| ==> 0 <= rows[i].principal
    ensures AgeNumerator(DebitsFrom(rows, a), now) + AgeNumerator(DebitsFrom(Drained(rows, a), b), now)
         == AgeNumerator(DebitsFrom(rows, a + b), now)
  {
    hide AgeCharge, DebitsFrom, AgeNumerator, Drained;
    if rows == [] {
      AgeOfNothing(a, b, now);
    } else {
      var takeA := Min(rows[0].principal, a);
      var takeB := Min(rows[0].principal - takeA, b);
      AgeAdds(rows[1..], a - takeA, b - takeB, now);
      AgeAddsFirst(rows, a, b, now);
    }
  }

  lemma AgeOfNothing(a: int, b: int, now: int)
    ensures Drained([], a) == [] && AgeNumerator(DebitsFrom([], a), now) == 0 && AgeNumerator(DebitsFrom([], b), now) == 0
    ensures AgeNumerator(DebitsFrom([], a + b), now) == 0
  {
  }

  lemma AgeAddsFirst(rows: seq<Lot>, a: int, b: int, now: int)
    requires rows != [] && 0 <= a && 0 <= b && 0 <= rows[0].principal
    requires var takeA := Min(rows[0].principal, a);
      var takeB := Min(rows[0].principal - takeA, b);
      AgeNumerator(DebitsFrom(rows[1..], a - takeA), now)
      + AgeNumerator(DebitsFrom(Drained(rows[1..], a - takeA), b - takeB), now)
      == AgeNumerator(DebitsFrom(rows[1..], a - takeA + (b - takeB)), now)
    ensures AgeNumerator(DebitsFrom(rows, a), now) + AgeNumerator(DebitsFrom(Drained(rows, a), b), now)
         == AgeNumerator(DebitsFrom(rows, a + b), now)
  {
    hide AgeCharge, DebitsFrom, AgeNumerator;
    var takeA := Min(rows[0].principal, a);
    var takeB := Min(rows[0].principal - takeA, b);
    AgeFirst(rows, a, now);
    AgeFirst(rows, a + b, now);
    var left := Drained(rows, a);
    assert left[0] == rows[0].(principal := rows[0].principal - takeA) && left[1..] == Drained(rows[1..], a - takeA);
    AgeFirst(left, b, now);
    ChargeAdds(takeA, takeB, rows[0].depositedAt, now);
    assert Min(rows[0].principal, a + b) == takeA + takeB;
    assert a + b - (takeA + takeB) == a - takeA + (b - takeB);
  }

  lemma ChargeAdds(a: int, b: int, depositedAt: int, now: int)
    ensures AgeCharge(a, depositedAt, now) + AgeCharge(b, depositedAt, now) == AgeCharge(a + b, depositedAt, now)
  {
    MulAdd(AgeFeePpm(AgeSeconds(now, depositedAt)), a, b);
  }

  lemma AgeFirst(rows: seq<Lot>, amount: int, now: int)
    requires rows != [] && 0 <= amount && 0 <= rows[0].principal
    ensures var take := Min(rows[0].principal, amount);
      AgeNumerator(DebitsFrom(rows, amount), now)
      == AgeCharge(take, rows[0].depositedAt, now) + AgeNumerator(DebitsFrom(rows[1..], amount - take), now)
  {
    hide AgeSeconds, AgeFeePpm;
    assert AgeCharge(0, rows[0].depositedAt, now) == 0;
    var take := Min(rows[0].principal, amount);
    if amount == 0 {
      assert DebitsFrom(rows[1..], 0) == [];
    } else if take > 0 {
      var debits := DebitsFrom(rows, amount);
      assert debits[0] == Debit(rows[0].id, take, rows[0].depositedAt);
      assert debits[1..] == DebitsFrom(rows[1..], amount - take);
    } else {
      assert DebitsFrom(rows, amount) == DebitsFrom(rows[1..], amount);
    }
  }

  /** A fee on debits that sum to the amount lies between the ceilings of 0.12% and 1.11% and is below the amount. */
  lemma FeeBounds(amount: int, bankBefore: int, prior: int, debits: seq<Debit>, now: int)
    requires BANK_MIN_WITHDRAWAL <= amount <= I64_MAX && 0 <= prior && InI128(prior + amount)
    requires Sum(DebitAmounts(debits)) == amount && forall d <- debits :: 0 < d.amount
    ensures WithdrawalFee(amount, bankBefore, prior, debits, now).Some?
    ensures CeilPpm(1_200 * amount) <= WithdrawalFee(amount, bankBefore, prior, debits, now).value <= CeilPpm(11_100 * amount)
    ensures 0 < CeilPpm(1_200 * amount) && CeilPpm(11_100 * amount) < amount
  {
    hide AgeNumerator, Rolling;
    AgeRange(debits, now);
    RollingRange(prior, amount);
    MulOrder(BalanceSurchargePpm(bankBefore), 600, amount);
  }

  /** Rounding up twice instead of once costs at most one unit. */
  lemma CeilSplit(x: int, y: int)
    ensures CeilPpm(x + y) <= CeilPpm(x) + CeilPpm(y) <= CeilPpm(x + y) + 1
  {
  }
}
