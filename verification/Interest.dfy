/** Daily bank interest: the exact accrual with its carried remainder, and its largest-remainder share over the lots. */
module Interest {
  import opened Numbers
  import opened Products
  import opened Sums
  import opened Lots
  import LargestRemainder
  import Q32

  const BASE_PPM_PER_DAY := 40
  const BONUS_PPM_PER_DAY := 20
  const MAX_PPM_PER_DAY := 60
  const BONUS_PRINCIPAL_TRANCHE := 10_000_000
  const REBIRTH_DECAY_Q32 := 4_085_499_269
  const DENOMINATOR := 1_000_000 * Q32.ONE

  datatype InterestError = LotsUnreconciled | InvalidState | InterestOverflow | OperationConflict | InterestPlayerNotFound

  // ---- one day's interest

  /** The share of the rebirth bonus reached, in Q32: one minus the decayed power. */
  function RebirthGrowth(rebirths: nat): Option<int> {
    var decay :- Q32.PowFrom(Q32.ONE, REBIRTH_DECAY_Q32, rebirths);
    Some(Q32.ONE - decay)
  }

  /** Interest of one day before rounding, in units of 1 / DENOMINATOR. */
  function Accrual(bank: int, growth: int): int {
    bank * BASE_PPM_PER_DAY * Q32.ONE + Min(bank, BONUS_PRINCIPAL_TRANCHE) * BONUS_PPM_PER_DAY * growth
  }

  /** Whole units credited today and the remainder carried to tomorrow. */
  function DailyInterest(bank: int, rebirths: int, remainder: int): Result<(int, int), InterestError> {
    if bank < 0 || rebirths < 0 || remainder < 0 then Err(InvalidState)
    else
      match RebirthGrowth(rebirths)
      case None => Err(InterestOverflow)
      case Some(growth) =>
        var base := bank * BASE_PPM_PER_DAY * Q32.ONE;
        var bonus := Min(bank, BONUS_PRINCIPAL_TRANCHE) * BONUS_PPM_PER_DAY * growth;
        var numerator := base + bonus + remainder;
        if InI128(base) && InI128(bonus) && InI128(base + bonus) && InI128(numerator)
           && InI64(TruncDiv(numerator, DENOMINATOR))
        then Ok((TruncDiv(numerator, DENOMINATOR), numerator - DENOMINATOR * TruncDiv(numerator, DENOMINATOR)))
        else Err(InterestOverflow)
  }

  method CalculateDailyInterest(bank: int, rebirths: int, remainder: int) returns (r: Result<(int, int), InterestError>)
    ensures r == DailyInterest(bank, rebirths, remainder)
  {
    if bank < 0 || rebirths < 0 || remainder < 0 {
      return Err(InvalidState);
    }
    var decay := Q32.Pow(REBIRTH_DECAY_Q32, rebirths);
    if decay.None? {
      return Err(InterestOverflow);
    }
    var growth := Q32.ONE - decay.value;
    var base := bank * BASE_PPM_PER_DAY * Q32.ONE;
    var bonus := Min(bank, BONUS_PRINCIPAL_TRANCHE) * BONUS_PPM_PER_DAY * growth;
    var numerator := base + bonus + remainder;
    if !InI128(base) || !InI128(bonus) || !InI128(base + bonus) || !InI128(numerator) {
      return Err(InterestOverflow);
    }
    var credit := TruncDiv(numerator, DENOMINATOR);
    if !InI64(credit) {
      return Err(InterestOverflow);
    }
    return Ok((credit, numerator - DENOMINATOR * credit));
  }

  lemma GrowthRange(rebirths: nat)
    ensures RebirthGrowth(rebirths).Some? && 0 <= RebirthGrowth(rebirths).value <= Q32.ONE
  {
    hide Q32.PowFrom;
    Q32.PowError(REBIRTH_DECAY_Q32, rebirths);
  }

  /** The daily rate never leaves the published band of 40 to 60 parts per million per day. */
  lemma AccrualRate(bank: int, growth: int)
    requires 0 <= bank && 0 <= growth <= Q32.ONE
    ensures bank * BASE_PPM_PER_DAY * Q32.ONE <= Accrual(bank, growth) <= bank * MAX_PPM_PER_DAY * Q32.ONE
  {
    var principal := Min(bank, BONUS_PRINCIPAL_TRANCHE);
    MulNonNegative(principal * BONUS_PPM_PER_DAY, growth);
    MulOrder(growth, Q32.ONE, principal * BONUS_PPM_PER_DAY);
    MulOrder(principal, bank, BONUS_PPM_PER_DAY * Q32.ONE);
  }

  /** Nothing is lost or invented by rounding: credit and carried remainder are exactly the accrual and the old one. */
  lemma DailyExact(bank: int, rebirths: int, remainder: int)
    requires 0 <= bank <= I64_MAX && 0 <= rebirths && 0 <= remainder < DENOMINATOR
    ensures RebirthGrowth(rebirths).Some?
    ensures DailyInterest(bank, rebirths, remainder).Ok?
    ensures var (credit, carried) := DailyInterest(bank, rebirths, remainder).value;
      && DENOMINATOR * credit + carried == remainder + Accrual(bank, RebirthGrowth(rebirths).value)
      && 0 <= carried < DENOMINATOR
      && 0 <= credit && 1_000_000 * credit <= MAX_PPM_PER_DAY * bank + 999_999
  {
    hide RebirthGrowth;
    GrowthRange(rebirths);
    AccrualRate(bank, RebirthGrowth(rebirths).value);
    DailyBounds(bank, RebirthGrowth(rebirths).value, remainder);
  }

  lemma DailyBounds(bank: int, growth: int, remainder: int)
    requires 0 <= bank <= I64_MAX && 0 <= growth <= Q32.ONE && 0 <= remainder < DENOMINATOR
    ensures var bonus := Min(bank, BONUS_PRINCIPAL_TRANCHE) * BONUS_PPM_PER_DAY * growth;
      0 <= bonus <= BONUS_PRINCIPAL_TRANCHE * BONUS_PPM_PER_DAY * Q32.ONE
  {
    var principal := Min(bank, BONUS_PRINCIPAL_TRANCHE) * BONUS_PPM_PER_DAY;
    MulNonNegative(principal, growth);
    MulOrder(growth, Q32.ONE, principal);
  }

  // ---- sharing one day's interest over the lots

  /** Whole-part shares can be computed and added up within i64, up to entry `k`. */
  predicate SharesFit(floors: seq<int>, k: nat)
    requires k <= |floors|
  {
    forall i :: 0 <= i < k ==> InI64(floors[i]) && InI64(Sum(floors[..i + 1]))
  }

  /** The lots after a split is added to their principals. */
  function Increased(lots: seq<Lot>, split: seq<int>): (increased: seq<Lot>)
    requires |split| == |lots|
    ensures |increased| == |lots|
  {
    seq(|lots|, i requires 0 <= i < |lots| => lots[i].(principal := lots[i].principal + split[i]))
  }

  predicate IncreaseFits(lots: seq<Lot>, split: seq<int>)
    requires |split| == |lots|
  {
    forall i :: 0 <= i < |lots| ==> InI64(lots[i].principal + split[i])
  }

  function LotProducts(lots: seq<Lot>, interest: int): (products: seq<int>)
    ensures |products| == |lots|
  {
    LargestRemainder.Scaled(interest, Principals(lots))
  }

  /** The lots after one day's interest, or the error the shares run into. */
  function Credited(lots: seq<Lot>, interest: int, bankBefore: int): Result<seq<Lot>, InterestError> {
    if interest <= 0 then Ok(lots)
    else if bankBefore <= 0 || lots == [] then Err(LotsUnreconciled)
    else
      var products := LotProducts(lots, interest);
      var floors := LargestRemainder.Floors(products, bankBefore);
      if !SharesFit(floors, |floors|) || !(0 <= interest - Sum(floors) <= |lots|) then Err(InterestOverflow)
      else
        LargestRemainder.SplitLength(products, bankBefore, interest);
        var split := LargestRemainder.Split(products, bankBefore, interest);
        if IncreaseFits(lots, split) then Ok(Increased(lots, split)) else Err(InterestOverflow)
  }

  /** Shares `interest` over the lots in place; the result is the error, if any. */
  method AllocateInterestToLots(lots: array<Lot>, interest: int, bankBefore: int) returns (error: Option<InterestError>)
    requires InI64(interest) && InI64(bankBefore)
    requires forall i :: 0 <= i < lots.Length ==> 0 < lots[i].principal <= I64_MAX
    modifies lots
    ensures match Credited(old(lots[..]), interest, bankBefore)
      case Ok(credited) => error.None? && lots[..] == credited
      case Err(e) => error == Some(e)
  {
    if interest <= 0 {
      return None;
    }
    if bankBefore <= 0 || lots.Length == 0 {
      return Some(LotsUnreconciled);
    }
    hide LargestRemainder.Floors, LargestRemainder.Ranked, LargestRemainder.Bump, LotProducts;
    ghost var products := LotProducts(lots[..], interest);
    var allocations := new int[lots.Length](_ => 0);
    var fractional, total := WholeShares(lots, interest, bankBefore, allocations);
    if total.None? {
      return Some(InterestOverflow);
    }
    var leftover := interest - total.value;
    if leftover < 0 || leftover > |fractional| {
      return Some(InterestOverflow);
    }
    LargestRemainder.RankedMembers(fractional);
    var ranked := LargestRemainder.Ranked(fractional);
    assert forall w <- ranked[..leftover] :: w in ranked;
    HandOut(allocations, ranked[..leftover], interest);
    assert allocations[..] == LargestRemainder.Split(products, bankBefore, interest);
    error := AddToLots(lots, allocations);
  }

  /** First pass: every lot's whole share and fraction; the total is None on overflow. */
  method WholeShares(lots: array<Lot>, interest: int, bankBefore: int, allocations: array<int>)
    returns (fractional: seq<LargestRemainder.Fraction>, total: Option<int>)
    requires 0 < interest <= I64_MAX && 0 < bankBefore <= I64_MAX && lots.Length == allocations.Length
    requires forall i :: 0 <= i < lots.Length ==> 0 < lots[i].principal <= I64_MAX
    modifies allocations
    ensures var products := LotProducts(lots[..], interest);
      var floors := LargestRemainder.Floors(products, bankBefore);
      && total == (if SharesFit(floors, |floors|) then Some(Sum(floors)) else None)
      && (total.Some? ==> allocations[..] == floors && fractional == LargestRemainder.Fractions(products, bankBefore))
      && (forall i :: 0 <= i < |floors| ==> 0 <= floors[i])
  {
    hide LargestRemainder.Quotient, LargestRemainder.Remainder, SharesFit;
    ghost var products := LotProducts(lots[..], interest);
    ghost var floors := LargestRemainder.Floors(products, bankBefore);
    FloorsNonNegative(products, bankBefore);
    SharesFitNone(floors);
    fractional := [];
    var sum := 0;
    for index := 0 to lots.Length
      invariant allocations[..index] == floors[..index] && sum == Sum(floors[..index])
      invariant fractional == LargestRemainder.Fractions(products, bankBefore)[..index]
      invariant SharesFit(floors, index)
    {
      var product := interest * lots[index].principal;
      ProductFits(interest, lots[index].principal);
      assert product == products[index];
      SharesFitNext(floors, index);
      var share := LargestRemainder.Quotient(product, bankBefore);
      assert share == floors[index];
      if !InI64(share) || !InI64(sum + share) {
        return [], None;
      }
      allocations[index] := share;
      sum := sum + share;
      fractional := fractional + [LargestRemainder.Fraction(index, LargestRemainder.Remainder(product, bankBefore))];
    }
    SumWhole(floors);
    total := Some(sum);
  }

  lemma SharesFitNone(floors: seq<int>)
    ensures SharesFit(floors, 0)
  {
  }

  lemma SharesFitNext(floors: seq<int>, k: nat)
    requires k < |floors|
    ensures Sum(floors[..k + 1]) == Sum(floors[..k]) + floors[k]
    ensures SharesFit(floors, k + 1) <==> SharesFit(floors, k) && InI64(floors[k]) && InI64(Sum(floors[..k]) + floors[k])
    ensures SharesFit(floors, |floors|) ==> SharesFit(floors, k + 1)
  {
    hide Sum, InI64;
    SumPrefix(floors, k);
    if SharesFit(floors, k) && InI64(floors[k]) && InI64(Sum(floors[..k]) + floors[k]) {
      forall i | 0 <= i < k + 1
        ensures InI64(floors[i]) && InI64(Sum(floors[..i + 1]))
      {
        assert i < k ==> InI64(floors[i]);
      }
    }
    if SharesFit(floors, k + 1) {
      assert InI64(floors[k]);
      assert forall i :: 0 <= i < k ==> InI64(floors[i]) && InI64(Sum(floors[..i + 1]));
    }
  }

  lemma ProductFits(a: int, b: int)
    requires 0 <= a <= I64_MAX && 0 <= b <= I64_MAX
    ensures 0 <= a * b && InI128(a * b)
  {
    MulNonNegative(a, b);
    MulOrder(a, I64_MAX, b);
  }

  lemma FloorsNonNegative(products: seq<int>, total: int)
    requires total > 0 && forall i :: 0 <= i < |products| ==> 0 <= products[i]
    ensures var floors := LargestRemainder.Floors(products, total);
      forall i :: 0 <= i < |floors| ==> 0 <= floors[i]
  {
    hide LargestRemainder.Quotient, LargestRemainder.Remainder;
    forall i | 0 <= i < |products|
      ensures 0 <= LargestRemainder.Quotient(products[i], total)
    {
      LargestRemainder.Division(products[i], total);
      QuotientOrder(total, 0, 0, LargestRemainder.Quotient(products[i], total),
                    LargestRemainder.Remainder(products[i], total));
    }
  }

  /** Second pass: one more unit to each winner. The i64 increment cannot overflow. */
  method HandOut(allocations: array<int>, winners: seq<LargestRemainder.Fraction>, interest: int)
    requires interest <= I64_MAX && Sum(allocations[..]) + |winners| == interest
    requires forall i :: 0 <= i < allocations.Length ==> 0 <= allocations[i]
    requires forall w <- winners :: w.index < allocations.Length
    modifies allocations
    ensures allocations[..] == LargestRemainder.Bump(old(allocations[..]), winners)
  {
    for k := 0 to |winners|
      invariant LargestRemainder.Bump(old(allocations[..]), winners)
             == LargestRemainder.Bump(allocations[..], winners[k..])
      invariant Sum(allocations[..]) + (|winners| - k) == interest
      invariant forall i :: 0 <= i < allocations.Length ==> 0 <= allocations[i]
    {
      assert winners[k] in winners;
      var index := winners[k].index;
      SumNonNegative(allocations[..]);
      assert InI64(allocations[..][index] + 1);
      SumUpdate(allocations[..], index, allocations[index] + 1);
      ghost var next := allocations[..][index := allocations[index] + 1];
      allocations[index] := allocations[index] + 1;
      assert allocations[..] == next;
      assert winners[k..][0] == winners[k] && winners[k..][1..] == winners[k + 1..];
    }
  }

  /** Third pass: each non-zero share is added to its lot. */
  method AddToLots(lots: array<Lot>, allocations: array<int>) returns (error: Option<InterestError>)
    requires lots.Length == allocations.Length
    requires forall i :: 0 <= i < lots.Length ==> InI64(lots[i].principal)
    modifies lots
    ensures if IncreaseFits(old(lots[..]), allocations[..])
            then error.None? && lots[..] == Increased(old(lots[..]), allocations[..])
            else error == Some(InterestOverflow)
  {
    for i := 0 to lots.Length
      invariant forall j :: 0 <= j < i ==>
        InI64(old(lots[j]).principal + allocations[j])
        && lots[j] == old(lots[j]).(principal := old(lots[j]).principal + allocations[j])
      invariant forall j :: i <= j < lots.Length ==> lots[j] == old(lots[j])
    {
      var amount := allocations[i];
      if amount != 0 {
        if !InI64(lots[i].principal + amount) {
          return Some(InterestOverflow);
        }
        lots[i] := lots[i].(principal := lots[i].principal + amount);
      }
    }
    return None;
  }

  /** What the share of one lot may be: its exact share `interest * principal / bank`, rounded down or up. */
  predicate FloorOrCeiling(share: int, interest: int, principal: int, bank: int) {
    && bank * share < interest * principal + bank
    && interest * principal < bank * share + bank
  }

  ghost predicate Reconciled(lots: seq<Lot>, bank: int) {
    && Sum(Principals(lots)) == bank
    && forall i :: 0 <= i < |lots| ==> 0 < lots[i].principal
  }

  ghost function Shares(before: seq<Lot>, after: seq<Lot>): (shares: seq<int>)
    requires |after| == |before|
    ensures |shares| == |before|
  {
    seq(|before|, i requires 0 <= i < |before| => after[i].principal - before[i].principal)
  }

  /** On reconciled lots the sharing is the largest-remainder split, and can fail only by overflowing a lot. */
  lemma CreditedSplit(lots: seq<Lot>, interest: int, bank: int) returns (split: seq<int>, rho: int)
    requires Reconciled(lots, bank) && 0 < bank <= I64_MAX && 0 < interest <= I64_MAX
    ensures |split| == |lots|
    ensures Credited(lots, interest, bank)
         == if IncreaseFits(lots, split) then Ok(Increased(lots, split)) else Err(InterestOverflow)
    ensures bank + interest <= I64_MAX ==> IncreaseFits(lots, split)
    ensures Sum(split) == interest && forall i :: 0 <= i < |split| ==> 0 <= split[i]
    ensures LargestRemainder.Threshold(LotProducts(lots, interest), bank, split, rho)
    ensures var products := LotProducts(lots, interest);
      && lots != [] && Sum(products) == interest * bank
      && 0 <= interest - Sum(LargestRemainder.Floors(products, bank)) <= |products|
      && split == LargestRemainder.Split(products, bank, interest)
  {
    hide LargestRemainder.Split, LargestRemainder.Floors, LargestRemainder.Quotient, LargestRemainder.Remainder;
    var products := LotProducts(lots, interest);
    var floors := LargestRemainder.Floors(products, bank);
    assert lots != [];
    ProductsPositive(lots, interest, bank);
    LargestRemainder.LeftoverUnits(products, bank, interest);
    FloorsNonNegative(products, bank);
    FloorsFit(floors, interest);
    LargestRemainder.SplitLength(products, bank, interest);
    split := LargestRemainder.Split(products, bank, interest);
    rho := LargestRemainder.SplitThreshold(products, bank, interest);
    LargestRemainder.TermsNonNegative(products, bank, split, rho);
    SumIncreased(lots, split);
    SplitFits(lots, split, bank + interest);
  }

  /** Interest on reconciled lots never fails while the new balance fits, adds exactly the interest, keeps every lot's
      identity, gives each lot its exact share rounded down or up, and never gives a smaller lot more. */
  lemma CreditedFair(lots: seq<Lot>, interest: int, bank: int)
    requires Reconciled(lots, bank) && 0 < bank <= I64_MAX && 0 < interest <= I64_MAX
    ensures Credited(lots, interest, bank).Ok? || Credited(lots, interest, bank) == Err(InterestOverflow)
    ensures bank + interest <= I64_MAX ==> Credited(lots, interest, bank).Ok?
    ensures Credited(lots, interest, bank).Ok? ==>
      var after := Credited(lots, interest, bank).value;
      && |after| == |lots| && Reconciled(after, bank + interest)
      && var shares := Shares(lots, after);
      && (forall i :: 0 <= i < |lots| ==>
            && after[i] == lots[i].(principal := lots[i].principal + shares[i])
            && 0 <= shares[i] && FloorOrCeiling(shares[i], interest, lots[i].principal, bank))
      && (forall i, j :: 0 <= i < |lots| && 0 <= j < |lots| && lots[j].principal < lots[i].principal ==> shares[j] <= shares[i])
  {
    hide LargestRemainder.Threshold, FloorOrCeiling;
    var split, rho := CreditedSplit(lots, interest, bank);
    SumIncreased(lots, split);
    assert Shares(lots, Increased(lots, split)) == split;
    SplitRounded(lots, split, interest, bank, rho);
    SplitMonotone(lots, split, interest, bank, rho);
  }

  /** Summed distance of a whole split from the exact shares, in units of one over the bank balance. */
  ghost function SplitDistance(split: seq<int>, lots: seq<Lot>, interest: int, bank: int): int
    requires |split| == |lots|
  {
    LargestRemainder.Distance(split, LotProducts(lots, interest), bank)
  }

  /** No other split of the interest into whole units is closer to the exact shares. */
  lemma CreditedClosest(lots: seq<Lot>, interest: int, bank: int, other: seq<int>)
    requires Reconciled(lots, bank) && 0 < bank <= I64_MAX && 0 < interest <= I64_MAX && bank + interest <= I64_MAX
    requires |other| == |lots| && Sum(other) == interest
    ensures Credited(lots, interest, bank).Ok? && |Credited(lots, interest, bank).value| == |lots|
    ensures SplitDistance(Shares(lots, Credited(lots, interest, bank).value), lots, interest, bank)
         <= SplitDistance(other, lots, interest, bank)
  {
    hide LargestRemainder.Threshold;
    var split, rho := CreditedSplit(lots, interest, bank);
    assert Shares(lots, Increased(lots, split)) == split;
    LargestRemainder.DistanceOptimal(LotProducts(lots, interest), bank, split, rho, other);
  }

  lemma ProductsPositive(lots: seq<Lot>, interest: int, bank: int)
    requires Reconciled(lots, bank) && 0 < interest
    ensures Sum(LotProducts(lots, interest)) == interest * bank
    ensures forall i :: 0 <= i < |lots| ==> 0 < LotProducts(lots, interest)[i]
  {
    LargestRemainder.SumScaled(interest, Principals(lots));
    forall i | 0 <= i < |lots|
      ensures 0 < LotProducts(lots, interest)[i]
    {
      MulPositive(interest, lots[i].principal);
    }
  }

  lemma FloorsFit(floors: seq<int>, interest: int)
    requires forall i :: 0 <= i < |floors| ==> 0 <= floors[i]
    requires Sum(floors) <= interest <= I64_MAX
    ensures SharesFit(floors, |floors|)
  {
    SumNonNegative(floors);
    forall i | 0 <= i < |floors|
      ensures InI64(floors[i]) && InI64(Sum(floors[..i + 1]))
    {
      SumPrefixBound(floors, i + 1);
    }
  }

  lemma {:induction false} SumIncreased(lots: seq<Lot>, split: seq<int>)
    requires |lots| == |split|
    ensures Sum(Principals(Increased(lots, split))) == Sum(Principals(lots)) + Sum(split)
  {
    if lots == [] {
    } else {
      SumIncreased(lots[1..], split[1..]);
      assert Principals(lots)[1..] == Principals(lots[1..]);
      assert Principals(Increased(lots, split))[1..] == Principals(Increased(lots[1..], split[1..]));
    }
  }

  lemma SplitFits(lots: seq<Lot>, split: seq<int>, total: int)
    requires |lots| == |split| && Sum(Principals(Increased(lots, split))) == total
    requires forall i :: 0 <= i < |lots| ==> 0 < lots[i].principal && 0 <= split[i]
    ensures total <= I64_MAX ==> IncreaseFits(lots, split)
  {
    SumNonNegative(Principals(Increased(lots, split)));
    forall i | 0 <= i < |lots|
      ensures 0 < lots[i].principal + split[i] <= total
    {
      assert Principals(Increased(lots, split))[i] == lots[i].principal + split[i];
    }
  }

  lemma SplitRounded(lots: seq<Lot>, split: seq<int>, interest: int, bank: int, rho: int)
    requires |lots| == |split| && bank > 0
    requires LargestRemainder.Threshold(LotProducts(lots, interest), bank, split, rho)
    ensures forall i :: 0 <= i < |lots| ==> FloorOrCeiling(split[i], interest, lots[i].principal, bank)
  {
    hide LargestRemainder.Quotient, LargestRemainder.Remainder;
    forall i | 0 <= i < |lots|
      ensures FloorOrCeiling(split[i], interest, lots[i].principal, bank)
    {
      var product := LotProducts(lots, interest)[i];
      LargestRemainder.Division(product, bank);
      MulAdd(bank, LargestRemainder.Quotient(product, bank), 1);
    }
  }

  lemma SplitMonotone(lots: seq<Lot>, split: seq<int>, interest: int, bank: int, rho: int)
    requires |lots| == |split| && bank > 0 && interest > 0
    requires LargestRemainder.Threshold(LotProducts(lots, interest), bank, split, rho)
    ensures forall i, j :: 0 <= i < |lots| && 0 <= j < |lots| && lots[j].principal < lots[i].principal ==> split[j] <= split[i]
  {
    forall i, j | 0 <= i < |lots| && 0 <= j < |lots| && lots[j].principal < lots[i].principal
      ensures split[j] <= split[i]
    {
      MulOrder(lots[j].principal + 1, lots[i].principal, interest);
      MulAdd(interest, lots[j].principal, 1);
      LargestRemainder.LargerGetsNoLess(LotProducts(lots, interest), bank, split, rho, i, j);
    }
  }

  // ---- catching up over several days

  /** One day's credit as recorded in its own system operation. */
  datatype DayCredit = DayCredit(day: int, bankBefore: int, interest: int, remainderBefore: int, remainderAfter: int)

  /** The part of a player that interest reads and writes. */
  datatype Balance = Balance(bank: int, remainder: int, day: int, lots: seq<Lot>)

  /** A balance caught up by some days, with the credits of those days in order. */
  datatype Accrued = Accrued(balance: Balance, credits: seq<DayCredit>)

  /** One day of catch-up. `taken` are the days whose system operation key is already in use. */
  function DayStep(b: Balance, rebirths: int, taken: set<int>): Result<Accrued, InterestError> {
    var (interest, remainder) :- DailyInterest(b.bank, rebirths, b.remainder);
    if interest > 0 then
      var lots :- Credited(b.lots, interest, b.bank);
      if !InI64(b.bank + interest) then Err(InterestOverflow)
      else if b.day + 1 in taken then Err(OperationConflict)
      else
        Ok(Accrued(Balance(b.bank + interest, remainder, b.day + 1, lots),
                   [DayCredit(b.day + 1, b.bank, interest, b.remainder, remainder)]))
    else
      Ok(Accrued(b.(remainder := remainder, day := b.day + 1), []))
  }

  function Days(b: Balance, rebirths: int, taken: set<int>, n: nat): Result<Accrued, InterestError>
    decreases n
  {
    if n == 0 then Ok(Accrued(b, []))
    else
      var first :- DayStep(b, rebirths, taken);
      var rest :- Days(first.balance, rebirths, taken, n - 1);
      Ok(Accrued(rest.balance, first.credits + rest.credits))
  }

  ghost predicate ValidBalance(b: Balance) {
    && 0 <= b.bank <= I64_MAX
    && 0 <= b.remainder < DENOMINATOR
    && Reconciled(b.lots, b.bank)
  }

  /** Interest changes nothing about a lot but its principal. */
  ghost predicate SameLots(before: seq<Lot>, after: seq<Lot>) {
    && |after| == |before|
    && forall i :: 0 <= i < |before| ==> after[i] == before[i].(principal := after[i].principal)
  }

  /** A day's step conserves value exactly and can fail only by overflow or on a day whose key is in use. */
  lemma DayStepExact(b: Balance, rebirths: int, taken: set<int>)
    requires ValidBalance(b) && 0 <= rebirths
    ensures RebirthGrowth(rebirths).Some? && DailyInterest(b.bank, rebirths, b.remainder).Ok?
    ensures match DayStep(b, rebirths, taken)
      case Ok(Accrued(next, credits)) =>
        && ValidBalance(next) && next.day == b.day + 1 && SameLots(b.lots, next.lots) && b.bank <= next.bank
        && DENOMINATOR * (next.bank - b.bank) + next.remainder
           == b.remainder + Accrual(b.bank, RebirthGrowth(rebirths).value)
        && (next.bank == b.bank ==> credits == [] && next.lots == b.lots)
        && (next.bank != b.bank ==> b.day + 1 !in taken)
        && (next.bank != b.bank ==>
              credits == [DayCredit(b.day + 1, b.bank, next.bank - b.bank, b.remainder, next.remainder)])
      case Err(OperationConflict) => b.day + 1 in taken
      case Err(InterestOverflow) => I64_MAX < b.bank + DailyInterest(b.bank, rebirths, b.remainder).value.0
      case Err(_) => false
  {
    hide DailyInterest, Credited, Accrual, RebirthGrowth;
    DailyExact(b.bank, rebirths, b.remainder);
    var (interest, remainder) := DailyInterest(b.bank, rebirths, b.remainder).value;
    if interest > 0 {
      assert b.bank > 0;
      CreditedFair(b.lots, interest, b.bank);
    }
  }

  /** Catch-up of n + m days is catch-up of n days followed by m days. */
  lemma {:induction false} DaysCompose(b: Balance, rebirths: int, taken: set<int>, n: nat, m: nat)
    ensures Days(b, rebirths, taken, n + m)
         == match Days(b, rebirths, taken, n)
            case Err(e) => Err(e)
            case Ok(mid) =>
              match Days(mid.balance, rebirths, taken, m)
              case Err(e) => Err(e)
              case Ok(end) => Ok(Accrued(end.balance, mid.credits + end.credits))
    decreases n
  {
    hide DayStep;
    if n == 0 {
      var end := Days(b, rebirths, taken, m);
      assert end.Ok? ==> [] + end.value.credits == end.value.credits;
    } else {
      var step := DayStep(b, rebirths, taken);
      if step.Ok? {
        var next := step.value.balance;
        DaysCompose(next, rebirths, taken, n - 1, m);
        var mid := Days(next, rebirths, taken, n - 1);
        if mid.Ok? {
          var end := Days(mid.value.balance, rebirths, taken, m);
          if end.Ok? {
            assert step.value.credits + (mid.value.credits + end.value.credits)
                == (step.value.credits + mid.value.credits) + end.value.credits;
          }
        }
      }
    }
  }

  /** Only the keys of days still to come matter. */
  lemma {:induction false} DaysFuture(b: Balance, rebirths: int, taken: set<int>, taken': set<int>, n: nat)
    requires forall d :: d > b.day ==> (d in taken <==> d in taken')
    ensures Days(b, rebirths, taken, n) == Days(b, rebirths, taken', n)
    decreases n
  {
    hide DailyInterest, Credited;
    if n == 0 {
    } else {
      assert b.day + 1 in taken <==> b.day + 1 in taken';
      var step := DayStep(b, rebirths, taken);
      assert step == DayStep(b, rebirths, taken');
      if step.Ok? {
        DaysFuture(step.value.balance, rebirths, taken, taken', n - 1);
      }
    }
  }

  /** The sum of the daily accruals over a catch-up of n days. */
  ghost function TotalAccrual(b: Balance, rebirths: int, taken: set<int>, n: nat): int
    requires 0 <= rebirths
    decreases n
  {
    if n == 0 || RebirthGrowth(rebirths).None? then 0
    else
      Accrual(b.bank, RebirthGrowth(rebirths).value)
      + match DayStep(b, rebirths, taken)
        case Ok(next) => TotalAccrual(next.balance, rebirths, taken, n - 1)
        case Err(_) => 0
  }

  /** Credits of a catch-up from `firstDay` to `lastDay`: positive, on distinct days in order, after the first. */
  ghost predicate CreditsInOrder(credits: seq<DayCredit>, firstDay: int, lastDay: int) {
    && (forall i :: 0 <= i < |credits| ==> firstDay < credits[i].day <= lastDay && 0 < credits[i].interest)
    && (forall i, j :: 0 <= i < j < |credits| ==> credits[i].day < credits[j].day)
  }

  function Interests(credits: seq<DayCredit>): (interests: seq<int>)
    ensures |interests| == |credits|
  {
    seq(|credits|, i requires 0 <= i < |credits| => credits[i].interest)
  }

  ghost predicate Conserved(b: Balance, end: Balance, accrued: int) {
    && ValidBalance(end) && SameLots(b.lots, end.lots) && b.bank <= end.bank
    && DENOMINATOR * (end.bank - b.bank) + end.remainder == b.remainder + accrued
    && (end.bank == b.bank ==> end.lots == b.lots)
  }

  /** Over a whole catch-up value is conserved exactly, the remainder stays in range and the lots stay reconciled; the
      credited days are distinct, were free, and add up to the growth of the balance. */
  lemma {:induction false} CatchUpExact(b: Balance, rebirths: int, taken: set<int>, n: nat)
    requires ValidBalance(b) && 0 <= rebirths
    ensures match Days(b, rebirths, taken, n)
      case Ok(Accrued(end, credits)) =>
        && Conserved(b, end, TotalAccrual(b, rebirths, taken, n)) && end.day == b.day + n
        && CreditsInOrder(credits, b.day, end.day) && Sum(Interests(credits)) == end.bank - b.bank
        && (forall c <- credits :: c.day !in taken)
      case Err(OperationConflict) => exists d :: d in taken && b.day < d <= b.day + n
      case Err(e) => e == InterestOverflow
    decreases n
  {
    hide DayStep, DailyInterest, Credited, Accrual, RebirthGrowth, ValidBalance, Sum;
    if n == 0 {
      assert Interests([]) == [];
      SumWhole([]);
    } else {
      DayStepExact(b, rebirths, taken);
      var step := DayStep(b, rebirths, taken);
      if step.Ok? {
        var next := step.value.balance;
        CatchUpExact(next, rebirths, taken, n - 1);
        var rest := Days(next, rebirths, taken, n - 1);
        if rest.Ok? {
          var head, tail := step.value.credits, rest.value.credits;
          JoinCredits(head, tail, b.day, next.day, rest.value.balance.day);
          assert Sum(Interests(head)) == next.bank - b.bank by {
            SingleSum(head);
          }
        }
      } else if step.error == OperationConflict {
        assert b.day + 1 in taken;
      }
    }
  }

  lemma SingleSum(credits: seq<DayCredit>)
    requires |credits| <= 1
    ensures Sum(Interests(credits)) == if credits == [] then 0 else credits[0].interest
  {
    if credits != [] {
      assert Interests(credits)[1..] == [];
    }
  }

  lemma JoinCredits(head: seq<DayCredit>, tail: seq<DayCredit>, first: int, mid: int, last: int)
    requires CreditsInOrder(head, first, mid) && CreditsInOrder(tail, mid, last) && first <= mid <= last
    ensures CreditsInOrder(head + tail, first, last)
    ensures Sum(Interests(head + tail)) == Sum(Interests(head)) + Sum(Interests(tail))
  {
    assert Interests(head + tail) == Interests(head) + Interests(tail);
    SumConcat(Interests(head), Interests(tail));
  }
}
