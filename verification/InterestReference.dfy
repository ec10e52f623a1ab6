/** Daily interest against the published rate, which is written down on real numbers, and when a call credits it. */
module InterestReference {
  import opened Numbers
  import opened Products
  import opened Sums
  import opened Lots
  import opened Interest
  import LargestRemainder
  import Q32
  import opened Bank
  import opened BankLaws
  import opened BankRuns
  import opened BankPromises

  // ---- the rate

  /** The share of the bonus still to be earned: 0.9512... to the number of rebirths. */
  ghost function Decayed(rebirths: nat): real {
    Q32.RealPow(4_085_499_269.0 / 4_294_967_296.0, rebirths)
  }

  /** For every number of rebirths the growth is one minus the decayed power, to within half a unit of 2^-32 a rebirth. */
  lemma GrowthClose(rebirths: nat)
    ensures RebirthGrowth(rebirths).Some? && 0 <= RebirthGrowth(rebirths).value <= 4_294_967_296
    ensures Q32.Close((4_294_967_296 - RebirthGrowth(rebirths).value) as real, 4_294_967_296.0 * Decayed(rebirths),
                      rebirths as real / 2.0)
  {
    hide Q32.PowFrom, Q32.RealPow;
    Q32.PowError(REBIRTH_DECAY_Q32, rebirths);
    assert REBIRTH_DECAY_Q32 as real / Q32.ONE as real == 4_085_499_269.0 / 4_294_967_296.0;
  }

  /** The part of the balance that earns the bonus. */
  function Tranche(bank: int): int {
    if bank < 10_000_000 then bank else 10_000_000
  }

  /** The published interest of one day in millionths of a unit: 40 a unit of balance, and up to 20 more on the first ten
      million as the rebirths add up. */
  ghost function DayRate(bank: int, rebirths: nat): real {
    40.0 * bank as real + 20.0 * Tranche(bank) as real * (1.0 - Decayed(rebirths))
  }

  /** What is credited, with what is carried over, is the published interest to within ten units of 2^-32 millionths per
      unit of the tranche and rebirth. */
  lemma DayRateExact(bank: int, rebirths: nat, remainder: int)
    requires 0 <= bank <= I64_MAX && 0 <= remainder < 4_294_967_296_000_000
    ensures DailyInterest(bank, rebirths, remainder).Ok?
    ensures var (credit, carried) := DailyInterest(bank, rebirths, remainder).value;
      && 0 <= credit && 0 <= carried < 4_294_967_296_000_000
      && Q32.Close((4_294_967_296_000_000 * credit + carried - remainder) as real,
                   4_294_967_296.0 * DayRate(bank, rebirths), 10.0 * Tranche(bank) as real * rebirths as real)
  {
    hide RebirthGrowth, DailyInterest, Decayed;
    GrowthClose(rebirths);
    DailyExact(bank, rebirths, remainder);
    var growth := RebirthGrowth(rebirths).value;
    AccrualIs(bank, growth);
    GrowthScaled(40 * bank, Tranche(bank), growth, Decayed(rebirths), rebirths as real / 2.0);
  }

  lemma AccrualIs(bank: int, growth: int)
    ensures Accrual(bank, growth) == 4_294_967_296 * (40 * bank) + 20 * Tranche(bank) * growth
  {
  }

  lemma GrowthScaled(base: int, tranche: int, growth: int, decayed: real, bound: real)
    requires 0 <= tranche
    requires Q32.Close((4_294_967_296 - growth) as real, 4_294_967_296.0 * decayed, bound)
    ensures Q32.Close((4_294_967_296 * base + 20 * tranche * growth) as real,
                      4_294_967_296.0 * (base as real + 20.0 * tranche as real * (1.0 - decayed)),
                      20.0 * tranche as real * bound)
  {
    var s, t, g := 4_294_967_296.0, 20.0 * tranche as real, growth as real;
    assert (20 * tranche * growth) as real == t * g by {
      assert (20 * tranche * growth) as real == (20 * tranche) as real * growth as real;
    }
    var e := s - g - s * decayed;
    ScaledError(t, e, bound);
    assert t * e == t * s - t * g - t * (s * decayed) by {
      Q32Distributes(t, s, g, s * decayed);
    }
    assert s * (t * (1.0 - decayed)) == t * s - t * (s * decayed);
  }

  lemma ScaledError(t: real, e: real, bound: real)
    requires 0.0 <= t && -bound <= e <= bound
    ensures -(t * bound) <= t * e <= t * bound
  {
    assert t * (bound - e) >= 0.0;
    assert t * (bound + e) >= 0.0;
  }

  lemma Q32Distributes(t: real, a: real, b: real, c: real)
    ensures t * (a - b - c) == t * a - t * b - t * c
  {
  }

  // ---- the shares

  /** A lot's share is rounded up. */
  predicate RoundedUp(lots: seq<Lot>, after: seq<Lot>, interest: int, bank: int, i: nat)
    requires i < |lots| == |after|
  {
    bank * (after[i].principal - lots[i].principal) > interest * lots[i].principal
  }

  /** The shares rounded up are those with the largest remainders, and among equal remainders those of the first lots. */
  lemma CreditedRanked(lots: seq<Lot>, interest: int, bank: int, i: nat, j: nat)
    requires Reconciled(lots, bank) && 0 < bank <= I64_MAX && 0 < interest <= I64_MAX && bank + interest <= I64_MAX
    requires i < |lots| && j < |lots|
    requires (interest * lots[i].principal) % bank > (interest * lots[j].principal) % bank
             || ((interest * lots[i].principal) % bank == (interest * lots[j].principal) % bank && i < j)
    ensures Credited(lots, interest, bank).Ok? && |Credited(lots, interest, bank).value| == |lots|
    ensures var after := Credited(lots, interest, bank).value;
      RoundedUp(lots, after, interest, bank, j) ==> RoundedUp(lots, after, interest, bank, i)
  {
    hide LargestRemainder.Threshold, LargestRemainder.Split, LargestRemainder.Floors, Sum, Reconciled;
    var split, rho := CreditedSplit(lots, interest, bank);
    var products := LotProducts(lots, interest);
    assert products[i] == interest * lots[i].principal && products[j] == interest * lots[j].principal;
    LargestRemainder.SplitRanked(products, bank, interest, i, j);
    AboveQuotient(products[i], bank, split[i]);
    AboveQuotient(products[j], bank, split[j]);
  }

  lemma AboveQuotient(product: int, bank: int, share: int)
    requires 0 < bank
    ensures share > product / bank <==> bank * share > product
  {
    var q, r := product / bank, product % bank;
    assert product == bank * q + r;
    MulAdd(bank, q, 1);
    if share > q {
      MulOrder(q + 1, share, bank);
    } else {
      MulOrder(share, q, bank);
    }
  }

  // ---- small balances

  /** The interest of `n` equal days. */
  function Over(n: nat, daily: int): int {
    n * daily
  }

  lemma DayByDay(n: nat, daily: int)
    requires 0 <= daily
    ensures 0 <= Over(n, daily) && Over(0, daily) == 0 && Over(n + 1, daily) == daily + Over(n, daily)
  {
    MulNonNegative(n, daily);
  }

  /** Interest below a whole unit is neither credited nor lost: days of it leave the balance alone and add up in the
      remainder. */
  lemma {:induction false} SmallInterestAddsUp(b: Balance, rebirths: int, taken: set<int>, n: nat)
    requires ValidBalance(b) && 0 <= rebirths && RebirthGrowth(rebirths).Some?
    requires b.remainder + Over(n, Accrual(b.bank, RebirthGrowth(rebirths).value)) < 4_294_967_296_000_000
    ensures var sum := b.remainder + Over(n, Accrual(b.bank, RebirthGrowth(rebirths).value));
      Days(b, rebirths, taken, n) == Ok(Accrued(b.(remainder := sum, day := b.day + n), []))
    decreases n
  {
    hide DailyInterest, Credited, Accrual, RebirthGrowth, DayStep, Over;
    GrowthRange(rebirths);
    AccrualRate(b.bank, RebirthGrowth(rebirths).value);
    var daily := Accrual(b.bank, RebirthGrowth(rebirths).value);
    if n == 0 {
      DayByDay(0, daily);
    } else {
      DayByDay(n - 1, daily);
      SmallStep(b, rebirths, taken);
      SmallInterestAddsUp(DayStep(b, rebirths, taken).value.balance, rebirths, taken, n - 1);
      var none: seq<DayCredit> := [];
      assert none + none == none;
    }
  }

  lemma SmallStep(b: Balance, rebirths: int, taken: set<int>)
    requires ValidBalance(b) && 0 <= rebirths && RebirthGrowth(rebirths).Some?
    requires b.remainder + Accrual(b.bank, RebirthGrowth(rebirths).value) < DENOMINATOR
    ensures DayStep(b, rebirths, taken)
         == Ok(Accrued(b.(remainder := b.remainder + Accrual(b.bank, RebirthGrowth(rebirths).value), day := b.day + 1), []))
  {
    hide DailyInterest, Credited, Accrual, RebirthGrowth;
    DailyExact(b.bank, rebirths, b.remainder);
  }

  /** Five hundred units without a rebirth earn nothing for 49 days and one unit on the fiftieth. */
  lemma FiveHundredEarnsOne(b: Balance)
    requires ValidBalance(b) && b.bank == 500 && b.remainder == 0
    ensures Days(b, 0, {}, 49).Ok? && Days(b, 0, {}, 49).value.balance.bank == 500
    ensures Days(b, 0, {}, 50).Ok? && Days(b, 0, {}, 50).value.balance.bank == 501
  {
    hide Days, DayStep, Credited, DailyInterest;
    assert RebirthGrowth(0) == Some(0) && Accrual(500, 0) == 20_000 * Q32.ONE;
    SmallInterestAddsUp(b, 0, {}, 49);
    DaysCompose(b, 0, {}, 49, 1);
    var last := Days(b, 0, {}, 49).value.balance;
    assert last == b.(remainder := 49 * (20_000 * Q32.ONE), day := b.day + 49);
    DayStepExact(last, 0, {});
    DailyExact(500, 0, last.remainder);
    DaysOne(last);
  }

  lemma DaysOne(b: Balance)
    ensures Days(b, 0, {}, 1)
         == match DayStep(b, 0, {}) case Err(e) => Err(e) case Ok(next) => Ok(Accrued(next.balance, next.credits + []))
  {
    hide DayStep;
  }

  // ---- when a call credits

  /** The most a day can credit, rounded up. */
  const MOST_A_DAY := 553_402_322_211_288

  /** With room for the most that `n` days can credit, and no key in the way, the catch-up goes through. */
  lemma {:induction false} DaysFit(b: Balance, rebirths: int, taken: set<int>, n: nat)
    requires ValidBalance(b) && 0 <= rebirths && b.bank + n * MOST_A_DAY <= I64_MAX
    requires forall d :: b.day < d <= b.day + n ==> d !in taken
    ensures Days(b, rebirths, taken, n).Ok?
    decreases n
  {
    hide DailyInterest, Credited, Accrual, RebirthGrowth, DayStep, Reconciled;
    if n == 0 {
    } else {
      DayStepExact(b, rebirths, taken);
      DailyExact(b.bank, rebirths, b.remainder);
      CreditIs(b, rebirths, taken);
      DaysFit(DayStep(b, rebirths, taken).value.balance, rebirths, taken, n - 1);
    }
  }

  lemma CreditIs(b: Balance, rebirths: int, taken: set<int>)
    ensures DayStep(b, rebirths, taken).Ok? ==>
      DailyInterest(b.bank, rebirths, b.remainder).Ok?
      && DayStep(b, rebirths, taken).value.balance.bank
         == b.bank + Max(0, DailyInterest(b.bank, rebirths, b.remainder).value.0)
  {
    hide DailyInterest, Credited;
  }

  /** A call with days to credit fails only as those days do. */
  lemma DueDays(db: Database, p: PlayerId, today: int)
    requires Invariant(db) && p in db.accounts && db.accounts[p].status != Deleted && db.accounts[p].status != HardFrozen
    requires db.accounts[p].accrualDay < today
    ensures var (a, r) := (db.accounts[p], AccrueInterest(db, p, today).1);
      match Days(ToBalance(a), a.rebirths, TakenDays(db, p), Min(today - a.accrualDay, MAX_CATCHUP_DAYS))
      case Err(e) => r == Err(e) && e != InterestPlayerNotFound
      case Ok(_) => r.Ok?
  {
    hide Days, ReconcileLots, ValidAccount, ValidOperations, ValidLedger, TakenDays, RecordCredits;
    var a := db.accounts[p];
    ReachableAccount(db, p);
    AccountReconciles(a, db.nextId);
    CatchUpExact(ToBalance(a), a.rebirths, TakenDays(db, p), Min(today - a.accrualDay, MAX_CATCHUP_DAYS));
  }

  /** An interest call for a player that exists succeeds whenever it has nothing to credit, and also whenever the balance is
      at most nine quintillion and no key of a day to come is in use. It reports a missing player for no other reason. */
  lemma AccrueSucceeds(db: Database, p: PlayerId, today: int)
    requires Invariant(db)
    ensures AccrueInterest(db, p, today).1 == Err(InterestPlayerNotFound)
        <==> p !in db.accounts || db.accounts[p].status == Deleted
    ensures p in db.accounts && db.accounts[p].status != Deleted ==>
      var a := db.accounts[p];
      (|| a.accrualDay >= today || a.status == HardFrozen
       || (a.bank <= 9_000_000_000_000_000_000
           && forall d :: a.accrualDay < d <= today ==> InterestKey(p, d) !in db.byKey))
      ==> AccrueInterest(db, p, today).1.Ok?
  {
    hide Days, ReconcileLots, ValidAccount, ValidOperations, ValidLedger, TakenDays, RecordCredits;
    if p in db.accounts && db.accounts[p].status != Deleted {
      var a := db.accounts[p];
      ReachableAccount(db, p);
      AccountReconciles(a, db.nextId);
      TakenKeys(db, p);
      if a.accrualDay < today && a.status != HardFrozen {
        DueDays(db, p, today);
        var n := Min(today - a.accrualDay, MAX_CATCHUP_DAYS);
        if a.bank <= 9_000_000_000_000_000_000 && forall d :: a.accrualDay < d <= today ==> InterestKey(p, d) !in db.byKey {
          DaysFit(ToBalance(a), a.rebirths, TakenDays(db, p), n);
        }
      }
    }
  }
}
