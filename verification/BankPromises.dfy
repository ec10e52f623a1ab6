/** What a player of the bank can rely on: splitting a withdrawal, splitting a catch-up, and keys that mean one movement. */
module BankPromises {
  import opened Numbers
  import opened Products
  import opened Sums
  import opened Lots
  import opened Fees
  import opened Interest
  import opened Text
  import opened Bank
  import opened BankLaws
  import opened BankRuns

  // ---- one withdrawal or two

  lemma {:induction false} RollingAppends(withdrawals: seq<Withdrawal>, gross: int, now: int)
    ensures Rolling24hGross(withdrawals + [Withdrawal(gross, now)], now) == Rolling24hGross(withdrawals, now) + gross
  {
    var more := withdrawals + [Withdrawal(gross, now)];
    if withdrawals == [] {
      assert more[1..] == [];
    } else {
      RollingAppends(withdrawals[1..], gross, now);
      assert more[1..] == withdrawals[1..] + [Withdrawal(gross, now)];
    }
  }

  /** What an account is charged before rounding. */
  function AccountNumerator(a: Account, amount: int, now: int): int {
    FeeNumerator(amount, a.bank, Rolling24hGross(a.withdrawals, now), DebitsFrom(a.lots, amount), now)
  }

  /** The charge saved by splitting: the second part sees the lower balance. */
  function BandDrop(bank: int, first: int, second: int): int {
    second * (BalanceSurchargePpm(bank) - BalanceSurchargePpm(bank - first))
  }

  /** Withdrawing x and then y at one instant is charged exactly what x + y is, less the drop of the balance band. */
  lemma SplitNumerator(a: Account, nextId: nat, x: int, y: int, fee: int, now: int)
    requires ValidAccount(a, nextId) && 0 < x && 0 < y && x + y <= a.bank
    ensures AccountNumerator(a, x, now) + AccountNumerator(Withdrawn(a, x, fee, now), y, now)
         == AccountNumerator(a, x + y, now) - BandDrop(a.bank, x, y)
  {
    hide AgeNumerator, Rolling, DebitsFrom, Drained, BalanceSurchargePpm;
    var prior := Rolling24hGross(a.withdrawals, now);
    RollingNonNegative(a.withdrawals, now);
    RollingAppends(a.withdrawals, x, now);
    AgeAdds(a.lots, x, y, now);
    RollingAdds(prior, x, y);
    var s, t := BalanceSurchargePpm(a.bank), BalanceSurchargePpm(a.bank - x);
    MulAdd(s, x, y);
    MulAdd(y, s, t);
  }

  /** Both parts of a payable withdrawal are payable, and their fees differ from one fee only by the band drop and one
      extra rounding. */
  lemma SplitFees(a: Account, nextId: nat, x: int, y: int, now: int)
    requires ValidAccount(a, nextId) && BANK_MIN_WITHDRAWAL <= x && BANK_MIN_WITHDRAWAL <= y && x + y <= a.bank
    requires AccountFee(a, x + y, now).Some?
    ensures AccountFee(a, x, now).Some?
    ensures var first := AccountFee(a, x, now).value;
      var left := Withdrawn(a, x, first, now);
      && 0 < first < x && AccountFee(left, y, now).Some?
      && var second := AccountFee(left, y, now).value;
      && 0 < second < y
      && CeilPpm(AccountNumerator(a, x + y, now) - BandDrop(a.bank, x, y)) <= first + second
      && first + second <= CeilPpm(AccountNumerator(a, x + y, now) - BandDrop(a.bank, x, y)) + 1
  {
    hide FeeNumerator, DebitsFrom, Drained, BandDrop, Rolling24hGross;
    PartFee(a, nextId, x, x + y, now);
    var first := AccountFee(a, x, now).value;
    var left := Withdrawn(a, x, first, now);
    AccountFeeBounds(a, nextId, x, now);
    WithdrawnAgain(a, nextId, x, y, first, now);
    SplitNumerator(a, nextId, x, y, first, now);
    CeilSplit(AccountNumerator(a, x, now), AccountNumerator(left, y, now));
  }

  /** A smaller withdrawal has a fee whenever a larger one has. */
  lemma PartFee(a: Account, nextId: nat, x: int, whole: int, now: int)
    requires ValidAccount(a, nextId) && BANK_MIN_WITHDRAWAL <= x <= whole <= a.bank
    requires AccountFee(a, whole, now).Some?
    ensures AccountFee(a, x, now).Some?
  {
    hide FeeNumerator, AgeNumerator, DebitsFrom, Drained, Rolling24hGross;
    RollingNonNegative(a.withdrawals, now);
    WithdrawLots(a.lots, x);
    FeeBounds(x, a.bank, Rolling24hGross(a.withdrawals, now), DebitsFrom(a.lots, x), now);
  }

  /** What is left after the first part pays the second. */
  lemma WithdrawnAgain(a: Account, nextId: nat, x: int, y: int, fee: int, now: int)
    requires ValidAccount(a, nextId) && BANK_MIN_WITHDRAWAL <= x && BANK_MIN_WITHDRAWAL <= y && x + y <= a.bank
    requires AccountFee(a, x + y, now).Some?
    ensures var left := Withdrawn(a, x, fee, now);
      && AccountFee(left, y, now).Some? && 0 < AccountFee(left, y, now).value < y
      && AccountFee(left, y, now).value <= CeilPpm(11_100 * y)
  {
    hide FeeNumerator, AgeNumerator, DebitsFrom, Drained, Rolling24hGross;
    var left := Withdrawn(a, x, fee, now);
    DrainedRows(a.lots, x);
    RollingNonNegative(a.withdrawals, now);
    RollingAppends(a.withdrawals, x, now);
    WithdrawLots(left.lots, y);
    FeeBounds(y, left.bank, Rolling24hGross(left.withdrawals, now), DebitsFrom(left.lots, y), now);
  }

  /** What rounding a charge up adds to it, in parts of a unit. */
  function Slack(numerator: int): (slack: int)
    ensures 0 <= slack < PPM
  {
    PPM * CeilPpm(numerator) - numerator
  }

  /** What two fees cost beyond one, in parts of a unit: the extra rounding less the drop of the balance band. Everything in it
      is known from the account before the first part is taken. */
  function SplitExcess(a: Account, x: int, y: int, now: int): int {
    var whole, first, drop := AccountNumerator(a, x + y, now), AccountNumerator(a, x, now), BandDrop(a.bank, x, y);
    Slack(first) + Slack(whole - drop - first) - Slack(whole) - drop
  }

  /** The exact difference between two fees and one, for every split of a payable withdrawal. Splitting is cheaper if and only
      if the band drop exceeds the extra rounding: never within one band, always when the drop is worth two units. */
  lemma SplitDifference(a: Account, nextId: nat, x: int, y: int, now: int)
    requires ValidAccount(a, nextId) && BANK_MIN_WITHDRAWAL <= x && BANK_MIN_WITHDRAWAL <= y && x + y <= a.bank
    requires AccountFee(a, x + y, now).Some?
    ensures AccountFee(a, x, now).Some? && AccountFee(Withdrawn(a, x, AccountFee(a, x, now).value, now), y, now).Some?
    ensures var (first, single) := (AccountFee(a, x, now).value, AccountFee(a, x + y, now).value);
      var second := AccountFee(Withdrawn(a, x, first, now), y, now).value;
      var (whole, part, drop) := (AccountNumerator(a, x + y, now), AccountNumerator(a, x, now), BandDrop(a.bank, x, y));
      && PPM * (first + second - single) == SplitExcess(a, x, y, now)
      && (first + second < single <==> drop > Slack(part) + Slack(whole - drop - part) - Slack(whole))
      && (drop == 0 ==> single <= first + second)
      && (drop >= 2 * PPM ==> first + second < single)
  {
    hide FeeNumerator, DebitsFrom, Drained, BandDrop, Rolling24hGross, AccountFee, ValidAccount, CeilPpm,
         AccountNumerator;
    SplitFees(a, nextId, x, y, now);
    var first := AccountFee(a, x, now).value;
    var left := Withdrawn(a, x, first, now);
    SingleFee(a, x, now);
    SingleFee(left, y, now);
    SingleFee(a, x + y, now);
    BackedAmounts(a, nextId);
    SplitNumerator(a, nextId, x, y, first, now);
  }

  lemma BackedAmounts(a: Account, nextId: nat)
    requires ValidAccount(a, nextId)
    ensures 0 <= a.wallet <= I64_MAX && 0 <= a.bank <= I64_MAX
  {
  }

  /** Splitting a withdrawal that succeeds: the first part succeeds, the second exactly when the wallet holds what the two
      leave, and then the lots and the bank balance are those of the one withdrawal and the fees differ by exactly the excess.
      Within one balance band both always succeed, and cost the one fee or one unit more. */
  lemma WithdrawSplit(db: Database, p: PlayerId, x: int, y: int, key: RequestKey, firstKey: RequestKey,
                      secondKey: RequestKey, now: int)
    requires Invariant(db) && key !in db.byKey && firstKey !in db.byKey && secondKey !in db.byKey
    requires firstKey != secondKey
    requires BANK_MIN_WITHDRAWAL <= x && BANK_MIN_WITHDRAWAL <= y
    requires Mutate(db, Withdraw, p, x + y, key, now).1.Ok?
    ensures p in db.accounts && Mutate(db, Withdraw, p, x, firstKey, now).1.Ok?
    ensures var (whole, receipt) := Mutate(db, Withdraw, p, x + y, key, now);
      var (mid, first) := Mutate(db, Withdraw, p, x, firstKey, now);
      var (end, second) := Mutate(mid, Withdraw, p, y, secondKey, now);
      var a := db.accounts[p];
      && p in whole.accounts && p in end.accounts
      && (second.Ok? <==> PPM * (a.wallet + x + y - receipt.value.fee) - SplitExcess(a, x, y, now) <= PPM * I64_MAX)
      && (second.Ok? ==>
            && end.accounts[p].lots == whole.accounts[p].lots && end.accounts[p].bank == whole.accounts[p].bank
            && PPM * (first.value.fee + second.value.fee - receipt.value.fee) == SplitExcess(a, x, y, now))
      && (BalanceSurchargePpm(a.bank) == BalanceSurchargePpm(a.bank - x) ==>
            second.Ok? && receipt.value.fee <= first.value.fee + second.value.fee <= receipt.value.fee + 1)
  {
    hide Mutate, AccountFee, Drained, ValidAccount, Rolling24hGross, ValidOperations, ValidLedger, CeilPpm,
         AccountNumerator, Slack, SplitExcess, BandDrop;
    MutateBooks(db, Withdraw, p, x + y, key, now);
    SuccessfulActor(db, Withdraw, p, x + y, key, now);
    var a := db.accounts[p];
    BackedAmounts(a, db.nextId);
    SplitDifference(a, db.nextId, x, y, now);
    SplitFees(a, db.nextId, x, y, now);
    SameBand(a, x, y, now);
    PartFits(a, db.nextId, x, y, now);
    var first, fee := AccountFee(a, x, now).value, AccountFee(a, x + y, now).value;
    var left := Withdrawn(a, x, first, now);
    var second := AccountFee(left, y, now).value;
    WithdrawSucceeds(db, p, x, firstKey, now);
    var mid := Mutate(db, Withdraw, p, x, firstKey, now).0;
    MutateKeeps(db, Withdraw, p, x, firstKey, now);
    assert mid.accounts[p] == left && secondKey !in mid.byKey;
    MutateBooks(mid, Withdraw, p, y, secondKey, now);
    if left.wallet + y - second <= I64_MAX {
      WithdrawSucceeds(mid, p, y, secondKey, now);
      DrainedInTurn(a, db.nextId, x, y);
    }
  }

  /** The second part adds to the wallet whatever the bands do, so the first part fits when the whole does. */
  lemma PartFits(a: Account, nextId: nat, x: int, y: int, now: int)
    requires ValidAccount(a, nextId) && BANK_MIN_WITHDRAWAL <= x && BANK_MIN_WITHDRAWAL <= y && x + y <= a.bank
    requires AccountFee(a, x + y, now).Some? && AccountFee(a, x, now).Some?
    ensures AccountFee(a, x + y, now).value - AccountFee(a, x, now).value <= y
  {
    hide AccountFee, ValidAccount, Slack, AccountNumerator, Withdrawn;
    SplitDifference(a, nextId, x, y, now);
    WithdrawnAgain(a, nextId, x, y, AccountFee(a, x, now).value, now);
    MulOrder(BalanceSurchargePpm(a.bank) - BalanceSurchargePpm(a.bank - x), 600, y);
  }

  lemma SameBand(a: Account, x: int, y: int, now: int)
    ensures BalanceSurchargePpm(a.bank) == BalanceSurchargePpm(a.bank - x) ==>
      BandDrop(a.bank, x, y) == 0 && -PPM < SplitExcess(a, x, y, now) < 2 * PPM
  {
    hide AccountNumerator, BalanceSurchargePpm, Slack;
  }

  lemma SuccessfulActor(db: Database, kind: MutationKind, actor: PlayerId, amount: int, key: RequestKey, now: int)
    requires Mutate(db, kind, actor, amount, key, now).1.Ok?
    ensures actor <= I64_MAX
  {
    hide ResolveOperation, DepositFresh, WithdrawFresh;
  }

  lemma DrainedInTurn(a: Account, nextId: nat, x: int, y: int)
    requires ValidAccount(a, nextId) && 0 <= x && 0 <= y
    ensures Drained(Drained(a.lots, x), y) == Drained(a.lots, x + y)
  {
    DrainedTwice(a.lots, x, y);
  }

  lemma SingleFee(a: Account, amount: int, now: int)
    ensures AccountFee(a, amount, now).Some? ==> AccountFee(a, amount, now).value == CeilPpm(AccountNumerator(a, amount, now))
  {
    hide FeeNumerator;
  }

  /** When a withdrawal under a new key goes through. */
  lemma WithdrawSucceeds(db: Database, p: PlayerId, amount: int, key: RequestKey, now: int)
    requires Invariant(db) && key !in db.byKey && p <= I64_MAX && p in db.accounts
    requires db.accounts[p].status == Status.Active
    requires BANK_MIN_WITHDRAWAL <= amount <= db.accounts[p].bank && AccountFee(db.accounts[p], amount, now).Some?
    requires var fee := AccountFee(db.accounts[p], amount, now).value;
      db.accounts[p].wallet + amount - fee <= I64_MAX
    ensures var fee := AccountFee(db.accounts[p], amount, now).value;
      Mutate(db, Withdraw, p, amount, key, now)
      == (Booked(db, key, p, Withdrawn(db.accounts[p], amount, fee, now),
                 WithdrawalReceipt(db.nextId, db.accounts[p], amount, fee), db.nextId + 1),
          Ok(WithdrawalReceipt(db.nextId, db.accounts[p], amount, fee)))
  {
    hide Settle, Booked, WithdrawalFee, DebitsFrom, ApplyDebits, Drained, Unpaid, ActiveLots;
    var a := db.accounts[p];
    var row := Operation(key, Some(p), None, BankMutation(Withdraw), BANK_POLICY_VERSION, BankRequest(Withdraw, amount),
                         Pending, None);
    var begun := InsertOperation(db, row);
    assert ValidAccount(a, db.nextId);
    WithdrawLots(a.lots, amount);
    var fee := AccountFee(a, amount, now).value;
    AccountFeeBounds(a, db.nextId, amount, now);
    SettleBooks(db, begun, row, p, Withdrawn(a, amount, fee, now), WithdrawalReceipt(db.nextId, a, amount, fee),
                db.nextId + 1);
  }

  /** Across a band the two fees can be less than one: a million in one fresh lot, first 500 and then the rest. */
  lemma SplitCheaperAcrossBands()
    ensures var a := Account(Status.Active, 0, 1_000_000, 0, 0, 0, [Lot(0, 1_000_000, 0)], []);
      && ValidAccount(a, 1)
      && AccountFee(a, 1_000_000, 0) == Some(10_290)
      && AccountFee(a, 500, 0) == Some(6)
      && AccountFee(Withdrawn(a, 500, 6, 0), 999_500, 0) == Some(10_085)
  {
    var a := Account(Status.Active, 0, 1_000_000, 0, 0, 0, [Lot(0, 1_000_000, 0)], []);
    assert Principals(a.lots)[1..] == [];
    assert Sum(Principals(a.lots)) == 1_000_000;
    OneLotFee(a, 1_000_000);
    OneLotFee(a, 500);
    var left := Withdrawn(a, 500, 6, 0);
    assert left.lots == [Lot(0, 999_500, 0)];
    assert left.withdrawals == [Withdrawal(500, 0)];
    assert left.withdrawals[1..] == [];
    assert Rolling24hGross(left.withdrawals, 0) == 500;
    OneLotFee(left, 999_500);
  }

  lemma OneLotFee(a: Account, amount: int)
    requires |a.lots| == 1 && a.lots[0].depositedAt == 0 && 0 < amount <= a.lots[0].principal
    ensures AccountNumerator(a, amount, 0)
         == 10_000 * amount + amount * BalanceSurchargePpm(a.bank) + Rolling(Rolling24hGross(a.withdrawals, 0), amount)
    ensures AgeNumerator(DebitsFrom(a.lots, amount), 0) == 10_000 * amount
  {
    hide Rolling, BalanceSurchargePpm, Rolling24hGross;
    var debit := Debit(a.lots[0].id, amount, 0);
    assert a.lots[1..] == [];
    assert DebitsFrom([], 0) == [];
    assert DebitsFrom(a.lots, amount) == [debit];
    assert [debit][1..] == [];
    assert AgeNumerator([debit], 0) == AgeCharge(amount, 0, 0);
  }

  // ---- catching up in any number of calls

  /** Successive interest calls of one player, each with the date it was made on. */
  function Calls(db: Database, p: PlayerId, dates: seq<int>): Database
    decreases |dates|
  {
    if dates == [] then db else Calls(AccrueInterest(db, p, dates[0]).0, p, dates[1..])
  }

  /** `a'` is what `n` daily steps make of `a`. */
  ghost predicate CaughtUp(a: Account, taken: set<int>, n: nat, a': Account) {
    var accrued := Days(ToBalance(a), a.rebirths, taken, n);
    && accrued.Ok? && |accrued.value.balance.lots| == |ActiveLots(a.lots)|
    && a' == FromBalance(a, accrued.value.balance)
  }

  lemma NotMoved(a: Account, taken: set<int>)
    ensures CaughtUp(a, taken, 0, a)
  {
    WriteBackSame(a.lots);
  }

  /** Catching up by n days and then by m more is catching up by n + m days. */
  lemma CaughtUpTwice(a: Account, nextId: nat, taken: set<int>, n: nat, mid: Account, taken': set<int>, m: nat,
                      end: Account)
    requires ValidAccount(a, nextId) && CaughtUp(a, taken, n, mid) && CaughtUp(mid, taken', m, end)
    requires forall d :: d > a.accrualDay + n ==> (d in taken <==> d in taken')
    ensures CaughtUp(a, taken, n + m, end)
  {
    hide Days, DayStep, ActiveLots, WriteBack, ReconcileLots;
    AccountReconciles(a, nextId);
    CatchUpExact(ToBalance(a), a.rebirths, taken, n);
    var first := Days(ToBalance(a), a.rebirths, taken, n).value.balance;
    StoredBalance(a, first);
    DaysCompose(ToBalance(a), a.rebirths, taken, n, m);
    DaysFuture(first, a.rebirths, taken, taken', m);
    var second := Days(first, a.rebirths, taken, m).value.balance;
    WriteBackTwice(a.lots, first.lots, second.lots);
  }

  lemma StoredBalance(a: Account, b: Balance)
    requires ValidBalance(b) && |b.lots| == |ActiveLots(a.lots)|
    ensures ToBalance(FromBalance(a, b)) == b
  {
    WriteBackReads(a.lots, b.lots);
  }

  /** Whatever the dates of the calls, and whichever of them fail, the account ends as so many daily steps leave it; a
      hard-frozen account only moves its day. */
  lemma {:induction false} CallsCatchUp(db: Database, p: PlayerId, dates: seq<int>)
    requires Invariant(db) && p in db.accounts
    ensures var end := Calls(db, p, dates);
      && p in end.accounts && db.accounts[p].accrualDay <= end.accounts[p].accrualDay
      && var (a, a') := (db.accounts[p], end.accounts[p]);
      && (a.status == HardFrozen ==> a' == a.(accrualDay := a'.accrualDay))
      && (a.status != HardFrozen ==> CaughtUp(a, TakenDays(db, p), a'.accrualDay - a.accrualDay, a'))
    decreases |dates|
  {
    hide AccrueInterest, CaughtUp, Invariant, LedgerTotal, AccruedAs, TakenDays;
    var a := db.accounts[p];
    NotMoved(a, TakenDays(db, p));
    if dates == [] {
    } else {
      AccrueBooks(db, p, dates[0]);
      var (next, result) := AccrueInterest(db, p, dates[0]);
      CallsCatchUp(next, p, dates[1..]);
      if result.Ok? && a.status != HardFrozen {
        OneCall(db, p, dates[0]);
        ReachableAccount(db, p);
        var mid := next.accounts[p];
        var end := Calls(db, p, dates).accounts[p];
        CaughtUpTwice(a, db.nextId, TakenDays(db, p), mid.accrualDay - a.accrualDay, mid,
                      TakenDays(next, p), end.accrualDay - mid.accrualDay, end);
      }
    }
  }

  lemma OneCall(db: Database, p: PlayerId, today: int)
    requires Invariant(db) && p in db.accounts && db.accounts[p].status != HardFrozen
    requires AccrueInterest(db, p, today).1.Ok?
    ensures var (next, result) := AccrueInterest(db, p, today);
      && p in next.accounts
      && var (a, mid) := (db.accounts[p], next.accounts[p]);
      && mid.accrualDay >= a.accrualDay && mid.status == a.status
      && CaughtUp(a, TakenDays(db, p), mid.accrualDay - a.accrualDay, mid)
      && forall d :: d > mid.accrualDay ==> (d in TakenDays(db, p) <==> d in TakenDays(next, p))
  {
    hide AccrueInterest, Invariant, LedgerTotal, Days, FromBalance;
    AccrueBooks(db, p, today);
    NotMoved(db.accounts[p], TakenDays(db, p));
    var next := AccrueInterest(db, p, today).0;
    forall d | d > next.accounts[p].accrualDay
      ensures d in TakenDays(db, p) <==> d in TakenDays(next, p)
    {
      assert InterestKey(p, d) in db.byKey <==> InterestKey(p, d) in next.byKey;
      assert InterestKey(p, d) in db.byKey <==> d in TakenDays(db, p);
      assert InterestKey(p, d) in next.byKey <==> d in TakenDays(next, p);
    }
  }

  /** Any two ways of calling that reach the same day end with the same account: bank, remainder and lots. */
  lemma ChunkingIrrelevant(db: Database, p: PlayerId, dates: seq<int>, dates': seq<int>)
    requires Invariant(db) && p in db.accounts
    ensures p in Calls(db, p, dates).accounts && p in Calls(db, p, dates').accounts
    ensures Calls(db, p, dates).accounts[p].accrualDay == Calls(db, p, dates').accounts[p].accrualDay ==>
      Calls(db, p, dates).accounts[p] == Calls(db, p, dates').accounts[p]
  {
    hide Calls, Days, FromBalance, Invariant, TakenDays;
    CallsCatchUp(db, p, dates);
    CallsCatchUp(db, p, dates');
  }

  // ---- value is conserved over whole runs

  /** Interest a transaction credits to the player. */
  function CreditedBy(db: Database, c: Command, p: PlayerId): int {
    if c.AccrueCommand? && c.player == p then
      match AccrueInterest(db, p, c.today).1 { case Ok(summary) => summary.credited case Err(_) => 0 }
    else 0
  }

  /** Unrounded interest the player earns on the days a transaction processes; none while hard-frozen. */
  ghost function EarnedIn(db: Database, c: Command, p: PlayerId): int
    requires Invariant(db) && p in db.accounts
  {
    if c.AccrueCommand? && c.player == p && db.accounts[p].status != HardFrozen then
      match AccrueInterest(db, p, c.today).1
      case Ok(summary) =>
        TotalAccrual(ToBalance(db.accounts[p]), db.accounts[p].rebirths, TakenDays(db, p), summary.days)
      case Err(_) => 0
    else 0
  }

  lemma StepConserves(db: Database, c: Command, p: PlayerId)
    requires Invariant(db) && p in db.accounts
    ensures p in Step(db, c).accounts
    ensures DENOMINATOR * CreditedBy(db, c, p) + Step(db, c).accounts[p].remainder
         == db.accounts[p].remainder + EarnedIn(db, c, p)
  {
    hide Mutate, AccrueInterest, ApplyWalletSpend, Invariant, LedgerTotal, Days, TotalAccrual, AccountFee, InsertLot,
         Drained;
    match c
    case MutateCommand(kind, actor, amount, key, now) => MutateBooks(db, kind, actor, amount, key, now);
    case AccrueCommand(player, today) =>
      AccrueBooks(db, player, today);
      if player == p {
        CallConserves(db, p, today);
      }
    case SpendCommand(request) => SpendBooks(db, request);
    case _ =>
  }

  lemma CallConserves(db: Database, p: PlayerId, today: int)
    requires Invariant(db) && p in db.accounts
    ensures var c := AccrueCommand(p, today);
      && p in Step(db, c).accounts
      && DENOMINATOR * CreditedBy(db, c, p) + Step(db, c).accounts[p].remainder
         == db.accounts[p].remainder + EarnedIn(db, c, p)
  {
    hide AccrueInterest, Invariant, LedgerTotal, Days, ReconcileLots, Reconciled, SameLots, Accrual, DayStep;
    AccrueBooks(db, p, today);
    ReachableAccount(db, p);
    var a := db.accounts[p];
    var result := AccrueInterest(db, p, today).1;
    if result.Ok? && a.status != HardFrozen {
      AccountReconciles(a, db.nextId);
      CatchUpExact(ToBalance(a), a.rebirths, TakenDays(db, p), result.value.days);
    }
  }

  function CreditedOver(db: Database, commands: seq<Command>, p: PlayerId): int
    decreases |commands|
  {
    if commands == [] then 0 else CreditedBy(db, commands[0], p) + CreditedOver(Step(db, commands[0]), commands[1..], p)
  }

  ghost function EarnedOver(db: Database, commands: seq<Command>, p: PlayerId): int
    requires Invariant(db) && p in db.accounts
    decreases |commands|
  {
    if commands == [] then 0
    else
      StepInvariant(db, commands[0]);
      StepConserves(db, commands[0], p);
      EarnedIn(db, commands[0], p) + EarnedOver(Step(db, commands[0]), commands[1..], p)
  }

  /** Over any run the interest credited and the remainder still carried are exactly the interest earned and the remainder
      carried in: no fraction of a unit is lost or invented, whatever else happens in between. */
  lemma {:induction false} RunConserves(db: Database, commands: seq<Command>, p: PlayerId)
    requires Invariant(db) && p in db.accounts
    ensures p in Run(db, commands).accounts && 0 <= Run(db, commands).accounts[p].remainder < DENOMINATOR
    ensures DENOMINATOR * CreditedOver(db, commands, p) + Run(db, commands).accounts[p].remainder
         == db.accounts[p].remainder + EarnedOver(db, commands, p)
    decreases |commands|
  {
    hide Step, CreditedBy, EarnedIn, Invariant;
    if commands == [] {
      ReachableAccount(db, p);
    } else {
      StepInvariant(db, commands[0]);
      StepConserves(db, commands[0], p);
      RunConserves(Step(db, commands[0]), commands[1..], p);
    }
  }

  // ---- when the interest job's operation conflict fires

  /** Left alone, the catch-up from `b` reaches its day k + 1 and credits interest on it. */
  ghost predicate PaysOn(b: Balance, rebirths: int, k: nat) {
    && Days(b, rebirths, {}, k).Ok? && Days(b, rebirths, {}, k + 1).Ok?
    && Days(b, rebirths, {}, k).value.balance.bank < Days(b, rebirths, {}, k + 1).value.balance.bank
  }

  lemma PaysFirst(b: Balance, rebirths: int)
    ensures PaysOn(b, rebirths, 0) <==>
      DayStep(b, rebirths, {}).Ok? && b.bank < DayStep(b, rebirths, {}).value.balance.bank
  {
    hide DayStep;
    var step := DayStep(b, rebirths, {});
    if step.Ok? {
      assert Days(step.value.balance, rebirths, {}, 0).Ok?;
    }
  }

  lemma PaysLater(b: Balance, rebirths: int, k: nat)
    ensures PaysOn(b, rebirths, k + 1) <==>
      DayStep(b, rebirths, {}).Ok? && PaysOn(DayStep(b, rebirths, {}).value.balance, rebirths, k)
  {
    hide DayStep;
  }

  /** A catch-up conflicts exactly when a day it would credit has its key in use. */
  lemma {:induction false} DaysConflict(b: Balance, rebirths: int, taken: set<int>, n: nat)
    requires ValidBalance(b) && 0 <= rebirths
    ensures Days(b, rebirths, taken, n) == Err(OperationConflict)
        <==> exists k :: 0 <= k < n && PaysOn(b, rebirths, k) && b.day + k + 1 in taken
    decreases n
  {
    hide DayStep, PaysOn, ValidBalance;
    if n == 0 {
    } else {
      var step, free := DayStep(b, rebirths, taken), DayStep(b, rebirths, {});
      SameStep(b, rebirths, taken);
      PaysFirst(b, rebirths);
      assert PaysOn(b, rebirths, 0) ==> b.day + 0 + 1 == b.day + 1;
      forall k | 0 < k < n
        ensures PaysOn(b, rebirths, k) <==> free.Ok? && PaysOn(free.value.balance, rebirths, k - 1)
      {
        PaysLater(b, rebirths, k - 1);
      }
      if step.Ok? {
        DaysConflict(step.value.balance, rebirths, taken, n - 1);
        var next := step.value.balance;
        if k :| 0 <= k < n - 1 && PaysOn(next, rebirths, k) && next.day + k + 1 in taken {
          assert PaysOn(b, rebirths, k + 1) && b.day + (k + 1) + 1 in taken;
        }
        if k :| 0 <= k < n && PaysOn(b, rebirths, k) && b.day + k + 1 in taken {
          assert PaysOn(next, rebirths, k - 1) && next.day + (k - 1) + 1 in taken;
        }
      }
    }
  }

  /** A day's step differs from the step with no key in use only by the conflict on a day that is credited. */
  lemma SameStep(b: Balance, rebirths: int, taken: set<int>)
    requires ValidBalance(b) && 0 <= rebirths
    ensures var (step, free) := (DayStep(b, rebirths, taken), DayStep(b, rebirths, {}));
      && (step == Err(OperationConflict) <==> free.Ok? && b.bank < free.value.balance.bank && b.day + 1 in taken)
      && (step != Err(OperationConflict) ==> step == free)
      && (free.Ok? ==> ValidBalance(free.value.balance) && free.value.balance.day == b.day + 1)
  {
    hide DailyInterest, Credited, Reconciled, SameLots, Accrual, RebirthGrowth;
    DayStepExact(b, rebirths, {});
    DayStepExact(b, rebirths, taken);
  }

  /** A day the call is about to credit has its key in use. */
  ghost predicate PaysOnTakenDay(db: Database, p: PlayerId, a: Account, today: int) {
    && a.status != Deleted && a.status != HardFrozen
    && exists k :: 0 <= k < Min(today - a.accrualDay, MAX_CATCHUP_DAYS)
           && PaysOn(ToBalance(a), a.rebirths, k) && InterestKey(p, a.accrualDay + k + 1) in db.byKey
  }

  /** In a reachable database the conflict fires exactly when the key of a day about to be credited is in use. */
  lemma InterestConflictExactly(db: Database, p: PlayerId, today: int)
    requires Invariant(db)
    ensures AccrueInterest(db, p, today).1 == Err(OperationConflict)
        <==> p in db.accounts && PaysOnTakenDay(db, p, db.accounts[p], today)
  {
    hide Days, PaysOn, ReconcileLots, ValidAccount, ValidOperations, ValidLedger, TakenDays;
    if p in db.accounts && db.accounts[p].status != Deleted && db.accounts[p].status != HardFrozen {
      var a := db.accounts[p];
      ReachableAccount(db, p);
      AccountReconciles(a, db.nextId);
      var taken := TakenDays(db, p);
      TakenKeys(db, p);
      if a.accrualDay < today {
        DaysConflict(ToBalance(a), a.rebirths, taken, Min(today - a.accrualDay, MAX_CATCHUP_DAYS));
      }
    }
  }

  lemma TakenKeys(db: Database, p: PlayerId)
    ensures forall d :: d in TakenDays(db, p) <==> InterestKey(p, d) in db.byKey
  {
  }

  /** An interest-bearing account is blocked, whatever the date, once the key of its next day is in use: a request key in
      the job's own form makes the operation conflict fire. */
  lemma TakenKeyBlocksInterest(db: Database, p: PlayerId, today: int)
    requires Invariant(db) && p in db.accounts
    requires var a := db.accounts[p];
      && a.status != Deleted && a.status != HardFrozen && a.accrualDay < today
      && InterestKey(p, a.accrualDay + 1) in db.byKey
      && DailyInterest(a.bank, a.rebirths, a.remainder).Ok?
      && 0 < DailyInterest(a.bank, a.rebirths, a.remainder).value.0 <= I64_MAX - a.bank
    ensures AccrueInterest(db, p, today) == (db, Err(OperationConflict))
  {
    hide DailyInterest, Credited, ReconcileLots, ValidAccount, ValidOperations, ValidLedger;
    var a := db.accounts[p];
    ReachableAccount(db, p);
    AccountReconciles(a, db.nextId);
    var b, taken := ToBalance(a), TakenDays(db, p);
    assert a.accrualDay + 1 in taken;
    DayStepExact(b, a.rebirths, taken);
    assert DayStep(b, a.rebirths, taken) == Err(OperationConflict);
    assert Days(b, a.rebirths, taken, Min(today - a.accrualDay, MAX_CATCHUP_DAYS)) == Err(OperationConflict);
  }

  /** A player with one coin in the wallet and one lot in the bank. */
  function ExampleDatabase(): Database {
    Database(map[7 := Account(Status.Active, 1, 24_999_999, 0, 0, 0, [Lot(0, 24_999_999, 0)], [])], map[], map[], [], 1)
  }

  lemma ExampleValid()
    ensures Invariant(ExampleDatabase())
  {
    var account := ExampleDatabase().accounts[7];
    assert Principals(account.lots)[1..] == [];
    assert Sum(Principals(account.lots)) == 24_999_999;
    assert ValidAccount(account, 1);
  }

  lemma ExampleDeposit()
    ensures var (after, result) := Mutate(ExampleDatabase(), Deposit, 7, 1, InterestKey(7, 1), 0);
      && result.Ok? && Invariant(after) && InterestKey(7, 1) in after.byKey && 7 in after.accounts
      && var a := after.accounts[7];
      && a.status == Status.Active && a.bank == 25_000_000 && a.rebirths == 0 && a.remainder == 0 && a.accrualDay == 0
  {
    hide InsertLot, ValidAccount, ValidOperations, ValidLedger, Settle, Booked;
    ExampleValid();
    MutateKeeps(ExampleDatabase(), Deposit, 7, 1, InterestKey(7, 1), 0);
    var row := Operation(InterestKey(7, 1), Some(7), None, BankMutation(Deposit), BANK_POLICY_VERSION,
                         BankRequest(Deposit, 1), Pending, None);
    var begun := InsertOperation(ExampleDatabase(), row);
    var a := ExampleDatabase().accounts[7];
    var next := a.(wallet := 0, bank := 25_000_000, lots := InsertLot(a.lots, Lot(2, 1, 0)));
    var receipt := Receipt(1, Deposit, 1, 0, 1, 0, 25_000_000);
    SettleBooks(ExampleDatabase(), begun.(nextId := begun.nextId + 1), row, 7, next, receipt, 3);
    BookedAccount(ExampleDatabase(), InterestKey(7, 1), 7, next, receipt, 3);
  }

  lemma BookedAccount(db: Database, key: RequestKey, p: PlayerId, account: Account, receipt: Receipt, nextId: nat)
    ensures var after := Booked(db, key, p, account, receipt, nextId);
      p in after.accounts && after.accounts[p] == account && key in after.byKey
  {
  }

  /** Such a key is accepted from a caller: a deposit under it succeeds, and no interest is paid from then on. */
  lemma ReservedKeyAccepted()
    ensures var (after, result) := Mutate(ExampleDatabase(), Deposit, 7, 1, InterestKey(7, 1), 0);
      && result.Ok? && forall today :: today > 0 ==> AccrueInterest(after, 7, today) == (after, Err(OperationConflict))
  {
    hide Mutate, AccrueInterest, DailyInterest, Invariant;
    ExampleDeposit();
    FirstDayInterest();
    var after := Mutate(ExampleDatabase(), Deposit, 7, 1, InterestKey(7, 1), 0).0;
    forall today | today > 0
      ensures AccrueInterest(after, 7, today) == (after, Err(OperationConflict))
    {
      TakenKeyBlocksInterest(after, 7, today);
    }
  }

  lemma FirstDayInterest()
    ensures DailyInterest(25_000_000, 0, 0) == Ok((1_000, 0))
  {
    assert RebirthGrowth(0) == Some(0);
  }

  // ---- requests under a key whose row has no actor

  /** The one way a request ends in a database error: a legal request under a key whose stored row has no actor to read. */
  lemma DatabaseErrorExactly(db: Database, kind: MutationKind, actor: PlayerId, amount: int, key: RequestKey, now: int)
    requires Invariant(db)
    ensures Mutate(db, kind, actor, amount, key, now).1 == Err(DatabaseError)
        <==> && ValidateAmount(kind, amount).None? && actor <= I64_MAX
             && key in db.byKey && db.byKey[key] in db.operations && db.operations[db.byKey[key]].actor.None?
    ensures Mutate(db, kind, actor, amount, key, now).1.Err? ==> Mutate(db, kind, actor, amount, key, now).0 == db
  {
    hide DepositFresh, WithdrawFresh, ValidAccount, ValidLedger, AccountFee, Booked;
    MutateBooks(db, kind, actor, amount, key, now);
  }

  /** Every key an interest call has taken answers legal deposits and withdrawals with that error, after any run. */
  lemma InterestKeyUnreadable(db: Database, p: PlayerId, today: int, k: RequestKey, commands: seq<Command>,
                              kind: MutationKind, actor: PlayerId, amount: int, now: int)
    requires Invariant(db) && k in AccrueInterest(db, p, today).0.byKey && k !in db.byKey
    requires ValidateAmount(kind, amount).None? && actor <= I64_MAX
    ensures var later := Run(AccrueInterest(db, p, today).0, commands);
      Mutate(later, kind, actor, amount, k, now) == (later, Err(DatabaseError))
  {
    hide Mutate, AccrueInterest, Run, Invariant, ValidateAmount;
    AccrueExtends(db, p, today);
    AccrueBooks(db, p, today);
    var after := AccrueInterest(db, p, today).0;
    RunExtends(after, commands);
    DatabaseErrorExactly(Run(after, commands), kind, actor, amount, k, now);
  }

  /** A player whose bank pays a thousand on the first day. */
  function PayingDatabase(): Database {
    Database(map[7 := Account(Status.Active, 1, 25_000_000, 0, 0, 0, [Lot(0, 25_000_000, 0)], [])], map[], map[], [], 1)
  }

  /** A paying day whose key is free takes that key. */
  lemma PayingDayTakesKey(db: Database, p: PlayerId, today: int)
    requires Invariant(db) && p in db.accounts
    requires var a := db.accounts[p];
      && a.status != Deleted && a.status != HardFrozen && today == a.accrualDay + 1 && InterestKey(p, today) !in db.byKey
      && DailyInterest(a.bank, a.rebirths, a.remainder).Ok?
      && 0 < DailyInterest(a.bank, a.rebirths, a.remainder).value.0 <= I64_MAX - a.bank
    ensures InterestKey(p, today) in AccrueInterest(db, p, today).0.byKey
  {
    hide DailyInterest, ReconcileLots, ValidAccount, ValidOperations, ValidLedger, WriteBack, Days, DayStep,
         ValidBalance,
         RecordCredits, ActiveLots;
    var a := db.accounts[p];
    ReachableAccount(db, p);
    AccountReconciles(a, db.nextId);
    var b, taken := ToBalance(a), TakenDays(db, p);
    assert today !in taken;
    PaidDay(b, a.rebirths, taken);
    var step := Days(b, a.rebirths, taken, 1).value;
    var moved := db.(accounts := db.accounts[p := FromBalance(a, step.balance)]);
    SingleCredit(moved, p, a.rebirths, step.credits);
  }

  lemma PaidDay(b: Balance, rebirths: int, taken: set<int>)
    requires ValidBalance(b) && 0 <= rebirths && b.day + 1 !in taken
    requires DailyInterest(b.bank, rebirths, b.remainder).Ok?
    requires 0 < DailyInterest(b.bank, rebirths, b.remainder).value.0 <= I64_MAX - b.bank
    ensures Days(b, rebirths, taken, 1).Ok?
    ensures var step := Days(b, rebirths, taken, 1).value;
      |step.credits| == 1 && step.credits[0].day == b.day + 1 && |step.balance.lots| == |b.lots|
  {
    hide DailyInterest, Credited, Accrual, RebirthGrowth;
    DayStepExact(b, rebirths, taken);
    var step := DayStep(b, rebirths, taken).value;
    assert Days(step.balance, rebirths, taken, 0) == Ok(Accrued(step.balance, []));
    assert step.credits + [] == step.credits;
  }

  lemma SingleCredit(db: Database, p: PlayerId, rebirths: int, credits: seq<DayCredit>)
    requires |credits| == 1
    ensures InterestKey(p, credits[0].day) in RecordCredits(db, p, rebirths, credits).byKey
  {
    assert RecordCredits(RecordCredit(db, p, rebirths, credits[0]), p, rebirths, credits[1..])
        == RecordCredit(db, p, rebirths, credits[0]);
  }

  lemma PayingDay()
    ensures Invariant(PayingDatabase())
    ensures InterestKey(7, 1) in AccrueInterest(PayingDatabase(), 7, 1).0.byKey
  {
    hide DailyInterest, AccrueInterest;
    var db := PayingDatabase();
    var a := db.accounts[7];
    assert Principals(a.lots)[1..] == [];
    assert Sum(Principals(a.lots)) == 25_000_000;
    assert ValidAccount(a, 1);
    FirstDayInterest();
    PayingDayTakesKey(db, 7, 1);
  }

  /** Such a key exists: interest is paid, and a deposit under the key of that day finds a row it cannot read. */
  lemma InterestKeyDeposit()
    ensures var after := AccrueInterest(PayingDatabase(), 7, 1).0;
      Mutate(after, Deposit, 7, 1, InterestKey(7, 1), 0) == (after, Err(DatabaseError))
  {
    hide Mutate, AccrueInterest, Invariant;
    PayingDay();
    InterestKeyUnreadable(PayingDatabase(), 7, 1, InterestKey(7, 1), [], Deposit, 7, 1, 0);
  }

  // ---- one wallet spend per operation

  /** The ledger only grows, and no operation changes its owner or its kind. */
  ghost predicate Grows(db: Database, after: Database) {
    && db.ledger <= after.ledger
    && forall id :: id in db.operations ==>
      id in after.operations && after.operations[id].player == db.operations[id].player
      && after.operations[id].kind == db.operations[id].kind
  }

  lemma {:induction false} RecordGrows(db: Database, p: PlayerId, rebirths: int, credits: seq<DayCredit>)
    requires forall id :: id in db.operations ==> id < db.nextId
    ensures Grows(db, RecordCredits(db, p, rebirths, credits))
    decreases |credits|
  {
    if credits == [] {
    } else {
      RecordGrows(RecordCredit(db, p, rebirths, credits[0]), p, rebirths, credits[1..]);
    }
  }

  lemma AccrueGrows(db: Database, p: PlayerId, today: int)
    requires Invariant(db)
    ensures Grows(db, AccrueInterest(db, p, today).0)
  {
    hide Days, ValidAccount, ReconcileLots, ValidLedger, RecordCredits, ActiveLots, WriteBack;
    forall id | id in db.operations
      ensures id < db.nextId
    {
      assert ValidOperation(db, id);
    }
    if p in db.accounts && db.accounts[p].status != Deleted && db.accounts[p].status != HardFrozen {
      var a := db.accounts[p];
      var accrued := Days(ToBalance(a), a.rebirths, TakenDays(db, p),
                          Max(0, Min(today - a.accrualDay, MAX_CATCHUP_DAYS)));
      if accrued.Ok? && |accrued.value.balance.lots| == |ActiveLots(a.lots)| {
        RecordGrows(db.(accounts := db.accounts[p := FromBalance(a, accrued.value.balance)]), p, a.rebirths,
                    accrued.value.credits);
      }
    }
  }

  lemma StepGrows(db: Database, c: Command)
    requires Invariant(db)
    ensures Grows(db, Step(db, c))
  {
    hide Mutate, AccrueInterest, ApplyWalletSpend, ValidAccount, AccountFee, InsertLot, Drained;
    forall id | id in db.operations
      ensures id != db.nextId
    {
      assert ValidOperation(db, id);
    }
    match c
    case MutateCommand(kind, actor, amount, key, now) => MutateBooks(db, kind, actor, amount, key, now);
    case AccrueCommand(player, today) => AccrueGrows(db, player, today);
    case SpendCommand(request) => SpendBooks(db, request);
    case _ =>
  }

  lemma {:induction false} RunGrows(db: Database, commands: seq<Command>)
    requires Invariant(db)
    ensures Grows(db, Run(db, commands))
    decreases |commands|
  {
    hide Step, Invariant;
    if commands == [] {
    } else {
      StepGrows(db, commands[0]);
      StepInvariant(db, commands[0]);
      RunGrows(Step(db, commands[0]), commands[1..]);
    }
  }

  lemma {:induction false} FoundInPrefix(ledger: seq<LedgerTransaction>, longer: seq<LedgerTransaction>,
                                         id: OperationId)
    requires ledger <= longer && FindLedger(ledger, id).Some?
    ensures FindLedger(longer, id) == FindLedger(ledger, id)
  {
    if ledger[0].operation != id {
      FoundInPrefix(ledger[1..], longer[1..], id);
    }
  }

  lemma {:induction false} FoundAppended(ledger: seq<LedgerTransaction>, t: LedgerTransaction)
    requires FindLedger(ledger, t.operation).None?
    ensures FindLedger(ledger + [t], t.operation) == Some(t)
  {
    if ledger == [] {
    } else {
      FoundAppended(ledger[1..], t);
      assert (ledger + [t])[1..] == ledger[1..] + [t];
    }
  }

  /** The ledger of an operation that a spend has settled holds that spend, consistent and replayable. */
  lemma SpendStored(db: Database, r: SpendRequest)
    requires ApplyWalletSpend(db, r).1.Ok?
    ensures var (after, result) := ApplyWalletSpend(db, r);
      && r.operation in after.operations
      && (after.operations[r.operation].player == None || after.operations[r.operation].player == Some(r.player))
      && ValidateSpend(r) == None
      && var stored := FindLedger(after.ledger, r.operation);
      && stored.Some? && ReplaySpend(stored.value, r) == Ok(result.value)
  {
    hide Blank;
    if FindLedger(db.ledger, r.operation).None? {
      var receipt := ApplyWalletSpend(db, r).1.value;
      FoundAppended(db.ledger, LedgerTransaction(r.operation, SpendLedger(r, receipt), SpendPostings(receipt)));
    }
  }

  lemma OtherSpendRefused(db: Database, r: SpendRequest, other: SpendRequest)
    requires r.operation in db.operations && other != r && other.operation == r.operation
    requires var stored := FindLedger(db.ledger, r.operation); stored.Some? && ReplaySpend(stored.value, r).Ok?
    ensures ApplyWalletSpend(db, other).0 == db && ApplyWalletSpend(db, other).1.Err?
  {
    hide ValidateSpend, SpendPostings;
  }

  /** A spend that has succeeded stays settled: after any run the same request returns the same receipt and takes nothing,
      and any other spend under its operation is refused without effect. */
  lemma SpendForever(db: Database, r: SpendRequest, commands: seq<Command>, other: SpendRequest)
    requires Invariant(db) && ApplyWalletSpend(db, r).1.Ok?
    ensures var (after, result) := ApplyWalletSpend(db, r);
      var later := Run(after, commands);
      && ApplyWalletSpend(later, r) == (later, result)
      && (other != r && other.operation == r.operation ==>
            ApplyWalletSpend(later, other).0 == later && ApplyWalletSpend(later, other).1.Err?)
  {
    hide Run, Invariant, ReplaySpend, ValidateSpend;
    var (after, result) := ApplyWalletSpend(db, r);
    SpendStored(db, r);
    SpendKeeps(db, r);
    RunGrows(after, commands);
    var later := Run(after, commands);
    FoundInPrefix(after.ledger, later.ledger, r.operation);
    if other != r && other.operation == r.operation {
      OtherSpendRefused(later, r, other);
    }
  }
}
