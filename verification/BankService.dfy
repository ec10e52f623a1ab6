/** The bank as one object over its tables. Every call is a transaction: it updates the rows statement by statement and
    restores all of them when a statement fails. */
module BankService {
  import opened Numbers
  import opened Sums
  import opened Lots
  import opened Fees
  import opened Interest
  import opened Text
  import opened Bank
  import opened BankLaws
  import opened BankRuns

  /** How a request key was resolved: a row to work under, or the receipt of a finished call. */
  datatype Resolved = PendingOperation(id: OperationId) | CommittedOperation(receipt: Receipt)

  class BankTables {
    var accounts: map<PlayerId, Account>
    var operations: map<OperationId, Operation>
    var byKey: map<RequestKey, OperationId>
    var ledger: seq<LedgerTransaction>
    var nextId: nat

    function Db(): Database
      reads this
    {
      Database(accounts, operations, byKey, ledger, nextId)
    }

    ghost predicate Valid()
      reads this
    {
      Invariant(Db())
    }

    constructor ()
      ensures Valid() && Db() == Database(map[], map[], map[], [], 0)
    {
      accounts, operations, byKey, ledger, nextId := map[], map[], map[], [], 0;
    }

    // ---- statements

    method Rollback(saved: Database)
      modifies this
      ensures Db() == saved
    {
      accounts, operations, byKey := saved.accounts, saved.operations, saved.byKey;
      ledger, nextId := saved.ledger, saved.nextId;
    }

    /** Inserts the row unless the key is taken, reads back the row of the key, and validates it. */
    method Resolve(actor: PlayerId, key: RequestKey, kind: MutationKind,
                   amount: int) returns (r: Result<Resolved, BankError>)
      modifies this
      ensures match ResolveOperation(old(Db()), actor, key, kind, amount)
        case Err(e) => r == Err(e) && Db() == old(Db())
        case Ok(Replay(receipt)) => r == Ok(CommittedOperation(receipt)) && Db() == old(Db())
        case Ok(Fresh(begun, id)) => r == Ok(PendingOperation(id)) && Db() == begun
    {
      if key !in byKey {
        operations := operations[nextId := Operation(key, Some(actor), None, BankMutation(kind), BANK_POLICY_VERSION,
                                                     BankRequest(kind, amount), Pending, None)];
        byKey := byKey[key := nextId];
        nextId := nextId + 1;
      }
      if byKey[key] !in operations {
        return Err(DatabaseError);
      }
      match ValidateOperation(Db(), byKey[key], operations[byKey[key]], actor, kind, amount)
      case Err(e) => r := Err(e);
      case Ok(Replay(receipt)) => r := Ok(CommittedOperation(receipt));
      case Ok(Fresh(_, id)) => r := Ok(PendingOperation(id));
    }

    method UpdateBalances(player: PlayerId, wallet: int, bank: int)
      requires player in accounts
      modifies this`accounts
      ensures accounts == old(accounts)[player := old(accounts)[player].(wallet := wallet, bank := bank)]
    {
      accounts := accounts[player := accounts[player].(wallet := wallet, bank := bank)];
    }

    method CreateBankLot(player: PlayerId, amount: int, now: int)
      requires player in accounts
      modifies this`accounts, this`nextId
      ensures nextId == old(nextId) + 1
      ensures accounts == old(accounts)[player := old(accounts)[player].(
                lots := InsertLot(old(accounts)[player].lots, Lot(old(nextId), amount, now)))]
    {
      accounts := accounts[player := accounts[player].(lots := InsertLot(accounts[player].lots, Lot(nextId, amount, now)))];
      nextId := nextId + 1;
    }

    /** Writes the ledger transaction of the receipt and marks its operation committed. */
    method FinishMovement(player: PlayerId, receipt: Receipt) returns (error: Option<BankError>)
      requires player in accounts
      modifies this`ledger, this`operations
      ensures match Settle(old(Db()), player, old(accounts)[player], receipt)
        case Ok(settled) => error == None && Db() == settled
        case Err(e) => error == Some(e)
    {
      assert accounts[player := accounts[player]] == accounts;
      if FindLedger(ledger, receipt.operation).Some? {
        return Some(DatabaseError);
      }
      ledger := ledger + [LedgerTransaction(receipt.operation, MutationLedger(receipt.kind),
                                            MutationPostings(player, receipt.kind, receipt.gross, receipt.fee))];
      if receipt.operation !in operations || operations[receipt.operation].state != Pending {
        return Some(OperationTerminal(Pending));
      }
      var row := operations[receipt.operation];
      operations := operations[receipt.operation :=
                                 row.(player := Some(player), state := Committed, result := Some(receipt))];
      return None;
    }

    // ---- deposit

    method DepositUnder(id: OperationId, player: PlayerId, amount: int,
                        now: int) returns (r: Result<Receipt, BankError>)
      modifies this
      ensures match DepositFresh(old(Db()), id, player, amount, now)
        case Ok((after, receipt)) => r == Ok(receipt) && Db() == after
        case Err(e) => r == Err(e)
    {
      hide InsertLot, Settle;
      ghost var begun := Db();
      var locked := LockAccount(Db(), player);
      if locked.Err? {
        return Err(locked.error);
      }
      var account := locked.value;
      if account.wallet < amount {
        return Err(InsufficientWallet(account.wallet, amount));
      }
      var wallet, bank := Sub64(account.wallet, amount), Add64(account.bank, amount);
      if wallet.None? || bank.None? {
        return Err(ArithmeticOverflow);
      }
      UpdateBalances(player, wallet.value, bank.value);
      CreateBankLot(player, amount, now);
      ghost var next := account.(wallet := wallet.value, bank := bank.value,
                                 lots := InsertLot(account.lots, Lot(begun.nextId, amount, now)));
      assert accounts == begun.accounts[player := next];
      var receipt := Receipt(id, MutationKind.Deposit, amount, 0, amount, wallet.value, bank.value);
      SettleOverwrites(begun.(nextId := begun.nextId + 1), player, next, receipt);
      var error := FinishMovement(player, receipt);
      if error.Some? {
        return Err(error.value);
      }
      return Ok(receipt);
    }

    method Deposit(actor: PlayerId, amount: int, key: RequestKey, now: int) returns (r: Result<Receipt, BankError>)
      requires Valid()
      modifies this
      ensures Valid() && (Db(), r) == Mutate(old(Db()), MutationKind.Deposit, actor, amount, key, now)
      ensures r.Err? ==> Db() == old(Db())
    {
      hide DepositFresh, WithdrawFresh, ResolveOperation, Invariant;
      MutateKeeps(Db(), MutationKind.Deposit, actor, amount, key, now);
      var invalid := ValidateAmount(MutationKind.Deposit, amount);
      if invalid.Some? {
        return Err(invalid.value);
      }
      if actor > I64_MAX {
        return Err(SnowflakeOutOfRange);
      }
      var saved := Db();
      var resolved := Resolve(actor, key, MutationKind.Deposit, amount);
      if resolved.Err? {
        return Err(resolved.error);
      }
      if resolved.value.CommittedOperation? {
        return Ok(resolved.value.receipt);
      }
      r := DepositUnder(resolved.value.id, actor, amount, now);
      if r.Err? {
        Rollback(saved);
      }
    }

    // ---- withdrawal

    /** The debits, fee and net amount of a withdrawal the balance covers. */
    method PriceWithdrawal(account: Account, amount: int,
                           now: int) returns (r: Result<(seq<Debit>, int, int), BankError>)
      requires ValidAccount(account, nextId) && 0 < amount <= account.bank
      ensures var active := ActiveLots(account.lots);
        var debits := DebitsFrom(active, amount);
        var fee := WithdrawalFee(amount, account.bank, Rolling24hGross(account.withdrawals, now), debits, now);
        r == if Unpaid(active, amount) != 0 then Err(BankError.LotIntegrityMismatch)
             else if fee.None? || !InI64(amount - fee.value) then Err(ArithmeticOverflow)
             else if amount - fee.value <= 0 then Err(InvalidFee)
             else Ok((debits, fee.value, amount - fee.value))
    {
      hide ActiveLots, DebitsFrom, WithdrawalFee, Rolling24hGross, Unpaid, ValidAccount;
      WithdrawalInputs(account, nextId, amount, now);
      var debits := LoadFifoLotDebits(account.lots, amount);
      if debits.None? {
        return Err(BankError.LotIntegrityMismatch);
      }
      var fee := ComputeWithdrawalFee(amount, account.bank, Rolling24hGross(account.withdrawals, now), debits.value,
                                      now);
      if fee.None? {
        return Err(ArithmeticOverflow);
      }
      var net := Sub64(amount, fee.value);
      if net.None? {
        return Err(ArithmeticOverflow);
      }
      if net.value <= 0 {
        return Err(InvalidFee);
      }
      return Ok((debits.value, fee.value, net.value));
    }

    method WithdrawUnder(id: OperationId, player: PlayerId, amount: int,
                         now: int) returns (r: Result<Receipt, BankError>)
      requires ValidAccounts(Db()) && 0 < amount
      modifies this
      ensures match WithdrawFresh(old(Db()), id, player, amount, now)
        case Ok((after, receipt)) => r == Ok(receipt) && Db() == after
        case Err(e) => r == Err(e)
    {
      hide Settle, ActiveLots, DebitsFrom, WithdrawalFee, ApplyDebits, Rolling24hGross, Unpaid, ValidAccount;
      ghost var begun := Db();
      var locked := LockAccount(Db(), player);
      if locked.Err? {
        return Err(locked.error);
      }
      var account := locked.value;
      if account.bank < amount {
        return Err(InsufficientBank(account.bank, amount));
      }
      var priced := PriceWithdrawal(account, amount, now);
      if priced.Err? {
        return Err(priced.error);
      }
      var (debits, fee, net) := priced.value;
      var lots := ApplyLotDebits(account.lots, debits);
      if lots.None? {
        return Err(BankError.LotIntegrityMismatch);
      }
      accounts := accounts[player := account.(lots := lots.value)];
      var bank, wallet := Sub64(account.bank, amount), Add64(account.wallet, net);
      if bank.None? || wallet.None? {
        return Err(ArithmeticOverflow);
      }
      UpdateBalances(player, wallet.value, bank.value);
      accounts := accounts[player := accounts[player].(withdrawals := account.withdrawals + [Withdrawal(amount, now)])];
      ghost var next := account.(wallet := wallet.value, bank := bank.value, lots := lots.value,
                                 withdrawals := account.withdrawals + [Withdrawal(amount, now)]);
      assert accounts == begun.accounts[player := next];
      var receipt := Receipt(id, MutationKind.Withdraw, amount, fee, net, wallet.value, bank.value);
      SettleOverwrites(begun, player, next, receipt);
      var error := FinishMovement(player, receipt);
      if error.Some? {
        return Err(error.value);
      }
      return Ok(receipt);
    }

    method Withdraw(actor: PlayerId, amount: int, key: RequestKey, now: int) returns (r: Result<Receipt, BankError>)
      requires Valid()
      modifies this
      ensures Valid() && (Db(), r) == Mutate(old(Db()), MutationKind.Withdraw, actor, amount, key, now)
      ensures r.Err? ==> Db() == old(Db())
    {
      hide DepositFresh, WithdrawFresh, ValidAccount, ValidOperations, ValidLedger;
      MutateKeeps(Db(), MutationKind.Withdraw, actor, amount, key, now);
      var invalid := ValidateAmount(MutationKind.Withdraw, amount);
      if invalid.Some? {
        return Err(invalid.value);
      }
      if actor > I64_MAX {
        return Err(SnowflakeOutOfRange);
      }
      var saved := Db();
      var resolved := Resolve(actor, key, MutationKind.Withdraw, amount);
      if resolved.Err? {
        return Err(resolved.error);
      }
      if resolved.value.CommittedOperation? {
        return Ok(resolved.value.receipt);
      }
      AccountsLater(saved, Db());
      r := WithdrawUnder(resolved.value.id, actor, amount, now);
      if r.Err? {
        Rollback(saved);
      }
    }

    // ---- interest

    /** Inserts the committed operation of one player-day with its ledger transaction; false when the key is taken. */
    method InsertInterestOperation(player: PlayerId, rebirths: int, credit: DayCredit) returns (inserted: bool)
      modifies this`operations, this`byKey, this`ledger, this`nextId
      ensures inserted == (InterestKey(player, credit.day) !in old(byKey))
      ensures inserted ==> Db() == RecordCredit(old(Db()), player, rebirths, credit)
      ensures byKey == if inserted then old(byKey)[InterestKey(player, credit.day) := old(nextId)] else old(byKey)
    {
      var key := InterestKey(player, credit.day);
      if key in byKey {
        return false;
      }
      var id := nextId;
      operations := operations[id := Operation(key, None, Some(player), BankInterest, BANK_INTEREST_POLICY_VERSION,
                                               InterestRequest(credit, rebirths), Committed, None)];
      byKey, nextId := byKey[key := id], nextId + 1;
      ledger := ledger + [LedgerTransaction(id, InterestLedger, [Posting(None, SystemAccount, -credit.interest),
                                                                 Posting(Some(player), BankAccount, credit.interest)])];
      return true;
    }

    /** One day of catch-up on the loaded lots: shares the interest, stores the lots and records the credit. */
    method AccrueDay(player: PlayerId, rebirths: int, lots: array<Lot>, bank: int, remainder: int, day: int,
                     ghost taken: set<int>) returns (r: Result<(int, int), InterestError>)
      requires ValidBalance(Balance(bank, remainder, day, lots[..])) && 0 <= rebirths
      requires player in accounts && ActiveLots(accounts[player].lots) == lots[..]
      requires day + 1 in taken <==> InterestKey(player, day + 1) in byKey
      modifies this, lots
      ensures match DayStep(Balance(bank, remainder, day, old(lots[..])), rebirths, taken)
        case Err(e) => r == Err(e)
        case Ok(Accrued(next, credits)) =>
          && r == Ok((next.bank, next.remainder)) && lots[..] == next.lots
          && Db() == RecordCredits(old(Db()), player, rebirths, credits).(accounts := accounts)
          && accounts == old(accounts)[player := old(accounts)[player].(
                                         lots := WriteBack(old(accounts)[player].lots, next.lots))]
          && ActiveLots(accounts[player].lots) == lots[..]
      ensures forall d :: d != day + 1 ==> (InterestKey(player, d) in byKey <==> InterestKey(player, d) in old(byKey))
    {
      hide Credited, DailyInterest, Accrual, RebirthGrowth, RecordCredits, WriteBack, ActiveLots, Sum;
      ghost var begun := Db();
      ghost var before := Balance(bank, remainder, day, lots[..]);
      var daily := CalculateDailyInterest(bank, rebirths, remainder);
      if daily.Err? {
        return Err(daily.error);
      }
      var (interest, carried) := daily.value;
      DailyExact(bank, rebirths, remainder);
      DayStepExact(before, rebirths, taken);
      SumNonNegative(Principals(lots[..]));
      assert forall i :: 0 <= i < lots.Length ==> lots[i].principal == Principals(lots[..])[i];
      if interest <= 0 {
        WriteBackSame(accounts[player].lots);
        RecordNothing(Db(), player, rebirths);
        assert accounts[player := accounts[player].(lots := accounts[player].lots)] == accounts;
        return Ok((bank, carried));
      }
      var error := AllocateInterestToLots(lots, interest, bank);
      if error.Some? {
        return Err(error.value);
      }
      if !InI64(bank + interest) {
        return Err(InterestOverflow);
      }
      var inserted := InsertInterestOperation(player, rebirths, DayCredit(day + 1, bank, interest, remainder, carried));
      if !inserted {
        return Err(OperationConflict);
      }
      CreditedFair(before.lots, interest, bank);
      RecordSingle(begun, player, rebirths, DayCredit(day + 1, bank, interest, remainder, carried));
      WriteBackReads(accounts[player].lots, lots[..]);
      accounts := accounts[player := accounts[player].(lots := WriteBack(accounts[player].lots, lots[..]))];
      return Ok((bank + interest, carried));
    }

    method AccrueInterest(player: PlayerId, today: int) returns (r: Result<InterestSummary, InterestError>)
      requires Valid()
      modifies this
      ensures Valid() && (Db(), r) == Bank.AccrueInterest(old(Db()), player, today)
      ensures r.Err? ==> Db() == old(Db())
    {
      hide Days, DayStep, ReconcileLots, Invariant, RecordCredits, ActiveLots, ValidBalance, AccrueOutcome;
      AccrueBooks(Db(), player, today);
      var saved := Db();
      if player !in accounts || accounts[player].status == Deleted {
        return Err(InterestPlayerNotFound);
      }
      var account := accounts[player];
      ReachableAccount(saved, player);
      if account.accrualDay >= today {
        return Ok(InterestSummary(0, 0, account.accrualDay));
      }
      var days := Min(today - account.accrualDay, MAX_CATCHUP_DAYS);
      if account.status == HardFrozen {
        accounts := accounts[player := account.(accrualDay := account.accrualDay + days)];
        return Ok(InterestSummary(days, 0, account.accrualDay + days));
      }
      var active := ActiveLots(account.lots);
      var lots := new Lot[|active|](i requires 0 <= i < |active| => active[i]);
      assert lots[..] == active;
      var unreconciled := ReconcileLots(account.bank, active);
      if unreconciled.Some? {
        return Err(unreconciled.value);
      }
      AccountReconciles(account, nextId);
      var caughtUp := AccrueDays(player, lots, days);
      if caughtUp.Err? {
        Rollback(saved);
        return Err(caughtUp.error);
      }
      var (bank, remainder) := caughtUp.value;
      accounts := accounts[player := accounts[player].(bank := bank, remainder := remainder,
                                                       accrualDay := account.accrualDay + days)];
      r := Ok(InterestSummary(days, bank - account.bank, account.accrualDay + days));
      ghost var end := Days(ToBalance(account), account.rebirths, TakenDays(saved, player), days).value;
      assert accounts == saved.accounts[player := FromBalance(account, end.balance)];
      RecordKeepsAccounts(saved, accounts, player, account.rebirths, end.credits);
    }

    /** The loop over the days due; the new balance and remainder, or the error of the first day that fails. */
    method AccrueDays(player: PlayerId, lots: array<Lot>, days: nat) returns (r: Result<(int, int), InterestError>)
      requires player in accounts && ActiveLots(accounts[player].lots) == lots[..] && 0 <= accounts[player].rebirths
      requires ValidBalance(ToBalance(accounts[player]))
      modifies this, lots
      ensures var a := old(accounts)[player];
        match Days(ToBalance(a), a.rebirths, TakenDays(old(Db()), player), days)
        case Err(e) => r == Err(e)
        case Ok(Accrued(end, credits)) =>
          && r == Ok((end.bank, end.remainder)) && |end.lots| == |ActiveLots(a.lots)| && end.day == a.accrualDay + days
          && Db() == RecordCredits(old(Db()), player, a.rebirths, credits).(accounts := accounts)
          && accounts == old(accounts)[player := a.(lots := WriteBack(a.lots, end.lots))]
    {
      hide Days, DayStep, RecordCredits, ValidBalance, After, WriteBack, ActiveLots;
      ghost var saved := Db();
      var account := accounts[player];
      ghost var taken := TakenDays(saved, player);
      var bank, remainder := account.bank, account.remainder;
      ghost var credits: seq<DayCredit> := [];
      WriteBackSame(account.lots);
      assert accounts == saved.accounts[player := account.(lots := account.lots)];
      RecordNothing(saved, player, account.rebirths);
      AfterNothing(Days(ToBalance(account), account.rebirths, taken, days));
      for k := 0 to days
        invariant player in accounts && ActiveLots(accounts[player].lots) == lots[..]
        invariant ValidBalance(Balance(bank, remainder, account.accrualDay + k, lots[..]))
        invariant lots.Length == |ActiveLots(account.lots)|
        invariant accounts == saved.accounts[player := account.(lots := WriteBack(account.lots, lots[..]))]
        invariant Db() == RecordCredits(saved, player, account.rebirths, credits).(accounts := accounts)
        invariant forall d :: d > account.accrualDay + k ==> (InterestKey(player, d) in byKey <==> d in taken)
        invariant Days(ToBalance(account), account.rebirths, taken, days)
               == After(credits, Days(Balance(bank, remainder, account.accrualDay + k, lots[..]), account.rebirths, taken,
                                      days - k))
      {
        ghost var current := Balance(bank, remainder, account.accrualDay + k, lots[..]);
        ghost var here := Db();
        DayStepExact(current, account.rebirths, taken);
        DaysFirst(current, account.rebirths, taken, days - k, credits);
        var next := AccrueDay(player, account.rebirths, lots, bank, remainder, account.accrualDay + k, taken);
        if next.Err? {
          return Err(next.error);
        }
        bank, remainder := next.value.0, next.value.1;
        ghost var step := DayStep(current, account.rebirths, taken).value;
        StoredTwice(account.lots, current, step.balance);
        RecordMore(saved, here.accounts, player, account.rebirths, credits, step.credits);
        credits := credits + step.credits;
      }
      DaysLast(Balance(bank, remainder, account.accrualDay + days, lots[..]), account.rebirths, taken, credits);
      return Ok((bank, remainder));
    }

    // ---- wallet spend

    method ApplyWalletSpend(request: SpendRequest) returns (r: Result<SpendReceipt, SpendError>)
      requires Valid()
      modifies this
      ensures Valid() && (Db(), r) == Bank.ApplyWalletSpend(old(Db()), request)
      ensures r.Err? ==> Db() == old(Db())
    {
      hide Invariant, Blank, ReplaySpend;
      SpendKeeps(Db(), request);
      var invalid := ValidateSpend(request);
      if invalid.Some? {
        return Err(invalid.value);
      }
      if request.operation !in operations {
        return Err(OperationNotFound);
      }
      var operation := operations[request.operation];
      if operation.player.Some? && operation.player.value != request.player {
        return Err(OperationPlayerMismatch);
      }
      var stored := FindLedger(ledger, request.operation);
      if stored.Some? {
        return ReplaySpend(stored.value, request);
      }
      if operation.state != Pending {
        return Err(SpendOperationTerminal(operation.state));
      }
      if request.player !in accounts || accounts[request.player].status == Deleted {
        return Err(SpendPlayerNotFound);
      }
      var account := accounts[request.player];
      if account.status != Active {
        return Err(SpendAccountFrozen(account.status));
      }
      if account.wallet < request.amount {
        return Err(InsufficientSpendWallet(account.wallet, request.amount));
      }
      var receipt := SpendReceipt(request.operation, request.player, request.amount, request.source,
                                  account.wallet, account.wallet - request.amount);
      accounts := accounts[request.player := account.(wallet := receipt.walletAfter)];
      ledger := ledger + [LedgerTransaction(request.operation, SpendLedger(request, receipt), SpendPostings(receipt))];
      return Ok(receipt);
    }
  }

  /** Settling reads the account that is already in the table. */
  lemma SettleOverwrites(db: Database, player: PlayerId, account: Account, receipt: Receipt)
    ensures Settle(db, player, account, receipt)
         == Settle(db.(accounts := db.accounts[player := account]), player, account, receipt)
  {
    assert db.accounts[player := account][player := account] == db.accounts[player := account];
  }

  /** What a valid account hands to the fee computation: whole, positive debits and a non-negative history. */
  lemma WithdrawalInputs(a: Account, nextId: nat, amount: int, now: int)
    requires ValidAccount(a, nextId) && 0 < amount <= a.bank
    ensures 0 <= Rolling24hGross(a.withdrawals, now) && amount <= I64_MAX
    ensures forall d <- DebitsFrom(ActiveLots(a.lots), amount) :: 0 < d.amount <= I64_MAX
  {
    hide DebitsFrom, ActiveLots, Drained, Unpaid;
    RollingNonNegative(a.withdrawals, now);
    WithdrawLots(a.lots, amount);
    var debits := DebitsFrom(a.lots, amount);
    forall i | 0 <= i < |debits|
      ensures 0 < DebitAmounts(debits)[i]
    {
      assert debits[i] in debits;
    }
    SumNonNegative(DebitAmounts(debits));
    forall d | d in debits
      ensures d.amount <= I64_MAX
    {
      var i :| 0 <= i < |debits| && debits[i] == d;
      assert DebitAmounts(debits)[i] == d.amount;
    }
  }

  /** The outcome of a catch-up that starts after `credits` have been recorded. */
  ghost function After(credits: seq<DayCredit>, rest: Result<Accrued, InterestError>): Result<Accrued, InterestError> {
    match rest
    case Err(e) => Err(e)
    case Ok(Accrued(end, more)) => Ok(Accrued(end, credits + more))
  }

  lemma AfterNothing(r: Result<Accrued, InterestError>)
    ensures After([], r) == r
  {
    assert r.Ok? ==> [] + r.value.credits == r.value.credits;
  }

  lemma DaysFirst(b: Balance, rebirths: int, taken: set<int>, n: nat, credits: seq<DayCredit>)
    requires 0 < n
    ensures After(credits, Days(b, rebirths, taken, n))
         == match DayStep(b, rebirths, taken)
            case Err(e) => Err(e)
            case Ok(Accrued(next, more)) => After(credits + more, Days(next, rebirths, taken, n - 1))
  {
    hide DayStep;
    var step := DayStep(b, rebirths, taken);
    if step.Ok? {
      var rest := Days(step.value.balance, rebirths, taken, n - 1);
      assert rest.Ok? ==>
          credits + (step.value.credits + rest.value.credits) == credits + step.value.credits + rest.value.credits;
    }
  }

  lemma DaysLast(b: Balance, rebirths: int, taken: set<int>, credits: seq<DayCredit>)
    ensures After(credits, Days(b, rebirths, taken, 0)) == Ok(Accrued(b, credits))
  {
    assert credits + [] == credits;
  }

  lemma RecordNothing(db: Database, p: PlayerId, rebirths: int)
    ensures RecordCredits(db, p, rebirths, []) == db
  {
  }

  lemma RecordSingle(db: Database, p: PlayerId, rebirths: int, credit: DayCredit)
    ensures RecordCredits(db, p, rebirths, [credit]) == RecordCredit(db, p, rebirths, credit)
  {
  }

  /** Recording credits neither reads nor writes the accounts. */
  lemma {:induction false} RecordKeepsAccounts(db: Database, accounts: map<PlayerId, Account>, p: PlayerId,
                                               rebirths: int,
                                               credits: seq<DayCredit>)
    ensures RecordCredits(db.(accounts := accounts), p, rebirths, credits)
         == RecordCredits(db, p, rebirths, credits).(accounts := accounts)
    decreases |credits|
  {
    if credits == [] {
    } else {
      RecordKeepsAccounts(RecordCredit(db, p, rebirths, credits[0]), accounts, p, rebirths, credits[1..]);
    }
  }

  lemma {:induction false} RecordAppends(db: Database, p: PlayerId, rebirths: int, credits: seq<DayCredit>,
                                         more: seq<DayCredit>)
    ensures RecordCredits(db, p, rebirths, credits + more)
         == RecordCredits(RecordCredits(db, p, rebirths, credits), p, rebirths, more)
    decreases |credits|
  {
    hide RecordCredit;
    if credits == [] {
      assert credits + more == more;
    } else {
      RecordAppends(RecordCredit(db, p, rebirths, credits[0]), p, rebirths, credits[1..], more);
      assert (credits + more)[1..] == credits[1..] + more;
    }
  }

  /** Recording more credits after the accounts have moved on. */
  lemma RecordMore(db: Database, here: map<PlayerId, Account>, p: PlayerId, rebirths: int,
                   credits: seq<DayCredit>, more: seq<DayCredit>)
    ensures RecordCredits(RecordCredits(db, p, rebirths, credits).(accounts := here), p, rebirths, more)
         == RecordCredits(db, p, rebirths, credits + more).(accounts := here)
  {
    hide RecordCredits;
    RecordKeepsAccounts(RecordCredits(db, p, rebirths, credits), here, p, rebirths, more);
    RecordAppends(db, p, rebirths, credits, more);
  }

  lemma StoredTwice(rows: seq<Lot>, first: Balance, second: Balance)
    requires ValidBalance(first) && |first.lots| == |ActiveLots(rows)| == |second.lots|
    ensures |ActiveLots(WriteBack(rows, first.lots))| == |second.lots|
    ensures WriteBack(WriteBack(rows, first.lots), second.lots) == WriteBack(rows, second.lots)
  {
    WriteBackTwice(rows, first.lots, second.lots);
  }
}
