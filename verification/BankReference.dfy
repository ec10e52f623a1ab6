/** The bank against the rules it publishes, each written down on its own: which lots pay, which withdrawals count, what is
    charged, and when a request goes through. */
module BankReference {
  import opened Numbers
  import opened Products
  import opened Sums
  import opened Lots
  import opened Fees
  import opened Interest
  import opened Text
  import opened Bank
  import opened BankLaws
  import opened BankRuns

  // ---- first in, first out

  /** One lot was deposited before another: earlier, or at the same instant with the lower id. */
  predicate Older(a: Lot, b: Lot) {
    a.depositedAt < b.depositedAt || (a.depositedAt == b.depositedAt && a.id < b.id)
  }

  /** A withdrawal takes its amount from the oldest lots: a lot that loses principal has no older lot with any left. */
  lemma OldestFirst(db: Database, p: PlayerId, amount: int, key: RequestKey, now: int)
    requires Invariant(db) && key !in db.byKey && Mutate(db, Withdraw, p, amount, key, now).1.Ok?
    ensures var after := Mutate(db, Withdraw, p, amount, key, now).0;
      && p in db.accounts && p in after.accounts
      && var (lots, left) := (db.accounts[p].lots, after.accounts[p].lots);
      && |left| == |lots| && Sum(Principals(left)) == Sum(Principals(lots)) - amount
      && (forall i :: 0 <= i < |lots| ==>
            left[i].id == lots[i].id && left[i].depositedAt == lots[i].depositedAt
            && 0 <= left[i].principal <= lots[i].principal)
      && (forall i, j :: 0 <= i < |lots| && 0 <= j < |lots| && Older(lots[i], lots[j]) ==>
            left[j].principal < lots[j].principal ==> left[i].principal == 0)
  {
    hide Mutate, ValidOperations, ValidLedger, AccountFee, Booked, Drained, ValidRows;
    MutateBooks(db, Withdraw, p, amount, key, now);
    var lots := db.accounts[p].lots;
    BookedLots(db, key, p, amount, now);
    DrainedRows(lots, amount);
    RowsHold(lots);
    forall i, j | 0 <= i < |lots| && 0 <= j < |lots| && Older(lots[i], lots[j])
                  && Drained(lots, amount)[j].principal < lots[j].principal
      ensures Drained(lots, amount)[i].principal == 0
    {
      DrainedFifo(lots, amount, i, j);
    }
  }

  lemma RowsHold(lots: seq<Lot>)
    requires ValidRows(lots)
    ensures forall k :: 0 <= k < |lots| ==> 0 <= lots[k].principal
  {
  }

  lemma BookedLots(db: Database, key: RequestKey, p: PlayerId, amount: int, now: int)
    requires p in db.accounts && AccountFee(db.accounts[p], amount, now).Some?
    ensures var fee := AccountFee(db.accounts[p], amount, now).value;
      var after := Booked(db, key, p, Withdrawn(db.accounts[p], amount, fee, now),
                          WithdrawalReceipt(db.nextId, db.accounts[p], amount, fee), db.nextId + 1);
      p in after.accounts && after.accounts[p].lots == Drained(db.accounts[p].lots, amount)
  {
    hide AccountFee, Drained;
  }

  /** A deposit adds one lot of its amount and instant to the lots it finds, younger than all of them at that instant. */
  lemma DepositAddsLot(db: Database, p: PlayerId, amount: int, key: RequestKey, now: int)
    requires Invariant(db) && key !in db.byKey && Mutate(db, Deposit, p, amount, key, now).1.Ok?
    ensures var after := Mutate(db, Deposit, p, amount, key, now).0;
      && p in db.accounts && p in after.accounts && InOrder(after.accounts[p].lots)
      && var (lots, more) := (db.accounts[p].lots, after.accounts[p].lots);
      && |more| == |lots| + 1 && (forall l <- lots :: l.id < db.nextId + 1)
      && forall l :: l in more <==> l == Lot(db.nextId + 1, amount, now) || l in lots
  {
    hide Mutate, ValidOperations, ValidLedger, AccountFee, InsertLot, InOrder;
    MutateBooks(db, Deposit, p, amount, key, now);
    MutateKeeps(db, Deposit, p, amount, key, now);
    var lots := db.accounts[p].lots;
    InsertLotOrder(lots, Lot(db.nextId + 1, amount, now));
    InsertLotLength(lots, Lot(db.nextId + 1, amount, now));
  }

  lemma {:induction false} InsertLotLength(rows: seq<Lot>, lot: Lot)
    ensures |InsertLot(rows, lot)| == |rows| + 1
  {
    if rows == [] || SpentBefore(lot, rows[0]) {
    } else {
      InsertLotLength(rows[1..], lot);
    }
  }

  // ---- the 24-hour window

  /** A day in microseconds. */
  const DAY := 86_400_000_000

  /** What a withdrawal counts for at `now`: its gross for exactly one day, the last instant included. */
  function Counted(w: Withdrawal, now: int): int {
    if now - w.createdAt <= DAY then w.gross else 0
  }

  /** A withdrawal anywhere in the history adds what it counts for to the prior gross, and an empty history is nothing. */
  lemma {:induction false} WindowExact(before: seq<Withdrawal>, w: Withdrawal, after: seq<Withdrawal>, now: int)
    ensures Rolling24hGross(before + [w] + after, now) == Rolling24hGross(before + after, now) + Counted(w, now)
    ensures Rolling24hGross([], now) == 0
  {
    if before == [] {
      assert before + [w] + after == [w] + after;
      assert ([w] + after)[1..] == after && before + after == after;
    } else {
      WindowExact(before[1..], w, after, now);
      assert (before + [w] + after)[1..] == before[1..] + [w] + after;
      assert (before + after)[1..] == before[1..] + after;
    }
  }

  /** A withdrawal more than a day old changes no fee. */
  lemma OldWithdrawalFree(a: Account, before: seq<Withdrawal>, w: Withdrawal, after: seq<Withdrawal>, amount: int, now: int)
    requires w.createdAt < now - 86_400_000_000
    ensures AccountFee(a.(withdrawals := before + [w] + after), amount, now)
         == AccountFee(a.(withdrawals := before + after), amount, now)
  {
    hide WithdrawalFee;
    WindowExact(before, w, after, now);
  }

  // ---- the fee

  /** Parts per million by age in microseconds: what is left after each mark is passed. */
  function AgeRate(age: int): int {
    10_000 - (if age >= DAY then 5_000 else 0) - (if age >= 7 * DAY then 1_750 else 0)
    - (if age >= 14 * DAY then 1_250 else 0) - (if age >= 30 * DAY then 800 else 0)
  }

  /** Parts per million by the balance before the withdrawal. */
  function BandRate(bank: int): int {
    (if bank >= 1_000_000 then 200 else 0) + (if bank >= 10_000_000 then 200 else 0)
    + (if bank >= 100_000_000 then 200 else 0)
  }

  /** Every unit taken from a lot pays the rate of the lot's age. */
  ghost function AgeCharges(lots: seq<Lot>, left: seq<Lot>, now: int): int
    requires |left| == |lots|
  {
    if lots == [] then 0
    else
      (lots[0].principal - left[0].principal) * AgeRate(now - lots[0].depositedAt)
      + AgeCharges(lots[1..], left[1..], now)
  }

  /** The published charge in millionths: by age over what each lot loses, by balance over the amount, and unit by unit over
      the gross of the last day. */
  ghost function Charge(a: Account, left: seq<Lot>, amount: nat, now: int): int
    requires |left| == |a.lots|
  {
    AgeCharges(a.lots, left, now) + amount * BandRate(a.bank) + UnitByUnit(Rolling24hGross(a.withdrawals, now), amount)
  }

  /** The fee is the published charge rounded up once. */
  lemma FeeIsPublished(a: Account, nextId: nat, amount: nat, now: int)
    requires ValidAccount(a, nextId) && BANK_MIN_WITHDRAWAL <= amount <= a.bank && AccountFee(a, amount, now).Some?
    ensures |Drained(a.lots, amount)| == |a.lots|
    ensures var (fee, charge) := (AccountFee(a, amount, now).value, Charge(a, Drained(a.lots, amount), amount, now));
      1_000_000 * (fee - 1) < charge <= 1_000_000 * fee
  {
    hide AgeNumerator, Rolling, UnitByUnit, DebitsFrom, Drained, AgeCharges;
    DrainedLength(a.lots, amount);
    RollingNonNegative(a.withdrawals, now);
    RollingIsUnitByUnit(Rolling24hGross(a.withdrawals, now), amount);
    AgeIsPublished(a.lots, amount, now);
    BandIsPublished(a.bank);
  }

  lemma BandIsPublished(bank: int)
    ensures BalanceSurchargePpm(bank) == BandRate(bank)
  {
  }

  lemma AgeRateIsPublished(now: int, depositedAt: int)
    ensures AgeFeePpm(AgeSeconds(now, depositedAt)) == AgeRate(now - depositedAt)
  {
  }

  lemma {:induction false} AgeIsPublished(lots: seq<Lot>, amount: int, now: int)
    requires 0 <= amount && forall i :: 0 <= i < |lots| ==> 0 <= lots[i].principal
    ensures |Drained(lots, amount)| == |lots|
    ensures AgeNumerator(DebitsFrom(lots, amount), now) == AgeCharges(lots, Drained(lots, amount), now)
  {
    hide DebitsFrom, Drained, AgeFeePpm, AgeSeconds, AgeRate;
    DrainedLength(lots, amount);
    if lots == [] || amount == 0 {
      NoDebits(lots, amount);
      DrainedNothing(lots);
      if lots == [] {
        DrainedLength(lots, amount);
      } else {
        NothingCharged(lots, now);
      }
    } else {
      var take := Min(lots[0].principal, amount);
      DrainStep(lots, amount, take);
      DrainedLength(lots[1..], amount - take);
      AgeIsPublished(lots[1..], amount - take, now);
      AgeRateIsPublished(now, lots[0].depositedAt);
      var rest := DebitsFrom(lots[1..], amount - take);
      var debit := Debit(lots[0].id, take, lots[0].depositedAt);
      if take > 0 {
        assert DebitsFrom(lots, amount)[0] == debit && DebitsFrom(lots, amount)[1..] == rest;
      } else {
        assert DebitsFrom(lots, amount) == rest;
      }
      assert Drained(lots, amount)[1..] == Drained(lots[1..], amount - take);
    }
  }

  lemma {:induction false} NothingCharged(lots: seq<Lot>, now: int)
    ensures AgeCharges(lots, lots, now) == 0
  {
    if lots == [] {
    } else {
      NothingCharged(lots[1..], now);
    }
  }

  // ---- when a request goes through

  /** The first reason to refuse a request under a free key, in the order of the checks. */
  function Refusal(db: Database, kind: MutationKind, actor: PlayerId, amount: int, now: int): Option<BankError> {
    if amount <= 0 then Some(InvalidAmount)
    else if kind == Withdraw && amount < 500 then Some(BelowMinimumWithdrawal)
    else if actor > I64_MAX then Some(SnowflakeOutOfRange)
    else if actor !in db.accounts || db.accounts[actor].status == Deleted then Some(PlayerNotFound)
    else if db.accounts[actor].status != Status.Active then Some(AccountFrozen(db.accounts[actor].status))
    else
      var a := db.accounts[actor];
      match kind
      case Deposit =>
        if a.wallet < amount then Some(InsufficientWallet(a.wallet, amount))
        else if a.bank + amount > I64_MAX then Some(ArithmeticOverflow)
        else None
      case Withdraw =>
        if a.bank < amount then Some(InsufficientBank(a.bank, amount))
        else
          var fee := AccountFee(a, amount, now);
          if fee.None? || a.wallet + amount - fee.value > I64_MAX then Some(ArithmeticOverflow) else None
  }

  /** A request under a free key goes through if and only if nothing refuses it, and the first reason is the one reported. */
  lemma FreeKeyExactly(db: Database, kind: MutationKind, actor: PlayerId, amount: int, key: RequestKey, now: int)
    requires Invariant(db) && key !in db.byKey
    ensures match Refusal(db, kind, actor, amount, now)
      case Some(e) => Mutate(db, kind, actor, amount, key, now) == (db, Err(e))
      case None => Mutate(db, kind, actor, amount, key, now).1.Ok?
  {
    hide DepositFresh, WithdrawFresh, AccountFee, ValidAccount, ValidLedger;
    var row := Operation(key, Some(actor), None, BankMutation(kind), BANK_POLICY_VERSION, BankRequest(kind, amount), Pending,
                         None);
    assert ResolveOperation(db, actor, key, kind, amount) == Ok(Fresh(InsertOperation(db, row), db.nextId));
    if actor <= I64_MAX {
      if kind == Deposit {
        FreshDeposit(db, row, actor, amount, now);
      } else {
        FreshWithdrawal(db, row, actor, amount, now);
      }
    }
  }

  /** One account, one committed operation under the key and one ledger transaction are new, and nothing else is different. */
  ghost predicate Moved(db: Database, after: Database, p: PlayerId, key: RequestKey, account: Account, receipt: Receipt,
                        postings: seq<Posting>) {
    && receipt.operation !in db.operations && after.accounts == db.accounts[p := account]
    && after.byKey == db.byKey[key := receipt.operation]
    && after.operations
       == db.operations[receipt.operation :=
            Operation(key, Some(p), Some(p), BankMutation(receipt.kind), 1, BankRequest(receipt.kind, receipt.gross),
                      Committed, Some(receipt))]
    && after.ledger == db.ledger + [LedgerTransaction(receipt.operation, MutationLedger(receipt.kind), postings)]
  }

  /** What goes through: a deposit moves its amount from wallet to bank; a withdrawal takes its amount from the bank, pays the
      fee to the system and the rest to the wallet, and is remembered. Either is booked once, and balanced. */
  lemma MovementExactly(db: Database, kind: MutationKind, p: PlayerId, amount: int, key: RequestKey, now: int)
    requires Invariant(db) && key !in db.byKey && Refusal(db, kind, p, amount, now).None?
    ensures Mutate(db, kind, p, amount, key, now).1.Ok? && p in db.accounts
    ensures p in Mutate(db, kind, p, amount, key, now).0.accounts
    ensures var (after, result) := Mutate(db, kind, p, amount, key, now);
      var (a, lots, receipt) := (db.accounts[p], after.accounts[p].lots, result.value);
      match kind
      case Deposit =>
        && receipt == Receipt(receipt.operation, Deposit, amount, 0, amount, a.wallet - amount, a.bank + amount)
        && Moved(db, after, p, key, a.(wallet := a.wallet - amount, bank := a.bank + amount, lots := lots), receipt,
                 [Posting(Some(p), WalletAccount, -amount), Posting(Some(p), BankAccount, amount)])
      case Withdraw =>
        && AccountFee(a, amount, now).Some?
        && var fee := AccountFee(a, amount, now).value;
        && receipt == Receipt(receipt.operation, Withdraw, amount, fee, amount - fee, a.wallet + amount - fee, a.bank - amount)
        && Moved(db, after, p, key,
                 a.(wallet := a.wallet + amount - fee, bank := a.bank - amount, lots := lots,
                    withdrawals := a.withdrawals + [Withdrawal(amount, now)]), receipt,
                 [Posting(Some(p), BankAccount, -amount), Posting(Some(p), WalletAccount, amount - fee),
                  Posting(None, SystemAccount, fee)])
  {
    hide Mutate, AccountFee, InsertLot, Drained, ValidLedger, ValidRows, InOrder, Booked, Moved, MutationPostings;
    FreeKeyExactly(db, kind, p, amount, key, now);
    MutateBooks(db, kind, p, amount, key, now);
    assert ValidOperation(db, db.nextId);
    var a, receipt := db.accounts[p], Mutate(db, kind, p, amount, key, now).1.value;
    match kind
    case Deposit =>
      var next := a.(wallet := a.wallet - amount, bank := a.bank + amount,
                     lots := InsertLot(a.lots, Lot(db.nextId + 1, amount, now)));
      BookedMoves(db, key, p, next, receipt, db.nextId + 2);
    case Withdraw =>
      assert ValidAccount(a, db.nextId);
      AccountFeeBounds(a, db.nextId, amount, now);
      BookedMoves(db, key, p, Withdrawn(a, amount, receipt.fee, now), receipt, db.nextId + 1);
  }

  lemma BookedMoves(db: Database, key: RequestKey, p: PlayerId, account: Account, receipt: Receipt, nextId: nat)
    requires receipt.operation !in db.operations && (receipt.kind == Withdraw ==> 0 < receipt.fee)
    ensures var after := Booked(db, key, p, account, receipt, nextId);
      && p in after.accounts && after.accounts[p] == account
      && Moved(db, after, p, key, account, receipt,
               if receipt.kind == Deposit
               then [Posting(Some(p), WalletAccount, -receipt.gross), Posting(Some(p), BankAccount, receipt.gross)]
               else [Posting(Some(p), BankAccount, -receipt.gross),
                     Posting(Some(p), WalletAccount, receipt.gross - receipt.fee), Posting(None, SystemAccount, receipt.fee)])
  {
    if receipt.kind == Withdraw {
      assert MutationPostings(p, Withdraw, receipt.gross, receipt.fee)
          == [Posting(Some(p), BankAccount, -receipt.gross),
              Posting(Some(p), WalletAccount, receipt.gross - receipt.fee), Posting(None, SystemAccount, receipt.fee)];
    }
  }

  lemma FreshDeposit(db: Database, row: Operation, actor: PlayerId, amount: int, now: int)
    requires Invariant(db) && row.key !in db.byKey && actor <= I64_MAX
    requires row == Operation(row.key, Some(actor), None, BankMutation(Deposit), BANK_POLICY_VERSION,
                              BankRequest(Deposit, amount), Pending, None)
    ensures 0 < amount ==>
      match Refusal(db, Deposit, actor, amount, now)
      case Some(e) => DepositFresh(InsertOperation(db, row), db.nextId, actor, amount, now) == Err(e)
      case None => DepositFresh(InsertOperation(db, row), db.nextId, actor, amount, now).Ok?
  {
    hide Settle, Booked, InsertLot, ValidRows, InOrder, AccountFee;
    var begun := InsertOperation(db, row);
    if actor in db.accounts {
      var a := db.accounts[actor];
      assert ValidAccount(a, db.nextId);
      var next := a.(wallet := a.wallet - amount, bank := a.bank + amount,
                     lots := InsertLot(a.lots, Lot(db.nextId + 1, amount, now)));
      var receipt := Receipt(db.nextId, Deposit, amount, 0, amount, next.wallet, next.bank);
      SettleBooks(db, begun.(nextId := begun.nextId + 1), row, actor, next, receipt, db.nextId + 2);
    }
  }

  lemma FreshWithdrawal(db: Database, row: Operation, actor: PlayerId, amount: int, now: int)
    requires Invariant(db) && row.key !in db.byKey && actor <= I64_MAX
    requires row == Operation(row.key, Some(actor), None, BankMutation(Withdraw), BANK_POLICY_VERSION,
                              BankRequest(Withdraw, amount), Pending, None)
    ensures 500 <= amount ==>
      match Refusal(db, Withdraw, actor, amount, now)
      case Some(e) => WithdrawFresh(InsertOperation(db, row), db.nextId, actor, amount, now) == Err(e)
      case None => WithdrawFresh(InsertOperation(db, row), db.nextId, actor, amount, now).Ok?
  {
    hide Settle, Booked, WithdrawalFee, DebitsFrom, ApplyDebits, Drained, Unpaid, ActiveLots, ValidRows, InOrder;
    var begun := InsertOperation(db, row);
    if actor in db.accounts && 500 <= amount <= db.accounts[actor].bank {
      var a := db.accounts[actor];
      assert ValidAccount(a, db.nextId);
      WithdrawLots(a.lots, amount);
      if AccountFee(a, amount, now).Some? {
        var fee := AccountFee(a, amount, now).value;
        AccountFeeBounds(a, db.nextId, amount, now);
        SettleBooks(db, begun, row, actor, Withdrawn(a, amount, fee, now), WithdrawalReceipt(db.nextId, a, amount, fee),
                    db.nextId + 1);
      }
    }
  }

  /** A fee exists if and only if the day's gross with the amount fits 128 bits. */
  lemma FeeExistsExactly(a: Account, nextId: nat, amount: int, now: int)
    requires ValidAccount(a, nextId) && 500 <= amount <= a.bank
    ensures AccountFee(a, amount, now).Some? <==> Rolling24hGross(a.withdrawals, now) + amount <= I128_MAX
  {
    hide AgeNumerator, Rolling, DebitsFrom, Drained, FeeNumerator;
    WithdrawLots(a.lots, amount);
    RollingNonNegative(a.withdrawals, now);
    if Rolling24hGross(a.withdrawals, now) + amount <= I128_MAX {
      FeeBounds(amount, a.bank, Rolling24hGross(a.withdrawals, now), DebitsFrom(a.lots, amount), now);
    }
  }

  // ---- when a spend goes through

  /** The first reason to refuse a spend whose operation has no ledger transaction yet. */
  function SpendRefusal(db: Database, r: SpendRequest): Option<SpendError> {
    if r.amount <= 0 then Some(InvalidSpendAmount)
    else if forall c <- r.source :: IsWhiteSpace(c) then Some(InvalidSource)
    else if r.provenance.NotAnObject? || r.provenance.fields.Keys == {} then Some(InvalidProvenance)
    else if r.operation !in db.operations then Some(OperationNotFound)
    else
      var operation := db.operations[r.operation];
      if operation.player != None && operation.player != Some(r.player) then Some(OperationPlayerMismatch)
      else if operation.state != Pending then Some(SpendOperationTerminal(operation.state))
      else if r.player !in db.accounts || db.accounts[r.player].status == Deleted then Some(SpendPlayerNotFound)
      else if db.accounts[r.player].status != Status.Active then Some(SpendAccountFrozen(db.accounts[r.player].status))
      else if db.accounts[r.player].wallet < r.amount
      then Some(InsufficientSpendWallet(db.accounts[r.player].wallet, r.amount))
      else None
  }

  /** A spend on a fresh operation takes exactly its amount if and only if nothing refuses it. */
  lemma FreshSpendExactly(db: Database, r: SpendRequest)
    requires FindLedger(db.ledger, r.operation).None?
    ensures match SpendRefusal(db, r)
      case Some(e) => ApplyWalletSpend(db, r) == (db, Err(e))
      case None =>
        && r.player in db.accounts
        && var a := db.accounts[r.player];
           var receipt := SpendReceipt(r.operation, r.player, r.amount, r.source, a.wallet, a.wallet - r.amount);
           ApplyWalletSpend(db, r)
           == (db.(accounts := db.accounts[r.player := a.(wallet := a.wallet - r.amount)],
                   ledger := db.ledger + [LedgerTransaction(r.operation, SpendLedger(r, receipt), SpendPostings(receipt))]),
               Ok(receipt))
  {
    hide IsWhiteSpace;
    assert Blank(r.source) <==> forall c <- r.source :: IsWhiteSpace(c) by {
      if Blank(r.source) {
        assert forall c <- r.source :: IsWhiteSpace(c);
      } else {
        var i :| 0 <= i < |r.source| && !IsWhiteSpace(r.source[i]);
        assert r.source[i] in r.source;
      }
    }
    if r.provenance.Object? {
      assert r.provenance.fields.Keys == {} <==> r.provenance.fields == map[];
    }
  }
}
