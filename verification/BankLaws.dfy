/** Laws of the bank over every run: balanced books, backed balances, unreachable errors. */
module BankLaws {
  import opened Numbers
  import opened Sums
  import opened Lots
  import opened Fees
  import opened Interest
  import opened Bank

  // ---- what holds in every reachable database

  function PostingSum(postings: seq<Posting>): int {
    if postings == [] then 0 else postings[0].amount + PostingSum(postings[1..])
  }

  function MovedBy(posting: Posting, player: PlayerId, account: AccountKind): int {
    if posting.player == Some(player) && posting.account == account then posting.amount else 0
  }

  /** What the postings move on one account of one player. */
  function Moved(postings: seq<Posting>, player: PlayerId, account: AccountKind): int {
    if postings == [] then 0 else MovedBy(postings[0], player, account) + Moved(postings[1..], player, account)
  }

  function LedgerTotal(ledger: seq<LedgerTransaction>, player: PlayerId, account: AccountKind): int {
    if ledger == [] then 0
    else Moved(ledger[0].postings, player, account) + LedgerTotal(ledger[1..], player, account)
  }

  /** Balances are in range and never negative, and the lots stand in the order of their deposits and add up to the bank
      balance. */
  ghost predicate ValidAccount(a: Account, nextId: nat) {
    && 0 <= a.wallet <= I64_MAX && 0 <= a.bank <= I64_MAX && 0 <= a.rebirths <= I64_MAX
    && 0 <= a.remainder < DENOMINATOR
    && ValidRows(a.lots) && InOrder(a.lots) && Sum(Principals(a.lots)) == a.bank
    && (forall i :: 0 <= i < |a.lots| ==> a.lots[i].id < nextId)
    && (forall i :: 0 <= i < |a.withdrawals| ==> 0 < a.withdrawals[i].gross)
  }

  ghost predicate ValidAccounts(db: Database) {
    forall p :: p in db.accounts ==> ValidAccount(db.accounts[p], db.nextId)
  }

  /** Keys and rows match one-to-one, and a bank or interest row is only ever seen committed. */
  ghost predicate ValidOperation(db: Database, id: OperationId) {
    id in db.operations ==>
      && id < db.nextId
      && var row := db.operations[id];
      && row.key in db.byKey && db.byKey[row.key] == id
      && (row.kind.BankMutation? ==>
            row.state == Committed && row.result.Some? && row.actor.Some? && row.policy == BANK_POLICY_VERSION)
      && (row.kind.BankInterest? ==> row.state == Committed && row.actor.None?)
  }

  ghost predicate ValidOperations(db: Database) {
    && (forall id :: ValidOperation(db, id))
    && (forall k :: k in db.byKey ==> db.byKey[k] in db.operations && db.operations[db.byKey[k]].key == k)
  }

  /** Every ledger transaction sums to zero and belongs to an operation of its own. */
  ghost predicate ValidLedger(db: Database) {
    && (forall i :: 0 <= i < |db.ledger| ==> PostingSum(db.ledger[i].postings) == 0)
    && (forall i :: 0 <= i < |db.ledger| ==> db.ledger[i].operation in db.operations)
    && (forall i, j :: 0 <= i < j < |db.ledger| ==> db.ledger[i].operation != db.ledger[j].operation)
  }

  ghost predicate Invariant(db: Database) {
    ValidAccounts(db) && ValidOperations(db) && ValidLedger(db)
  }

  datatype Opening = Opening(wallet: int, bank: int)

  /** Every balance is its opening value plus what the ledger posted to it. */
  ghost predicate Explained(db: Database, opening: map<PlayerId, Opening>) {
    && db.accounts.Keys == opening.Keys
    && forall p :: p in db.accounts ==>
      && db.accounts[p].wallet == opening[p].wallet + LedgerTotal(db.ledger, p, WalletAccount)
      && db.accounts[p].bank == opening[p].bank + LedgerTotal(db.ledger, p, BankAccount)
  }

  // ---- one more ledger transaction

  lemma {:induction false} LedgerAppend(ledger: seq<LedgerTransaction>, t: LedgerTransaction, p: PlayerId,
                                        k: AccountKind)
    ensures LedgerTotal(ledger + [t], p, k) == LedgerTotal(ledger, p, k) + Moved(t.postings, p, k)
  {
    if ledger == [] {
      assert ledger + [t] == [t];
    } else {
      LedgerAppend(ledger[1..], t, p, k);
      assert (ledger + [t])[1..] == ledger[1..] + [t];
    }
  }

  lemma {:induction false} LedgerLookup(ledger: seq<LedgerTransaction>, id: OperationId)
    ensures FindLedger(ledger, id).None? <==> forall i :: 0 <= i < |ledger| ==> ledger[i].operation != id
    ensures FindLedger(ledger, id).Some? ==>
      FindLedger(ledger, id).value in ledger && FindLedger(ledger, id).value.operation == id
  {
    if ledger == [] {
    } else {
      LedgerLookup(ledger[1..], id);
      if ledger[0].operation != id {
        assert (forall i :: 0 <= i < |ledger| ==> ledger[i].operation != id)
          <==> forall i :: 0 <= i < |ledger[1..]| ==> ledger[1..][i].operation != id by {
          assert forall i :: 0 < i < |ledger| ==> ledger[i] == ledger[1..][i - 1];
        }
      }
    }
  }

  /** A database in which player `p` has account `a` and one more ledger transaction `t`. */
  function Moving(db: Database, p: PlayerId, a: Account, t: LedgerTransaction): Database {
    db.(accounts := db.accounts[p := a], ledger := db.ledger + [t])
  }

  /** A transaction that moves exactly what the account changed by keeps every balance explained. */
  lemma MovingExplained(db: Database, p: PlayerId, a: Account, t: LedgerTransaction, opening: map<PlayerId, Opening>)
    requires Explained(db, opening) && p in db.accounts
    requires a.wallet == db.accounts[p].wallet + Moved(t.postings, p, WalletAccount)
    requires a.bank == db.accounts[p].bank + Moved(t.postings, p, BankAccount)
    requires forall q, k :: q != p ==> Moved(t.postings, q, k) == 0
    ensures Explained(Moving(db, p, a, t), opening)
  {
    forall q | q in db.accounts
      ensures LedgerTotal(db.ledger + [t], q, WalletAccount)
           == LedgerTotal(db.ledger, q, WalletAccount) + Moved(t.postings, q, WalletAccount)
      ensures LedgerTotal(db.ledger + [t], q, BankAccount)
           == LedgerTotal(db.ledger, q, BankAccount) + Moved(t.postings, q, BankAccount)
    {
      LedgerAppend(db.ledger, t, q, WalletAccount);
      LedgerAppend(db.ledger, t, q, BankAccount);
    }
  }

  lemma MutationMoves(p: PlayerId, kind: MutationKind, gross: int, fee: int)
    requires 0 <= fee
    ensures var ps := MutationPostings(p, kind, gross, fee);
      && PostingSum(ps) == 0
      && Moved(ps, p, WalletAccount) == (if kind == Deposit then -gross else gross - fee)
      && Moved(ps, p, BankAccount) == (if kind == Deposit then gross else -gross)
      && forall q, k :: q != p ==> Moved(ps, q, k) == 0
  {
    var ps := MutationPostings(p, kind, gross, fee);
    if kind == Deposit || fee == 0 {
      TwoPostings(ps[0], ps[1]);
      assert ps == [ps[0], ps[1]];
    } else {
      ThreePostings(ps[0], ps[1], ps[2]);
      assert ps == [ps[0], ps[1], ps[2]];
    }
  }

  lemma TwoPostings(a: Posting, b: Posting)
    ensures PostingSum([a, b]) == a.amount + b.amount
    ensures forall q, k :: Moved([a, b], q, k) == MovedBy(a, q, k) + MovedBy(b, q, k)
  {
    assert [a, b][1..] == [b] && [b][1..] == [];
    assert PostingSum([b]) == b.amount;
    forall q, k
      ensures Moved([a, b], q, k) == MovedBy(a, q, k) + MovedBy(b, q, k)
    {
      assert Moved([b], q, k) == MovedBy(b, q, k);
    }
  }

  lemma ThreePostings(a: Posting, b: Posting, c: Posting)
    ensures PostingSum([a, b, c]) == a.amount + b.amount + c.amount
    ensures forall q, k :: Moved([a, b, c], q, k) == MovedBy(a, q, k) + MovedBy(b, q, k) + MovedBy(c, q, k)
  {
    TwoPostings(b, c);
    assert [a, b, c][1..] == [b, c];
  }

  // ---- deposits and withdrawals

  /** The database after one booked money movement under a key that was not in use. */
  function Booked(db: Database, key: RequestKey, player: PlayerId, account: Account, receipt: Receipt,
                  nextId: nat): Database {
    var row := Operation(key, Some(player), Some(player), BankMutation(receipt.kind), BANK_POLICY_VERSION,
                         BankRequest(receipt.kind, receipt.gross), Committed, Some(receipt));
    var transaction := LedgerTransaction(receipt.operation, MutationLedger(receipt.kind),
                                         MutationPostings(player, receipt.kind, receipt.gross, receipt.fee));
    Database(db.accounts[player := account], db.operations[receipt.operation := row],
             db.byKey[key := receipt.operation], db.ledger + [transaction], nextId)
  }

  lemma {:induction false} InsertLotKeeps(rows: seq<Lot>, lot: Lot)
    requires ValidRows(rows) && 0 <= lot.principal && forall i :: 0 <= i < |rows| ==> rows[i].id != lot.id
    ensures ValidRows(InsertLot(rows, lot))
    ensures Sum(Principals(InsertLot(rows, lot))) == Sum(Principals(rows)) + lot.principal
    ensures forall l :: l in InsertLot(rows, lot) <==> l == lot || l in rows
  {
    var after := InsertLot(rows, lot);
    if rows == [] || SpentBefore(lot, rows[0]) {
      assert after == [lot] + rows;
      assert Principals(after)[1..] == Principals(rows);
    } else {
      InsertLotKeeps(rows[1..], lot);
      assert after[1..] == InsertLot(rows[1..], lot);
      assert Principals(after)[1..] == Principals(after[1..]);
      assert Principals(rows)[1..] == Principals(rows[1..]);
      forall i | 0 < i < |after|
        ensures after[i].id != rows[0].id && 0 <= after[i].principal
      {
        assert after[i] in InsertLot(rows[1..], lot);
        assert after[i] == after[1..][i - 1];
      }
      assert forall i, j :: 0 < i < j < |after| ==> after[i] == after[1..][i - 1] && after[j] == after[1..][j - 1];
    }
  }

  /** A lot with a new id lands behind every lot of its time or earlier, and before every later one. */
  lemma {:induction false} InsertLotOrder(rows: seq<Lot>, lot: Lot)
    requires InOrder(rows) && forall i :: 0 <= i < |rows| ==> rows[i].id < lot.id
    ensures InOrder(InsertLot(rows, lot))
    ensures forall l :: l in InsertLot(rows, lot) <==> l == lot || l in rows
  {
    if rows == [] {
    } else if SpentBefore(lot, rows[0]) {
      assert InsertLot(rows, lot) == [lot] + rows;
    } else {
      var rest := InsertLot(rows[1..], lot);
      InsertLotOrder(rows[1..], lot);
      forall j | 0 <= j < |rest|
        ensures rows[0].depositedAt < rest[j].depositedAt
             || (rows[0].depositedAt == rest[j].depositedAt && rows[0].id < rest[j].id)
      {
        assert rest[j] in rest;
        if rest[j] != lot {
          var k :| 0 <= k < |rows[1..]| && rows[1..][k] == rest[j];
          assert rows[k + 1] == rest[j];
        }
      }
      OrderedHead(rows[0], rest);
    }
  }

  lemma OrderedHead(head: Lot, rest: seq<Lot>)
    requires InOrder(rest)
    requires forall j :: 0 <= j < |rest| ==>
      head.depositedAt < rest[j].depositedAt || (head.depositedAt == rest[j].depositedAt && head.id < rest[j].id)
    ensures InOrder([head] + rest)
  {
  }

  /** Rows with the same ids and dates stand in the same order. */
  lemma SameOrder(rows: seq<Lot>, after: seq<Lot>)
    requires InOrder(rows) && |after| == |rows|
    requires forall i :: 0 <= i < |rows| ==> after[i].id == rows[i].id && after[i].depositedAt == rows[i].depositedAt
    ensures InOrder(after)
  {
  }

  /** The account after a deposit is valid. */
  lemma DepositValid(a: Account, nextId: nat, amount: int, now: int)
    requires ValidAccount(a, nextId) && 0 < amount <= a.wallet && a.bank + amount <= I64_MAX
    ensures ValidAccount(a.(wallet := a.wallet - amount, bank := a.bank + amount,
                            lots := InsertLot(a.lots, Lot(nextId, amount, now))), nextId + 1)
  {
    hide InOrder;
    InsertLotKeeps(a.lots, Lot(nextId, amount, now));
    InsertLotOrder(a.lots, Lot(nextId, amount, now));
    var lots := InsertLot(a.lots, Lot(nextId, amount, now));
    forall i | 0 <= i < |lots|
      ensures lots[i].id < nextId + 1
    {
      assert lots[i] in lots;
    }
  }

  /** Lots that add up to the balance always cover a withdrawal: the debits are found, applied, and drain the front. */
  lemma WithdrawLots(lots: seq<Lot>, amount: int)
    requires ValidRows(lots) && 0 <= amount <= Sum(Principals(lots))
    ensures Unpaid(ActiveLots(lots), amount) == 0
    ensures DebitsFrom(ActiveLots(lots), amount) == DebitsFrom(lots, amount)
    ensures Sum(DebitAmounts(DebitsFrom(lots, amount))) == amount
    ensures forall d <- DebitsFrom(lots, amount) :: 0 < d.amount
    ensures ApplyDebits(lots, DebitsFrom(lots, amount)) == Some(Drained(lots, amount))
  {
    DebitsOfActive(lots, amount);
    DebitsCover(lots, amount);
    DebitsDrain(lots, amount);
  }

  lemma {:induction false} RollingNonNegative(withdrawals: seq<Withdrawal>, now: int)
    requires forall i :: 0 <= i < |withdrawals| ==> 0 < withdrawals[i].gross
    ensures 0 <= Rolling24hGross(withdrawals, now)
  {
    if withdrawals == [] {
    } else {
      RollingNonNegative(withdrawals[1..], now);
    }
  }

  function WithdrawalReceipt(id: OperationId, a: Account, amount: int, fee: int): Receipt {
    Receipt(id, Withdraw, amount, fee, amount - fee, a.wallet + (amount - fee), a.bank - amount)
  }

  function Withdrawn(a: Account, amount: int, fee: int, now: int): Account {
    a.(wallet := a.wallet + (amount - fee), bank := a.bank - amount, lots := Drained(a.lots, amount),
       withdrawals := a.withdrawals + [Withdrawal(amount, now)])
  }

  /** The fee a valid account pays; None when a checked step overflows. */
  function AccountFee(a: Account, amount: int, now: int): Option<int> {
    WithdrawalFee(amount, a.bank, Rolling24hGross(a.withdrawals, now), DebitsFrom(a.lots, amount), now)
  }

  /** A fee that can be computed lies between the ceilings of 0.12% and 1.11% and is positive and below the amount. */
  lemma AccountFeeBounds(a: Account, nextId: nat, amount: int, now: int)
    requires ValidAccount(a, nextId) && BANK_MIN_WITHDRAWAL <= amount <= a.bank
    requires AccountFee(a, amount, now).Some?
    ensures CeilPpm(1_200 * amount) <= AccountFee(a, amount, now).value <= CeilPpm(11_100 * amount)
    ensures 0 < AccountFee(a, amount, now).value < amount
  {
    hide AgeNumerator, Rolling, DebitsFrom, Drained;
    WithdrawLots(a.lots, amount);
    RollingNonNegative(a.withdrawals, now);
    FeeBounds(amount, a.bank, Rolling24hGross(a.withdrawals, now), DebitsFrom(a.lots, amount), now);
  }

  lemma WithdrawValid(a: Account, nextId: nat, amount: int, fee: int, now: int)
    requires ValidAccount(a, nextId) && 0 < amount <= a.bank && 0 <= fee < amount && a.wallet + amount - fee <= I64_MAX
    ensures ValidAccount(Withdrawn(a, amount, fee, now), nextId)
  {
    hide InOrder;
    DrainedRows(a.lots, amount);
    SameOrder(a.lots, Drained(a.lots, amount));
  }

  /** Booking a valid account under a new key and a new operation keeps the invariant and explains the new balances. */
  lemma BookedKeeps(db: Database, key: RequestKey, p: PlayerId, account: Account, receipt: Receipt, nextId: nat)
    requires Invariant(db) && key !in db.byKey && p in db.accounts
    requires receipt.operation == db.nextId < nextId && ValidAccount(account, nextId) && 0 <= receipt.fee
    ensures Invariant(Booked(db, key, p, account, receipt, nextId))
  {
    var after := Booked(db, key, p, account, receipt, nextId);
    MutationMoves(p, receipt.kind, receipt.gross, receipt.fee);
    forall q | q in after.accounts
      ensures ValidAccount(after.accounts[q], nextId)
    {
    }
    forall i | 0 <= i < |db.ledger|
      ensures db.ledger[i].operation != db.nextId
    {
      assert ValidOperation(db, db.ledger[i].operation);
    }
    BookedOperations(db, key, p, account, receipt, nextId);
  }

  lemma BookedOperations(db: Database, key: RequestKey, p: PlayerId, account: Account, receipt: Receipt, nextId: nat)
    requires ValidOperations(db) && key !in db.byKey && receipt.operation == db.nextId < nextId
    ensures ValidOperations(Booked(db, key, p, account, receipt, nextId))
  {
    var after := Booked(db, key, p, account, receipt, nextId);
    forall id
      ensures ValidOperation(after, id)
    {
      assert ValidOperation(db, id);
      assert ValidOperation(db, db.nextId);
    }
    forall k | k in after.byKey
      ensures after.byKey[k] in after.operations && after.operations[after.byKey[k]].key == k
    {
      if k != key {
        assert ValidOperation(db, db.byKey[k]);
      }
    }
  }

  lemma BookedExplained(db: Database, key: RequestKey, p: PlayerId, account: Account, receipt: Receipt, nextId: nat,
                        opening: map<PlayerId, Opening>)
    requires Explained(db, opening) && p in db.accounts && 0 <= receipt.fee
    requires var (gross, fee) := (receipt.gross, receipt.fee);
      && account.wallet == db.accounts[p].wallet + (if receipt.kind == Deposit then -gross else gross - fee)
      && account.bank == db.accounts[p].bank + (if receipt.kind == Deposit then gross else -gross)
    ensures Explained(Booked(db, key, p, account, receipt, nextId), opening)
  {
    hide LedgerTotal;
    MutationMoves(p, receipt.kind, receipt.gross, receipt.fee);
    var t := LedgerTransaction(receipt.operation, MutationLedger(receipt.kind),
                               MutationPostings(p, receipt.kind, receipt.gross, receipt.fee));
    MovingExplained(db, p, account, t, opening);
    var after := Booked(db, key, p, account, receipt, nextId);
    assert after.accounts == Moving(db, p, account, t).accounts && after.ledger == Moving(db, p, account, t).ledger;
  }

  /** What a request does in a reachable database. A fresh key books exactly one movement on a valid account; a used key
      returns the stored receipt or is refused; and the lot, fee and transition errors are unreachable. */
  ghost predicate MutateOutcome(db: Database, kind: MutationKind, actor: PlayerId, amount: int, key: RequestKey,
                                now: int,
                                after: Database, result: Result<Receipt, BankError>)
  {
    match result
    case Err(e) =>
      && after == db
      && e !in {BankError.LotIntegrityMismatch, InvalidFee, InvalidOperationResult} && !e.OperationTerminal?
      && (e == DatabaseError ==> key in db.byKey && db.byKey[key] in db.operations && db.operations[db.byKey[key]].actor.None?)
    case Ok(receipt) =>
      if key in db.byKey then
        && after == db && db.byKey[key] in db.operations
        && var row := db.operations[db.byKey[key]];
        && row.actor == Some(actor) && row.kind == BankMutation(kind) && row.request == BankRequest(kind, amount)
        && row.result == Some(receipt)
      else
        && actor in db.accounts && db.accounts[actor].status == Status.Active && 0 < amount
        && var a := db.accounts[actor];
        && match kind
           case Deposit =>
             && amount <= a.wallet && a.bank + amount <= I64_MAX
             && receipt == Receipt(db.nextId, Deposit, amount, 0, amount, a.wallet - amount, a.bank + amount)
             && after == Booked(db, key, actor,
                                a.(wallet := a.wallet - amount, bank := a.bank + amount,
                                   lots := InsertLot(a.lots, Lot(db.nextId + 1, amount, now))),
                                receipt, db.nextId + 2)
           case Withdraw =>
             && BANK_MIN_WITHDRAWAL <= amount <= a.bank
             && AccountFee(a, amount, now).Some?
             && var fee := AccountFee(a, amount, now).value;
             && a.wallet + amount - fee <= I64_MAX
             && receipt == WithdrawalReceipt(db.nextId, a, amount, fee)
             && after == Booked(db, key, actor, Withdrawn(a, amount, fee, now), receipt, db.nextId + 1)
  }

  lemma MutateBooks(db: Database, kind: MutationKind, actor: PlayerId, amount: int, key: RequestKey, now: int)
    requires Invariant(db)
    ensures var (after, result) := Mutate(db, kind, actor, amount, key, now);
      MutateOutcome(db, kind, actor, amount, key, now, after, result)
  {
    hide DepositFresh, WithdrawFresh, AccountFee, Booked, ValidAccount;
    if ValidateAmount(kind, amount).None? && actor <= I64_MAX {
      if key in db.byKey {
        assert ValidOperation(db, db.byKey[key]);
      } else {
        var row := Operation(key, Some(actor), None, BankMutation(kind), BANK_POLICY_VERSION,
                             BankRequest(kind, amount), Pending, None);
        assert ResolveOperation(db, actor, key, kind, amount) == Ok(Fresh(InsertOperation(db, row), db.nextId));
        if kind == Deposit {
          DepositBooks(db, row, actor, amount, key, now);
        } else {
          WithdrawBooks(db, row, actor, amount, key, now);
        }
      }
    }
  }

  /** Settling under a freshly inserted operation cannot fail and books the movement. */
  lemma SettleBooks(db: Database, begun: Database, row: Operation, p: PlayerId, account: Account, receipt: Receipt,
                    nextId: nat)
    requires Invariant(db) && row.key !in db.byKey && receipt.operation == db.nextId
    requires row == Operation(row.key, Some(p), None, BankMutation(receipt.kind), BANK_POLICY_VERSION,
                              BankRequest(receipt.kind, receipt.gross), Pending, None)
    requires begun == InsertOperation(db, row).(nextId := nextId)
    ensures Settle(begun, p, account, receipt) == Ok(Booked(db, row.key, p, account, receipt, nextId))
  {
    LedgerLookup(db.ledger, db.nextId);
    forall i | 0 <= i < |db.ledger|
      ensures db.ledger[i].operation != db.nextId
    {
      assert ValidOperation(db, db.ledger[i].operation);
    }
    var id := receipt.operation;
    var committed := row.(player := Some(p), state := Committed, result := Some(receipt));
    assert db.operations[id := row][id := committed] == db.operations[id := committed];
  }

  lemma DepositBooks(db: Database, row: Operation, p: PlayerId, amount: int, key: RequestKey, now: int)
    requires Invariant(db) && key !in db.byKey && 0 < amount
    requires row == Operation(key, Some(p), None, BankMutation(Deposit), BANK_POLICY_VERSION,
                              BankRequest(Deposit, amount), Pending, None)
    ensures match DepositFresh(InsertOperation(db, row), db.nextId, p, amount, now)
      case Ok((after, receipt)) => MutateOutcome(db, Deposit, p, amount, key, now, after, Ok(receipt))
      case Err(e) => MutateOutcome(db, Deposit, p, amount, key, now, db, Err(e))
  {
    hide Settle, Booked, ValidAccount;
    var begun := InsertOperation(db, row);
    if LockAccount(begun, p).Ok? {
      var a := db.accounts[p];
      var next := a.(wallet := a.wallet - amount, bank := a.bank + amount,
                     lots := InsertLot(a.lots, Lot(db.nextId + 1, amount, now)));
      var receipt := Receipt(db.nextId, Deposit, amount, 0, amount, next.wallet, next.bank);
      SettleBooks(db, begun.(nextId := begun.nextId + 1), row, p, next, receipt, db.nextId + 2);
    }
  }

  lemma WithdrawBooks(db: Database, row: Operation, p: PlayerId, amount: int, key: RequestKey, now: int)
    requires Invariant(db) && key !in db.byKey && BANK_MIN_WITHDRAWAL <= amount
    requires row == Operation(key, Some(p), None, BankMutation(Withdraw), BANK_POLICY_VERSION,
                              BankRequest(Withdraw, amount), Pending, None)
    ensures match WithdrawFresh(InsertOperation(db, row), db.nextId, p, amount, now)
      case Ok((after, receipt)) => MutateOutcome(db, Withdraw, p, amount, key, now, after, Ok(receipt))
      case Err(e) => MutateOutcome(db, Withdraw, p, amount, key, now, db, Err(e))
  {
    hide Settle, Booked, WithdrawalFee, DebitsFrom, ApplyDebits, Drained, Unpaid;
    var begun := InsertOperation(db, row);
    if LockAccount(begun, p).Ok? && amount <= db.accounts[p].bank {
      var a := db.accounts[p];
      assert ValidAccount(a, db.nextId);
      WithdrawLots(a.lots, amount);
      if AccountFee(a, amount, now).Some? {
        var fee := AccountFee(a, amount, now).value;
        AccountFeeBounds(a, db.nextId, amount, now);
        SettleBooks(db, begun, row, p, Withdrawn(a, amount, fee, now), WithdrawalReceipt(db.nextId, a, amount, fee),
                    db.nextId + 1);
      }
    }
  }

  lemma MutateKeeps(db: Database, kind: MutationKind, actor: PlayerId, amount: int, key: RequestKey, now: int)
    requires Invariant(db)
    ensures Invariant(Mutate(db, kind, actor, amount, key, now).0)
  {
    hide Mutate, Booked, ValidAccount, AccountFee, ValidOperations, ValidLedger;
    MutateBooks(db, kind, actor, amount, key, now);
    var (after, result) := Mutate(db, kind, actor, amount, key, now);
    if result.Ok? && key !in db.byKey {
      var a, receipt := db.accounts[actor], result.value;
      if kind == Deposit {
        DepositGrows(a, db.nextId, amount, now);
        BookedKeeps(db, key, actor,
                    a.(wallet := a.wallet - amount, bank := a.bank + amount,
                       lots := InsertLot(a.lots, Lot(db.nextId + 1, amount, now))),
                    receipt, db.nextId + 2);
      } else {
        AccountFeeBounds(a, db.nextId, amount, now);
        WithdrawGrows(a, db.nextId, amount, receipt.fee, now);
        BookedKeeps(db, key, actor, Withdrawn(a, amount, receipt.fee, now), receipt, db.nextId + 1);
      }
    }
  }

  lemma DepositGrows(a: Account, nextId: nat, amount: int, now: int)
    requires ValidAccount(a, nextId) && 0 < amount <= a.wallet && a.bank + amount <= I64_MAX
    ensures ValidAccount(a.(wallet := a.wallet - amount, bank := a.bank + amount,
                            lots := InsertLot(a.lots, Lot(nextId + 1, amount, now))), nextId + 2)
  {
    assert ValidAccount(a, nextId + 1);
    DepositValid(a, nextId + 1, amount, now);
  }

  lemma WithdrawGrows(a: Account, nextId: nat, amount: int, fee: int, now: int)
    requires ValidAccount(a, nextId) && 0 < amount <= a.bank && 0 <= fee < amount && a.wallet + amount - fee <= I64_MAX
    ensures ValidAccount(Withdrawn(a, amount, fee, now), nextId + 1)
  {
    WithdrawValid(a, nextId, amount, fee, now);
  }

  lemma MutateExplained(db: Database, kind: MutationKind, actor: PlayerId, amount: int, key: RequestKey, now: int,
                        opening: map<PlayerId, Opening>)
    requires Invariant(db) && Explained(db, opening)
    ensures Explained(Mutate(db, kind, actor, amount, key, now).0, opening)
  {
    hide Mutate, Booked, ValidAccount, AccountFee, Explained;
    MutateBooks(db, kind, actor, amount, key, now);
    var (after, result) := Mutate(db, kind, actor, amount, key, now);
    if result.Ok? && key !in db.byKey {
      var receipt := result.value;
      if kind == Withdraw {
        AccountFeeBounds(db.accounts[actor], db.nextId, amount, now);
      }
      BookedExplained(db, key, actor, after.accounts[actor], receipt, after.nextId, opening) by {
        BookedFields(db, key, actor, kind, amount, now, after, receipt);
      }
      BookedFields(db, key, actor, kind, amount, now, after, receipt);
    }
  }

  lemma BookedFields(db: Database, key: RequestKey, actor: PlayerId, kind: MutationKind, amount: int, now: int,
                     after: Database, receipt: Receipt)
    requires key !in db.byKey && MutateOutcome(db, kind, actor, amount, key, now, after, Ok(receipt))
    ensures actor in db.accounts && actor in after.accounts
    ensures after == Booked(db, key, actor, after.accounts[actor], receipt, after.nextId)
    ensures receipt.kind == kind && receipt.gross == amount
    ensures after.accounts[actor].wallet
         == db.accounts[actor].wallet + (if kind == Deposit then -amount else amount - receipt.fee)
    ensures after.accounts[actor].bank == db.accounts[actor].bank + (if kind == Deposit then amount else -amount)
  {
    hide AccountFee, InsertLot, Drained;
  }

  // ---- interest

  lemma {:induction false} CheckedSumFits(values: seq<int>, sum: int)
    requires 0 <= sum && sum + Sum(values) <= I64_MAX && forall i :: 0 <= i < |values| ==> 0 <= values[i]
    ensures CheckedSum(values, sum) == Some(sum + Sum(values))
  {
    if values == [] {
    } else {
      SumNonNegative(values[1..]);
      CheckedSumFits(values[1..], sum + values[0]);
    }
  }

  /** Valid accounts reconcile, so the integrity error of the interest job is unreachable. */
  lemma AccountReconciles(a: Account, nextId: nat)
    requires ValidAccount(a, nextId)
    ensures ReconcileLots(a.bank, ActiveLots(a.lots)) == None && ValidBalance(ToBalance(a))
  {
    ActiveRows(a.lots);
    CheckedSumFits(Principals(ActiveLots(a.lots)), 0);
  }

  lemma SameLotsTail(before: seq<Lot>, after: seq<Lot>)
    requires SameLots(before, after) && before != []
    ensures SameLots(before[1..], after[1..])
    ensures after[0] == before[0].(principal := after[0].principal)
  {
  }

  lemma {:induction false} WriteBackKeeps(rows: seq<Lot>, active: seq<Lot>)
    requires ValidRows(rows) && SameLots(ActiveLots(rows), active) && forall i :: 0 <= i < |active| ==> 0 < active[i].principal
    ensures |WriteBack(rows, active)| == |rows|
    ensures forall i :: 0 <= i < |rows| ==>
      var row := WriteBack(rows, active)[i];
      row.id == rows[i].id && row.depositedAt == rows[i].depositedAt && 0 <= row.principal
    ensures Sum(Principals(WriteBack(rows, active))) == Sum(Principals(active))
  {
    if rows == [] {
    } else {
      var written := WriteBack(rows, active);
      if rows[0].principal > 0 {
        assert ActiveLots(rows)[1..] == ActiveLots(rows[1..]);
        SameLotsTail(ActiveLots(rows), active);
        WriteBackKeeps(rows[1..], active[1..]);
        assert written[1..] == WriteBack(rows[1..], active[1..]);
        assert Principals(active)[1..] == Principals(active[1..]);
      } else {
        WriteBackKeeps(rows[1..], active);
        assert written[1..] == WriteBack(rows[1..], active);
      }
      assert Principals(written)[1..] == Principals(written[1..]);
    }
  }

  lemma AccruedValid(a: Account, nextId: nat, end: Balance)
    requires ValidAccount(a, nextId) && ValidBalance(end) && SameLots(ActiveLots(a.lots), end.lots)
    ensures ValidAccount(FromBalance(a, end), nextId)
  {
    hide InOrder;
    WriteBackKeeps(a.lots, end.lots);
    SameOrder(a.lots, WriteBack(a.lots, end.lots));
  }

  /** Recording credits on free days keeps the invariant and posts exactly the credited interest to the player's bank. */
  lemma {:induction false} RecordKeeps(db: Database, p: PlayerId, rebirths: int, credits: seq<DayCredit>, first: int,
                                       last: int)
    requires Invariant(db) && CreditsInOrder(credits, first, last)
    requires forall c <- credits :: InterestKey(p, c.day) !in db.byKey
    ensures var after := RecordCredits(db, p, rebirths, credits);
      && Invariant(after) && after.accounts == db.accounts && db.nextId <= after.nextId
      && (forall q, k :: LedgerTotal(after.ledger, q, k)
            == LedgerTotal(db.ledger, q, k) + if q == p && k == BankAccount then Sum(Interests(credits)) else 0)
      && (forall k :: k in after.byKey <==> k in db.byKey || (k.InterestKey? && k.player == p && CreditedOn(credits, k.day)))
    decreases |credits|
  {
    hide Invariant, RecordCredit, LedgerTotal, Sum, CreditedOn;
    CreditedDays(credits);
    SingleSum([]);
    if credits == [] {
      assert Interests(credits) == [];
    } else {
      var next := RecordCredit(db, p, rebirths, credits[0]);
      assert credits[0] in credits;
      RecordOne(db, p, rebirths, credits[0]);
      var rest := credits[1..];
      LaterCredits(credits, first, last);
      assert forall c <- rest :: c in credits;
      RecordKeeps(next, p, rebirths, rest, first, last);
    }
  }

  ghost predicate CreditedOn(credits: seq<DayCredit>, day: int) {
    exists i :: 0 <= i < |credits| && credits[i].day == day
  }

  lemma CreditedDays(credits: seq<DayCredit>)
    ensures forall d :: CreditedOn(credits, d) <==> credits != [] && (credits[0].day == d || CreditedOn(credits[1..], d))
  {
    if credits != [] {
      forall d
        ensures CreditedOn(credits, d) <==> credits[0].day == d || CreditedOn(credits[1..], d)
      {
        if i :| 0 < i < |credits| && credits[i].day == d {
          assert credits[1..][i - 1].day == d;
        }
        if i :| 0 <= i < |credits[1..]| && credits[1..][i].day == d {
          assert credits[i + 1].day == d;
        }
      }
    }
  }

  lemma LaterCredits(credits: seq<DayCredit>, first: int, last: int)
    requires credits != [] && CreditsInOrder(credits, first, last)
    ensures CreditsInOrder(credits[1..], first, last) && forall c <- credits[1..] :: credits[0].day < c.day
    ensures Sum(Interests(credits)) == credits[0].interest + Sum(Interests(credits[1..]))
  {
    assert Interests(credits)[1..] == Interests(credits[1..]);
    assert forall i :: 0 <= i < |credits[1..]| ==> credits[1..][i] == credits[i + 1];
  }

  lemma RecordOne(db: Database, p: PlayerId, rebirths: int, c: DayCredit)
    requires Invariant(db) && InterestKey(p, c.day) !in db.byKey
    ensures var after := RecordCredit(db, p, rebirths, c);
      && Invariant(after) && after.accounts == db.accounts && after.nextId == db.nextId + 1
      && after.byKey == db.byKey[InterestKey(p, c.day) := db.nextId]
      && (forall q, k :: LedgerTotal(after.ledger, q, k)
            == LedgerTotal(db.ledger, q, k) + if q == p && k == BankAccount then c.interest else 0)
  {
    hide ValidOperations, ValidAccount;
    var after := RecordCredit(db, p, rebirths, c);
    var a, b := Posting(None, SystemAccount, -c.interest), Posting(Some(p), BankAccount, c.interest);
    var t := LedgerTransaction(db.nextId, InterestLedger, [a, b]);
    TwoPostings(a, b);
    forall q, k
      ensures LedgerTotal(after.ledger, q, k)
        == LedgerTotal(db.ledger, q, k) + if q == p && k == BankAccount then c.interest else 0
    {
      LedgerAppend(db.ledger, t, q, k);
    }
    AccountsLater(db, after);
    RecordOneOperation(db, p, rebirths, c);
    LedgerLater(db, after, t);
  }

  /** Accounts stay valid when the id counter moves on. */
  lemma AccountsLater(db: Database, after: Database)
    requires ValidAccounts(db) && after.accounts == db.accounts && db.nextId <= after.nextId
    ensures ValidAccounts(after)
  {
    forall p | p in after.accounts
      ensures ValidAccount(after.accounts[p], after.nextId)
    {
      assert ValidAccount(db.accounts[p], db.nextId);
    }
  }

  /** A balanced transaction of an operation that had none keeps the ledger valid. */
  lemma LedgerLater(db: Database, after: Database, t: LedgerTransaction)
    requires ValidLedger(db) && after.ledger == db.ledger + [t] && PostingSum(t.postings) == 0
    requires t.operation in after.operations && db.operations.Keys <= after.operations.Keys
    requires forall i :: 0 <= i < |db.ledger| ==> db.ledger[i].operation != t.operation
    ensures ValidLedger(after)
  {
  }

  lemma RecordOneOperation(db: Database, p: PlayerId, rebirths: int, c: DayCredit)
    requires ValidOperations(db) && ValidLedger(db) && InterestKey(p, c.day) !in db.byKey
    ensures ValidOperations(RecordCredit(db, p, rebirths, c))
    ensures forall i :: 0 <= i < |db.ledger| ==> db.ledger[i].operation != db.nextId
  {
    var after := RecordCredit(db, p, rebirths, c);
    forall id
      ensures ValidOperation(after, id)
    {
      assert ValidOperation(db, id) && ValidOperation(db, db.nextId);
    }
    forall i | 0 <= i < |db.ledger|
      ensures db.ledger[i].operation != db.nextId
    {
      assert ValidOperation(db, db.ledger[i].operation);
    }
    forall k | k in after.byKey
      ensures after.byKey[k] in after.operations && after.operations[after.byKey[k]].key == k
    {
      assert k in db.byKey ==> ValidOperation(db, db.byKey[k]);
    }
  }
}
