/** The bank's tables and its four transactions as functions from one database to the next.

    A transaction that fails returns the database it was given: the program rolls back. Discord ids and player ids map
    one-to-one, so one number stands for both; new row ids come from a counter; a request hash is the request itself. */
module Bank {
  import opened Numbers
  import opened Sums
  import opened Lots
  import opened Fees
  import opened Interest
  import opened Text

  type PlayerId = nat
  type OperationId = nat

  const BANK_POLICY_VERSION := 1
  const BANK_INTEREST_POLICY_VERSION := 1
  const MICROS_PER_DAY := DAY_SECONDS * MICROS_PER_SECOND
  const MAX_CATCHUP_DAYS := 366

  datatype Status = Active | SoftFrozen | HardFrozen | Deleted

  datatype Withdrawal = Withdrawal(gross: int, createdAt: int)

  datatype Account = Account(
    status: Status, wallet: int, bank: int, rebirths: int, remainder: int, accrualDay: int,
    lots: seq<Lot>, withdrawals: seq<Withdrawal>)

  /** `external_request_key`: text chosen by a caller, or the key the interest job derives from a player and a day. */
  datatype RequestKey = ClientKey(text: string) | InterestKey(player: PlayerId, day: int)

  datatype MutationKind = Deposit | Withdraw

  datatype OperationKind = BankMutation(mutation: MutationKind) | BankInterest | OtherKind(name: string)

  datatype OperationState = Pending | Committed | Closed

  datatype Receipt = Receipt(
    operation: OperationId, kind: MutationKind, gross: int, fee: int, net: int, wallet: int, bank: int)

  /** What a request hash is computed from. */
  datatype Request = BankRequest(kind: MutationKind, amount: int) | InterestRequest(credit: DayCredit, rebirths: int)
                   | OtherRequest(payload: string)

  datatype Operation = Operation(
    key: RequestKey, actor: Option<PlayerId>, player: Option<PlayerId>, kind: OperationKind, policy: int,
    request: Request, state: OperationState, result: Option<Receipt>)

  datatype AccountKind = WalletAccount | BankAccount | SystemAccount

  datatype Posting = Posting(player: Option<PlayerId>, account: AccountKind, amount: int)

  datatype SpendRequest = SpendRequest(
    operation: OperationId, player: PlayerId, amount: int, source: string, provenance: Json)

  datatype SpendReceipt = SpendReceipt(operation: OperationId, player: PlayerId, amount: int, source: string,
                                       walletBefore: int, walletAfter: int)

  datatype LedgerKind = MutationLedger(mutation: MutationKind) | InterestLedger
                      | SpendLedger(request: SpendRequest, receipt: SpendReceipt)

  /** One balanced ledger transaction and the operation that owns it. */
  datatype LedgerTransaction = LedgerTransaction(operation: OperationId, kind: LedgerKind, postings: seq<Posting>)

  datatype Database = Database(
    accounts: map<PlayerId, Account>, operations: map<OperationId, Operation>, byKey: map<RequestKey, OperationId>,
    ledger: seq<LedgerTransaction>, nextId: nat)

  datatype BankError = DatabaseError | InvalidOperationResult | SnowflakeOutOfRange | InvalidAmount
                     | BelowMinimumWithdrawal | PlayerNotFound | AccountFrozen(status: Status)
                     | InsufficientWallet(available: int, requested: int) | InsufficientBank(available: int, requested: int)
                     | LotIntegrityMismatch | IdempotencyConflict | OperationTerminal(state: OperationState)
                     | ArithmeticOverflow | InvalidFee

  // ---- operations by request key

  datatype Resolution = Fresh(db: Database, id: OperationId) | Replay(receipt: Receipt)

  /** Inserts a row under a new id. */
  function InsertOperation(db: Database, operation: Operation): Database {
    db.(operations := db.operations[db.nextId := operation],
        byKey := db.byKey[operation.key := db.nextId],
        nextId := db.nextId + 1)
  }

  /** Checks a stored row against the request and says whether it is a replay. An interest row has no actor, and reading
      its actor as a number is a database error. */
  function ValidateOperation(db: Database, id: OperationId, row: Operation, actor: PlayerId, kind: MutationKind,
                             amount: int)
    : Result<Resolution, BankError>
  {
    match row.actor
    case None => Err(DatabaseError)
    case Some(stored) =>
      if stored != actor || row.kind != BankMutation(kind) || row.policy != BANK_POLICY_VERSION
         || row.request != BankRequest(kind, amount)
      then Err(IdempotencyConflict)
      else match row.state
        case Committed =>
          (match row.result
           case Some(receipt) => Ok(Replay(receipt))
           case None => Err(InvalidOperationResult))
        case Closed => Err(OperationTerminal(row.state))
        case Pending => Ok(Fresh(db, id))
  }

  function ResolveOperation(db: Database, actor: PlayerId, key: RequestKey, kind: MutationKind, amount: int)
    : Result<Resolution, BankError>
  {
    if key in db.byKey then
      var id := db.byKey[key];
      if id in db.operations then ValidateOperation(db, id, db.operations[id], actor, kind, amount)
      else Err(DatabaseError)
    else
      var row := Operation(key, Some(actor), None, BankMutation(kind), BANK_POLICY_VERSION,
                           BankRequest(kind, amount), Pending, None);
      Ok(Fresh(InsertOperation(db, row), db.nextId))
  }

  /** `UPDATE operations SET state = 'COMMITTED' ... WHERE state = 'PENDING'`. */
  function CommitOperation(db: Database, player: PlayerId, receipt: Receipt): Result<Database, BankError> {
    if receipt.operation in db.operations && db.operations[receipt.operation].state == Pending then
      var row := db.operations[receipt.operation].(player := Some(player), state := Committed, result := Some(receipt));
      Ok(db.(operations := db.operations[receipt.operation := row]))
    else Err(OperationTerminal(Pending))
  }

  // ---- ledger

  function FindLedger(ledger: seq<LedgerTransaction>, operation: OperationId): Option<LedgerTransaction> {
    if ledger == [] then None
    else if ledger[0].operation == operation then Some(ledger[0])
    else FindLedger(ledger[1..], operation)
  }

  /** Appends a transaction; a second one for the same operation breaks a unique constraint. */
  function InsertLedger(db: Database, transaction: LedgerTransaction): Option<Database> {
    if FindLedger(db.ledger, transaction.operation).Some? then None
    else Some(db.(ledger := db.ledger + [transaction]))
  }

  function MutationPostings(player: PlayerId, kind: MutationKind, gross: int, fee: int): seq<Posting> {
    match kind
    case Deposit =>
      [Posting(Some(player), WalletAccount, -gross), Posting(Some(player), BankAccount, gross)]
    case Withdraw =>
      [Posting(Some(player), BankAccount, -gross), Posting(Some(player), WalletAccount, gross - fee)]
      + if fee > 0 then [Posting(None, SystemAccount, fee)] else []
  }

  // ---- deposit and withdraw

  /** `deposited_at, id` order decides which lot is spent first. */
  predicate SpentBefore(a: Lot, b: Lot) {
    a.depositedAt < b.depositedAt || (a.depositedAt == b.depositedAt && a.id < b.id)
  }

  function InsertLot(rows: seq<Lot>, lot: Lot): seq<Lot> {
    if rows == [] then [lot]
    else if SpentBefore(lot, rows[0]) then [lot] + rows
    else [rows[0]] + InsertLot(rows[1..], lot)
  }

  function LockAccount(db: Database, player: PlayerId): Result<Account, BankError> {
    if player !in db.accounts || db.accounts[player].status == Deleted then Err(PlayerNotFound)
    else if db.accounts[player].status != Active then Err(AccountFrozen(db.accounts[player].status))
    else Ok(db.accounts[player])
  }

  /** Writes the account, its ledger transaction and the committed operation of one money movement. */
  function Settle(db: Database, player: PlayerId, account: Account, receipt: Receipt): Result<Database, BankError> {
    var transaction := LedgerTransaction(receipt.operation, MutationLedger(receipt.kind),
                                         MutationPostings(player, receipt.kind, receipt.gross, receipt.fee));
    match InsertLedger(db.(accounts := db.accounts[player := account]), transaction)
    case None => Err(DatabaseError)
    case Some(written) => CommitOperation(written, player, receipt)
  }

  function DepositFresh(db: Database, id: OperationId, player: PlayerId, amount: int, now: int)
    : Result<(Database, Receipt), BankError>
  {
    var account :- LockAccount(db, player);
    if account.wallet < amount then Err(InsufficientWallet(account.wallet, amount))
    else if !InI64(account.wallet - amount) || !InI64(account.bank + amount) then Err(ArithmeticOverflow)
    else
      var next := account.(wallet := account.wallet - amount, bank := account.bank + amount,
                           lots := InsertLot(account.lots, Lot(db.nextId, amount, now)));
      var receipt := Receipt(id, Deposit, amount, 0, amount, next.wallet, next.bank);
      var settled :- Settle(db.(nextId := db.nextId + 1), player, next, receipt);
      Ok((settled, receipt))
  }

  function Rolling24hGross(withdrawals: seq<Withdrawal>, now: int): int {
    if withdrawals == [] then 0
    else (if withdrawals[0].createdAt >= now - MICROS_PER_DAY then withdrawals[0].gross else 0)
         + Rolling24hGross(withdrawals[1..], now)
  }

  function WithdrawFresh(db: Database, id: OperationId, player: PlayerId, amount: int, now: int)
    : Result<(Database, Receipt), BankError>
  {
    var account :- LockAccount(db, player);
    if account.bank < amount then Err(InsufficientBank(account.bank, amount))
    else
      var active := ActiveLots(account.lots);
      if Unpaid(active, amount) != 0 then Err(LotIntegrityMismatch)
      else
        var debits := DebitsFrom(active, amount);
        match WithdrawalFee(amount, account.bank, Rolling24hGross(account.withdrawals, now), debits, now)
        case None => Err(ArithmeticOverflow)
        case Some(fee) =>
          if !InI64(amount - fee) then Err(ArithmeticOverflow)
          else if amount - fee <= 0 then Err(InvalidFee)
          else match ApplyDebits(account.lots, debits)
            case None => Err(LotIntegrityMismatch)
            case Some(lots) =>
              if !InI64(account.bank - amount) || !InI64(account.wallet + (amount - fee)) then Err(ArithmeticOverflow)
              else
                var next := account.(wallet := account.wallet + (amount - fee), bank := account.bank - amount,
                                     lots := lots,
                                     withdrawals := account.withdrawals + [Withdrawal(amount, now)]);
                var receipt := Receipt(id, Withdraw, amount, fee, amount - fee, next.wallet, next.bank);
                var settled :- Settle(db, player, next, receipt);
                Ok((settled, receipt))
  }

  function ValidateAmount(kind: MutationKind, amount: int): Option<BankError> {
    if amount <= 0 then Some(InvalidAmount)
    else if kind == Withdraw && amount < BANK_MIN_WITHDRAWAL then Some(BelowMinimumWithdrawal)
    else None
  }

  /** A deposit or a withdrawal under a request key: at most one movement per key, and replays of the stored receipt. */
  function Mutate(db: Database, kind: MutationKind, actor: PlayerId, amount: int, key: RequestKey, now: int)
    : (Database, Result<Receipt, BankError>)
  {
    match ValidateAmount(kind, amount)
    case Some(error) => (db, Err(error))
    case None =>
      if actor > I64_MAX then (db, Err(SnowflakeOutOfRange))
      else match ResolveOperation(db, actor, key, kind, amount)
        case Err(error) => (db, Err(error))
        case Ok(Replay(receipt)) => (db, Ok(receipt))
        case Ok(Fresh(begun, id)) =>
          match (match kind
                 case Deposit => DepositFresh(begun, id, actor, amount, now)
                 case Withdraw => WithdrawFresh(begun, id, actor, amount, now))
          case Err(error) => (db, Err(error))
          case Ok((settled, receipt)) => (settled, Ok(receipt))
  }

  // ---- interest

  datatype InterestSummary = InterestSummary(days: nat, credited: int, lastDay: int)

  /** The days of a player whose system key is already in use. */
  function TakenDays(db: Database, player: PlayerId): set<int> {
    set k | k in db.byKey && k.InterestKey? && k.player == player :: k.day
  }

  /** The operation and ledger rows of one credited day. */
  function RecordCredit(db: Database, player: PlayerId, rebirths: int, credit: DayCredit): Database {
    var row := Operation(InterestKey(player, credit.day), None, Some(player), BankInterest, BANK_INTEREST_POLICY_VERSION,
                         InterestRequest(credit, rebirths), Committed, None);
    var transaction := LedgerTransaction(db.nextId, InterestLedger,
                                         [Posting(None, SystemAccount, -credit.interest),
                                          Posting(Some(player), BankAccount, credit.interest)]);
    var begun := InsertOperation(db, row);
    begun.(ledger := begun.ledger + [transaction])
  }

  function RecordCredits(db: Database, player: PlayerId, rebirths: int, credits: seq<DayCredit>): Database
    decreases |credits|
  {
    if credits == [] then db
    else RecordCredits(RecordCredit(db, player, rebirths, credits[0]), player, rebirths, credits[1..])
  }

  /** Adding up the lots with checked i64 additions, from the first. */
  function CheckedSum(values: seq<int>, sum: int): Option<int> {
    if values == [] then Some(sum)
    else
      var next :- Add64(sum, values[0]);
      CheckedSum(values[1..], next)
  }

  function ReconcileLots(bank: int, lots: seq<Lot>): Option<InterestError> {
    match CheckedSum(Principals(lots), 0)
    case None => Some(InterestOverflow)
    case Some(total) => if total == bank then None else Some(LotsUnreconciled)
  }

  function ToBalance(account: Account): Balance {
    Balance(account.bank, account.remainder, account.accrualDay, ActiveLots(account.lots))
  }

  /** The account after catch-up: the updates reach the lot rows by id. */
  function FromBalance(account: Account, balance: Balance): Account
    requires |balance.lots| == |ActiveLots(account.lots)|
  {
    account.(bank := balance.bank, remainder := balance.remainder, accrualDay := balance.day,
             lots := WriteBack(account.lots, balance.lots))
  }

  function AccrueInterest(db: Database, player: PlayerId,
                          today: int): (Database, Result<InterestSummary, InterestError>) {
    if player !in db.accounts || db.accounts[player].status == Deleted then (db, Err(InterestPlayerNotFound))
    else
      var account := db.accounts[player];
      if !(0 <= account.remainder < DENOMINATOR) then (db, Err(InvalidState))
      else if account.accrualDay >= today then (db, Ok(InterestSummary(0, 0, account.accrualDay)))
      else
        var days := Min(today - account.accrualDay, MAX_CATCHUP_DAYS);
        if account.status == HardFrozen then
          (db.(accounts := db.accounts[player := account.(accrualDay := account.accrualDay + days)]),
           Ok(InterestSummary(days, 0, account.accrualDay + days)))
        else match ReconcileLots(account.bank, ActiveLots(account.lots))
          case Some(error) => (db, Err(error))
          case None =>
            match Days(ToBalance(account), account.rebirths, TakenDays(db, player), days)
            case Err(error) => (db, Err(error))
            case Ok(Accrued(end, credits)) =>
              if |end.lots| != |ActiveLots(account.lots)| then (db, Err(LotsUnreconciled))
              else
                (RecordCredits(db.(accounts := db.accounts[player := FromBalance(account, end)]),
                               player, account.rebirths, credits),
                 Ok(InterestSummary(days, end.bank - account.bank, end.day)))
  }

  // ---- wallet spend

  datatype SpendError = InvalidSpendAmount | InvalidSource | InvalidProvenance | SpendPlayerNotFound
                      | SpendAccountFrozen(status: Status) | OperationNotFound | OperationPlayerMismatch
                      | SpendOperationTerminal(state: OperationState) | InsufficientSpendWallet(available: int, requested: int)
                      | MutationConflict | InvalidStoredSpend

  function ValidateSpend(request: SpendRequest): Option<SpendError> {
    if request.amount <= 0 then Some(InvalidSpendAmount)
    else if Blank(request.source) then Some(InvalidSource)
    else if request.provenance.NotAnObject? || request.provenance.fields == map[] then Some(InvalidProvenance)
    else None
  }

  function SpendPostings(receipt: SpendReceipt): seq<Posting> {
    [Posting(Some(receipt.player), WalletAccount, -receipt.amount), Posting(None, SystemAccount, receipt.amount)]
  }

  function ReplaySpend(stored: LedgerTransaction, request: SpendRequest): Result<SpendReceipt, SpendError> {
    match stored.kind
    case SpendLedger(original, receipt) =>
      if original != request || receipt.operation != request.operation || receipt.player != request.player
         || receipt.amount != request.amount || receipt.source != request.source
      then Err(MutationConflict)
      else if receipt.walletBefore < receipt.amount || receipt.walletAfter != receipt.walletBefore - receipt.amount
              || stored.postings != SpendPostings(receipt)
      then Err(InvalidStoredSpend)
      else Ok(receipt)
    case _ => Err(MutationConflict)
  }

  function ApplyWalletSpend(db: Database, request: SpendRequest): (Database, Result<SpendReceipt, SpendError>) {
    match ValidateSpend(request)
    case Some(error) => (db, Err(error))
    case None =>
      if request.operation !in db.operations then (db, Err(OperationNotFound))
      else
        var operation := db.operations[request.operation];
        if operation.player.Some? && operation.player.value != request.player then (db, Err(OperationPlayerMismatch))
        else match FindLedger(db.ledger, request.operation)
          case Some(stored) => (db, ReplaySpend(stored, request))
          case None =>
            if operation.state != Pending then (db, Err(SpendOperationTerminal(operation.state)))
            else if request.player !in db.accounts || db.accounts[request.player].status == Deleted
            then (db, Err(SpendPlayerNotFound))
            else
              var account := db.accounts[request.player];
              if account.status != Active then (db, Err(SpendAccountFrozen(account.status)))
              else if account.wallet < request.amount
              then (db, Err(InsufficientSpendWallet(account.wallet, request.amount)))
              else
                var receipt := SpendReceipt(request.operation, request.player, request.amount, request.source,
                                            account.wallet, account.wallet - request.amount);
                var transaction := LedgerTransaction(request.operation, SpendLedger(request, receipt),
                                                     SpendPostings(receipt));
                (db.(accounts := db.accounts[request.player := account.(wallet := receipt.walletAfter)],
                     ledger := db.ledger + [transaction]),
                 Ok(receipt))
  }
}
