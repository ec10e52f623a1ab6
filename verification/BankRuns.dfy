/** Whole runs of the bank: what every sequence of transactions keeps, and what a later transaction can rely on. */
module BankRuns {
  import opened Numbers
  import opened Products
  import opened Sums
  import opened Lots
  import opened Fees
  import opened Interest
  import opened Bank
  import opened BankLaws

  /** One transaction: the bank's own four, and what other services do to the tables the bank reads. */
  datatype Command =
    | MutateCommand(kind: MutationKind, actor: PlayerId, amount: int, key: RequestKey, now: int)
    | AccrueCommand(player: PlayerId, today: int)
    | SpendCommand(request: SpendRequest)
    | OpenOperation(key: RequestKey, owner: Option<PlayerId>, name: string, payload: string)
    | CloseOperation(id: OperationId)
    | SetStatus(account: PlayerId, status: Status)
    | Rebirth(reborn: PlayerId)

  function Step(db: Database, c: Command): Database {
    match c
    case MutateCommand(kind, actor, amount, key, now) => Mutate(db, kind, actor, amount, key, now).0
    case AccrueCommand(player, today) => AccrueInterest(db, player, today).0
    case SpendCommand(request) => ApplyWalletSpend(db, request).0
    case OpenOperation(key, owner, name, payload) =>
      if key in db.byKey then db
      else InsertOperation(db, Operation(key, owner, owner, OtherKind(name), 1, OtherRequest(payload), Pending, None))
    case CloseOperation(id) =>
      if id in db.operations && db.operations[id].kind.OtherKind?
      then db.(operations := db.operations[id := db.operations[id].(state := Closed)])
      else db
    case SetStatus(p, status) =>
      if p in db.accounts then db.(accounts := db.accounts[p := db.accounts[p].(status := status)]) else db
    case Rebirth(p) =>
      if p in db.accounts && db.accounts[p].rebirths < I64_MAX
      then db.(accounts := db.accounts[p := db.accounts[p].(rebirths := db.accounts[p].rebirths + 1)])
      else db
  }

  function Run(db: Database, commands: seq<Command>): Database
    decreases |commands|
  {
    if commands == [] then db else Run(Step(db, commands[0]), commands[1..])
  }

  // ---- interest

  /** What an interest call does in a reachable database: it fails without effect, or it moves one account exactly. */
  ghost predicate AccrueOutcome(db: Database, p: PlayerId, today: int, after: Database,
                                result: Result<InterestSummary, InterestError>) {
    match result
    case Err(e) =>
      && after == db && e in {InterestPlayerNotFound, InterestOverflow, OperationConflict}
      && (e == OperationConflict ==>
            p in db.accounts && exists d :: d in TakenDays(db, p) && db.accounts[p].accrualDay < d <= today)
    case Ok(summary) =>
      && p in db.accounts && p in after.accounts
      && var a, a' := db.accounts[p], after.accounts[p];
      && after.accounts == db.accounts[p := a'] && a'.accrualDay == a.accrualDay + summary.days
      && summary.days == (if a.accrualDay >= today then 0 else Min(today - a.accrualDay, 366))
      && a' == a.(bank := a'.bank, remainder := a'.remainder, accrualDay := a'.accrualDay, lots := a'.lots)
      && summary.credited == a'.bank - a.bank
      && (if a.status == HardFrozen || summary.days == 0 then a' == a.(accrualDay := a'.accrualDay)
          else AccruedAs(db, p, summary.days, a'))
      && (forall q, k :: LedgerTotal(after.ledger, q, k)
            == LedgerTotal(db.ledger, q, k) + if q == p && k == BankAccount then summary.credited else 0)
      && (forall k :: k in after.byKey ==>
            k in db.byKey || (k.InterestKey? && k.player == p && a.accrualDay < k.day <= a'.accrualDay))
      && (forall k :: k in db.byKey ==> k in after.byKey)
  }

  /** `a'` is the account of `p` after exactly `n` daily steps. */
  ghost predicate AccruedAs(db: Database, p: PlayerId, n: nat, a': Account)
    requires p in db.accounts
  {
    var a := db.accounts[p];
    var accrued := Days(ToBalance(a), a.rebirths, TakenDays(db, p), n);
    && accrued.Ok? && |accrued.value.balance.lots| == |ActiveLots(a.lots)|
    && a' == FromBalance(a, accrued.value.balance)
  }

  lemma AccrueBooks(db: Database, p: PlayerId, today: int)
    requires Invariant(db)
    ensures var (after, result) := AccrueInterest(db, p, today);
      Invariant(after) && AccrueOutcome(db, p, today, after, result)
  {
    hide Days, RecordCredits, Invariant, ValidAccount, LedgerTotal, ReconcileLots, CreditedOn;
    if p in db.accounts && db.accounts[p].status != Deleted {
      var a := db.accounts[p];
      ReachableAccount(db, p);
      if a.accrualDay < today {
        var n := Min(today - a.accrualDay, MAX_CATCHUP_DAYS);
        if a.status == HardFrozen {
          AccountChanged(db, p, a.(accrualDay := a.accrualDay + n));
        } else {
          AccountReconciles(a, db.nextId);
          CatchUpExact(ToBalance(a), a.rebirths, TakenDays(db, p), n);
          var accrued := Days(ToBalance(a), a.rebirths, TakenDays(db, p), n);
          if accrued.Ok? {
            var end, credits := accrued.value.balance, accrued.value.credits;
            AccruedValid(a, db.nextId, end);
            AccountChanged(db, p, FromBalance(a, end));
            var moved := db.(accounts := db.accounts[p := FromBalance(a, end)]);
            forall c | c in credits
              ensures InterestKey(p, c.day) !in moved.byKey
            {
              assert c.day !in TakenDays(db, p);
            }
            RecordKeeps(moved, p, a.rebirths, credits, a.accrualDay, end.day);
            CreditedRange(credits, a.accrualDay, end.day);
          }
        }
      }
    }
  }

  lemma CreditedRange(credits: seq<DayCredit>, first: int, last: int)
    requires CreditsInOrder(credits, first, last)
    ensures forall d :: CreditedOn(credits, d) ==> first < d <= last
  {
  }

  lemma ReachableAccount(db: Database, p: PlayerId)
    requires Invariant(db) && p in db.accounts
    ensures ValidAccount(db.accounts[p], db.nextId)
    ensures 0 <= db.accounts[p].remainder < DENOMINATOR && 0 <= db.accounts[p].rebirths
  {
  }

  /** Replacing one account by a valid one keeps the invariant. */
  lemma AccountChanged(db: Database, p: PlayerId, a: Account)
    requires Invariant(db)
    requires ValidAccount(a, db.nextId)
      || (p in db.accounts && a == db.accounts[p].(accrualDay := a.accrualDay, status := a.status, rebirths := a.rebirths)
          && 0 <= a.rebirths <= I64_MAX)
    ensures Invariant(db.(accounts := db.accounts[p := a]))
  {
    var after := db.(accounts := db.accounts[p := a]);
    forall id
      ensures ValidOperation(after, id)
    {
      assert ValidOperation(db, id);
    }
  }

  lemma AccrueExplained(db: Database, p: PlayerId, today: int, opening: map<PlayerId, Opening>)
    requires Invariant(db) && Explained(db, opening)
    ensures Explained(AccrueInterest(db, p, today).0, opening)
  {
    hide AccrueInterest, Invariant, AccruedAs, LedgerTotal;
    AccrueBooks(db, p, today);
  }

  // ---- wallet spend

  /** A spend in a reachable database: no effect, or one balanced transaction from a wallet that holds the amount. A
      stored spend is never found corrupt. */
  ghost predicate SpendOutcome(db: Database, r: SpendRequest, after: Database,
                               result: Result<SpendReceipt, SpendError>) {
    match result
    case Err(e) => after == db
    case Ok(receipt) =>
      if FindLedger(db.ledger, r.operation).Some? then after == db
      else
        && r.player in db.accounts && 0 < r.amount <= db.accounts[r.player].wallet
        && r.operation in db.operations && db.operations[r.operation].state == Pending
        && var a := db.accounts[r.player];
        && receipt == SpendReceipt(r.operation, r.player, r.amount, r.source, a.wallet, a.wallet - r.amount)
        && after == Moving(db, r.player, a.(wallet := a.wallet - r.amount),
                           LedgerTransaction(r.operation, SpendLedger(r, receipt), SpendPostings(receipt)))
  }

  lemma SpendBooks(db: Database, r: SpendRequest)
    ensures var (after, result) := ApplyWalletSpend(db, r); SpendOutcome(db, r, after, result)
  {
  }

  lemma SpendMoves(receipt: SpendReceipt)
    ensures var ps := SpendPostings(receipt);
      && PostingSum(ps) == 0
      && Moved(ps, receipt.player, WalletAccount) == -receipt.amount && Moved(ps, receipt.player, BankAccount) == 0
      && forall q, k :: q != receipt.player ==> Moved(ps, q, k) == 0
  {
    TwoPostings(SpendPostings(receipt)[0], SpendPostings(receipt)[1]);
  }

  lemma SpendKeeps(db: Database, r: SpendRequest)
    requires Invariant(db)
    ensures Invariant(ApplyWalletSpend(db, r).0)
  {
    hide ApplyWalletSpend, ValidAccount;
    SpendBooks(db, r);
    var (after, result) := ApplyWalletSpend(db, r);
    if result.Ok? && FindLedger(db.ledger, r.operation).None? {
      SpendMoves(result.value);
      LedgerLookup(db.ledger, r.operation);
      var a := db.accounts[r.player];
      assert ValidAccount(a.(wallet := a.wallet - r.amount), db.nextId) by {
        SpentAccount(a, db.nextId, r.amount);
      }
      AccountChanged(db, r.player, a.(wallet := a.wallet - r.amount));
      var moved := db.(accounts := db.accounts[r.player := a.(wallet := a.wallet - r.amount)]);
      LedgerLater(moved, after,
                  LedgerTransaction(r.operation, SpendLedger(r, result.value), SpendPostings(result.value)));
      assert forall id :: ValidOperation(moved, id) ==> ValidOperation(after, id);
    }
  }

  lemma SpentAccount(a: Account, nextId: nat, amount: int)
    requires ValidAccount(a, nextId) && 0 < amount <= a.wallet
    ensures ValidAccount(a.(wallet := a.wallet - amount), nextId)
  {
  }

  lemma SpendExplained(db: Database, r: SpendRequest, opening: map<PlayerId, Opening>)
    requires Explained(db, opening)
    ensures Explained(ApplyWalletSpend(db, r).0, opening)
  {
    hide ApplyWalletSpend, LedgerTotal;
    SpendBooks(db, r);
    var (after, result) := ApplyWalletSpend(db, r);
    if result.Ok? && FindLedger(db.ledger, r.operation).None? {
      SpendMoves(result.value);
      var a := db.accounts[r.player];
      MovingExplained(db, r.player, a.(wallet := a.wallet - r.amount),
                      LedgerTransaction(r.operation, SpendLedger(r, result.value),
                                        SpendPostings(result.value)), opening);
    }
  }

  // ---- every step, every run

  lemma OpenKeeps(db: Database, row: Operation)
    requires Invariant(db) && row.key !in db.byKey && row.kind.OtherKind?
    ensures Invariant(InsertOperation(db, row))
  {
    hide ValidAccount;
    var after := InsertOperation(db, row);
    AccountsLater(db, after);
    forall id
      ensures ValidOperation(after, id)
    {
      assert ValidOperation(db, id) && ValidOperation(db, db.nextId);
    }
    assert forall k :: k in db.byKey ==> ValidOperation(db, db.byKey[k]);
  }

  lemma CloseKeeps(db: Database, id: OperationId)
    requires Invariant(db) && id in db.operations && db.operations[id].kind.OtherKind?
    ensures Invariant(db.(operations := db.operations[id := db.operations[id].(state := Closed)]))
  {
    hide ValidAccount;
    var after := db.(operations := db.operations[id := db.operations[id].(state := Closed)]);
    forall i
      ensures ValidOperation(after, i)
    {
      assert ValidOperation(db, i);
    }
  }

  lemma OtherStepsKeep(db: Database, c: Command)
    requires Invariant(db) && !c.MutateCommand? && !c.AccrueCommand? && !c.SpendCommand?
    ensures Invariant(Step(db, c)) && Step(db, c).ledger == db.ledger
  {
    hide Invariant, ValidAccount;
    match c
    case OpenOperation(key, owner, name, payload) =>
      if key !in db.byKey {
        OpenKeeps(db, Operation(key, owner, owner, OtherKind(name), 1, OtherRequest(payload), Pending, None));
      }
    case CloseOperation(id) =>
      if id in db.operations && db.operations[id].kind.OtherKind? {
        CloseKeeps(db, id);
      }
    case SetStatus(p, status) =>
      if p in db.accounts {
        ReachableRebirths(db, p);
        AccountChanged(db, p, db.accounts[p].(status := status));
      }
    case Rebirth(p) =>
      if p in db.accounts && db.accounts[p].rebirths < I64_MAX {
        ReachableRebirths(db, p);
        AccountChanged(db, p, db.accounts[p].(rebirths := db.accounts[p].rebirths + 1));
      }
  }

  lemma ReachableRebirths(db: Database, p: PlayerId)
    requires Invariant(db) && p in db.accounts
    ensures 0 <= db.accounts[p].rebirths <= I64_MAX
  {
  }

  lemma OtherStepsExplained(db: Database, c: Command, opening: map<PlayerId, Opening>)
    requires Explained(db, opening) && !c.MutateCommand? && !c.AccrueCommand? && !c.SpendCommand?
    ensures Explained(Step(db, c), opening)
  {
    hide LedgerTotal;
  }

  lemma StepKeeps(db: Database, c: Command, opening: map<PlayerId, Opening>)
    requires Invariant(db) && Explained(db, opening)
    ensures Invariant(Step(db, c)) && Explained(Step(db, c), opening)
  {
    hide Mutate, AccrueInterest, ApplyWalletSpend, Invariant, Explained;
    match c
    case MutateCommand(kind, actor, amount, key, now) =>
      MutateKeeps(db, kind, actor, amount, key, now);
      MutateExplained(db, kind, actor, amount, key, now, opening);
    case AccrueCommand(player, today) =>
      AccrueBooks(db, player, today);
      AccrueExplained(db, player, today, opening);
    case SpendCommand(request) =>
      SpendKeeps(db, request);
      SpendExplained(db, request, opening);
    case _ =>
      OtherStepsKeep(db, c);
      OtherStepsExplained(db, c, opening);
  }

  /** In every run balances stay non-negative and in range, lots add up to the bank balance, every ledger transaction sums
      to zero, and every balance is its opening value plus its postings. */
  lemma {:induction false} RunKeeps(db: Database, commands: seq<Command>, opening: map<PlayerId, Opening>)
    requires Invariant(db) && Explained(db, opening)
    ensures Invariant(Run(db, commands)) && Explained(Run(db, commands), opening)
    decreases |commands|
  {
    hide Step, Invariant, Explained;
    if commands == [] {
    } else {
      StepKeeps(db, commands[0], opening);
      RunKeeps(Step(db, commands[0]), commands[1..], opening);
    }
  }

  // ---- idempotency

  /** What later transactions never undo: keys in use stay in use, and finished bank rows stay as they are. */
  ghost predicate Extends(db: Database, after: Database) {
    && (forall k :: k in db.byKey ==> k in after.byKey && after.byKey[k] == db.byKey[k])
    && (forall id :: id in db.operations && !db.operations[id].kind.OtherKind? ==>
          id in after.operations && after.operations[id] == db.operations[id])
  }

  /** Every key that was free before and is in use after belongs to an interest row, which no player acted on. */
  ghost predicate NewRowsUnowned(db: Database, after: Database) {
    forall k :: k in after.byKey && k !in db.byKey ==>
      && after.byKey[k] in after.operations
      && after.operations[after.byKey[k]].kind == BankInterest && after.operations[after.byKey[k]].actor.None?
  }

  lemma {:induction false} RecordExtends(db: Database, p: PlayerId, rebirths: int, credits: seq<DayCredit>)
    requires forall id :: id in db.operations ==> id < db.nextId
    requires forall c <- credits :: InterestKey(p, c.day) !in db.byKey
    requires forall i, j :: 0 <= i < j < |credits| ==> credits[i].day != credits[j].day
    ensures Extends(db, RecordCredits(db, p, rebirths, credits))
    ensures NewRowsUnowned(db, RecordCredits(db, p, rebirths, credits))
    decreases |credits|
  {
    if credits == [] {
    } else {
      var next := RecordCredit(db, p, rebirths, credits[0]);
      assert credits[0] in credits;
      forall c | c in credits[1..]
        ensures InterestKey(p, c.day) !in next.byKey
      {
        var i :| 0 <= i < |credits[1..]| && credits[1..][i] == c;
        assert credits[i + 1] == c && credits[i + 1] in credits;
      }
      RecordExtends(next, p, rebirths, credits[1..]);
    }
  }

  lemma AccrueExtends(db: Database, p: PlayerId, today: int)
    requires Invariant(db)
    ensures Extends(db, AccrueInterest(db, p, today).0) && NewRowsUnowned(db, AccrueInterest(db, p, today).0)
  {
    hide Days, ValidAccount, ReconcileLots, ValidLedger, RecordCredits;
    if p in db.accounts && db.accounts[p].status != Deleted && db.accounts[p].status != HardFrozen {
      var a := db.accounts[p];
      ReachableAccount(db, p);
      if a.accrualDay < today {
        var n := Min(today - a.accrualDay, MAX_CATCHUP_DAYS);
        AccountReconciles(a, db.nextId);
        CatchUpExact(ToBalance(a), a.rebirths, TakenDays(db, p), n);
        var accrued := Days(ToBalance(a), a.rebirths, TakenDays(db, p), n);
        if accrued.Ok? {
          var moved := db.(accounts := db.accounts[p := FromBalance(a, accrued.value.balance)]);
          forall c | c in accrued.value.credits
            ensures InterestKey(p, c.day) !in moved.byKey
          {
            assert c.day !in TakenDays(db, p);
          }
          forall id | id in moved.operations
            ensures id < moved.nextId
          {
            assert ValidOperation(db, id);
          }
          RecordExtends(moved, p, a.rebirths, accrued.value.credits);
        }
      }
    }
  }

  lemma StepExtends(db: Database, c: Command)
    requires Invariant(db)
    ensures Extends(db, Step(db, c))
  {
    hide Mutate, AccrueInterest, ApplyWalletSpend, ValidAccount, AccountFee, InsertLot, Withdrawn;
    forall id | id in db.operations
      ensures id != db.nextId
    {
      assert ValidOperation(db, id);
    }
    match c
    case MutateCommand(kind, actor, amount, key, now) => MutateBooks(db, kind, actor, amount, key, now);
    case AccrueCommand(player, today) => AccrueExtends(db, player, today);
    case SpendCommand(request) => SpendBooks(db, request);
    case _ =>
  }

  lemma {:induction false} RunExtends(db: Database, commands: seq<Command>)
    requires Invariant(db)
    ensures Invariant(Run(db, commands)) && Extends(db, Run(db, commands))
    decreases |commands|
  {
    if commands == [] {
    } else {
      hide Step, Invariant;
      var next := Step(db, commands[0]);
      StepExtends(db, commands[0]);
      StepInvariant(db, commands[0]);
      RunExtends(next, commands[1..]);
    }
  }

  lemma StepInvariant(db: Database, c: Command)
    requires Invariant(db)
    ensures Invariant(Step(db, c))
  {
    hide Mutate, AccrueInterest, ApplyWalletSpend, Invariant;
    match c
    case MutateCommand(kind, actor, amount, key, now) => MutateKeeps(db, kind, actor, amount, key, now);
    case AccrueCommand(player, today) => AccrueBooks(db, player, today);
    case SpendCommand(request) => SpendKeeps(db, request);
    case _ => OtherStepsKeep(db, c);
  }

  /** A key whose committed row answers a request replays it and refuses every other request. */
  lemma RowReplays(db: Database, kind: MutationKind, actor: PlayerId, amount: int, key: RequestKey, again: int,
                   receipt: Receipt, kind': MutationKind, actor': PlayerId, amount': int)
    requires ValidateAmount(kind, amount).None? && actor <= I64_MAX && key in db.byKey && db.byKey[key] in db.operations
    requires var row := db.operations[db.byKey[key]];
      && row.actor == Some(actor) && row.kind == BankMutation(kind) && row.policy == BANK_POLICY_VERSION
      && row.request == BankRequest(kind, amount) && row.state == Committed && row.result == Some(receipt)
    ensures Mutate(db, kind, actor, amount, key, again) == (db, Ok(receipt))
    ensures (kind', actor', amount') != (kind, actor, amount) ==>
      var (refused, error) := Mutate(db, kind', actor', amount', key, again);
      refused == db && error.Err?
      && error.error in {IdempotencyConflict, InvalidAmount, BelowMinimumWithdrawal, SnowflakeOutOfRange}
  {
    hide DepositFresh, WithdrawFresh;
  }

  /** Once a request has succeeded, repeating it after any run returns the same receipt and changes nothing, and any other
      input under its key is refused without effect. */
  lemma ReplayForever(db: Database, kind: MutationKind, actor: PlayerId, amount: int, key: RequestKey, now: int,
                      commands: seq<Command>, again: int, kind': MutationKind, actor': PlayerId, amount': int)
    requires Invariant(db) && Mutate(db, kind, actor, amount, key, now).1.Ok?
    ensures var (after, result) := Mutate(db, kind, actor, amount, key, now);
      var later := Run(after, commands);
      && Mutate(later, kind, actor, amount, key, again) == (later, result)
      && ((kind', actor', amount') != (kind, actor, amount) ==>
            var (refused, error) := Mutate(later, kind', actor', amount', key, again);
            refused == later && error.Err?
            && error.error in {IdempotencyConflict, InvalidAmount, BelowMinimumWithdrawal, SnowflakeOutOfRange})
  {
    hide Run, AccountFee, InsertLot, Withdrawn, ValidAccount, DepositFresh, WithdrawFresh, ValidLedger;
    var (after, result) := Mutate(db, kind, actor, amount, key, now);
    MutateBooks(db, kind, actor, amount, key, now);
    MutateKeeps(db, kind, actor, amount, key, now);
    RunExtends(after, commands);
    var id := after.byKey[key];
    assert ValidOperation(after, id);
    RowReplays(Run(after, commands), kind, actor, amount, key, again, result.value, kind', actor', amount');
  }

  /** No two money movements in the ledger share a request key: one per client key, one per player and day. */
  lemma OneMovementPerKey(db: Database, i: nat, j: nat)
    requires Invariant(db) && i < |db.ledger| && j < |db.ledger|
    ensures db.ledger[i].operation in db.operations && db.ledger[j].operation in db.operations
    ensures db.operations[db.ledger[i].operation].key == db.operations[db.ledger[j].operation].key ==> i == j
  {
    assert ValidOperation(db, db.ledger[i].operation) && ValidOperation(db, db.ledger[j].operation);
  }

  // ---- the interest job's own keys

  /** Every system key in use is for a day already accrued. */
  ghost predicate KeysPast(db: Database) {
    forall k :: k in db.byKey && k.InterestKey? ==> k.player in db.accounts && k.day <= db.accounts[k.player].accrualDay
  }

  /** No caller passes a key of the form the interest job reserves. */
  predicate HonestCommand(c: Command) {
    (c.MutateCommand? || c.OpenOperation?) ==> c.key.ClientKey?
  }

  lemma StepKeysPast(db: Database, c: Command)
    requires Invariant(db) && KeysPast(db) && HonestCommand(c)
    ensures KeysPast(Step(db, c))
  {
    hide Mutate, AccrueInterest, ApplyWalletSpend, Invariant, AccountFee, InsertLot, Drained, AccruedAs, LedgerTotal;
    match c
    case MutateCommand(kind, actor, amount, key, now) => MutateBooks(db, kind, actor, amount, key, now);
    case AccrueCommand(player, today) => AccrueBooks(db, player, today);
    case SpendCommand(request) => SpendBooks(db, request);
    case _ =>
  }

  lemma {:induction false} RunKeysPast(db: Database, commands: seq<Command>)
    requires Invariant(db) && KeysPast(db) && forall c <- commands :: HonestCommand(c)
    ensures Invariant(Run(db, commands)) && KeysPast(Run(db, commands))
    decreases |commands|
  {
    hide Step, Invariant, KeysPast, HonestCommand;
    if commands == [] {
    } else {
      assert commands[0] in commands;
      StepKeysPast(db, commands[0]);
      StepInvariant(db, commands[0]);
      RunKeysPast(Step(db, commands[0]), commands[1..]);
    }
  }

  /** While callers keep to their own keys, the interest job never finds its operation already present. */
  lemma NoInterestConflict(db: Database, commands: seq<Command>, p: PlayerId, today: int)
    requires Invariant(db) && KeysPast(db) && forall c <- commands :: HonestCommand(c)
    ensures AccrueInterest(Run(db, commands), p, today).1 != Err(OperationConflict)
  {
    hide Run, AccrueInterest, Invariant, AccruedAs, LedgerTotal;
    RunKeysPast(db, commands);
    AccrueBooks(Run(db, commands), p, today);
  }
}
