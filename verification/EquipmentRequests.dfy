/** Equip and unequip under request keys: one row of the operations table per key, at most one effect, and replays of the
    stored receipt. */
module EquipmentRequests {
  import opened Numbers
  import opened Equipment
  import Runs = EquipmentRuns

  type OperationId = nat

  const ITEM_POLICY_VERSION := 1

  datatype Mutation = EquipItem | UnequipItem

  datatype OperationKind = ItemMutation(mutation: Mutation) | OtherKind(name: string)

  datatype OperationState = Pending | Committed | Closed

  datatype Receipt = Receipt(operation: OperationId, mutation: Mutation, item: ItemId, slot: GearSlot,
                             displaced: Option<ItemId>)

  /** What the stored hash is taken of. */
  datatype Request = ItemRequest(mutation: Mutation, item: ItemId) | OtherRequest(payload: string)

  datatype Operation = Operation(id: OperationId, actor: Option<PlayerId>, kind: OperationKind, policy: int, request: Request,
                                 state: OperationState, result: Option<Receipt>)

  /** The equipment tables and the operations by their unique request key. */
  datatype Store = Store(gear: State, operations: map<string, Operation>, nextId: OperationId)

  datatype RequestError =
    | SnowflakeOutOfRange | IdempotencyConflict | InvalidOperationResult | OperationTerminal(state: OperationState)
    | Refused(error: GearError)

  datatype Resolution = Fresh(store: Store, id: OperationId) | Replay(receipt: Receipt)

  // ---- one request

  function ValidateOperation(st: Store, row: Operation, actor: PlayerId, mutation: Mutation, item: ItemId)
    : Result<Resolution, RequestError>
  {
    if row.actor != Some(actor) || row.kind != ItemMutation(mutation) || row.policy != ITEM_POLICY_VERSION
       || row.request != ItemRequest(mutation, item)
    then Err(IdempotencyConflict)
    else match row.state
      case Committed =>
        (match row.result
         case Some(receipt) => Ok(Replay(receipt))
         case None => Err(InvalidOperationResult))
      case Closed => Err(OperationTerminal(row.state))
      case Pending => Ok(Fresh(st, row.id))
  }

  function NewRow(id: OperationId, actor: PlayerId, mutation: Mutation, item: ItemId): Operation {
    Operation(id, Some(actor), ItemMutation(mutation), ITEM_POLICY_VERSION, ItemRequest(mutation, item), Pending, None)
  }

  /** Reads the row of the key, or inserts it and reads it back. */
  function ResolveOperation(st: Store, actor: PlayerId, mutation: Mutation, item: ItemId, key: string)
    : Result<Resolution, RequestError>
  {
    if key in st.operations then ValidateOperation(st, st.operations[key], actor, mutation, item)
    else
      var row := NewRow(st.nextId, actor, mutation, item);
      ValidateOperation(st.(operations := st.operations[key := row], nextId := st.nextId + 1), row, actor, mutation, item)
  }

  /** `UPDATE operations SET state = 'COMMITTED' ... WHERE id = ... AND state = 'PENDING'`. */
  function CommitOperation(st: Store, key: string, receipt: Receipt): Result<Store, RequestError> {
    if key in st.operations && st.operations[key].id == receipt.operation && st.operations[key].state == Pending then
      Ok(st.(operations := st.operations[key := st.operations[key].(state := Committed, result := Some(receipt))]))
    else Err(OperationTerminal(Pending))
  }

  /** The tables, the slot and the displaced item of the mutation itself. */
  ghost function Perform(gear: State, actor: PlayerId, mutation: Mutation, item: ItemId)
    : Result<(State, GearSlot, Option<ItemId>), GearError>
  {
    match mutation
    case EquipItem =>
      var (after, receipt) :- Equip(gear, actor, item);
      Ok((after, receipt.slot, receipt.displaced))
    case UnequipItem =>
      var (after, slot) :- Unequip(gear, actor, item);
      Ok((after, slot, None))
  }

  /** One call in its transaction: an error leaves every table as it was, the operations included. */
  ghost function Submit(st: Store, actor: PlayerId, mutation: Mutation, item: ItemId, key: string)
    : (Store, Result<Receipt, RequestError>)
  {
    if actor > I64_MAX then (st, Err(SnowflakeOutOfRange))
    else match ResolveOperation(st, actor, mutation, item, key)
      case Err(e) => (st, Err(e))
      case Ok(Replay(receipt)) => (st, Ok(receipt))
      case Ok(Fresh(begun, id)) =>
        match Perform(begun.gear, actor, mutation, item)
        case Err(e) => (st, Err(Refused(e)))
        case Ok((after, slot, displaced)) =>
          var receipt := Receipt(id, mutation, item, slot, displaced);
          match CommitOperation(begun.(gear := after), key, receipt)
          case Err(e) => (st, Err(e))
          case Ok(committed) => (committed, Ok(receipt))
  }

  // ---- what holds in every reachable store

  /** Equip and unequip rows are only ever seen committed, with the receipt of what they asked for. */
  ghost predicate RowSound(row: Operation) {
    row.kind.ItemMutation? ==>
      && row.state == Committed && row.result.Some? && row.actor.Some? && row.policy == 1
      && var receipt := row.result.value;
      receipt.operation == row.id && row.kind == ItemMutation(receipt.mutation)
      && row.request == ItemRequest(receipt.mutation, receipt.item)
  }

  ghost predicate Sound(st: Store) {
    Runs.Invariant(st.gear) && forall key :: key in st.operations ==> RowSound(st.operations[key])
  }

  /** What a request means in such a store: a free key performs the mutation once, a used key returns its receipt to the same
      request and refuses every other, and no other operation error is reachable. */
  ghost function Submitting(st: Store, actor: PlayerId, mutation: Mutation, item: ItemId, key: string)
    : (Store, Result<Receipt, RequestError>)
  {
    if actor > I64_MAX then (st, Err(SnowflakeOutOfRange))
    else if key in st.operations then
      var row := st.operations[key];
      if row.actor == Some(actor) && row.result.Some? && row.kind == ItemMutation(mutation)
         && row.request == ItemRequest(mutation, item)
      then (st, Ok(row.result.value))
      else (st, Err(IdempotencyConflict))
    else match Perform(st.gear, actor, mutation, item)
      case Err(e) => (st, Err(Refused(e)))
      case Ok((after, slot, displaced)) =>
        var receipt := Receipt(st.nextId, mutation, item, slot, displaced);
        var row := NewRow(st.nextId, actor, mutation, item).(state := Committed, result := Some(receipt));
        (Store(after, st.operations[key := row], st.nextId + 1), Ok(receipt))
  }

  lemma SubmitExact(st: Store, actor: PlayerId, mutation: Mutation, item: ItemId, key: string)
    requires Sound(st)
    ensures Submit(st, actor, mutation, item, key) == Submitting(st, actor, mutation, item, key)
  {
    hide Perform, Runs.Invariant;
    if key in st.operations {
      assert RowSound(st.operations[key]);
    } else {
      var row := NewRow(st.nextId, actor, mutation, item);
      var performed := Perform(st.gear, actor, mutation, item);
      if performed.Ok? {
        var receipt := Receipt(st.nextId, mutation, item, performed.value.1, performed.value.2);
        var done := row.(state := Committed, result := Some(receipt));
        assert st.operations[key := row][key := done] == st.operations[key := done];
      }
    }
  }

  lemma SubmitKeeps(st: Store, actor: PlayerId, mutation: Mutation, item: ItemId, key: string)
    requires Sound(st)
    ensures Sound(Submit(st, actor, mutation, item, key).0)
  {
    hide Submit, Equip, Unequip, Runs.Invariant;
    SubmitExact(st, actor, mutation, item, key);
    Runs.EquipKeeps(st.gear, actor, item);
    Runs.UnequipKeeps(st.gear, actor, item);
  }

  // ---- every run

  /** Keyed requests, the other writers of the equipment tables, and other services' operations. */
  datatype Command =
    | SubmitCommand(actor: PlayerId, mutation: Mutation, item: ItemId, key: string)
    | GearCommand(command: Runs.Command)
    | OpenOperation(opening: string, owner: Option<PlayerId>, name: string, payload: string)
    | CloseOperation(closing: string)

  ghost function Step(st: Store, c: Command): Store {
    match c
    case SubmitCommand(actor, mutation, item, key) => Submit(st, actor, mutation, item, key).0
    case GearCommand(command) => st.(gear := Runs.Step(st.gear, command))
    case OpenOperation(key, owner, name, payload) =>
      if key in st.operations then st
      else
        var row := Operation(st.nextId, owner, OtherKind(name), 1, OtherRequest(payload), Pending, None);
        st.(operations := st.operations[key := row], nextId := st.nextId + 1)
    case CloseOperation(key) =>
      if key in st.operations && st.operations[key].kind.OtherKind?
      then st.(operations := st.operations[key := st.operations[key].(state := Closed)])
      else st
  }

  ghost function Run(st: Store, commands: seq<Command>): Store
    decreases |commands|
  {
    if commands == [] then st else Run(Step(st, commands[0]), commands[1..])
  }

  /** Rows of equip and unequip requests are final. */
  ghost predicate KeepsRows(st: Store, after: Store) {
    forall key :: key in st.operations && st.operations[key].kind.ItemMutation? ==>
      key in after.operations && after.operations[key] == st.operations[key]
  }

  lemma StepKeeps(st: Store, c: Command)
    requires Sound(st)
    ensures Sound(Step(st, c)) && KeepsRows(st, Step(st, c))
  {
    hide Submit, Perform, Runs.Invariant, Runs.Step;
    match c
    case SubmitCommand(actor, mutation, item, key) =>
      SubmitKeeps(st, actor, mutation, item, key);
      SubmitExact(st, actor, mutation, item, key);
    case GearCommand(command) => Runs.StepKeeps(st.gear, command);
    case _ =>
  }

  /** In every run of keyed requests and the other writers, slot rows and worn items stay one-to-one, worn armor holds at most
      one kind of survival enchant, and every finished row stays what it was. */
  lemma {:induction false} RunKeeps(st: Store, commands: seq<Command>)
    requires Sound(st)
    ensures Sound(Run(st, commands)) && KeepsRows(st, Run(st, commands))
    decreases |commands|
  {
    hide Step, Sound;
    if commands == [] {
    } else {
      StepKeeps(st, commands[0]);
      RunKeeps(Step(st, commands[0]), commands[1..]);
    }
  }

  /** A request that has succeeded is settled: after any run, whatever is worn by then, repeating it returns the same receipt
      and moves nothing, and any other request under its key is refused without effect. */
  lemma SubmitForever(st: Store, actor: PlayerId, mutation: Mutation, item: ItemId, key: string, commands: seq<Command>,
                      actor': PlayerId, mutation': Mutation, item': ItemId)
    requires Sound(st) && Submit(st, actor, mutation, item, key).1.Ok?
    ensures var (after, result) := Submit(st, actor, mutation, item, key);
      var later := Run(after, commands);
      && Submit(later, actor, mutation, item, key) == (later, result)
      && ((actor', mutation', item') != (actor, mutation, item) ==>
            Submit(later, actor', mutation', item', key)
            == (later, Err(if actor' > I64_MAX then SnowflakeOutOfRange else IdempotencyConflict)))
  {
    hide Submit, Perform, Run, Runs.Invariant;
    SubmitExact(st, actor, mutation, item, key);
    SubmitKeeps(st, actor, mutation, item, key);
    var after := Submit(st, actor, mutation, item, key).0;
    RunKeeps(after, commands);
    var later := Run(after, commands);
    assert RowSound(after.operations[key]);
    assert later.operations[key] == after.operations[key];
    SubmitExact(later, actor, mutation, item, key);
    SubmitExact(later, actor', mutation', item', key);
  }
}
