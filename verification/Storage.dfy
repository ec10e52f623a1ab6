/** Item delivery into two bounded bags, with pending overflow, FIFO claims and keyed sub-mutations, as functions from one
    state of the tables to the next.

    The item bag holds stacks and single items and is bounded by slots; the catch bag holds fish and is bounded by grams.
    What does not fit is kept as a pending delivery. Every sub-mutation is recorded as an event under its operation and
    mutation key, and an event found there is replayed instead of acting again. */
module Storage {
  import opened Numbers
  import opened Text

  type PlayerId = nat
  type OperationId = nat
  type ItemId = nat

  const ITEM_BAG_BASE_SLOTS := 36
  const ITEM_BAG_SLOTS_PER_LEVEL := 6
  const CATCH_BAG_BASE_GRAMS := 1_000_000
  const CATCH_BAG_GRAMS_PER_LEVEL := 250_000
  const MAX_MUTATION_KEY_BYTES := 128
  const MAX_SOURCE_BYTES := 128
  const MAX_FISH_PER_CAST := 5
  const UNIQUE_CLAIM_KEY := "item-bag:unique-pending-claim"
  const FISH_CLAIM_KEY := "fishing:pending-catches:claim"

  // ---- tables

  datatype Status = Active | SoftFrozen | HardFrozen | Deleted

  datatype Profile = Profile(status: Status, itemBagLevel: int, catchBagLevel: int)

  datatype Operation = Operation(player: Option<PlayerId>, pending: bool)

  datatype DefVersion = DefVersion(key: string, version: int)

  /** One immutable definition version; `current` says that it is the active one of its key and of the expected rarity. */
  datatype Definition = Definition(stackable: bool, stackLimit: Option<int>, fish: bool, current: bool)

  /** A fish weight in whole grams. */
  type Grams = g: int | 0 < g <= I64_MAX witness 1

  /** Primary key player and definition version; only item-bag stacks are kept here. */
  datatype StackRow = StackRow(player: PlayerId, def: DefVersion, quantity: int)

  datatype Place = InItemBag | InCatchBag | TempOverflow | Elsewhere

  datatype ItemRow = ItemRow(id: ItemId, owner: PlayerId, def: DefVersion, place: Place, weight: Option<int>)

  datatype Bag = ItemBag | CatchBag

  /** A delivery that did not fit, in order of creation; `item` is None for a stack. */
  datatype PendingRow = PendingRow(id: nat, operation: OperationId, key: string, player: PlayerId, def: DefVersion,
                                   quantity: int, bag: Bag, item: Option<ItemId>, open: bool)

  datatype StackRequest = StackRequest(operation: OperationId, player: PlayerId, key: string, def: DefVersion, quantity: int,
                                       source: string, provenance: Json)

  datatype StackReceipt = StackReceipt(event: nat, request: StackRequest, pendingId: Option<nat>)

  datatype ConsumptionReceipt = ConsumptionReceipt(event: nat, request: StackRequest, before: int, after: int)

  datatype UniqueRequest = UniqueRequest(operation: OperationId, player: PlayerId, key: string, def: DefVersion, state: Json,
                                         source: string, provenance: Json)

  datatype UniqueReceipt = UniqueReceipt(event: nat, request: UniqueRequest, item: ItemId, pendingId: Option<nat>)

  /** A resolved fish: its definition, its whole-gram weight and its biological data. */
  datatype FishRequest = FishRequest(fishSlot: nat, def: DefVersion, weight: Grams, biology: string)

  datatype FishReceipt = FishReceipt(event: nat, operation: OperationId, player: PlayerId, request: FishRequest, item: ItemId,
                                     pendingId: Option<nat>)

  datatype Claimed = Claimed(pendingId: nat, item: ItemId)

  datatype ClaimReceipt = ClaimReceipt(event: nat, operation: OperationId, player: PlayerId, claimed: seq<Claimed>,
                                       blocked: Option<nat>, usedAfter: int)

  datatype Payload = StackDelivered(delivered: StackReceipt) | StackConsumed(consumed: ConsumptionReceipt)
                   | UniqueDelivered(unique: UniqueReceipt) | FishDelivered(fish: FishReceipt)
                   | BagClaimed(bag: Bag, claim: ClaimReceipt)

  datatype EventRow = EventRow(operation: OperationId, key: string, player: PlayerId, payload: Payload)

  datatype State = State(
    players: map<PlayerId, Profile>, operations: map<OperationId, Operation>, definitions: map<DefVersion, Definition>,
    stacks: seq<StackRow>, items: seq<ItemRow>, pending: seq<PendingRow>, events: seq<EventRow>, nextId: nat)

  datatype StorageError =
    | InvalidQuantity | InvalidDefinitionVersion | InvalidMutationKey | InvalidSource | InvalidProvenance | InvalidState
    | PlayerNotFound | AccountFrozen(status: Status) | OperationNotFound | OperationPlayerMismatch | OperationTerminal
    | InvalidDefinition | InsufficientStack(available: int, requested: int) | EarlierPendingDelivery
    | MutationConflict | InvalidStoredMutation | PendingIntegrityMismatch | ArithmeticOverflow | FishSlotOutOfRange

  // ---- capacities

  function SlotsForQuantity(quantity: int, limit: int): Option<int> {
    if quantity < 0 || limit <= 0 then None
    else if quantity == 0 then Some(0)
    else if InU64((quantity + limit - 1) / limit) then Some((quantity + limit - 1) / limit) else None
  }

  function ItemBagCapacity(level: int): Option<int> {
    if level < 0 || !InU64(ITEM_BAG_BASE_SLOTS + ITEM_BAG_SLOTS_PER_LEVEL * level) then None
    else Some(ITEM_BAG_BASE_SLOTS + ITEM_BAG_SLOTS_PER_LEVEL * level)
  }

  function CatchBagCapacity(level: int): Option<int> {
    if level < 0 || !InI64(CATCH_BAG_BASE_GRAMS + CATCH_BAG_GRAMS_PER_LEVEL * level) then None
    else Some(CATCH_BAG_BASE_GRAMS + CATCH_BAG_GRAMS_PER_LEVEL * level)
  }

  function BagCapacity(profile: Profile, bag: Bag): Option<int> {
    match bag
    case ItemBag => ItemBagCapacity(profile.itemBagLevel)
    case CatchBag => CatchBagCapacity(profile.catchBagLevel)
  }

  function StackLimit(defs: map<DefVersion, Definition>, def: DefVersion): int {
    if def in defs && defs[def].stackLimit.Some? then defs[def].stackLimit.value else 0
  }

  /** Slots of the player's stacks, added up with checked u64 additions. */
  function StackSlots(defs: map<DefVersion, Definition>, stacks: seq<StackRow>, p: PlayerId, used: int): Option<int> {
    if stacks == [] then Some(used)
    else if stacks[0].player != p then StackSlots(defs, stacks[1..], p, used)
    else
      var slots :- SlotsForQuantity(stacks[0].quantity, StackLimit(defs, stacks[0].def));
      if InU64(used + slots) then StackSlots(defs, stacks[1..], p, used + slots) else None
  }

  function CountIn(items: seq<ItemRow>, p: PlayerId, place: Place): nat {
    if items == [] then 0
    else (if items[0].owner == p && items[0].place == place then 1 else 0) + CountIn(items[1..], p, place)
  }

  function UsedSlots(s: State, p: PlayerId): Option<int> {
    var stacks :- StackSlots(s.definitions, s.stacks, p, 0);
    if InU64(stacks + CountIn(s.items, p, InItemBag)) then Some(stacks + CountIn(s.items, p, InItemBag)) else None
  }

  /** Grams in the catch bag; a fish without a weight is an integrity error. */
  function GramsFrom(items: seq<ItemRow>, p: PlayerId): Result<int, StorageError> {
    if items == [] then Ok(0)
    else if items[0].owner != p || items[0].place != InCatchBag then GramsFrom(items[1..], p)
    else if items[0].weight.None? then Err(PendingIntegrityMismatch)
    else
      var rest :- GramsFrom(items[1..], p);
      Ok(items[0].weight.value + rest)
  }

  function Used(s: State, p: PlayerId, bag: Bag): Result<int, StorageError> {
    match bag
    case ItemBag => (match UsedSlots(s, p) case Some(used) => Ok(used) case None => Err(ArithmeticOverflow))
    case CatchBag =>
      var grams :- GramsFrom(s.items, p);
      if InI64(grams) then Ok(grams) else Err(ArithmeticOverflow)
  }

  // ---- rows

  function FindStack(stacks: seq<StackRow>, p: PlayerId, def: DefVersion): Option<nat> {
    if stacks == [] then None
    else if stacks[0].player == p && stacks[0].def == def then Some(0)
    else match FindStack(stacks[1..], p, def) { case None => None case Some(i) => Some(i + 1) }
  }

  lemma {:induction false} FindStackExact(stacks: seq<StackRow>, p: PlayerId, def: DefVersion)
    ensures match FindStack(stacks, p, def)
      case Some(i) => i < |stacks| && stacks[i].player == p && stacks[i].def == def
      case None => forall i :: 0 <= i < |stacks| ==> !(stacks[i].player == p && stacks[i].def == def)
  {
    if stacks == [] {
    } else {
      FindStackExact(stacks[1..], p, def);
    }
  }

  function QuantityOf(stacks: seq<StackRow>, p: PlayerId, def: DefVersion): int {
    match FindStack(stacks, p, def)
    case None => 0
    case Some(i) => FindStackExact(stacks, p, def); stacks[i].quantity
  }

  /** `INSERT ... ON CONFLICT DO UPDATE`, an update, or a delete when nothing is left. */
  function WithQuantity(stacks: seq<StackRow>, p: PlayerId, def: DefVersion, quantity: int): seq<StackRow> {
    match FindStack(stacks, p, def)
    case None => stacks + [StackRow(p, def, quantity)]
    case Some(i) =>
      FindStackExact(stacks, p, def);
      if quantity == 0 then stacks[..i] + stacks[i + 1..] else stacks[i := StackRow(p, def, quantity)]
  }

  function FindItem(items: seq<ItemRow>, id: ItemId): Option<nat> {
    if items == [] then None
    else if items[0].id == id then Some(0)
    else match FindItem(items[1..], id) { case None => None case Some(i) => Some(i + 1) }
  }

  lemma {:induction false} FindItemExact(items: seq<ItemRow>, id: ItemId)
    ensures match FindItem(items, id)
      case Some(i) => i < |items| && items[i].id == id && forall j :: 0 <= j < i ==> items[j].id != id
      case None => forall i :: 0 <= i < |items| ==> items[i].id != id
  {
    if items == [] {
    } else {
      FindItemExact(items[1..], id);
    }
  }

  function FindEvent(events: seq<EventRow>, operation: OperationId, key: string): Option<EventRow> {
    if events == [] then None
    else if events[0].operation == operation && events[0].key == key then Some(events[0])
    else FindEvent(events[1..], operation, key)
  }

  // ---- what every keyed mutation checks

  /** The owning operation; deliveries and consumptions accept one that names no player, claims and fish do not. */
  function CheckOperation(s: State, operation: OperationId, p: PlayerId, mustName: bool): Option<StorageError> {
    if operation !in s.operations then Some(OperationNotFound)
    else
      var stored := s.operations[operation].player;
      if (stored.None? && mustName) || (stored.Some? && stored.value != p) then Some(OperationPlayerMismatch) else None
  }

  function LockProfile(s: State, p: PlayerId): Result<Profile, StorageError> {
    if p !in s.players || s.players[p].status == Deleted then Err(PlayerNotFound)
    else if s.players[p].status != Active then Err(AccountFrozen(s.players[p].status))
    else Ok(s.players[p])
  }

  function ValidateKeyAndSource(key: string, source: string): Option<StorageError> {
    if Blank(key) || Utf8Length(key) > MAX_MUTATION_KEY_BYTES then Some(InvalidMutationKey)
    else if Blank(source) || Utf8Length(source) > MAX_SOURCE_BYTES then Some(InvalidSource)
    else None
  }

  function ValidateProvenance(provenance: Json): Option<StorageError> {
    if provenance.NotAnObject? || provenance.fields == map[] then Some(InvalidProvenance) else None
  }

  function ValidateStackRequest(r: StackRequest): Option<StorageError> {
    if r.quantity <= 0 then Some(InvalidQuantity)
    else if r.def.version <= 0 then Some(InvalidDefinitionVersion)
    else match ValidateKeyAndSource(r.key, r.source)
      case Some(error) => Some(error)
      case None => ValidateProvenance(r.provenance)
  }

  function Recorded(s: State, operation: OperationId, key: string, p: PlayerId, payload: Payload): State {
    s.(events := s.events + [EventRow(operation, key, p, payload)])
  }

  // ---- stack delivery

  function ReplayStack(event: EventRow, r: StackRequest): Result<StackReceipt, StorageError> {
    if !event.payload.StackDelivered? then Err(MutationConflict)
    else if event.player != r.player || event.payload.delivered.request != r then Err(MutationConflict)
    else Ok(event.payload.delivered)
  }

  /** The stack in the bag when it fits, a pending delivery when it does not. */
  function PlaceStack(s: State, r: StackRequest, profile: Profile): Result<(State, StackReceipt), StorageError> {
    if r.def !in s.definitions || !s.definitions[r.def].stackable || s.definitions[r.def].stackLimit.None?
       || s.definitions[r.def].stackLimit.value <= 0
    then Err(InvalidDefinition)
    else
      var limit := s.definitions[r.def].stackLimit.value;
      var existing := QuantityOf(s.stacks, r.player, r.def);
      match (ItemBagCapacity(profile.itemBagLevel), UsedSlots(s, r.player), SlotsForQuantity(existing, limit),
             SlotsForQuantity(existing + r.quantity, limit))
      case (Some(capacity), Some(used), Some(before), Some(after)) =>
        if !InI64(existing + r.quantity) || !InU64(used - before) || !InU64(used - before + after) then Err(ArithmeticOverflow)
        else if used - before + after > capacity then
          var receipt := StackReceipt(s.nextId + 1, r, Some(s.nextId));
          var row := PendingRow(s.nextId, r.operation, r.key, r.player, r.def, r.quantity, ItemBag, None, true);
          Ok((s.(pending := s.pending + [row], nextId := s.nextId + 2), receipt))
        else
          var receipt := StackReceipt(s.nextId, r, None);
          Ok((s.(stacks := WithQuantity(s.stacks, r.player, r.def, existing + r.quantity), nextId := s.nextId + 1), receipt))
      case _ => Err(ArithmeticOverflow)
  }

  function DeliverStack(s: State, r: StackRequest): (State, Result<StackReceipt, StorageError>) {
    match ValidateStackRequest(r)
    case Some(error) => (s, Err(error))
    case None =>
      match CheckOperation(s, r.operation, r.player, false)
      case Some(error) => (s, Err(error))
      case None =>
        match FindEvent(s.events, r.operation, r.key)
        case Some(event) => (s, ReplayStack(event, r))
        case None =>
          if !s.operations[r.operation].pending then (s, Err(OperationTerminal))
          else match LockProfile(s, r.player)
            case Err(e) => (s, Err(e))
            case Ok(profile) =>
              match PlaceStack(s, r, profile)
              case Err(e) => (s, Err(e))
              case Ok((placed, receipt)) =>
                (Recorded(placed, r.operation, r.key, r.player, StackDelivered(receipt)), Ok(receipt))
  }

  // ---- stack consumption

  function ReplayConsumption(event: EventRow, r: StackRequest): Result<ConsumptionReceipt, StorageError> {
    if !event.payload.StackConsumed? then Err(MutationConflict)
    else
      var receipt := event.payload.consumed;
      if event.player != r.player || receipt.request != r || receipt.before < r.quantity
         || receipt.after != receipt.before - r.quantity
      then Err(MutationConflict)
      else Ok(receipt)
  }

  function ConsumeStack(s: State, r: StackRequest): (State, Result<ConsumptionReceipt, StorageError>) {
    match ValidateStackRequest(r)
    case Some(error) => (s, Err(error))
    case None =>
      match CheckOperation(s, r.operation, r.player, false)
      case Some(error) => (s, Err(error))
      case None =>
        match FindEvent(s.events, r.operation, r.key)
        case Some(event) => (s, ReplayConsumption(event, r))
        case None =>
          if !s.operations[r.operation].pending then (s, Err(OperationTerminal))
          else match LockProfile(s, r.player)
            case Err(e) => (s, Err(e))
            case Ok(_) =>
              if r.def !in s.definitions || !s.definitions[r.def].stackable then (s, Err(InvalidDefinition))
              else
                var before := QuantityOf(s.stacks, r.player, r.def);
                if before < r.quantity then (s, Err(InsufficientStack(before, r.quantity)))
                else
                  var receipt := ConsumptionReceipt(s.nextId, r, before, before - r.quantity);
                  var taken := s.(stacks := WithQuantity(s.stacks, r.player, r.def, before - r.quantity),
                                  nextId := s.nextId + 1);
                  (Recorded(taken, r.operation, r.key, r.player, StackConsumed(receipt)), Ok(receipt))
  }

  // ---- single items

  /** An open delivery of an item to the bag, from another operation of the player. */
  predicate EarlierPending(s: State, p: PlayerId, bag: Bag, operation: OperationId) {
    exists i :: 0 <= i < |s.pending| && var row := s.pending[i];
      row.player == p && row.open && row.bag == bag && row.operation != operation && (bag == ItemBag ==> row.item.Some?)
  }

  function BagPlace(bag: Bag): Place {
    match bag { case ItemBag => InItemBag case CatchBag => InCatchBag }
  }

  /** Inserts one item of the given size, into the bag when it fits and into overflow with a pending row otherwise. Returns
      the item and the pending row. */
  function PlaceItem(s: State, p: PlayerId, operation: OperationId, key: string, def: DefVersion, weight: Option<int>,
                     bag: Bag, size: int, profile: Profile): Result<(State, ItemId, Option<nat>), StorageError>
  {
    match (BagCapacity(profile, bag), Used(s, p, bag))
    case (None, Ok(_)) => Err(ArithmeticOverflow)
    case (None, Err(e)) => if bag == CatchBag then Err(e) else Err(ArithmeticOverflow)
    case (Some(_), Err(e)) => Err(e)
    case (Some(capacity), Ok(used)) =>
      if bag == ItemBag && !InU64(used + size) then Err(ArithmeticOverflow)
      else if used + size > capacity then
        var item := ItemRow(s.nextId, p, def, TempOverflow, weight);
        var row := PendingRow(s.nextId + 1, operation, key, p, def, 1, bag, Some(s.nextId), true);
        Ok((s.(items := s.items + [item], pending := s.pending + [row], nextId := s.nextId + 2), s.nextId, Some(s.nextId + 1)))
      else
        var item := ItemRow(s.nextId, p, def, BagPlace(bag), weight);
        Ok((s.(items := s.items + [item], nextId := s.nextId + 1), s.nextId, None))
  }

  function ValidateUniqueRequest(r: UniqueRequest): Option<StorageError> {
    if r.def.version <= 0 then Some(InvalidDefinitionVersion)
    else match ValidateKeyAndSource(r.key, r.source)
      case Some(error) => Some(error)
      case None => if r.state.NotAnObject? then Some(InvalidState) else ValidateProvenance(r.provenance)
  }

  function ReplayUnique(event: EventRow, r: UniqueRequest): Result<UniqueReceipt, StorageError> {
    if !event.payload.UniqueDelivered? then Err(MutationConflict)
    else if event.player != r.player || event.payload.unique.request != r then Err(MutationConflict)
    else Ok(event.payload.unique)
  }

  function DeliverUnique(s: State, r: UniqueRequest): (State, Result<UniqueReceipt, StorageError>) {
    match ValidateUniqueRequest(r)
    case Some(error) => (s, Err(error))
    case None =>
      match CheckOperation(s, r.operation, r.player, false)
      case Some(error) => (s, Err(error))
      case None =>
        match FindEvent(s.events, r.operation, r.key)
        case Some(event) => (s, ReplayUnique(event, r))
        case None =>
          if !s.operations[r.operation].pending then (s, Err(OperationTerminal))
          else match LockProfile(s, r.player)
            case Err(e) => (s, Err(e))
            case Ok(profile) =>
              if r.def !in s.definitions || s.definitions[r.def].stackable then (s, Err(InvalidDefinition))
              else if EarlierPending(s, r.player, ItemBag, r.operation) then (s, Err(EarlierPendingDelivery))
              else match PlaceItem(s, r.player, r.operation, r.key, r.def, None, ItemBag, 1, profile)
                case Err(e) => (s, Err(e))
                case Ok((placed, item, pendingId)) =>
                  var receipt := UniqueReceipt(placed.nextId, r, item, pendingId);
                  var next := placed.(nextId := placed.nextId + 1);
                  (Recorded(next, r.operation, r.key, r.player, UniqueDelivered(receipt)), Ok(receipt))
  }

  // ---- fish

  function Digit(n: nat): string
    requires n < 10
  {
    ["0123456789"[n]]
  }

  function FishKey(fishSlot: nat): string
    requires fishSlot < MAX_FISH_PER_CAST
  {
    "fishing:fish:slot:" + Digit(fishSlot) + ":delivery"
  }

  function ReplayFish(event: EventRow, p: PlayerId, r: FishRequest): Result<FishReceipt, StorageError> {
    if !event.payload.FishDelivered? then Err(InvalidStoredMutation)
    else if event.player != p || event.payload.fish.player != p || event.payload.fish.operation != event.operation
            || event.payload.fish.request != r
    then Err(MutationConflict)
    else Ok(event.payload.fish)
  }

  function DeliverFish(s: State, operation: OperationId, p: PlayerId,
                       r: FishRequest): (State, Result<FishReceipt, StorageError>) {
    if r.fishSlot >= MAX_FISH_PER_CAST then (s, Err(FishSlotOutOfRange))
    else match CheckOperation(s, operation, p, true)
      case Some(error) => (s, Err(error))
      case None =>
        match FindEvent(s.events, operation, FishKey(r.fishSlot))
        case Some(event) => (s, ReplayFish(event, p, r))
        case None =>
          if !s.operations[operation].pending then (s, Err(OperationTerminal))
          else match LockProfile(s, p)
            case Err(e) => (s, Err(e))
            case Ok(profile) =>
              if r.def !in s.definitions || !s.definitions[r.def].fish || !s.definitions[r.def].current
                 || s.definitions[r.def].stackable
              then (s, Err(InvalidDefinition))
              else if EarlierPending(s, p, CatchBag, operation) then (s, Err(EarlierPendingDelivery))
              else match PlaceItem(s, p, operation, FishKey(r.fishSlot), r.def, Some(r.weight), CatchBag, r.weight, profile)
                case Err(e) => (s, Err(e))
                case Ok((placed, item, pendingId)) =>
                  var receipt := FishReceipt(placed.nextId, operation, p, r, item, pendingId);
                  var next := placed.(nextId := placed.nextId + 1);
                  (Recorded(next, operation, FishKey(r.fishSlot), p, FishDelivered(receipt)), Ok(receipt))
  }

  // ---- claims

  /** The pending rows a claim looks at. */
  predicate Waiting(row: PendingRow, p: PlayerId, bag: Bag) {
    row.player == p && row.open && row.bag == bag && row.item.Some?
  }

  /** What an item takes of the bag. */
  function SizeIn(item: ItemRow, bag: Bag): int {
    match bag { case ItemBag => 1 case CatchBag => if item.weight.Some? then item.weight.value else 0 }
  }

  predicate Claimable(defs: map<DefVersion, Definition>, row: PendingRow, item: ItemRow, p: PlayerId, bag: Bag) {
    && item.owner == p && row.quantity == 1 && item.def == row.def && item.place == TempOverflow
    && (bag == CatchBag ==>
          item.def in defs && defs[item.def].fish && item.weight.Some? && 0 < item.weight.value)
  }

  datatype Claim = Claim(items: seq<ItemRow>, pending: seq<PendingRow>, claimed: seq<Claimed>, blocked: Option<nat>, used: int)

  /** Walks the pending rows in order and moves each waiting item until one does not fit. */
  function ClaimFrom(defs: map<DefVersion, Definition>, p: PlayerId, bag: Bag, capacity: int, c: Claim,
                     k: nat): Result<Claim, StorageError>
    requires k <= |c.pending|
    decreases |c.pending| - k
  {
    if k == |c.pending| then Ok(c)
    else
      var row := c.pending[k];
      if !Waiting(row, p, bag) then ClaimFrom(defs, p, bag, capacity, c, k + 1)
      else match FindItem(c.items, row.item.value)
        case None => ClaimFrom(defs, p, bag, capacity, c, k + 1)
        case Some(i) =>
          FindItemExact(c.items, row.item.value);
          var item := c.items[i];
          if !Claimable(defs, row, item, p, bag) then Err(PendingIntegrityMismatch)
          else if bag == ItemBag && !InU64(c.used + 1) then Err(ArithmeticOverflow)
          else if c.used + SizeIn(item, bag) > capacity then Ok(c.(blocked := Some(row.id)))
          else
            ClaimFrom(defs, p, bag, capacity,
                      Claim(c.items[i := item.(place := BagPlace(bag))], c.pending[k := row.(open := false)],
                            c.claimed + [Claimed(row.id, item.id)], None, c.used + SizeIn(item, bag)), k + 1)
  }

  function ClaimKey(bag: Bag): string {
    match bag { case ItemBag => UNIQUE_CLAIM_KEY case CatchBag => FISH_CLAIM_KEY }
  }

  function ReplayClaim(event: EventRow, p: PlayerId, bag: Bag): Result<ClaimReceipt, StorageError> {
    if !event.payload.BagClaimed? || event.payload.bag != bag then Err(InvalidStoredMutation)
    else
      var receipt := event.payload.claim;
      if event.player != p || receipt.operation != event.operation || receipt.player != p then Err(MutationConflict)
      else Ok(receipt)
  }

  function ClaimPending(s: State, operation: OperationId, p: PlayerId,
                        bag: Bag): (State, Result<ClaimReceipt, StorageError>) {
    match CheckOperation(s, operation, p, true)
    case Some(error) => (s, Err(error))
    case None =>
      match FindEvent(s.events, operation, ClaimKey(bag))
      case Some(event) => (s, ReplayClaim(event, p, bag))
      case None =>
        if !s.operations[operation].pending then (s, Err(OperationTerminal))
        else match LockProfile(s, p)
          case Err(e) => (s, Err(e))
          case Ok(profile) =>
            match BagCapacity(profile, bag)
            case None => (s, Err(ArithmeticOverflow))
            case Some(capacity) =>
              match Used(s, p, bag)
              case Err(e) => (s, Err(e))
              case Ok(used) =>
                match ClaimFrom(s.definitions, p, bag, capacity, Claim(s.items, s.pending, [], None, used), 0)
                case Err(e) => (s, Err(e))
                case Ok(c) =>
                  var receipt := ClaimReceipt(s.nextId, operation, p, c.claimed, c.blocked, c.used);
                  (Recorded(s.(items := c.items, pending := c.pending, nextId := s.nextId + 1),
                            operation, ClaimKey(bag), p, BagClaimed(bag, receipt)), Ok(receipt))
  }
}
