/** Whole histories of the storage tables. */
module StorageHistory {
  import opened Numbers
  import opened Sums
  import opened Text
  import opened Storage
  import opened StorageLaws
  import opened StorageRuns
  import opened StorageClaims

  /** The five keyed mutations, and what other services do to the tables they read. */
  datatype Command =
    | StackCommand(stack: StackRequest)
    | ConsumeCommand(consume: StackRequest)
    | UniqueCommand(unique: UniqueRequest)
    | FishCommand(operation: OperationId, player: PlayerId, fish: FishRequest)
    | ClaimCommand(owner: OperationId, claimant: PlayerId, bag: Bag)
    | OpenOperation(starting: OperationId, named: Option<PlayerId>)
    | CloseOperation(closed: OperationId)
    | SetStatus(account: PlayerId, status: Status)
    | UpgradeBags(upgraded: PlayerId, itemLevels: nat, catchLevels: nat)

  function Step(s: State, c: Command): State {
    match c
    case StackCommand(r) => DeliverStack(s, r).0
    case ConsumeCommand(r) => ConsumeStack(s, r).0
    case UniqueCommand(r) => DeliverUnique(s, r).0
    case FishCommand(operation, p, r) => DeliverFish(s, operation, p, r).0
    case ClaimCommand(operation, p, bag) => ClaimPending(s, operation, p, bag).0
    case OpenOperation(id, named) =>
      if id in s.operations then s else s.(operations := s.operations[id := Operation(named, true)])
    case CloseOperation(id) =>
      if id !in s.operations then s else s.(operations := s.operations[id := s.operations[id].(pending := false)])
    case SetStatus(p, status) => if p !in s.players then s else s.(players := s.players[p := s.players[p].(status := status)])
    case UpgradeBags(p, items, catches) =>
      if p !in s.players then s
      else
        var profile := s.players[p];
        s.(players := s.players[p := profile.(itemBagLevel := profile.itemBagLevel + items,
                                              catchBagLevel := profile.catchBagLevel + catches)])
  }

  function Run(s: State, commands: seq<Command>): State
    decreases |commands|
  {
    if commands == [] then s else Run(Step(s, commands[0]), commands[1..])
  }

  /** The operation and mutation key a command acts under. */
  datatype Key = Key(operation: OperationId, mutation: string)

  function KeyOf(c: Command): Option<Key> {
    match c
    case StackCommand(r) => Some(Key(r.operation, r.key))
    case ConsumeCommand(r) => Some(Key(r.operation, r.key))
    case UniqueCommand(r) => Some(Key(r.operation, r.key))
    case FishCommand(operation, _, r) =>
      if r.fishSlot < MAX_FISH_PER_CAST then Some(Key(operation, FishKey(r.fishSlot))) else None
    case ClaimCommand(operation, _, bag) => Some(Key(operation, ClaimKey(bag)))
    case _ => None
  }

  predicate KeyUsed(s: State, k: Key) {
    FindEvent(s.events, k.operation, k.mutation).Some?
  }

  // ---- one step

  /** Events are only ever added, and operations keep the player they name. */
  ghost predicate Grows(s: State, after: State) {
    && s.events <= after.events
    && forall id :: id in s.operations ==> id in after.operations && after.operations[id].player == s.operations[id].player
  }

  lemma StepActs(s: State, c: Command)
    requires Invariant(s) && KeyOf(c).Some?
    ensures Acts(s, Step(s, c), false, KeyOf(c).value.operation, KeyOf(c).value.mutation)
  {
    hide DeliverStack, ConsumeStack, DeliverUnique, DeliverFish, ClaimPending, Invariant, Conserves, FishKey, ClaimKey;
    match c
    case StackCommand(r) => DeliverStackKeeps(s, r);
    case ConsumeCommand(r) => ConsumeStackKeeps(s, r);
    case UniqueCommand(r) => DeliverUniqueKeeps(s, r);
    case FishCommand(operation, p, r) => DeliverFishKeeps(s, operation, p, r);
    case ClaimCommand(operation, p, bag) => ClaimKeeps(s, operation, p, bag);
    case _ =>
  }

  lemma OtherKeeps(s: State, c: Command)
    requires Invariant(s) && KeyOf(c).None?
    ensures Invariant(Step(s, c)) && Conserves(s, Step(s, c)) && Grows(s, Step(s, c))
  {
    hide FishKey, ClaimKey, Invariant, Conserves;
    InvariantCapacity(s);
    if c.FishCommand? {
      assert Step(s, c) == s;
      SameTables(s, s);
    } else {
      OtherCapacity(s, c);
      SameTables(s, Step(s, c));
    }
  }

  lemma InvariantCapacity(s: State)
    requires Invariant(s)
    ensures WithinCapacity(s)
  {
    hide ValidStacks, ValidItems, Matched, SingleSource, FishPending, ValidEvents, WithinCapacity;
  }

  lemma SameTables(s: State, after: State)
    requires Invariant(s) && WithinCapacity(after)
    requires after == s.(players := after.players, operations := after.operations)
    ensures Invariant(after) && Conserves(s, after)
  {
    hide ValidEvent, StackLimit, Sum, WithinCapacity, Matched, SingleSource;
    SameMatched(s, after);
  }

  lemma OtherCapacity(s: State, c: Command)
    requires WithinCapacity(s) && KeyOf(c).None? && !c.FishCommand?
    ensures WithinCapacity(Step(s, c))
  {
    hide Sum, FishKey, ClaimKey;
    var after := Step(s, c);
    assert forall p, bag :: Load(after, p, bag) == Load(s, p, bag);
  }

  lemma StepKeeps(s: State, c: Command)
    requires Invariant(s)
    ensures Invariant(Step(s, c)) && Conserves(s, Step(s, c)) && Grows(s, Step(s, c))
  {
    hide Step, Invariant, Conserves;
    if KeyOf(c).Some? {
      StepActs(s, c);
    } else {
      OtherKeeps(s, c);
    }
  }

  /** In every run no bag exceeds its capacity, overflow items and open deliveries stay one-to-one, the open deliveries of a
      player to a bag come from one operation, and what a player holds of a definition is what was delivered less what was
      consumed. */
  lemma {:induction false} RunKeeps(s: State, commands: seq<Command>)
    requires Invariant(s)
    ensures Invariant(Run(s, commands)) && Conserves(s, Run(s, commands)) && Grows(s, Run(s, commands))
    decreases |commands|
  {
    hide Step, Invariant, Holdings, Net;
    if commands == [] {
    } else {
      StepKeeps(s, commands[0]);
      RunKeeps(Step(s, commands[0]), commands[1..]);
    }
  }

  // ---- each key takes effect at most once

  lemma {:induction false} FoundEarlier(events: seq<EventRow>, longer: seq<EventRow>, operation: OperationId,
                                        key: string)
    requires events <= longer && FindEvent(events, operation, key).Some?
    ensures FindEvent(longer, operation, key) == FindEvent(events, operation, key)
  {
    if events[0].operation != operation || events[0].key != key {
      FoundEarlier(events[1..], longer[1..], operation, key);
    }
  }

  lemma {:induction false} FoundLast(events: seq<EventRow>, e: EventRow)
    requires FindEvent(events, e.operation, e.key).None?
    ensures FindEvent(events + [e], e.operation, e.key) == Some(e)
  {
    if events == [] {
    } else {
      FoundLast(events[1..], e);
      assert (events + [e])[1..] == events[1..] + [e];
    }
  }

  /** A command under a key that is in use changes nothing, whatever kind of mutation used the key first; a command that
      changes something leaves its key used. */
  lemma KeyedStep(s: State, c: Command)
    requires Invariant(s) && KeyOf(c).Some?
    ensures KeyUsed(s, KeyOf(c).value) ==> Step(s, c) == s
    ensures Step(s, c) != s ==> KeyUsed(Step(s, c), KeyOf(c).value)
  {
    hide Step, Invariant, KeyOf, Conserves;
    StepActs(s, c);
    var after, k := Step(s, c), KeyOf(c).value;
    if after != s {
      var e := after.events[|s.events|];
      assert after.events == s.events + [e];
      FoundLast(s.events, e);
    }
  }

  /** Of all the commands of a run under one key at most one has any effect. */
  lemma AtMostOnce(s: State, before: seq<Command>, first: Command, between: seq<Command>, second: Command)
    requires Invariant(s) && KeyOf(first).Some? && KeyOf(first) == KeyOf(second)
    requires Step(Run(s, before), first) != Run(s, before)
    ensures var later := Run(Step(Run(s, before), first), between);
      Step(later, second) == later
  {
    hide Step, Invariant, KeyOf, Run, Conserves;
    var here := Run(s, before);
    RunKeeps(s, before);
    KeyedStep(here, first);
    StepKeeps(here, first);
    var acted, k := Step(here, first), KeyOf(first).value;
    RunKeeps(acted, between);
    var later := Run(acted, between);
    FoundEarlier(acted.events, later.events, k.operation, k.mutation);
    KeyedStep(later, second);
  }

  /** Whether the event was written by the same kind of mutation as the command asks for. */
  predicate SameKind(payload: Payload, c: Command) {
    match c
    case StackCommand(_) => payload.StackDelivered?
    case ConsumeCommand(_) => payload.StackConsumed?
    case UniqueCommand(_) => payload.UniqueDelivered?
    case FishCommand(_, _, _) => payload.FishDelivered?
    case ClaimCommand(_, _, bag) => payload.BagClaimed? && payload.bag == bag
    case _ => false
  }

  /** The error a command ends with, if any. */
  function ErrorOf(s: State, c: Command): Option<StorageError> {
    match c
    case StackCommand(r) => Failure(DeliverStack(s, r).1)
    case ConsumeCommand(r) => Failure(ConsumeStack(s, r).1)
    case UniqueCommand(r) => Failure(DeliverUnique(s, r).1)
    case FishCommand(operation, p, r) => Failure(DeliverFish(s, operation, p, r).1)
    case ClaimCommand(operation, p, bag) => Failure(ClaimPending(s, operation, p, bag).1)
    case _ => None
  }

  function Failure<T>(r: Result<T, StorageError>): Option<StorageError> {
    match r { case Ok(_) => None case Err(e) => Some(e) }
  }

  /** The checks before the event table is read: the request's own form, and the operation and player it names. */
  predicate Admitted(s: State, c: Command) {
    match c
    case StackCommand(r) => ValidateStackRequest(r) == None && CheckOperation(s, r.operation, r.player, false) == None
    case ConsumeCommand(r) => ValidateStackRequest(r) == None && CheckOperation(s, r.operation, r.player, false) == None
    case UniqueCommand(r) => ValidateUniqueRequest(r) == None && CheckOperation(s, r.operation, r.player, false) == None
    case FishCommand(operation, p, _) => CheckOperation(s, operation, p, true) == None
    case ClaimCommand(operation, p, _) => CheckOperation(s, operation, p, true) == None
    case _ => true
  }

  /** How a command reports an event of another kind: item services compare kinds first, fish and claims read the payload. */
  function KindError(c: Command): StorageError {
    if c.FishCommand? || c.ClaimCommand? then InvalidStoredMutation else MutationConflict
  }

  /** An event of another kind under the key: the command is refused, and names the mismatch unless it fails earlier. */
  lemma OtherKindRefused(s: State, c: Command)
    requires KeyOf(c).Some? && KeyUsed(s, KeyOf(c).value)
    requires !SameKind(FindEvent(s.events, KeyOf(c).value.operation, KeyOf(c).value.mutation).value.payload, c)
    ensures ErrorOf(s, c).Some? && (Admitted(s, c) ==> ErrorOf(s, c) == Some(KindError(c))) && Step(s, c) == s
  {
    hide FishKey, ClaimKey, FindEvent, ValidateStackRequest, ValidateUniqueRequest, CheckOperation;
  }

  lemma ActedKind(s: State, c: Command)
    requires Invariant(s) && KeyOf(c).Some? && Step(s, c) != s
    ensures |Step(s, c).events| == |s.events| + 1 && SameKind(Step(s, c).events[|s.events|].payload, c)
  {
    hide Invariant, Conserves, ValidateStackRequest, ValidateUniqueRequest, CheckOperation, LockProfile, PlaceStack,
         PlaceItem,
         ClaimFrom, Used, BagCapacity, QuantityOf, WithQuantity, EarlierPending, FindEvent, FishKey, ClaimKey;
    StepActs(s, c);
  }

  /** A key one kind of mutation has used is refused to every other kind from then on, with the error its kind reports. */
  lemma KeysNeverShared(s: State, first: Command, between: seq<Command>, second: Command)
    requires Invariant(s) && KeyOf(first).Some? && KeyOf(first) == KeyOf(second) && Step(s, first) != s
    requires forall payload :: SameKind(payload, first) ==> !SameKind(payload, second)
    ensures var later := Run(Step(s, first), between);
      && ErrorOf(later, second).Some? && Step(later, second) == later
      && (Admitted(later, second) ==> ErrorOf(later, second) == Some(KindError(second)))
  {
    hide Step, Invariant, KeyOf, Run, Conserves, ErrorOf, SameKind, Admitted;
    ActedKind(s, first);
    StepActs(s, first);
    StepKeeps(s, first);
    var acted, k := Step(s, first), KeyOf(first).value;
    var e := acted.events[|s.events|];
    assert acted.events == s.events + [e];
    FoundLast(s.events, e);
    RunKeeps(acted, between);
    FoundEarlier(acted.events, Run(acted, between).events, k.operation, k.mutation);
    OtherKindRefused(Run(acted, between), second);
  }

  /** A claim reports an unreadable event exactly when its key holds an event of another kind on an operation that names the
      player, and then changes nothing. */
  lemma ClaimUnreadableExactly(s: State, operation: OperationId, p: PlayerId, bag: Bag)
    requires Invariant(s)
    ensures ClaimPending(s, operation, p, bag).1 == Err(InvalidStoredMutation)
        <==> && CheckOperation(s, operation, p, true) == None && FindEvent(s.events, operation, ClaimKey(bag)).Some?
             && var payload := FindEvent(s.events, operation, ClaimKey(bag)).value.payload;
                !(payload.BagClaimed? && payload.bag == bag)
    ensures ClaimPending(s, operation, p, bag).1.Err? ==> ClaimPending(s, operation, p, bag).0 == s
  {
    hide ClaimKey, Invariant, ClaimFrom, BagCapacity, GramsFrom, UsedSlots;
    GramsErrors(s.items, p);
    if p in s.players && BagCapacity(s.players[p], bag).Some? && Used(s, p, bag).Ok? {
      ClaimErrors(s.definitions, p, bag, BagCapacity(s.players[p], bag).value,
                  Claim(s.items, s.pending, [], None, Used(s, p, bag).value), 0);
    }
  }

  lemma {:induction false} GramsErrors(items: seq<ItemRow>, p: PlayerId)
    ensures GramsFrom(items, p).Err? ==> GramsFrom(items, p).error == PendingIntegrityMismatch
  {
    if items == [] {
    } else {
      GramsErrors(items[1..], p);
    }
  }

  lemma {:induction false} ClaimErrors(defs: map<DefVersion, Definition>, p: PlayerId, bag: Bag, capacity: int,
                                       c: Claim, k: nat)
    requires k <= |c.pending|
    ensures var r := ClaimFrom(defs, p, bag, capacity, c, k);
      r.Err? ==> r.error in {PendingIntegrityMismatch, ArithmeticOverflow}
    decreases |c.pending| - k
  {
    hide Claimable, SizeIn;
    if k == |c.pending| {
    } else {
      var row := c.pending[k];
      ClaimErrors(defs, p, bag, capacity, c, k + 1);
      if Waiting(row, p, bag) && FindItem(c.items, row.item.value).Some? {
        FindItemExact(c.items, row.item.value);
        var i := FindItem(c.items, row.item.value).value;
        var item := c.items[i];
        ClaimErrors(defs, p, bag, capacity,
                    Claim(c.items[i := item.(place := BagPlace(bag))], c.pending[k := row.(open := false)],
                          c.claimed + [Claimed(row.id, item.id)], None, c.used + SizeIn(item, bag)), k + 1);
      }
    }
  }

  /** One active player with a pending operation, and a definition that stacks. */
  function ExampleState(): State {
    State(map[1 := Profile(Active, 0, 0)], map[1 := Operation(Some(1), true)],
          map[DefVersion("apple", 1) := Definition(true, Some(64), false, true)], [], [], [], [], 1)
  }

  /** A stack delivery whose caller chose the claim's own mutation key. */
  function ExampleDelivery(): StackRequest {
    StackRequest(1, 1, UNIQUE_CLAIM_KEY, DefVersion("apple", 1), 1, "shop", Object(map["reason" := "gift"]))
  }

  lemma {:induction false} AsciiLength(text: string)
    requires forall i :: 0 <= i < |text| ==> text[i] < '\U{80}'
    ensures Utf8Length(text) == |text|
  {
    if text == [] {
    } else {
      AsciiLength(text[1..]);
    }
  }

  lemma ExampleAdmitted()
    ensures ValidateStackRequest(ExampleDelivery()) == None
  {
    hide Utf8Length, IsWhiteSpace;
    NotWhite('i');
    NotWhite('s');
    AsciiLength(UNIQUE_CLAIM_KEY);
    AsciiLength("shop");
    assert UNIQUE_CLAIM_KEY[0] == 'i' && "shop"[0] == 's';
    assert "reason" in map["reason" := "gift"];
  }

  lemma ExampleValid()
    ensures Invariant(ExampleState())
  {
    hide FishKey, ClaimKey;
    var s := ExampleState();
    assert forall bag :: Load(s, 1, bag) == 0;
  }

  lemma NotWhite(c: char)
    requires '!' <= c <= '~'
    ensures !IsWhiteSpace(c)
  {
  }

  /** Both orders of such a run: the claim after the delivery finds an event it cannot read, the delivery after the claim a
      conflict, and neither changes anything. */
  lemma SharedKeyExample()
    ensures var (s, r) := (ExampleState(), ExampleDelivery());
      var (delivered, claimed) := (DeliverStack(s, r).0, ClaimPending(s, 1, 1, ItemBag).0);
      && Invariant(s)
      && DeliverStack(s, r).1.Ok? && ClaimPending(delivered, 1, 1, ItemBag) == (delivered, Err(InvalidStoredMutation))
      && ClaimPending(s, 1, 1, ItemBag).1.Ok? && DeliverStack(claimed, r) == (claimed, Err(MutationConflict))
  {
    hide DeliverStack, ClaimPending, Invariant;
    ExampleValid();
    ExampleDelivered();
    ExampleClaimed();
  }

  lemma ExampleDelivered()
    ensures var (s, r) := (ExampleState(), ExampleDelivery());
      var delivered := DeliverStack(s, r).0;
      DeliverStack(s, r).1.Ok? && ClaimPending(delivered, 1, 1, ItemBag) == (delivered, Err(InvalidStoredMutation))
  {
    hide ValidateStackRequest, PlaceStack, FindEvent, LockProfile, Invariant, Conserves;
    ExampleAdmitted();
    ExampleLocked();
    ExamplePlaced();
    var (s, r) := (ExampleState(), ExampleDelivery());
    assert FindEvent(s.events, 1, UNIQUE_CLAIM_KEY) == None by {
      FindEventExact(s.events, 1, UNIQUE_CLAIM_KEY);
    }
    assert DeliverStack(s, r).1.Ok?;
    StackStored(s, r);
    ExampleValid();
    DeliverStackKeeps(s, r);
    ClaimUnreadable(DeliverStack(s, r).0, 1, 1, ItemBag);
  }

  lemma ClaimUnreadable(s: State, operation: OperationId, p: PlayerId, bag: Bag)
    requires CheckOperation(s, operation, p, true) == None && FindEvent(s.events, operation, ClaimKey(bag)).Some?
    requires !FindEvent(s.events, operation, ClaimKey(bag)).value.payload.BagClaimed?
    ensures ClaimPending(s, operation, p, bag) == (s, Err(InvalidStoredMutation))
  {
    hide FindEvent, ClaimKey, CheckOperation;
  }

  lemma ExampleLocked()
    ensures LockProfile(ExampleState(), 1) == Ok(Profile(Active, 0, 0))
  {
  }

  lemma ExamplePlaced()
    ensures PlaceStack(ExampleState(), ExampleDelivery(), Profile(Active, 0, 0)).Ok?
  {
    assert UsedSlots(ExampleState(), 1) == Some(0);
  }

  lemma ExampleClaimed()
    ensures var (s, r) := (ExampleState(), ExampleDelivery());
      var claimed := ClaimPending(s, 1, 1, ItemBag).0;
      ClaimPending(s, 1, 1, ItemBag).1.Ok? && DeliverStack(claimed, r) == (claimed, Err(MutationConflict))
  {
    hide ValidateStackRequest, PlaceStack, FindEvent, LockProfile;
    ExampleAdmitted();
    ExampleLocked();
    var s := ExampleState();
    assert UsedSlots(s, 1) == Some(0);
    assert FindEvent(s.events, 1, UNIQUE_CLAIM_KEY) == None by {
      FindEventExact(s.events, 1, UNIQUE_CLAIM_KEY);
    }
    var claimed := ClaimPending(s, 1, 1, ItemBag).0;
    FoundLast(s.events, claimed.events[0]);
  }

  // ---- replays

  lemma CheckLater(s: State, later: State, operation: OperationId, p: PlayerId, mustName: bool)
    requires Grows(s, later) && CheckOperation(s, operation, p, mustName) == None
    ensures CheckOperation(later, operation, p, mustName) == None
  {
  }

  lemma StackStored(s: State, r: StackRequest)
    requires DeliverStack(s, r).1.Ok?
    ensures var (after, result) := DeliverStack(s, r);
      && ValidateStackRequest(r) == None && CheckOperation(after, r.operation, r.player, false) == None
      && FindEvent(after.events, r.operation, r.key).Some?
      && ReplayStack(FindEvent(after.events, r.operation, r.key).value, r) == Ok(result.value)
  {
    hide ValidateStackRequest, UsedSlots, WithQuantity, QuantityOf, SlotsForQuantity;
    if FindEvent(s.events, r.operation, r.key).None? {
      FoundLast(s.events, EventRow(r.operation, r.key, r.player, StackDelivered(DeliverStack(s, r).1.value)));
    }
  }

  /** A command is refused without effect, as a conflict once its own form and its operation are in order. */
  ghost predicate Conflicts(s: State, c: Command) {
    ErrorOf(s, c).Some? && Step(s, c) == s && (Admitted(s, c) ==> ErrorOf(s, c) == Some(MutationConflict))
  }

  lemma OtherStack(s: State, r: StackRequest, other: StackRequest)
    requires FindEvent(s.events, r.operation, r.key).Some?
    requires ReplayStack(FindEvent(s.events, r.operation, r.key).value, r).Ok?
    requires other != r && other.operation == r.operation && other.key == r.key
    ensures Conflicts(s, StackCommand(other))
  {
    hide ValidateStackRequest, FindEvent;
  }

  /** A stack delivery that succeeded is replayed from then on: the same receipt, and nothing delivered again; any other
      delivery under its key is a conflict. */
  lemma StackForever(s: State, r: StackRequest, commands: seq<Command>, other: StackRequest)
    requires Invariant(s) && DeliverStack(s, r).1.Ok?
    ensures var (after, result) := DeliverStack(s, r);
      var later := Run(after, commands);
      && DeliverStack(later, r) == (later, result)
      && (other != r && other.operation == r.operation && other.key == r.key ==> Conflicts(later, StackCommand(other)))
  {
    hide Run, Invariant, Conserves, ValidateStackRequest, ReplayStack, PlaceStack, Conflicts;
    var (after, result) := DeliverStack(s, r);
    StackStored(s, r);
    DeliverStackKeeps(s, r);
    RunKeeps(after, commands);
    var later := Run(after, commands);
    FoundEarlier(after.events, later.events, r.operation, r.key);
    CheckLater(after, later, r.operation, r.player, false);
    if other != r && other.operation == r.operation && other.key == r.key {
      OtherStack(later, r, other);
    }
  }

  lemma ConsumptionStored(s: State, r: StackRequest)
    requires Invariant(s) && ConsumeStack(s, r).1.Ok?
    ensures var (after, result) := ConsumeStack(s, r);
      && ValidateStackRequest(r) == None && CheckOperation(after, r.operation, r.player, false) == None
      && FindEvent(after.events, r.operation, r.key).Some?
      && ReplayConsumption(FindEvent(after.events, r.operation, r.key).value, r) == Ok(result.value)
  {
    hide ValidateStackRequest, WithQuantity, QuantityOf, Invariant;
    if FindEvent(s.events, r.operation, r.key).None? {
      FoundLast(s.events, EventRow(r.operation, r.key, r.player, StackConsumed(ConsumeStack(s, r).1.value)));
    }
  }

  lemma OtherConsumption(s: State, r: StackRequest, other: StackRequest)
    requires FindEvent(s.events, r.operation, r.key).Some?
    requires ReplayConsumption(FindEvent(s.events, r.operation, r.key).value, r).Ok?
    requires other != r && other.operation == r.operation && other.key == r.key
    ensures Conflicts(s, ConsumeCommand(other))
  {
    hide ValidateStackRequest, FindEvent;
  }

  lemma ConsumptionForever(s: State, r: StackRequest, commands: seq<Command>, other: StackRequest)
    requires Invariant(s) && ConsumeStack(s, r).1.Ok?
    ensures var (after, result) := ConsumeStack(s, r);
      var later := Run(after, commands);
      && ConsumeStack(later, r) == (later, result)
      && (other != r && other.operation == r.operation && other.key == r.key ==> Conflicts(later, ConsumeCommand(other)))
  {
    hide Run, Invariant, Conserves, ValidateStackRequest, ReplayConsumption, QuantityOf, WithQuantity, Conflicts;
    var (after, result) := ConsumeStack(s, r);
    ConsumptionStored(s, r);
    ConsumeStackKeeps(s, r);
    RunKeeps(after, commands);
    var later := Run(after, commands);
    FoundEarlier(after.events, later.events, r.operation, r.key);
    CheckLater(after, later, r.operation, r.player, false);
    if other != r && other.operation == r.operation && other.key == r.key {
      OtherConsumption(later, r, other);
    }
  }

  lemma UniqueStored(s: State, r: UniqueRequest)
    requires DeliverUnique(s, r).1.Ok?
    ensures var (after, result) := DeliverUnique(s, r);
      && ValidateUniqueRequest(r) == None && CheckOperation(after, r.operation, r.player, false) == None
      && FindEvent(after.events, r.operation, r.key).Some?
      && ReplayUnique(FindEvent(after.events, r.operation, r.key).value, r) == Ok(result.value)
  {
    hide ValidateUniqueRequest, Used, BagCapacity, EarlierPending;
    if FindEvent(s.events, r.operation, r.key).None? {
      FoundLast(s.events, EventRow(r.operation, r.key, r.player, UniqueDelivered(DeliverUnique(s, r).1.value)));
    }
  }

  lemma OtherUnique(s: State, r: UniqueRequest, other: UniqueRequest)
    requires FindEvent(s.events, r.operation, r.key).Some?
    requires ReplayUnique(FindEvent(s.events, r.operation, r.key).value, r).Ok?
    requires other != r && other.operation == r.operation && other.key == r.key
    ensures Conflicts(s, UniqueCommand(other))
  {
    hide ValidateUniqueRequest, FindEvent;
  }

  lemma UniqueForever(s: State, r: UniqueRequest, commands: seq<Command>, other: UniqueRequest)
    requires Invariant(s) && DeliverUnique(s, r).1.Ok?
    ensures var (after, result) := DeliverUnique(s, r);
      var later := Run(after, commands);
      && DeliverUnique(later, r) == (later, result)
      && (other != r && other.operation == r.operation && other.key == r.key ==> Conflicts(later, UniqueCommand(other)))
  {
    hide Run, Invariant, Conserves, ValidateUniqueRequest, ReplayUnique, PlaceItem, EarlierPending, Conflicts;
    var (after, result) := DeliverUnique(s, r);
    UniqueStored(s, r);
    DeliverUniqueKeeps(s, r);
    RunKeeps(after, commands);
    var later := Run(after, commands);
    FoundEarlier(after.events, later.events, r.operation, r.key);
    CheckLater(after, later, r.operation, r.player, false);
    if other != r && other.operation == r.operation && other.key == r.key {
      OtherUnique(later, r, other);
    }
  }

  lemma FishStored(s: State, operation: OperationId, p: PlayerId, r: FishRequest)
    requires Invariant(s) && DeliverFish(s, operation, p, r).1.Ok?
    ensures var (after, result) := DeliverFish(s, operation, p, r);
      && r.fishSlot < MAX_FISH_PER_CAST && CheckOperation(after, operation, p, true) == None
      && FindEvent(after.events, operation, FishKey(r.fishSlot)).Some?
      && ReplayFish(FindEvent(after.events, operation, FishKey(r.fishSlot)).value, p, r) == Ok(result.value)
  {
    hide Used, BagCapacity, EarlierPending, Invariant, FishKey;
    if FindEvent(s.events, operation, FishKey(r.fishSlot)).None? {
      FoundLast(s.events,
                EventRow(operation, FishKey(r.fishSlot), p, FishDelivered(DeliverFish(s, operation, p, r).1.value)));
    }
  }

  lemma OtherFish(s: State, operation: OperationId, p: PlayerId, r: FishRequest, p': PlayerId, other: FishRequest)
    requires r.fishSlot < MAX_FISH_PER_CAST && FindEvent(s.events, operation, FishKey(r.fishSlot)).Some?
    requires ReplayFish(FindEvent(s.events, operation, FishKey(r.fishSlot)).value, p, r).Ok?
    requires (p', other) != (p, r) && other.fishSlot == r.fishSlot
    ensures Conflicts(s, FishCommand(operation, p', other))
  {
    hide FindEvent, FishKey;
  }

  lemma FishForever(s: State, operation: OperationId, p: PlayerId, r: FishRequest, commands: seq<Command>, p': PlayerId,
                    other: FishRequest)
    requires Invariant(s) && DeliverFish(s, operation, p, r).1.Ok?
    ensures var (after, result) := DeliverFish(s, operation, p, r);
      var later := Run(after, commands);
      && DeliverFish(later, operation, p, r) == (later, result)
      && ((p', other) != (p, r) && other.fishSlot == r.fishSlot ==> Conflicts(later, FishCommand(operation, p', other)))
  {
    hide Run, Invariant, Conserves, ReplayFish, PlaceItem, EarlierPending, FishKey, Conflicts;
    var (after, result) := DeliverFish(s, operation, p, r);
    FishStored(s, operation, p, r);
    DeliverFishKeeps(s, operation, p, r);
    RunKeeps(after, commands);
    var later := Run(after, commands);
    FoundEarlier(after.events, later.events, operation, FishKey(r.fishSlot));
    CheckLater(after, later, operation, p, true);
    if (p', other) != (p, r) && other.fishSlot == r.fishSlot {
      OtherFish(later, operation, p, r, p', other);
    }
  }

  lemma ClaimStored(s: State, operation: OperationId, p: PlayerId, bag: Bag)
    requires Invariant(s) && ClaimPending(s, operation, p, bag).1.Ok?
    ensures var (after, result) := ClaimPending(s, operation, p, bag);
      && CheckOperation(after, operation, p, true) == None && FindEvent(after.events, operation, ClaimKey(bag)).Some?
      && ReplayClaim(FindEvent(after.events, operation, ClaimKey(bag)).value, p, bag) == Ok(result.value)
  {
    hide Used, BagCapacity, ClaimFrom, ClaimKey, Invariant;
    if FindEvent(s.events, operation, ClaimKey(bag)).None? {
      FoundLast(s.events,
                EventRow(operation, ClaimKey(bag), p, BagClaimed(bag, ClaimPending(s, operation, p, bag).1.value)));
    }
  }

  lemma ClaimForever(s: State, operation: OperationId, p: PlayerId, bag: Bag, commands: seq<Command>)
    requires Invariant(s) && ClaimPending(s, operation, p, bag).1.Ok?
    ensures var (after, result) := ClaimPending(s, operation, p, bag);
      var later := Run(after, commands);
      ClaimPending(later, operation, p, bag) == (later, result)
  {
    hide Run, Invariant, Conserves, ReplayClaim, ClaimFrom, Used, BagCapacity, ClaimKey;
    var (after, result) := ClaimPending(s, operation, p, bag);
    ClaimStored(s, operation, p, bag);
    ClaimKeeps(s, operation, p, bag);
    RunKeeps(after, commands);
    var later := Run(after, commands);
    FoundEarlier(after.events, later.events, operation, ClaimKey(bag));
    CheckLater(after, later, operation, p, true);
  }
}
