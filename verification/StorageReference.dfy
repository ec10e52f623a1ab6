/** When the storage calls go through and what they then do, written down on the fields of the tables. */
module StorageReference {
  import opened Numbers
  import opened Products
  import opened Sums
  import opened Text
  import opened Storage
  import opened StorageLaws
  import opened StorageRuns
  import opened StorageClaims

  // ---- what every call needs

  /** No event is stored under the operation and mutation key. */
  ghost predicate FreeKey(s: State, operation: OperationId, key: string) {
    forall e <- s.events :: e.operation == operation ==> e.key != key
  }

  /** Text of at most 128 bytes that is not all white space. */
  predicate Named(text: string) {
    (exists c <- text :: !IsWhiteSpace(c)) && Utf8Length(text) <= 128
  }

  /** Provenance is an object with at least one field. */
  predicate Explained(provenance: Json) {
    provenance.Object? && provenance.fields.Keys != {}
  }

  /** The first reason in the request's own text. */
  function TextRefusal(version: int, key: string, source: string): Option<StorageError> {
    if version <= 0 then Some(InvalidDefinitionVersion)
    else if !Named(key) then Some(InvalidMutationKey)
    else if !Named(source) then Some(InvalidSource)
    else None
  }

  /** The first reason in the operation and the player; a strict call needs an operation that names its player. */
  function CallRefusal(s: State, operation: OperationId, p: PlayerId, strict: bool): Option<StorageError> {
    if operation !in s.operations then Some(OperationNotFound)
    else if s.operations[operation].player != Some(p) && (strict || s.operations[operation].player.Some?)
    then Some(OperationPlayerMismatch)
    else if !s.operations[operation].pending then Some(OperationTerminal)
    else if p !in s.players || s.players[p].status == Deleted then Some(PlayerNotFound)
    else if s.players[p].status != Active then Some(AccountFrozen(s.players[p].status))
    else None
  }

  /** The first of two reasons. */
  function Either(a: Option<StorageError>, b: Option<StorageError>): Option<StorageError> {
    if a.Some? then a else b
  }

  /** What a bag holds at most: 36 slots and 6 more a level, or a tonne and a quarter of a tonne more a level. */
  function Room(profile: Profile, bag: Bag): int {
    match bag
    case ItemBag => 36 + 6 * profile.itemBagLevel
    case CatchBag => 1_000_000 + 250_000 * profile.catchBagLevel
  }

  /** The size of the bag fits the machine: slots are counted in u64, grams in i64. */
  predicate RoomFits(profile: Profile, bag: Bag) {
    match bag
    case ItemBag => 0 <= profile.itemBagLevel && Room(profile, bag) <= U64_MAX
    case CatchBag => 0 <= profile.catchBagLevel && Room(profile, bag) <= I64_MAX
  }

  lemma RoomIsLimit(profile: Profile, bag: Bag)
    ensures Limit(profile, bag) == Room(profile, bag)
    ensures BagCapacity(profile, bag) == if RoomFits(profile, bag) then Some(Room(profile, bag)) else None
  {
  }

  lemma TextChecked(version: int, key: string, source: string)
    ensures (if version <= 0 then Some(InvalidDefinitionVersion) else ValidateKeyAndSource(key, source))
         == TextRefusal(version, key, source)
  {
    hide IsWhiteSpace, Utf8Length;
    BlankText(key);
    BlankText(source);
  }

  lemma BlankText(text: string)
    ensures Blank(text) <==> !exists c <- text :: !IsWhiteSpace(c)
  {
    hide IsWhiteSpace;
    if !Blank(text) {
      var i :| 0 <= i < |text| && !IsWhiteSpace(text[i]);
      assert text[i] in text;
    }
  }

  lemma ProvenanceChecked(provenance: Json)
    ensures ValidateProvenance(provenance) == if Explained(provenance) then None else Some(InvalidProvenance)
  {
    if provenance.Object? {
      assert provenance.fields.Keys == {} <==> provenance.fields == map[];
    }
  }

  lemma FreeKeyFound(s: State, operation: OperationId, key: string)
    requires FreeKey(s, operation, key)
    ensures FindEvent(s.events, operation, key) == None
  {
    FindEventExact(s.events, operation, key);
  }

  // ---- stacks

  /** What the player has of a definition in the bag. */
  function Stacked(s: State, p: PlayerId, def: DefVersion): int {
    Sum(QuantityList(s.stacks, p, def))
  }

  /** Slots in use once a player's stack of the definition has this quantity. */
  function LoadWith(s: State, p: PlayerId, def: DefVersion, quantity: int): int {
    Load(s, p, ItemBag) - SlotsOf(s.definitions, def, Stacked(s, p, def)) + SlotsOf(s.definitions, def, quantity)
  }

  /** The first reason to refuse a stack delivery or consumption under a free key. */
  function StackRefusal(s: State, r: StackRequest): Option<StorageError> {
    if r.quantity <= 0 then Some(InvalidQuantity)
    else
      Either(TextRefusal(r.def.version, r.key, r.source),
             if !Explained(r.provenance) then Some(InvalidProvenance)
             else
               Either(CallRefusal(s, r.operation, r.player, false),
                      if r.def !in s.definitions || !s.definitions[r.def].stackable then Some(InvalidDefinition) else None))
  }

  /** A delivery also needs a stack limit and counts that fit: there is no other reason to refuse it. */
  function DeliveryRefusal(s: State, r: StackRequest): Option<StorageError> {
    Either(StackRefusal(s, r),
           if StackLimit(s.definitions, r.def) <= 0 then Some(InvalidDefinition)
           else if r.player !in s.players || !RoomFits(s.players[r.player], ItemBag)
                   || Stacked(s, r.player, r.def) + r.quantity > I64_MAX
                   || LoadWith(s, r.player, r.def, Stacked(s, r.player, r.def) + r.quantity) > U64_MAX
           then Some(ArithmeticOverflow)
           else None)
  }

  /** Only the player's stack of the definition changes, by `change`. */
  ghost predicate StackChanges(s: State, after: State, p: PlayerId, def: DefVersion, change: int) {
    && after == s.(stacks := after.stacks, events := after.events, nextId := after.nextId)
    && forall q, d :: Stacked(after, q, d) == Stacked(s, q, d) + if q == p && d == def then change else 0
  }

  /** A delivery raises the stack when the bag has room for it, and otherwise waits as one open row. */
  ghost predicate JoinsOrWaits(s: State, r: StackRequest, after: State, receipt: StackReceipt) {
    && receipt.request == r && after.events == s.events + [EventRow(r.operation, r.key, r.player, StackDelivered(receipt))]
    && r.player in s.players
    && if LoadWith(s, r.player, r.def, Stacked(s, r.player, r.def) + r.quantity) <= Room(s.players[r.player], ItemBag) then
         receipt.pendingId == None && StackChanges(s, after, r.player, r.def, r.quantity)
       else
         && receipt.pendingId.Some?
         && var row := PendingRow(receipt.pendingId.value, r.operation, r.key, r.player, r.def, r.quantity, ItemBag, None,
                                  true);
            after == s.(pending := s.pending + [row], events := after.events, nextId := after.nextId)
  }

  /** A stack delivery under a free key goes through if and only if nothing refuses it, and then joins the bag or waits. */
  lemma DeliverStackExactly(s: State, r: StackRequest)
    requires Invariant(s) && FreeKey(s, r.operation, r.key)
    ensures var (after, result) := DeliverStack(s, r);
      match DeliveryRefusal(s, r)
      case Some(e) => after == s && result == Err(e)
      case None => result.Ok? && JoinsOrWaits(s, r, after, result.value)
  {
    hide PlaceStack, Invariant, FreeKey, Utf8Length, IsWhiteSpace, Stacked, LoadWith, StackLimit, RoomFits, JoinsOrWaits,
         ValidateKeyAndSource, TextRefusal, ValidateProvenance, Explained;
    FreeKeyFound(s, r.operation, r.key);
    TextChecked(r.def.version, r.key, r.source);
    ProvenanceChecked(r.provenance);
    if StackRefusal(s, r).None? {
      PlacedExactly(s, r, s.players[r.player]);
    } else if r.player in s.players && (r.def !in s.definitions || !s.definitions[r.def].stackable) {
      NotStackable(s, r, s.players[r.player]);
    }
  }

  lemma NotStackable(s: State, r: StackRequest, profile: Profile)
    requires r.def !in s.definitions || !s.definitions[r.def].stackable
    ensures PlaceStack(s, r, profile) == Err(InvalidDefinition)
  {
  }

  /** No bag holds more than its room. */
  lemma BagHolds(s: State, p: PlayerId, bag: Bag)
    requires Invariant(s) && p in s.players
    ensures Load(s, p, bag) <= Room(s.players[p], bag)
  {
    hide Load, ValidStacks, ValidItems, Matched, SingleSource, FishPending, ValidEvents;
    RoomIsLimit(s.players[p], bag);
  }

  /** The stack table with one quantity set, as its totals. */
  lemma QuantitySet(s: State, after: State, p: PlayerId, def: DefVersion, quantity: int)
    requires ValidStacks(s) && (FindStack(s.stacks, p, def).None? ==> quantity > 0)
    requires after == s.(stacks := WithQuantity(s.stacks, p, def, quantity), events := after.events, nextId := after.nextId)
    ensures StackChanges(s, after, p, def, quantity - Stacked(s, p, def))
  {
    hide WithQuantity, Sum, QuantityList, FindStack, QuantityOf, ValidStacks;
    StackedIs(s, p, def);
    WithQuantitySums(s.definitions, s.stacks, p, def, quantity);
  }

  lemma {:induction false} QuantityFound(stacks: seq<StackRow>, p: PlayerId, def: DefVersion)
    requires forall i, j :: 0 <= i < j < |stacks| ==> stacks[i].player != stacks[j].player || stacks[i].def != stacks[j].def
    ensures Sum(QuantityList(stacks, p, def)) == QuantityOf(stacks, p, def)
  {
    if stacks == [] {
    } else {
      var rest := stacks[1..];
      assert QuantityList(stacks, p, def)[1..] == QuantityList(rest, p, def);
      QuantityFound(rest, p, def);
      FindStackExact(rest, p, def);
    }
  }

  lemma StackedIs(s: State, p: PlayerId, def: DefVersion)
    requires ValidStacks(s)
    ensures Stacked(s, p, def) == QuantityOf(s.stacks, p, def) && 0 <= QuantityOf(s.stacks, p, def) <= I64_MAX
  {
    hide FindStack, StackLimit, Sum;
    QuantityFound(s.stacks, p, def);
    FindStackExact(s.stacks, p, def);
  }

  lemma SlotsExist(defs: map<DefVersion, Definition>, def: DefVersion, quantity: int)
    requires 0 < StackLimit(defs, def) && 0 <= quantity <= I64_MAX
    ensures SlotsForQuantity(quantity, StackLimit(defs, def)) == Some(SlotsOf(defs, def, quantity))
    ensures 0 <= SlotsOf(defs, def, quantity) <= quantity
  {
    var limit := StackLimit(defs, def);
    hide StackLimit;
    NoSlotsForNothing(defs, def);
    if 0 < quantity {
      var n := quantity + limit - 1;
      MulOrder(1, limit, quantity - 1);
      QuotientOrder(limit, 0, 0, n / limit, n % limit);
      QuotientOrder(limit, n / limit, n % limit, quantity, limit - 1);
    }
  }

  lemma RowSlotsAre(s: State, i: nat)
    requires ValidStacks(s) && i < |s.stacks|
    ensures SlotsForQuantity(s.stacks[i].quantity, StackLimit(s.definitions, s.stacks[i].def))
         == Some(RowSlots(s.definitions, s.stacks[i]))
    ensures 0 <= RowSlots(s.definitions, s.stacks[i])
  {
    hide SlotsForQuantity, StackLimit;
    SlotsExist(s.definitions, s.stacks[i].def, s.stacks[i].quantity);
  }

  /** Counting a player's slots fails only when there are more than u64 holds. */
  lemma {:induction false} SlotsAddUp(s: State, p: PlayerId, k: nat, used: int)
    requires ValidStacks(s) && k <= |s.stacks| && 0 <= used
    requires used + Sum(SlotList(s.definitions, s.stacks[k..], p)) <= U64_MAX
    ensures StackSlots(s.definitions, s.stacks[k..], p, used) == Some(used + Sum(SlotList(s.definitions, s.stacks[k..], p)))
    decreases |s.stacks| - k
  {
    hide SlotsForQuantity, StackLimit, RowSlots, ValidStacks;
    if k == |s.stacks| {
    } else {
      var rest := s.stacks[k + 1..];
      assert s.stacks[k..][1..] == rest;
      assert SlotList(s.definitions, s.stacks[k..], p)[1..] == SlotList(s.definitions, rest, p);
      RowSlotsAre(s, k);
      SlotsNonNegative(s, p, k + 1);
      SlotsAddUp(s, p, k + 1, used + if s.stacks[k].player == p then RowSlots(s.definitions, s.stacks[k]) else 0);
    }
  }

  lemma SlotsNonNegative(s: State, p: PlayerId, k: nat)
    requires ValidStacks(s) && k <= |s.stacks|
    ensures var list := SlotList(s.definitions, s.stacks[k..], p);
      0 <= Sum(list) && forall i :: 0 <= i < |list| ==> list[i] <= Sum(list)
  {
    hide RowSlots, SlotsForQuantity, StackLimit, ValidStacks;
    var list := SlotList(s.definitions, s.stacks[k..], p);
    forall i | 0 <= i < |list|
      ensures 0 <= list[i]
    {
      RowSlotsAre(s, k + i);
    }
    SumNonNegative(list);
  }

  /** The program's count of the bag exists and covers the stack in question. */
  lemma SlotsCounted(s: State, p: PlayerId, def: DefVersion)
    requires ValidStacks(s) && Load(s, p, ItemBag) <= U64_MAX
    ensures UsedSlots(s, p) == Some(Load(s, p, ItemBag))
    ensures SlotsOf(s.definitions, def, QuantityOf(s.stacks, p, def)) <= Load(s, p, ItemBag)
  {
    hide RowSlots, StackLimit, Sum, ValidStacks, FindStack;
    var list := SlotList(s.definitions, s.stacks, p);
    assert s.stacks[0..] == s.stacks;
    SinglesExact(s.items, p);
    SlotsNonNegative(s, p, 0);
    SlotsAddUp(s, p, 0, 0);
    FindStackExact(s.stacks, p, def);
    match FindStack(s.stacks, p, def)
    case None => NoSlotsForNothing(s.definitions, def);
    case Some(i) =>
      SlotsByDefinition(s.definitions, p, def, s.stacks[i].quantity);
      assert s.stacks[i] == StackRow(p, def, s.stacks[i].quantity);
      assert list[i] == RowSlots(s.definitions, s.stacks[i]);
  }

  /** Placing fails only when the definition has no limit or a count does not fit. */
  lemma PlacedExactly(s: State, r: StackRequest, profile: Profile)
    requires Invariant(s) && StackRefusal(s, r).None?
    requires r.player in s.players && s.players[r.player] == profile
    ensures match PlaceStack(s, r, profile)
      case Err(e) => DeliveryRefusal(s, r) == Some(e)
      case Ok((placed, receipt)) =>
        && DeliveryRefusal(s, r).None?
        && JoinsOrWaits(s, r, Recorded(placed, r.operation, r.key, r.player, StackDelivered(receipt)), receipt)
  {
    hide UsedSlots, SlotsForQuantity, QuantityOf, WithQuantity, Stacked, Load, SlotsOf, ItemBagCapacity, Room,
         Matched, SingleSource, WithinCapacity, ValidItems, ValidEvents, FishPending, TextRefusal, Explained, StackChanges;
    if 0 < StackLimit(s.definitions, r.def) {
      var limit, existing := StackLimit(s.definitions, r.def), QuantityOf(s.stacks, r.player, r.def);
      StackedIs(s, r.player, r.def);
      RoomIsLimit(profile, ItemBag);
      assert BagCapacity(profile, ItemBag) == ItemBagCapacity(profile.itemBagLevel);
      if RoomFits(profile, ItemBag) {
        BagHolds(s, r.player, ItemBag);
        SlotsCounted(s, r.player, r.def);
        SlotsExist(s.definitions, r.def, existing);
        if existing + r.quantity <= I64_MAX {
          SlotsExist(s.definitions, r.def, existing + r.quantity);
          if PlaceStack(s, r, profile).Ok? && PlaceStack(s, r, profile).value.1.pendingId.None? {
            var (placed, receipt) := PlaceStack(s, r, profile).value;
            QuantitySet(s, Recorded(placed, r.operation, r.key, r.player, StackDelivered(receipt)), r.player, r.def,
                        existing + r.quantity);
          }
        }
      }
    }
  }

  /** A consumption needs no more than the player has: there is no other reason to refuse it. */
  function ConsumptionRefusal(s: State, r: StackRequest): Option<StorageError> {
    Either(StackRefusal(s, r),
           if Stacked(s, r.player, r.def) < r.quantity
           then Some(InsufficientStack(Stacked(s, r.player, r.def), r.quantity))
           else None)
  }

  /** A consumption under a free key goes through if and only if nothing refuses it, and then lowers the stack by exactly
      its quantity. */
  lemma ConsumeStackExactly(s: State, r: StackRequest)
    requires Invariant(s) && FreeKey(s, r.operation, r.key)
    ensures var (after, result) := ConsumeStack(s, r);
      match ConsumptionRefusal(s, r)
      case Some(e) => after == s && result == Err(e)
      case None =>
        && result.Ok? && StackChanges(s, after, r.player, r.def, -r.quantity)
        && result.value.request == r && result.value.before == Stacked(s, r.player, r.def)
        && result.value.after == Stacked(s, r.player, r.def) - r.quantity
        && after.events == s.events + [EventRow(r.operation, r.key, r.player, StackConsumed(result.value))]
  {
    hide Invariant, FreeKey, Utf8Length, IsWhiteSpace, Stacked, StackChanges, QuantityOf, WithQuantity,
         ValidateKeyAndSource, TextRefusal, ValidateProvenance, Explained;
    FreeKeyFound(s, r.operation, r.key);
    TextChecked(r.def.version, r.key, r.source);
    ProvenanceChecked(r.provenance);
    InvariantStacks(s);
    StackedIs(s, r.player, r.def);
    if ConsumeStack(s, r).1.Ok? {
      StackThere(s, r.player, r.def);
      QuantitySet(s, ConsumeStack(s, r).0, r.player, r.def, Stacked(s, r.player, r.def) - r.quantity);
    }
  }

  lemma InvariantStacks(s: State)
    requires Invariant(s)
    ensures ValidStacks(s)
  {
    hide ValidStacks, ValidItems, Matched, SingleSource, FishPending, ValidEvents, WithinCapacity;
  }

  lemma StackThere(s: State, p: PlayerId, def: DefVersion)
    ensures 0 < QuantityOf(s.stacks, p, def) ==> FindStack(s.stacks, p, def).Some?
  {
  }

  // ---- single items and fish

  /** Another operation of the player still waits to put an item into the bag. */
  ghost predicate OthersWait(s: State, p: PlayerId, bag: Bag, operation: OperationId) {
    exists row <- s.pending ::
      row.player == p && row.open && row.bag == bag && row.operation != operation && (bag == ItemBag ==> row.item.Some?)
  }

  /** A new item is in the bag when the bag has room for it, and otherwise in overflow with one open row that awaits it. */
  ghost predicate ItemArrives(s: State, after: State, p: PlayerId, operation: OperationId, key: string, def: DefVersion,
                              weight: Option<int>, bag: Bag, size: int, item: ItemId, pendingId: Option<nat>, payload: Payload)
  {
    && p in s.players && after.events == s.events + [EventRow(operation, key, p, payload)]
    && (forall i <- s.items :: i.id != item)
    && if Load(s, p, bag) + size <= Room(s.players[p], bag) then
         var place := if bag == ItemBag then InItemBag else InCatchBag;
         && pendingId == None
         && after == s.(items := s.items + [ItemRow(item, p, def, place, weight)], events := after.events,
                        nextId := after.nextId)
       else
         && pendingId.Some?
         && after == s.(items := s.items + [ItemRow(item, p, def, TempOverflow, weight)],
                        pending := s.pending + [PendingRow(pendingId.value, operation, key, p, def, 1, bag, Some(item), true)],
                        events := after.events, nextId := after.nextId)
  }

  /** The first reason to refuse a single item under a free key. */
  ghost function UniqueRefusal(s: State, r: UniqueRequest): Option<StorageError> {
    Either(TextRefusal(r.def.version, r.key, r.source),
           if !r.state.Object? then Some(InvalidState)
           else if !Explained(r.provenance) then Some(InvalidProvenance)
           else
             Either(CallRefusal(s, r.operation, r.player, false),
                    if r.def !in s.definitions || s.definitions[r.def].stackable then Some(InvalidDefinition)
                    else if OthersWait(s, r.player, ItemBag, r.operation) then Some(EarlierPendingDelivery)
                    else if r.player !in s.players || !RoomFits(s.players[r.player], ItemBag) then Some(ArithmeticOverflow)
                    else None))
  }

  /** A single item under a free key is delivered if and only if nothing refuses it. */
  lemma DeliverUniqueExactly(s: State, r: UniqueRequest)
    requires Invariant(s) && FreeKey(s, r.operation, r.key)
    ensures var (after, result) := DeliverUnique(s, r);
      match UniqueRefusal(s, r)
      case Some(e) => after == s && result == Err(e)
      case None =>
        && result.Ok? && result.value.request == r
        && ItemArrives(s, after, r.player, r.operation, r.key, r.def, None, ItemBag, 1, result.value.item,
                       result.value.pendingId, UniqueDelivered(result.value))
  {
    hide PlaceItem, Invariant, FreeKey, Utf8Length, IsWhiteSpace, RoomFits, ItemArrives, ValidateKeyAndSource, TextRefusal,
         ValidateProvenance, Explained, EarlierPending, OthersWait;
    FreeKeyFound(s, r.operation, r.key);
    TextChecked(r.def.version, r.key, r.source);
    ProvenanceChecked(r.provenance);
    OthersWaitIs(s, r.player, ItemBag, r.operation);
    if r.player in s.players {
      ItemPlacedExactly(s, r.player, r.operation, r.key, r.def, None, ItemBag, 1);
      if DeliverUnique(s, r).1.Ok? {
        var receipt := DeliverUnique(s, r).1.value;
        Arrives(s, r.player, r.operation, r.key, r.def, None, ItemBag, 1, UniqueDelivered(receipt));
      }
    }
  }

  lemma OthersWaitIs(s: State, p: PlayerId, bag: Bag, operation: OperationId)
    ensures OthersWait(s, p, bag, operation) <==> EarlierPending(s, p, bag, operation)
  {
    if OthersWait(s, p, bag, operation) {
      var row :| row in s.pending && row.player == p && row.open && row.bag == bag && row.operation != operation
                 && (bag == ItemBag ==> row.item.Some?);
      var i :| 0 <= i < |s.pending| && s.pending[i] == row;
    }
    if EarlierPending(s, p, bag, operation) {
      var i :| 0 <= i < |s.pending| && var row := s.pending[i];
        row.player == p && row.open && row.bag == bag && row.operation != operation && (bag == ItemBag ==> row.item.Some?);
      assert s.pending[i] in s.pending;
    }
  }

  /** The bag is counted, unless its size does not fit the machine. */
  lemma BagCounted(s: State, p: PlayerId, bag: Bag)
    requires Invariant(s) && p in s.players
    ensures RoomFits(s.players[p], bag) ==> Used(s, p, bag) == Ok(Load(s, p, bag))
    ensures Used(s, p, bag).Err? ==> Used(s, p, bag).error == ArithmeticOverflow
  {
    hide Matched, SingleSource, ValidEvents, UsedSlots, GramsFrom, Limit, Sum, Room, RoomFits;
    NoMismatchInUse(s, p, bag);
    BagHolds(s, p, bag);
    RoomIsLimit(s.players[p], bag);
    if RoomFits(s.players[p], bag) {
      RoomBound(s.players[p], bag);
      match bag
      case ItemBag => SlotsCounted(s, p, DefVersion("", 0));
      case CatchBag =>
        WeighedGrams(s.items, p);
        GramsExact(s.items, p);
        GramsNonNegative(s, p);
    }
  }

  lemma RoomBound(profile: Profile, bag: Bag)
    requires RoomFits(profile, bag)
    ensures Room(profile, bag) <= U64_MAX - 1 && (bag == CatchBag ==> Room(profile, bag) <= I64_MAX)
  {
  }

  lemma GramsNonNegative(s: State, p: PlayerId)
    requires ValidItems(s)
    ensures 0 <= Sum(GramList(s.items, p))
  {
    hide Sum;
    SumNonNegative(GramList(s.items, p));
  }

  lemma ItemPlacedExactly(s: State, p: PlayerId, operation: OperationId, key: string, def: DefVersion, weight: Option<int>,
                          bag: Bag, size: int)
    requires Invariant(s) && p in s.players && (bag == ItemBag ==> size == 1)
    ensures if RoomFits(s.players[p], bag)
            then PlaceItem(s, p, operation, key, def, weight, bag, size, s.players[p]).Ok?
            else PlaceItem(s, p, operation, key, def, weight, bag, size, s.players[p]) == Err(ArithmeticOverflow)
  {
    hide Invariant, Used, Load, RoomFits, Room, BagCapacity;
    BagCounted(s, p, bag);
    RoomIsLimit(s.players[p], bag);
    if RoomFits(s.players[p], bag) {
      RoomBound(s.players[p], bag);
      BagHolds(s, p, bag);
      LoadNonNegative(s, p, bag);
    }
  }

  lemma LoadNonNegative(s: State, p: PlayerId, bag: Bag)
    requires Invariant(s)
    ensures 0 <= Load(s, p, bag)
  {
    hide Sum, Matched, SingleSource, ValidEvents, SlotList, GramList;
    match bag
    case ItemBag =>
      SlotsNonNegative(s, p, 0);
      assert s.stacks[0..] == s.stacks;
      SinglesExact(s.items, p);
    case CatchBag => GramsNonNegative(s, p);
  }

  /** What placing and recording an item leaves. */
  lemma Arrives(s: State, p: PlayerId, operation: OperationId, key: string, def: DefVersion, weight: Option<int>, bag: Bag,
                size: int, payload: Payload)
    requires Invariant(s) && p in s.players
    requires PlaceItem(s, p, operation, key, def, weight, bag, size, s.players[p]).Ok?
    ensures var (placed, item, pendingId) := PlaceItem(s, p, operation, key, def, weight, bag, size, s.players[p]).value;
      ItemArrives(s, Recorded(placed.(nextId := placed.nextId + 1), operation, key, p, payload), p, operation, key, def, weight,
                  bag, size, item, pendingId, payload)
  {
    hide PlaceItem, Load, Room, Limit;
    PlaceItemExact(s, p, operation, key, def, weight, bag, size, s.players[p]);
    RoomIsLimit(s.players[p], bag);
    FreshId(s);
  }

  lemma FreshId(s: State)
    requires Invariant(s)
    ensures forall i <- s.items :: i.id != s.nextId
  {
  }

  /** The first reason to refuse a fish under a free key. */
  ghost function FishRefusal(s: State, operation: OperationId, p: PlayerId, r: FishRequest): Option<StorageError> {
    if r.fishSlot >= 5 then Some(FishSlotOutOfRange)
    else
      Either(CallRefusal(s, operation, p, true),
             if r.def !in s.definitions || !s.definitions[r.def].fish || !s.definitions[r.def].current
                || s.definitions[r.def].stackable
             then Some(InvalidDefinition)
             else if OthersWait(s, p, CatchBag, operation) then Some(EarlierPendingDelivery)
             else if p !in s.players || !RoomFits(s.players[p], CatchBag) then Some(ArithmeticOverflow)
             else None)
  }

  /** A fish under a free key is delivered if and only if nothing refuses it. */
  lemma DeliverFishExactly(s: State, operation: OperationId, p: PlayerId, r: FishRequest)
    requires Invariant(s) && (r.fishSlot < 5 ==> FreeKey(s, operation, FishKey(r.fishSlot)))
    ensures var (after, result) := DeliverFish(s, operation, p, r);
      match FishRefusal(s, operation, p, r)
      case Some(e) => after == s && result == Err(e)
      case None =>
        && result.Ok? && result.value.request == r && result.value.operation == operation && result.value.player == p
        && r.fishSlot < 5
        && ItemArrives(s, after, p, operation, FishKey(r.fishSlot), r.def, Some(r.weight), CatchBag, r.weight,
                       result.value.item, result.value.pendingId, FishDelivered(result.value))
  {
    hide PlaceItem, Invariant, FreeKey, FishKey, RoomFits, ItemArrives, EarlierPending, OthersWait;
    if r.fishSlot < 5 {
      FreeKeyFound(s, operation, FishKey(r.fishSlot));
      OthersWaitIs(s, p, CatchBag, operation);
      if p in s.players {
        ItemPlacedExactly(s, p, operation, FishKey(r.fishSlot), r.def, Some(r.weight), CatchBag, r.weight);
        if DeliverFish(s, operation, p, r).1.Ok? {
          var receipt := DeliverFish(s, operation, p, r).1.value;
          Arrives(s, p, operation, FishKey(r.fishSlot), r.def, Some(r.weight), CatchBag, r.weight, FishDelivered(receipt));
        }
      }
    }
  }

  // ---- claims

  /** A claim is refused for its operation, its player, or a bag whose size does not fit the machine: nothing else. */
  function ClaimRefusal(s: State, operation: OperationId, p: PlayerId, bag: Bag): Option<StorageError> {
    Either(CallRefusal(s, operation, p, true),
           if p !in s.players || !RoomFits(s.players[p], bag) then Some(ArithmeticOverflow) else None)
  }

  predicate Claims(claimed: seq<Claimed>, item: ItemId) {
    exists c <- claimed :: c.item == item
  }

  /** The claimed items are in the bag and their waiting rows closed; every other row is as it was. */
  ghost predicate OnlyClaimed(items: seq<ItemRow>, pending: seq<PendingRow>, items': seq<ItemRow>, pending': seq<PendingRow>,
                              p: PlayerId, bag: Bag, claimed: seq<Claimed>)
  {
    && |items'| == |items| && |pending'| == |pending|
    && (forall i :: 0 <= i < |items| ==>
          items'[i] == if Claims(claimed, items[i].id)
                       then items[i].(place := if bag == ItemBag then InItemBag else InCatchBag)
                       else items[i])
    && (forall k :: 0 <= k < |pending| ==>
          pending'[k] == if Waiting(pending[k], p, bag) && Claims(claimed, pending[k].item.value)
                         then pending[k].(open := false)
                         else pending[k])
  }

  lemma ClaimsFirst(claimed: seq<Claimed>, item: ItemId)
    requires claimed != []
    ensures Claims(claimed, item) <==> claimed[0].item == item || Claims(claimed[1..], item)
  {
    assert claimed == [claimed[0]] + claimed[1..];
  }

  lemma {:induction false} ClaimFromMoves(defs: map<DefVersion, Definition>, p: PlayerId, bag: Bag, capacity: int, c: Claim,
                                          k: nat)
    requires k <= |c.pending|
    requires forall i, j :: 0 <= i < j < |c.items| ==> c.items[i].id != c.items[j].id
    requires forall i, j :: 0 <= i < j < |c.pending| && Open(c.pending[i]) && Open(c.pending[j]) ==>
      c.pending[i].item != c.pending[j].item
    ensures var r := ClaimFrom(defs, p, bag, capacity, c, k);
      r.Ok? ==>
        && c.claimed <= r.value.claimed
        && OnlyClaimed(c.items, c.pending, r.value.items, r.value.pending, p, bag, r.value.claimed[|c.claimed|..])
    decreases |c.pending| - k
  {
    hide Claimable, SizeIn, OnlyClaimed;
    var r := ClaimFrom(defs, p, bag, capacity, c, k);
    NothingClaimed(c.items, c.pending, p, bag);
    assert c.claimed[|c.claimed|..] == [];
    if k == |c.pending| {
    } else if !Waiting(c.pending[k], p, bag) || FindItem(c.items, c.pending[k].item.value).None? {
      ClaimFromMoves(defs, p, bag, capacity, c, k + 1);
    } else {
      FindItemExact(c.items, c.pending[k].item.value);
      var i := FindItem(c.items, c.pending[k].item.value).value;
      if r.Ok? && c.used + SizeIn(c.items[i], bag) <= capacity {
        var next := Onward(c, i, k, bag);
        ClaimFromMoves(defs, p, bag, capacity, next, k + 1);
        OnwardMoves(p, bag, c, i, k, r.value);
      }
    }
  }

  lemma OnwardMoves(p: PlayerId, bag: Bag, c: Claim, i: nat, k: nat, end: Claim)
    requires i < |c.items| && k < |c.pending| && Waiting(c.pending[k], p, bag) && c.pending[k].item == Some(c.items[i].id)
    requires forall i, j :: 0 <= i < j < |c.items| ==> c.items[i].id != c.items[j].id
    requires forall i, j :: 0 <= i < j < |c.pending| && Open(c.pending[i]) && Open(c.pending[j]) ==>
      c.pending[i].item != c.pending[j].item
    requires var next := Onward(c, i, k, bag);
      && next.claimed <= end.claimed
      && OnlyClaimed(next.items, next.pending, end.items, end.pending, p, bag, end.claimed[|next.claimed|..])
    ensures c.claimed <= end.claimed
    ensures OnlyClaimed(c.items, c.pending, end.items, end.pending, p, bag, end.claimed[|c.claimed|..])
  {
    hide OnlyClaimed;
    var next := Onward(c, i, k, bag);
    assert end.claimed[|c.claimed|..][1..] == end.claimed[|next.claimed|..];
    assert end.claimed[|c.claimed|] == next.claimed[|c.claimed|];
    OneClaimed(c.items, c.pending, end.items, end.pending, p, bag, i, k, end.claimed[|c.claimed|..]);
  }

  lemma NothingClaimed(items: seq<ItemRow>, pending: seq<PendingRow>, p: PlayerId, bag: Bag)
    ensures OnlyClaimed(items, pending, items, pending, p, bag, [])
  {
  }

  /** Moving the item of one waiting row, and then the claimed ones, moves them all. */
  lemma OneClaimed(items: seq<ItemRow>, pending: seq<PendingRow>, items': seq<ItemRow>, pending': seq<PendingRow>,
                   p: PlayerId, bag: Bag, i: nat, k: nat, claimed: seq<Claimed>)
    requires i < |items| && k < |pending| && Waiting(pending[k], p, bag) && pending[k].item == Some(items[i].id)
    requires forall j, l :: 0 <= j < l < |items| ==> items[j].id != items[l].id
    requires forall j, l :: 0 <= j < l < |pending| && Open(pending[j]) && Open(pending[l]) ==>
      pending[j].item != pending[l].item
    requires claimed != [] && claimed[0].item == items[i].id
    requires OnlyClaimed(items[i := MovedItem(items[i], bag)], pending[k := pending[k].(open := false)], items', pending', p,
                         bag, claimed[1..])
    ensures OnlyClaimed(items, pending, items', pending', p, bag, claimed)
  {
    hide Claims;
    forall id
      ensures Claims(claimed, id) <==> claimed[0].item == id || Claims(claimed[1..], id)
    {
      ClaimsFirst(claimed, id);
    }
  }

  /** A claim under a free key goes through if and only if nothing refuses it; it moves the claimed items into the bag, closes
      their rows, and touches no other row. */
  lemma ClaimPendingExactly(s: State, operation: OperationId, p: PlayerId, bag: Bag)
    requires Invariant(s) && FreeKey(s, operation, ClaimKey(bag))
    ensures var (after, result) := ClaimPending(s, operation, p, bag);
      match ClaimRefusal(s, operation, p, bag)
      case Some(e) => after == s && result == Err(e)
      case None =>
        && result.Ok? && result.value.operation == operation && result.value.player == p
        && after.events == s.events + [EventRow(operation, ClaimKey(bag), p, BagClaimed(bag, result.value))]
        && after == s.(items := after.items, pending := after.pending, events := after.events, nextId := after.nextId)
        && OnlyClaimed(s.items, s.pending, after.items, after.pending, p, bag, result.value.claimed)
  {
    hide Invariant, FreeKey, ClaimKey, RoomFits, Room, Used, BagCapacity, ClaimFrom, OnlyClaimed, Load, Limit, Sound,
         ClaimOutcome;
    FreeKeyFound(s, operation, ClaimKey(bag));
    if p in s.players {
      var capacity := Limit(s.players[p], bag);
      BagCounted(s, p, bag);
      RoomIsLimit(s.players[p], bag);
      BagHolds(s, p, bag);
      if RoomFits(s.players[p], bag) {
        RoomBound(s.players[p], bag);
        var c := Claim(s.items, s.pending, [], None, Load(s, p, bag));
        ClaimRuns(s, p, bag, c);
        var r := ClaimFrom(s.definitions, p, bag, capacity, c, 0);
        assert r.value.claimed[0..] == r.value.claimed;
      }
    }
  }

  lemma ClaimRuns(s: State, p: PlayerId, bag: Bag, c: Claim)
    requires Invariant(s) && p in s.players && Limit(s.players[p], bag) < U64_MAX
    requires c == Claim(s.items, s.pending, [], None, Load(s, p, bag))
    ensures var r := ClaimFrom(s.definitions, p, bag, Limit(s.players[p], bag), c, 0);
      && r.Ok?
      && OnlyClaimed(s.items, s.pending, r.value.items, r.value.pending, p, bag, r.value.claimed[0..])
  {
    hide ClaimFrom, OnlyClaimed, Load, Limit, ValidStacks, Matched, SingleSource, FishPending, ValidEvents, WithinCapacity;
    assert During(s, c) == s;
    InvariantSound(s);
    LoadNonNegative(s, p, bag);
    OpenDistinct(s);
    ClaimFromMoves(s.definitions, p, bag, Limit(s.players[p], bag), c, 0);
    ClaimNeverFails(s, p, bag, Limit(s.players[p], bag), c);
  }

  lemma OpenDistinct(s: State)
    requires Matched(s)
    ensures forall i, j :: 0 <= i < j < |s.pending| && Open(s.pending[i]) && Open(s.pending[j]) ==>
      s.pending[i].item != s.pending[j].item
  {
  }

  lemma ClaimNeverFails(s: State, p: PlayerId, bag: Bag, capacity: int, c: Claim)
    requires Sound(During(s, c)) && c.blocked == None && p in s.players && 0 <= c.used
    requires capacity == Limit(s.players[p], bag) && c.used == Load(During(s, c), p, bag) && capacity < U64_MAX
    ensures ClaimFrom(s.definitions, p, bag, capacity, c, 0).Ok?
  {
    hide ClaimFrom, Sound, Load, Limit;
    var m := ClaimFromExact(s, p, bag, capacity, c, 0);
  }
}
