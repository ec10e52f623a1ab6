/** The storage services as one object over its tables: each call locks and checks its rows, then inserts and updates. */
module StorageService {
  import opened Numbers
  import opened Text
  import opened Storage
  import opened StorageLaws
  import opened StorageRuns
  import opened StorageClaims

  class StorageTables {
    var players: map<PlayerId, Profile>
    var operations: map<OperationId, Operation>
    var definitions: map<DefVersion, Definition>
    var stacks: seq<StackRow>
    var items: seq<ItemRow>
    var pending: seq<PendingRow>
    var events: seq<EventRow>
    var nextId: nat

    function Current(): State
      reads this
    {
      State(players, operations, definitions, stacks, items, pending, events, nextId)
    }

    ghost predicate Valid()
      reads this
    {
      Invariant(Current())
    }

    constructor (catalog: map<DefVersion, Definition>)
      ensures Valid() && Current() == State(map[], map[], catalog, [], [], [], [], 0)
    {
      players, operations, definitions := map[], map[], catalog;
      stacks, items, pending, events, nextId := [], [], [], [], 0;
      new;
      NothingStored(Current());
    }

    // ---- statements

    method Rollback(saved: State)
      modifies this
      ensures Current() == saved
    {
      players, operations, definitions := saved.players, saved.operations, saved.definitions;
      stacks, items, pending, events, nextId := saved.stacks, saved.items, saved.pending, saved.events, saved.nextId;
    }

    method Record(operation: OperationId, key: string, p: PlayerId, payload: Payload)
      modifies this`events
      ensures Current() == Recorded(old(Current()), operation, key, p, payload)
    {
      events := events + [EventRow(operation, key, p, payload)];
    }

    /** Slots of the player's stacks and single items, added up with checked additions. */
    method CountUsedSlots(p: PlayerId) returns (r: Option<int>)
      ensures r == UsedSlots(Current(), p)
    {
      hide SlotsForQuantity, StackLimit;
      var used := 0;
      for k := 0 to |stacks|
        invariant StackSlots(definitions, stacks, p, 0) == StackSlots(definitions, stacks[k..], p, used)
      {
        assert stacks[k..][0] == stacks[k] && stacks[k..][1..] == stacks[k + 1..];
        if stacks[k].player == p {
          var slots := SlotsForQuantity(stacks[k].quantity, StackLimit(definitions, stacks[k].def));
          if slots.None? || !InU64(used + slots.value) {
            return None;
          }
          used := used + slots.value;
        }
      }
      var single := 0;
      for k := 0 to |items|
        invariant single + CountIn(items[k..], p, InItemBag) == CountIn(items, p, InItemBag)
      {
        assert items[k..][0] == items[k] && items[k..][1..] == items[k + 1..];
        if items[k].owner == p && items[k].place == InItemBag {
          single := single + 1;
        }
      }
      return if InU64(used + single) then Some(used + single) else None;
    }

    method ReadUsed(p: PlayerId, bag: Bag) returns (r: Result<int, StorageError>)
      ensures r == Used(Current(), p, bag)
    {
      hide UsedSlots, GramsFrom;
      if bag == ItemBag {
        var used := CountUsedSlots(p);
        return if used.Some? then Ok(used.value) else Err(ArithmeticOverflow);
      }
      var grams := GramsFrom(items, p);
      return if grams.Ok? && !InI64(grams.value) then Err(ArithmeticOverflow) else grams;
    }

    // ---- stacks

    /** Raises the stack, or inserts a pending delivery when the raised stack would need too many slots. */
    method PlaceStack(r: StackRequest, profile: Profile) returns (placed: Result<StackReceipt, StorageError>)
      modifies this`stacks, this`pending, this`nextId
      ensures match Storage.PlaceStack(old(Current()), r, profile)
        case Ok((after, receipt)) => placed == Ok(receipt) && Current() == after
        case Err(e) => placed == Err(e) && Current() == old(Current())
    {
      hide SlotsForQuantity, UsedSlots, QuantityOf, WithQuantity, ItemBagCapacity;
      if r.def !in definitions || !definitions[r.def].stackable {
        return Err(InvalidDefinition);
      }
      var limit := definitions[r.def].stackLimit;
      if limit.None? || limit.value <= 0 {
        return Err(InvalidDefinition);
      }
      var capacity := ItemBagCapacity(profile.itemBagLevel);
      var used := CountUsedSlots(r.player);
      if capacity.None? || used.None? {
        return Err(ArithmeticOverflow);
      }
      var existing := QuantityOf(stacks, r.player, r.def);
      var before, after := SlotsForQuantity(existing,
                                            limit.value), SlotsForQuantity(existing + r.quantity, limit.value);
      if before.None? || !InI64(existing + r.quantity) || after.None? {
        return Err(ArithmeticOverflow);
      }
      var projected := used.value - before.value + after.value;
      if !InU64(used.value - before.value) || !InU64(projected) {
        return Err(ArithmeticOverflow);
      }
      if projected > capacity.value {
        placed := Ok(StackReceipt(nextId + 1, r, Some(nextId)));
        pending := pending + [PendingRow(nextId, r.operation, r.key, r.player, r.def, r.quantity, ItemBag, None, true)];
        nextId := nextId + 2;
      } else {
        placed := Ok(StackReceipt(nextId, r, None));
        stacks := WithQuantity(stacks, r.player, r.def, existing + r.quantity);
        nextId := nextId + 1;
      }
    }

    method DeliverStack(r: StackRequest) returns (result: Result<StackReceipt, StorageError>)
      requires Valid()
      modifies this
      ensures Valid()
      ensures (Current(), result) == Storage.DeliverStack(old(Current()), r)
    {
      hide Invariant, Conserves, Storage.PlaceStack, ValidateStackRequest, ReplayStack, CheckOperation, LockProfile;
      DeliverStackKeeps(Current(), r);
      var invalid := ValidateStackRequest(r);
      if invalid.Some? {
        return Err(invalid.value);
      }
      var refused := CheckOperation(Current(), r.operation, r.player, false);
      if refused.Some? {
        return Err(refused.value);
      }
      CheckedExists(Current(), r.operation, r.player, false);
      var event := FindEvent(events, r.operation, r.key);
      if event.Some? {
        return ReplayStack(event.value, r);
      }
      if !operations[r.operation].pending {
        return Err(OperationTerminal);
      }
      var profile := LockProfile(Current(), r.player);
      if profile.Err? {
        return Err(profile.error);
      }
      result := PlaceStack(r, profile.value);
      if result.Ok? {
        Record(r.operation, r.key, r.player, StackDelivered(result.value));
      }
    }

    method ConsumeStack(r: StackRequest) returns (result: Result<ConsumptionReceipt, StorageError>)
      requires Valid()
      modifies this
      ensures Valid()
      ensures (Current(), result) == Storage.ConsumeStack(old(Current()), r)
    {
      hide Invariant, Conserves, ValidateStackRequest, ReplayConsumption, CheckOperation, LockProfile, QuantityOf,
           WithQuantity;
      ConsumeStackKeeps(Current(), r);
      var invalid := ValidateStackRequest(r);
      if invalid.Some? {
        return Err(invalid.value);
      }
      var refused := CheckOperation(Current(), r.operation, r.player, false);
      if refused.Some? {
        return Err(refused.value);
      }
      CheckedExists(Current(), r.operation, r.player, false);
      var event := FindEvent(events, r.operation, r.key);
      if event.Some? {
        return ReplayConsumption(event.value, r);
      }
      if !operations[r.operation].pending {
        return Err(OperationTerminal);
      }
      var profile := LockProfile(Current(), r.player);
      if profile.Err? {
        return Err(profile.error);
      }
      if r.def !in definitions || !definitions[r.def].stackable {
        return Err(InvalidDefinition);
      }
      var before := QuantityOf(stacks, r.player, r.def);
      if before < r.quantity {
        return Err(InsufficientStack(before, r.quantity));
      }
      result := Ok(ConsumptionReceipt(nextId, r, before, before - r.quantity));
      stacks := WithQuantity(stacks, r.player, r.def, before - r.quantity);
      nextId := nextId + 1;
      Record(r.operation, r.key, r.player, StackConsumed(result.value));
    }

    // ---- single items

    /** Looks for an open delivery of another operation. */
    method FindEarlierPending(p: PlayerId, bag: Bag, operation: OperationId) returns (found: bool)
      ensures found == EarlierPending(Current(), p, bag, operation)
    {
      for k := 0 to |pending|
        invariant forall i :: 0 <= i < k ==> var row := pending[i];
          !(row.player == p && row.open && row.bag == bag && row.operation != operation && (bag == ItemBag ==> row.item.Some?))
      {
        var row := pending[k];
        if row.player == p && row.open && row.bag == bag && row.operation != operation && (bag == ItemBag ==> row.item.Some?) {
          return true;
        }
      }
      return false;
    }

    /** Inserts the item, in the bag or in overflow with its pending row. */
    method PlaceItem(p: PlayerId, operation: OperationId, key: string, def: DefVersion, weight: Option<int>, bag: Bag,
                     size: int,
                     profile: Profile)
      returns (placed: Result<(ItemId, Option<nat>), StorageError>)
      modifies this`items, this`pending, this`nextId
      ensures match Storage.PlaceItem(old(Current()), p, operation, key, def, weight, bag, size, profile)
        case Ok((after, item, row)) => placed == Ok((item, row)) && Current() == after
        case Err(e) => placed == Err(e) && Current() == old(Current())
    {
      hide Used, BagCapacity;
      var capacity := BagCapacity(profile, bag);
      var used := ReadUsed(p, bag);
      if used.Err? {
        return Err(if capacity.None? && bag == ItemBag then ArithmeticOverflow else used.error);
      }
      if capacity.None? || (bag == ItemBag && !InU64(used.value + size)) {
        return Err(ArithmeticOverflow);
      }
      var item := nextId;
      if used.value + size > capacity.value {
        items := items + [ItemRow(item, p, def, TempOverflow, weight)];
        pending := pending + [PendingRow(item + 1, operation, key, p, def, 1, bag, Some(item), true)];
        nextId := item + 2;
        placed := Ok((item, Some(item + 1)));
      } else {
        items := items + [ItemRow(item, p, def, BagPlace(bag), weight)];
        nextId := item + 1;
        placed := Ok((item, None));
      }
    }

    method DeliverUnique(r: UniqueRequest) returns (result: Result<UniqueReceipt, StorageError>)
      requires Valid()
      modifies this
      ensures Valid()
      ensures (Current(), result) == Storage.DeliverUnique(old(Current()), r)
    {
      hide Invariant, Conserves, Storage.PlaceItem, ValidateUniqueRequest, ReplayUnique, CheckOperation, LockProfile,
           EarlierPending;
      DeliverUniqueKeeps(Current(), r);
      var invalid := ValidateUniqueRequest(r);
      if invalid.Some? {
        return Err(invalid.value);
      }
      var refused := CheckOperation(Current(), r.operation, r.player, false);
      if refused.Some? {
        return Err(refused.value);
      }
      CheckedExists(Current(), r.operation, r.player, false);
      var event := FindEvent(events, r.operation, r.key);
      if event.Some? {
        return ReplayUnique(event.value, r);
      }
      if !operations[r.operation].pending {
        return Err(OperationTerminal);
      }
      var profile := LockProfile(Current(), r.player);
      if profile.Err? {
        return Err(profile.error);
      }
      if r.def !in definitions || definitions[r.def].stackable {
        return Err(InvalidDefinition);
      }
      var earlier := FindEarlierPending(r.player, ItemBag, r.operation);
      if earlier {
        return Err(EarlierPendingDelivery);
      }
      var placed := PlaceItem(r.player, r.operation, r.key, r.def, None, ItemBag, 1, profile.value);
      if placed.Err? {
        return Err(placed.error);
      }
      result := Ok(UniqueReceipt(nextId, r, placed.value.0, placed.value.1));
      nextId := nextId + 1;
      Record(r.operation, r.key, r.player, UniqueDelivered(result.value));
    }

    method DeliverFish(operation: OperationId, p: PlayerId,
                       r: FishRequest) returns (result: Result<FishReceipt, StorageError>)
      requires Valid()
      modifies this
      ensures Valid()
      ensures (Current(), result) == Storage.DeliverFish(old(Current()), operation, p, r)
    {
      hide Invariant, Conserves, Storage.PlaceItem, ReplayFish, CheckOperation, LockProfile, EarlierPending, FishKey;
      DeliverFishKeeps(Current(), operation, p, r);
      if r.fishSlot >= MAX_FISH_PER_CAST {
        return Err(FishSlotOutOfRange);
      }
      var key := FishKey(r.fishSlot);
      var refused := CheckOperation(Current(), operation, p, true);
      if refused.Some? {
        return Err(refused.value);
      }
      CheckedExists(Current(), operation, p, true);
      var event := FindEvent(events, operation, key);
      if event.Some? {
        return ReplayFish(event.value, p, r);
      }
      if !operations[operation].pending {
        return Err(OperationTerminal);
      }
      var profile := LockProfile(Current(), p);
      if profile.Err? {
        return Err(profile.error);
      }
      if r.def !in definitions || !definitions[r.def].fish || !definitions[r.def].current || definitions[r.def].stackable {
        return Err(InvalidDefinition);
      }
      var earlier := FindEarlierPending(p, CatchBag, operation);
      if earlier {
        return Err(EarlierPendingDelivery);
      }
      var placed := PlaceItem(p, operation, key, r.def, Some(r.weight), CatchBag, r.weight, profile.value);
      if placed.Err? {
        return Err(placed.error);
      }
      result := Ok(FishReceipt(nextId, operation, p, r, placed.value.0, placed.value.1));
      nextId := nextId + 1;
      Record(operation, key, p, FishDelivered(result.value));
    }

    // ---- claims

    /** Moves the waiting items in order until one does not fit. On an error the tables are left half done. */
    method MoveWaiting(p: PlayerId, bag: Bag, capacity: int, usedBefore: int)
      returns (r: Result<(seq<Claimed>, Option<nat>, int), StorageError>)
      modifies this`items, this`pending
      ensures match ClaimFrom(definitions, p, bag, capacity, Claim(old(items), old(pending), [], None, usedBefore), 0)
        case Ok(c) => r == Ok((c.claimed, c.blocked, c.used)) && items == c.items && pending == c.pending
        case Err(e) => r == Err(e)
    {
      var used, claimed := usedBefore, [];
      ghost var start := Claim(items, pending, [], None, usedBefore);
      for k := 0 to |pending|
        invariant |pending| == |start.pending|
        invariant ClaimFrom(definitions, p, bag, capacity, Claim(items, pending, claimed, None, used), k)
               == ClaimFrom(definitions, p, bag, capacity, start, 0)
      {
        hide Claimable, SizeIn, BagPlace;
        var row := pending[k];
        if Waiting(row, p, bag) {
          var found := FindItem(items, row.item.value);
          if found.Some? {
            FindItemExact(items, row.item.value);
            var item := items[found.value];
            if !Claimable(definitions, row, item, p, bag) {
              return Err(PendingIntegrityMismatch);
            }
            if bag == ItemBag && !InU64(used + 1) {
              return Err(ArithmeticOverflow);
            }
            if used + SizeIn(item, bag) > capacity {
              return Ok((claimed, Some(row.id), used));
            }
            items := items[found.value := item.(place := BagPlace(bag))];
            pending := pending[k := row.(open := false)];
            used := used + SizeIn(item, bag);
            claimed := claimed + [Claimed(row.id, item.id)];
          }
        }
      }
      return Ok((claimed, None, used));
    }

    method ClaimPending(operation: OperationId, p: PlayerId,
                        bag: Bag) returns (result: Result<ClaimReceipt, StorageError>)
      requires Valid()
      modifies this
      ensures Valid()
      ensures (Current(), result) == Storage.ClaimPending(old(Current()), operation, p, bag)
    {
      hide Invariant, Conserves, ClaimFrom, ReplayClaim, CheckOperation, LockProfile, Used, BagCapacity, ClaimKey;
      ClaimKeeps(Current(), operation, p, bag);
      var refused := CheckOperation(Current(), operation, p, true);
      if refused.Some? {
        return Err(refused.value);
      }
      CheckedExists(Current(), operation, p, true);
      var event := FindEvent(events, operation, ClaimKey(bag));
      if event.Some? {
        return ReplayClaim(event.value, p, bag);
      }
      if !operations[operation].pending {
        return Err(OperationTerminal);
      }
      var profile := LockProfile(Current(), p);
      if profile.Err? {
        return Err(profile.error);
      }
      var capacity := BagCapacity(profile.value, bag);
      if capacity.None? {
        return Err(ArithmeticOverflow);
      }
      var used := ReadUsed(p, bag);
      if used.Err? {
        return Err(used.error);
      }
      var before := Current();
      var moved := MoveWaiting(p, bag, capacity.value, used.value);
      if moved.Err? {
        Rollback(before);
        return Err(moved.error);
      }
      result := Ok(ClaimReceipt(nextId, operation, p, moved.value.0, moved.value.1, moved.value.2));
      nextId := nextId + 1;
      Record(operation, ClaimKey(bag), p, BagClaimed(bag, result.value));
    }
  }

  lemma CheckedExists(s: State, operation: OperationId, p: PlayerId, mustName: bool)
    requires CheckOperation(s, operation, p, mustName).None?
    ensures operation in s.operations
  {
  }

  lemma NothingStored(s: State)
    requires s.players == map[] && s.stacks == [] && s.items == [] && s.pending == [] && s.events == []
    ensures Invariant(s)
  {
  }
}
