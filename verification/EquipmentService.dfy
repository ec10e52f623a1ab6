/** The equipment and enchant writers as one object over its tables: each call checks what it locked, then updates rows. */
module EquipmentService {
  import opened Numbers
  import opened Enchants
  import opened EnchantApply
  import opened Equipment
  import opened EquipmentRuns
  import Requests = EquipmentRequests

  /** Whether two rows are at loadout scope: every row against every earlier one. */
  method FindLoadoutClash(rows: seq<Applied>) returns (found: bool)
    ensures found == LoadoutClash(rows)
  {
    hide Scope;
    for j := 0 to |rows|
      invariant forall i, k :: 0 <= i < k < j ==> Scope(rows[i].enchant, rows[k].enchant) != EquippedArmorLoadout
    {
      for i := 0 to j
        invariant forall k :: 0 <= k < i ==> Scope(rows[k].enchant, rows[j].enchant) != EquippedArmorLoadout
      {
        if Scope(rows[i].enchant, rows[j].enchant) == EquippedArmorLoadout {
          return true;
        }
      }
    }
    return false;
  }

  method FindRowsClash(rows: seq<Applied>) returns (found: bool)
    ensures found == RowsClash(rows)
  {
    hide Scope;
    for j := 0 to |rows|
      invariant forall i, k :: 0 <= i < k < j ==> Scope(rows[i].enchant, rows[k].enchant) == NoConflict
    {
      for i := 0 to j
        invariant forall k :: 0 <= k < i ==> Scope(rows[k].enchant, rows[j].enchant) == NoConflict
      {
        if Scope(rows[i].enchant, rows[j].enchant) != NoConflict {
          return true;
        }
      }
    }
    return false;
  }

  class EquipmentTables {
    var players: map<PlayerId, Status>
    var items: map<ItemId, Item>
    var worn: map<Wear, ItemId>
    var operations: map<string, Requests.Operation>
    var nextId: Requests.OperationId

    function Current(): State
      reads this
    {
      State(players, items, worn)
    }

    /** The tables together with the operations. */
    function Store(): Requests.Store
      reads this
    {
      Requests.Store(Current(), operations, nextId)
    }

    ghost predicate Valid()
      reads this
    {
      Requests.Sound(Store())
    }

    constructor ()
      ensures Valid() && Store() == Requests.Store(State(map[], map[], map[]), map[], 0)
    {
      players, items, worn := map[], map[], map[];
      operations, nextId := map[], 0;
      new;
      NothingWorn(Current());
    }

    // ---- queries

    /** The rows of the four armor slots, except the skipped one. */
    method SelectWornArmor(p: PlayerId, skip: Option<GearSlot>) returns (ids: seq<ItemId>)
      ensures ids == WornFrom(Current(), p, skip, 0)
    {
      hide WornFrom;
      ids := [];
      for k := 0 to 4
        invariant ids + WornFrom(Current(), p, skip, k) == WornFrom(Current(), p, skip, 0)
      {
        WornStep(Current(), p, skip, k);
        var key := Wear(p, Gear(ARMOR_SLOTS[k]));
        if key in worn && skip != Some(key.slot) {
          ids := ids + [worn[key]];
        }
      }
      WornEnd(Current(), p, skip);
    }

    method SelectRows(ids: seq<ItemId>) returns (rows: seq<Applied>)
      ensures rows == RowsOf(items, ids)
    {
      rows := [];
      for k := 0 to |ids|
        invariant rows + RowsOf(items, ids[k..]) == RowsOf(items, ids)
      {
        assert ids[k..][0] == ids[k] && ids[k..][1..] == ids[k + 1..];
        if ids[k] in items {
          rows := rows + items[ids[k]].rows;
        }
      }
    }

    // ---- equip and unequip

    /** Validates the loadout the equip would make. */
    method GuardEquip(p: PlayerId, id: ItemId, slot: GearSlot) returns (error: Option<GearError>)
      ensures error == Guard(Current(), p, id, slot)
    {
      hide LoadoutClash, WornFrom;
      if !slot.Gear? || !IsArmor(slot.slot) {
        return None;
      }
      var ids := SelectWornArmor(p, Some(slot));
      if id !in ids {
        ids := ids + [id];
      }
      if |ids| > MAX_EQUIPPED_ARMOR_ITEMS {
        return Some(EquipmentIntegrityMismatch);
      }
      var rows := SelectRows(ids);
      if |rows| > ENCHANT_COUNT * MAX_EQUIPPED_ARMOR_ITEMS {
        return Some(EnchantRowsExceeded);
      }
      var clash := FindLoadoutClash(rows);
      return if clash then Some(EquippedArmorEnchantConflict) else None;
    }

    /** The statements of an equip once its operation is resolved. */
    method EquipOwned(p: PlayerId, id: ItemId) returns (r: Result<EquipReceipt, GearError>)
      modifies this`items, this`worn
      ensures match Equipment.Equip(old(Current()), p, id)
        case Ok((after, receipt)) => r == Ok(receipt) && Current() == after
        case Err(e) => r == Err(e) && Current() == old(Current())
    {
      hide Guard;
      var locked := LockItem(Current(), p, id);
      if locked.Err? {
        return Err(locked.error);
      }
      var item := locked.value;
      if item.gear.None? {
        return Err(NotEquippable);
      }
      var slot := item.gear.value;
      var key := Wear(p, slot);
      if item.place == Equipped {
        if key in worn && worn[key] == id {
          return Ok(EquipReceipt(slot, None));
        }
        return Err(EquipmentIntegrityMismatch);
      }
      if item.place != ToolLocker {
        return Err(ItemNotInLocker);
      }
      var displaced := if key in worn then Some(worn[key]) else None;
      var refused := GuardEquip(p, id, slot);
      if refused.Some? {
        return Err(refused.value);
      }
      if displaced.Some? {
        items := Moved(items, displaced.value, ToolLocker);
      }
      worn := worn[key := id];
      items := Moved(items, id, Equipped);
      return Ok(EquipReceipt(slot, displaced));
    }

    method UnequipOwned(p: PlayerId, id: ItemId) returns (r: Result<GearSlot, GearError>)
      modifies this`items, this`worn
      ensures match Equipment.Unequip(old(Current()), p, id)
        case Ok((after, slot)) => r == Ok(slot) && Current() == after
        case Err(e) => r == Err(e) && Current() == old(Current())
    {
      hide SlotOf;
      var locked := LockItem(Current(), p, id);
      if locked.Err? {
        return Err(locked.error);
      }
      if locked.value.place != Equipped {
        return Err(ItemNotEquipped);
      }
      var slot := SlotOf(Current(), p, id, ALL_SLOTS);
      if slot.None? {
        return Err(EquipmentIntegrityMismatch);
      }
      worn := worn - {Wear(p, slot.value)};
      items := Moved(items, id, ToolLocker);
      return Ok(slot.value);
    }

    // ---- requests under a key

    /** Reads the row of the key, inserting it first when the key is free, and validates it: the receipt to replay, or the
        operation to perform. */
    method Resolve(actor: PlayerId, mutation: Requests.Mutation, id: ItemId, key: string)
      returns (r: Result<Requests.Resolution, Requests.RequestError>)
      modifies this`operations, this`nextId
      ensures r == Requests.ResolveOperation(old(Store()), actor, mutation, id, key)
      ensures r.Ok? && r.value.Fresh? ==> Store() == r.value.store
      ensures r.Ok? && r.value.Replay? ==> Store() == old(Store())
    {
      if key !in operations {
        operations := operations[key := Requests.NewRow(nextId, actor, mutation, id)];
        nextId := nextId + 1;
      }
      return Requests.ValidateOperation(Store(), operations[key], actor, mutation, id);
    }

    method Commit(key: string, receipt: Requests.Receipt) returns (error: Option<Requests.RequestError>)
      modifies this`operations
      ensures match Requests.CommitOperation(old(Store()), key, receipt)
        case Ok(committed) => error == None && Store() == committed
        case Err(e) => error == Some(e) && Store() == old(Store())
    {
      if key !in operations || operations[key].id != receipt.operation || operations[key].state != Requests.Pending {
        return Some(Requests.OperationTerminal(Requests.Pending));
      }
      operations := operations[key := operations[key].(state := Requests.Committed, result := Some(receipt))];
      return None;
    }

    method Rollback(saved: Requests.Store)
      modifies this
      ensures Store() == saved
    {
      players, items, worn := saved.gear.players, saved.gear.items, saved.gear.worn;
      operations, nextId := saved.operations, saved.nextId;
    }

    method Equip(actor: PlayerId, id: ItemId, key: string) returns (r: Result<Requests.Receipt, Requests.RequestError>)
      requires Valid()
      modifies this
      ensures Valid() && (Store(), r) == Requests.Submit(old(Store()), actor, Requests.EquipItem, id, key)
    {
      hide Equipment.Equip, Invariant, Requests.ResolveOperation, Requests.CommitOperation;
      Requests.SubmitKeeps(Store(), actor, Requests.EquipItem, id, key);
      if actor > I64_MAX {
        return Err(Requests.SnowflakeOutOfRange);
      }
      var saved := Store();
      var resolved := Resolve(actor, Requests.EquipItem, id, key);
      if resolved.Err? {
        Rollback(saved);
        return Err(resolved.error);
      }
      if resolved.value.Replay? {
        return Ok(resolved.value.receipt);
      }
      var equipped := EquipOwned(actor, id);
      if equipped.Err? {
        Rollback(saved);
        return Err(Requests.Refused(equipped.error));
      }
      var receipt := Requests.Receipt(resolved.value.id, Requests.EquipItem, id, equipped.value.slot,
                                      equipped.value.displaced);
      var failed := Commit(key, receipt);
      if failed.Some? {
        Rollback(saved);
        return Err(failed.value);
      }
      return Ok(receipt);
    }

    method Unequip(actor: PlayerId, id: ItemId,
                   key: string) returns (r: Result<Requests.Receipt, Requests.RequestError>)
      requires Valid()
      modifies this
      ensures Valid() && (Store(), r) == Requests.Submit(old(Store()), actor, Requests.UnequipItem, id, key)
    {
      hide Equipment.Unequip, Invariant, Requests.ResolveOperation, Requests.CommitOperation;
      Requests.SubmitKeeps(Store(), actor, Requests.UnequipItem, id, key);
      if actor > I64_MAX {
        return Err(Requests.SnowflakeOutOfRange);
      }
      var saved := Store();
      var resolved := Resolve(actor, Requests.UnequipItem, id, key);
      if resolved.Err? {
        Rollback(saved);
        return Err(resolved.error);
      }
      if resolved.value.Replay? {
        return Ok(resolved.value.receipt);
      }
      var unequipped := UnequipOwned(actor, id);
      if unequipped.Err? {
        Rollback(saved);
        return Err(Requests.Refused(unequipped.error));
      }
      var receipt := Requests.Receipt(resolved.value.id, Requests.UnequipItem, id, unequipped.value, None);
      var failed := Commit(key, receipt);
      if failed.Some? {
        Rollback(saved);
        return Err(failed.value);
      }
      return Ok(receipt);
    }

    // ---- the book writer

    /** Locks and validates the worn armor together with the target. */
    method LockLoadout(p: PlayerId, target: ItemId) returns (r: Result<seq<ItemId>, GearError>)
      ensures r == ValidateLoadout(Current(), p, target)
    {
      hide WornFrom, RowsOf, LoadoutClash, RowsClash, WornLegal;
      if p !in players || players[p] == Deleted {
        return Err(PlayerNotFound);
      }
      var ids := SelectWornArmor(p, None);
      var locked := if target in ids then ids else ids + [target];
      for k := 0 to |locked|
        invariant forall i :: 0 <= i < k ==> locked[i] in items
      {
        if locked[k] !in items {
          assert locked[k] in locked;
          return Err(TargetItemNotFound);
        }
      }
      assert forall id <- locked :: id in items;
      assert target in locked;
      if items[target].owner != p {
        return Err(TargetItemNotFound);
      }
      assert forall i :: 0 <= i < |ids| ==> ids[i] == locked[i] && ids[i] in items;
      for k := 0 to |ids|
        invariant forall i :: 0 <= i < k ==> items[ids[i]].owner == p && items[ids[i]].place == Equipped
      {
        if items[ids[k]].owner != p || items[ids[k]].place != Equipped {
          assert ids[k] in ids;
          return Err(EquipmentIntegrityMismatch);
        }
      }
      assert forall id <- ids :: items[id].owner == p && items[id].place == Equipped;
      var lockedRows := SelectRows(locked);
      if |lockedRows| > ENCHANT_COUNT * (MAX_EQUIPPED_ARMOR_ITEMS + 1) {
        return Err(EnchantRowsExceeded);
      }
      for k := 0 to 4
        invariant forall i :: 0 <= i < k ==> WornLegal(Current(), p, ARMOR_SLOTS[i])
      {
        if !WornLegal(Current(), p, ARMOR_SLOTS[k]) {
          return Err(InvalidEmbeddedEnchant);
        }
      }
      r := LockedConflicts(ids);
    }

    /** Conflicts within each worn armor item and across them. */
    method LockedConflicts(ids: seq<ItemId>) returns (r: Result<seq<ItemId>, GearError>)
      requires forall id <- ids :: id in items
      ensures r == if (exists id <- ids :: RowsClash(items[id].rows)) || LoadoutClash(RowsOf(items, ids))
                   then Err(ExistingLoadoutConflict) else Ok(ids)
    {
      hide RowsOf, LoadoutClash, RowsClash;
      for k := 0 to |ids|
        invariant forall i :: 0 <= i < k ==> !RowsClash(items[ids[i]].rows)
      {
        assert ids[k] in ids;
        var within := FindRowsClash(items[ids[k]].rows);
        if within {
          return Err(ExistingLoadoutConflict);
        }
      }
      var rows := SelectRows(ids);
      var across := FindLoadoutClash(rows);
      return if across then Err(ExistingLoadoutConflict) else Ok(ids);
    }

    /** Whether the incoming enchant clashes with a worn sibling of the target. */
    method SiblingClashes(ids: seq<ItemId>, target: ItemId, incoming: Enchant) returns (found: bool)
      ensures found == exists x <- RowsOf(items, Siblings(ids, target)) :: Scope(incoming, x.enchant) == EquippedArmorLoadout
    {
      hide Scope;
      SiblingsMembers(ids, target);
      RowsOfMembers(items, Siblings(ids, target));
      for k := 0 to |ids|
        invariant forall i :: 0 <= i < k && ids[i] != target && ids[i] in items ==>
          forall x <- items[ids[i]].rows :: Scope(incoming, x.enchant) != EquippedArmorLoadout
      {
        if ids[k] != target && ids[k] in items {
          var rows := items[ids[k]].rows;
          for i := 0 to |rows|
            invariant forall j :: 0 <= j < i ==> Scope(incoming, rows[j].enchant) != EquippedArmorLoadout
          {
            if Scope(incoming, rows[i].enchant) == EquippedArmorLoadout {
              assert ids[k] in Siblings(ids, target) && rows[i] in RowsOf(items, Siblings(ids, target));
              return true;
            }
          }
        }
      }
      return false;
    }

    method ApplyBook(p: PlayerId, id: ItemId, incoming: Enchant, level: int) returns (r: Result<Action, GearError>)
      requires Valid()
      modifies this`items
      ensures Valid()
      ensures match Equipment.ApplyBook(old(Current()), p, id, incoming, level)
        case Ok((after, action)) => r == Ok(action) && Current() == after
        case Err(e) => r == Err(e) && Current() == old(Current())
    {
      hide ValidateLoadout, Invariant, RowsOf, Siblings, Scope, PreviewBook, Written, ResolveOrdinary;
      ApplyKeeps(Current(), p, id, incoming, level);
      var loadout := LockLoadout(p, id);
      if loadout.Err? {
        return Err(loadout.error);
      }
      var resolved := ResolveOrdinary(Current(), p, id);
      if resolved.Err? {
        return Err(resolved.error);
      }
      ResolvedExists(Current(), p, id);
      var (item, slot) := resolved.value;
      if item.starter {
        return Err(StarterEquipment);
      }
      if !item.enchantable {
        return Err(ItemNotEnchantable);
      }
      var preview := ComputePreviewBook(slot, item.capacity, item.rows, incoming, level);
      if preview.Err? {
        return Err(Apply(preview.error));
      }
      if preview.value.needsLoadoutCheck && id in loadout.value {
        var clashes := SiblingClashes(loadout.value, id, incoming);
        if clashes {
          return Err(IncomingLoadoutConflict);
        }
      }
      items := items[id := items[id].(rows := Written(item.rows, incoming, level, preview.value.action))];
      return Ok(preview.value.action);
    }

    method RemoveExact(p: PlayerId, id: ItemId, e: Enchant, expectedLevel: int) returns (error: Option<GearError>)
      requires Valid()
      modifies this`items
      ensures Valid()
      ensures match Equipment.RemoveExact(old(Current()), p, id, e, expectedLevel)
        case Ok(after) => error == None && Current() == after
        case Err(x) => error == Some(x) && Current() == old(Current())
    {
      hide Invariant, ResolveOrdinary;
      RemoveKeeps(Current(), p, id, e, expectedLevel);
      var resolved := ResolveOrdinary(Current(), p, id);
      if resolved.Err? {
        return Some(resolved.error);
      }
      ResolvedExists(Current(), p, id);
      var rows := resolved.value.0.rows;
      var selected := FindRow(rows, e);
      FindRowExact(rows, e);
      if selected.None? {
        return Some(SelectedEnchantNotFound);
      }
      if rows[selected.value].level != expectedLevel {
        return Some(SelectedEnchantLevelChanged);
      }
      items := items[id := items[id].(rows := rows[..selected.value] + rows[selected.value + 1..])];
      return None;
    }
  }

  lemma WornStep(s: State, p: PlayerId, skip: Option<GearSlot>, k: nat)
    requires k < 4
    ensures var key := Wear(p, Gear(ARMOR_SLOTS[k]));
      WornFrom(s, p, skip, k)
      == (if key in s.worn && skip != Some(key.slot) then [s.worn[key]] else []) + WornFrom(s, p, skip, k + 1)
  {
  }

  lemma WornEnd(s: State, p: PlayerId, skip: Option<GearSlot>)
    ensures WornFrom(s, p, skip, 4) == []
  {
  }

  lemma NothingWorn(s: State)
    requires s.items == map[] && s.worn == map[]
    ensures Invariant(s)
  {
  }

  lemma ResolvedExists(s: State, p: PlayerId, id: ItemId)
    requires ResolveOrdinary(s, p, id).Ok?
    ensures id in s.items && ResolveOrdinary(s, p, id).value.0 == s.items[id]
  {
  }
}
