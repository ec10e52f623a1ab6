/** Equipping, unequipping, enchanting and disenchanting items, as functions from one state of the tables to the next.

    Two different writers guard the rule that worn armor holds at most one kind of survival enchant: Equip looks at the
    loadout it is about to make, and the book writer looks at the siblings of an item that is already worn. */
module Equipment {
  import opened Numbers
  import opened Enchants
  import opened EnchantApply

  type PlayerId = nat
  type ItemId = nat

  const MAX_EQUIPPED_ARMOR_ITEMS := 4
  const ARMOR_SLOTS := [Helmet, Chestplate, Leggings, Boots]

  datatype Status = Active | SoftFrozen | HardFrozen | Deleted

  /** The equipment slots: the seven that take enchanted gear, and the totem's. */
  datatype GearSlot = Gear(slot: Slot) | Totem

  datatype Place = ToolLocker | Equipped | Elsewhere

  /** An item instance with what its pinned definition says about it and its embedded-enchant rows. */
  datatype Item = Item(
    owner: PlayerId, gear: Option<GearSlot>, ordinary: bool, starter: bool, enchantable: bool, capacity: PerFamily,
    place: Place, rows: seq<Applied>)

  /** Primary key of an equipment slot row. */
  datatype Wear = Wear(player: PlayerId, slot: GearSlot)

  datatype State = State(players: map<PlayerId, Status>, items: map<ItemId, Item>, worn: map<Wear, ItemId>)

  datatype GearError =
    | PlayerNotFound | AccountFrozen | ItemNotFound | NotEquippable | ItemNotInLocker | ItemNotEquipped
    | EquipmentIntegrityMismatch | EnchantRowsExceeded | EquippedArmorEnchantConflict
    | TargetItemNotFound | InvalidEmbeddedEnchant | ExistingLoadoutConflict | IncomingLoadoutConflict
    | NotOrdinaryEquipment | StarterEquipment | ItemNotEnchantable | Apply(error: ApplyError)
    | SelectedEnchantNotFound | SelectedEnchantLevelChanged

  // ---- the worn armor of a player

  /** The items in the player's armor slots from `k` on, except the skipped slot. */
  function WornFrom(s: State, p: PlayerId, skip: Option<GearSlot>, k: nat): seq<ItemId>
    requires k <= 4
    decreases 4 - k
  {
    if k == 4 then []
    else
      var key := Wear(p, Gear(ARMOR_SLOTS[k]));
      (if key in s.worn && skip != Some(key.slot) then [s.worn[key]] else []) + WornFrom(s, p, skip, k + 1)
  }

  function WornArmor(s: State, p: PlayerId): seq<ItemId> {
    WornFrom(s, p, None, 0)
  }

  /** What the player would wear after the target has taken its slot. */
  function Prospective(s: State, p: PlayerId, target: ItemId, slot: GearSlot): seq<ItemId> {
    var others := WornFrom(s, p, Some(slot), 0);
    if target in others then others else others + [target]
  }

  /** The enchant rows of several items, item by item. */
  function RowsOf(items: map<ItemId, Item>, ids: seq<ItemId>): seq<Applied> {
    if ids == [] then []
    else (if ids[0] in items then items[ids[0]].rows else []) + RowsOf(items, ids[1..])
  }

  ghost predicate LoadoutClash(rows: seq<Applied>) {
    exists i, j :: 0 <= i < j < |rows| && Scope(rows[i].enchant, rows[j].enchant) == EquippedArmorLoadout
  }

  // ---- equip and unequip

  function LockItem(s: State, p: PlayerId, id: ItemId): Result<Item, GearError> {
    if p !in s.players || s.players[p] == Deleted then Err(PlayerNotFound)
    else if s.players[p] != Active then Err(AccountFrozen)
    else if id !in s.items || s.items[id].owner != p then Err(ItemNotFound)
    else Ok(s.items[id])
  }

  /** The guard before an armor equip: the loadout it would make, without the item it displaces. */
  ghost function Guard(s: State, p: PlayerId, id: ItemId, slot: GearSlot): Option<GearError> {
    if !(slot.Gear? && IsArmor(slot.slot)) then None
    else
      var ids := Prospective(s, p, id, slot);
      if |ids| > MAX_EQUIPPED_ARMOR_ITEMS then Some(EquipmentIntegrityMismatch)
      else if |RowsOf(s.items, ids)| > ENCHANT_COUNT * MAX_EQUIPPED_ARMOR_ITEMS then Some(EnchantRowsExceeded)
      else if LoadoutClash(RowsOf(s.items, ids)) then Some(EquippedArmorEnchantConflict)
      else None
  }

  /** `UPDATE item_instances SET location = ... WHERE id = ...`. */
  function Moved(items: map<ItemId, Item>, id: ItemId, place: Place): map<ItemId, Item> {
    if id in items then items[id := items[id].(place := place)] else items
  }

  /** The slot and the item it displaced, if any. */
  datatype EquipReceipt = EquipReceipt(slot: GearSlot, displaced: Option<ItemId>)

  function Wearing(s: State, p: PlayerId, id: ItemId, slot: GearSlot): State {
    var key := Wear(p, slot);
    var items := if key in s.worn then Moved(s.items, s.worn[key], ToolLocker) else s.items;
    State(s.players, Moved(items, id, Equipped), s.worn[key := id])
  }

  ghost function Equip(s: State, p: PlayerId, id: ItemId): Result<(State, EquipReceipt), GearError> {
    match LockItem(s, p, id)
    case Err(e) => Err(e)
    case Ok(item) =>
      if item.gear.None? then Err(NotEquippable)
      else
        var slot := item.gear.value;
        var key := Wear(p, slot);
        if item.place == Equipped then
          if key in s.worn && s.worn[key] == id then Ok((s, EquipReceipt(slot, None))) else Err(EquipmentIntegrityMismatch)
        else if item.place != ToolLocker then Err(ItemNotInLocker)
        else match Guard(s, p, id, slot)
          case Some(error) => Err(error)
          case None =>
            Ok((Wearing(s, p, id, slot), EquipReceipt(slot, if key in s.worn then Some(s.worn[key]) else None)))
  }

  /** The slot row of the player that holds the item. */
  function SlotOf(s: State, p: PlayerId, id: ItemId, slots: seq<GearSlot>): Option<GearSlot> {
    if slots == [] then None
    else if Wear(p, slots[0]) in s.worn && s.worn[Wear(p, slots[0])] == id then Some(slots[0])
    else SlotOf(s, p, id, slots[1..])
  }

  const ALL_SLOTS := [Gear(Pickaxe), Gear(Sword), Gear(FishingRod), Gear(Helmet), Gear(Chestplate), Gear(Leggings),
                      Gear(Boots), Totem]

  function Unequip(s: State, p: PlayerId, id: ItemId): Result<(State, GearSlot), GearError> {
    match LockItem(s, p, id)
    case Err(e) => Err(e)
    case Ok(item) =>
      if item.place != Equipped then Err(ItemNotEquipped)
      else match SlotOf(s, p, id, ALL_SLOTS)
        case None => Err(EquipmentIntegrityMismatch)
        case Some(slot) =>
          Ok((State(s.players, Moved(s.items, id, ToolLocker), s.worn - {Wear(p, slot)}), slot))
  }

  // ---- the book writer

  predicate RowsLegal(slot: Slot, rows: seq<Applied>) {
    forall i :: 0 <= i < |rows| ==> LevelLegal(rows[i].enchant, rows[i].level) && AppliesTo(rows[i].enchant, slot)
  }

  /** The rows of the item in an armor slot, if there is one, are legal on that slot. */
  predicate WornLegal(s: State, p: PlayerId, slot: Slot) {
    var key := Wear(p, Gear(slot));
    key in s.worn && s.worn[key] in s.items ==> RowsLegal(slot, s.items[s.worn[key]].rows)
  }

  /** Two rows of one item conflict, at any scope. */
  ghost predicate RowsClash(rows: seq<Applied>) {
    exists i, j :: 0 <= i < j < |rows| && Scope(rows[i].enchant, rows[j].enchant) != NoConflict
  }

  /** The worn armor as the book writer locks and validates it; a single target is locked along with it. */
  ghost function ValidateLoadout(s: State, p: PlayerId, target: ItemId): Result<seq<ItemId>, GearError> {
    if p !in s.players || s.players[p] == Deleted then Err(PlayerNotFound)
    else
      var worn := WornArmor(s, p);
      var locked := if target in worn then worn else worn + [target];
      if exists id <- locked :: id !in s.items then Err(TargetItemNotFound)
      else if s.items[target].owner != p then Err(TargetItemNotFound)
      else if exists id <- worn :: s.items[id].owner != p || s.items[id].place != Equipped
      then Err(EquipmentIntegrityMismatch)
      else if |RowsOf(s.items, locked)| > ENCHANT_COUNT * (MAX_EQUIPPED_ARMOR_ITEMS + 1) then Err(EnchantRowsExceeded)
      else if exists k :: 0 <= k < 4 && !WornLegal(s, p, ARMOR_SLOTS[k]) then Err(InvalidEmbeddedEnchant)
      else if (exists id <- worn :: RowsClash(s.items[id].rows)) || LoadoutClash(RowsOf(s.items, worn))
      then Err(ExistingLoadoutConflict)
      else Ok(worn)
  }

  /** An owned ordinary item with its slot, as the book writer and the remover resolve it. */
  function ResolveOrdinary(s: State, p: PlayerId, id: ItemId): Result<(Item, Slot), GearError> {
    if id !in s.items || s.items[id].owner != p then Err(ItemNotFound)
    else
      var item := s.items[id];
      if !item.ordinary || item.gear.None? || item.gear.value.Totem? then Err(NotOrdinaryEquipment)
      else if |item.rows| > ENCHANT_COUNT then Err(EnchantRowsExceeded)
      else if exists i :: 0 <= i < |item.rows| && !LevelLegal(item.rows[i].enchant, item.rows[i].level)
      then Err(InvalidEmbeddedEnchant)
      else Ok((item, item.gear.value.slot))
  }

  function WithRows(s: State, id: ItemId, rows: seq<Applied>): State
    requires id in s.items
  {
    s.(items := s.items[id := s.items[id].(rows := rows)])
  }

  /** The siblings of the target among the worn armor. */
  function Siblings(worn: seq<ItemId>, target: ItemId): seq<ItemId> {
    if worn == [] then []
    else (if worn[0] == target then [] else [worn[0]]) + Siblings(worn[1..], target)
  }

  ghost function ApplyBook(s: State, p: PlayerId, id: ItemId, incoming: Enchant,
                           level: int): Result<(State, Action), GearError> {
    match ValidateLoadout(s, p, id)
    case Err(e) => Err(e)
    case Ok(worn) =>
      match ResolveOrdinary(s, p, id)
      case Err(e) => Err(e)
      case Ok((item, slot)) =>
        if item.starter then Err(StarterEquipment)
        else if !item.enchantable then Err(ItemNotEnchantable)
        else match PreviewBook(slot, item.capacity, item.rows, incoming, level)
          case Err(e) => Err(Apply(e))
          case Ok(preview) =>
            if preview.needsLoadoutCheck && id in worn
               && exists x <- RowsOf(s.items, Siblings(worn, id)) :: Scope(incoming, x.enchant) == EquippedArmorLoadout
            then Err(IncomingLoadoutConflict)
            else Ok((WithRows(s, id, Written(item.rows, incoming, level, preview.action)), preview.action))
  }

  // ---- exact removal

  function FindRow(rows: seq<Applied>, e: Enchant): Option<nat> {
    if rows == [] then None
    else if rows[0].enchant == e then Some(0)
    else match FindRow(rows[1..], e) { case None => None case Some(i) => Some(i + 1) }
  }

  lemma {:induction false} FindRowExact(rows: seq<Applied>, e: Enchant)
    ensures FindRow(rows, e).Some? ==> FindRow(rows, e).value < |rows| && rows[FindRow(rows, e).value].enchant == e
    ensures FindRow(rows, e).None? ==> forall i :: 0 <= i < |rows| ==> rows[i].enchant != e
  {
    if rows == [] {
    } else {
      FindRowExact(rows[1..], e);
    }
  }

  function RemoveExact(s: State, p: PlayerId, id: ItemId, e: Enchant, expectedLevel: int): Result<State, GearError> {
    match ResolveOrdinary(s, p, id)
    case Err(error) => Err(error)
    case Ok((item, _)) =>
      match FindRow(item.rows, e)
      case None => Err(SelectedEnchantNotFound)
      case Some(i) =>
        FindRowExact(item.rows, e);
        if item.rows[i].level != expectedLevel then Err(SelectedEnchantLevelChanged)
        else Ok(WithRows(s, id, item.rows[..i] + item.rows[i + 1..]))
  }
}
