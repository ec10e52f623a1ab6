/** Laws of equipment over every run: slot rows and worn items correspond one-to-one, and worn armor never holds two
    different survival enchants. */
module EquipmentRuns {
  import opened Numbers
  import opened Enchants
  import opened EnchantApply
  import opened Equipment

  // ---- the invariant

  /** A slot row points at an item of that player, made for that slot, that is marked worn. */
  ghost predicate RowMatches(s: State, key: Wear) {
    key in s.worn ==>
      && s.worn[key] in s.items
      && var item := s.items[s.worn[key]];
      && item.owner == key.player && item.gear == Some(key.slot) && item.place == Equipped
  }

  /** An item marked worn has its slot row. */
  ghost predicate ItemMatches(s: State, id: ItemId) {
    id in s.items && s.items[id].place == Equipped ==>
      && s.items[id].gear.Some?
      && var key := Wear(s.items[id].owner, s.items[id].gear.value);
      && key in s.worn && s.worn[key] == id
  }

  /** Enchant rows are on ordinary gear that they fit, within its capacity, and do not clash. */
  ghost predicate ItemLegal(item: Item) {
    item.rows != [] ==>
      && item.gear.Some? && item.gear.value.Gear?
      && NoDuplicates(item.rows) && ValidRows(item.gear.value.slot, item.capacity, Rows(item.rows))
  }

  /** Two items worn by the same player do not hold two different survival enchants between them. */
  ghost predicate PairSafe(a: Item, b: Item) {
    forall x, y :: x in a.rows && y in b.rows ==> Scope(x.enchant, y.enchant) != EquippedArmorLoadout
  }

  ghost predicate WornSafe(s: State, k: Wear, l: Wear) {
    k in s.worn && l in s.worn && k.player == l.player && s.worn[k] in s.items && s.worn[l] in s.items ==>
      PairSafe(s.items[s.worn[k]], s.items[s.worn[l]])
  }

  ghost predicate Matching(s: State) {
    (forall key :: RowMatches(s, key)) && (forall id :: ItemMatches(s, id))
  }

  ghost predicate Legal(s: State) {
    forall id :: id in s.items ==> ItemLegal(s.items[id])
  }

  ghost predicate Safe(s: State) {
    forall k, l :: WornSafe(s, k, l)
  }

  ghost predicate Invariant(s: State) {
    Matching(s) && Legal(s) && Safe(s)
  }

  /** In such a state a player's worn items hold at most one kind of survival enchant, wherever they are worn. */
  lemma OneSurvivalEnchant(s: State, k: Wear, l: Wear, x: Applied, y: Applied)
    requires Invariant(s) && k in s.worn && l in s.worn && k.player == l.player
    ensures s.worn[k] in s.items && s.worn[l] in s.items
    ensures x in s.items[s.worn[k]].rows && y in s.items[s.worn[l]].rows && IsSurvival(x.enchant) && IsSurvival(y.enchant) ==>
      x.enchant == y.enchant
  {
    hide Scope, IsSurvival;
    assert RowMatches(s, k) && RowMatches(s, l) && WornSafe(s, k, l);
    ScopeSymmetric(x.enchant, y.enchant);
  }

  /** Slot rows and worn items are one-to-one: no item sits in two slots. */
  lemma OneSlotPerItem(s: State, k: Wear, l: Wear)
    requires Invariant(s) && k in s.worn && l in s.worn && s.worn[k] == s.worn[l]
    ensures k == l
  {
    assert RowMatches(s, k) && RowMatches(s, l);
  }

  // ---- rows of several items

  lemma {:induction false} RowsOfMembers(items: map<ItemId, Item>, ids: seq<ItemId>)
    ensures forall x :: x in RowsOf(items, ids) <==> exists id :: id in ids && id in items && x in items[id].rows
  {
    if ids == [] {
    } else {
      RowsOfMembers(items, ids[1..]);
      var head := if ids[0] in items then items[ids[0]].rows else [];
      assert RowsOf(items, ids) == head + RowsOf(items, ids[1..]);
      forall x
        ensures x in RowsOf(items, ids) <==> exists id :: id in ids && id in items && x in items[id].rows
      {
        if x in RowsOf(items, ids) {
          if x in head {
            assert ids[0] in ids;
          } else {
            var id :| id in ids[1..] && id in items && x in items[id].rows;
            assert id in ids;
          }
        }
        if id :| id in ids && id in items && x in items[id].rows {
          if id != ids[0] {
            assert id in ids[1..];
          }
        }
      }
    }
  }

  /** Without a clash no two rows at all are at loadout scope. */
  lemma NoClashMeans(rows: seq<Applied>)
    ensures LoadoutClash(rows) <==> exists x, y :: x in rows && y in rows && Scope(x.enchant, y.enchant) == EquippedArmorLoadout
  {
    hide Scope;
    if x, y :| x in rows && y in rows && Scope(x.enchant, y.enchant) == EquippedArmorLoadout {
      var i :| 0 <= i < |rows| && rows[i] == x;
      var j :| 0 <= j < |rows| && rows[j] == y;
      ScopeSymmetric(x.enchant, y.enchant);
      ScopeSymmetric(x.enchant, x.enchant);
      assert i != j;
      assert i < j ==> Scope(rows[i].enchant, rows[j].enchant) == EquippedArmorLoadout;
      assert j < i ==> Scope(rows[j].enchant, rows[i].enchant) == EquippedArmorLoadout;
    }
  }

  ghost predicate WornAt(s: State, p: PlayerId, skip: Option<GearSlot>, j: nat, id: ItemId) {
    && j < 4
    && var key := Wear(p, Gear(ARMOR_SLOTS[j]));
    && key in s.worn && skip != Some(key.slot) && s.worn[key] == id
  }

  /** The items a player wears in armor slots, apart from one. */
  lemma {:induction false} WornFromMembers(s: State, p: PlayerId, skip: Option<GearSlot>, k: nat)
    requires k <= 4
    ensures |WornFrom(s, p, skip, k)| <= 4 - k
    ensures forall id :: id in WornFrom(s, p, skip, k) <==> exists j :: k <= j && WornAt(s, p, skip, j, id)
    decreases 4 - k
  {
    hide WornAt;
    if k == 4 {
      NoneBeyond(s, p, skip);
    } else {
      WornFromMembers(s, p, skip, k + 1);
      WornHere(s, p, skip, k);
      forall id | id in WornFrom(s, p, skip, k)
        ensures exists j :: k <= j && WornAt(s, p, skip, j, id)
      {
        if !WornAt(s, p, skip, k, id) {
          assert id in WornFrom(s, p, skip, k + 1);
        }
      }
    }
  }

  lemma WornHere(s: State, p: PlayerId, skip: Option<GearSlot>, k: nat)
    requires k < 4
    ensures forall id :: id in WornFrom(s, p, skip, k) <==> WornAt(s, p, skip, k, id) || id in WornFrom(s, p, skip, k + 1)
    ensures |WornFrom(s, p, skip, k)| <= |WornFrom(s, p, skip, k + 1)| + 1
  {
  }

  lemma NoneBeyond(s: State, p: PlayerId, skip: Option<GearSlot>)
    ensures WornFrom(s, p, skip, 4) == [] && forall j, id :: 4 <= j ==> !WornAt(s, p, skip, j, id)
  {
  }

  lemma ArmorIndex(slot: Slot) returns (j: nat)
    requires IsArmor(slot)
    ensures j < 4 && ARMOR_SLOTS[j] == slot
  {
    j := if slot == Helmet then 0 else if slot == Chestplate then 1 else if slot == Leggings then 2 else 3;
  }

  lemma {:induction false} RowsOfLength(items: map<ItemId, Item>, ids: seq<ItemId>)
    requires forall id :: id in items ==> ItemLegal(items[id])
    ensures |RowsOf(items, ids)| <= ENCHANT_COUNT * |ids|
  {
    hide ItemLegal;
    if ids == [] {
    } else {
      RowsOfLength(items, ids[1..]);
      if ids[0] in items {
        ItemRowsFew(items[ids[0]]);
      }
    }
  }

  /** A legal item has at most one row per enchant. */
  lemma ItemRowsFew(item: Item)
    requires ItemLegal(item)
    ensures |item.rows| <= ENCHANT_COUNT
  {
    if item.rows != [] {
      DistinctEnchants(item.gear.value.slot, item.capacity, item.rows);
      DistinctRowsFew(item.rows, set i | 0 <= i < |item.rows| :: item.rows[i].enchant);
    }
  }

  lemma {:induction false} DistinctRowsFew(rows: seq<Applied>, enchants: set<Enchant>)
    requires forall i, j :: 0 <= i < j < |rows| ==> rows[i].enchant != rows[j].enchant
    requires forall i :: 0 <= i < |rows| ==> rows[i].enchant in enchants
    ensures |rows| <= |enchants| <= ENCHANT_COUNT
  {
    AtMostAll(enchants);
    if rows == [] {
    } else {
      DistinctRowsFew(rows[1..], enchants - {rows[0].enchant});
    }
  }

  // ---- equip

  /** Whether the loadout an equip would make holds two different survival enchants. */
  ghost predicate WouldClash(s: State, p: PlayerId, id: ItemId, slot: GearSlot) {
    exists a, b :: InProspective(s, p, id, slot, a) && InProspective(s, p, id, slot, b) && !PairSafeIn(s, a, b)
  }

  ghost predicate PairSafeIn(s: State, a: ItemId, b: ItemId) {
    a in s.items && b in s.items ==> PairSafe(s.items[a], s.items[b])
  }

  /** The target, or an item worn in another armor slot. */
  ghost predicate InProspective(s: State, p: PlayerId, id: ItemId, slot: GearSlot, a: ItemId) {
    a == id || exists j :: WornAt(s, p, Some(slot), j, a)
  }

  lemma ProspectiveMembers(s: State, p: PlayerId, id: ItemId, slot: GearSlot)
    ensures forall a :: a in Prospective(s, p, id, slot) <==> InProspective(s, p, id, slot, a)
    ensures slot.Gear? && IsArmor(slot.slot) && id !in WornFrom(s, p, Some(slot), 0) ==>
      |Prospective(s, p, id, slot)| <= MAX_EQUIPPED_ARMOR_ITEMS
  {
    hide WornFrom, WornAt;
    WornFromMembers(s, p, Some(slot), 0);
    if slot.Gear? && IsArmor(slot.slot) {
      var j := ArmorIndex(slot.slot);
      SkippedShorter(s, p, slot, 0, j);
    }
  }

  /** Leaving out one armor slot leaves at most three items. */
  lemma {:induction false} SkippedShorter(s: State, p: PlayerId, slot: GearSlot, k: nat, j: nat)
    requires k <= j < 4 && slot == Gear(ARMOR_SLOTS[j])
    ensures |WornFrom(s, p, Some(slot), k)| <= 3 - k
    decreases j - k
  {
    if k < j {
      SkippedShorter(s, p, slot, k + 1, j);
    } else {
      WornFromMembers(s, p, Some(slot), k + 1);
    }
  }

  /** The guard refuses an armor equip exactly when it would bring two different survival enchants together. */
  lemma GuardExact(s: State, p: PlayerId, id: ItemId, slot: GearSlot)
    requires Invariant(s) && id in s.items && s.items[id].place != Equipped
    ensures Guard(s, p, id, slot)
         == if slot.Gear? && IsArmor(slot.slot) && WouldClash(s, p, id, slot) then Some(EquippedArmorEnchantConflict) else None
  {
    hide Prospective, LoadoutClash, WornAt, Scope, ItemLegal, WornSafe;
    if slot.Gear? && IsArmor(slot.slot) {
      var ids := Prospective(s, p, id, slot);
      NotWornElsewhere(s, p, id, slot);
      ProspectiveMembers(s, p, id, slot);
      RowsOfLength(s.items, ids);
      RowsOfMembers(s.items, ids);
      NoClashMeans(RowsOf(s.items, ids));
      ClashBetweenItems(s, p, id, slot, RowsOf(s.items, ids));
    }
  }

  lemma NotWornElsewhere(s: State, p: PlayerId, id: ItemId, slot: GearSlot)
    requires Matching(s) && id in s.items && s.items[id].place != Equipped
    ensures id !in WornFrom(s, p, Some(slot), 0)
  {
    hide WornFrom;
    WornFromMembers(s, p, Some(slot), 0);
    forall j: nat
      ensures !WornAt(s, p, Some(slot), j, id)
    {
      assert j < 4 ==> RowMatches(s, Wear(p, Gear(ARMOR_SLOTS[j])));
    }
  }

  lemma ClashBetweenItems(s: State, p: PlayerId, id: ItemId, slot: GearSlot, rows: seq<Applied>)
    requires forall x :: x in rows <==> exists a :: InProspective(s, p, id, slot, a) && a in s.items && x in s.items[a].rows
    ensures WouldClash(s, p, id, slot)
        <==> exists x, y :: x in rows && y in rows && Scope(x.enchant, y.enchant) == EquippedArmorLoadout
  {
    hide Scope, InProspective;
    if a, b :| InProspective(s, p, id, slot, a) && InProspective(s, p, id, slot, b) && !PairSafeIn(s, a, b) {
      var x, y :| x in s.items[a].rows && y in s.items[b].rows && Scope(x.enchant, y.enchant) == EquippedArmorLoadout;
      assert x in rows && y in rows;
    }
    if x, y :| x in rows && y in rows && Scope(x.enchant, y.enchant) == EquippedArmorLoadout {
      var a :| InProspective(s, p, id, slot, a) && a in s.items && x in s.items[a].rows;
      var b :| InProspective(s, p, id, slot, b) && b in s.items && y in s.items[b].rows;
      assert !PairSafeIn(s, a, b);
    }
  }

  /** What an equip means in a reachable state: the first of these causes refuses it, a worn item stays as it is, and otherwise
      exactly this item is worn and the one it displaces goes back to the locker. No integrity error is among the causes. */
  ghost function Equipping(s: State, p: PlayerId, id: ItemId): Result<(State, EquipReceipt), GearError> {
    if p !in s.players || s.players[p] == Deleted then Err(PlayerNotFound)
    else if s.players[p] != Active then Err(AccountFrozen)
    else if id !in s.items || s.items[id].owner != p then Err(ItemNotFound)
    else if s.items[id].gear.None? then Err(NotEquippable)
    else
      var slot := s.items[id].gear.value;
      var key := Wear(p, slot);
      if s.items[id].place == Equipped then Ok((s, EquipReceipt(slot, None)))
      else if s.items[id].place != ToolLocker then Err(ItemNotInLocker)
      else if slot.Gear? && IsArmor(slot.slot) && WouldClash(s, p, id, slot) then Err(EquippedArmorEnchantConflict)
      else Ok((Wearing(s, p, id, slot), EquipReceipt(slot, if key in s.worn then Some(s.worn[key]) else None)))
  }

  lemma EquipExact(s: State, p: PlayerId, id: ItemId)
    requires Invariant(s)
    ensures Equip(s, p, id) == Equipping(s, p, id)
  {
    hide Guard, WouldClash, Wearing, ItemLegal, WornSafe, Legal, Safe;
    if LockItem(s, p, id).Ok? && s.items[id].gear.Some? {
      assert ItemMatches(s, id);
      if s.items[id].place == ToolLocker {
        GuardExact(s, p, id, s.items[id].gear.value);
      }
    }
  }

  lemma WearingMatches(s: State, p: PlayerId, id: ItemId, slot: GearSlot)
    requires Matching(s) && id in s.items && s.items[id].owner == p && s.items[id].gear == Some(slot)
    requires s.items[id].place != Equipped
    ensures Matching(Wearing(s, p, id, slot))
  {
    var after, key := Wearing(s, p, id, slot), Wear(p, slot);
    assert RowMatches(s, key);
    forall k
      ensures RowMatches(after, k)
    {
      assert RowMatches(s, k);
    }
    forall i
      ensures ItemMatches(after, i)
    {
      assert ItemMatches(s, i);
    }
  }

  lemma MovedRows(items: map<ItemId, Item>, id: ItemId, place: Place)
    ensures Moved(items, id, place).Keys == items.Keys
    ensures forall i :: i in items ==> Moved(items, id, place)[i] == items[i].(place := Moved(items, id, place)[i].place)
  {
  }

  /** Moving an item does not touch its rows. */
  lemma WearingRows(s: State, p: PlayerId, id: ItemId, slot: GearSlot)
    ensures Wearing(s, p, id, slot).items.Keys == s.items.Keys
    ensures forall i :: i in s.items ==>
      Wearing(s, p, id, slot).items[i] == s.items[i].(place := Wearing(s, p, id, slot).items[i].place)
  {
    hide Moved;
    var key := Wear(p, slot);
    if key in s.worn {
      MovedRows(s.items, s.worn[key], ToolLocker);
      MovedRows(Moved(s.items, s.worn[key], ToolLocker), id, Equipped);
    } else {
      MovedRows(s.items, id, Equipped);
    }
  }

  lemma SamePlaceLegal(a: Item, b: Item)
    requires ItemLegal(a) && b == a.(place := b.place)
    ensures ItemLegal(b)
  {
  }

  lemma WearingSafe(s: State, p: PlayerId, id: ItemId, slot: GearSlot)
    requires Invariant(s) && id in s.items && s.items[id].owner == p && s.items[id].gear == Some(slot)
    requires slot.Gear? && IsArmor(slot.slot) ==> !WouldClash(s, p, id, slot)
    ensures Safe(Wearing(s, p, id, slot))
  {
    hide Scope, Wearing, ItemLegal, InProspective;
    WearingRows(s, p, id, slot);
    WearingSlots(s, p, id, slot);
    var after, key := Wearing(s, p, id, slot), Wear(p, slot);
    forall k, l
      ensures WornSafe(after, k, l)
    {
      assert WornSafe(s, k, l);
      if k in after.worn && l in after.worn && k.player == l.player {
        if k == key || l == key {
          SafeWithNew(s, p, id, slot, k, l);
        }
      }
    }
  }

  lemma WearingSlots(s: State, p: PlayerId, id: ItemId, slot: GearSlot)
    ensures Wearing(s, p, id, slot).worn == s.worn[Wear(p, slot) := id]
  {
  }

  /** The newly worn item against itself or against another item that stays worn. */
  lemma SafeWithNew(s: State, p: PlayerId, id: ItemId, slot: GearSlot, k: Wear, l: Wear)
    requires Invariant(s) && id in s.items && s.items[id].owner == p && s.items[id].gear == Some(slot)
    requires slot.Gear? && IsArmor(slot.slot) ==> !WouldClash(s, p, id, slot)
    requires k.player == l.player == p && (k == Wear(p, slot) || l == Wear(p, slot))
    requires (k == Wear(p, slot) || k in s.worn) && (l == Wear(p, slot) || l in s.worn)
    ensures var a := if k == Wear(p, slot) then id else s.worn[k];
      var b := if l == Wear(p, slot) then id else s.worn[l];
      PairSafeIn(s, a, b)
  {
    hide Scope, ItemLegal, WouldClash, Safe;
    var a := if k == Wear(p, slot) then id else s.worn[k];
    var b := if l == Wear(p, slot) then id else s.worn[l];
    assert RowMatches(s, k) && RowMatches(s, l);
    if ArmorKey(k) && ArmorKey(l) {
      var i := ArmorIndex(k.slot.slot);
      var j := ArmorIndex(l.slot.slot);
      ProspectiveAt(s, p, id, slot, k, i);
      ProspectiveAt(s, p, id, slot, l, j);
      NoPairClash(s, p, id, slot, a, b);
    } else {
      assert a in s.items && b in s.items;
      if !ArmorKey(k) {
        NoSurvivalOff(s.items[a]);
        PlainSafe(s.items[a], s.items[b]);
      } else {
        NoSurvivalOff(s.items[b]);
        PlainSafe(s.items[b], s.items[a]);
        PairSymmetric(s.items[b], s.items[a]);
      }
    }
  }

  predicate ArmorKey(k: Wear) {
    k.slot.Gear? && IsArmor(k.slot.slot)
  }

  lemma ProspectiveAt(s: State, p: PlayerId, id: ItemId, slot: GearSlot, k: Wear, i: nat)
    requires k.player == p && ArmorKey(k) && i < 4 && ARMOR_SLOTS[i] == k.slot.slot
    requires k == Wear(p, slot) || k in s.worn
    ensures InProspective(s, p, id, slot, if k == Wear(p, slot) then id else s.worn[k])
  {
    assert k != Wear(p, slot) ==> WornAt(s, p, Some(slot), i, s.worn[k]);
  }

  lemma NoPairClash(s: State, p: PlayerId, id: ItemId, slot: GearSlot, a: ItemId, b: ItemId)
    requires !WouldClash(s, p, id, slot) && InProspective(s, p, id, slot, a) && InProspective(s, p, id, slot, b)
    ensures PairSafeIn(s, a, b)
  {
  }

  ghost predicate NoSurvival(item: Item) {
    forall x :: x in item.rows ==> !IsSurvival(x.enchant)
  }

  /** Gear that is not armor never carries a survival enchant. */
  lemma NoSurvivalOff(item: Item)
    requires ItemLegal(item) && !(item.gear.Some? && item.gear.value.Gear? && IsArmor(item.gear.value.slot))
    ensures NoSurvival(item)
  {
    hide IsSurvival, IsArmor, AppliesTo, MaxLevel, Occupancy;
    forall x | x in item.rows
      ensures !IsSurvival(x.enchant)
    {
      assert x in Rows(item.rows);
      assert RowLegal(item.gear.value.slot, x);
      if IsSurvival(x.enchant) {
        SurvivalOnArmor(x.enchant, item.gear.value.slot);
      }
    }
  }

  lemma PlainSafe(a: Item, b: Item)
    requires NoSurvival(a)
    ensures PairSafe(a, b)
  {
    hide Scope, IsSurvival;
    forall x, y | x in a.rows && y in b.rows
      ensures Scope(x.enchant, y.enchant) != EquippedArmorLoadout
    {
      ScopeSymmetric(x.enchant, y.enchant);
    }
  }

  lemma PairSymmetric(a: Item, b: Item)
    ensures PairSafe(a, b) <==> PairSafe(b, a)
  {
    hide Scope;
    forall x: Applied, y: Applied
      ensures Scope(x.enchant, y.enchant) == Scope(y.enchant, x.enchant)
    {
      ScopeSymmetric(x.enchant, y.enchant);
    }
  }

  lemma EquipKeeps(s: State, p: PlayerId, id: ItemId)
    requires Invariant(s)
    ensures Equip(s, p, id).Ok? ==> Invariant(Equip(s, p, id).value.0)
  {
    hide Equip, Matching, Safe, WouldClash, Wearing, ItemLegal;
    EquipExact(s, p, id);
    var r := Equip(s, p, id);
    if r.Ok? && s.items[id].place != Equipped {
      var slot := r.value.1.slot;
      WearingMatches(s, p, id, slot);
      WearingSafe(s, p, id, slot);
      WearingRows(s, p, id, slot);
      forall i | i in r.value.0.items
        ensures ItemLegal(r.value.0.items[i])
      {
        SamePlaceLegal(s.items[i], r.value.0.items[i]);
      }
    }
  }

  // ---- unequip

  lemma {:induction false} SlotOfExact(s: State, p: PlayerId, id: ItemId, slots: seq<GearSlot>)
    ensures match SlotOf(s, p, id, slots)
      case Some(slot) => Wear(p, slot) in s.worn && s.worn[Wear(p, slot)] == id
      case None => forall slot <- slots :: Wear(p, slot) in s.worn ==> s.worn[Wear(p, slot)] != id
  {
    if slots == [] {
    } else {
      SlotOfExact(s, p, id, slots[1..]);
    }
  }

  lemma EverySlot(slot: GearSlot)
    ensures slot in ALL_SLOTS
  {
    match slot
    case Totem => assert ALL_SLOTS[7] == slot;
    case Gear(g) =>
      match g
      case Pickaxe => assert ALL_SLOTS[0] == slot;
      case Sword => assert ALL_SLOTS[1] == slot;
      case FishingRod => assert ALL_SLOTS[2] == slot;
      case Helmet => assert ALL_SLOTS[3] == slot;
      case Chestplate => assert ALL_SLOTS[4] == slot;
      case Leggings => assert ALL_SLOTS[5] == slot;
      case Boots => assert ALL_SLOTS[6] == slot;
  }

  function Taken(s: State, p: PlayerId, id: ItemId, slot: GearSlot): State {
    State(s.players, Moved(s.items, id, ToolLocker), s.worn - {Wear(p, slot)})
  }

  /** Unequip finds the slot row of every worn item, removes it and locks the item away; the integrity error is unreachable. */
  lemma UnequipExact(s: State, p: PlayerId, id: ItemId)
    requires Invariant(s)
    ensures match Unequip(s, p, id)
      case Err(e) => e in {PlayerNotFound, AccountFrozen, ItemNotFound, ItemNotEquipped}
      case Ok((after, slot)) =>
        && id in s.items && s.items[id].owner == p && s.items[id].place == Equipped && s.items[id].gear == Some(slot)
        && Wear(p, slot) in s.worn && s.worn[Wear(p, slot)] == id && after == Taken(s, p, id, slot)
  {
    hide ItemLegal, WornSafe, SlotOf;
    if LockItem(s, p, id).Ok? && s.items[id].place == Equipped {
      assert ItemMatches(s, id);
      SlotOfExact(s, p, id, ALL_SLOTS);
      EverySlot(s.items[id].gear.value);
      var slot := SlotOf(s, p, id, ALL_SLOTS).value;
      assert RowMatches(s, Wear(p, slot));
    }
  }

  lemma UnequipKeeps(s: State, p: PlayerId, id: ItemId)
    requires Invariant(s)
    ensures Unequip(s, p, id).Ok? ==> Invariant(Unequip(s, p, id).value.0)
  {
    hide Unequip, ItemLegal, PairSafe;
    UnequipExact(s, p, id);
    var r := Unequip(s, p, id);
    if r.Ok? {
      var after, slot := r.value.0, r.value.1;
      MovedRows(s.items, id, ToolLocker);
      forall k
        ensures RowMatches(after, k)
      {
        assert RowMatches(s, k) && RowMatches(s, Wear(p, slot));
      }
      forall i
        ensures ItemMatches(after, i)
      {
        assert ItemMatches(s, i);
      }
      forall i | i in after.items
        ensures ItemLegal(after.items[i])
      {
        SamePlaceLegal(s.items[i], after.items[i]);
      }
      forall k, l
        ensures WornSafe(after, k, l)
      {
        assert WornSafe(s, k, l);
        SamePair(s, after, k, l);
      }
    }
  }

  /** Pairs stay safe where the slot rows and the enchant rows are the same. */
  lemma SamePair(s: State, after: State, k: Wear, l: Wear)
    requires WornSafe(s, k, l)
    requires k in after.worn ==> k in s.worn && after.worn[k] == s.worn[k]
    requires l in after.worn ==> l in s.worn && after.worn[l] == s.worn[l]
    requires after.items.Keys == s.items.Keys && forall i :: i in s.items ==> after.items[i].rows == s.items[i].rows
    ensures WornSafe(after, k, l)
  {
  }

  // ---- the book writer

  /** In a reachable state the loadout always validates; only a missing player or target is refused. */
  lemma LoadoutExact(s: State, p: PlayerId, id: ItemId)
    requires Invariant(s)
    ensures ValidateLoadout(s, p, id)
         == if p !in s.players || s.players[p] == Deleted then Err(PlayerNotFound)
            else if id !in s.items || s.items[id].owner != p then Err(TargetItemNotFound)
            else Ok(WornArmor(s, p))
  {
    hide LoadoutClash, RowsClash, WornLegal, ItemLegal, WornFrom, WornAt, Scope, RowsLegal;
    var worn := WornArmor(s, p);
    WornArmorFacts(s, p);
    var locked := if id in worn then worn else worn + [id];
    if p in s.players && s.players[p] != Deleted {
      if id in s.items {
        RowsOfLength(s.items, locked);
        assert forall a <- locked :: a in s.items;
      } else {
        assert id in locked;
      }
    }
  }

  lemma WornArmorFacts(s: State, p: PlayerId)
    requires Invariant(s)
    ensures |WornArmor(s, p)| <= 4
    ensures forall a :: a in WornArmor(s, p) ==>
      a in s.items && s.items[a].owner == p && s.items[a].place == Equipped && !RowsClash(s.items[a].rows)
    ensures forall k :: 0 <= k < 4 ==> WornLegal(s, p, ARMOR_SLOTS[k])
    ensures !LoadoutClash(RowsOf(s.items, WornArmor(s, p)))
  {
    hide Scope, ItemLegal, WornFrom, RowsClash, LoadoutClash, AppliesTo, MaxLevel, RowsLegal, PairSafe, WornLegal;
    var worn := WornArmor(s, p);
    WornFromMembers(s, p, None, 0);
    forall a | a in worn
      ensures a in s.items && s.items[a].owner == p && s.items[a].place == Equipped && !RowsClash(s.items[a].rows)
    {
      var j: nat :| WornAt(s, p, None, j, a);
      assert RowMatches(s, Wear(p, Gear(ARMOR_SLOTS[j])));
      NoRowsClash(s.items[a]);
    }
    forall k: nat | k < 4
      ensures WornLegal(s, p, ARMOR_SLOTS[k])
    {
      assert RowMatches(s, Wear(p, Gear(ARMOR_SLOTS[k])));
      WornRowsLegal(s, p, ARMOR_SLOTS[k]);
    }
    WornNoClash(s, p);
  }

  lemma NoRowsClash(item: Item)
    requires ItemLegal(item)
    ensures !RowsClash(item.rows)
  {
    hide Scope, RowLegal, Occupancy;
    forall i, j | 0 <= i < j < |item.rows|
      ensures Scope(item.rows[i].enchant, item.rows[j].enchant) == NoConflict
    {
      assert item.rows[i] in Rows(item.rows) && item.rows[j] in Rows(item.rows);
      assert Compatible(item.rows[i], item.rows[j]);
    }
  }

  lemma WornRowsLegal(s: State, p: PlayerId, slot: Slot)
    requires RowMatches(s, Wear(p, Gear(slot))) && Legal(s)
    ensures WornLegal(s, p, slot)
  {
    hide AppliesTo, MaxLevel, Occupancy;
    var key := Wear(p, Gear(slot));
    if key in s.worn {
      var item := s.items[s.worn[key]];
      forall i | 0 <= i < |item.rows|
        ensures RowLegal(slot, item.rows[i])
      {
        assert item.rows[i] in Rows(item.rows);
      }
    }
  }

  lemma WornNoClash(s: State, p: PlayerId)
    requires Invariant(s)
    ensures !LoadoutClash(RowsOf(s.items, WornArmor(s, p)))
  {
    hide Scope, ItemLegal, WornFrom, LoadoutClash;
    var rows := RowsOf(s.items, WornArmor(s, p));
    WornFromMembers(s, p, None, 0);
    RowsOfMembers(s.items, WornArmor(s, p));
    NoClashMeans(rows);
    forall x, y | x in rows && y in rows
      ensures Scope(x.enchant, y.enchant) != EquippedArmorLoadout
    {
      var a :| a in WornArmor(s, p) && a in s.items && x in s.items[a].rows;
      var b :| b in WornArmor(s, p) && b in s.items && y in s.items[b].rows;
      var i: nat :| WornAt(s, p, None, i, a);
      var j: nat :| WornAt(s, p, None, j, b);
      assert WornSafe(s, Wear(p, Gear(ARMOR_SLOTS[i])), Wear(p, Gear(ARMOR_SLOTS[j])));
    }
  }

  /** A worn sibling of the target holds a survival enchant other than the incoming one. */
  ghost predicate SiblingConflict(s: State, p: PlayerId, id: ItemId, incoming: Enchant) {
    exists a, x :: a in WornArmor(s, p) && a != id && a in s.items && x in s.items[a].rows
                   && Scope(incoming, x.enchant) == EquippedArmorLoadout
  }

  /** What applying a book means in a reachable state: the first of these causes refuses it, and otherwise exactly this item's
      rows become those of the preview. No integrity error is among the causes, and the sibling conflict is reported exactly
      when the target is worn and a sibling clashes. */
  ghost function Applying(s: State, p: PlayerId, id: ItemId, incoming: Enchant, level: int)
    : Result<(State, Action), GearError>
  {
    if p !in s.players || s.players[p] == Deleted then Err(PlayerNotFound)
    else if id !in s.items || s.items[id].owner != p then Err(TargetItemNotFound)
    else
      var item := s.items[id];
      if !item.ordinary || item.gear.None? || item.gear.value.Totem? then Err(NotOrdinaryEquipment)
      else if item.starter then Err(StarterEquipment)
      else if !item.enchantable then Err(ItemNotEnchantable)
      else match PreviewBook(item.gear.value.slot, item.capacity, item.rows, incoming, level)
        case Err(e) => Err(Apply(e))
        case Ok(preview) =>
          if id in WornArmor(s, p) && SiblingConflict(s, p, id, incoming) then Err(IncomingLoadoutConflict)
          else Ok((WithRows(s, id, Written(item.rows, incoming, level, preview.action)), preview.action))
  }

  lemma ApplyExact(s: State, p: PlayerId, id: ItemId, incoming: Enchant, level: int)
    requires Invariant(s)
    ensures ApplyBook(s, p, id, incoming, level) == Applying(s, p, id, incoming, level)
  {
    hide ValidateLoadout, PreviewBook, Written, Scope, WornArmor, IsSurvival, Siblings, RowsOf, Matching, Safe,
         ItemLegal;
    LoadoutExact(s, p, id);
    if ValidateLoadout(s, p, id).Ok? {
      var item := s.items[id];
      ItemRowsFew(item);
      LevelsLegal(item);
      SiblingsExact(s, p, id, incoming);
      if item.gear.Some? && item.gear.value.Gear? {
        NeedsCheck(item.gear.value.slot, item.capacity, item.rows, incoming, level);
        PlainIncoming(s, p, id, incoming);
      }
    }
  }

  lemma LevelsLegal(item: Item)
    requires ItemLegal(item)
    ensures forall i :: 0 <= i < |item.rows| ==> LevelLegal(item.rows[i].enchant, item.rows[i].level)
  {
    hide AppliesTo, MaxLevel, Occupancy;
    forall i | 0 <= i < |item.rows|
      ensures LevelLegal(item.rows[i].enchant, item.rows[i].level)
    {
      assert item.rows[i] in Rows(item.rows);
      assert RowLegal(item.gear.value.slot, item.rows[i]);
    }
  }

  lemma {:induction false} SiblingsMembers(worn: seq<ItemId>, id: ItemId)
    ensures forall a :: a in Siblings(worn, id) <==> a in worn && a != id
  {
    if worn == [] {
    } else {
      SiblingsMembers(worn[1..], id);
    }
  }

  lemma SiblingsExact(s: State, p: PlayerId, id: ItemId, incoming: Enchant)
    ensures (exists x <- RowsOf(s.items, Siblings(WornArmor(s, p), id)) :: Scope(incoming, x.enchant) == EquippedArmorLoadout)
        <==> SiblingConflict(s, p, id, incoming)
  {
    hide Scope, WornArmor;
    SiblingsMembers(WornArmor(s, p), id);
    RowsOfMembers(s.items, Siblings(WornArmor(s, p), id));
  }

  lemma NeedsCheck(slot: Slot, capacity: PerFamily, rows: seq<Applied>, incoming: Enchant, level: int)
    ensures PreviewBook(slot, capacity, rows, incoming, level).Ok? && IsSurvival(incoming) ==>
      PreviewBook(slot, capacity, rows, incoming, level).value.needsLoadoutCheck
  {
    hide PreviewBook, IsSurvival, ValidRows, FitsOrRaises, NothingConflicts, AppliesTo, MaxLevel, Occupancy;
    PreviewExact(slot, capacity, rows, incoming, level);
  }

  /** Only a survival enchant can clash with a sibling. */
  lemma PlainIncoming(s: State, p: PlayerId, id: ItemId, incoming: Enchant)
    ensures SiblingConflict(s, p, id, incoming) ==> IsSurvival(incoming)
  {
    hide Scope, IsSurvival, WornArmor;
    if SiblingConflict(s, p, id, incoming) {
      var a, x :| a in WornArmor(s, p) && a != id && a in s.items && x in s.items[a].rows
                  && Scope(incoming, x.enchant) == EquippedArmorLoadout;
      ScopeSymmetric(incoming, x.enchant);
    }
  }

  // ---- new rows on one item

  lemma RowsKeepMatching(s: State, id: ItemId, rows: seq<Applied>)
    requires Matching(s) && id in s.items
    ensures Matching(WithRows(s, id, rows))
  {
    var after := WithRows(s, id, rows);
    forall k
      ensures RowMatches(after, k)
    {
      assert RowMatches(s, k);
    }
    forall i
      ensures ItemMatches(after, i)
    {
      assert ItemMatches(s, i);
    }
  }

  lemma RowsKeepLegal(s: State, id: ItemId, rows: seq<Applied>)
    requires Legal(s) && id in s.items && ItemLegal(s.items[id].(rows := rows))
    ensures Legal(WithRows(s, id, rows))
  {
    hide ItemLegal;
  }

  /** New rows are safe when they are safe against every other item the player wears. */
  lemma RowsKeepSafe(s: State, id: ItemId, rows: seq<Applied>)
    requires Invariant(s) && id in s.items
    requires var item := s.items[id].(rows := rows);
      && ItemLegal(item)
      && forall k, l ::
        k in s.worn && s.worn[k] == id && l in s.worn && s.worn[l] != id && l.player == k.player && s.worn[l] in s.items ==>
          PairSafe(item, s.items[s.worn[l]])
    ensures Safe(WithRows(s, id, rows))
  {
    hide PairSafe, ItemLegal;
    var after, item := WithRows(s, id, rows), s.items[id].(rows := rows);
    OwnPairSafe(item);
    forall k, l
      ensures WornSafe(after, k, l)
    {
      assert WornSafe(s, k, l);
      if k in s.worn && l in s.worn && k.player == l.player && s.worn[k] in s.items && s.worn[l] in s.items {
        PairSymmetric(item, s.items[s.worn[k]]);
        assert RowMatches(s, k) && RowMatches(s, l);
      }
    }
  }

  /** Rows of one legal item never clash with each other. */
  lemma OwnPairSafe(item: Item)
    requires ItemLegal(item)
    ensures PairSafe(item, item)
  {
    hide Scope, RowLegal, Occupancy;
    forall x, y | x in item.rows && y in item.rows
      ensures Scope(x.enchant, y.enchant) != EquippedArmorLoadout
    {
      assert x in Rows(item.rows) && y in Rows(item.rows);
      ScopeSymmetric(x.enchant, x.enchant);
      assert x != y ==> Compatible(x, y);
    }
  }

  lemma WrittenRows(rows: seq<Applied>, incoming: Enchant, level: int, action: Action)
    ensures forall x :: x in Written(rows, incoming, level, action) ==> x.enchant == incoming || x in rows
  {
  }

  lemma WrittenLegal(item: Item, incoming: Enchant, level: int)
    requires item.gear.Some? && item.gear.value.Gear?
    requires PreviewBook(item.gear.value.slot, item.capacity, item.rows, incoming, level).Ok?
    ensures var action := PreviewBook(item.gear.value.slot, item.capacity, item.rows, incoming, level).value.action;
      ItemLegal(item.(rows := Written(item.rows, incoming, level, action)))
  {
    hide PreviewBook, Written, ValidateExistingState, Scope, AppliesTo, MaxLevel, Occupancy, RowLegal, Compatible,
         FitsOrRaises;
    var slot := item.gear.value.slot;
    ResultValid(slot, item.capacity, item.rows, incoming, level);
    PreviewExact(slot, item.capacity, item.rows, incoming, level);
    var action := PreviewBook(slot, item.capacity, item.rows, incoming, level).value.action;
    ValidateExact(slot, item.capacity, Written(item.rows, incoming, level, action));
  }

  lemma ApplyKeeps(s: State, p: PlayerId, id: ItemId, incoming: Enchant, level: int)
    requires Invariant(s)
    ensures ApplyBook(s, p, id, incoming, level).Ok? ==> Invariant(ApplyBook(s, p, id, incoming, level).value.0)
  {
    hide ApplyBook, Matching, Safe, Legal, PreviewBook, Written, ItemLegal, Scope, PairSafe, WornArmor, SiblingConflict;
    ApplyExact(s, p, id, incoming, level);
    var r := ApplyBook(s, p, id, incoming, level);
    if r.Ok? {
      var item := s.items[id];
      var rows := Written(item.rows, incoming, level, r.value.1);
      WrittenLegal(item, incoming, level);
      RowsKeepMatching(s, id, rows);
      RowsKeepLegal(s, id, rows);
      forall k, l | k in s.worn && s.worn[k] == id && l in s.worn && s.worn[l] != id && l.player == k.player
                    && s.worn[l] in s.items
        ensures PairSafe(item.(rows := rows), s.items[s.worn[l]])
      {
        AppliedPairSafe(s, p, id, incoming, level, r.value.1, k, l);
      }
      RowsKeepSafe(s, id, rows);
    }
  }

  /** The enchanted item against another item worn by the same player. */
  lemma AppliedPairSafe(s: State, p: PlayerId, id: ItemId, incoming: Enchant, level: int, action: Action, k: Wear,
                        l: Wear)
    requires Invariant(s) && id in s.items && s.items[id].owner == p
    requires ItemLegal(s.items[id].(rows := Written(s.items[id].rows, incoming, level, action)))
    requires id in WornArmor(s, p) ==> !SiblingConflict(s, p, id, incoming)
    requires k in s.worn && s.worn[k] == id && l in s.worn && s.worn[l] != id && l.player == k.player
    requires s.worn[l] in s.items
    ensures PairSafe(s.items[id].(rows := Written(s.items[id].rows, incoming, level, action)), s.items[s.worn[l]])
  {
    hide Scope, Written, ItemLegal, WornArmor, PairSafe;
    var (item, other) := (s.items[id].(rows := Written(s.items[id].rows, incoming, level, action)), s.items[s.worn[l]]);
    assert RowMatches(s, k) && RowMatches(s, l) && WornSafe(s, k, l);
    if !ArmorKey(k) {
      NoSurvivalOff(item);
      PlainSafe(item, other);
    } else if !ArmorKey(l) {
      NoSurvivalOff(other);
      PlainSafe(other, item);
      PairSymmetric(other, item);
    } else {
      KeyInArmor(s, p, k);
      KeyInArmor(s, p, l);
      WrittenRows(s.items[id].rows, incoming, level, action);
      PairFromRows(s.items[id], item, other, incoming);
    }
  }

  lemma KeyInArmor(s: State, p: PlayerId, k: Wear)
    requires k.player == p && ArmorKey(k) && k in s.worn
    ensures s.worn[k] in WornArmor(s, p)
  {
    hide WornFrom;
    var j := ArmorIndex(k.slot.slot);
    WornFromMembers(s, p, None, 0);
    assert WornAt(s, p, None, j, s.worn[k]);
  }

  lemma PairFromRows(before: Item, after: Item, other: Item, incoming: Enchant)
    requires PairSafe(before, other)
    requires forall x :: x in after.rows ==> x.enchant == incoming || x in before.rows
    requires forall y :: y in other.rows ==> Scope(incoming, y.enchant) != EquippedArmorLoadout
    ensures PairSafe(after, other)
  {
    hide Scope;
  }

  lemma RemoveExactly(s: State, p: PlayerId, id: ItemId, e: Enchant, expectedLevel: int)
    requires Invariant(s)
    ensures match RemoveExact(s, p, id, e, expectedLevel)
      case Err(error) => error in {ItemNotFound, NotOrdinaryEquipment, SelectedEnchantNotFound, SelectedEnchantLevelChanged}
      case Ok(after) =>
        && id in s.items && s.items[id].owner == p && Applied(e, expectedLevel) in s.items[id].rows
        && id in after.items && after == WithRows(s, id, after.items[id].rows)
        && Rows(after.items[id].rows) == Rows(s.items[id].rows) - {Applied(e, expectedLevel)}
        && NoDuplicates(after.items[id].rows)
  {
    hide Matching, Safe, ItemLegal, Scope, MaxLevel, AppliesTo;
    if id in s.items {
      var item := s.items[id];
      ItemRowsFew(item);
      LevelsLegal(item);
      FindRowExact(item.rows, e);
      var found := FindRow(item.rows, e);
      if found.Some? && item.rows[found.value].level == expectedLevel {
        RowRemoved(item, found.value);
      }
    }
  }

  function Without(rows: seq<Applied>, i: nat): seq<Applied>
    requires i < |rows|
  {
    rows[..i] + rows[i + 1..]
  }

  lemma RowRemoved(item: Item, i: nat)
    requires ItemLegal(item) && i < |item.rows|
    ensures NoDuplicates(Without(item.rows, i)) && Rows(Without(item.rows, i)) == Rows(item.rows) - {item.rows[i]}
  {
    hide ValidRows;
    var all, rows := item.rows, Without(item.rows, i);
    assert forall j :: 0 <= j < |rows| ==> rows[j] == all[if j < i then j else j + 1];
    assert NoDuplicates(rows);
    RemovedMembers(all, i);
  }

  lemma RemovedMembers(all: seq<Applied>, i: nat)
    requires i < |all| && NoDuplicates(all)
    ensures Rows(Without(all, i)) == Rows(all) - {all[i]}
  {
    var rows := Without(all, i);
    forall x | x in rows
      ensures x in Rows(all) - {all[i]}
    {
      var j :| 0 <= j < |rows| && rows[j] == x;
      assert x == all[if j < i then j else j + 1];
    }
    forall x | x in Rows(all) - {all[i]}
      ensures x in rows
    {
      var j :| 0 <= j < |all| && all[j] == x;
      assert rows[if j < i then j else j - 1] == x;
    }
  }

  /** Fewer rows are still legal. */
  lemma FewerLegal(item: Item, rows: seq<Applied>)
    requires ItemLegal(item) && NoDuplicates(rows) && Rows(rows) <= Rows(item.rows)
    ensures ItemLegal(item.(rows := rows))
  {
    hide RowLegal, Compatible, Occupancy;
    if rows != [] {
      assert rows[0] in Rows(rows);
      assert item.rows != [];
      OccupancyGrows(Rows(rows), Rows(item.rows));
    }
  }

  lemma RemoveKeeps(s: State, p: PlayerId, id: ItemId, e: Enchant, expectedLevel: int)
    requires Invariant(s)
    ensures RemoveExact(s, p, id, e, expectedLevel).Ok? ==> Invariant(RemoveExact(s, p, id, e, expectedLevel).value)
  {
    hide RemoveExact, Matching, ItemLegal, Scope;
    RemoveExactly(s, p, id, e, expectedLevel);
    var r := RemoveExact(s, p, id, e, expectedLevel);
    if r.Ok? {
      var item, rows := s.items[id], r.value.items[id].rows;
      FewerLegal(item, rows);
      RowsKeepMatching(s, id, rows);
      RowsKeepLegal(s, id, rows);
      assert forall x :: x in rows ==> x in Rows(rows);
      forall k, l | k in s.worn && s.worn[k] == id && l in s.worn && s.worn[l] != id && l.player == k.player
                    && s.worn[l] in s.items
        ensures PairSafe(item.(rows := rows), s.items[s.worn[l]])
      {
        assert WornSafe(s, k, l);
      }
      RowsKeepSafe(s, id, rows);
    }
  }

  // ---- every run

  /** The four writers, and what other services do to the same tables. */
  datatype Command =
    | EquipCommand(player: PlayerId, item: ItemId)
    | UnequipCommand(player: PlayerId, item: ItemId)
    | ApplyCommand(player: PlayerId, item: ItemId, incoming: Enchant, level: int)
    | RemoveCommand(player: PlayerId, item: ItemId, enchant: Enchant, level: int)
    | SetStatus(account: PlayerId, status: Status)
    | NewItem(id: ItemId, created: Item)
    | Relocate(moved: ItemId, place: Place)

  /** A transaction that fails changes nothing. A new item comes plain and unworn, and only unworn items are moved about. */
  ghost function Step(s: State, c: Command): State {
    match c
    case EquipCommand(p, id) => (match Equip(s, p, id) case Ok((after, _)) => after case Err(_) => s)
    case UnequipCommand(p, id) => (match Unequip(s, p, id) case Ok((after, _)) => after case Err(_) => s)
    case ApplyCommand(p, id, e, level) => (match ApplyBook(s, p, id, e, level) case Ok((after, _)) => after case Err(_) => s)
    case RemoveCommand(p, id, e, level) => (match RemoveExact(s, p, id, e, level) case Ok(after) => after case Err(_) => s)
    case SetStatus(p, status) => s.(players := s.players[p := status])
    case NewItem(id, item) =>
      if id in s.items || item.rows != [] || item.place == Equipped then s else s.(items := s.items[id := item])
    case Relocate(id, place) =>
      if id !in s.items || s.items[id].place == Equipped || place == Equipped then s
      else s.(items := Moved(s.items, id, place))
  }

  ghost function Run(s: State, commands: seq<Command>): State
    decreases |commands|
  {
    if commands == [] then s else Run(Step(s, commands[0]), commands[1..])
  }

  lemma OtherKeeps(s: State, c: Command)
    requires Invariant(s) && (c.SetStatus? || c.NewItem? || c.Relocate?)
    ensures Invariant(Step(s, c))
  {
    hide ItemLegal, PairSafe;
    var after := Step(s, c);
    forall k
      ensures RowMatches(after, k)
    {
      assert RowMatches(s, k);
    }
    forall id
      ensures ItemMatches(after, id)
    {
      assert ItemMatches(s, id);
    }
    forall id | id in after.items
      ensures ItemLegal(after.items[id])
    {
      if id in s.items {
        SamePlaceLegal(s.items[id], after.items[id]);
      } else {
        PlainLegal(after.items[id]);
      }
    }
    forall k, l
      ensures WornSafe(after, k, l)
    {
      assert WornSafe(s, k, l) && RowMatches(s, k) && RowMatches(s, l);
    }
  }

  lemma PlainLegal(item: Item)
    requires item.rows == []
    ensures ItemLegal(item)
  {
  }

  lemma StepKeeps(s: State, c: Command)
    requires Invariant(s)
    ensures Invariant(Step(s, c))
  {
    hide Equip, Unequip, ApplyBook, RemoveExact, Invariant;
    match c
    case EquipCommand(p, id) => EquipKeeps(s, p, id);
    case UnequipCommand(p, id) => UnequipKeeps(s, p, id);
    case ApplyCommand(p, id, e, level) => ApplyKeeps(s, p, id, e, level);
    case RemoveCommand(p, id, e, level) => RemoveKeeps(s, p, id, e, level);
    case _ => OtherKeeps(s, c);
  }

  /** In every run slot rows and worn items stay one-to-one and worn armor never holds two different survival enchants. */
  lemma {:induction false} RunKeeps(s: State, commands: seq<Command>)
    requires Invariant(s)
    ensures Invariant(Run(s, commands))
    decreases |commands|
  {
    hide Step, Invariant;
    if commands == [] {
    } else {
      StepKeeps(s, commands[0]);
      RunKeeps(Step(s, commands[0]), commands[1..]);
    }
  }
}
