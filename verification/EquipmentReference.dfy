/** What equipping, unequipping, enchanting and disenchanting do to the tables, and the one reason each is refused, written down
    on the fields. */
module EquipmentReference {
  import opened Numbers
  import opened Enchants
  import opened EnchantApply
  import opened Equipment
  import opened EquipmentRuns

  // ---- the catalog

  /** The enchants of which one item holds at most one. */
  const FAMILIES: seq<set<Enchant>> := [
    {GUARDIAN, NINE_LIFE, PHOENIX}, {TRENCH, NUKE}, {CAT, DOG}, {ANGEL, EVIL}, {THORN, REINFORCE}, {SWEEPING_EDGE, PIERCING},
    {SWEEPING_EDGE, ARMOR_PIERCING}, {SHARPNESS, SMITE, BANE_OF_ARTHROPODS}, {FIRE_ASPECT, FREEZING, BLEEDING},
    {ANNIHILATION, BLOOD_FRENZY, EXECUTION}]

  /** Two enchants conflict if and only if they are different members of one family, and they conflict across worn armor if
      and only if it is the first. */
  lemma ConflictsAreFamilies(left: Enchant, right: Enchant)
    ensures Scope(left, right) != NoConflict
        <==> left != right && exists f :: 0 <= f < |FAMILIES| && left in FAMILIES[f] && right in FAMILIES[f]
    ensures Scope(left, right) == EquippedArmorLoadout <==> left != right && left in FAMILIES[0] && right in FAMILIES[0]
  {
    if Scope(left, right) != NoConflict {
      var f := FamilyOf(left, right);
    }
  }

  lemma FamilyOf(left: Enchant, right: Enchant) returns (f: nat)
    requires Scope(left, right) != NoConflict
    ensures f < |FAMILIES| && left in FAMILIES[f] && right in FAMILIES[f]
  {
    f := if left in FAMILIES[0] && right in FAMILIES[0] then 0
         else if left in FAMILIES[1] && right in FAMILIES[1] then 1
         else if left in FAMILIES[2] && right in FAMILIES[2] then 2
         else if left in FAMILIES[3] && right in FAMILIES[3] then 3
         else if left in FAMILIES[4] && right in FAMILIES[4] then 4
         else if left in FAMILIES[5] && right in FAMILIES[5] then 5
         else if left in FAMILIES[6] && right in FAMILIES[6] then 6
         else if left in FAMILIES[7] && right in FAMILIES[7] then 7
         else if left in FAMILIES[8] && right in FAMILIES[8] then 8
         else 9;
  }

  /** The enchants that only one kind of gear takes. */
  function Catalog(slot: Slot): set<Enchant> {
    match slot
    case Pickaxe => {EFFICIENCY, FORTUNE, SMELT, PICKAXE_TREASURE, TRENCH, NUKE}
    case FishingRod =>
      {LURE, LUCK_OF_THE_SEA, LUCK, STRENGTHEN, SHARP_HOOK, BAIT_RACK, FISHING_ROD_TREASURE, MULTI_TREASURE, MULTICATCH}
    case Sword =>
      {SHARPNESS, SMITE, BANE_OF_ARTHROPODS, SWEEPING_EDGE, FIRE_ASPECT, LOOTING, KNOCKBACK, DEVOUR, EXECUTION, BLEEDING,
       BLOOD_FRENZY, ARMOR_PIERCING, PIERCING, FREEZING, ANNIHILATION}
    case Helmet => {ANGEL, EVIL} + ANY_ARMOR
    case Chestplate => {GUARDIAN, PHOENIX} + ANY_ARMOR
    case Leggings => {DODGE} + ANY_ARMOR
    case Boots => {CAT, DOG, DAY_WALKER, NIGHT_WALKER, SHADOW_WALKER} + ANY_ARMOR
  }

  const ANY_ARMOR: set<Enchant> := {PROTECTION, THORN, REINFORCE, NINE_LIFE, SOUL_GRIND}

  const SPECIAL: set<Enchant> := {STABILIZE, SPARKLING, EMPOWERING, GRINDING, MOSAIC, CARVING, MASTER}

  /** Where an enchant may be placed, from the gear's side. */
  lemma CatalogExact(e: Enchant, slot: Slot)
    ensures AppliesTo(e, slot) <==> e in Catalog(slot) || e in SPECIAL || e in {UNBREAKING, MENDING}
  {
    match slot
    case Pickaxe => OnPickaxe(e);
    case FishingRod => OnRod(e);
    case Sword => OnSword(e);
    case _ => OnArmorSlots(e, slot);
  }

  lemma OnPickaxe(e: Enchant)
    ensures AppliesTo(e, Pickaxe) <==> e in Catalog(Pickaxe) || e in SPECIAL || e in {UNBREAKING, MENDING}
  {
  }

  lemma OnRod(e: Enchant)
    ensures AppliesTo(e, FishingRod) <==> e in Catalog(FishingRod) || e in SPECIAL || e in {UNBREAKING, MENDING}
  {
  }

  lemma OnSword(e: Enchant)
    ensures AppliesTo(e, Sword) <==> e in Catalog(Sword) || e in SPECIAL || e in {UNBREAKING, MENDING}
  {
  }

  lemma OnArmorSlots(e: Enchant, slot: Slot)
    requires IsArmor(slot)
    ensures AppliesTo(e, slot) <==> e in Catalog(slot) || e in SPECIAL || e in {UNBREAKING, MENDING}
  {
  }

  /** Which slots an enchant takes and how high it goes. */
  lemma LevelsExact(e: Enchant)
    ensures SlotFamily(e) == SpecialUniversal <==> e in SPECIAL
    ensures MaxLevel(e) == 1 <==> e in {MENDING, PHOENIX, CARVING}
    ensures (MaxLevel(e) == 2 <==> e == MASTER) && (MaxLevel(e) == 3 <==> e == BAIT_RACK)
    ensures (MaxLevel(e) == 9 <==> e == NINE_LIFE) && MaxLevel(e) in {1, 2, 3, 9, 10}
  {
  }

  // ---- equip and unequip

  predicate Survival(e: Enchant) {
    e in {GUARDIAN, NINE_LIFE, PHOENIX}
  }

  /** The player wears, in another slot, an item with a survival enchant other than one of the target's. */
  ghost predicate WornClash(s: State, p: PlayerId, id: ItemId, slot: GearSlot)
    requires id in s.items
  {
    exists k, x, y ::
      k in s.worn && k.player == p && k.slot != slot && s.worn[k] in s.items
      && x in s.items[id].rows && y in s.items[s.worn[k]].rows
      && Survival(x.enchant) && Survival(y.enchant) && x.enchant != y.enchant
  }

  /** The first reason in the player and the ownership of the item. */
  function OwnerRefusal(s: State, p: PlayerId, id: ItemId): Option<GearError> {
    if p !in s.players || s.players[p] == Deleted then Some(PlayerNotFound)
    else if s.players[p] != Active then Some(AccountFrozen)
    else if id !in s.items || s.items[id].owner != p then Some(ItemNotFound)
    else None
  }

  /** The first reason to refuse an equip; an item that is already worn is not refused. */
  ghost function EquipRefusal(s: State, p: PlayerId, id: ItemId): Option<GearError> {
    if OwnerRefusal(s, p, id).Some? then OwnerRefusal(s, p, id)
    else if s.items[id].gear.None? then Some(NotEquippable)
    else if s.items[id].place == Equipped then None
    else if s.items[id].place != ToolLocker then Some(ItemNotInLocker)
    else if WornClash(s, p, id, s.items[id].gear.value) then Some(EquippedArmorEnchantConflict)
    else None
  }

  /** The target takes its slot, whatever was there goes back to the locker, and nothing else is different. */
  ghost predicate Swapped(s: State, after: State, p: PlayerId, id: ItemId, receipt: EquipReceipt) {
    && id in s.items && s.items[id].gear == Some(receipt.slot)
    && var key := Wear(p, receipt.slot);
    && after.players == s.players && after.worn == s.worn[key := id]
    && receipt.displaced == (if key in s.worn then Some(s.worn[key]) else None)
    && after.items.Keys == s.items.Keys && after.items[id] == s.items[id].(place := Equipped)
    && forall i :: i in s.items && i != id ==>
         after.items[i] == if receipt.displaced == Some(i) then s.items[i].(place := ToolLocker) else s.items[i]
  }

  /** An equip goes through if and only if nothing refuses it, and then swaps the item in. */
  lemma EquipExactly(s: State, p: PlayerId, id: ItemId)
    requires Invariant(s)
    ensures match EquipRefusal(s, p, id)
      case Some(e) => Equip(s, p, id) == Err(e)
      case None =>
        && Equip(s, p, id).Ok? && id in s.items
        && var (after, receipt) := Equip(s, p, id).value;
           if s.items[id].place == Equipped
           then after == s && s.items[id].gear == Some(receipt.slot) && receipt.displaced == None
           else Swapped(s, after, p, id, receipt)
  {
    hide Equip, WouldClash, WornClash, Invariant, IsArmor;
    EquipExact(s, p, id);
    if OwnerRefusal(s, p, id).None? && s.items[id].gear.Some? && s.items[id].place == ToolLocker {
      ClashIs(s, p, id, s.items[id].gear.value);
      NotYetWorn(s, p, id, s.items[id].gear.value);
    }
  }

  lemma NotYetWorn(s: State, p: PlayerId, id: ItemId, slot: GearSlot)
    requires Invariant(s) && id in s.items && s.items[id].place != Equipped
    ensures Wear(p, slot) in s.worn ==> s.worn[Wear(p, slot)] != id && s.worn[Wear(p, slot)] in s.items
  {
    hide Legal, Safe;
    assert RowMatches(s, Wear(p, slot));
  }

  /** The guard's clash is exactly a different survival enchant on another worn item. */
  lemma ClashIs(s: State, p: PlayerId, id: ItemId, slot: GearSlot)
    requires Invariant(s) && id in s.items && s.items[id].gear == Some(slot) && s.items[id].place != Equipped
    ensures WornClash(s, p, id, slot) <==> slot.Gear? && IsArmor(slot.slot) && WouldClash(s, p, id, slot)
  {
    hide Scope, ItemLegal, WornAt, WouldClash, WornClash, PairSafe, IsArmor;
    if WornClash(s, p, id, slot) {
      OnArmor(s, p, id, slot);
    }
    if slot.Gear? && IsArmor(slot.slot) && WouldClash(s, p, id, slot) {
      ClashWithOther(s, p, id, slot);
    }
  }

  /** Survival enchants are on armor only, so a clash is between the target and another armor slot. */
  lemma OnArmor(s: State, p: PlayerId, id: ItemId, slot: GearSlot)
    requires Invariant(s) && id in s.items && s.items[id].gear == Some(slot) && WornClash(s, p, id, slot)
    ensures slot.Gear? && IsArmor(slot.slot) && WouldClash(s, p, id, slot)
  {
    hide Scope, ItemLegal, IsArmor, IsSurvival, Survival;
    var k, x, y :| k in s.worn && k.player == p && k.slot != slot && s.worn[k] in s.items
                   && x in s.items[id].rows && y in s.items[s.worn[k]].rows
                   && Survival(x.enchant) && Survival(y.enchant) && x.enchant != y.enchant;
    assert RowMatches(s, k);
    SurvivalIs(x.enchant);
    SurvivalIs(y.enchant);
    ScopeSymmetric(x.enchant, y.enchant);
    SurvivalRowOnArmor(s.items[id], x);
    SurvivalRowOnArmor(s.items[s.worn[k]], y);
    var j := ArmorIndex(k.slot.slot);
    assert WornAt(s, p, Some(slot), j, s.worn[k]);
    assert InProspective(s, p, id, slot, id) && InProspective(s, p, id, slot, s.worn[k]);
    assert !PairSafeIn(s, id, s.worn[k]);
  }

  lemma SurvivalIs(e: Enchant)
    ensures Survival(e) <==> IsSurvival(e)
  {
  }

  lemma SurvivalRowOnArmor(item: Item, row: Applied)
    requires ItemLegal(item) && row in item.rows && IsSurvival(row.enchant)
    ensures item.gear.Some? && item.gear.value.Gear? && IsArmor(item.gear.value.slot)
  {
    hide ItemLegal, IsSurvival, IsArmor;
    if !(item.gear.Some? && item.gear.value.Gear? && IsArmor(item.gear.value.slot)) {
      NoSurvivalOff(item);
    }
  }

  lemma ClashWithOther(s: State, p: PlayerId, id: ItemId, slot: GearSlot)
    requires Invariant(s) && id in s.items && s.items[id].gear == Some(slot) && WouldClash(s, p, id, slot)
    ensures WornClash(s, p, id, slot)
  {
    hide Scope, ItemLegal, WornAt, PairSafe, IsSurvival, Survival;
    var a, b :| InProspective(s, p, id, slot, a) && InProspective(s, p, id, slot, b) && !PairSafeIn(s, a, b);
    PairSymmetric(s.items[a], s.items[b]);
    OwnPairSafe(s.items[id]);
    if a == id {
      var j: nat :| WornAt(s, p, Some(slot), j, b);
      UnsafeWith(s, p, id, slot, j, b);
    } else if b == id {
      var j: nat :| WornAt(s, p, Some(slot), j, a);
      UnsafeWith(s, p, id, slot, j, a);
    } else {
      var i: nat :| WornAt(s, p, Some(slot), i, a);
      var j: nat :| WornAt(s, p, Some(slot), j, b);
      WornPair(s, p, slot, i, a, j, b);
    }
  }

  lemma WornPair(s: State, p: PlayerId, slot: GearSlot, i: nat, a: ItemId, j: nat, b: ItemId)
    requires Safe(s) && WornAt(s, p, Some(slot), i, a) && WornAt(s, p, Some(slot), j, b)
    ensures PairSafeIn(s, a, b)
  {
    hide PairSafe;
    assert WornSafe(s, Wear(p, Gear(ARMOR_SLOTS[i])), Wear(p, Gear(ARMOR_SLOTS[j])));
  }

  lemma UnsafeWith(s: State, p: PlayerId, id: ItemId, slot: GearSlot, j: nat, b: ItemId)
    requires id in s.items && b in s.items && WornAt(s, p, Some(slot), j, b) && !PairSafe(s.items[id], s.items[b])
    ensures WornClash(s, p, id, slot)
  {
    hide Scope, IsSurvival, Survival;
    var x, y :| x in s.items[id].rows && y in s.items[b].rows && Scope(x.enchant, y.enchant) == EquippedArmorLoadout;
    ScopeSymmetric(x.enchant, y.enchant);
    SurvivalIs(x.enchant);
    SurvivalIs(y.enchant);
    var k := Wear(p, Gear(ARMOR_SLOTS[j]));
    assert k in s.worn && s.worn[k] == b && k.slot != slot;
  }

  /** The first reason to refuse an unequip. */
  function UnequipRefusal(s: State, p: PlayerId, id: ItemId): Option<GearError> {
    if OwnerRefusal(s, p, id).Some? then OwnerRefusal(s, p, id)
    else if s.items[id].place != Equipped then Some(ItemNotEquipped)
    else None
  }

  /** An unequip goes through if and only if nothing refuses it: the item's slot row goes, the item goes to the locker, and
      nothing else is different. */
  lemma UnequipExactly(s: State, p: PlayerId, id: ItemId)
    requires Invariant(s)
    ensures match UnequipRefusal(s, p, id)
      case Some(e) => Unequip(s, p, id) == Err(e)
      case None =>
        && Unequip(s, p, id).Ok? && id in s.items
        && var (after, slot) := Unequip(s, p, id).value;
        && s.items[id].gear == Some(slot) && after.players == s.players && after.worn == s.worn - {Wear(p, slot)}
        && after.items == s.items[id := s.items[id].(place := ToolLocker)]
  {
    hide ItemLegal, WornSafe, SlotOf;
    UnequipExact(s, p, id);
    if UnequipRefusal(s, p, id).None? {
      assert ItemMatches(s, id);
      SlotOfExact(s, p, id, ALL_SLOTS);
      EverySlot(s.items[id].gear.value);
    }
  }

  // ---- books

  /** The item in an armor slot, if there is one, is the player's, marked worn, with rows that fit and do not conflict. */
  ghost predicate WornSound(s: State, p: PlayerId, slot: Slot) {
    var key := Wear(p, Gear(slot));
    key in s.worn ==>
      && s.worn[key] in s.items
      && var item := s.items[s.worn[key]];
      && item.owner == p && item.place == Equipped
      && (forall x :: x in item.rows ==> 1 <= x.level <= MaxLevel(x.enchant) && AppliesTo(x.enchant, slot))
      && (forall i, j :: 0 <= i < j < |item.rows| ==> Scope(item.rows[i].enchant, item.rows[j].enchant) == NoConflict)
  }

  /** Two armor slots of the player hold different survival enchants. */
  ghost predicate SurvivalTwice(s: State, p: PlayerId) {
    exists a, b, x, y ::
      WornIn(s, p, a) && WornIn(s, p, b) && x in s.items[a].rows && y in s.items[b].rows
      && Survival(x.enchant) && Survival(y.enchant) && x.enchant != y.enchant
  }

  ghost predicate WornIn(s: State, p: PlayerId, id: ItemId) {
    id in s.items && exists slot :: IsArmor(slot) && Wear(p, Gear(slot)) in s.worn && s.worn[Wear(p, Gear(slot))] == id
  }

  /** In any tables at all, reachable or not, the book writer's check of the worn armor passes if and only if the player and
      the target are there, every armor slot is sound, no two survival enchants meet, and the rows are within the bound. */
  lemma LoadoutExactly(s: State, p: PlayerId, target: ItemId)
    ensures ValidateLoadout(s, p, target).Ok?
        <==> && p in s.players && s.players[p] != Deleted && target in s.items && s.items[target].owner == p
             && (forall slot :: IsArmor(slot) ==> WornSound(s, p, slot)) && !SurvivalTwice(s, p)
             && var worn := WornArmor(s, p);
                |RowsOf(s.items, if target in worn then worn else worn + [target])| <= 270
  {
    hide WornFrom, RowsClash, LoadoutClash, WornLegal, Scope, AppliesTo, MaxLevel, SurvivalTwice, WornSound, IsArmor;
    var worn := WornArmor(s, p);
    var locked := if target in worn then worn else worn + [target];
    WornMeans(s, p);
    assert forall id :: id in locked <==> id in worn || id == target;
    if forall slot :: IsArmor(slot) ==> WornSound(s, p, slot) {
      SoundSlots(s, p);
    }
    if forall id <- worn :: id in s.items {
      ClashMeans(s, p);
      if ValidateLoadout(s, p, target).Ok? {
        ValidSlots(s, p);
      }
    }
  }

  lemma WornMeans(s: State, p: PlayerId)
    ensures forall id :: (id in WornArmor(s, p) <==>
      exists slot :: IsArmor(slot) && Wear(p, Gear(slot)) in s.worn && s.worn[Wear(p, Gear(slot))] == id)
  {
    hide WornFrom;
    WornFromMembers(s, p, None, 0);
    forall id | exists slot :: IsArmor(slot) && Wear(p, Gear(slot)) in s.worn && s.worn[Wear(p, Gear(slot))] == id
      ensures id in WornArmor(s, p)
    {
      var slot :| IsArmor(slot) && Wear(p, Gear(slot)) in s.worn && s.worn[Wear(p, Gear(slot))] == id;
      var j := ArmorIndex(slot);
      assert WornAt(s, p, None, j, id);
    }
    forall id | id in WornArmor(s, p)
      ensures exists slot :: IsArmor(slot) && Wear(p, Gear(slot)) in s.worn && s.worn[Wear(p, Gear(slot))] == id
    {
      var j: nat :| WornAt(s, p, None, j, id);
      assert IsArmor(ARMOR_SLOTS[j]);
    }
  }

  /** Sound slots pass the checks of owner, place, rows and conflicts. */
  lemma SoundSlots(s: State, p: PlayerId)
    requires forall slot :: IsArmor(slot) ==> WornSound(s, p, slot)
    ensures forall id <- WornArmor(s, p) ::
      id in s.items && s.items[id].owner == p && s.items[id].place == Equipped && !RowsClash(s.items[id].rows)
    ensures forall k :: 0 <= k < 4 ==> WornLegal(s, p, ARMOR_SLOTS[k])
  {
    hide WornFrom, Scope, AppliesTo, MaxLevel;
    WornMeans(s, p);
    forall k | 0 <= k < 4
      ensures WornLegal(s, p, ARMOR_SLOTS[k])
    {
      assert IsArmor(ARMOR_SLOTS[k]) && WornSound(s, p, ARMOR_SLOTS[k]);
    }
  }

  /** Slots that pass those checks are sound. */
  lemma ValidSlots(s: State, p: PlayerId)
    requires forall id <- WornArmor(s, p) ::
      id in s.items && s.items[id].owner == p && s.items[id].place == Equipped && !RowsClash(s.items[id].rows)
    requires forall k :: 0 <= k < 4 ==> WornLegal(s, p, ARMOR_SLOTS[k])
    ensures forall slot :: IsArmor(slot) ==> WornSound(s, p, slot)
  {
    hide WornFrom, Scope, AppliesTo, MaxLevel;
    WornMeans(s, p);
    forall slot | IsArmor(slot)
      ensures WornSound(s, p, slot)
    {
      var j := ArmorIndex(slot);
      assert WornLegal(s, p, ARMOR_SLOTS[j]);
      if Wear(p, Gear(slot)) in s.worn {
        assert s.worn[Wear(p, Gear(slot))] in WornArmor(s, p);
      }
    }
  }

  lemma ClashMeans(s: State, p: PlayerId)
    requires forall id <- WornArmor(s, p) :: id in s.items
    ensures LoadoutClash(RowsOf(s.items, WornArmor(s, p))) <==> SurvivalTwice(s, p)
  {
    hide WornFrom, Scope, Survival, IsSurvival, LoadoutClash, IsArmor;
    var worn := WornArmor(s, p);
    WornMeans(s, p);
    RowsOfMembers(s.items, worn);
    NoClashMeans(RowsOf(s.items, worn));
    forall x: Applied, y: Applied
      ensures Scope(x.enchant, y.enchant) == EquippedArmorLoadout
          <==> Survival(x.enchant) && Survival(y.enchant) && x.enchant != y.enchant
    {
      ScopeSymmetric(x.enchant, y.enchant);
      SurvivalIs(x.enchant);
      SurvivalIs(y.enchant);
    }
    assert forall id :: WornIn(s, p, id) <==> id in worn;
  }

  /** Another worn item of the player holds a survival enchant that differs from an incoming one. */
  ghost predicate SiblingHolds(s: State, p: PlayerId, id: ItemId, incoming: Enchant) {
    Survival(incoming)
    && exists k, y ::
         k in s.worn && k.player == p && s.worn[k] != id && s.worn[k] in s.items && y in s.items[s.worn[k]].rows
         && Survival(y.enchant) && y.enchant != incoming
  }

  /** The rows of one slot family. */
  ghost function InFamily(rows: seq<Applied>, family: Family): set<Applied> {
    set x | x in rows && SlotFamily(x.enchant) == family
  }

  /** Everything a book needs of its player, its target and the rest of what is worn. */
  ghost predicate BookFits(s: State, p: PlayerId, id: ItemId, incoming: Enchant, level: int) {
    && p in s.players && s.players[p] != Deleted && id in s.items && s.items[id].owner == p
    && var item := s.items[id];
    && item.ordinary && item.gear.Some? && item.gear.value.Gear? && !item.starter && item.enchantable
    && 4 <= item.capacity.normalClass <= 6 && 3 <= item.capacity.specialUniversal <= 6
    && 1 <= level <= MaxLevel(incoming) && AppliesTo(incoming, item.gear.value.slot)
    && (forall x :: x in item.rows ==> Scope(incoming, x.enchant) == NoConflict)
    && (if exists x :: x in item.rows && x.enchant == incoming
        then forall x :: x in item.rows && x.enchant == incoming ==> x.level < level
        else |InFamily(item.rows, SlotFamily(incoming))| < item.capacity.Of(SlotFamily(incoming)))
    && !(item.place == Equipped && SiblingHolds(s, p, id, incoming))
  }

  /** A book is accepted if and only if it fits. */
  lemma AppliesExactly(s: State, p: PlayerId, id: ItemId, incoming: Enchant, level: int)
    requires Invariant(s)
    ensures ApplyBook(s, p, id, incoming, level).Ok? <==> BookFits(s, p, id, incoming, level)
  {
    hide ApplyBook, PreviewBook, Written, Invariant, SiblingConflict, WornArmor, AppliesTo, MaxLevel, SiblingHolds, Scope,
         SlotFamily, InFamily, ValidRows, Occupancy, NoDuplicates;
    ApplyExact(s, p, id, incoming, level);
    if id in s.items && s.items[id].owner == p && s.items[id].gear.Some? && s.items[id].gear.value.Gear? {
      var item := s.items[id];
      PreviewExact(item.gear.value.slot, item.capacity, item.rows, incoming, level);
      ItemIsLegal(s, id);
      if CapacityLegal(item.capacity) {
        RowsValid(item);
      }
      OccupancyIs(item.rows, SlotFamily(incoming));
      RowsAre(item.rows);
      if AppliesTo(incoming, item.gear.value.slot) {
        SiblingIs(s, p, id, incoming);
      }
    }
  }

  lemma ItemIsLegal(s: State, id: ItemId)
    requires Invariant(s) && id in s.items
    ensures ItemLegal(s.items[id])
  {
    hide Matching, Safe, ItemLegal;
  }

  lemma RowsValid(item: Item)
    requires ItemLegal(item) && item.gear.Some? && item.gear.value.Gear? && CapacityLegal(item.capacity)
    ensures NoDuplicates(item.rows) && ValidRows(item.gear.value.slot, item.capacity, Rows(item.rows))
  {
    hide RowLegal, Compatible;
    if item.rows == [] {
      EmptyRows();
      assert OfFamily({}, NormalClass) == {} && OfFamily({}, SpecialUniversal) == {};
    }
  }

  lemma OccupancyIs(rows: seq<Applied>, family: Family)
    ensures Occupancy(Rows(rows)).Of(family) == |InFamily(rows, family)|
  {
    hide SlotFamily;
    assert OfFamily(Rows(rows), family) == InFamily(rows, family);
  }

  /** What the writer looks for among the siblings of a worn target. */
  lemma SiblingIs(s: State, p: PlayerId, id: ItemId, incoming: Enchant)
    requires Invariant(s) && id in s.items && s.items[id].owner == p
    requires s.items[id].gear.Some? && s.items[id].gear.value.Gear? && AppliesTo(incoming, s.items[id].gear.value.slot)
    ensures id in WornArmor(s, p) && SiblingConflict(s, p, id, incoming)
        <==> s.items[id].place == Equipped && SiblingHolds(s, p, id, incoming)
  {
    hide Scope, WornArmor, AppliesTo, ItemLegal, IsSurvival, Survival, IsArmor, SiblingConflict, SiblingHolds;
    WornArmorFacts(s, p);
    if id in WornArmor(s, p) && SiblingConflict(s, p, id, incoming) {
      HoldsFromConflict(s, p, id, incoming);
    }
    if s.items[id].place == Equipped && SiblingHolds(s, p, id, incoming) {
      ConflictFromHolds(s, p, id, incoming);
    }
  }

  lemma HoldsFromConflict(s: State, p: PlayerId, id: ItemId, incoming: Enchant)
    requires SiblingConflict(s, p, id, incoming)
    ensures SiblingHolds(s, p, id, incoming)
  {
    hide Scope, WornFrom, IsSurvival, Survival;
    var a, x :| a in WornArmor(s, p) && a != id && a in s.items && x in s.items[a].rows
                && Scope(incoming, x.enchant) == EquippedArmorLoadout;
    ScopeSymmetric(incoming, x.enchant);
    SurvivalIs(incoming);
    SurvivalIs(x.enchant);
    WornFromMembers(s, p, None, 0);
    var j: nat :| WornAt(s, p, None, j, a);
    var k := Wear(p, Gear(ARMOR_SLOTS[j]));
    assert k in s.worn && s.worn[k] == a;
  }

  lemma ConflictFromHolds(s: State, p: PlayerId, id: ItemId, incoming: Enchant)
    requires Invariant(s) && id in s.items && s.items[id].owner == p && s.items[id].place == Equipped
    requires s.items[id].gear.Some? && s.items[id].gear.value.Gear? && AppliesTo(incoming, s.items[id].gear.value.slot)
    requires SiblingHolds(s, p, id, incoming)
    ensures id in WornArmor(s, p) && SiblingConflict(s, p, id, incoming)
  {
    hide Scope, WornArmor, ItemLegal, AppliesTo, IsSurvival, Survival, IsArmor;
    var k, y :| k in s.worn && k.player == p && s.worn[k] != id && s.worn[k] in s.items && y in s.items[s.worn[k]].rows
                && Survival(y.enchant) && y.enchant != incoming;
    SurvivalIs(incoming);
    SurvivalIs(y.enchant);
    ScopeSymmetric(incoming, y.enchant);
    SurvivalOnArmor(incoming, s.items[id].gear.value.slot);
    assert ItemMatches(s, id) && RowMatches(s, k);
    SurvivalRowOnArmor(s.items[s.worn[k]], y);
    KeyInArmor(s, p, k);
    KeyInArmor(s, p, Wear(p, s.items[id].gear.value));
  }

  /** The enchanted item: the book's row is there at the book's level, every other row is as it was, and nothing but the
      rows is different. */
  ghost predicate Enchanted(before: Item, after: Item, incoming: Enchant, level: int) {
    && after == before.(rows := after.rows) && NoDuplicates(after.rows)
    && forall x :: x in after.rows <==> x == Applied(incoming, level) || (x in before.rows && x.enchant != incoming)
  }

  /** A book that is accepted writes exactly its own row of exactly its target. */
  lemma ApplyWrites(s: State, p: PlayerId, id: ItemId, incoming: Enchant, level: int)
    requires Invariant(s) && ApplyBook(s, p, id, incoming, level).Ok?
    ensures var (after, action) := ApplyBook(s, p, id, incoming, level).value;
      && id in s.items && after == s.(items := after.items) && after.items.Keys == s.items.Keys
      && (forall i :: i in s.items && i != id ==> after.items[i] == s.items[i])
      && Enchanted(s.items[id], after.items[id], incoming, level)
      && (action == InsertNew <==> forall x :: x in s.items[id].rows ==> x.enchant != incoming)
      && (forall x :: x in s.items[id].rows && x.enchant == incoming ==> action == UpgradeExisting(x.level) && x.level < level)
  {
    hide ApplyBook, PreviewBook, Written, Invariant, SiblingConflict, WornArmor, ValidRows, NothingConflicts, CapacityLegal,
         LevelLegal, AppliesTo, Occupancy, MaxLevel;
    ApplyExact(s, p, id, incoming, level);
    var item := s.items[id];
    PreviewExact(item.gear.value.slot, item.capacity, item.rows, incoming, level);
    var preview := PreviewBook(item.gear.value.slot, item.capacity, item.rows, incoming, level).value;
    RowsAre(item.rows);
    DistinctEnchants(item.gear.value.slot, item.capacity, item.rows);
    WrittenMeans(item.rows, incoming, level, preview.action);
  }

  lemma WrittenMeans(rows: seq<Applied>, incoming: Enchant, level: int, action: Action)
    requires forall i, j :: 0 <= i < j < |rows| ==> rows[i].enchant != rows[j].enchant
    requires action.InsertNew? ==> forall x :: x in rows ==> x.enchant != incoming
    requires action.UpgradeExisting? ==> Applied(incoming, action.previousLevel) in rows
    ensures NoDuplicates(Written(rows, incoming, level, action))
    ensures var after := Written(rows, incoming, level, action);
      forall x :: x in after <==> x == Applied(incoming, level) || (x in rows && x.enchant != incoming)
  {
    var after := Written(rows, incoming, level, action);
    forall i, j | 0 <= i < j < |after|
      ensures after[i] != after[j]
    {
      assert j < |rows| ==> rows[i].enchant != rows[j].enchant;
      assert i < |rows| ==> rows[i] in rows;
    }
    forall x
      ensures x in after <==> x == Applied(incoming, level) || (x in rows && x.enchant != incoming)
    {
      if x in rows && x.enchant != incoming {
        var i :| 0 <= i < |rows| && rows[i] == x;
        assert after[i] == x;
      }
      if x == Applied(incoming, level) && action.UpgradeExisting? {
        var i :| 0 <= i < |rows| && rows[i] == Applied(incoming, action.previousLevel);
        assert after[i] == x;
      }
      if x in after {
        var i :| 0 <= i < |after| && after[i] == x;
        assert i < |rows| ==> rows[i] in rows;
      }
    }
  }

  // ---- exact removal

  /** The first reason to refuse a removal. */
  ghost function RemovalRefusal(s: State, p: PlayerId, id: ItemId, e: Enchant, expectedLevel: int): Option<GearError> {
    if id !in s.items || s.items[id].owner != p then Some(ItemNotFound)
    else if !s.items[id].ordinary || s.items[id].gear.None? || s.items[id].gear.value.Totem? then Some(NotOrdinaryEquipment)
    else if forall x :: x in s.items[id].rows ==> x.enchant != e then Some(SelectedEnchantNotFound)
    else if Applied(e, expectedLevel) !in s.items[id].rows then Some(SelectedEnchantLevelChanged)
    else None
  }

  /** A removal goes through if and only if nothing refuses it, and then deletes exactly the named row. */
  lemma RemovesExactly(s: State, p: PlayerId, id: ItemId, e: Enchant, expectedLevel: int)
    requires Invariant(s)
    ensures match RemovalRefusal(s, p, id, e, expectedLevel)
      case Some(error) => RemoveExact(s, p, id, e, expectedLevel) == Err(error)
      case None =>
        && RemoveExact(s, p, id, e, expectedLevel).Ok? && id in s.items
        && var after := RemoveExact(s, p, id, e, expectedLevel).value;
        && after == s.(items := after.items) && after.items.Keys == s.items.Keys
        && (forall i :: i in s.items && i != id ==> after.items[i] == s.items[i])
        && after.items[id] == s.items[id].(rows := after.items[id].rows)
        && Rows(after.items[id].rows) == Rows(s.items[id].rows) - {Applied(e, expectedLevel)}
        && NoDuplicates(after.items[id].rows)
  {
    hide Matching, Safe, ItemLegal, Scope, MaxLevel, AppliesTo, ValidRows;
    RemoveExactly(s, p, id, e, expectedLevel);
    if id in s.items && s.items[id].owner == p {
      var item := s.items[id];
      ItemRowsFew(item);
      LevelsLegal(item);
      FindRowExact(item.rows, e);
      OneRowEach(item);
    }
  }

  lemma OneRowEach(item: Item)
    requires ItemLegal(item)
    ensures forall i, j :: 0 <= i < j < |item.rows| ==> item.rows[i].enchant != item.rows[j].enchant
  {
    hide ValidRows;
    if item.rows != [] {
      DistinctEnchants(item.gear.value.slot, item.capacity, item.rows);
    }
  }
}
