/** The canonical enchants: which conflict, where they may be placed, and how high their level may be. */
module Enchants {

  const ENCHANT_COUNT := 54

  /** An enchant is its position in the catalog; the program compares enchants by it. */
  type Enchant = e: int | 0 <= e < ENCHANT_COUNT

  const EFFICIENCY: Enchant := 0
  const FORTUNE: Enchant := 1
  const SMELT: Enchant := 2
  const LURE: Enchant := 3
  const LUCK_OF_THE_SEA: Enchant := 4
  const LUCK: Enchant := 5
  const STRENGTHEN: Enchant := 6
  const SHARP_HOOK: Enchant := 7
  const BAIT_RACK: Enchant := 8
  const SHARPNESS: Enchant := 9
  const SMITE: Enchant := 10
  const BANE_OF_ARTHROPODS: Enchant := 11
  const SWEEPING_EDGE: Enchant := 12
  const FIRE_ASPECT: Enchant := 13
  const KNOCKBACK: Enchant := 14
  const PROTECTION: Enchant := 15
  const THORN: Enchant := 16
  const CAT: Enchant := 17
  const DOG: Enchant := 18
  const DODGE: Enchant := 19
  const UNBREAKING: Enchant := 20
  const STABILIZE: Enchant := 21
  const SPARKLING: Enchant := 22
  const GRINDING: Enchant := 23
  const MOSAIC: Enchant := 24
  const PICKAXE_TREASURE: Enchant := 25
  const FISHING_ROD_TREASURE: Enchant := 26
  const MULTI_TREASURE: Enchant := 27
  const MULTICATCH: Enchant := 28
  const LOOTING: Enchant := 29
  const DEVOUR: Enchant := 30
  const BLEEDING: Enchant := 31
  const FREEZING: Enchant := 32
  const ANGEL: Enchant := 33
  const EVIL: Enchant := 34
  const DAY_WALKER: Enchant := 35
  const NIGHT_WALKER: Enchant := 36
  const REINFORCE: Enchant := 37
  const EMPOWERING: Enchant := 38
  const CARVING: Enchant := 39
  const TRENCH: Enchant := 40
  const EXECUTION: Enchant := 41
  const BLOOD_FRENZY: Enchant := 42
  const ARMOR_PIERCING: Enchant := 43
  const PIERCING: Enchant := 44
  const GUARDIAN: Enchant := 45
  const NINE_LIFE: Enchant := 46
  const SOUL_GRIND: Enchant := 47
  const MENDING: Enchant := 48
  const NUKE: Enchant := 49
  const ANNIHILATION: Enchant := 50
  const PHOENIX: Enchant := 51
  const SHADOW_WALKER: Enchant := 52
  const MASTER: Enchant := 53

  datatype Slot = Pickaxe | Sword | FishingRod | Helmet | Chestplate | Leggings | Boots

  datatype Family = NormalClass | SpecialUniversal

  datatype ConflictScope = NoConflict | SameItem | EquippedArmorLoadout

  predicate IsArmor(slot: Slot) {
    slot in {Helmet, Chestplate, Leggings, Boots}
  }

  // ---- conflicts

  predicate OneOfThree(e: Enchant, first: Enchant, second: Enchant, third: Enchant) {
    e == first || e == second || e == third
  }

  predicate DistinctPair(left: Enchant, right: Enchant, first: Enchant, second: Enchant) {
    (left == first && right == second) || (left == second && right == first)
  }

  predicate DistinctFamily(left: Enchant, right: Enchant, first: Enchant, second: Enchant, third: Enchant) {
    left != right && OneOfThree(left, first, second, third) && OneOfThree(right, first, second, third)
  }

  function Scope(left: Enchant, right: Enchant): ConflictScope {
    if left == right then NoConflict
    else if DistinctFamily(left, right, GUARDIAN, NINE_LIFE, PHOENIX) then EquippedArmorLoadout
    else if DistinctPair(left, right, TRENCH, NUKE) || DistinctPair(left, right, CAT, DOG)
            || DistinctPair(left, right, ANGEL, EVIL) || DistinctPair(left, right, THORN, REINFORCE)
            || DistinctPair(left, right, SWEEPING_EDGE, PIERCING) || DistinctPair(left, right, SWEEPING_EDGE, ARMOR_PIERCING)
            || DistinctFamily(left, right, SHARPNESS, SMITE, BANE_OF_ARTHROPODS)
            || DistinctFamily(left, right, FIRE_ASPECT, FREEZING, BLEEDING)
            || DistinctFamily(left, right, ANNIHILATION, BLOOD_FRENZY, EXECUTION)
    then SameItem
    else NoConflict
  }

  /** The enchants only one of which may be worn. */
  predicate IsSurvival(e: Enchant) {
    OneOfThree(e, GUARDIAN, NINE_LIFE, PHOENIX)
  }

  /** A conflict does not depend on which enchant comes first, no enchant conflicts with itself, and the only conflicts
      that reach across worn items are between two different survival enchants. */
  lemma ScopeSymmetric(left: Enchant, right: Enchant)
    ensures Scope(left, right) == Scope(right, left) && Scope(left, left) == NoConflict
    ensures Scope(left, right) == EquippedArmorLoadout <==> IsSurvival(left) && IsSurvival(right) && left != right
  {
  }

  // ---- placement

  function SlotFamily(e: Enchant): Family {
    if e in {STABILIZE, SPARKLING, EMPOWERING, GRINDING, MOSAIC, CARVING, MASTER} then SpecialUniversal else NormalClass
  }

  predicate AppliesTo(e: Enchant, slot: Slot) {
    if SlotFamily(e) == SpecialUniversal || e in {UNBREAKING, MENDING} then true
    else if e in {EFFICIENCY, FORTUNE, PICKAXE_TREASURE, TRENCH, NUKE, SMELT} then slot == Pickaxe
    else if e in {LURE, LUCK_OF_THE_SEA, FISHING_ROD_TREASURE, MULTI_TREASURE, LUCK, MULTICATCH, STRENGTHEN, SHARP_HOOK,
                  BAIT_RACK} then slot == FishingRod
    else if e in {PROTECTION, THORN, NINE_LIFE, REINFORCE, SOUL_GRIND} then IsArmor(slot)
    else if e in {CAT, DOG, SHADOW_WALKER, NIGHT_WALKER, DAY_WALKER} then slot == Boots
    else if e == DODGE then slot == Leggings
    else if e in {GUARDIAN, PHOENIX} then slot == Chestplate
    else if e in {ANGEL, EVIL} then slot == Helmet
    else slot == Sword
  }

  /** What falls through to the sword is exactly the sword's catalog. */
  lemma SwordEnchants(e: Enchant)
    ensures AppliesTo(e, Sword) && !AppliesTo(e, Pickaxe) <==>
      e in {SHARPNESS, SMITE, BANE_OF_ARTHROPODS, SWEEPING_EDGE, FIRE_ASPECT, LOOTING, KNOCKBACK, DEVOUR, EXECUTION,
            BLEEDING, BLOOD_FRENZY, ARMOR_PIERCING, PIERCING, FREEZING, ANNIHILATION}
  {
  }

  /** Survival enchants fit armor only, so only worn armor can break the rule. */
  lemma SurvivalOnArmor(e: Enchant, slot: Slot)
    requires IsSurvival(e) && AppliesTo(e, slot)
    ensures IsArmor(slot)
  {
  }

  // ---- levels

  function MaxLevel(e: Enchant): int {
    if e in {MENDING, PHOENIX, CARVING} then 1
    else if e == MASTER then 2
    else if e == BAIT_RACK then 3
    else if e == NINE_LIFE then 9
    else 10
  }

  // ---- row bounds

  /** Different enchants below position `k` are at most `k`. */
  lemma {:induction false} BelowPosition(s: set<Enchant>, k: nat)
    requires forall e <- s :: e < k
    ensures |s| <= k
    decreases k
  {
    if k == 0 {
      assert s == {};
    } else if k <= ENCHANT_COUNT {
      BelowPosition(s - {k - 1}, k - 1);
    } else {
      BelowPosition(s, k - 1);
    }
  }

  /** Rows of distinct enchants never exceed the bound the row queries are limited to. */
  lemma AtMostAll(s: set<Enchant>)
    ensures |s| <= ENCHANT_COUNT
  {
    BelowPosition(s, ENCHANT_COUNT);
  }
}
