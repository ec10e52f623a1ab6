/** Applying a finished enchant book to one item: the checks on the rows already there, and the preview of the result. */
module EnchantApply {
  import opened Numbers
  import opened Enchants

  const NORMAL_CLASS_NATIVE_SLOTS := 4
  const SPECIAL_UNIVERSAL_NATIVE_SLOTS := 3
  const MAX_SLOTS_PER_FAMILY := 6

  /** One embedded-enchant row. */
  datatype Applied = Applied(enchant: Enchant, level: int)

  /** Counts per slot family: unlocked slots, or occupied ones. */
  datatype PerFamily = PerFamily(normalClass: nat, specialUniversal: nat)
  {
    function Of(family: Family): nat {
      match family { case NormalClass => normalClass case SpecialUniversal => specialUniversal }
    }

    function Increment(family: Family): PerFamily {
      match family
      case NormalClass => PerFamily(normalClass + 1, specialUniversal)
      case SpecialUniversal => PerFamily(normalClass, specialUniversal + 1)
    }
  }

  datatype Action = InsertNew | UpgradeExisting(previousLevel: int)

  datatype Preview = Preview(enchant: Enchant, level: int, family: Family, action: Action, before: PerFamily,
                             after: PerFamily, needsLoadoutCheck: bool)

  datatype ApplyError =
    | InvalidUnlockedSlotCount(family: Family, current: nat)
    | InvalidEnchantLevel(enchant: Enchant, level: int)
    | DuplicateExistingEnchant(enchant: Enchant)
    | ExistingEnchantWrongEquipmentSlot(enchant: Enchant)
    | IncomingEnchantWrongEquipmentSlot(enchant: Enchant)
    | ExistingOccupancyExceedsCapacity(family: Family)
    | ExistingItemConflict(left: Enchant, right: Enchant)
    | IncomingConflict(incoming: Enchant, existing: Enchant)
    | LowerOrEqualReplacement(existingLevel: int)
    | NoFreeSlot(family: Family)
    | OccupancyOverflow

  // ---- the checks as the program makes them, row by row

  function ValidateCapacity(capacity: PerFamily): Option<ApplyError> {
    if !(NORMAL_CLASS_NATIVE_SLOTS <= capacity.normalClass <= MAX_SLOTS_PER_FAMILY)
    then Some(InvalidUnlockedSlotCount(NormalClass, capacity.normalClass))
    else if !(SPECIAL_UNIVERSAL_NATIVE_SLOTS <= capacity.specialUniversal <= MAX_SLOTS_PER_FAMILY)
    then Some(InvalidUnlockedSlotCount(SpecialUniversal, capacity.specialUniversal))
    else None
  }

  predicate LevelLegal(e: Enchant, level: int) {
    1 <= level <= MaxLevel(e)
  }

  /** The first earlier row, from `k` on, that clashes with `applied`. */
  function ClashFrom(previous: seq<Applied>, applied: Applied, k: nat): Option<ApplyError>
    requires k <= |previous|
    decreases |previous| - k
  {
    if k == |previous| then None
    else if previous[k].enchant == applied.enchant then Some(DuplicateExistingEnchant(applied.enchant))
    else if Scope(previous[k].enchant, applied.enchant) != NoConflict
    then Some(ExistingItemConflict(previous[k].enchant, applied.enchant))
    else ClashFrom(previous, applied, k + 1)
  }

  function ValidateFrom(slot: Slot, capacity: PerFamily, existing: seq<Applied>, index: nat, occupancy: PerFamily)
    : Result<PerFamily, ApplyError>
    requires index <= |existing|
    decreases |existing| - index
  {
    if index == |existing| then Ok(occupancy)
    else
      var applied := existing[index];
      if !LevelLegal(applied.enchant, applied.level) then Err(InvalidEnchantLevel(applied.enchant, applied.level))
      else if !AppliesTo(applied.enchant, slot) then Err(ExistingEnchantWrongEquipmentSlot(applied.enchant))
      else match ClashFrom(existing[..index], applied, 0)
        case Some(error) => Err(error)
        case None =>
          var family := SlotFamily(applied.enchant);
          if occupancy.Of(family) + 1 > 255 then Err(OccupancyOverflow)
          else if occupancy.Of(family) + 1 > capacity.Of(family) then Err(ExistingOccupancyExceedsCapacity(family))
          else ValidateFrom(slot, capacity, existing, index + 1, occupancy.Increment(family))
  }

  function ValidateExistingState(slot: Slot, capacity: PerFamily,
                                 existing: seq<Applied>): Result<PerFamily, ApplyError> {
    ValidateFrom(slot, capacity, existing, 0, PerFamily(0, 0))
  }

  method ComputeValidateExistingState(slot: Slot, capacity: PerFamily, existing: seq<Applied>)
    returns (r: Result<PerFamily, ApplyError>)
    ensures r == ValidateExistingState(slot, capacity, existing)
  {
    hide AppliesTo, Scope, MaxLevel;
    var occupancy := PerFamily(0, 0);
    for index := 0 to |existing|
      invariant ValidateExistingState(slot, capacity, existing) == ValidateFrom(slot, capacity, existing, index, occupancy)
    {
      var applied := existing[index];
      if !LevelLegal(applied.enchant, applied.level) {
        return Err(InvalidEnchantLevel(applied.enchant, applied.level));
      }
      if !AppliesTo(applied.enchant, slot) {
        return Err(ExistingEnchantWrongEquipmentSlot(applied.enchant));
      }
      for k := 0 to index
        invariant ClashFrom(existing[..index], applied, 0) == ClashFrom(existing[..index], applied, k)
      {
        if existing[k].enchant == applied.enchant {
          return Err(DuplicateExistingEnchant(applied.enchant));
        }
        if Scope(existing[k].enchant, applied.enchant) != NoConflict {
          return Err(ExistingItemConflict(existing[k].enchant, applied.enchant));
        }
      }
      var family := SlotFamily(applied.enchant);
      if occupancy.Of(family) + 1 > 255 {
        return Err(OccupancyOverflow);
      }
      occupancy := occupancy.Increment(family);
      if occupancy.Of(family) > capacity.Of(family) {
        return Err(ExistingOccupancyExceedsCapacity(family));
      }
    }
    return Ok(occupancy);
  }

  /** The scan over the existing rows: the conflict it stops at, or the row of the same enchant seen last. */
  function ScanFrom(existing: seq<Applied>, incoming: Enchant, index: nat, same: Option<Applied>)
    : Result<Option<Applied>, ApplyError>
    requires index <= |existing|
    decreases |existing| - index
  {
    if index == |existing| then Ok(same)
    else if existing[index].enchant == incoming then ScanFrom(existing, incoming, index + 1, Some(existing[index]))
    else if Scope(incoming, existing[index].enchant) != NoConflict
    then Err(IncomingConflict(incoming, existing[index].enchant))
    else ScanFrom(existing, incoming, index + 1, same)
  }

  function PreviewBook(slot: Slot, capacity: PerFamily, existing: seq<Applied>, incoming: Enchant, level: int)
    : Result<Preview, ApplyError>
  {
    match ValidateCapacity(capacity)
    case Some(error) => Err(error)
    case None =>
      if !LevelLegal(incoming, level) then Err(InvalidEnchantLevel(incoming, level))
      else if !AppliesTo(incoming, slot) then Err(IncomingEnchantWrongEquipmentSlot(incoming))
      else
        var before :- ValidateExistingState(slot, capacity, existing);
        var same :- ScanFrom(existing, incoming, 0, None);
        var family := SlotFamily(incoming);
        var needsCheck := IsSurvival(incoming) || exists i :: 0 <= i < |existing| && IsSurvival(existing[i].enchant);
        match same
        case Some(applied) =>
          if level <= applied.level then Err(LowerOrEqualReplacement(applied.level))
          else Ok(Preview(incoming, level, family, UpgradeExisting(applied.level), before, before, needsCheck))
        case None =>
          if before.Of(family) >= capacity.Of(family) then Err(NoFreeSlot(family))
          else if before.Of(family) + 1 > 255 then Err(OccupancyOverflow)
          else Ok(Preview(incoming, level, family, InsertNew, before, before.Increment(family), needsCheck))
  }

  method ComputeScan(existing: seq<Applied>, incoming: Enchant)
    returns (r: Result<Option<Applied>, ApplyError>, survivor: bool)
    ensures r == ScanFrom(existing, incoming, 0, None)
    ensures r.Ok? ==> survivor == exists i :: 0 <= i < |existing| && IsSurvival(existing[i].enchant)
  {
    hide Scope, IsSurvival;
    var same := None;
    survivor := false;
    for i := 0 to |existing|
      invariant ScanFrom(existing, incoming, 0, None) == ScanFrom(existing, incoming, i, same)
      invariant survivor == exists j :: 0 <= j < i && IsSurvival(existing[j].enchant)
    {
      survivor := survivor || IsSurvival(existing[i].enchant);
      if existing[i].enchant == incoming {
        same := Some(existing[i]);
      } else if Scope(incoming, existing[i].enchant) != NoConflict {
        return Err(IncomingConflict(incoming, existing[i].enchant)), survivor;
      }
    }
    return Ok(same), survivor;
  }

  method ComputePreviewBook(slot: Slot, capacity: PerFamily, existing: seq<Applied>, incoming: Enchant, level: int)
    returns (r: Result<Preview, ApplyError>)
    ensures r == PreviewBook(slot, capacity, existing, incoming, level)
  {
    hide AppliesTo, MaxLevel, ValidateFrom, SlotFamily, ScanFrom, IsSurvival, ValidateCapacity;
    var invalid := ValidateCapacity(capacity);
    if invalid.Some? {
      return Err(invalid.value);
    }
    if !LevelLegal(incoming, level) {
      return Err(InvalidEnchantLevel(incoming, level));
    }
    if !AppliesTo(incoming, slot) {
      return Err(IncomingEnchantWrongEquipmentSlot(incoming));
    }
    var validated := ComputeValidateExistingState(slot, capacity, existing);
    if validated.Err? {
      return Err(validated.error);
    }
    var before := validated.value;
    var scanned, survivor := ComputeScan(existing, incoming);
    if scanned.Err? {
      return Err(scanned.error);
    }
    var same, needsCheck := scanned.value, IsSurvival(incoming) || survivor;
    var family := SlotFamily(incoming);
    if same.Some? {
      if level <= same.value.level {
        return Err(LowerOrEqualReplacement(same.value.level));
      }
      return Ok(Preview(incoming, level, family, UpgradeExisting(same.value.level), before, before, needsCheck));
    }
    if before.Of(family) >= capacity.Of(family) {
      return Err(NoFreeSlot(family));
    }
    if before.Of(family) + 1 > 255 {
      return Err(OccupancyOverflow);
    }
    return Ok(Preview(incoming, level, family, InsertNew, before, before.Increment(family), needsCheck));
  }

  // ---- what the checks mean: a table of rows, in no order

  ghost function Rows(existing: seq<Applied>): set<Applied> {
    set x | x in existing
  }

  ghost predicate NoDuplicates(existing: seq<Applied>) {
    forall i, j :: 0 <= i < j < |existing| ==> existing[i] != existing[j]
  }

  ghost predicate RowLegal(slot: Slot, row: Applied) {
    LevelLegal(row.enchant, row.level) && AppliesTo(row.enchant, slot)
  }

  ghost predicate Compatible(a: Applied, b: Applied) {
    a.enchant != b.enchant && Scope(a.enchant, b.enchant) == NoConflict
  }

  ghost function OfFamily(rows: set<Applied>, family: Family): set<Applied> {
    set x | x in rows && SlotFamily(x.enchant) == family
  }

  ghost function Occupancy(rows: set<Applied>): PerFamily {
    PerFamily(|OfFamily(rows, NormalClass)|, |OfFamily(rows, SpecialUniversal)|)
  }

  /** Every row is legal on the item, no two rows clash, and neither family holds more than its unlocked slots. */
  ghost predicate ValidRows(slot: Slot, capacity: PerFamily, rows: set<Applied>) {
    && (forall x :: x in rows ==> RowLegal(slot, x))
    && (forall x, y :: x in rows && y in rows && x != y ==> Compatible(x, y))
    && Occupancy(rows).normalClass <= capacity.normalClass
    && Occupancy(rows).specialUniversal <= capacity.specialUniversal
  }

  // ---- rows one at a time

  lemma AddedRow(rows: set<Applied>, row: Applied)
    requires row !in rows
    ensures Occupancy(rows + {row}) == Occupancy(rows).Increment(SlotFamily(row.enchant))
  {
    hide SlotFamily;
    var family := SlotFamily(row.enchant);
    forall f: Family
      ensures |OfFamily(rows + {row}, f)| == |OfFamily(rows, f)| + if f == family then 1 else 0
    {
      if f == family {
        assert OfFamily(rows + {row}, f) == OfFamily(rows, f) + {row};
      } else {
        assert OfFamily(rows + {row}, f) == OfFamily(rows, f);
      }
    }
  }

  lemma SubsetSize<T>(small: set<T>, big: set<T>)
    requires small <= big
    ensures |small| <= |big|
  {
    assert big == small + (big - small);
  }

  lemma PrefixRows(existing: seq<Applied>, index: nat)
    requires index < |existing|
    ensures Rows(existing[..index + 1]) == Rows(existing[..index]) + {existing[index]}
    ensures Rows(existing[..index]) <= Rows(existing)
    ensures existing[index] in existing[..index] <==> exists k :: 0 <= k < index && existing[k] == existing[index]
  {
    assert existing[..index + 1] == existing[..index] + [existing[index]];
  }

  lemma OccupancyGrows(small: set<Applied>, big: set<Applied>)
    requires small <= big
    ensures Occupancy(small).normalClass <= Occupancy(big).normalClass
    ensures Occupancy(small).specialUniversal <= Occupancy(big).specialUniversal
  {
    hide SlotFamily;
    SubsetSize(OfFamily(small, NormalClass), OfFamily(big, NormalClass));
    SubsetSize(OfFamily(small, SpecialUniversal), OfFamily(big, SpecialUniversal));
  }

  /** The scan for a clash finds one exactly when an earlier row is not compatible. */
  lemma {:induction false} ClashFound(previous: seq<Applied>, applied: Applied, k: nat)
    requires k <= |previous|
    ensures ClashFrom(previous, applied, k).None? <==> forall i :: k <= i < |previous| ==> Compatible(previous[i], applied)
    decreases |previous| - k
  {
    hide Scope;
    if k == |previous| {
    } else {
      ClashFound(previous, applied, k + 1);
    }
  }

  /** The row-by-row check from a valid prefix accepts exactly when the whole table is valid, and then counts it. */
  lemma {:induction false} ValidateFromExact(slot: Slot, capacity: PerFamily, existing: seq<Applied>, index: nat)
    requires index <= |existing| && capacity.normalClass <= 255 && capacity.specialUniversal <= 255
    requires NoDuplicates(existing[..index]) && ValidRows(slot, capacity, Rows(existing[..index]))
    ensures var r := ValidateFrom(slot, capacity, existing, index, Occupancy(Rows(existing[..index])));
      && (r.Ok? <==> NoDuplicates(existing) && ValidRows(slot, capacity, Rows(existing)))
      && (r.Ok? ==> r.value == Occupancy(Rows(existing)))
    decreases |existing| - index
  {
    hide Scope, AppliesTo, MaxLevel, SlotFamily, OfFamily, Occupancy;
    if index == |existing| {
      assert existing[..index] == existing;
    } else {
      var prefix, row := existing[..index], existing[index];
      PrefixRows(existing, index);
      ClashFound(prefix, row, 0);
      if RowLegal(slot, row) && ClashFrom(prefix, row, 0).None? {
        FreshRow(prefix, row);
        AddedRow(Rows(prefix), row);
        ExtendedRows(slot, capacity, existing, index);
        if ValidRows(slot, capacity, Rows(existing[..index + 1])) {
          ValidateFromExact(slot, capacity, existing, index + 1);
        } else {
          OccupancyGrows(Rows(existing[..index + 1]), Rows(existing));
        }
      } else {
        BadRow(slot, capacity, existing, index);
      }
    }
  }

  lemma FreshRow(prefix: seq<Applied>, row: Applied)
    requires forall i :: 0 <= i < |prefix| ==> Compatible(prefix[i], row)
    ensures row !in Rows(prefix)
  {
  }

  /** A legal row compatible with a valid prefix extends it exactly when its family still has room. */
  lemma ExtendedRows(slot: Slot, capacity: PerFamily, existing: seq<Applied>, index: nat)
    requires index < |existing| && capacity.normalClass <= 255 && capacity.specialUniversal <= 255
    requires NoDuplicates(existing[..index]) && ValidRows(slot, capacity, Rows(existing[..index]))
    requires RowLegal(slot, existing[index]) && forall i :: 0 <= i < index ==> Compatible(existing[..index][i], existing[index])
    ensures NoDuplicates(existing[..index + 1])
    ensures var family := SlotFamily(existing[index].enchant);
      ValidRows(slot, capacity, Rows(existing[..index + 1]))
      <==> Occupancy(Rows(existing[..index])).Of(family) + 1 <= capacity.Of(family)
  {
    hide AppliesTo, MaxLevel, SlotFamily, OfFamily, Occupancy, Scope;
    var prefix, row := existing[..index], existing[index];
    PrefixRows(existing, index);
    FreshRow(prefix, row);
    AddedRow(Rows(prefix), row);
    assert existing[..index + 1] == prefix + [row];
    forall x | x in Rows(prefix)
      ensures Compatible(x, row) && Compatible(row, x)
    {
      ScopeSymmetric(x.enchant, row.enchant);
    }
  }

  lemma BadRow(slot: Slot, capacity: PerFamily, existing: seq<Applied>, index: nat)
    requires index < |existing|
    requires !RowLegal(slot, existing[index]) || exists i :: 0 <= i < index && !Compatible(existing[i], existing[index])
    ensures !(NoDuplicates(existing) && ValidRows(slot, capacity, Rows(existing)))
  {
    hide Scope, AppliesTo, MaxLevel, Occupancy;
    assert existing[index] in Rows(existing);
    if i :| 0 <= i < index && !Compatible(existing[i], existing[index]) {
      assert existing[i] in Rows(existing);
    }
  }

  /** The check accepts exactly the valid tables, and returns how many rows each family holds. */
  lemma ValidateExact(slot: Slot, capacity: PerFamily, existing: seq<Applied>)
    requires capacity.normalClass <= 255 && capacity.specialUniversal <= 255
    ensures var r := ValidateExistingState(slot, capacity, existing);
      && (r.Ok? <==> NoDuplicates(existing) && ValidRows(slot, capacity, Rows(existing)))
      && (r.Ok? ==> r.value == Occupancy(Rows(existing)))
  {
    hide Scope, AppliesTo, MaxLevel;
    assert existing[..0] == [] && Rows([]) == {};
    assert OfFamily({}, NormalClass) == {} && OfFamily({}, SpecialUniversal) == {};
    ValidateFromExact(slot, capacity, existing, 0);
  }

  // ---- the preview

  ghost predicate CapacityLegal(capacity: PerFamily) {
    && NORMAL_CLASS_NATIVE_SLOTS <= capacity.normalClass <= MAX_SLOTS_PER_FAMILY
    && SPECIAL_UNIVERSAL_NATIVE_SLOTS <= capacity.specialUniversal <= MAX_SLOTS_PER_FAMILY
  }

  ghost predicate NothingConflicts(rows: set<Applied>, incoming: Enchant) {
    forall x :: x in rows ==> Scope(incoming, x.enchant) == NoConflict
  }

  /** The book is new to an item with a free slot of its family, or raises the level of a row that is there. */
  ghost predicate FitsOrRaises(capacity: PerFamily, rows: set<Applied>, incoming: Enchant, level: int) {
    if exists x :: x in rows && x.enchant == incoming
    then forall x :: x in rows && x.enchant == incoming ==> x.level < level
    else Occupancy(rows).Of(SlotFamily(incoming)) < capacity.Of(SlotFamily(incoming))
  }

  lemma {:induction false} ScanExact(existing: seq<Applied>, incoming: Enchant, index: nat, same: Option<Applied>)
    requires index <= |existing|
    requires forall i, j :: 0 <= i < j < |existing| ==> existing[i].enchant != existing[j].enchant
    requires same.Some? ==> exists i :: 0 <= i < index && existing[i] == same.value && same.value.enchant == incoming
    requires same.None? ==> forall i :: 0 <= i < index ==> existing[i].enchant != incoming
    ensures var r := ScanFrom(existing, incoming, index, same);
      && (r.Ok? <==> forall i :: index <= i < |existing| ==> Scope(incoming, existing[i].enchant) == NoConflict)
      && (r.Ok? ==>
            && (r.value.Some? ==> r.value.value in existing && r.value.value.enchant == incoming)
            && (r.value.None? ==> forall i :: 0 <= i < |existing| ==> existing[i].enchant != incoming))
    decreases |existing| - index
  {
    hide Scope;
    if index == |existing| {
    } else {
      var row := existing[index];
      SameScope(incoming);
      if row.enchant == incoming {
        ScanExact(existing, incoming, index + 1, Some(row));
      } else if Scope(incoming, row.enchant) == NoConflict {
        ScanExact(existing, incoming, index + 1, same);
      }
    }
  }

  lemma SameScope(e: Enchant)
    ensures Scope(e, e) == NoConflict
  {
  }

  lemma DistinctEnchants(slot: Slot, capacity: PerFamily, existing: seq<Applied>)
    requires NoDuplicates(existing) && ValidRows(slot, capacity, Rows(existing))
    ensures forall i, j :: 0 <= i < j < |existing| ==> existing[i].enchant != existing[j].enchant
  {
    hide Scope, RowLegal, Occupancy;
    forall i, j | 0 <= i < j < |existing|
      ensures existing[i].enchant != existing[j].enchant
    {
      assert existing[i] in Rows(existing) && existing[j] in Rows(existing);
      assert Compatible(existing[i], existing[j]);
    }
  }

  /** The preview accepts exactly when the capacity and the level are legal, the enchant fits the item, the rows are valid,
      nothing conflicts, and the book is new with a free slot or raises a level; and it reports the row it would raise. */
  lemma PreviewExact(slot: Slot, capacity: PerFamily, existing: seq<Applied>, incoming: Enchant, level: int)
    ensures var (r, rows) := (PreviewBook(slot, capacity, existing, incoming, level), Rows(existing));
      && (r.Ok? <==>
            && CapacityLegal(capacity) && LevelLegal(incoming, level) && AppliesTo(incoming, slot)
            && NoDuplicates(existing) && ValidRows(slot, capacity, rows)
            && NothingConflicts(rows, incoming) && FitsOrRaises(capacity, rows, incoming, level))
      && (r.Ok? ==>
            && r.value.enchant == incoming && r.value.level == level && r.value.family == SlotFamily(incoming)
            && r.value.before == Occupancy(rows)
            && (r.value.action.UpgradeExisting? ==>
                  Applied(incoming, r.value.action.previousLevel) in rows && r.value.after == r.value.before)
            && (r.value.action.InsertNew? ==>
                  (forall x :: x in rows ==> x.enchant != incoming)
                  && r.value.after == r.value.before.Increment(SlotFamily(incoming)))
            && (r.value.needsLoadoutCheck <==> IsSurvival(incoming) || exists x :: x in rows && IsSurvival(x.enchant)))
  {
    hide Scope, AppliesTo, MaxLevel, SlotFamily, OfFamily, IsSurvival, ValidateFrom, RowLegal;
    CapacityCheck(capacity);
    if CapacityLegal(capacity) {
      ValidateExact(slot, capacity, existing);
      if NoDuplicates(existing) && ValidRows(slot, capacity, Rows(existing)) {
        DistinctEnchants(slot, capacity, existing);
        ScanExact(existing, incoming, 0, None);
        RowsAre(existing);
      }
    }
  }

  lemma CapacityCheck(capacity: PerFamily)
    ensures ValidateCapacity(capacity).None? <==> CapacityLegal(capacity)
  {
  }

  lemma RowsAre(existing: seq<Applied>)
    ensures forall i :: 0 <= i < |existing| ==> existing[i] in Rows(existing)
    ensures forall x :: x in Rows(existing) ==> exists i :: 0 <= i < |existing| && existing[i] == x
  {
  }

  // ---- the result

  /** The rows after the write: one more, or the same with one level raised. */
  function Written(existing: seq<Applied>, incoming: Enchant, level: int, action: Action): (after: seq<Applied>)
    ensures |after| == |existing| + if action.InsertNew? then 1 else 0
  {
    match action
    case InsertNew => existing + [Applied(incoming, level)]
    case UpgradeExisting(_) =>
      seq(|existing|, i requires 0 <= i < |existing| =>
        if existing[i].enchant == incoming then Applied(incoming, level) else existing[i])
  }

  /** The resulting list passes the check, with exactly the occupancy the preview announced. */
  lemma ResultValid(slot: Slot, capacity: PerFamily, existing: seq<Applied>, incoming: Enchant, level: int)
    requires PreviewBook(slot, capacity, existing, incoming, level).Ok?
    ensures var preview := PreviewBook(slot, capacity, existing, incoming, level).value;
      ValidateExistingState(slot, capacity, Written(existing, incoming, level, preview.action)) == Ok(preview.after)
  {
    hide Scope, AppliesTo, MaxLevel, SlotFamily, OfFamily, IsSurvival, ValidateExistingState, PreviewBook, Occupancy,
         Written;
    PreviewExact(slot, capacity, existing, incoming, level);
    var preview := PreviewBook(slot, capacity, existing, incoming, level).value;
    if preview.action.InsertNew? {
      InsertedValid(slot, capacity, existing, incoming, level);
    } else {
      RaisedValid(slot, capacity, existing, incoming, preview.action.previousLevel, level);
    }
    ValidateExact(slot, capacity, Written(existing, incoming, level, preview.action));
  }

  lemma InsertedValid(slot: Slot, capacity: PerFamily, existing: seq<Applied>, incoming: Enchant, level: int)
    requires NoDuplicates(existing) && ValidRows(slot, capacity, Rows(existing))
    requires RowLegal(slot, Applied(incoming, level)) && NothingConflicts(Rows(existing), incoming)
    requires forall x :: x in Rows(existing) ==> x.enchant != incoming
    requires Occupancy(Rows(existing)).Of(SlotFamily(incoming)) < capacity.Of(SlotFamily(incoming))
    ensures var after := Written(existing, incoming, level, InsertNew);
      && NoDuplicates(after) && ValidRows(slot, capacity, Rows(after))
      && Occupancy(Rows(after)) == Occupancy(Rows(existing)).Increment(SlotFamily(incoming))
  {
    hide Scope, AppliesTo, MaxLevel, SlotFamily, OfFamily, Occupancy;
    var row := Applied(incoming, level);
    var after := existing + [row];
    assert Rows(after) == Rows(existing) + {row};
    AddedRow(Rows(existing), row);
    forall x | x in Rows(existing)
      ensures Compatible(x, row) && Compatible(row, x)
    {
      ScopeSymmetric(x.enchant, incoming);
    }
    forall i, j | 0 <= i < j < |after|
      ensures after[i] != after[j]
    {
      assert existing[i] in Rows(existing);
    }
  }

  lemma RaisedValid(slot: Slot, capacity: PerFamily, existing: seq<Applied>, incoming: Enchant, previous: int,
                    level: int)
    requires NoDuplicates(existing) && ValidRows(slot, capacity, Rows(existing))
    requires RowLegal(slot, Applied(incoming, level)) && Applied(incoming, previous) in Rows(existing)
    ensures var after := Written(existing, incoming, level, UpgradeExisting(previous));
      && NoDuplicates(after) && ValidRows(slot, capacity, Rows(after))
      && Occupancy(Rows(after)) == Occupancy(Rows(existing))
  {
    hide Scope, AppliesTo, MaxLevel, SlotFamily, OfFamily, Occupancy, RowLegal;
    var (old_, new_) := (Applied(incoming, previous), Applied(incoming, level));
    var after := Written(existing, incoming, level, UpgradeExisting(previous));
    DistinctEnchants(slot, capacity, existing);
    var rest := Rows(existing) - {old_};
    var k :| 0 <= k < |existing| && existing[k] == old_;
    assert forall i :: 0 <= i < |existing| && i != k ==> existing[i].enchant != incoming && after[i] == existing[i];
    assert Rows(after) == rest + {new_} by {
      RaisedRows(existing, after, k, old_, new_);
    }
    assert new_ !in rest && rest + {old_} == Rows(existing);
    AddedRow(rest, old_);
    AddedRow(rest, new_);
    forall x | x in rest
      ensures Compatible(x, new_) && Compatible(new_, x)
    {
      assert Compatible(x, old_) && Compatible(old_, x);
    }
  }

  lemma RaisedRows(existing: seq<Applied>, after: seq<Applied>, k: nat, before: Applied, raised: Applied)
    requires |after| == |existing| && k < |existing| && existing[k] == before && after[k] == raised
    requires NoDuplicates(existing) && forall i :: 0 <= i < |existing| && i != k ==> after[i] == existing[i]
    ensures Rows(after) == Rows(existing) - {before} + {raised}
  {
    forall x
      ensures x in Rows(after) <==> x in Rows(existing) - {before} + {raised}
    {
      if x in Rows(after) {
        var i :| 0 <= i < |after| && after[i] == x;
        assert i != k ==> existing[i] == x && x != before;
      }
      if x in Rows(existing) && x != before {
        var i :| 0 <= i < |existing| && existing[i] == x;
        assert after[i] == x;
      }
      assert after[k] in Rows(after);
    }
  }

  // ---- the order of the rows does not matter

  lemma NoDuplicatesTail(s: seq<Applied>)
    requires s != []
    ensures NoDuplicates(s) <==> s[0] !in s[1..] && NoDuplicates(s[1..])
    ensures Rows(s) == Rows(s[1..]) + {s[0]}
  {
    var rest := s[1..];
    assert s == [s[0]] + rest;
    if NoDuplicates(s) {
      forall i | 0 <= i < |rest|
        ensures rest[i] != s[0]
      {
        assert s[0] != s[i + 1];
      }
      forall i, j | 0 <= i < j < |rest|
        ensures rest[i] != rest[j]
      {
        assert s[i + 1] != s[j + 1];
      }
    }
    if s[0] !in rest && NoDuplicates(rest) {
      forall i, j | 0 <= i < j < |s|
        ensures s[i] != s[j]
      {
        assert s[j] == rest[j - 1];
        assert i > 0 ==> s[i] == rest[i - 1] && rest[i - 1] != rest[j - 1];
      }
    }
  }

  lemma {:induction false} RowsSize(s: seq<Applied>)
    ensures |Rows(s)| <= |s| && (NoDuplicates(s) <==> |Rows(s)| == |s|)
  {
    hide NoDuplicates;
    if s == [] {
      assert Rows(s) == {} && NoDuplicates([]) by {
        EmptyRows();
      }
    } else {
      RowsSize(s[1..]);
      NoDuplicatesTail(s);
      assert s[0] in s[1..] ==> Rows(s) == Rows(s[1..]);
    }
  }

  lemma EmptyRows()
    ensures Rows([]) == {} && NoDuplicates([])
  {
  }

  /** Whatever order the rows are read in, the preview accepts the same books and reports the same result. */
  lemma PreviewOrderIrrelevant(slot: Slot, capacity: PerFamily, existing: seq<Applied>, reordered: seq<Applied>,
                               incoming: Enchant, level: int)
    requires multiset(existing) == multiset(reordered)
    ensures var r := PreviewBook(slot, capacity, existing, incoming, level);
      var r' := PreviewBook(slot, capacity, reordered, incoming, level);
      (r.Ok? <==> r'.Ok?) && (r.Ok? ==> r == r')
  {
    hide Scope, AppliesTo, MaxLevel, SlotFamily, OfFamily, IsSurvival, PreviewBook, Occupancy, RowLegal;
    forall x
      ensures x in Rows(existing) <==> x in Rows(reordered)
    {
      assert x in existing <==> x in multiset(existing);
      assert x in reordered <==> x in multiset(reordered);
    }
    assert Rows(existing) == Rows(reordered);
    assert |existing| == |multiset(existing)| == |reordered|;
    RowsSize(existing);
    RowsSize(reordered);
    PreviewExact(slot, capacity, existing, incoming, level);
    PreviewExact(slot, capacity, reordered, incoming, level);
    if PreviewBook(slot, capacity, existing, incoming, level).Ok? {
      SameAction(slot, capacity, Rows(existing), PreviewBook(slot, capacity, existing, incoming, level).value,
                 PreviewBook(slot, capacity, reordered, incoming, level).value);
    }
  }

  lemma SameAction(slot: Slot, capacity: PerFamily, rows: set<Applied>, p: Preview, q: Preview)
    requires ValidRows(slot, capacity, rows) && p.enchant == q.enchant
    requires p.action.UpgradeExisting? ==> Applied(p.enchant, p.action.previousLevel) in rows
    requires q.action.UpgradeExisting? ==> Applied(q.enchant, q.action.previousLevel) in rows
    requires p.action.InsertNew? ==> forall x :: x in rows ==> x.enchant != p.enchant
    requires q.action.InsertNew? ==> forall x :: x in rows ==> x.enchant != q.enchant
    ensures p.action == q.action
  {
    hide Scope, RowLegal, Occupancy;
    if p.action.UpgradeExisting? && q.action.UpgradeExisting? {
      var (x, y) := (Applied(p.enchant, p.action.previousLevel), Applied(q.enchant, q.action.previousLevel));
      assert x != y ==> Compatible(x, y);
    }
  }

  // ---- what each error says

  /** What an error claims about the item and the book. */
  ghost predicate Cause(error: ApplyError, slot: Slot, capacity: PerFamily, rows: seq<Applied>, incoming: Enchant, level: int) {
    match error
    case InvalidUnlockedSlotCount(family, current) =>
      current == capacity.Of(family) && !((if family == NormalClass then 4 else 3) <= current <= 6)
    case InvalidEnchantLevel(e, l) =>
      !(1 <= l <= MaxLevel(e)) && (Applied(e, l) == Applied(incoming, level) || Applied(e, l) in rows)
    case DuplicateExistingEnchant(e) => exists i, j :: 0 <= i < j < |rows| && rows[i].enchant == e && rows[j].enchant == e
    case ExistingEnchantWrongEquipmentSlot(e) => !AppliesTo(e, slot) && exists x :: x in rows && x.enchant == e
    case IncomingEnchantWrongEquipmentSlot(e) => e == incoming && !AppliesTo(e, slot)
    case ExistingOccupancyExceedsCapacity(family) => capacity.Of(family) < Occupancy(Rows(rows)).Of(family)
    case ExistingItemConflict(l, r) =>
      Scope(l, r) != NoConflict && exists i, j :: 0 <= i < j < |rows| && rows[i].enchant == l && rows[j].enchant == r
    case IncomingConflict(e, other) =>
      e == incoming && Scope(e, other) != NoConflict && exists x :: x in rows && x.enchant == other
    case LowerOrEqualReplacement(existing) => Applied(incoming, existing) in rows && level <= existing
    case NoFreeSlot(family) =>
      && family == SlotFamily(incoming) && capacity.Of(family) <= Occupancy(Rows(rows)).Of(family)
      && forall x :: x in rows ==> x.enchant != incoming
    case OccupancyOverflow => false
  }

  lemma {:induction false} ClashCause(previous: seq<Applied>, applied: Applied, k: nat)
    requires k <= |previous|
    ensures match ClashFrom(previous, applied, k)
      case None => true
      case Some(error) =>
        exists i :: k <= i < |previous|
          && if previous[i].enchant == applied.enchant then error == DuplicateExistingEnchant(applied.enchant)
             else Scope(previous[i].enchant, applied.enchant) != NoConflict
                  && error == ExistingItemConflict(previous[i].enchant, applied.enchant)
    decreases |previous| - k
  {
    hide Scope;
    if k == |previous| {
    } else {
      ClashCause(previous, applied, k + 1);
    }
  }

  /** The check of the rows names a true cause. */
  lemma {:induction false} ValidateCause(slot: Slot, capacity: PerFamily, rows: seq<Applied>, index: nat, incoming: Enchant,
                                         level: int)
    requires index <= |rows| && capacity.normalClass <= 254 && capacity.specialUniversal <= 254
    requires NoDuplicates(rows[..index]) && ValidRows(slot, capacity, Rows(rows[..index]))
    ensures var r := ValidateFrom(slot, capacity, rows, index, Occupancy(Rows(rows[..index])));
      r.Err? ==> Cause(r.error, slot, capacity, rows, incoming, level)
    decreases |rows| - index
  {
    hide Scope, AppliesTo, MaxLevel, SlotFamily, OfFamily, Occupancy;
    if index == |rows| {
    } else {
      var prefix, row := rows[..index], rows[index];
      PrefixRows(rows, index);
      ClashFound(prefix, row, 0);
      ClashCause(prefix, row, 0);
      if RowLegal(slot, row) && ClashFrom(prefix, row, 0).None? {
        FreshRow(prefix, row);
        AddedRow(Rows(prefix), row);
        assert Occupancy(Rows(rows[..index + 1])) == Occupancy(Rows(prefix)).Increment(SlotFamily(row.enchant));
        ExtendedRows(slot, capacity, rows, index);
        if ValidRows(slot, capacity, Rows(rows[..index + 1])) {
          ValidateCause(slot, capacity, rows, index + 1, incoming, level);
        } else {
          OccupancyGrows(Rows(rows[..index + 1]), Rows(rows));
        }
      }
    }
  }

  lemma {:induction false} ScanCause(rows: seq<Applied>, incoming: Enchant, index: nat, same: Option<Applied>)
    requires index <= |rows|
    ensures match ScanFrom(rows, incoming, index, same)
      case Ok(_) => true
      case Err(error) =>
        exists x :: x in rows && Scope(incoming, x.enchant) != NoConflict && error == IncomingConflict(incoming, x.enchant)
    decreases |rows| - index
  {
    hide Scope;
    if index == |rows| {
    } else {
      ScanCause(rows, incoming, index + 1, if rows[index].enchant == incoming then Some(rows[index]) else same);
    }
  }

  lemma NoRowsYet(slot: Slot, capacity: PerFamily)
    ensures NoDuplicates([]) && ValidRows(slot, capacity, Rows([])) && Occupancy(Rows([])) == PerFamily(0, 0)
  {
    hide RowLegal, Compatible;
    EmptyRows();
    assert OfFamily({}, NormalClass) == {} && OfFamily({}, SpecialUniversal) == {};
  }

  /** Every error of the preview is true of its input, and the occupancy count never overflows. */
  lemma PreviewErrorTrue(slot: Slot, capacity: PerFamily, rows: seq<Applied>, incoming: Enchant, level: int)
    ensures PreviewBook(slot, capacity, rows, incoming, level).Err? ==>
      Cause(PreviewBook(slot, capacity, rows, incoming, level).error, slot, capacity, rows, incoming, level)
  {
    hide Scope, AppliesTo, MaxLevel, SlotFamily, OfFamily, IsSurvival, ValidateFrom, RowLegal;
    CapacityCheck(capacity);
    if CapacityLegal(capacity) {
      assert rows[..0] == [];
      NoRowsYet(slot, capacity);
      ValidateCause(slot, capacity, rows, 0, incoming, level);
      ValidateExact(slot, capacity, rows);
      ScanCause(rows, incoming, 0, None);
      if NoDuplicates(rows) && ValidRows(slot, capacity, Rows(rows)) {
        DistinctEnchants(slot, capacity, rows);
        ScanExact(rows, incoming, 0, None);
      }
    }
  }
}
