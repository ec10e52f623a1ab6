/** What holds of the storage tables in every reachable state. */
module StorageLaws {
  import opened Numbers
  import opened Products
  import opened Sums
  import opened Text
  import opened Storage

  // ---- sums over the tables

  /** Slots of one stack: its quantity divided by the stack limit, rounded up. */
  function RowSlots(defs: map<DefVersion, Definition>, row: StackRow): int {
    var limit := StackLimit(defs, row.def);
    if limit <= 0 then 0 else (row.quantity + limit - 1) / limit
  }

  function SlotList(defs: map<DefVersion, Definition>, stacks: seq<StackRow>, p: PlayerId): (list: seq<int>)
    ensures |list| == |stacks|
  {
    seq(|stacks|, i requires 0 <= i < |stacks| => if stacks[i].player == p then RowSlots(defs, stacks[i]) else 0)
  }

  /** What an item weighs in the player's catch bag. */
  function GramsIn(item: ItemRow, p: PlayerId): int {
    if item.owner == p && item.place == InCatchBag && item.weight.Some? then item.weight.value else 0
  }

  function GramList(items: seq<ItemRow>, p: PlayerId): (list: seq<int>)
    ensures |list| == |items|
  {
    seq(|items|, i requires 0 <= i < |items| => GramsIn(items[i], p))
  }

  function SlotIn(item: ItemRow, p: PlayerId): int {
    if item.owner == p && item.place == InItemBag then 1 else 0
  }

  function SingleList(items: seq<ItemRow>, p: PlayerId): (list: seq<int>)
    ensures |list| == |items|
  {
    seq(|items|, i requires 0 <= i < |items| => SlotIn(items[i], p))
  }

  /** What the player's bag holds, in its own unit. */
  function Load(s: State, p: PlayerId, bag: Bag): int {
    match bag
    case ItemBag => Sum(SlotList(s.definitions, s.stacks, p)) + Sum(SingleList(s.items, p))
    case CatchBag => Sum(GramList(s.items, p))
  }

  /** What the bag may hold, unbounded. */
  function Limit(profile: Profile, bag: Bag): int {
    match bag
    case ItemBag => ITEM_BAG_BASE_SLOTS + ITEM_BAG_SLOTS_PER_LEVEL * profile.itemBagLevel
    case CatchBag => CATCH_BAG_BASE_GRAMS + CATCH_BAG_GRAMS_PER_LEVEL * profile.catchBagLevel
  }

  // ---- the invariant

  ghost predicate ValidStacks(s: State) {
    && (forall i :: 0 <= i < |s.stacks| ==>
          0 < s.stacks[i].quantity <= I64_MAX && 0 < StackLimit(s.definitions, s.stacks[i].def))
    && (forall i, j :: 0 <= i < j < |s.stacks| ==>
          s.stacks[i].player != s.stacks[j].player || s.stacks[i].def != s.stacks[j].def)
  }

  ghost predicate ValidItems(s: State) {
    && (forall i :: 0 <= i < |s.items| ==> s.items[i].id < s.nextId)
    && (forall i, j :: 0 <= i < j < |s.items| ==> s.items[i].id != s.items[j].id)
    && (forall i :: 0 <= i < |s.items| && s.items[i].place == InCatchBag ==>
          s.items[i].weight.Some? && 0 < s.items[i].weight.value)
  }

  /** Item row `j` is the overflow item that the open pending row waits for. */
  ghost predicate Holds(defs: map<DefVersion, Definition>, row: PendingRow, item: ItemRow) {
    row.item == Some(item.id) && Claimable(defs, row, item, row.player, row.bag)
  }

  ghost predicate Open(row: PendingRow) {
    row.open && row.item.Some?
  }

  /** Every open item delivery has its overflow item. */
  ghost predicate PendingHeld(s: State) {
    forall k :: 0 <= k < |s.pending| && Open(s.pending[k]) ==>
      exists i :: 0 <= i < |s.items| && Holds(s.definitions, s.pending[k], s.items[i])
  }

  /** No two open deliveries wait for the same item. */
  ghost predicate PendingDistinct(s: State) {
    forall k, l :: 0 <= k < l < |s.pending| && Open(s.pending[k]) && Open(s.pending[l]) ==>
      s.pending[k].item != s.pending[l].item
  }

  /** Every overflow item has its open delivery. */
  ghost predicate OverflowAwaited(s: State) {
    forall i :: 0 <= i < |s.items| && s.items[i].place == TempOverflow ==>
      exists k :: 0 <= k < |s.pending| && Open(s.pending[k]) && s.pending[k].item == Some(s.items[i].id)
  }

  /** Open item deliveries and overflow items are one-to-one. */
  ghost predicate Matched(s: State) {
    PendingHeld(s) && PendingDistinct(s) && OverflowAwaited(s)
  }

  /** All open item deliveries of one player to one bag come from a single operation. */
  ghost predicate SingleSource(s: State) {
    forall k, l :: 0 <= k < |s.pending| && 0 <= l < |s.pending| && Open(s.pending[k]) && Open(s.pending[l])
                   && s.pending[k].player == s.pending[l].player && s.pending[k].bag == s.pending[l].bag ==>
      s.pending[k].operation == s.pending[l].operation
  }

  /** Pending rows for the catch bag always carry an item. */
  ghost predicate FishPending(s: State) {
    forall k :: 0 <= k < |s.pending| && s.pending[k].bag == CatchBag ==> s.pending[k].item.Some?
  }

  /** The stored payload repeats the row's own identity. */
  ghost predicate ValidEvent(e: EventRow) {
    match e.payload
    case StackDelivered(r) => r.request.operation == e.operation && r.request.key == e.key && r.request.player == e.player
    case StackConsumed(r) =>
      && r.request.operation == e.operation && r.request.key == e.key && r.request.player == e.player
      && r.after == r.before - r.request.quantity && 0 <= r.after
    case UniqueDelivered(r) => r.request.operation == e.operation && r.request.key == e.key && r.request.player == e.player
    case FishDelivered(r) =>
      && r.operation == e.operation && r.player == e.player
      && r.request.fishSlot < MAX_FISH_PER_CAST && e.key == FishKey(r.request.fishSlot)
    case BagClaimed(bag, r) => r.operation == e.operation && r.player == e.player && e.key == ClaimKey(bag)
  }

  /** Each operation and mutation key has at most one event. */
  ghost predicate ValidEvents(s: State) {
    && (forall i :: 0 <= i < |s.events| ==> ValidEvent(s.events[i]))
    && (forall i, j :: 0 <= i < j < |s.events| ==>
          s.events[i].operation != s.events[j].operation || s.events[i].key != s.events[j].key)
  }

  /** No bag holds more than its capacity. */
  ghost predicate WithinCapacity(s: State) {
    forall p, bag :: p in s.players ==> Load(s, p, bag) <= Limit(s.players[p], bag)
  }

  ghost predicate Invariant(s: State) {
    && ValidStacks(s) && ValidItems(s) && Matched(s) && SingleSource(s) && FishPending(s) && ValidEvents(s)
    && WithinCapacity(s)
  }

  // ---- the sums the program computes

  lemma SlotsExact(quantity: int, limit: int)
    requires SlotsForQuantity(quantity, limit).Some?
    ensures 0 < limit && 0 <= quantity
    ensures SlotsForQuantity(quantity, limit).value == (quantity + limit - 1) / limit
  {
    if quantity == 0 {
      QuotientUnique(limit, (limit - 1) / limit, (limit - 1) % limit, 0, limit - 1);
    }
  }

  lemma {:induction false} StackSlotsExact(defs: map<DefVersion, Definition>, stacks: seq<StackRow>, p: PlayerId,
                                           used: int)
    ensures StackSlots(defs, stacks, p, used).Some? ==>
      StackSlots(defs, stacks, p, used).value == used + Sum(SlotList(defs, stacks, p))
  {
    hide SlotsForQuantity, StackLimit;
    if stacks != [] && StackSlots(defs, stacks, p, used).Some? {
      assert SlotList(defs, stacks, p)[1..] == SlotList(defs, stacks[1..], p);
      if stacks[0].player != p {
        StackSlotsExact(defs, stacks[1..], p, used);
      } else {
        var limit := StackLimit(defs, stacks[0].def);
        SlotsExact(stacks[0].quantity, limit);
        StackSlotsExact(defs, stacks[1..], p, used + SlotsForQuantity(stacks[0].quantity, limit).value);
      }
    }
  }

  lemma {:induction false} GramsExact(items: seq<ItemRow>, p: PlayerId)
    ensures GramsFrom(items, p).Ok? ==> GramsFrom(items, p).value == Sum(GramList(items, p))
  {
    if items == [] {
    } else {
      GramsExact(items[1..], p);
      assert GramList(items, p)[1..] == GramList(items[1..], p);
    }
  }

  lemma {:induction false} SinglesExact(items: seq<ItemRow>, p: PlayerId)
    ensures CountIn(items, p, InItemBag) == Sum(SingleList(items, p))
  {
    if items == [] {
    } else {
      SinglesExact(items[1..], p);
      assert SingleList(items, p)[1..] == SingleList(items[1..], p);
    }
  }

  /** The program's own count of a bag is what the bag holds, and its capacity is the limit. */
  lemma UsedExact(s: State, p: PlayerId, bag: Bag)
    ensures Used(s, p, bag).Ok? ==> Used(s, p, bag).value == Load(s, p, bag)
    ensures forall profile :: BagCapacity(profile, bag).Some? ==> BagCapacity(profile, bag).value == Limit(profile, bag)
  {
    StackSlotsExact(s.definitions, s.stacks, p, 0);
    GramsExact(s.items, p);
    SinglesExact(s.items, p);
  }

  // ---- one more or one fewer of a stack

  function QuantityList(stacks: seq<StackRow>, p: PlayerId, def: DefVersion): (list: seq<int>)
    ensures |list| == |stacks|
  {
    seq(|stacks|, i requires 0 <= i < |stacks| =>
      if stacks[i].player == p && stacks[i].def == def then stacks[i].quantity else 0)
  }

  /** Slots a quantity of the definition takes. */
  function SlotsOf(defs: map<DefVersion, Definition>, def: DefVersion, quantity: int): int {
    RowSlots(defs, StackRow(0, def, quantity))
  }

  lemma NoSlotsForNothing(defs: map<DefVersion, Definition>, def: DefVersion)
    ensures SlotsOf(defs, def, 0) == 0
  {
    var limit := StackLimit(defs, def);
    if limit > 0 {
      QuotientUnique(limit, (limit - 1) / limit, (limit - 1) % limit, 0, limit - 1);
    }
  }

  /** Setting a stack's quantity changes its player's slots and its own total by exactly the difference. */
  lemma WithQuantitySums(defs: map<DefVersion, Definition>, stacks: seq<StackRow>, p: PlayerId, def: DefVersion,
                         quantity: int)
    requires FindStack(stacks, p, def).None? ==> quantity > 0
    ensures var (before, after) := (QuantityOf(stacks, p, def), WithQuantity(stacks, p, def, quantity));
      && (forall q :: Sum(SlotList(defs, after, q)) == Sum(SlotList(defs, stacks, q))
            + if q == p then SlotsOf(defs, def, quantity) - SlotsOf(defs, def, before) else 0)
      && (forall q, d :: Sum(QuantityList(after, q, d)) == Sum(QuantityList(stacks, q, d))
            + if q == p && d == def then quantity - before else 0)
  {
    hide RowSlots;
    FindStackExact(stacks, p, def);
    NoSlotsForNothing(defs, def);
    SlotsByDefinition(defs, p, def, quantity);
    SlotsByDefinition(defs, p, def, QuantityOf(stacks, p, def));
    forall q
      ensures Sum(SlotList(defs, WithQuantity(stacks, p, def, quantity), q)) == Sum(SlotList(defs, stacks, q))
        + if q == p then SlotsOf(defs, def, quantity) - SlotsOf(defs, def, QuantityOf(stacks, p, def)) else 0
    {
      SlotsChanged(defs, stacks, p, def, quantity, q);
    }
    forall q, d
      ensures Sum(QuantityList(WithQuantity(stacks, p, def, quantity), q, d)) == Sum(QuantityList(stacks, q, d))
        + if q == p && d == def then quantity - QuantityOf(stacks, p, def) else 0
    {
      QuantityChanged(stacks, p, def, quantity, q, d);
    }
  }

  lemma SlotsByDefinition(defs: map<DefVersion, Definition>, p: PlayerId, def: DefVersion, quantity: int)
    ensures RowSlots(defs, StackRow(p, def, quantity)) == SlotsOf(defs, def, quantity)
  {
  }

  lemma SlotsChanged(defs: map<DefVersion, Definition>, stacks: seq<StackRow>, p: PlayerId, def: DefVersion,
                     quantity: int, q: PlayerId)
    requires FindStack(stacks, p, def).None? ==> quantity > 0
    ensures Sum(SlotList(defs, WithQuantity(stacks, p, def, quantity), q)) == Sum(SlotList(defs, stacks, q))
      + if q == p then SlotsOf(defs, def, quantity) - SlotsOf(defs, def, QuantityOf(stacks, p, def)) else 0
  {
    hide RowSlots, FindStack, SlotsOf;
    FindStackExact(stacks, p, def);
    NoSlotsForNothing(defs, def);
    SlotsByDefinition(defs, p, def, quantity);
    var (after, list, row) := (WithQuantity(stacks, p, def, quantity), SlotList(defs, stacks, q), StackRow(p, def, quantity));
    match FindStack(stacks, p, def)
    case None =>
      assert SlotList(defs, after, q) == list + [if q == p then RowSlots(defs, row) else 0];
      SumAppend(list, if q == p then RowSlots(defs, row) else 0);
    case Some(i) =>
      assert stacks[i] == StackRow(p, def, stacks[i].quantity);
      SlotsByDefinition(defs, p, def, stacks[i].quantity);
      if quantity == 0 {
        assert SlotList(defs, after, q) == list[..i] + list[i + 1..];
        SumRemove(list, i);
      } else {
        assert SlotList(defs, after, q) == list[i := if q == p then RowSlots(defs, row) else 0];
        SumUpdate(list, i, if q == p then RowSlots(defs, row) else 0);
      }
  }

  lemma QuantityChanged(stacks: seq<StackRow>, p: PlayerId, def: DefVersion, quantity: int, q: PlayerId, d: DefVersion)
    requires FindStack(stacks, p, def).None? ==> quantity > 0
    ensures Sum(QuantityList(WithQuantity(stacks, p, def, quantity), q, d)) == Sum(QuantityList(stacks, q, d))
      + if q == p && d == def then quantity - QuantityOf(stacks, p, def) else 0
  {
    hide FindStack;
    FindStackExact(stacks, p, def);
    var (after, list, here) := (WithQuantity(stacks, p, def, quantity), QuantityList(stacks, q, d), q == p && d == def);
    match FindStack(stacks, p, def)
    case None =>
      assert QuantityList(after, q, d) == list + [if here then quantity else 0];
      SumAppend(list, if here then quantity else 0);
    case Some(i) =>
      if quantity == 0 {
        assert QuantityList(after, q, d) == list[..i] + list[i + 1..];
        SumRemove(list, i);
      } else {
        assert QuantityList(after, q, d) == list[i := if here then quantity else 0];
        SumUpdate(list, i, if here then quantity else 0);
      }
  }

  /** Setting a positive quantity, or emptying a stack, keeps the stack table valid. */
  lemma WithQuantityValid(s: State, p: PlayerId, def: DefVersion, quantity: int)
    requires ValidStacks(s) && 0 <= quantity <= I64_MAX && 0 < StackLimit(s.definitions, def)
    requires FindStack(s.stacks, p, def).None? ==> quantity > 0
    ensures ValidStacks(s.(stacks := WithQuantity(s.stacks, p, def, quantity)))
  {
    hide FindStack, StackLimit;
    FindStackExact(s.stacks, p, def);
  }
}
