/** Laws of storage over every run: bags within capacity, nothing lost or made up, one effect per key, and overflow that
    matches its pending deliveries. */
module StorageRuns {
  import opened Numbers
  import opened Products
  import opened Sums
  import opened Text
  import opened Storage
  import opened StorageLaws

  // ---- what a player holds of a definition, and what the events say

  /** A stack quantity still waiting for room. */
  function WaitingIn(row: PendingRow, p: PlayerId, def: DefVersion): int {
    if row.player == p && row.def == def && row.open && row.item.None? then row.quantity else 0
  }

  function PendingList(pending: seq<PendingRow>, p: PlayerId, def: DefVersion): (list: seq<int>)
    ensures |list| == |pending|
  {
    seq(|pending|, i requires 0 <= i < |pending| => WaitingIn(pending[i], p, def))
  }

  function HeldIn(item: ItemRow, p: PlayerId, def: DefVersion): int {
    if item.owner == p && item.def == def then 1 else 0
  }

  function HeldList(items: seq<ItemRow>, p: PlayerId, def: DefVersion): (list: seq<int>)
    ensures |list| == |items|
  {
    seq(|items|, i requires 0 <= i < |items| => HeldIn(items[i], p, def))
  }

  /** Stacked, waiting to be stacked, and single items. */
  function Holdings(s: State, p: PlayerId, def: DefVersion): int {
    Sum(QuantityList(s.stacks, p, def)) + Sum(PendingList(s.pending, p, def)) + Sum(HeldList(s.items, p, def))
  }

  /** What an event added to or took from the player's holdings. */
  function NetOf(e: EventRow, p: PlayerId, def: DefVersion): int {
    if e.player != p then 0
    else match e.payload
      case StackDelivered(r) => if r.request.def == def then r.request.quantity else 0
      case StackConsumed(r) => if r.request.def == def then -r.request.quantity else 0
      case UniqueDelivered(r) => if r.request.def == def then 1 else 0
      case FishDelivered(r) => if r.request.def == def then 1 else 0
      case BagClaimed(_, _) => 0
  }

  function NetList(events: seq<EventRow>, p: PlayerId, def: DefVersion): (list: seq<int>)
    ensures |list| == |events|
  {
    seq(|events|, i requires 0 <= i < |events| => NetOf(events[i], p, def))
  }

  /** Delivered minus consumed. */
  function Net(s: State, p: PlayerId, def: DefVersion): int {
    Sum(NetList(s.events, p, def))
  }

  /** Holdings change by exactly what the new events record. */
  ghost predicate Conserves(s: State, after: State) {
    forall p, def :: Holdings(after, p, def) - Holdings(s, p, def) == Net(after, p, def) - Net(s, p, def)
  }

  // ---- events

  lemma {:induction false} FindEventExact(events: seq<EventRow>, operation: OperationId, key: string)
    ensures match FindEvent(events, operation, key)
      case Some(e) => e in events && e.operation == operation && e.key == key
      case None => forall i :: 0 <= i < |events| ==> !(events[i].operation == operation && events[i].key == key)
  {
    if events == [] {
    } else {
      FindEventExact(events[1..], operation, key);
    }
  }

  lemma NetAppended(events: seq<EventRow>, e: EventRow, p: PlayerId, def: DefVersion)
    ensures Sum(NetList(events + [e], p, def)) == Sum(NetList(events, p, def)) + NetOf(e, p, def)
  {
    hide NetOf;
    assert NetList(events + [e], p, def) == NetList(events, p, def) + [NetOf(e, p, def)];
    SumAppend(NetList(events, p, def), NetOf(e, p, def));
  }

  /** A new event under a free key keeps the event table valid, and nothing else depends on it. */
  lemma RecordKeeps(s: State, operation: OperationId, key: string, p: PlayerId, payload: Payload)
    requires ValidStacks(s) && ValidItems(s) && Matched(s) && SingleSource(s) && FishPending(s) && WithinCapacity(s)
    requires ValidEvents(s) && FindEvent(s.events, operation, key).None?
    requires ValidEvent(EventRow(operation, key, p, payload))
    ensures Invariant(Recorded(s, operation, key, p, payload))
  {
    hide ValidEvent, Matched, SingleSource, Sum;
    FindEventExact(s.events, operation, key);
    var after := Recorded(s, operation, key, p, payload);
    SameMatched(s, after);
    assert forall q, bag :: Load(after, q, bag) == Load(s, q, bag);
  }

  lemma SameMatched(s: State, after: State)
    requires Matched(s) && SingleSource(s)
    requires after.items == s.items && after.pending == s.pending && after.definitions == s.definitions
    ensures Matched(after) && SingleSource(after)
  {
  }

  // ---- stacks

  /** What placing a stack does: it joins the bag when the slots allow it, or waits. */
  ghost predicate Placed(s: State, r: StackRequest, after: State, receipt: StackReceipt) {
    && receipt.request == r
    && if receipt.pendingId.None? then
         after == s.(stacks := WithQuantity(s.stacks, r.player, r.def, QuantityOf(s.stacks, r.player, r.def) + r.quantity),
                     nextId := s.nextId + 1)
       else
         var row := PendingRow(s.nextId, r.operation, r.key, r.player, r.def, r.quantity, ItemBag, None, true);
         after == s.(pending := s.pending + [row], nextId := s.nextId + 2)
  }

  lemma PlaceStackExact(s: State, r: StackRequest, profile: Profile)
    requires 0 < r.quantity && r.player in s.players && s.players[r.player] == profile
    ensures PlaceStack(s, r, profile).Ok? ==>
      var (after, receipt) := PlaceStack(s, r, profile).value;
      && Placed(s, r, after, receipt) && 0 < StackLimit(s.definitions, r.def)
      && 0 <= QuantityOf(s.stacks, r.player, r.def) && QuantityOf(s.stacks, r.player, r.def) + r.quantity <= I64_MAX
      && (receipt.pendingId.None? <==>
            Load(s, r.player, ItemBag) - SlotsOf(s.definitions, r.def, QuantityOf(s.stacks, r.player, r.def))
            + SlotsOf(s.definitions, r.def, QuantityOf(s.stacks, r.player, r.def) + r.quantity) <= Limit(profile, ItemBag))
  {
    hide UsedSlots, SlotsForQuantity, QuantityOf, WithQuantity, Load, Limit, ItemBagCapacity;
    if PlaceStack(s, r, profile).Ok? {
      var limit := s.definitions[r.def].stackLimit.value;
      var existing := QuantityOf(s.stacks, r.player, r.def);
      ItemBagUsed(s, r.player, profile);
      SlotsExact(existing, limit);
      SlotsExact(existing + r.quantity, limit);
    }
  }

  lemma ItemBagUsed(s: State, p: PlayerId, profile: Profile)
    ensures UsedSlots(s, p).Some? ==> UsedSlots(s, p).value == Load(s, p, ItemBag)
    ensures ItemBagCapacity(profile.itemBagLevel).Some? ==>
      ItemBagCapacity(profile.itemBagLevel).value == Limit(profile, ItemBag)
  {
    hide UsedSlots, Load, Limit, ItemBagCapacity;
    UsedExact(s, p, ItemBag);
    assert UsedSlots(s, p).Some? ==> Used(s, p, ItemBag) == Ok(UsedSlots(s, p).value);
    assert BagCapacity(profile, ItemBag) == ItemBagCapacity(profile.itemBagLevel);
  }

  /** Waiting deliveries of stacks do not touch the item side. */
  lemma StackPendingMatched(s: State, after: State, row: PendingRow)
    requires Matched(s) && SingleSource(s) && FishPending(s) && row.item.None? && row.bag == ItemBag
    requires after.items == s.items && after.definitions == s.definitions && after.pending == s.pending + [row]
    ensures Matched(after) && SingleSource(after) && FishPending(after)
  {
    hide Holds;
    forall k | 0 <= k < |after.pending| && Open(after.pending[k])
      ensures k < |s.pending| && after.pending[k] == s.pending[k]
    {
    }
    forall i | 0 <= i < |after.items| && after.items[i].place == TempOverflow
      ensures exists k :: 0 <= k < |after.pending| && Open(after.pending[k]) && after.pending[k].item == Some(after.items[i].id)
    {
      var k :| 0 <= k < |s.pending| && Open(s.pending[k]) && s.pending[k].item == Some(s.items[i].id);
      assert after.pending[k] == s.pending[k];
    }
  }

  lemma PlacedKeeps(s: State, r: StackRequest, after: State, receipt: StackReceipt)
    requires Invariant(s) && r.player in s.players && Placed(s, r, after, receipt) && 0 < r.quantity
    requires 0 < StackLimit(s.definitions, r.def)
    requires 0 <= QuantityOf(s.stacks, r.player, r.def) && QuantityOf(s.stacks, r.player, r.def) + r.quantity <= I64_MAX
    requires receipt.pendingId.None? ==>
      Load(s, r.player, ItemBag) - SlotsOf(s.definitions, r.def, QuantityOf(s.stacks, r.player, r.def))
      + SlotsOf(s.definitions, r.def, QuantityOf(s.stacks, r.player, r.def) + r.quantity) <= Limit(s.players[r.player], ItemBag)
    ensures ValidStacks(after) && ValidItems(after) && Matched(after) && SingleSource(after) && FishPending(after)
    ensures WithinCapacity(after) && ValidEvents(after) && after.events == s.events
    ensures forall p, def ::
      Holdings(after, p, def) == Holdings(s, p, def) + if p == r.player && def == r.def then r.quantity else 0
  {
    hide Matched, SingleSource, ValidEvent, StackLimit, SlotsOf, Sum, QuantityOf, WithQuantity, Limit;
    var total := QuantityOf(s.stacks, r.player, r.def) + r.quantity;
    if receipt.pendingId.None? {
      WithQuantityValid(s, r.player, r.def, total);
      WithQuantitySums(s.definitions, s.stacks, r.player, r.def, total);
      SameMatched(s, after);
    } else {
      var row := PendingRow(s.nextId, r.operation, r.key, r.player, r.def, r.quantity, ItemBag, None, true);
      StackPendingMatched(s, after, row);
      PendingGrows(s.pending, row);
    }
  }

  lemma PendingGrows(pending: seq<PendingRow>, row: PendingRow)
    ensures forall p, def ::
      Sum(PendingList(pending + [row], p, def)) == Sum(PendingList(pending, p, def)) + WaitingIn(row, p, def)
  {
    hide Sum, WaitingIn;
    forall p, def
      ensures Sum(PendingList(pending + [row], p, def)) == Sum(PendingList(pending, p, def)) + WaitingIn(row, p, def)
    {
      assert PendingList(pending + [row], p, def) == PendingList(pending, p, def) + [WaitingIn(row, p, def)];
      SumAppend(PendingList(pending, p, def), WaitingIn(row, p, def));
    }
  }

  /** A call that acts keeps the invariant and its event records what it moved; any other call changes nothing. */
  ghost predicate Acts(s: State, after: State, failed: bool, operation: OperationId, key: string) {
    && Invariant(after) && Conserves(s, after) && (failed ==> after == s)
    && after.players == s.players && after.operations == s.operations && after.definitions == s.definitions
    && (FindEvent(s.events, operation, key).Some? ==> after == s)
    && (after != s ==>
          && |after.events| == |s.events| + 1 && s.events == after.events[..|s.events|]
          && after.events[|s.events|].operation == operation && after.events[|s.events|].key == key)
  }

  lemma Unchanged(s: State)
    requires Invariant(s)
    ensures Conserves(s, s)
  {
  }

  lemma DeliverStackKeeps(s: State, r: StackRequest)
    requires Invariant(s)
    ensures var (after, result) := DeliverStack(s, r); Acts(s, after, result.Err?, r.operation, r.key)
  {
    hide PlaceStack, Invariant, Holdings, ReplayStack, Sum, NetOf, Utf8Length, Blank;
    Unchanged(s);
    var (after, result) := DeliverStack(s, r);
    if after != s {
      var profile := s.players[r.player];
      var (placed, receipt) := PlaceStack(s, r, profile).value;
      StackRecorded(s, r, placed, receipt, profile);
    }
  }

  lemma StackRecorded(s: State, r: StackRequest, placed: State, receipt: StackReceipt, profile: Profile)
    requires Invariant(s) && r.player in s.players && s.players[r.player] == profile && 0 < r.quantity
    requires PlaceStack(s, r, profile) == Ok((placed, receipt)) && FindEvent(s.events, r.operation, r.key).None?
    ensures var after := Recorded(placed, r.operation, r.key, r.player, StackDelivered(receipt));
      && Invariant(after) && Conserves(s, after) && placed.events == s.events
      && after.players == s.players && after.operations == s.operations && after.definitions == s.definitions
  {
    hide PlaceStack, Matched, SingleSource, ValidStacks, ValidItems, FishPending, WithinCapacity, Sum, StackLimit,
         SlotsOf, Load, Limit, QuantityOf, WithQuantity;
    PlaceStackExact(s, r, profile);
    PlacedKeeps(s, r, placed, receipt);
    RecordKeeps(placed, r.operation, r.key, r.player, StackDelivered(receipt));
    RecordedNet(s, placed, r.operation, r.key, r.player, StackDelivered(receipt));
  }

  /** Recording an event that says what was moved conserves. */
  lemma RecordedNet(s: State, moved: State, operation: OperationId, key: string, p: PlayerId, payload: Payload)
    requires moved.events == s.events
    requires var e := EventRow(operation, key, p, payload);
      forall q, def :: Holdings(moved, q, def) == Holdings(s, q, def) + NetOf(e, q, def)
    ensures Conserves(s, Recorded(moved, operation, key, p, payload))
  {
    hide NetOf, Sum;
    var e, after := EventRow(operation, key, p, payload), Recorded(moved, operation, key, p, payload);
    forall q, def
      ensures Holdings(after, q, def) - Holdings(s, q, def) == Net(after, q, def) - Net(s, q, def)
    {
      NetAppended(s.events, e, q, def);
    }
  }

  // ---- consumption

  lemma ConsumeStackKeeps(s: State, r: StackRequest)
    requires Invariant(s)
    ensures var (after, result) := ConsumeStack(s, r); Acts(s, after, result.Err?, r.operation, r.key)
  {
    hide Invariant, Holdings, ReplayConsumption, Sum, NetOf, Utf8Length, Blank, QuantityOf, WithQuantity;
    Unchanged(s);
    var (after, result) := ConsumeStack(s, r);
    if after != s {
      StackConsumedKeeps(s, r);
    }
  }

  function Taken(s: State, r: StackRequest): State {
    s.(stacks := WithQuantity(s.stacks, r.player, r.def, QuantityOf(s.stacks, r.player, r.def) - r.quantity),
       nextId := s.nextId + 1)
  }

  lemma StackConsumedKeeps(s: State, r: StackRequest)
    requires Invariant(s) && r.player in s.players && 0 < r.quantity <= QuantityOf(s.stacks, r.player, r.def)
    requires FindEvent(s.events, r.operation, r.key).None?
    ensures var before := QuantityOf(s.stacks, r.player, r.def);
      var receipt := ConsumptionReceipt(s.nextId, r, before, before - r.quantity);
      var after := Recorded(Taken(s, r), r.operation, r.key, r.player, StackConsumed(receipt));
      Invariant(after) && Conserves(s, after)
  {
    hide Matched, SingleSource, Sum, StackLimit, SlotsOf, RowSlots, Limit, WithQuantity, NetList, PendingList,
         HeldList, QuantityList;
    var before := QuantityOf(s.stacks, r.player, r.def);
    FindStackExact(s.stacks, r.player, r.def);
    var taken := Taken(s, r);
    WithQuantityValid(s, r.player, r.def, before - r.quantity);
    WithQuantitySums(s.definitions, s.stacks, r.player, r.def, before - r.quantity);
    FewerSlots(s.definitions, r.def, before - r.quantity, before);
    SameMatched(s, taken);
    var receipt := ConsumptionReceipt(s.nextId, r, before, before - r.quantity);
    RecordKeeps(taken, r.operation, r.key, r.player, StackConsumed(receipt));
    RecordedNet(s, taken, r.operation, r.key, r.player, StackConsumed(receipt));
  }

  lemma FewerSlots(defs: map<DefVersion, Definition>, def: DefVersion, fewer: int, more: int)
    requires fewer <= more
    ensures SlotsOf(defs, def, fewer) <= SlotsOf(defs, def, more)
  {
    var limit := StackLimit(defs, def);
    if limit > 0 {
      var (a, b) := (fewer + limit - 1, more + limit - 1);
      QuotientOrder(limit, a / limit, a % limit, b / limit, b % limit);
    }
  }

  // ---- single items

  /** What placing an item does: it joins the bag when it fits, or goes to overflow with a pending row. */
  ghost predicate ItemPlaced(s: State, p: PlayerId, operation: OperationId, key: string, def: DefVersion,
                             weight: Option<int>,
                             bag: Bag, after: State, id: ItemId, pendingId: Option<nat>)
  {
    && id == s.nextId
    && if pendingId.None? then
         after == s.(items := s.items + [ItemRow(id, p, def, BagPlace(bag), weight)], nextId := s.nextId + 1)
       else
         && pendingId == Some(s.nextId + 1)
         && after == s.(items := s.items + [ItemRow(id, p, def, TempOverflow, weight)],
                        pending := s.pending + [PendingRow(s.nextId + 1, operation, key, p, def, 1, bag, Some(id), true)],
                        nextId := s.nextId + 2)
  }

  lemma PlaceItemExact(s: State, p: PlayerId, operation: OperationId, key: string, def: DefVersion, weight: Option<int>,
                       bag: Bag, size: int, profile: Profile)
    ensures PlaceItem(s, p, operation, key, def, weight, bag, size, profile).Ok? ==>
      var (after, id, pendingId) := PlaceItem(s, p, operation, key, def, weight, bag, size, profile).value;
      && ItemPlaced(s, p, operation, key, def, weight, bag, after, id, pendingId)
      && (pendingId.None? <==> Load(s, p, bag) + size <= Limit(profile, bag))
  {
    hide Used, BagCapacity, Load, Limit;
    UsedExact(s, p, bag);
  }

  lemma LoadGrows(s: State, item: ItemRow, q: PlayerId, bag: Bag, nextId: nat)
    ensures Load(s.(items := s.items + [item], nextId := nextId), q, bag)
         == Load(s, q, bag) + (match bag case ItemBag => SlotIn(item, q) case CatchBag => GramsIn(item, q))
  {
    hide SlotIn, GramsIn, Sum;
    var items := s.items + [item];
    assert SingleList(items, q) == SingleList(s.items, q) + [SlotIn(item, q)];
    assert GramList(items, q) == GramList(s.items, q) + [GramsIn(item, q)];
    SumAppend(SingleList(s.items, q), SlotIn(item, q));
    SumAppend(GramList(s.items, q), GramsIn(item, q));
  }

  lemma HeldGrows(items: seq<ItemRow>, item: ItemRow)
    ensures forall p, def :: Sum(HeldList(items + [item], p, def)) == Sum(HeldList(items, p, def)) + HeldIn(item, p, def)
  {
    hide Sum, HeldIn;
    forall p, def
      ensures Sum(HeldList(items + [item], p, def)) == Sum(HeldList(items, p, def)) + HeldIn(item, p, def)
    {
      assert HeldList(items + [item], p, def) == HeldList(items, p, def) + [HeldIn(item, p, def)];
      SumAppend(HeldList(items, p, def), HeldIn(item, p, def));
    }
  }

  /** The size an item counts for in its bag. */
  ghost predicate Sized(bag: Bag, weight: Option<int>, size: int) {
    match bag
    case ItemBag => size == 1
    case CatchBag => weight == Some(size) && 0 < size
  }

  lemma PlacedItemCapacity(s: State, p: PlayerId, def: DefVersion, weight: Option<int>, bag: Bag, size: int,
                           place: Place, nextId: nat)
    requires WithinCapacity(s) && p in s.players && Sized(bag, weight, size)
    requires place == TempOverflow || (place == BagPlace(bag) && Load(s, p, bag) + size <= Limit(s.players[p], bag))
    ensures WithinCapacity(s.(items := s.items + [ItemRow(s.nextId, p, def, place, weight)], nextId := nextId))
  {
    hide Load, Limit;
    var item := ItemRow(s.nextId, p, def, place, weight);
    var after := s.(items := s.items + [item], nextId := nextId);
    forall q, b | q in after.players
      ensures Load(after, q, b) <= Limit(after.players[q], b)
    {
      LoadGrows(s, item, q, b, nextId);
    }
  }

  lemma NewItemMatched(s: State, item: ItemRow, nextId: nat)
    requires Matched(s) && item.place != TempOverflow
    ensures Matched(s.(items := s.items + [item], nextId := nextId))
  {
    hide Holds;
    var after := s.(items := s.items + [item], nextId := nextId);
    forall k | 0 <= k < |after.pending| && Open(after.pending[k])
      ensures exists i :: 0 <= i < |after.items| && Holds(after.definitions, after.pending[k], after.items[i])
    {
      var i :| 0 <= i < |s.items| && Holds(s.definitions, s.pending[k], s.items[i]);
      assert after.items[i] == s.items[i];
    }
    forall i | 0 <= i < |after.items| && after.items[i].place == TempOverflow
      ensures exists k :: 0 <= k < |after.pending| && Open(after.pending[k]) && after.pending[k].item == Some(after.items[i].id)
    {
      assert after.items[i] == s.items[i];
    }
  }

  lemma OverflowHeld(s: State, item: ItemRow, row: PendingRow, after: State)
    requires PendingHeld(s) && Holds(s.definitions, row, item) && after.definitions == s.definitions
    requires after.items == s.items + [item] && after.pending == s.pending + [row]
    ensures PendingHeld(after)
  {
    hide Claimable;
    forall k | 0 <= k < |after.pending| && Open(after.pending[k])
      ensures exists i :: 0 <= i < |after.items| && Holds(after.definitions, after.pending[k], after.items[i])
    {
      if k < |s.pending| {
        var i :| 0 <= i < |s.items| && Holds(s.definitions, s.pending[k], s.items[i]);
        assert after.items[i] == s.items[i] && after.pending[k] == s.pending[k];
      } else {
        assert after.items[|s.items|] == item;
      }
    }
  }

  lemma OverflowDistinct(s: State, item: ItemRow, row: PendingRow, after: State)
    requires PendingHeld(s) && PendingDistinct(s) && ValidItems(s) && item.id == s.nextId && row.item == Some(item.id)
    requires after.pending == s.pending + [row]
    ensures PendingDistinct(after)
  {
    hide Claimable;
    forall k | 0 <= k < |s.pending| && Open(s.pending[k])
      ensures s.pending[k].item != row.item
    {
      var i :| 0 <= i < |s.items| && Holds(s.definitions, s.pending[k], s.items[i]);
    }
  }

  lemma OverflowNew(s: State, item: ItemRow, row: PendingRow, after: State)
    requires OverflowAwaited(s) && row.open && row.item == Some(item.id)
    requires after.items == s.items + [item] && after.pending == s.pending + [row]
    ensures OverflowAwaited(after)
  {
    forall i | 0 <= i < |after.items| && after.items[i].place == TempOverflow
      ensures exists k :: 0 <= k < |after.pending| && Open(after.pending[k]) && after.pending[k].item == Some(after.items[i].id)
    {
      if i < |s.items| {
        var k :| 0 <= k < |s.pending| && Open(s.pending[k]) && s.pending[k].item == Some(s.items[i].id);
        assert after.pending[k] == s.pending[k];
      } else {
        assert after.pending[|s.pending|] == row;
      }
    }
  }

  lemma OverflowMatched(s: State, item: ItemRow, row: PendingRow, nextId: nat)
    requires Matched(s) && ValidItems(s) && item.id == s.nextId && item.place == TempOverflow
    requires row.open && Holds(s.definitions, row, item)
    ensures Matched(s.(items := s.items + [item], pending := s.pending + [row], nextId := nextId))
  {
    hide Claimable, PendingHeld, PendingDistinct, OverflowAwaited, ValidItems;
    var after := s.(items := s.items + [item], pending := s.pending + [row], nextId := nextId);
    OverflowHeld(s, item, row, after);
    OverflowDistinct(s, item, row, after);
    OverflowNew(s, item, row, after);
  }

  /** A new waiting item joins only deliveries of its own operation. */
  lemma OverflowSource(s: State, row: PendingRow, after: State)
    requires SingleSource(s) && FishPending(s) && row.open && row.item.Some?
    requires !EarlierPending(s, row.player, row.bag, row.operation)
    requires after.pending == s.pending + [row]
    ensures SingleSource(after) && FishPending(after)
  {
    forall k | 0 <= k < |s.pending| && Open(s.pending[k]) && s.pending[k].player == row.player && s.pending[k].bag == row.bag
      ensures s.pending[k].operation == row.operation
    {
    }
  }

  lemma ItemPlacedKeeps(s: State, p: PlayerId, operation: OperationId, key: string, def: DefVersion,
                        weight: Option<int>,
                        bag: Bag, size: int, after: State, id: ItemId, pendingId: Option<nat>)
    requires Invariant(s) && p in s.players && Sized(bag, weight, size) && !EarlierPending(s, p, bag, operation)
    requires ItemPlaced(s, p, operation, key, def, weight, bag, after, id, pendingId)
    requires pendingId.None? ==> Load(s, p, bag) + size <= Limit(s.players[p], bag)
    requires bag == CatchBag ==> def in s.definitions && s.definitions[def].fish
    ensures ValidStacks(after) && ValidItems(after) && Matched(after) && SingleSource(after) && FishPending(after)
    ensures WithinCapacity(after) && ValidEvents(after) && after.events == s.events
    ensures forall q, d :: Holdings(after, q, d) == Holdings(s, q, d) + if q == p && d == def then 1 else 0
  {
    hide Matched, SingleSource, FishPending, ValidEvent, WithinCapacity, Sum, Load, Limit, EarlierPending, StackLimit,
         RowSlots;
    var place := if pendingId.None? then BagPlace(bag) else TempOverflow;
    var item := ItemRow(id, p, def, place, weight);
    HeldGrows(s.items, item);
    if pendingId.None? {
      PlacedItemCapacity(s, p, def, weight, bag, size, place, s.nextId + 1);
      NewItemMatched(s, item, s.nextId + 1);
      SameSource(s, after);
    } else {
      var row := PendingRow(s.nextId + 1, operation, key, p, def, 1, bag, Some(id), true);
      PlacedItemCapacity(s, p, def, weight, bag, size, place, s.nextId + 2);
      OverflowMatched(s, item, row, s.nextId + 2);
      OverflowSource(s, row, after);
      PendingGrows(s.pending, row);
      SameCapacity(s.(items := s.items + [item], nextId := s.nextId + 2), after);
    }
  }

  lemma SameSource(s: State, after: State)
    requires SingleSource(s) && FishPending(s) && after.pending == s.pending
    ensures SingleSource(after) && FishPending(after)
  {
  }

  /** Pending rows do not count toward a bag. */
  lemma SameCapacity(s: State, after: State)
    requires WithinCapacity(s) && after == s.(pending := after.pending)
    ensures WithinCapacity(after)
  {
    hide Sum, Limit;
    assert forall p, bag :: Load(after, p, bag) == Load(s, p, bag);
  }

  lemma DeliverUniqueKeeps(s: State, r: UniqueRequest)
    requires Invariant(s)
    ensures var (after, result) := DeliverUnique(s, r); Acts(s, after, result.Err?, r.operation, r.key)
  {
    hide PlaceItem, Invariant, Holdings, ReplayUnique, Sum, NetOf, Utf8Length, Blank, EarlierPending,
         ValidateUniqueRequest;
    Unchanged(s);
    var (after, result) := DeliverUnique(s, r);
    if after != s {
      var profile := s.players[r.player];
      var (placed, item, pendingId) := PlaceItem(s, r.player, r.operation, r.key, r.def, None, ItemBag, 1, profile).value;
      PlaceItemExact(s, r.player, r.operation, r.key, r.def, None, ItemBag, 1, profile);
      var receipt := UniqueReceipt(placed.nextId, r, item, pendingId);
      assert ValidEvent(EventRow(r.operation, r.key, r.player, UniqueDelivered(receipt)));
      UniqueNet(r, receipt);
      ItemRecorded(s, r.player, r.operation, r.key, r.def, None, ItemBag, 1, placed, item, pendingId,
                   UniqueDelivered(receipt));
    }
  }

  lemma UniqueNet(r: UniqueRequest, receipt: UniqueReceipt)
    requires receipt.request == r
    ensures forall q, d :: NetOf(EventRow(r.operation, r.key, r.player, UniqueDelivered(receipt)), q, d)
                        == if q == r.player && d == r.def then 1 else 0
  {
  }

  lemma FishNet(operation: OperationId, key: string, p: PlayerId, receipt: FishReceipt)
    ensures forall q, d :: NetOf(EventRow(operation, key, p, FishDelivered(receipt)), q, d)
                        == if q == p && d == receipt.request.def then 1 else 0
  {
  }

  /** Placing an item and recording it: the whole mutation. */
  lemma ItemRecorded(s: State, p: PlayerId, operation: OperationId, key: string, def: DefVersion, weight: Option<int>,
                     bag: Bag, size: int, placed: State, id: ItemId, pendingId: Option<nat>, payload: Payload)
    requires Invariant(s) && p in s.players && Sized(bag, weight, size) && !EarlierPending(s, p, bag, operation)
    requires ItemPlaced(s, p, operation, key, def, weight, bag, placed, id, pendingId)
    requires pendingId.None? ==> Load(s, p, bag) + size <= Limit(s.players[p], bag)
    requires bag == CatchBag ==> def in s.definitions && s.definitions[def].fish
    requires FindEvent(s.events, operation, key).None? && ValidEvent(EventRow(operation, key, p, payload))
    requires forall q, d :: NetOf(EventRow(operation, key, p, payload), q, d) == if q == p && d == def then 1 else 0
    ensures var after := Recorded(placed.(nextId := placed.nextId + 1), operation, key, p, payload);
      Invariant(after) && Conserves(s, after)
    ensures placed.events == s.events && placed.players == s.players && placed.operations == s.operations
    ensures placed.definitions == s.definitions
  {
    hide Matched, SingleSource, FishPending, ValidEvent, WithinCapacity, ValidStacks, ValidItems, ValidEvents, Sum,
         EarlierPending, NetOf, Load, Limit;
    ItemPlacedKeeps(s, p, operation, key, def, weight, bag, size, placed, id, pendingId);
    var moved := placed.(nextId := placed.nextId + 1);
    LaterId(placed, moved);
    RecordKeeps(moved, operation, key, p, payload);
    RecordedNet(s, moved, operation, key, p, payload);
  }

  lemma LaterId(s: State, after: State)
    requires ValidStacks(s) && ValidItems(s) && Matched(s) && SingleSource(s) && FishPending(s) && WithinCapacity(s)
    requires ValidEvents(s)
    requires after == s.(nextId := s.nextId + 1)
    ensures ValidStacks(after) && ValidItems(after) && Matched(after) && SingleSource(after) && FishPending(after)
    ensures WithinCapacity(after) && ValidEvents(after)
  {
    hide ValidEvent, Sum, Limit, StackLimit, Matched, SingleSource;
    SameMatched(s, after);
    assert forall p, bag :: Load(after, p, bag) == Load(s, p, bag);
  }

  lemma DeliverFishKeeps(s: State, operation: OperationId, p: PlayerId, r: FishRequest)
    requires Invariant(s)
    ensures var (after, result) := DeliverFish(s, operation, p, r);
      && (r.fishSlot >= MAX_FISH_PER_CAST ==> after == s)
      && (r.fishSlot < MAX_FISH_PER_CAST ==> Acts(s, after, result.Err?, operation, FishKey(r.fishSlot)))
  {
    hide PlaceItem, Invariant, Holdings, ReplayFish, Sum, NetOf, EarlierPending, FishKey;
    Unchanged(s);
    var (after, result) := DeliverFish(s, operation, p, r);
    if after != s {
      var profile, key := s.players[p], FishKey(r.fishSlot);
      var (placed, item, pendingId) :=
        PlaceItem(s, p, operation, key, r.def, Some(r.weight), CatchBag, r.weight, profile).value;
      PlaceItemExact(s, p, operation, key, r.def, Some(r.weight), CatchBag, r.weight, profile);
      var receipt := FishReceipt(placed.nextId, operation, p, r, item, pendingId);
      assert ValidEvent(EventRow(operation, key, p, FishDelivered(receipt)));
      FishNet(operation, key, p, receipt);
      ItemRecorded(s, p, operation, key, r.def, Some(r.weight), CatchBag, r.weight, placed, item, pendingId,
                   FishDelivered(receipt));
    }
  }
}
