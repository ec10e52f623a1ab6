/** Claims: the longest prefix of the waiting deliveries that fits is moved, in order, and nothing else changes. */
module StorageClaims {
  import opened Numbers
  import opened Products
  import opened Sums
  import opened Text
  import opened Storage
  import opened StorageLaws
  import opened StorageRuns

  // ---- the waiting line

  /** The player's open item deliveries to the bag, oldest first, from position `k` on. */
  function QueueFrom(pending: seq<PendingRow>, p: PlayerId, bag: Bag, k: nat): (queue: seq<PendingRow>)
    requires k <= |pending|
    ensures forall i :: 0 <= i < |queue| ==> Waiting(queue[i], p, bag)
    decreases |pending| - k
  {
    if k == |pending| then []
    else (if Waiting(pending[k], p, bag) then [pending[k]] else []) + QueueFrom(pending, p, bag, k + 1)
  }

  function Queue(s: State, p: PlayerId, bag: Bag): seq<PendingRow> {
    QueueFrom(s.pending, p, bag, 0)
  }

  /** What the item of a waiting delivery takes of the bag. */
  function RowSize(items: seq<ItemRow>, row: PendingRow, bag: Bag): int {
    if row.item.None? then 0
    else match FindItem(items, row.item.value)
      case None => 0
      case Some(i) => FindItemExact(items, row.item.value); SizeIn(items[i], bag)
  }

  function Sizes(items: seq<ItemRow>, queue: seq<PendingRow>, bag: Bag): (sizes: seq<int>)
    ensures |sizes| == |queue|
  {
    seq(|queue|, i requires 0 <= i < |queue| => RowSize(items, queue[i], bag))
  }

  function ClaimedOf(queue: seq<PendingRow>): (claimed: seq<Claimed>)
    requires forall i :: 0 <= i < |queue| ==> queue[i].item.Some?
    ensures |claimed| == |queue|
  {
    seq(|queue|, i requires 0 <= i < |queue| => Claimed(queue[i].id, queue[i].item.value))
  }

  /** The tables during a claim. */
  function During(s: State, c: Claim): State {
    s.(items := c.items, pending := c.pending)
  }

  ghost predicate Sound(s: State) {
    ValidItems(s) && Matched(s) && SingleSource(s) && FishPending(s) && WithinCapacity(s)
  }

  // ---- one delivery

  /** The item of a waiting delivery is there and may be claimed. */
  lemma WaitingHeld(s: State, p: PlayerId, bag: Bag, k: nat)
    requires ValidItems(s) && Matched(s) && k < |s.pending| && Waiting(s.pending[k], p, bag)
    ensures FindItem(s.items, s.pending[k].item.value).Some?
    ensures var i := FindItem(s.items, s.pending[k].item.value).value;
      && i < |s.items| && s.items[i].id == s.pending[k].item.value
      && Claimable(s.definitions, s.pending[k], s.items[i], p, bag)
  {
    hide PendingDistinct, OverflowAwaited, Claimable;
    var row := s.pending[k];
    FindItemExact(s.items, row.item.value);
    var j :| 0 <= j < |s.items| && Holds(s.definitions, row, s.items[j]);
    var i := FindItem(s.items, row.item.value).value;
    assert i == j;
  }

  function MovedItem(item: ItemRow, bag: Bag): ItemRow {
    item.(place := BagPlace(bag))
  }

  /** The tables after one delivery is claimed. */
  function Delivered(s: State, i: nat, k: nat, bag: Bag): State
    requires i < |s.items| && k < |s.pending|
  {
    s.(items := s.items[i := MovedItem(s.items[i], bag)], pending := s.pending[k := s.pending[k].(open := false)])
  }

  lemma DeliveredMatched(s: State, p: PlayerId, bag: Bag, i: nat, k: nat)
    requires ValidItems(s) && Matched(s) && i < |s.items| && k < |s.pending| && Waiting(s.pending[k], p, bag)
    requires s.pending[k].item == Some(s.items[i].id) && Claimable(s.definitions, s.pending[k], s.items[i], p, bag)
    ensures ValidItems(Delivered(s, i, k, bag)) && Matched(Delivered(s, i, k, bag))
  {
    hide ValidItems, PendingHeld, PendingDistinct, OverflowAwaited, Claimable;
    DeliveredItems(s, p, bag, i, k);
    DeliveredHeld(s, p, bag, i, k);
    DeliveredDistinct(s, bag, i, k);
    DeliveredAwaited(s, bag, i, k);
  }

  lemma DeliveredItems(s: State, p: PlayerId, bag: Bag, i: nat, k: nat)
    requires ValidItems(s) && i < |s.items| && k < |s.pending|
    requires Claimable(s.definitions, s.pending[k], s.items[i], p, bag)
    ensures ValidItems(Delivered(s, i, k, bag))
  {
  }

  lemma DeliveredHeld(s: State, p: PlayerId, bag: Bag, i: nat, k: nat)
    requires PendingHeld(s) && PendingDistinct(s) && i < |s.items| && k < |s.pending| && Open(s.pending[k])
    requires s.pending[k].item == Some(s.items[i].id)
    ensures PendingHeld(Delivered(s, i, k, bag))
  {
    hide Claimable;
    var after := Delivered(s, i, k, bag);
    forall l | 0 <= l < |after.pending| && Open(after.pending[l])
      ensures exists j :: 0 <= j < |after.items| && Holds(after.definitions, after.pending[l], after.items[j])
    {
      assert l != k && after.pending[l] == s.pending[l];
      var j :| 0 <= j < |s.items| && Holds(s.definitions, s.pending[l], s.items[j]);
      assert s.pending[l].item != s.pending[k].item;
      assert j != i && after.items[j] == s.items[j];
    }
  }

  lemma DeliveredDistinct(s: State, bag: Bag, i: nat, k: nat)
    requires PendingDistinct(s) && i < |s.items| && k < |s.pending|
    ensures PendingDistinct(Delivered(s, i, k, bag))
  {
    var after := Delivered(s, i, k, bag);
    assert forall l :: 0 <= l < |s.pending| && l != k ==> after.pending[l] == s.pending[l];
    assert !Open(after.pending[k]);
  }

  lemma DeliveredAwaited(s: State, bag: Bag, i: nat, k: nat)
    requires OverflowAwaited(s) && ValidItems(s) && i < |s.items| && k < |s.pending|
    requires s.pending[k].item == Some(s.items[i].id)
    ensures OverflowAwaited(Delivered(s, i, k, bag))
  {
    var after := Delivered(s, i, k, bag);
    forall j | 0 <= j < |after.items| && after.items[j].place == TempOverflow
      ensures exists l :: 0 <= l < |after.pending| && Open(after.pending[l]) && after.pending[l].item == Some(after.items[j].id)
    {
      assert j != i && after.items[j] == s.items[j];
      var l :| 0 <= l < |s.pending| && Open(s.pending[l]) && s.pending[l].item == Some(s.items[j].id);
      assert l != k && after.pending[l] == s.pending[l];
    }
  }

  lemma DeliveredSource(s: State, bag: Bag, i: nat, k: nat)
    requires SingleSource(s) && FishPending(s) && i < |s.items| && k < |s.pending|
    ensures SingleSource(Delivered(s, i, k, bag)) && FishPending(Delivered(s, i, k, bag))
  {
    var after := Delivered(s, i, k, bag);
    assert forall l :: 0 <= l < |s.pending| ==> after.pending[l] == s.pending[l].(open := after.pending[l].open);
    assert forall l :: 0 <= l < |s.pending| && Open(after.pending[l]) ==> after.pending[l] == s.pending[l];
  }

  /** The bag grows by the item's size, and no other bag changes. */
  lemma DeliveredLoad(s: State, p: PlayerId, bag: Bag, i: nat, k: nat)
    requires i < |s.items| && k < |s.pending| && Claimable(s.definitions, s.pending[k], s.items[i], p, bag)
    ensures forall q, b :: Load(Delivered(s, i, k, bag), q, b)
                        == Load(s, q, b) + if q == p && b == bag then SizeIn(s.items[i], bag) else 0
  {
    hide Sum, RowSlots;
    var (item, after) := (MovedItem(s.items[i], bag), Delivered(s, i, k, bag));
    forall q, b
      ensures Load(after, q, b) == Load(s, q, b) + if q == p && b == bag then SizeIn(s.items[i], bag) else 0
    {
      var singles, grams := SingleList(s.items, q), GramList(s.items, q);
      assert SingleList(after.items, q) == singles[i := SlotIn(item, q)];
      assert GramList(after.items, q) == grams[i := GramsIn(item, q)];
      SumUpdate(singles, i, SlotIn(item, q));
      SumUpdate(grams, i, GramsIn(item, q));
    }
  }

  lemma DeliveredHoldings(s: State, bag: Bag, i: nat, k: nat)
    requires i < |s.items| && k < |s.pending| && s.pending[k].item.Some?
    ensures forall q, d :: Holdings(Delivered(s, i, k, bag), q, d) == Holdings(s, q, d)
  {
    hide Sum;
    var after := Delivered(s, i, k, bag);
    forall q, d
      ensures Holdings(after, q, d) == Holdings(s, q, d)
    {
      assert HeldList(after.items, q, d) == HeldList(s.items, q, d);
      assert PendingList(after.pending, q, d) == PendingList(s.pending, q, d);
    }
  }

  lemma {:induction false} SameSizes(items: seq<ItemRow>, i: nat, bag: Bag, id: ItemId)
    requires i < |items|
    ensures FindItem(items[i := MovedItem(items[i], bag)], id) == FindItem(items, id)
  {
    if i > 0 {
      SameSizes(items[1..], i - 1, bag, id);
      assert items[i := MovedItem(items[i], bag)][1..] == items[1..][i - 1 := MovedItem(items[1..][i - 1], bag)];
    } else {
      assert items[0 := MovedItem(items[0], bag)][1..] == items[1..];
    }
  }

  /** Moving an item changes no size. */
  lemma SizesKept(items: seq<ItemRow>, i: nat, bag: Bag, queue: seq<PendingRow>)
    requires i < |items|
    ensures Sizes(items[i := MovedItem(items[i], bag)], queue, bag) == Sizes(items, queue, bag)
  {
    forall j | 0 <= j < |queue|
      ensures RowSize(items[i := MovedItem(items[i], bag)], queue[j], bag) == RowSize(items, queue[j], bag)
    {
      if queue[j].item.Some? {
        SameSizes(items, i, bag, queue[j].item.value);
        FindItemExact(items, queue[j].item.value);
      }
    }
  }

  lemma {:induction false} QueueKept(pending: seq<PendingRow>, p: PlayerId, bag: Bag, k: nat, from: nat)
    requires k < from <= |pending|
    ensures QueueFrom(pending[k := pending[k].(open := false)], p, bag, from) == QueueFrom(pending, p, bag, from)
    decreases |pending| - from
  {
    if from == |pending| {
    } else {
      QueueKept(pending, p, bag, k, from + 1);
    }
  }

  /** Rows before position `k` that do not wait are not in the line. */
  lemma {:induction false} QueueSkips(pending: seq<PendingRow>, p: PlayerId, bag: Bag, from: nat, k: nat)
    requires from <= k <= |pending| && forall j :: from <= j < k ==> !Waiting(pending[j], p, bag)
    ensures QueueFrom(pending, p, bag, from) == QueueFrom(pending, p, bag, k)
    decreases k - from
  {
    if from == k {
    } else {
      QueueSkips(pending, p, bag, from + 1, k);
    }
  }

  // ---- the whole claim

  /** What a claim ends with: the first `m` of the line are claimed, they fit, and the next one, if any, does not. */
  ghost predicate ClaimedPrefix(line: seq<PendingRow>, sizes: seq<int>, used: int, capacity: int, claimed: seq<Claimed>,
                                blocked: Option<nat>, usedAfter: int, m: nat)
    requires |sizes| == |line| && forall i :: 0 <= i < |line| ==> line[i].item.Some?
  {
    && m <= |line| && claimed == ClaimedOf(line[..m]) && usedAfter == used + Sum(sizes[..m]) <= capacity
    && (m == |line| ==> blocked == None)
    && (m < |line| ==> blocked == Some(line[m].id) && capacity < usedAfter + sizes[m])
  }

  /** A claim from position `k` on keeps the tables sound, and moves the first `m` of the line. */
  ghost predicate ClaimOutcome(s: State, p: PlayerId, bag: Bag, capacity: int, c: Claim, k: nat,
                               r: Result<Claim, StorageError>, m: nat)
    requires k <= |c.pending|
  {
    var line := QueueFrom(c.pending, p, bag, k);
    && m <= |line|
    && (r.Err? ==> r.error == ArithmeticOverflow && bag == ItemBag && (c.used < 0 || U64_MAX <= capacity))
    && (r.Ok? ==>
          && Sound(During(s, r.value)) && c.claimed <= r.value.claimed
          && (forall q, d :: Holdings(During(s, r.value), q, d) == Holdings(During(s, c), q, d))
          && ClaimedPrefix(line, Sizes(c.items, line, bag), c.used, capacity, r.value.claimed[|c.claimed|..],
                           r.value.blocked, r.value.used, m)
          && r.value.used == Load(During(s, r.value), p, bag)
          && Queue(During(s, r.value), p, bag) == line[m..])
  }

  lemma {:induction false} ClaimFromExact(s: State, p: PlayerId, bag: Bag, capacity: int, c: Claim,
                                          k: nat) returns (m: nat)
    requires Sound(During(s, c)) && k <= |c.pending| && c.blocked == None && p in s.players
    requires capacity == Limit(s.players[p], bag) && c.used == Load(During(s, c), p, bag)
    requires forall j :: 0 <= j < k ==> !Waiting(c.pending[j], p, bag)
    ensures ClaimOutcome(s, p, bag, capacity, c, k, ClaimFrom(s.definitions, p, bag, capacity, c, k), m)
    decreases |c.pending| - k
  {
    hide Sound, Load, Limit, Holdings, Sum, Claimable, RowSize, SizeIn, ClaimOutcome;
    m := 0;
    if k == |c.pending| {
      ClaimEnds(s, p, bag, capacity, c, k, None);
    } else if !Waiting(c.pending[k], p, bag) {
      m := ClaimFromExact(s, p, bag, capacity, c, k + 1);
      ClaimSkips(s, p, bag, capacity, c, k, ClaimFrom(s.definitions, p, bag, capacity, c, k), m);
    } else {
      HeldDuring(s, p, bag, c, k);
      var i := FindItem(c.items, c.pending[k].item.value).value;
      if bag == ItemBag && !InU64(c.used + 1) {
        BalanceWithin(s, p, bag, capacity, c);
        ClaimOverflows(s, p, bag, capacity, c, k);
      } else if c.used + SizeIn(c.items[i], bag) > capacity {
        ClaimEnds(s, p, bag, capacity, c, k, Some(c.pending[k].id));
      } else {
        var next := Onward(c, i, k, bag);
        DeliveredSound(s, p, bag, capacity, c, i, k, next);
        var rest := ClaimFromExact(s, p, bag, capacity, next, k + 1);
        m := rest + 1;
        ClaimMoves(s, p, bag, capacity, c, k, i, ClaimFrom(s.definitions, p, bag, capacity, next, k + 1), rest);
      }
    }
  }

  /** The claim after the delivery at `k` has been moved. */
  function Onward(c: Claim, i: nat, k: nat, bag: Bag): Claim
    requires i < |c.items| && k < |c.pending|
  {
    Claim(c.items[i := MovedItem(c.items[i], bag)], c.pending[k := c.pending[k].(open := false)],
          c.claimed + [Claimed(c.pending[k].id, c.items[i].id)], None, c.used + SizeIn(c.items[i], bag))
  }

  /** The claim stops: at the end of the line, or at a delivery that does not fit. */
  lemma ClaimEnds(s: State, p: PlayerId, bag: Bag, capacity: int, c: Claim, k: nat, blocked: Option<nat>)
    requires Sound(During(s, c)) && k <= |c.pending| && c.blocked == None && p in s.players
    requires capacity == Limit(s.players[p], bag) && c.used == Load(During(s, c), p, bag)
    requires forall j :: 0 <= j < k ==> !Waiting(c.pending[j], p, bag)
    requires blocked.None? ==> k == |c.pending|
    requires blocked.Some? ==>
      && k < |c.pending| && Waiting(c.pending[k], p, bag) && blocked.value == c.pending[k].id
      && capacity < c.used + RowSize(c.items, c.pending[k], bag)
    ensures ClaimOutcome(s, p, bag, capacity, c, k, Ok(c.(blocked := blocked)), 0)
  {
    hide Sound, Load, Limit, Holdings, Sum, RowSize;
    BalanceWithin(s, p, bag, capacity, c);
    QueueSkips(c.pending, p, bag, 0, k);
    var line := QueueFrom(c.pending, p, bag, k);
    assert line[0..] == line;
    SumWhole(Sizes(c.items, line, bag));
    assert During(s, c.(blocked := blocked)) == During(s, c);
  }

  lemma ClaimSkips(s: State, p: PlayerId, bag: Bag, capacity: int, c: Claim, k: nat, r: Result<Claim, StorageError>,
                   m: nat)
    requires k < |c.pending| && !Waiting(c.pending[k], p, bag) && ClaimOutcome(s, p, bag, capacity, c, k + 1, r, m)
    ensures ClaimOutcome(s, p, bag, capacity, c, k, r, m)
  {
    hide Sound, Load, Holdings, Sum, Sizes, ClaimedPrefix;
    assert QueueFrom(c.pending, p, bag, k) == QueueFrom(c.pending, p, bag, k + 1);
  }

  lemma ClaimOverflows(s: State, p: PlayerId, bag: Bag, capacity: int, c: Claim, k: nat)
    requires k <= |c.pending| && bag == ItemBag && !InU64(c.used + 1) && c.used <= capacity
    ensures ClaimOutcome(s, p, bag, capacity, c, k, Err(ArithmeticOverflow), 0)
  {
    hide Sound, Load, Holdings, Sum, Sizes, ClaimedPrefix;
  }

  lemma ClaimMoves(s: State, p: PlayerId, bag: Bag, capacity: int, c: Claim, k: nat, i: nat,
                   r: Result<Claim, StorageError>, rest: nat)
    requires k < |c.pending| && i < |c.items| && Waiting(c.pending[k], p, bag)
    requires c.pending[k].item == Some(c.items[i].id)
    requires RowSize(c.items, c.pending[k], bag) == SizeIn(c.items[i], bag)
    requires ClaimOutcome(s, p, bag, capacity, Onward(c, i, k, bag), k + 1, r, rest)
    requires forall q, d :: Holdings(During(s, Onward(c, i, k, bag)), q, d) == Holdings(During(s, c), q, d)
    ensures ClaimOutcome(s, p, bag, capacity, c, k, r, rest + 1)
  {
    hide Sound, Load, Holdings, Sum, RowSize, SizeIn, ClaimedPrefix, Queue;
    var row, line, tail := c.pending[k], QueueFrom(c.pending, p, bag, k), QueueFrom(c.pending, p, bag, k + 1);
    var sizes := Sizes(c.items, line, bag);
    assert line == [row] + tail;
    assert line[1..] == tail && sizes[1..] == Sizes(c.items, tail, bag);
    QueueKept(c.pending, p, bag, k, k + 1);
    SizesKept(c.items, i, bag, tail);
    SingleSize(c.items[i]);
    if r.Ok? {
      OneMore(line, sizes, c.used, capacity, c.claimed, r.value, rest, row, c.items[i].id);
    }
  }

  lemma SingleSize(item: ItemRow)
    ensures SizeIn(item, ItemBag) == 1
  {
  }

  lemma BalanceWithin(s: State, p: PlayerId, bag: Bag, capacity: int, c: Claim)
    requires Sound(During(s, c)) && p in s.players && capacity == Limit(s.players[p], bag)
    requires c.used == Load(During(s, c), p, bag)
    ensures c.used <= capacity
  {
  }

  lemma HeldDuring(s: State, p: PlayerId, bag: Bag, c: Claim, k: nat)
    requires Sound(During(s, c)) && k < |c.pending| && Waiting(c.pending[k], p, bag)
    ensures FindItem(c.items, c.pending[k].item.value).Some?
    ensures var i := FindItem(c.items, c.pending[k].item.value).value;
      && i < |c.items| && c.items[i].id == c.pending[k].item.value
      && Claimable(s.definitions, c.pending[k], c.items[i], p, bag)
      && RowSize(c.items, c.pending[k], bag) == SizeIn(c.items[i], bag)
  {
    WaitingHeld(During(s, c), p, bag, k);
  }

  lemma DeliveredSound(s: State, p: PlayerId, bag: Bag, capacity: int, c: Claim, i: nat, k: nat, next: Claim)
    requires Sound(During(s, c)) && i < |c.items| && k < |c.pending| && p in s.players && Waiting(c.pending[k], p, bag)
    requires c.pending[k].item == Some(c.items[i].id) && Claimable(s.definitions, c.pending[k], c.items[i], p, bag)
    requires c.used == Load(During(s, c), p, bag)
    requires c.used + SizeIn(c.items[i], bag) <= capacity == Limit(s.players[p], bag)
    requires next.items == c.items[i := MovedItem(c.items[i], bag)]
    requires next.pending == c.pending[k := c.pending[k].(open := false)]
    requires next.used == c.used + SizeIn(c.items[i], bag)
    ensures Sound(During(s, next)) && next.used == Load(During(s, next), p, bag)
    ensures forall q, d :: Holdings(During(s, next), q, d) == Holdings(During(s, c), q, d)
    ensures forall j :: 0 <= j < k ==> next.pending[j] == c.pending[j]
  {
    hide Matched, SingleSource, FishPending, ValidItems, Load, Limit, Holdings, Claimable;
    var here := During(s, c);
    assert During(s, next) == Delivered(here, i, k, bag);
    DeliveredMatched(here, p, bag, i, k);
    DeliveredSource(here, bag, i, k);
    DeliveredLoad(here, p, bag, i, k);
    DeliveredHoldings(here, bag, i, k);
  }

  /** Putting the first delivery of the line in front of a claimed prefix of the rest. */
  lemma OneMore(line: seq<PendingRow>, sizes: seq<int>, used: int, capacity: int, before: seq<Claimed>, end: Claim,
                rest: nat,
                row: PendingRow, item: ItemId)
    requires |sizes| == |line| && line != [] && line[0] == row && row.item == Some(item)
    requires forall i :: 0 <= i < |line| ==> line[i].item.Some?
    requires |before| + 1 <= |end.claimed| && before + [Claimed(row.id, item)] == end.claimed[..|before| + 1]
    requires ClaimedPrefix(line[1..], sizes[1..], used + sizes[0], capacity, end.claimed[|before| + 1..], end.blocked,
                           end.used, rest)
    ensures ClaimedPrefix(line, sizes, used, capacity, end.claimed[|before|..], end.blocked, end.used, rest + 1)
    ensures before == end.claimed[..|before|] && line[1..][rest..] == line[rest + 1..]
  {
    var m := rest + 1;
    assert sizes[..m] == [sizes[0]] + sizes[1..][..rest];
    SumConcat([sizes[0]], sizes[1..][..rest]);
    assert line[..m] == [row] + line[1..][..rest];
    assert ClaimedOf(line[..m]) == [Claimed(row.id, item)] + ClaimedOf(line[1..][..rest]);
    assert end.claimed == end.claimed[..|before| + 1] + end.claimed[|before| + 1..];
    assert end.claimed[|before|..] == [Claimed(row.id, item)] + end.claimed[|before| + 1..];
    assert before == end.claimed[..|before|];
  }

  /** A claim that acts moves exactly the longest prefix of the waiting line that fits, in order; the rest keeps waiting, no
      integrity error is reachable, and what players hold does not change. */
  lemma ClaimExact(s: State, operation: OperationId, p: PlayerId, bag: Bag) returns (m: nat)
    requires Invariant(s)
    ensures var (after, result) := ClaimPending(s, operation, p, bag);
      && result != Err(PendingIntegrityMismatch)
      && (after != s ==>
            var (line, receipt) := (Queue(s, p, bag), result.value);
            && p in s.players && result.Ok? && m <= |line|
            && ClaimedPrefix(line, Sizes(s.items, line, bag), Load(s, p, bag), Limit(s.players[p], bag),
                             receipt.claimed, receipt.blocked, receipt.usedAfter, m)
            && Queue(after, p, bag) == line[m..] && Load(after, p, bag) == receipt.usedAfter)
  {
    hide ClaimFrom, Sound, Load, Limit, Used, BagCapacity, ClaimedPrefix, Holdings, Sizes, QueueFrom, Matched,
         ReplayClaim, ClaimOutcome;
    m := 0;
    var (after, result) := ClaimPending(s, operation, p, bag);
    assert Sound(s) by {
      InvariantSound(s);
    }
    UsedExact(s, p, bag);
    ReplayNeverMismatches(s, operation, p, bag);
    NoMismatchInUse(s, p, bag);
    if p in s.players {
      var capacity := Limit(s.players[p], bag);
      var c := Claim(s.items, s.pending, [], None, Load(s, p, bag));
      assert During(s, c) == s;
      m := ClaimFromExact(s, p, bag, capacity, c, 0);
      if after != s {
        assert result.Ok?;
        ClaimRead(s, operation, p, bag, capacity, c, ClaimFrom(s.definitions, p, bag, capacity, c, 0), m, after,
                  result.value);
      } else {
        OutcomeError(s, p, bag, capacity, c, ClaimFrom(s.definitions, p, bag, capacity, c, 0), m);
      }
    }
  }

  lemma InvariantSound(s: State)
    requires Invariant(s)
    ensures Sound(s)
  {
  }

  lemma OutcomeError(s: State, p: PlayerId, bag: Bag, capacity: int, c: Claim, r: Result<Claim, StorageError>, m: nat)
    requires ClaimOutcome(s, p, bag, capacity, c, 0, r, m)
    ensures r.Err? ==> r.error == ArithmeticOverflow
  {
  }

  lemma ReplayNeverMismatches(s: State, operation: OperationId, p: PlayerId, bag: Bag)
    ensures forall e :: ReplayClaim(e, p, bag) != Err(PendingIntegrityMismatch)
  {
  }

  lemma {:induction false} WeighedGrams(items: seq<ItemRow>, p: PlayerId)
    requires forall i :: 0 <= i < |items| && items[i].place == InCatchBag ==> items[i].weight.Some?
    ensures GramsFrom(items, p).Ok?
  {
    if items == [] {
    } else {
      WeighedGrams(items[1..], p);
    }
  }

  lemma NoMismatchInUse(s: State, p: PlayerId, bag: Bag)
    requires Invariant(s)
    ensures Used(s, p, bag).Err? ==> Used(s, p, bag).error == ArithmeticOverflow
  {
    hide UsedSlots, GramsFrom;
    WeighedGrams(s.items, p);
  }

  lemma ClaimRead(s: State, operation: OperationId, p: PlayerId, bag: Bag, capacity: int, c: Claim,
                  r: Result<Claim, StorageError>,
                  m: nat, after: State, receipt: ClaimReceipt)
    requires p in s.players && c == Claim(s.items, s.pending, [], None, Load(s, p, bag)) && r.Ok?
    requires ClaimOutcome(s, p, bag, capacity, c, 0, r, m) && capacity == Limit(s.players[p], bag)
    requires receipt == ClaimReceipt(s.nextId, operation, p, r.value.claimed, r.value.blocked, r.value.used)
    requires after == Recorded(s.(items := r.value.items, pending := r.value.pending, nextId := s.nextId + 1),
                               operation, ClaimKey(bag), p, BagClaimed(bag, receipt))
    ensures m <= |Queue(s, p, bag)|
    ensures ClaimedPrefix(Queue(s, p, bag), Sizes(s.items, Queue(s, p, bag), bag), Load(s, p, bag), Limit(s.players[p], bag),
                          receipt.claimed, receipt.blocked, receipt.usedAfter, m)
    ensures Queue(after, p, bag) == Queue(s, p, bag)[m..] && Load(after, p, bag) == receipt.usedAfter
  {
    hide Sound, Holdings, Sum, Limit, ClaimedPrefix, Sizes, QueueFrom;
    assert r.value.claimed[0..] == r.value.claimed;
    assert Load(after, p, bag) == Load(During(s, r.value), p, bag);
  }

  lemma ClaimKeeps(s: State, operation: OperationId, p: PlayerId, bag: Bag)
    requires Invariant(s)
    ensures var (after, result) := ClaimPending(s, operation, p, bag); Acts(s, after, result.Err?, operation, ClaimKey(bag))
  {
    hide ClaimFrom, Sound, Load, Limit, Used, BagCapacity, Holdings, Matched, ReplayClaim, ClaimOutcome, ClaimKey,
         Invariant, NetOf;
    Unchanged(s);
    var (after, result) := ClaimPending(s, operation, p, bag);
    if after != s {
      var capacity := Limit(s.players[p], bag);
      UsedExact(s, p, bag);
      var c := Claim(s.items, s.pending, [], None, Load(s, p, bag));
      assert During(s, c) == s;
      InvariantSound(s);
      var m := ClaimFromExact(s, p, bag, capacity, c, 0);
      ClaimRecorded(s, operation, p, bag, capacity, c, ClaimFrom(s.definitions, p, bag, capacity, c, 0), m,
                    result.value);
    }
  }

  lemma ClaimRecorded(s: State, operation: OperationId, p: PlayerId, bag: Bag, capacity: int, c: Claim,
                      r: Result<Claim, StorageError>, m: nat, receipt: ClaimReceipt)
    requires Invariant(s) && c == Claim(s.items, s.pending, [], None, Load(s, p, bag)) && r.Ok?
    requires ClaimOutcome(s, p, bag, capacity, c, 0, r, m) && FindEvent(s.events, operation, ClaimKey(bag)).None?
    requires receipt == ClaimReceipt(s.nextId, operation, p, r.value.claimed, r.value.blocked, r.value.used)
    ensures var after := Recorded(s.(items := r.value.items, pending := r.value.pending, nextId := s.nextId + 1),
                                  operation, ClaimKey(bag), p, BagClaimed(bag, receipt));
      Invariant(after) && Conserves(s, after)
  {
    hide Matched, SingleSource, FishPending, ValidItems, WithinCapacity, Sum, Limit, Load, Holdings, Queue,
         ClaimedPrefix, Sizes, ValidEvents, ClaimKey;
    var here := During(s, r.value);
    var moved := here.(nextId := s.nextId + 1);
    assert During(s, c) == s;
    assert ValidStacks(here) && ValidEvents(here) by {
      SameStacksAndEvents(s, here);
    }
    LaterId(here, moved);
    assert ValidEvent(EventRow(operation, ClaimKey(bag), p, BagClaimed(bag, receipt)));
    RecordKeeps(moved, operation, ClaimKey(bag), p, BagClaimed(bag, receipt));
    SameHoldings(here, moved);
    RecordedNet(s, moved, operation, ClaimKey(bag), p, BagClaimed(bag, receipt));
  }

  lemma SameStacksAndEvents(s: State, after: State)
    requires ValidStacks(s) && ValidEvents(s) && after == s.(items := after.items, pending := after.pending)
    ensures ValidStacks(after) && ValidEvents(after)
  {
    hide ValidEvent, StackLimit;
  }

  lemma SameHoldings(s: State, after: State)
    requires after == s.(nextId := after.nextId)
    ensures forall q, d :: Holdings(after, q, d) == Holdings(s, q, d)
  {
    hide Sum;
  }
}
