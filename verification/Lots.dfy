/** Deposit lots of one player, in the order the bank spends them: oldest deposit first, then lowest id. */
module Lots {
  import opened Numbers
  import opened Sums

  datatype Lot = Lot(id: nat, principal: int, depositedAt: int)

  /** One row a withdrawal takes from a lot. */
  datatype Debit = Debit(id: nat, amount: int, depositedAt: int)

  function Principals(lots: seq<Lot>): (principals: seq<int>)
    ensures |principals| == |lots|
  {
    seq(|lots|, i requires 0 <= i < |lots| => lots[i].principal)
  }

  ghost predicate ValidRows(rows: seq<Lot>) {
    && (forall i :: 0 <= i < |rows| ==> 0 <= rows[i].principal)
    && (forall i, j :: 0 <= i < j < |rows| ==> rows[i].id != rows[j].id)
  }

  /** Oldest first, and by id among lots of one instant: the order in which lots are spent. */
  ghost predicate InOrder(rows: seq<Lot>) {
    forall i, j :: 0 <= i < j < |rows| ==>
      rows[i].depositedAt < rows[j].depositedAt
      || (rows[i].depositedAt == rows[j].depositedAt && rows[i].id < rows[j].id)
  }

  /** The rows every query keeps: `principal_remaining > 0`. */
  function ActiveLots(rows: seq<Lot>): (active: seq<Lot>)
    ensures forall i :: 0 <= i < |active| ==> 0 < active[i].principal
  {
    if rows == [] then []
    else if rows[0].principal > 0 then [rows[0]] + ActiveLots(rows[1..])
    else ActiveLots(rows[1..])
  }

  /** The table after every active row is overwritten, in order. */
  function WriteBack(rows: seq<Lot>, active: seq<Lot>): seq<Lot>
    requires |active| == |ActiveLots(rows)|
  {
    if rows == [] then []
    else if rows[0].principal > 0 then [active[0]] + WriteBack(rows[1..], active[1..])
    else [rows[0]] + WriteBack(rows[1..], active)
  }

  // ---- FIFO debits

  function DebitsFrom(lots: seq<Lot>, remaining: int): seq<Debit> {
    if lots == [] || remaining == 0 then []
    else
      var take := Min(lots[0].principal, remaining);
      (if take > 0 then [Debit(lots[0].id, take, lots[0].depositedAt)] else [])
      + DebitsFrom(lots[1..], remaining - take)
  }

  /** What the lots cannot cover. */
  function Unpaid(lots: seq<Lot>, remaining: int): int {
    if lots == [] || remaining == 0 then remaining
    else Unpaid(lots[1..], remaining - Min(lots[0].principal, remaining))
  }

  /** The lots left when `amount` is taken from the front. */
  function Drained(rows: seq<Lot>, amount: int): seq<Lot> {
    if rows == [] then []
    else
      var take := Min(rows[0].principal, amount);
      [rows[0].(principal := rows[0].principal - take)] + Drained(rows[1..], amount - take)
  }

  function DebitAmounts(debits: seq<Debit>): (amounts: seq<int>)
    ensures |amounts| == |debits|
  {
    seq(|debits|, i requires 0 <= i < |debits| => debits[i].amount)
  }

  /** Walks the active lots and takes what is still needed from each; None when they do not cover the amount. */
  method LoadFifoLotDebits(rows: seq<Lot>, amount: int) returns (r: Option<seq<Debit>>)
    requires 0 <= amount
    ensures r == if Unpaid(ActiveLots(rows), amount) == 0 then Some(DebitsFrom(ActiveLots(rows), amount)) else None
  {
    hide ActiveLots;
    var lots := ActiveLots(rows);
    var remaining := amount;
    var debits := [];
    var k := 0;
    while k < |lots| && remaining != 0
      invariant 0 <= k <= |lots| && 0 <= remaining
      invariant Unpaid(lots, amount) == Unpaid(lots[k..], remaining)
      invariant DebitsFrom(lots, amount) == debits + DebitsFrom(lots[k..], remaining)
    {
      var take := Min(lots[k].principal, remaining);
      FifoStep(lots, k, remaining);
      if take > 0 {
        debits := debits + [Debit(lots[k].id, take, lots[k].depositedAt)];
        remaining := remaining - take;
      }
      k := k + 1;
    }
    assert Unpaid(lots[k..], remaining) == remaining;
    assert remaining == 0 ==> debits + DebitsFrom(lots[k..], remaining) == debits;
    if remaining != 0 {
      return None;
    }
    return Some(debits);
  }

  lemma FifoStep(lots: seq<Lot>, k: nat, remaining: int)
    requires k < |lots| && remaining > 0 && 0 < lots[k].principal
    ensures var take := Min(lots[k].principal, remaining);
      && Unpaid(lots[k..], remaining) == Unpaid(lots[k + 1..], remaining - take)
      && DebitsFrom(lots[k..], remaining)
      == [Debit(lots[k].id, take, lots[k].depositedAt)] + DebitsFrom(lots[k + 1..], remaining - take)
  {
    assert lots[k..][0] == lots[k] && lots[k..][1..] == lots[k + 1..];
  }

  /** One `UPDATE ... WHERE id = $2 AND principal_remaining >= $1`; None when no row matches. */
  function ApplyDebit(rows: seq<Lot>, debit: Debit): Option<seq<Lot>> {
    if rows == [] then None
    else if rows[0].id == debit.id && rows[0].principal >= debit.amount then
      Some([rows[0].(principal := rows[0].principal - debit.amount)] + rows[1..])
    else
      var rest :- ApplyDebit(rows[1..], debit);
      Some([rows[0]] + rest)
  }

  function ApplyDebits(rows: seq<Lot>, debits: seq<Debit>): Option<seq<Lot>>
    decreases |debits|
  {
    if debits == [] then Some(rows)
    else
      var next :- ApplyDebit(rows, debits[0]);
      ApplyDebits(next, debits[1..])
  }

  method ApplyLotDebits(rows: seq<Lot>, debits: seq<Debit>) returns (r: Option<seq<Lot>>)
    ensures r == ApplyDebits(rows, debits)
  {
    var current := rows;
    for k := 0 to |debits|
      invariant ApplyDebits(rows, debits) == ApplyDebits(current, debits[k..])
    {
      assert debits[k..][0] == debits[k] && debits[k..][1..] == debits[k + 1..];
      var next := ApplyDebit(current, debits[k]);
      if next.None? {
        return None;
      }
      current := next.value;
    }
    return Some(current);
  }

  // ---- active rows

  lemma {:induction false} ActiveRows(rows: seq<Lot>)
    requires forall i :: 0 <= i < |rows| ==> 0 <= rows[i].principal
    ensures Sum(Principals(ActiveLots(rows))) == Sum(Principals(rows))
    ensures |ActiveLots(rows)| <= |rows|
  {
    if rows == [] {
    } else {
      ActiveRows(rows[1..]);
      assert Principals(rows)[1..] == Principals(rows[1..]);
      if rows[0].principal > 0 {
        assert Principals(ActiveLots(rows))[1..] == Principals(ActiveLots(rows[1..]));
      }
    }
  }

  /** Overwritten rows are what the next query reads, and only the last overwrite counts. */
  lemma {:induction false} WriteBackReads(rows: seq<Lot>, active: seq<Lot>)
    requires |active| == |ActiveLots(rows)| && forall i :: 0 <= i < |active| ==> 0 < active[i].principal
    ensures ActiveLots(WriteBack(rows, active)) == active
    ensures |WriteBack(rows, active)| == |rows|
  {
    if rows == [] {
    } else {
      if rows[0].principal > 0 {
        WriteBackReads(rows[1..], active[1..]);
        assert WriteBack(rows, active)[1..] == WriteBack(rows[1..], active[1..]);
      } else {
        WriteBackReads(rows[1..], active);
        assert WriteBack(rows, active)[1..] == WriteBack(rows[1..], active);
      }
    }
  }

  lemma {:induction false} WriteBackTwice(rows: seq<Lot>, first: seq<Lot>, second: seq<Lot>)
    requires |first| == |ActiveLots(rows)| == |second|
    requires forall i :: 0 <= i < |first| ==> 0 < first[i].principal
    ensures |ActiveLots(WriteBack(rows, first))| == |second|
    ensures WriteBack(WriteBack(rows, first), second) == WriteBack(rows, second)
  {
    WriteBackReads(rows, first);
    if rows == [] {
    } else {
      if rows[0].principal > 0 {
        WriteBackTwice(rows[1..], first[1..], second[1..]);
        assert WriteBack(rows, first)[1..] == WriteBack(rows[1..], first[1..]);
      } else {
        WriteBackTwice(rows[1..], first, second);
        assert WriteBack(rows, first)[1..] == WriteBack(rows[1..], first);
      }
    }
  }

  lemma {:induction false} WriteBackSame(rows: seq<Lot>)
    ensures WriteBack(rows, ActiveLots(rows)) == rows
  {
    if rows == [] {
    } else {
      WriteBackSame(rows[1..]);
      if rows[0].principal > 0 {
        assert ActiveLots(rows)[1..] == ActiveLots(rows[1..]);
      }
    }
  }

  // ---- debits and draining

  /** Lots that hold the amount give debits that sum to it, each positive and at most its lot. */
  lemma {:induction false} DebitsCover(lots: seq<Lot>, amount: int)
    requires 0 <= amount <= Sum(Principals(lots))
    requires forall i :: 0 <= i < |lots| ==> 0 <= lots[i].principal
    ensures Unpaid(lots, amount) == 0
    ensures Sum(DebitAmounts(DebitsFrom(lots, amount))) == amount
    ensures forall d <- DebitsFrom(lots, amount) :: 0 < d.amount
  {
    if lots == [] || amount == 0 {
    } else {
      var take := Min(lots[0].principal, amount);
      assert Principals(lots)[1..] == Principals(lots[1..]);
      DebitsRest(lots, amount, take);
      DebitsCover(lots[1..], amount - take);
      var debits, rest := DebitsFrom(lots, amount), DebitsFrom(lots[1..], amount - take);
      if take > 0 {
        assert debits == [Debit(lots[0].id, take, lots[0].depositedAt)] + rest;
        assert DebitAmounts(debits)[1..] == DebitAmounts(rest);
      } else {
        assert debits == rest;
      }
    }
  }

  lemma DebitsRest(lots: seq<Lot>, amount: int, take: int)
    requires lots != [] && 0 < amount <= Sum(Principals(lots)) && take == Min(lots[0].principal, amount)
    requires forall i :: 0 <= i < |lots| ==> 0 <= lots[i].principal
    ensures 0 <= amount - take <= Sum(Principals(lots[1..]))
  {
    assert Principals(lots)[1..] == Principals(lots[1..]);
    SumNonNegative(Principals(lots[1..]));
  }

  lemma {:induction false} DrainedRows(rows: seq<Lot>, amount: int)
    requires 0 <= amount <= Sum(Principals(rows)) && ValidRows(rows)
    ensures |Drained(rows, amount)| == |rows| && ValidRows(Drained(rows, amount))
    ensures Sum(Principals(Drained(rows, amount))) == Sum(Principals(rows)) - amount
    ensures forall i :: 0 <= i < |rows| ==>
      var row := Drained(rows, amount)[i];
      row.id == rows[i].id && row.depositedAt == rows[i].depositedAt && 0 <= row.principal <= rows[i].principal
  {
    if rows == [] {
    } else {
      var take := Min(rows[0].principal, amount);
      assert Principals(rows)[1..] == Principals(rows[1..]);
      SumNonNegative(Principals(rows[1..]));
      DrainedRows(rows[1..], amount - take);
      assert Principals(Drained(rows, amount))[1..] == Principals(Drained(rows[1..], amount - take));
    }
  }

  /** A lot is only drawn on when every lot before it is empty. */
  lemma {:induction false} DrainedFifo(rows: seq<Lot>, amount: int, i: nat, j: nat)
    requires 0 <= amount && forall k :: 0 <= k < |rows| ==> 0 <= rows[k].principal
    requires i < j < |rows|
    ensures |Drained(rows, amount)| == |rows|
    ensures Drained(rows, amount)[j].principal != rows[j].principal ==> Drained(rows, amount)[i].principal == 0
  {
    var take := Min(rows[0].principal, amount);
    DrainedLength(rows[1..], amount - take);
    if i > 0 {
      DrainedFifo(rows[1..], amount - take, i - 1, j - 1);
    } else if take == amount {
      DrainedNothing(rows[1..]);
    }
  }

  lemma {:induction false} DrainedLength(rows: seq<Lot>, amount: int)
    ensures |Drained(rows, amount)| == |rows|
  {
    if rows == [] {
    } else {
      DrainedLength(rows[1..], amount - Min(rows[0].principal, amount));
    }
  }

  lemma {:induction false} DebitsOfActive(rows: seq<Lot>, amount: int)
    requires 0 <= amount && forall i :: 0 <= i < |rows| ==> 0 <= rows[i].principal
    ensures DebitsFrom(ActiveLots(rows), amount) == DebitsFrom(rows, amount)
    ensures Unpaid(ActiveLots(rows), amount) == Unpaid(rows, amount)
  {
    hide DebitsFrom, Unpaid;
    NothingOwed(rows);
    NothingOwed(ActiveLots(rows));
    if rows == [] || amount == 0 {
    } else {
      var take := Min(rows[0].principal, amount);
      DebitsOfActive(rows[1..], amount - take);
      DrainStep(rows, amount, take);
      if rows[0].principal > 0 {
        var active := ActiveLots(rows);
        assert active[0] == rows[0] && active[1..] == ActiveLots(rows[1..]);
        DrainStep(active, amount, take);
      }
    }
  }

  lemma NothingOwed(rows: seq<Lot>)
    ensures DebitsFrom(rows, 0) == [] && Unpaid(rows, 0) == 0
  {
  }

  lemma {:induction false} DrainedNothing(rows: seq<Lot>)
    requires forall i :: 0 <= i < |rows| ==> 0 <= rows[i].principal
    ensures Drained(rows, 0) == rows
  {
    if rows == [] {
    } else {
      DrainedNothing(rows[1..]);
    }
  }

  /** Updates by id pass over a row that none of them names. */
  lemma {:induction false} ApplyDebitsSkips(head: Lot, rows: seq<Lot>, debits: seq<Debit>)
    requires forall d <- debits :: d.id != head.id
    ensures ApplyDebits([head] + rows, debits)
         == match ApplyDebits(rows, debits) { case None => None case Some(after) => Some([head] + after) }
    decreases |debits|
  {
    if debits == [] {
    } else {
      assert ([head] + rows)[1..] == rows;
      var next := ApplyDebit(rows, debits[0]);
      if next.Some? {
        ApplyDebitsSkips(head, next.value, debits[1..]);
      }
    }
  }

  lemma {:induction false} DebitIds(rows: seq<Lot>, amount: int)
    ensures forall d <- DebitsFrom(rows, amount) :: exists i :: 0 <= i < |rows| && rows[i].id == d.id
  {
    hide DebitsFrom;
    if rows == [] || amount == 0 {
      NoDebits(rows, amount);
    } else {
      var take := Min(rows[0].principal, amount);
      var rest := DebitsFrom(rows[1..], amount - take);
      DrainStep(rows, amount, take);
      DebitIds(rows[1..], amount - take);
      forall d | d in DebitsFrom(rows, amount)
        ensures exists i :: 0 <= i < |rows| && rows[i].id == d.id
      {
        if d in rest {
          var i :| 0 <= i < |rows[1..]| && rows[1..][i].id == d.id;
          assert rows[i + 1].id == d.id;
        } else {
          assert rows[0].id == d.id;
        }
      }
    }
  }

  lemma NoDebits(rows: seq<Lot>, amount: int)
    requires rows == [] || amount == 0
    ensures DebitsFrom(rows, amount) == []
  {
  }

  lemma FirstDebit(rows: seq<Lot>, take: int, rest: seq<Debit>)
    requires rows != [] && take <= rows[0].principal
    ensures var debit := Debit(rows[0].id, take, rows[0].depositedAt);
      ApplyDebits(rows, [debit] + rest) == ApplyDebits([rows[0].(principal := rows[0].principal - take)] + rows[1..], rest)
  {
    var debits := [Debit(rows[0].id, take, rows[0].depositedAt)] + rest;
    assert debits[1..] == rest;
  }

  /** The by-id updates of a withdrawal find every row they name and drain the lots from the front. */
  lemma {:induction false} DebitsDrain(rows: seq<Lot>, amount: int)
    requires 0 <= amount && ValidRows(rows)
    ensures ApplyDebits(rows, DebitsFrom(rows, amount)) == Some(Drained(rows, amount))
  {
    hide ApplyDebits, DebitsFrom, Drained, ValidRows;
    if rows == [] || amount == 0 {
      NothingTaken(rows, amount);
    } else {
      var take := Min(rows[0].principal, amount);
      var spent, rest := rows[0].(principal := rows[0].principal - take), DebitsFrom(rows[1..], amount - take);
      TailValid(rows);
      DebitsDrain(rows[1..], amount - take);
      DebitIds(rows[1..], amount - take);
      assert forall d <- rest :: d.id != spent.id;
      ApplyDebitsSkips(spent, rows[1..], rest);
      DrainStep(rows, amount, take);
      if take > 0 {
        FirstDebit(rows, take, rest);
      } else {
        assert DebitsFrom(rows, amount) == rest;
        assert take == 0 && spent == rows[0];
        assert rows == [spent] + rows[1..];
      }
    }
  }

  lemma NothingTaken(rows: seq<Lot>, amount: int)
    requires rows == [] || amount == 0
    requires ValidRows(rows)
    ensures DebitsFrom(rows, amount) == [] && Drained(rows, amount) == rows && ApplyDebits(rows, []) == Some(rows)
  {
    if amount == 0 {
      DrainedNothing(rows);
    }
  }

  lemma TailValid(rows: seq<Lot>)
    requires rows != [] && ValidRows(rows)
    ensures ValidRows(rows[1..]) && 0 <= rows[0].principal
    ensures forall i :: 0 <= i < |rows[1..]| ==> rows[1..][i].id != rows[0].id
  {
  }

  lemma DrainStep(rows: seq<Lot>, amount: int, take: int)
    requires rows != [] && amount != 0 && take == Min(rows[0].principal, amount)
    ensures DebitsFrom(rows, amount)
         == (if take > 0 then [Debit(rows[0].id, take, rows[0].depositedAt)] else []) + DebitsFrom(rows[1..], amount - take)
    ensures Unpaid(rows, amount) == Unpaid(rows[1..], amount - take)
    ensures Drained(rows, amount) == [rows[0].(principal := rows[0].principal - take)] + Drained(rows[1..], amount - take)
  {
  }

  /** Taking `a` and then `b` leaves the same lots as taking `a + b` at once. */
  lemma {:induction false} DrainedTwice(rows: seq<Lot>, a: int, b: int)
    requires 0 <= a && 0 <= b && forall i :: 0 <= i < |rows| ==> 0 <= rows[i].principal
    ensures Drained(Drained(rows, a), b) == Drained(rows, a + b)
  {
    if rows == [] {
    } else {
      var takeA := Min(rows[0].principal, a);
      var takeB := Min(rows[0].principal - takeA, b);
      DrainedTwice(rows[1..], a - takeA, b - takeB);
      var spent := rows[0].(principal := rows[0].principal - takeA);
      assert Drained(rows, a) == [spent] + Drained(rows[1..], a - takeA);
      assert takeA + takeB == Min(rows[0].principal, a + b);
    }
  }
}
