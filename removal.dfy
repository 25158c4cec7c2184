/** Taking fungible units out: "the slots holding the item, smallest quantity first,
    each emptied or lowered until the requested amount is met". The sort in the
    source is JavaScript's stable Array.prototype.sort on quantity over slots listed
    in slot order, so ties keep slot order: the visit order is ascending
    (quantity, slot). */
module Removal {
  import opened Slots

  /** Slot indices (0-based) holding `id`, ascending. */
  function Owned(slots: seq<Slot>, id: ItemId): (r: seq<nat>)
    ensures forall j :: 0 <= j < |r| ==> r[j] < |slots| && Holds(slots[r[j]], id)
    ensures forall i :: 0 <= i < |slots| && Holds(slots[i], id) ==> i in r
    ensures forall j, k :: 0 <= j < k < |r| ==> r[j] < r[k]
  {
    if slots == [] then []
    else
      var rest := Owned(slots[..|slots| - 1], id);
      if Holds(slots[|slots| - 1], id) then rest + [|slots| - 1] else rest
  }

  /** The visit order: fewer units first, then the lower slot. */
  predicate Before(slots: seq<Slot>, a: nat, b: nat)
  {
    a < |slots| && b < |slots| &&
    (Qty(slots[a]) < Qty(slots[b]) || (Qty(slots[a]) == Qty(slots[b]) && a < b))
  }

  predicate Sorted(slots: seq<Slot>, xs: seq<nat>)
  {
    forall j, k :: 0 <= j < k < |xs| ==> Before(slots, xs[j], xs[k])
  }

  predicate InRange(slots: seq<Slot>, xs: seq<nat>)
  {
    forall j :: 0 <= j < |xs| ==> xs[j] < |slots|
  }

  function InsertBy(slots: seq<Slot>, x: nat, xs: seq<nat>): seq<nat>
  {
    if xs == [] then [x]
    else if Before(slots, x, xs[0]) then [x] + xs
    else [xs[0]] + InsertBy(slots, x, xs[1..])
  }

  /** Insertion sort by Before. */
  function SortBy(slots: seq<Slot>, xs: seq<nat>): seq<nat>
  {
    if xs == [] then [] else InsertBy(slots, xs[0], SortBy(slots, xs[1..]))
  }

  /** The order the removal loop visits the owned slots in. */
  function RemovalOrder(slots: seq<Slot>, id: ItemId): seq<nat>
  {
    SortBy(slots, Owned(slots, id))
  }

  lemma {:induction false} InsertByElements(slots: seq<Slot>, x: nat, xs: seq<nat>)
    ensures multiset(InsertBy(slots, x, xs)) == multiset(xs) + multiset{x}
  {
    if xs != [] && !Before(slots, x, xs[0]) {
      InsertByElements(slots, x, xs[1..]);
      assert xs == [xs[0]] + xs[1..];
    }
  }

  lemma {:induction false} InsertBySorted(slots: seq<Slot>, x: nat, xs: seq<nat>)
    requires Sorted(slots, xs) && InRange(slots, xs) && x < |slots| && x !in xs
    ensures Sorted(slots, InsertBy(slots, x, xs))
  {
    if xs != [] {
      if Before(slots, x, xs[0]) {
        var r := [x] + xs;
        forall j, k | 0 <= j < k < |r| ensures Before(slots, r[j], r[k]) {
          if j == 0 && k > 1 {
            assert Before(slots, xs[0], xs[k - 1]);
          }
        }
      } else {
        assert Before(slots, xs[0], x);
        InsertBySorted(slots, x, xs[1..]);
        InsertByElements(slots, x, xs[1..]);
        var tail := InsertBy(slots, x, xs[1..]);
        var r := [xs[0]] + tail;
        forall j, k | 0 <= j < k < |r| ensures Before(slots, r[j], r[k]) {
          if j == 0 {
            assert r[k] in multiset(tail);
            assert r[k] == x || r[k] in xs[1..];
          }
        }
      }
    }
  }

  lemma {:induction false} SortByFacts(slots: seq<Slot>, xs: seq<nat>)
    requires InRange(slots, xs)
    requires forall j, k :: 0 <= j < k < |xs| ==> xs[j] != xs[k]
    ensures multiset(SortBy(slots, xs)) == multiset(xs)
    ensures Sorted(slots, SortBy(slots, xs))
  {
    if xs != [] {
      SortByFacts(slots, xs[1..]);
      var rest := SortBy(slots, xs[1..]);
      InsertByElements(slots, xs[0], rest);
      assert xs == [xs[0]] + xs[1..];
      assert xs[0] !in xs[1..];
      assert xs[0] !in multiset(rest);
      assert forall j :: 0 <= j < |rest| ==> rest[j] in multiset(xs[1..]);
      InsertBySorted(slots, xs[0], rest);
    }
  }

  /** The removal order lists every slot holding `id` exactly once, smallest quantity first. */
  lemma RemovalOrderFacts(slots: seq<Slot>, id: ItemId)
    ensures var order := RemovalOrder(slots, id);
      InRange(slots, order) && Sorted(slots, order) &&
      (forall j :: 0 <= j < |order| ==> Holds(slots[order[j]], id)) &&
      (forall i :: 0 <= i < |slots| && Holds(slots[i], id) ==> i in order)
  {
    var owned := Owned(slots, id);
    SortByFacts(slots, owned);
    var order := RemovalOrder(slots, id);
    forall j | 0 <= j < |order| ensures order[j] < |slots| && Holds(slots[order[j]], id) {
      assert order[j] in multiset(owned);
    }
    forall i | 0 <= i < |slots| && Holds(slots[i], id) ensures i in order {
      assert i in multiset(owned);
    }
  }

  // ---------------------------------------------------------------------------
  // The take loop

  /** What the take loop leaves: the slots, the amount still needed, and each take in visit order. */
  datatype Taken = Taken(slots: seq<Slot>, left: int, takes: seq<int>)

  /** Slot after `take` units leave it: cleared at 0, otherwise a lower stack. */
  function Lowered(s: Slot, id: ItemId, take: int): Slot
  {
    if Qty(s) - take <= 0 then Empty else Stack(id, Qty(s) - take)
  }

  /** The take loop: visit `order`, taking min(quantity, need) from each slot while need > 0. */
  function TakeAlong(slots: seq<Slot>, order: seq<nat>, id: ItemId, need: int): (t: Taken)
    requires InRange(slots, order)
    ensures |t.slots| == |slots|
    decreases |order|
  {
    if order == [] || need <= 0 then Taken(slots, need, [])
    else
      var i := order[0];
      var take := Min(Qty(slots[i]), need);
      var rest := TakeAlong(slots[i := Lowered(slots[i], id, take)], order[1..], id, need - take);
      Taken(rest.slots, rest.left, [take] + rest.takes)
  }

  function Sum(xs: seq<int>): int
  {
    if xs == [] then 0 else xs[0] + Sum(xs[1..])
  }

  /** Every listed slot holds `id` or is empty: what the loop may touch. */
  predicate Touchable(slots: seq<Slot>, order: seq<nat>, id: ItemId)
  {
    forall j :: 0 <= j < |order| ==> order[j] < |slots| && (slots[order[j]].Empty? || Holds(slots[order[j]], id))
  }

  /** What the take loop may leave in a slot: the slot as it was, an empty slot, or a smaller stack of `id`. */
  predicate Shrunk(before: Slot, after: Slot, id: ItemId)
  {
    after == before || after.Empty? || (after.Stack? && after.item == id && after.qty < Qty(before))
  }

  /** The take loop over a copy of the slots. */
  method PlanTake(slots: seq<Slot>, order: seq<nat>, id: ItemId, need: int) returns (t: Taken)
    requires InRange(slots, order)
    ensures t == TakeAlong(slots, order, id, need)
  {
    var plan, left, takes := slots, need, [];
    var j := 0;
    TakeStart(slots, order, id, need);
    while j < |order| && left > 0
      invariant j <= |order| && |plan| == |slots|
      invariant TakenTo(slots, order, id, need, plan, j, left, takes)
      decreases |order| - j
    {
      ghost var plan0, left0, takes0 := plan, left, takes;
      var i := order[j];
      var take := Min(Qty(plan[i]), left);
      plan := plan[i := Lowered(plan[i], id, take)];
      left := left - take;
      takes := takes + [take];
      TakeAdvance(slots, order, id, need, plan0, j, left0, takes0, plan, left, takes);
      j := j + 1;
    }
    TakeFinish(slots, order, id, need, plan, j, left, takes);
    t := Taken(plan, left, takes);
  }

  /** The take loop's state after the first j listed slots: finishing the walk from here on the copy, with
      what is still needed, gives the whole walk's result. */
  ghost predicate TakenTo(slots: seq<Slot>, order: seq<nat>, id: ItemId, need: int,
                          plan: seq<Slot>, j: nat, left: int, takes: seq<int>)
    requires InRange(slots, order)
  {
    j <= |order| && |plan| == |slots| && InRange(plan, order[j..]) &&
    TakeAlong(slots, order, id, need) ==
      var rest := TakeAlong(plan, order[j..], id, left); Taken(rest.slots, rest.left, takes + rest.takes)
  }

  lemma TakeStart(slots: seq<Slot>, order: seq<nat>, id: ItemId, need: int)
    requires InRange(slots, order)
    ensures TakenTo(slots, order, id, need, slots, 0, need, [])
  {
    assert order[0..] == order;
    assert [] + TakeAlong(slots, order, id, need).takes == TakeAlong(slots, order, id, need).takes;
  }

  /** One step of the take loop: the next listed slot gives up min(its quantity, what is still needed). */
  lemma TakeAdvance(slots: seq<Slot>, order: seq<nat>, id: ItemId, need: int, plan: seq<Slot>, j: nat, left: int,
                    takes: seq<int>, plan2: seq<Slot>, left2: int, takes2: seq<int>)
    requires InRange(slots, order) && TakenTo(slots, order, id, need, plan, j, left, takes)
    requires j < |order| && left > 0
    requires var i := order[j]; var take := Min(Qty(plan[i]), left);
      plan2 == plan[i := Lowered(plan[i], id, take)] && left2 == left - take && takes2 == takes + [take]
    ensures TakenTo(slots, order, id, need, plan2, j + 1, left2, takes2)
  {
    assert order[j..][0] == order[j] && order[j..][1..] == order[j + 1..];
    var take := Min(Qty(plan[order[j]]), left);
    var rest := TakeAlong(plan2, order[j + 1..], id, left2);
    assert takes2 + rest.takes == takes + ([take] + rest.takes);
  }

  lemma TakeFinish(slots: seq<Slot>, order: seq<nat>, id: ItemId, need: int, plan: seq<Slot>, j: nat, left: int,
                   takes: seq<int>)
    requires InRange(slots, order) && TakenTo(slots, order, id, need, plan, j, left, takes)
    requires !(j < |order| && left > 0)
    ensures TakeAlong(slots, order, id, need) == Taken(plan, left, takes)
  {
    assert takes + [] == takes;
  }

  /** The loop takes exactly what it no longer needs from `id`, and touches nothing but listed slots. */
  lemma {:induction false} TakeConserves(slots: seq<Slot>, order: seq<nat>, id: ItemId, need: int, j: ItemId)
    requires Touchable(slots, order, id) && need >= 0
    ensures var t := TakeAlong(slots, order, id, need);
      |t.slots| == |slots| && 0 <= t.left <= need && Sum(t.takes) == need - t.left &&
      Count(t.slots, j) == Count(slots, j) - (if j == id then need - t.left else 0) &&
      (forall i :: 0 <= i < |slots| && i !in order ==> t.slots[i] == slots[i]) &&
      (forall i :: 0 <= i < |slots| ==> Shrunk(slots[i], t.slots[i], id))
    decreases |order|
  {
    if order != [] && need > 0 {
      var i := order[0];
      var take := Min(Qty(slots[i]), need);
      var s1 := slots[i := Lowered(slots[i], id, take)];
      CountUpdate(slots, i, Lowered(slots[i], id, take), j);
      assert Touchable(s1, order[1..], id) by {
        forall k | 0 <= k < |order[1..]| ensures order[1..][k] == order[k + 1] { }
      }
      TakeConserves(s1, order[1..], id, need - take, j);
      var t := TakeAlong(slots, order, id, need);
      forall x | 0 <= x < |slots| && x !in order ensures t.slots[x] == slots[x] {
        assert x !in order[1..];
      }
      forall x | 0 <= x < |slots| ensures Shrunk(slots[x], t.slots[x], id) {
        if x == i {
          assert Shrunk(slots[x], s1[x], id);
        }
      }
    }
  }

  /** A need the loop could not meet means every listed slot was emptied. */
  lemma {:induction false} TakeExhausts(slots: seq<Slot>, order: seq<nat>, id: ItemId, need: int)
    requires Touchable(slots, order, id) && need >= 0
    requires TakeAlong(slots, order, id, need).left > 0
    ensures forall j :: 0 <= j < |order| ==> TakeAlong(slots, order, id, need).slots[order[j]].Empty?
    decreases |order|
  {
    if order != [] {
      var i := order[0];
      var take := Min(Qty(slots[i]), need);
      var s1 := slots[i := Lowered(slots[i], id, take)];
      var tail := order[1..];
      assert Touchable(s1, tail, id) by {
        forall k | 0 <= k < |tail| ensures tail[k] == order[k + 1] { }
      }
      assert TakeAlong(s1, tail, id, need - take).left > 0;
      TakeExhausts(s1, tail, id, need - take);
      ExhaustsCase(slots, order, id, need);
    }
  }

  /** The step of TakeExhausts, given what it says of the rest of the order after the first slot. */
  lemma ExhaustsCase(slots: seq<Slot>, order: seq<nat>, id: ItemId, need: int)
    requires Touchable(slots, order, id) && need >= 0 && order != []
    requires TakeAlong(slots, order, id, need).left > 0
    requires var i := order[0]; var take := Min(Qty(slots[i]), need);
      var s1 := slots[i := Lowered(slots[i], id, take)]; var tail := order[1..];
      Touchable(s1, tail, id) &&
      forall j :: 0 <= j < |tail| ==> TakeAlong(s1, tail, id, need - take).slots[tail[j]].Empty?
    ensures forall j :: 0 <= j < |order| ==> TakeAlong(slots, order, id, need).slots[order[j]].Empty?
  {
    var i := order[0];
    var take := Min(Qty(slots[i]), need);
    var s1 := slots[i := Lowered(slots[i], id, take)];
    var tail := order[1..];
    var t := TakeAlong(slots, order, id, need);
    assert t.slots == TakeAlong(s1, tail, id, need - take).slots;
    if i !in tail {
      assert t.slots[i] == s1[i] by {
        TakeConserves(s1, tail, id, need - take, id);
      }
    }
    forall k | 1 <= k < |order| ensures t.slots[order[k]].Empty? {
      assert order[k] == tail[k - 1];
    }
  }

  /** The loop works along the order: a slot it changed was reached only after every earlier listed slot was emptied. */
  lemma {:induction false} TakeInOrder(slots: seq<Slot>, order: seq<nat>, id: ItemId, need: int)
    requires Touchable(slots, order, id) && need >= 0
    requires forall j, k :: 0 <= j < k < |order| ==> order[j] != order[k]
    ensures var t := TakeAlong(slots, order, id, need);
      forall j, k :: 0 <= j < k < |order| && t.slots[order[k]] != slots[order[k]] ==> t.slots[order[j]].Empty?
    decreases |order|
  {
    if order != [] && need > 0 {
      var i := order[0];
      var take := Min(Qty(slots[i]), need);
      var s1 := slots[i := Lowered(slots[i], id, take)];
      var tail := order[1..];
      assert Touchable(s1, tail, id) && forall j, k :: 0 <= j < k < |tail| ==> tail[j] != tail[k] by {
        assert forall k :: 0 <= k < |tail| ==> tail[k] == order[k + 1];
      }
      TakeInOrder(s1, tail, id, need - take);
      InOrderCase(slots, order, id, need);
    }
  }

  /** The step of TakeInOrder, given what it says of the rest of the order after the first slot. */
  lemma InOrderCase(slots: seq<Slot>, order: seq<nat>, id: ItemId, need: int)
    requires Touchable(slots, order, id) && need > 0 && order != []
    requires forall j, k :: 0 <= j < k < |order| ==> order[j] != order[k]
    requires var i := order[0]; var take := Min(Qty(slots[i]), need);
      var s1 := slots[i := Lowered(slots[i], id, take)]; var tail := order[1..];
      Touchable(s1, tail, id) &&
      var t1 := TakeAlong(s1, tail, id, need - take);
      forall j, k :: 0 <= j < k < |tail| && t1.slots[tail[k]] != s1[tail[k]] ==> t1.slots[tail[j]].Empty?
    ensures var t := TakeAlong(slots, order, id, need);
      forall j, k :: 0 <= j < k < |order| && t.slots[order[k]] != slots[order[k]] ==> t.slots[order[j]].Empty?
  {
    var i := order[0];
    var take := Min(Qty(slots[i]), need);
    var s1 := slots[i := Lowered(slots[i], id, take)];
    var tail := order[1..];
    var t := TakeAlong(slots, order, id, need);
    assert t.slots[i] == s1[i] by {
      assert i !in tail by {
        forall m | 0 <= m < |tail| ensures tail[m] != i {
          assert tail[m] == order[m + 1];
        }
      }
      TakeConserves(s1, tail, id, need - take, id);
    }
    assert t.slots == s1 || s1[i].Empty? by {
      if need - take <= 0 {
        assert TakeAlong(s1, tail, id, need - take).slots == s1;
      } else {
        assert take == Qty(slots[i]);
      }
    }
    InOrderStep(slots, s1, t.slots, order);
  }

  /** The step of TakeInOrder on the slots alone: s1 changed only the first listed slot, and the final
      slots w either are s1 or follow an emptied first slot. */
  lemma InOrderStep(slots: seq<Slot>, s1: seq<Slot>, w: seq<Slot>, order: seq<nat>)
    requires order != [] && |s1| == |slots| && |w| == |slots|
    requires forall k :: 0 <= k < |order| ==> order[k] < |slots|
    requires forall j, k :: 0 <= j < k < |order| ==> order[j] != order[k]
    requires forall x :: 0 <= x < |slots| && x != order[0] ==> s1[x] == slots[x]
    requires w[order[0]] == s1[order[0]] && (w == s1 || s1[order[0]].Empty?)
    requires var tail := order[1..];
      forall j, k :: 0 <= j < k < |tail| && w[tail[k]] != s1[tail[k]] ==> w[tail[j]].Empty?
    ensures forall j, k :: 0 <= j < k < |order| && w[order[k]] != slots[order[k]] ==> w[order[j]].Empty?
  {
    var tail := order[1..];
    forall j, k | 0 <= j < k < |order| && w[order[k]] != slots[order[k]] ensures w[order[j]].Empty? {
      assert s1[order[k]] == slots[order[k]];
      if j > 0 {
        assert tail[j - 1] == order[j] && tail[k - 1] == order[k];
      }
    }
  }

  // ---------------------------------------------------------------------------
  // The whole removal of a stackable item

  function RemoveStackPlan(slots: seq<Slot>, id: ItemId, need: int): Taken
  {
    RemovalOrderFacts(slots, id);
    TakeAlong(slots, RemovalOrder(slots, id), id, need)
  }

  lemma RemovalOrderInRange(slots: seq<Slot>, id: ItemId)
    ensures InRange(slots, RemovalOrder(slots, id))
  {
    RemovalOrderFacts(slots, id);
  }

  lemma OrderTouchable(slots: seq<Slot>, id: ItemId)
    ensures Touchable(slots, RemovalOrder(slots, id), id)
    ensures forall j, k :: 0 <= j < k < |RemovalOrder(slots, id)| ==> RemovalOrder(slots, id)[j] != RemovalOrder(slots, id)[k]
  {
    RemovalOrderFacts(slots, id);
  }

  /** Removing at most what is held succeeds: exactly `need` units of `id` leave, the takes sum to
      `need`, no other item changes and only slots holding `id` are touched. */
  lemma RemovePlanExact(slots: seq<Slot>, id: ItemId, need: int, j: ItemId)
    requires 0 < need <= Count(slots, id)
    ensures var t := RemoveStackPlan(slots, id, need);
      t.left == 0 && Sum(t.takes) == need && |t.slots| == |slots| &&
      Count(t.slots, j) == Count(slots, j) - (if j == id then need else 0) &&
      (forall i :: 0 <= i < |slots| && !Holds(slots[i], id) ==> t.slots[i] == slots[i])
  {
    RemovalOrderFacts(slots, id);
    OrderTouchable(slots, id);
    var order := RemovalOrder(slots, id);
    TakeConserves(slots, order, id, need, j);
    TakeConserves(slots, order, id, need, id);
    var t := TakeAlong(slots, order, id, need);
    if t.left > 0 {
      ExhaustedHoldsNone(slots, id, need);
    }
    assert forall x :: x in order ==> Holds(slots[x], id);
  }

  lemma ExhaustedHoldsNone(slots: seq<Slot>, id: ItemId, need: int)
    requires need >= 0 && RemoveStackPlan(slots, id, need).left > 0
    ensures Count(RemoveStackPlan(slots, id, need).slots, id) == 0
  {
    RemovalOrderFacts(slots, id);
    OrderTouchable(slots, id);
    var order := RemovalOrder(slots, id);
    TakeConserves(slots, order, id, need, id);
    TakeExhausts(slots, order, id, need);
    var t := TakeAlong(slots, order, id, need);
    forall i | 0 <= i < |t.slots| ensures !Holds(t.slots[i], id) {
      if i in order {
        var k :| 0 <= k < |order| && order[k] == i;
      }
    }
    CountZero(t.slots, id);
  }

  /** Asking for more than is held leaves exactly the shortfall unmet and every slot of `id` emptied. */
  lemma RemovePlanShort(slots: seq<Slot>, id: ItemId, need: int)
    requires need > Count(slots, id)
    ensures var t := RemoveStackPlan(slots, id, need);
      t.left == need - Count(slots, id) && Count(t.slots, id) == 0
  {
    OrderTouchable(slots, id);
    TakeConserves(slots, RemovalOrder(slots, id), id, need, id);
    ExhaustedHoldsNone(slots, id, need);
  }

  /** Smallest first: when a slot holding `id` was changed, every slot holding fewer units
      (or as many in a lower slot) was emptied. */
  lemma RemovePlanSmallestFirst(slots: seq<Slot>, id: ItemId, need: int)
    requires need >= 0
    ensures var t := RemoveStackPlan(slots, id, need);
      |t.slots| == |slots| &&
      forall p, i ::
        (0 <= p < |slots| && 0 <= i < |slots| && Holds(slots[p], id) && Holds(slots[i], id) &&
         Before(slots, p, i) && t.slots[i] != slots[i]) ==> t.slots[p].Empty?
  {
    RemovalOrderFacts(slots, id);
    OrderTouchable(slots, id);
    var order := RemovalOrder(slots, id);
    TakeConserves(slots, order, id, need, id);
    TakeInOrder(slots, order, id, need);
    var t := TakeAlong(slots, order, id, need);
    forall p, i | 0 <= p < |slots| && 0 <= i < |slots| && Holds(slots[p], id) && Holds(slots[i], id) &&
      Before(slots, p, i) && t.slots[i] != slots[i]
      ensures t.slots[p].Empty?
    {
      var a :| 0 <= a < |order| && order[a] == p;
      var b :| 0 <= b < |order| && order[b] == i;
      assert a != b;
      assert b < a ==> Before(slots, i, p);
    }
  }
}
