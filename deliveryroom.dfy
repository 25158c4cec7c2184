/** Room for escrow rows. deliverEscrowTo and the rollback place escrow rows one at a time and keep
    whatever they wrote when a row does not fit, so what matters is when every row fits. This module
    shows that the dry-run capacity check canReceiveAll is exactly the condition for a delivery to go
    through, and that the rollback of a lock that has just failed always finds room: the lock itself
    just freed that room. */
module DeliveryRoom {
  import opened Slots
  import opened Stacking
  import opened Removal
  import opened Capacity
  import opened MetroInventories
  import opened MetroTrades

  /** Rows carrying a unique unit, one empty slot each. */
  function UniqueRows(es: seq<Escrow>): nat
  {
    if es == [] then 0 else (if es[0].instance.Some? then 1 else 0) + UniqueRows(es[1..])
  }

  /** One line per listed item, holding the units the rows carry of it. */
  function UnitLines(items: seq<ItemId>, es: seq<Escrow>): (r: seq<Line>)
    ensures |r| == |items| && forall k :: 0 <= k < |items| ==> r[k] == Line(items[k], RowsUnits(es, items[k]))
  {
    seq(|items|, k requires 0 <= k < |items| => Line(items[k], RowsUnits(es, items[k])))
  }

  /** The items of a list of lines, in order. */
  function LineItems(lines: seq<Line>): (r: seq<ItemId>)
    ensures |r| == |lines| && forall k :: 0 <= k < |lines| ==> r[k] == lines[k].item
  {
    seq(|lines|, k requires 0 <= k < |lines| => lines[k].item)
  }

  /** `items` lists stackable items, each once, among them the item of every stack part in es. */
  predicate Covers(items: seq<ItemId>, es: seq<Escrow>, cat: Catalog)
  {
    (forall k :: 0 <= k < |items| ==> items[k] in cat && cat[items[k]] > 1) &&
    (forall j, k :: 0 <= j < k < |items| ==> items[j] != items[k]) &&
    (forall k :: 0 <= k < |es| && es[k].instance.None? ==> es[k].item in items)
  }

  /** Slots v have room for the rows es: one empty slot per unique unit, plus the empty slots each
      listed stackable item needs beyond the room in its own partial stacks. */
  predicate Room(v: seq<Slot>, cat: Catalog, items: seq<ItemId>, es: seq<Escrow>)
    requires forall k :: 0 <= k < |items| ==> items[k] in cat
  {
    UniqueRows(es) + Demand(v, UnitLines(items, es), cat) <= FreeCount(v)
  }

  // ---------------------------------------------------------------------------
  // Row lists

  lemma ShapedTail(es: seq<Escrow>, cat: Catalog)
    requires AllShaped(es, cat) && es != []
    ensures AllShaped(es[1..], cat) && RowShaped(es[0], cat)
  {
    assert forall k :: 0 <= k < |es| - 1 ==> es[1..][k] == es[k + 1];
  }

  lemma {:induction false} UniqueRowsAppend(a: seq<Escrow>, b: seq<Escrow>)
    ensures UniqueRows(a + b) == UniqueRows(a) + UniqueRows(b)
  {
    if a != [] {
      assert (a + b)[1..] == a[1..] + b;
      UniqueRowsAppend(a[1..], b);
    } else {
      assert a + b == b;
    }
  }

  /** Well-formed rows carry at least the units of any one of them. */
  lemma {:induction false} RowsUnitsAtLeast(es: seq<Escrow>, cat: Catalog, k: nat, j: ItemId)
    requires AllShaped(es, cat) && k <= |es|
    ensures RowsUnits(es, j) >= (if k < |es| && es[k].item == j then RowUnits(es[k]) else 0)
    ensures RowsUnits(es, j) >= 0
  {
    if es != [] {
      ShapedTail(es, cat);
      if k == 0 {
        RowsUnitsAtLeast(es[1..], cat, 0, j);
      } else {
        RowsUnitsAtLeast(es[1..], cat, k - 1, j);
      }
    }
  }

  /** The aggregation of well-formed rows (as the delivery builds it): known, distinct, positive lines, each
      item's total the units the rows carry of it, and the unique units the number of unique rows. */
  lemma {:induction false} IncomingFacts(es: seq<Escrow>, cat: Catalog)
    requires AllShaped(es, cat)
    ensures AllKnown(Incoming(es), cat) && Positive(Incoming(es)) && Capacity.DistinctItems(Incoming(es))
    ensures forall j :: QtyOf(Incoming(es), j) == RowsUnits(es, j)
    ensures UniqueUnits(Incoming(es), cat) == UniqueRows(es)
  {
    if es != [] {
      var pre := es[..|es| - 1];
      var last := es[|es| - 1];
      assert es == pre + [last];
      assert AllShaped(pre, cat) && RowShaped(last, cat) by {
        forall k | 0 <= k < |pre| ensures RowShaped(pre[k], cat) { assert pre[k] == es[k]; }
      }
      IncomingFacts(pre, cat);
      assert Incoming(es) == AddTo(Incoming(pre), last.item, RowUnits(last));
      AddRowFacts(Incoming(pre), pre, last, cat);
    }
  }

  /** The step of IncomingFacts: the lines s aggregated from rows `pre`, with one more well-formed row added. */
  lemma AddRowFacts(s: seq<Line>, pre: seq<Escrow>, last: Escrow, cat: Catalog)
    requires RowShaped(last, cat)
    requires AllKnown(s, cat) && Positive(s) && Capacity.DistinctItems(s)
    requires forall j :: QtyOf(s, j) == RowsUnits(pre, j)
    requires UniqueUnits(s, cat) == UniqueRows(pre)
    ensures var r := AddTo(s, last.item, RowUnits(last));
      AllKnown(r, cat) && Positive(r) && Capacity.DistinctItems(r) && UniqueUnits(r, cat) == UniqueRows(pre + [last])
    ensures forall j :: QtyOf(AddTo(s, last.item, RowUnits(last)), j) == RowsUnits(pre + [last], j)
  {
    var r := AddTo(s, last.item, RowUnits(last));
    assert NonNegative(s);
    AddToUnique(s, last.item, RowUnits(last), cat);
    AddToKeeps(s, last.item, RowUnits(last));
    assert UniqueUnits(r, cat) == UniqueRows(pre + [last]) by {
      UniqueRowsAppend(pre, [last]);
      assert [last][1..] == [];
      assert UniqueRows([last]) == (if cat[last.item] == 1 then RowUnits(last) else 0);
    }
    forall j ensures QtyOf(r, j) == RowsUnits(pre + [last], j) {
      AddToQty(s, last.item, RowUnits(last), j);
      RowsUnitsAppend(pre, [last], j);
    }
  }

  // ---------------------------------------------------------------------------
  // Placing rows where there is room

  /** The first empty slot exists wherever some slot is empty. */
  lemma {:induction false} FreeFound(v: seq<Slot>)
    requires FreeCount(v) > 0
    ensures FirstFree(v).Some?
  {
    if FirstFree(v).None? {
      FreeCountSame(v, seq(|v|, i => Stack("", 1)));
      FreeNone(seq(|v|, i => Stack("", 1)));
    }
  }

  lemma {:induction false} FreeNone(v: seq<Slot>)
    requires forall i :: 0 <= i < |v| ==> !v[i].Empty?
    ensures FreeCount(v) == 0
  {
    if v != [] {
      assert forall i :: 0 <= i < |v| - 1 ==> v[1..][i] == v[i + 1];
      FreeNone(v[1..]);
    }
  }

  /** Placing one unique row in the first free slot uses one empty slot and no partial-stack room. */
  lemma PutUniqueRoom(rows: Rows, cat: Catalog, next: InstanceId, o: Owner, es: seq<Escrow>, items: seq<ItemId>)
    requires WellKeyed(rows, SlotsTotal) && RowsConform(rows, cat) && AllShaped(es, cat) && Covers(items, es, cat)
    requires es != [] && es[0].instance.Some?
    requires Room(View(Prepared(rows, o), o, SlotsTotal), cat, items, es)
    ensures var d := PutRow(rows, cat, next, o, es[0]);
      d.ok && WellKeyed(d.rows, SlotsTotal) && RowsConform(d.rows, cat) &&
      Room(View(Prepared(d.rows, o), o, SlotsTotal), cat, items, es[1..])
  {
    var e := es[0];
    ShapedTail(es, cat);
    var p := Prepared(rows, o);
    var v := View(p, o, SlotsTotal);
    FreeFound(v);
    var i := FirstFree(v).value;
    var x := Unique(e.item, e.instance.value, e.durability, e.durabilityMax);
    var d := PutRow(rows, cat, next, o, e);
    PutRowMeaning(rows, cat, next, o, e, e.item);
    assert d.rows == p[SlotKey(o, i + 1) := x];
    ViewWrite(p, o, SlotsTotal, i + 1, x);
    ProvisionNoop(d.rows, o, SlotsTotal);
    var v1 := View(d.rows, o, SlotsTotal);
    assert v1 == v[i := x];
    UniqueInRoom(v, cat, items, es, i, x);
  }

  /** On the slots alone: a unique unit written into an empty slot leaves room for the rows after its own. */
  lemma UniqueInRoom(v: seq<Slot>, cat: Catalog, items: seq<ItemId>, es: seq<Escrow>, i: nat, x: Slot)
    requires AllShaped(es, cat) && Covers(items, es, cat) && es != [] && es[0].instance.Some?
    requires i < |v| && v[i].Empty? && x.Unique? && x.item == es[0].item
    requires Room(v, cat, items, es)
    ensures Room(v[i := x], cat, items, es[1..])
  {
    var e := es[0];
    var tail := es[1..];
    var v1 := v[i := x];
    var L := UnitLines(items, es);
    ShapedTail(es, cat);
    FreeCountUpdate(v, i, x);
    assert UnitLines(items, tail) == L by {
      forall k | 0 <= k < |items| ensures RowsUnits(tail, items[k]) == RowsUnits(es, items[k]) {
        assert items[k] != e.item;
      }
    }
    forall k | 0 <= k < |L| ensures PartialRoom(v, L[k].item, cat[L[k].item]) == PartialRoom(v1, L[k].item, cat[L[k].item]) {
      PartialRoomUpdate(v, i, x, L[k].item, cat[L[k].item]);
    }
    DemandSameRoom(v, v1, L, cat);
  }

  /** On the slots alone: q units of a stackable item, part of the Q units its line asks for, fit with the
      add plan, and the empty slots the plan uses are exactly what the demand falls by once the line asks
      for Q - q. */
  lemma StackStepRoom(v: seq<Slot>, cat: Catalog, L: seq<Line>, pi: nat, id: ItemId, q: int, Q: int, U: nat)
    requires AllKnown(L, cat) && pi < |L| && L[pi] == Line(id, Q) && cat[id] > 1 && 1 <= q <= Q
    requires forall k :: 0 <= k < |L| && k != pi ==> L[k].item != id
    requires U + Demand(v, L, cat) <= FreeCount(v)
    ensures var plan := AddStackPlan(v, id, cat[id], q);
      q <= PartialRoom(v, id, cat[id]) + cat[id] * FreeCount(v) && plan.1 == 0 &&
      AllKnown(L[pi := Line(id, Q - q)], cat) &&
      U + Demand(plan.0, L[pi := Line(id, Q - q)], cat) <= FreeCount(plan.0)
  {
    var m := cat[id];
    var R := PartialRoom(v, id, m);
    var F := FreeCount(v);
    DemandAtLeast(v, L, pi, cat);
    NeededMono(Max(0, q - R), Max(0, Q - R), m);
    NeededFits(Max(0, q - R), m, F);
    var plan := AddStackPlan(v, id, m, q);
    AddPlanRoom(v, id, m, q);
    var v1 := plan.0;
    var u := Needed(Max(0, q - R), m);
    AddPlanFree(v, id, m, q);
    var R1 := PartialRoom(v1, id, m);
    StackStepSpace(v, id, m, q);
    NeededLess(Q - R, m, u);
    var l := Line(id, Q - q);
    assert Term(v1, l, cat) == Term(v, L[pi], cat) - u;
    forall k | 0 <= k < |L| && k != pi
      ensures PartialRoom(v, L[k].item, cat[L[k].item]) == PartialRoom(v1, L[k].item, cat[L[k].item])
    {
      AddPlanOthers(v, id, m, q, L[k].item, cat[L[k].item]);
    }
    DemandUpdate(v, v1, L, pi, l, cat);
  }

  /** A successful add of q units raises the room left in the item's partial stacks by `max` per empty
      slot it used, less the q units placed. */
  lemma StackStepSpace(v: seq<Slot>, id: ItemId, m: StackMax, q: int)
    requires q > 0 && AddStackPlan(v, id, m, q).1 == 0
    ensures PartialRoom(AddStackPlan(v, id, m, q).0, id, m) ==
      PartialRoom(v, id, m) + m * Needed(Max(0, q - PartialRoom(v, id, m)), m) - q
  {
    var v1 := AddStackPlan(v, id, m, q).0;
    var u := Needed(Max(0, q - PartialRoom(v, id, m)), m);
    AddPlanFree(v, id, m, q);
    AddPlanShape(v, id, m, q);
    SpaceKept(v, v1, id, m);
    AddPlanCount(v, id, m, q, id);
    SpaceArith(PartialRoom(v, id, m), PartialRoom(v1, id, m), FreeCount(v), FreeCount(v1), Count(v, id), Count(v1, id), m, u, q);
  }

  lemma SpaceArith(r: int, r1: int, f: int, f1: int, c: int, c1: int, m: int, u: int, q: int)
    requires r1 + m * f1 + c1 == r + m * f + c && f1 == f - u && c1 == c + q
    ensures r1 == r + m * u - q
  {
    assert m * f1 == m * f - m * u;
  }

  /** Placing one stack part: the add has room for it, and what it uses of the free slots is exactly what
      the demand of its item falls by. */
  lemma PutStackRoom(rows: Rows, cat: Catalog, next: InstanceId, o: Owner, es: seq<Escrow>, items: seq<ItemId>)
    requires WellKeyed(rows, SlotsTotal) && RowsConform(rows, cat) && AllShaped(es, cat) && Covers(items, es, cat)
    requires es != [] && es[0].instance.None?
    requires Room(View(Prepared(rows, o), o, SlotsTotal), cat, items, es)
    ensures var d := PutRow(rows, cat, next, o, es[0]);
      d.ok && WellKeyed(d.rows, SlotsTotal) && RowsConform(d.rows, cat) &&
      Room(View(Prepared(d.rows, o), o, SlotsTotal), cat, items, es[1..])
  {
    var e := es[0];
    var v := View(Prepared(rows, o), o, SlotsTotal);
    StackPartRoom(v, cat, items, es);
    PutStack(rows, cat, next, o, e);
  }

  /** The slot-level half of placing one stack part: the add plan has room for it, and leaves room for the
      remaining rows. */
  lemma StackPartRoom(v: seq<Slot>, cat: Catalog, items: seq<ItemId>, es: seq<Escrow>)
    requires AllShaped(es, cat) && Covers(items, es, cat) && es != [] && es[0].instance.None?
    requires Room(v, cat, items, es)
    ensures var e := es[0];
      e.item in cat && RowShaped(e, cat) &&
      e.quantity <= PartialRoom(v, e.item, cat[e.item]) + cat[e.item] * FreeCount(v) &&
      Covers(items, es[1..], cat) && Room(AddStackPlan(v, e.item, cat[e.item], e.quantity).0, cat, items, es[1..])
  {
    var e := es[0];
    var id := e.item;
    ShapedTail(es, cat);
    assert Covers(items, es[1..], cat) by {
      forall k | 0 <= k < |es| - 1 ensures es[1..][k] == es[k + 1] { }
    }
    var pi :| 0 <= pi < |items| && items[pi] == id;
    PartStepRoom(v, cat, items, es, pi);
  }

  /** StackPartRoom with the position of the part's item among the listed items named. */
  lemma PartStepRoom(v: seq<Slot>, cat: Catalog, items: seq<ItemId>, es: seq<Escrow>, pi: nat)
    requires AllShaped(es, cat) && Covers(items, es, cat) && es != [] && es[0].instance.None?
    requires Room(v, cat, items, es) && RowShaped(es[0], cat) && AllShaped(es[1..], cat)
    requires pi < |items| && items[pi] == es[0].item
    ensures var e := es[0];
      e.quantity <= PartialRoom(v, e.item, cat[e.item]) + cat[e.item] * FreeCount(v) &&
      Room(AddStackPlan(v, e.item, cat[e.item], e.quantity).0, cat, items, es[1..])
  {
    var e := es[0];
    var id := e.item;
    RowsUnitsAtLeast(es[1..], cat, 0, id);
    var Q := RowsUnits(es, id);
    var U := UniqueRows(es);
    StackStepRoom(v, cat, UnitLines(items, es), pi, id, e.quantity, Q, U);
    UnitLinesStep(items, es, pi);
    assert UniqueRows(es[1..]) == U;
  }

  /** A stack part for which there is room is placed by the add plan. */
  lemma PutStack(rows: Rows, cat: Catalog, next: InstanceId, o: Owner, e: Escrow)
    requires WellKeyed(rows, SlotsTotal) && RowsConform(rows, cat) && RowShaped(e, cat) && e.instance.None?
    requires var v := View(Prepared(rows, o), o, SlotsTotal);
      e.quantity <= PartialRoom(v, e.item, cat[e.item]) + cat[e.item] * FreeCount(v)
    ensures var d := PutRow(rows, cat, next, o, e);
      d.ok && WellKeyed(d.rows, SlotsTotal) && RowsConform(d.rows, cat) &&
      View(Prepared(d.rows, o), o, SlotsTotal) == AddStackPlan(View(Prepared(rows, o), o, SlotsTotal), e.item, cat[e.item], e.quantity).0
  {
    var p := Prepared(rows, o);
    var v := View(p, o, SlotsTotal);
    var d := PutRow(rows, cat, next, o, e);
    PutRowMeaning(rows, cat, next, o, e, e.item);
    TradeAddMeaning(rows, cat, o, e.item, e.quantity, next, e.item);
    var plan := AddStackPlan(v, e.item, cat[e.item], e.quantity);
    AddPlanRoom(v, e.item, cat[e.item], e.quantity);
    assert d.ok && d.rows == WriteBack(p, o, plan.0);
    ProvisionNoop(d.rows, o, SlotsTotal);
  }

  /** Once the first row (a stack part of items[pi]) is placed, the remaining rows ask for its units less
      that part, and the same of every other item. */
  lemma UnitLinesStep(items: seq<ItemId>, es: seq<Escrow>, pi: nat)
    requires es != [] && es[0].instance.None? && pi < |items| && items[pi] == es[0].item
    requires forall j, k :: 0 <= j < k < |items| ==> items[j] != items[k]
    ensures UnitLines(items, es[1..]) == UnitLines(items, es)[pi := Line(es[0].item, RowsUnits(es, es[0].item) - es[0].quantity)]
  {
    forall k | 0 <= k < |items| && k != pi ensures RowsUnits(es[1..], items[k]) == RowsUnits(es, items[k]) {
      assert items[k] != items[pi];
    }
  }

  /** Rows for which the receiver has room are all placed: the insert loop never stops part-way. */
  lemma {:induction false} PutAllRoom(rows: Rows, cat: Catalog, next: InstanceId, o: Owner, es: seq<Escrow>, items: seq<ItemId>)
    requires WellKeyed(rows, SlotsTotal) && RowsConform(rows, cat) && AllShaped(es, cat) && Covers(items, es, cat)
    requires Room(View(Prepared(rows, o), o, SlotsTotal), cat, items, es)
    ensures PutAll(rows, cat, next, o, es).ok
    decreases |es|
  {
    if es != [] {
      ShapedTail(es, cat);
      var d := PutRow(rows, cat, next, o, es[0]);
      if es[0].instance.Some? {
        PutUniqueRoom(rows, cat, next, o, es, items);
      } else {
        PutStackRoom(rows, cat, next, o, es, items);
      }
      assert Covers(items, es[1..], cat) by {
        forall k | 0 <= k < |es| - 1 ensures es[1..][k] == es[k + 1] { }
      }
      PutAllRoom(d.rows, cat, d.next, o, es[1..], items);
    }
  }

  /** The capacity check passes exactly when the rows fit, in the sense of Room, over the stackable items
      the rows carry. */
  lemma FitsRoom(rows: Rows, cat: Catalog, o: Owner, es: seq<Escrow>) returns (items: seq<ItemId>)
    requires AllShaped(es, cat) && Fits(rows, cat, o, es)
    ensures Covers(items, es, cat) && Room(View(Prepared(rows, o), o, SlotsTotal), cat, items, es)
  {
    IncomingFacts(es, cat);
    var lines := Incoming(es);
    var v := View(Prepared(rows, o), o, SlotsTotal);
    CanReceiveIff(v, lines, cat);
    AggregateKnown(lines, cat);
    AggregateDistinct(lines, cat);
    AggregateStackable(lines, cat);
    var a := Aggregate(lines, cat);
    items := LineItems(a);
    assert a == UnitLines(items, es) by {
      forall k | 0 <= k < |a| ensures a[k].quantity == RowsUnits(es, a[k].item) {
        QtyOfDistinct(a, k);
        AggregateQty(lines, cat, a[k].item);
      }
    }
    forall k | 0 <= k < |es| && es[k].instance.None? ensures es[k].item in items {
      var j := es[k].item;
      RowsUnitsAtLeast(es, cat, k, j);
      AggregateQty(lines, cat, j);
      if forall x :: 0 <= x < |a| ==> a[x].item != j {
        QtyOfAbsent(a, j);
      }
    }
  }

  /** A delivery of well-formed rows goes through exactly when the capacity check accepts it: the insert
      loop never stops part-way after the check has passed. */
  lemma DeliverFits(rows: Rows, cat: Catalog, next: InstanceId, o: Owner, es: seq<Escrow>)
    requires WellKeyed(rows, SlotsTotal) && RowsConform(rows, cat) && AllShaped(es, cat)
    ensures Deliver(rows, cat, next, o, es).ok <==> Fits(rows, cat, o, es)
  {
    if Fits(rows, cat, o, es) {
      var items := FitsRoom(rows, cat, o, es);
      var pre := Prepared(rows, o);
      ProvisionKeeps(rows, o, SlotsTotal);
      ProvisionIdempotent(rows, o, SlotsTotal);
      assert RowsConform(pre, cat);
      PutAllRoom(pre, cat, next, o, es, items);
    }
  }

  /** ensureSlots gives an owner the same slots in two tables where the owner's slots are the same. */
  lemma PreparedSame(r1: Rows, r2: Rows, o: Owner)
    requires WellKeyed(r1, SlotsTotal) && WellKeyed(r2, SlotsTotal)
    requires Snapshot(r1, o, SlotsTotal) == Snapshot(r2, o, SlotsTotal)
    ensures View(Prepared(r1, o), o, SlotsTotal) == View(Prepared(r2, o), o, SlotsTotal)
  {
    if Provisioned(r1, o, SlotsTotal) {
      assert |Snapshot(r2, o, SlotsTotal)| == SlotsTotal;
      ProvisionNoop(r1, o, SlotsTotal);
      ProvisionNoop(r2, o, SlotsTotal);
    } else {
      assert !Provisioned(r2, o, SlotsTotal);
      forall i | 0 <= i < SlotsTotal
        ensures View(Prepared(r1, o), o, SlotsTotal)[i] == Empty == View(Prepared(r2, o), o, SlotsTotal)[i]
      {
        assert SlotKey(o, i + 1) !in r1 && SlotKey(o, i + 1) !in r2;
      }
    }
  }

  /** The two deliveries of finalize: each goes through exactly when its receiver has room on the table
      before either delivery, since the first delivery changes no slot of the second receiver. */
  lemma DeliveriesFit(rows: Rows, cat: Catalog, next: InstanceId, g: string, a: UserId, b: UserId, es: seq<Escrow>)
    requires WellKeyed(rows, SlotsTotal) && RowsConform(rows, cat) && AllShaped(es, cat) && a != b
    ensures var dA := Deliver(rows, cat, next, Owner(g, a), FromUser(es, b));
      var dB := Deliver(dA.rows, cat, dA.next, Owner(g, b), FromUser(es, a));
      (dA.ok <==> Fits(rows, cat, Owner(g, a), FromUser(es, b))) &&
      (dB.ok <==> Fits(rows, cat, Owner(g, b), FromUser(es, a)))
  {
    var esA := FromUser(es, a);
    var esB := FromUser(es, b);
    ShapedSubset(esA, es, cat);
    ShapedSubset(esB, es, cat);
    var dA := Deliver(rows, cat, next, Owner(g, a), esB);
    DeliverMeaning(rows, cat, next, Owner(g, a), esB, "");
    DeliverFits(rows, cat, next, Owner(g, a), esB);
    DeliverFits(dA.rows, cat, dA.next, Owner(g, b), esA);
    PreparedSame(dA.rows, rows, Owner(g, b));
  }

  /** Finalize, as written or as intended, swaps the escrow exactly when each party has room, on the table
      before either delivery, for what the other party escrowed. */
  lemma FinalizeFits(rows: Rows, cat: Catalog, next: InstanceId, g: string, sid: SessionId,
                     a: UserId, b: UserId, escrow: seq<Escrow>)
    requires WellKeyed(rows, SlotsTotal) && RowsConform(rows, cat) && AllShaped(escrow, cat) && a != b
    ensures var es := OfSession(escrow, sid);
      var fits := Fits(rows, cat, Owner(g, a), FromUser(es, b)) && Fits(rows, cat, Owner(g, b), FromUser(es, a));
      (Finalize(rows, cat, next, g, sid, a, b, escrow).status == Finalized <==> fits) &&
      (FinalizeAsWritten(rows, cat, next, g, sid, a, b, escrow).status == Finalized <==> fits)
  {
    var es := OfSession(escrow, sid);
    ShapedSubset(es, escrow, cat);
    DeliveriesFit(rows, cat, next, g, a, b, es);
  }

  // ---------------------------------------------------------------------------
  // The room a lock frees, and the rollback that uses it

  lemma {:induction false} UniqueRowsCount(es: seq<Escrow>)
    ensures (forall k :: 0 <= k < |es| ==> es[k].instance.Some?) ==> UniqueRows(es) == |es|
    ensures (forall k :: 0 <= k < |es| ==> es[k].instance.None?) ==> UniqueRows(es) == 0
  {
    if es != [] {
      assert forall k :: 0 <= k < |es| - 1 ==> es[1..][k] == es[k + 1];
      UniqueRowsCount(es[1..]);
    }
  }

  lemma {:induction false} OfferTotalAbsent(offs: seq<Offer>, j: ItemId)
    requires forall k :: 0 <= k < |offs| ==> offs[k].item != j
    ensures OfferTotal(offs, j) == 0
  {
    if offs != [] {
      assert forall k :: 0 <= k < |offs| - 1 ==> offs[1..][k] == offs[k + 1];
      OfferTotalAbsent(offs[1..], j);
    }
  }

  /** Clearing k of the slots holding an item empties exactly k slots, and touches no other slot. */
  lemma {:induction false} ClearFirstFrees(s: seq<Slot>, id: ItemId, k: int)
    requires 0 <= k <= HoldCount(s, id)
    ensures var r := ClearFirst(s, id, k);
      FreeCount(r) == FreeCount(s) + k &&
      forall i :: 0 <= i < |s| ==> r[i] == s[i] || (Holds(s[i], id) && r[i].Empty?)
  {
    if s != [] {
      var r := ClearFirst(s, id, k);
      if k > 0 && Holds(s[0], id) {
        ClearFirstFrees(s[1..], id, k - 1);
        assert r[1..] == ClearFirst(s[1..], id, k - 1);
      } else {
        ClearFirstFrees(s[1..], id, k);
        assert r[1..] == ClearFirst(s[1..], id, k);
      }
      assert forall i :: 1 <= i < |s| ==> r[i] == r[1..][i - 1] && s[i] == s[1..][i - 1];
    }
  }

  /** Taking q units of a stackable item smallest stack first changes only stacks of it, each into a smaller
      stack or an empty slot; read backwards, every changed slot is one the add plan raises or fills. */
  lemma RemoveShape(v: seq<Slot>, cat: Catalog, id: ItemId, q: int)
    requires Conforms(v, cat) && id in cat && cat[id] > 1 && 0 < q <= Count(v, id)
    ensures var w := RemoveStackPlan(v, id, q).slots;
      |w| == |v| &&
      (forall i :: 0 <= i < |v| ==> w[i] == v[i] || (Holds(v[i], id) && (w[i].Empty? || Holds(w[i], id)))) &&
      (forall i :: 0 <= i < |v| ==> v[i] == w[i] || Raised(w[i], v[i], id, cat[id]) || Filled(w[i], v[i], id, cat[id])) &&
      (forall i :: 0 <= i < |v| && v[i].Empty? ==> w[i].Empty?)
  {
    RemovePlanExact(v, id, q, id);
    OrderTouchable(v, id);
    TakeConserves(v, RemovalOrder(v, id), id, q, id);
    var w := RemoveStackPlan(v, id, q).slots;
    forall i | 0 <= i < |v| && w[i] != v[i]
      ensures Holds(v[i], id) && (w[i].Empty? || Holds(w[i], id)) &&
        (Raised(w[i], v[i], id, cat[id]) || Filled(w[i], v[i], id, cat[id]))
    {
      assert SlotConforms(v[i], cat);
    }
  }

  /** The room left in a stackable item's partial stacks after q of its units were taken, together with
      the slots the taking emptied, holds those q units again. */
  lemma TakenRoom(v: seq<Slot>, cat: Catalog, id: ItemId, q: int)
    requires Conforms(v, cat) && id in cat && cat[id] > 1 && 0 < q <= Count(v, id)
    ensures var w := RemoveStackPlan(v, id, q).slots;
      FreeCount(v) <= FreeCount(w) &&
      Needed(Max(0, q - PartialRoom(w, id, cat[id])), cat[id]) <= FreeCount(w) - FreeCount(v)
  {
    var m := cat[id];
    var w := RemoveStackPlan(v, id, q).slots;
    RemoveShape(v, cat, id, q);
    RemovePlanExact(v, id, q, id);
    FreeCountMore(v, w);
    SpaceKept(w, v, id, m);
    TakenArith(PartialRoom(v, id, m), PartialRoom(w, id, m), FreeCount(v), FreeCount(w), Count(v, id), Count(w, id), m, q);
  }

  lemma TakenArith(r: int, r1: int, f: int, f1: int, c: int, c1: int, m: StackMax, q: int)
    requires r1 + m * f1 + c1 == r + m * f + c && c1 == c - q && f <= f1 && r >= 0
    ensures Needed(Max(0, q - r1), m) <= f1 - f
  {
    assert m * (f1 - f) == m * f1 - m * f;
    assert m * (f1 - f) >= 0;
    NeededFits(Max(0, q - r1), m, f1 - f);
  }

  /** One lock step on a covered offer: a unique offer empties one slot per unit it writes as a unique row;
      a stackable offer writes stack parts and leaves, in partial stacks and emptied slots, room for its
      units. Its rows are all of the offered item, and no other item's partial-stack room changes. */
  lemma StepRoom(v: seq<Slot>, cat: Catalog, sid: SessionId, u: UserId, x: Offer)
    requires Conforms(v, cat) && x.item in cat && x.quantity > 0 && Covered(v, cat, x)
    ensures var m := EscrowStep(v, cat, sid, u, x); var id := x.item;
      FreeCount(v) <= FreeCount(m.slots) &&
      (forall k :: 0 <= k < |m.rows| ==> m.rows[k].item == id) &&
      (forall y, max :: y != id ==> PartialRoom(m.slots, y, max) == PartialRoom(v, y, max)) &&
      (cat[id] == 1 ==> FreeCount(m.slots) == FreeCount(v) + x.quantity && UniqueRows(m.rows) == x.quantity) &&
      (cat[id] > 1 ==>
        UniqueRows(m.rows) == 0 &&
        Needed(Max(0, x.quantity - PartialRoom(m.slots, id, cat[id])), cat[id]) <= FreeCount(m.slots) - FreeCount(v))
  {
    var id := x.item;
    var q := x.quantity;
    var m := EscrowStep(v, cat, sid, u, x);
    if cat[id] == 1 {
      ConformsAllUnique(v, cat, id);
      TakeInstancesClears(v, sid, u, id, q);
      ClearedRows(v, sid, u, id, q, id);
      UniqueRowsCount(m.rows);
      ClearFirstFrees(v, id, q);
      forall y, max | y != id ensures PartialRoom(m.slots, y, max) == PartialRoom(v, y, max) {
        PartialRoomOthers(v, m.slots, id, y, max);
      }
    } else {
      UniqueRowsCount(m.rows);
      RemoveShape(v, cat, id, q);
      TakenRoom(v, cat, id, q);
      forall y, max | y != id ensures PartialRoom(m.slots, y, max) == PartialRoom(v, y, max) {
        PartialRoomOthers(v, m.slots, id, y, max);
      }
    }
  }

  /** The lock steps for offers of other items leave an item's partial-stack room as it was. */
  lemma {:induction false} Phase2Keeps(v: seq<Slot>, cat: Catalog, sid: SessionId, u: UserId, offs: seq<Offer>,
                                       y: ItemId, max: int)
    requires Conforms(v, cat) && Precheck(v, cat, offs).Ok? && MetroTrades.DistinctItems(offs) && OffersPositive(offs)
    requires forall k :: 0 <= k < |offs| ==> offs[k].item != y
    ensures KnownOffers(offs, cat)
    ensures PartialRoom(Phase2(v, cat, sid, u, offs).slots, y, max) == PartialRoom(v, y, max)
    decreases |offs|
  {
    if offs != [] {
      var x := offs[0];
      var tail := offs[1..];
      assert forall k :: 0 <= k < |tail| ==> tail[k] == offs[k + 1];
      var m := EscrowStep(v, cat, sid, u, x);
      EscrowStepMeaning(v, cat, sid, u, x, y);
      StepRoom(v, cat, sid, u, x);
      StepKeepsCover(v, cat, sid, u, x, tail);
      Phase2Keeps(m.slots, cat, sid, u, tail, y, max);
    }
  }

  /** Rows of one unique item, one per slot the step emptied, put in front of rows that fit: together
      they fit in what is left after the step. */
  lemma RoomConsUnique(v: seq<Slot>, w1: seq<Slot>, w: seq<Slot>, cat: Catalog, r1: seq<Escrow>, r2: seq<Escrow>,
                       more: seq<ItemId>, id: ItemId, q: int)
    requires Covers(more, r2, cat) && id !in more && StepShaped(v, w1, r1, cat, id, q) && cat[id] == 1
    requires UniqueRows(r2) + Demand(w, UnitLines(more, r2), cat) + FreeCount(w1) <= FreeCount(w)
    ensures AllKnown(UnitLines(more, r1 + r2), cat)
    ensures UniqueRows(r1 + r2) + Demand(w, UnitLines(more, r1 + r2), cat) + FreeCount(v) <= FreeCount(w)
  {
    UniqueRowsAppend(r1, r2);
    forall k | 0 <= k < |more| ensures RowsUnits(r1 + r2, more[k]) == RowsUnits(r2, more[k]) {
      RowsUnitsAppend(r1, r2, more[k]);
    }
    assert UnitLines(more, r1 + r2) == UnitLines(more, r2);
  }

  /** Stack parts of one stackable item put in front of rows that fit: the item's line asks for their q
      units, which the partial stacks and the slots the step emptied hold. */
  lemma RoomConsStack(v: seq<Slot>, w1: seq<Slot>, w: seq<Slot>, cat: Catalog, r1: seq<Escrow>, r2: seq<Escrow>,
                      more: seq<ItemId>, id: ItemId, q: int)
    requires Covers(more, r2, cat) && id !in more && id in cat
    requires forall y :: y != id ==> RowsUnits(r1, y) == 0
    requires RowsUnits(r1, id) == q && RowsUnits(r2, id) == 0 && UniqueRows(r1) == 0
    requires PartialRoom(w, id, cat[id]) == PartialRoom(w1, id, cat[id]) && FreeCount(v) <= FreeCount(w1)
    requires Needed(Max(0, q - PartialRoom(w1, id, cat[id])), cat[id]) <= FreeCount(w1) - FreeCount(v)
    requires UniqueRows(r2) + Demand(w, UnitLines(more, r2), cat) + FreeCount(w1) <= FreeCount(w)
    ensures AllKnown(UnitLines([id] + more, r1 + r2), cat)
    ensures UniqueRows(r1 + r2) + Demand(w, UnitLines([id] + more, r1 + r2), cat) + FreeCount(v) <= FreeCount(w)
  {
    var l := Line(id, q);
    var M := UnitLines(more, r2);
    StackRowsCons(r1, r2, more, id, q);
    DemandCons(w, l, M, cat);
    var t := Term(w, l, cat);
    assert t == Needed(Max(0, q - PartialRoom(w1, id, cat[id])), cat[id]);
    assert Demand(w, UnitLines([id] + more, r1 + r2), cat) == t + Demand(w, M, cat);
  }

  /** The demand of a line put in front of others is that line's need plus theirs. */
  lemma DemandCons(w: seq<Slot>, l: Line, M: seq<Line>, cat: Catalog)
    requires l.item in cat && AllKnown(M, cat)
    ensures AllKnown([l] + M, cat) && Demand(w, [l] + M, cat) == Term(w, l, cat) + Demand(w, M, cat)
  {
    assert ([l] + M)[1..] == M;
  }

  /** The lines of stack parts of one item put in front of later rows: the item's line carries their q
      units, and the later items' lines are those of the later rows. */
  lemma StackRowsCons(r1: seq<Escrow>, r2: seq<Escrow>, more: seq<ItemId>, id: ItemId, q: int)
    requires id !in more
    requires forall y :: y != id ==> RowsUnits(r1, y) == 0
    requires RowsUnits(r1, id) == q && RowsUnits(r2, id) == 0 && UniqueRows(r1) == 0
    ensures UniqueRows(r1 + r2) == UniqueRows(r2)
    ensures UnitLines([id] + more, r1 + r2) == [Line(id, q)] + UnitLines(more, r2)
  {
    UniqueRowsAppend(r1, r2);
    forall k | 0 <= k < |more| ensures RowsUnits(r1 + r2, more[k]) == RowsUnits(r2, more[k]) {
      RowsUnitsAppend(r1, r2, more[k]);
    }
    RowsUnitsAppend(r1, r2, id);
  }

  /** The items a step's rows need, in front of the items the later rows need. */
  lemma CoversCons(cat: Catalog, r1: seq<Escrow>, r2: seq<Escrow>, more: seq<ItemId>, id: ItemId)
    requires Covers(more, r2, cat) && id !in more && id in cat
    requires forall k :: 0 <= k < |r1| ==> r1[k].item == id && RowShaped(r1[k], cat)
    ensures Covers(if cat[id] == 1 then more else [id] + more, r1 + r2, cat)
  {
    var items := if cat[id] == 1 then more else [id] + more;
    forall k | 0 <= k < |r1| + |r2| && (r1 + r2)[k].instance.None? ensures (r1 + r2)[k].item in items {
      if k >= |r1| {
        assert (r1 + r2)[k] == r2[k - |r1|];
      } else {
        assert RowShaped(r1[k], cat);
      }
    }
  }

  /** After phase 2 over `offs` left m: `items`, offered stackable items, cover m's rows, whose unique
      units and demand fit in the slots phase 2 emptied. */
  predicate Freed(v: seq<Slot>, cat: Catalog, offs: seq<Offer>, m: Moved, items: seq<ItemId>)
  {
    Covers(items, m.rows, cat) &&
    (forall k :: 0 <= k < |items| ==> exists i :: 0 <= i < |offs| && offs[i].item == items[k]) &&
    UniqueRows(m.rows) + Demand(m.slots, UnitLines(items, m.rows), cat) + FreeCount(v) <= FreeCount(m.slots)
  }

  /** Phase 2 unfolds into its first step and phase 2 over the remaining offers, which still pass phase 1. */
  lemma StepNext(v: seq<Slot>, cat: Catalog, sid: SessionId, u: UserId, offs: seq<Offer>)
    requires Conforms(v, cat) && Precheck(v, cat, offs).Ok? && MetroTrades.DistinctItems(offs) && OffersPositive(offs)
    requires offs != []
    ensures var m1 := EscrowStep(v, cat, sid, u, offs[0]);
      m1.ok && Conforms(m1.slots, cat) && Precheck(m1.slots, cat, offs[1..]).Ok? &&
      MetroTrades.DistinctItems(offs[1..]) && OffersPositive(offs[1..]) && KnownOffers(offs[1..], cat) &&
      var rest := Phase2(m1.slots, cat, sid, u, offs[1..]);
      Phase2(v, cat, sid, u, offs) == Moved(rest.ok, rest.slots, m1.rows + rest.rows)
  {
    var x := offs[0];
    var tail := offs[1..];
    assert forall k :: 0 <= k < |tail| ==> tail[k] == offs[k + 1];
    EscrowStepMeaning(v, cat, sid, u, x, x.item);
    StepKeepsCover(v, cat, sid, u, x, tail);
  }

  /** Phase 2 after a passed phase 1 frees the room its own escrow rows need to come back: over `items`,
      the stackable items offered, the rows' unique units and the items' demand fit in the slots it
      emptied. */
  lemma {:induction false} Phase2Room(v: seq<Slot>, cat: Catalog, sid: SessionId, u: UserId, offs: seq<Offer>)
    returns (items: seq<ItemId>)
    requires Conforms(v, cat) && Precheck(v, cat, offs).Ok? && MetroTrades.DistinctItems(offs) && OffersPositive(offs)
    ensures KnownOffers(offs, cat)
    ensures Freed(v, cat, offs, Phase2(v, cat, sid, u, offs), items)
    decreases |offs|
  {
    if offs == [] {
      items := [];
    } else {
      StepNext(v, cat, sid, u, offs);
      var m1 := EscrowStep(v, cat, sid, u, offs[0]);
      var more := Phase2Room(m1.slots, cat, sid, u, offs[1..]);
      items := Phase2RoomStep(v, cat, sid, u, offs, more);
    }
  }

  /** The items the remaining offers name do not include the first offer's, and are among all the offers'. */
  lemma OfferedCons(offs: seq<Offer>, tail: seq<Offer>, more: seq<ItemId>)
    requires offs != [] && tail == offs[1..] && MetroTrades.DistinctItems(offs)
    requires forall k :: 0 <= k < |more| ==> exists i :: 0 <= i < |tail| && tail[i].item == more[k]
    ensures offs[0].item !in more
    ensures forall k :: 0 <= k < |more| ==> exists i :: 0 <= i < |offs| && offs[i].item == more[k]
    ensures forall k :: 0 <= k < |more| + 1 ==> exists i :: 0 <= i < |offs| && offs[i].item == ([offs[0].item] + more)[k]
  {
    forall k | 0 <= k < |more| ensures more[k] != offs[0].item && exists i :: 0 <= i < |offs| && offs[i].item == more[k] {
      var i :| 0 <= i < |tail| && tail[i].item == more[k];
      assert offs[i + 1].item == more[k];
    }
    forall k | 0 <= k < |more| + 1 ensures exists i :: 0 <= i < |offs| && offs[i].item == ([offs[0].item] + more)[k] {
      if k == 0 {
        assert offs[0].item == ([offs[0].item] + more)[k];
      } else {
        assert ([offs[0].item] + more)[k] == more[k - 1];
      }
    }
  }

  /** The step of Phase2Room: the first offer's rows and the room it freed, in front of the rest. */
  lemma Phase2RoomStep(v: seq<Slot>, cat: Catalog, sid: SessionId, u: UserId, offs: seq<Offer>, more: seq<ItemId>)
    returns (items: seq<ItemId>)
    requires Conforms(v, cat) && Precheck(v, cat, offs).Ok? && MetroTrades.DistinctItems(offs) && OffersPositive(offs)
    requires offs != [] && KnownOffers(offs[1..], cat)
    requires var m1 := EscrowStep(v, cat, sid, u, offs[0]);
      Freed(m1.slots, cat, offs[1..], Phase2(m1.slots, cat, sid, u, offs[1..]), more)
    ensures KnownOffers(offs, cat)
    ensures Freed(v, cat, offs, Phase2(v, cat, sid, u, offs), items)
  {
    var id := offs[0].item;
    var tail := offs[1..];
    var m1 := EscrowStep(v, cat, sid, u, offs[0]);
    var rest := Phase2(m1.slots, cat, sid, u, tail);
    assert Phase2(v, cat, sid, u, offs) == Moved(rest.ok, rest.slots, m1.rows + rest.rows) && KnownOffers(offs, cat) by {
      StepNext(v, cat, sid, u, offs);
    }
    items := if cat[id] == 1 then more else [id] + more;
    StepFacts(v, cat, sid, u, offs);
    if cat[id] > 1 {
      RestKeeps(m1.slots, cat, sid, u, tail, id);
    }
    ConsFreed(v, cat, offs, m1.slots, m1.rows, rest, more, items);
  }

  /** The first offer's step, shaped as StepShaped says, in front of phase 2 over the other offers, which
      freed room for `more`: together they free room for `items`. */
  lemma ConsFreed(v: seq<Slot>, cat: Catalog, offs: seq<Offer>, w1: seq<Slot>, r1: seq<Escrow>, rest: Moved,
                  more: seq<ItemId>, items: seq<ItemId>)
    requires offs != [] && MetroTrades.DistinctItems(offs) && Freed(w1, cat, offs[1..], rest, more)
    requires StepShaped(v, w1, r1, cat, offs[0].item, offs[0].quantity)
    requires cat[offs[0].item] > 1 ==> RestShaped(w1, rest.slots, rest.rows, cat, offs[0].item)
    requires items == if cat[offs[0].item] == 1 then more else [offs[0].item] + more
    ensures Freed(v, cat, offs, Moved(rest.ok, rest.slots, r1 + rest.rows), items)
  {
    var id := offs[0].item;
    var tail := offs[1..];
    assert forall k :: 0 <= k < |more| ==> exists i :: 0 <= i < |tail| && tail[i].item == more[k];
    OfferedCons(offs, tail, more);
    RoomCons(v, w1, rest.slots, cat, r1, rest.rows, more, id, offs[0].quantity);
    FreedCons(v, cat, offs, r1, rest, more, items);
  }

  /** The first offer's rows, all of its item, in front of rows that phase 2 over the other offers freed
      room for: together they are freed by phase 2 over all the offers. */
  lemma FreedCons(v: seq<Slot>, cat: Catalog, offs: seq<Offer>, r1: seq<Escrow>, rest: Moved, more: seq<ItemId>,
                  items: seq<ItemId>)
    requires offs != [] && offs[0].item in cat && offs[0].item !in more && Covers(more, rest.rows, cat)
    requires items == if cat[offs[0].item] == 1 then more else [offs[0].item] + more
    requires forall k :: 0 <= k < |r1| ==> r1[k].item == offs[0].item && RowShaped(r1[k], cat)
    requires forall k :: 0 <= k < |items| ==> exists i :: 0 <= i < |offs| && offs[i].item == items[k]
    requires AllKnown(UnitLines(items, r1 + rest.rows), cat)
    requires UniqueRows(r1 + rest.rows) + Demand(rest.slots, UnitLines(items, r1 + rest.rows), cat) + FreeCount(v)
      <= FreeCount(rest.slots)
    ensures Freed(v, cat, offs, Moved(rest.ok, rest.slots, r1 + rest.rows), items)
  {
    CoversCons(cat, r1, rest.rows, more, offs[0].item);
  }

  /** RoomConsUnique and RoomConsStack by the kind of the first offer's item. */
  lemma RoomCons(v: seq<Slot>, w1: seq<Slot>, w: seq<Slot>, cat: Catalog, r1: seq<Escrow>, r2: seq<Escrow>,
                 more: seq<ItemId>, id: ItemId, q: int)
    requires Covers(more, r2, cat) && id !in more && StepShaped(v, w1, r1, cat, id, q)
    requires cat[id] > 1 ==> RestShaped(w1, w, r2, cat, id)
    requires UniqueRows(r2) + Demand(w, UnitLines(more, r2), cat) + FreeCount(w1) <= FreeCount(w)
    ensures var items := if cat[id] == 1 then more else [id] + more;
      AllKnown(UnitLines(items, r1 + r2), cat) &&
      UniqueRows(r1 + r2) + Demand(w, UnitLines(items, r1 + r2), cat) + FreeCount(v) <= FreeCount(w)
  {
    if cat[id] == 1 {
      RoomConsUnique(v, w1, w, cat, r1, r2, more, id, q);
    } else {
      RoomConsStack(v, w1, w, cat, r1, r2, more, id, q);
    }
  }

  /** The rows r1 a lock step wrote for `q` units of `id`, moving slots v to w1: well-formed rows of that
      item alone, carrying exactly q units, and the step emptied the room they need. */
  ghost predicate StepShaped(v: seq<Slot>, w1: seq<Slot>, r1: seq<Escrow>, cat: Catalog, id: ItemId, q: int)
  {
    id in cat &&
    (forall k :: 0 <= k < |r1| ==> r1[k].item == id && RowShaped(r1[k], cat)) &&
    (forall y :: y != id ==> RowsUnits(r1, y) == 0) && RowsUnits(r1, id) == q &&
    FreeCount(v) <= FreeCount(w1) &&
    (cat[id] == 1 ==> FreeCount(w1) == FreeCount(v) + q && UniqueRows(r1) == q) &&
    (cat[id] > 1 ==>
      UniqueRows(r1) == 0 && Needed(Max(0, q - PartialRoom(w1, id, cat[id])), cat[id]) <= FreeCount(w1) - FreeCount(v))
  }

  /** Later lock steps, moving w1 to w and writing r2, left id's partial-stack room alone and wrote no row of it. */
  ghost predicate RestShaped(w1: seq<Slot>, w: seq<Slot>, r2: seq<Escrow>, cat: Catalog, id: ItemId)
    requires id in cat
  {
    PartialRoom(w, id, cat[id]) == PartialRoom(w1, id, cat[id]) && RowsUnits(r2, id) == 0
  }

  /** What the first lock step does, in the terms Phase2RoomStep needs: the later offers still pass phase 1
      and name other items; the step's rows are well-formed rows of the offered item carrying exactly the
      offered units; and the step empties the room those rows need. */
  lemma StepFacts(v: seq<Slot>, cat: Catalog, sid: SessionId, u: UserId, offs: seq<Offer>)
    requires Conforms(v, cat) && Precheck(v, cat, offs).Ok? && MetroTrades.DistinctItems(offs) && OffersPositive(offs)
    requires offs != []
    ensures var x := offs[0]; var tail := offs[1..]; var m1 := EscrowStep(v, cat, sid, u, x);
      Conforms(m1.slots, cat) && Precheck(m1.slots, cat, tail).Ok? && MetroTrades.DistinctItems(tail) &&
      OffersPositive(tail) && x.item in cat && (forall k :: 0 <= k < |tail| ==> tail[k].item != x.item) &&
      StepShaped(v, m1.slots, m1.rows, cat, x.item, x.quantity)
  {
    var x := offs[0];
    var id := x.item;
    var tail := offs[1..];
    var m1 := EscrowStep(v, cat, sid, u, x);
    assert forall k :: 0 <= k < |tail| ==> tail[k] == offs[k + 1];
    StepNext(v, cat, sid, u, offs);
    StepShapedHolds(v, cat, sid, u, x);
  }

  /** One lock step, for an offer phase 1 passed, is shaped as StepShaped says. */
  lemma StepShapedHolds(v: seq<Slot>, cat: Catalog, sid: SessionId, u: UserId, x: Offer)
    requires Conforms(v, cat) && x.item in cat && x.quantity > 0 && Covered(v, cat, x)
    ensures var m1 := EscrowStep(v, cat, sid, u, x); StepShaped(v, m1.slots, m1.rows, cat, x.item, x.quantity)
  {
    var id := x.item;
    var m1 := EscrowStep(v, cat, sid, u, x);
    EscrowStepMeaning(v, cat, sid, u, x, id);
    forall y | y != id ensures RowsUnits(m1.rows, y) == 0 {
      EscrowStepMeaning(v, cat, sid, u, x, y);
    }
    StepRoom(v, cat, sid, u, x);
  }

  /** Phase 2 over offers that do not name `id` leaves id's partial-stack room alone and writes no row of it. */
  lemma RestKeeps(w: seq<Slot>, cat: Catalog, sid: SessionId, u: UserId, tail: seq<Offer>, id: ItemId)
    requires Conforms(w, cat) && Precheck(w, cat, tail).Ok? && MetroTrades.DistinctItems(tail) && OffersPositive(tail)
    requires id in cat && forall k :: 0 <= k < |tail| ==> tail[k].item != id
    ensures var rest := Phase2(w, cat, sid, u, tail); RestShaped(w, rest.slots, rest.rows, cat, id)
  {
    Phase2Keeps(w, cat, sid, u, tail, id, cat[id]);
    Phase2Meaning(w, cat, sid, u, tail, id);
    OfferTotalAbsent(tail, id);
  }

  /** The rollback loop over rows all escrowed by one user, none of them an empty stack part, is the insert
      loop into that user's slots. */
  lemma {:induction false} RestoreIsPut(rows: Rows, cat: Catalog, next: InstanceId, g: string, u: UserId, es: seq<Escrow>)
    requires AllShaped(es, cat) && forall k :: 0 <= k < |es| ==> es[k].from == u
    ensures RestoreAll(rows, cat, next, g, es) == PutAll(rows, cat, next, Owner(g, u), es)
    decreases |es|
  {
    if es != [] {
      ShapedTail(es, cat);
      assert forall k :: 0 <= k < |es| - 1 ==> es[1..][k] == es[k + 1];
      var d := PutRow(rows, cat, next, Owner(g, u), es[0]);
      RestoreIsPut(d.rows, cat, d.next, g, u, es[1..]);
    }
  }

  /** The rows one party's escrow move wrote can always go back to that party: the move itself emptied
      the room they need. */
  lemma EscrowCommitRestores(rows: Rows, cat: Catalog, next: InstanceId, g: string, sid: SessionId, u: UserId,
                             offs: seq<Offer>)
    requires WellKeyed(rows, SlotsTotal) && RowsConform(rows, cat)
    requires MetroTrades.DistinctItems(offs) && OffersPositive(offs)
    ensures var e := EscrowCommit(rows, cat, g, sid, u, offs);
      RestoreAll(e.rows, cat, next, g, e.added).ok
  {
    var e := EscrowCommit(rows, cat, g, sid, u, offs);
    var o := Owner(g, u);
    var v := Snapshot(rows, o, SlotsTotal);
    EscrowCommitMeaning(rows, cat, g, sid, u, offs, "");
    if e.ok {
      SnapshotConforms(rows, cat, o);
      ShapedOwn(e.added, cat, sid, u, u);
      RestoreIsPut(e.rows, cat, next, g, u, e.added);
      var m := Phase2(v, cat, sid, u, offs);
      if Provisioned(rows, o, SlotsTotal) {
        var items := Phase2Room(v, cat, sid, u, offs);
        Phase2Meaning(v, cat, sid, u, offs, "");
        CommitPlan(rows, cat, o, m.slots);
        ProvisionNoop(e.rows, o, SlotsTotal);
        assert View(Prepared(e.rows, o), o, SlotsTotal) == m.slots;
        PutAllRoom(e.rows, cat, next, o, e.added, items);
      }
    }
  }

  /** An escrow move writes rows of its session only, and a refused one changes nothing. */
  lemma CommitRows(rows: Rows, cat: Catalog, g: string, sid: SessionId, u: UserId, offs: seq<Offer>)
    requires WellKeyed(rows, SlotsTotal) && RowsConform(rows, cat)
    requires MetroTrades.DistinctItems(offs) && OffersPositive(offs)
    ensures var e := EscrowCommit(rows, cat, g, sid, u, offs);
      OfSession(e.added, sid) == e.added && (!e.ok ==> e.rows == rows && e.added == []) &&
      WellKeyed(e.rows, SlotsTotal) && RowsConform(e.rows, cat)
  {
    var e := EscrowCommit(rows, cat, g, sid, u, offs);
    EscrowCommitMeaning(rows, cat, g, sid, u, offs, "");
    ShapedOwn(e.added, cat, sid, u, u);
  }

  /** When one of a lock's two escrow moves is refused, the rows both wrote go back: only the other move
      wrote any, on a table it alone changed. */
  lemma MovesRestore(rows: Rows, cat: Catalog, next: InstanceId, g: string, sid: SessionId, a: UserId, b: UserId,
                     offA: seq<Offer>, offB: seq<Offer>)
    requires WellKeyed(rows, SlotsTotal) && RowsConform(rows, cat)
    requires MetroTrades.DistinctItems(offA) && OffersPositive(offA) && MetroTrades.DistinctItems(offB) && OffersPositive(offB)
    ensures var eA := EscrowCommit(rows, cat, g, sid, a, offA);
      var eB := EscrowCommit(eA.rows, cat, g, sid, b, offB);
      !(eA.ok && eB.ok) ==> RestoreAll(eB.rows, cat, next, g, eA.added + eB.added).ok
  {
    var eA := EscrowCommit(rows, cat, g, sid, a, offA);
    var eB := EscrowCommit(eA.rows, cat, g, sid, b, offB);
    CommitRows(rows, cat, g, sid, a, offA);
    CommitRows(eA.rows, cat, g, sid, b, offB);
    if !eA.ok {
      assert eA.added + eB.added == eB.added;
      EscrowCommitRestores(rows, cat, next, g, sid, b, offB);
    } else if !eB.ok {
      assert eA.added + eB.added == eA.added;
      EscrowCommitRestores(rows, cat, next, g, sid, a, offA);
    }
  }

  /** A lock that fails on a session with nothing in escrow always gets its rollback through: the rows it
      wrote are exactly what the one successful move took, and that move freed their room. */
  lemma LockRestores(rows: Rows, cat: Catalog, next: InstanceId, escrow: seq<Escrow>, g: string, sid: SessionId,
                     a: UserId, b: UserId, offers: seq<Offer>)
    requires WellKeyed(rows, SlotsTotal) && RowsConform(rows, cat) && KeysUnique(offers) && OffersPositive(offers)
    requires OfSession(escrow, sid) == []
    ensures var l := Lock(rows, cat, next, escrow, g, sid, a, b, offers);
      l.ok || l.restored
  {
    var offA := PartyOffers(offers, sid, a);
    var offB := PartyOffers(offers, sid, b);
    PartyOffersShape(offers, sid, a);
    PartyOffersShape(offers, sid, b);
    var eA := EscrowCommit(rows, cat, g, sid, a, offA);
    var eB := EscrowCommit(eA.rows, cat, g, sid, b, offB);
    CommitRows(rows, cat, g, sid, a, offA);
    CommitRows(eA.rows, cat, g, sid, b, offB);
    var esc := escrow + eA.added + eB.added;
    SessionOfLock(escrow, eA.added, eB.added, sid);
    MovesRestore(rows, cat, next, g, sid, a, b, offA, offB);
    if !(eA.ok && eB.ok) {
      assert Rollback(eB.rows, cat, next, g, OfSession(esc, sid)).ok;
    }
  }

  lemma SessionOfLock(escrow: seq<Escrow>, addA: seq<Escrow>, addB: seq<Escrow>, sid: SessionId)
    requires OfSession(escrow, sid) == [] && OfSession(addA, sid) == addA && OfSession(addB, sid) == addB
    ensures OfSession(escrow + addA + addB, sid) == addA + addB
  {
    var x := escrow + addA;
    OfSessionAppend(escrow, addA, sid);
    assert OfSession(x, sid) == [] + addA == addA;
    OfSessionAppend(x, addB, sid);
  }
}
