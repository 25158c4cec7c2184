/** The dry-run capacity check of the trade bot (canReceiveAll): on a copy of the
    receiver's slots, reserve one free slot per incoming unique unit, then place
    every incoming stackable item with the usual top-up-then-fill rule. */
module Capacity {
  import opened Slots
  import opened Stacking

  /** One incoming line: an item and a unit count. */
  datatype Line = Line(item: ItemId, quantity: int)

  /** The marker written into reserved slots of the copy. */
  const Reserved: Slot := Unique("__RESERVED__", 0, None, None)

  predicate AllKnown(lines: seq<Line>, cat: Catalog)
  {
    forall j :: 0 <= j < |lines| ==> lines[j].item in cat
  }

  /** Unique units asked for: each unique line adds its quantity (nothing when it is not positive). */
  function UniqueUnits(lines: seq<Line>, cat: Catalog): nat
    requires AllKnown(lines, cat)
  {
    if lines == [] then 0
    else
      var last := lines[|lines| - 1];
      UniqueUnits(lines[..|lines| - 1], cat) + (if cat[last.item] == 1 then Max(0, last.quantity) else 0)
  }

  /** Add `q` to the line of `id`, or append a new line (a Map keeps first-insertion order). */
  function AddTo(stacks: seq<Line>, id: ItemId, q: int): (r: seq<Line>)
    ensures |r| == |stacks| || r == stacks + [Line(id, q)]
  {
    if stacks == [] then [Line(id, q)]
    else if stacks[0].item == id then [Line(id, stacks[0].quantity + q)] + stacks[1..]
    else [stacks[0]] + AddTo(stacks[1..], id, q)
  }

  /** The stackable lines summed per item, in order of first appearance. */
  function Aggregate(lines: seq<Line>, cat: Catalog): seq<Line>
    requires AllKnown(lines, cat)
  {
    if lines == [] then []
    else
      var last := lines[|lines| - 1];
      var rest := Aggregate(lines[..|lines| - 1], cat);
      if cat[last.item] == 1 then rest else AddTo(rest, last.item, last.quantity)
  }

  /** The first `k` empty slots of the copy are marked reserved. */
  function Reserve(slots: seq<Slot>, k: int): (r: seq<Slot>)
    ensures |r| == |slots|
  {
    if slots == [] then []
    else if k > 0 && slots[0].Empty? then [Reserved] + Reserve(slots[1..], k - 1)
    else [slots[0]] + Reserve(slots[1..], k)
  }

  /** Place each aggregated stackable line in turn; false as soon as one does not fit exactly. */
  function ApplyStacks(slots: seq<Slot>, stacks: seq<Line>, cat: Catalog): bool
    requires AllKnown(stacks, cat)
    decreases |stacks|
  {
    if stacks == [] then true
    else
      var max := cat[stacks[0].item];
      if max == 1 then false
      else
        var p := AddStackPlan(slots, stacks[0].item, max, stacks[0].quantity);
        p.1 == 0 && ApplyStacks(p.0, stacks[1..], cat)
  }

  /** canReceiveAll as a function of the receiver's slots, the incoming lines and the catalogue. */
  function CanReceive(slots: seq<Slot>, lines: seq<Line>, cat: Catalog): bool
  {
    if !AllKnown(lines, cat) then false
    else
      AggregateKnown(lines, cat);
      var u := UniqueUnits(lines, cat);
      FreeCount(slots) >= u && ApplyStacks(Reserve(slots, u), Aggregate(lines, cat), cat)
  }

  // ---------------------------------------------------------------------------
  // The simulation loops

  /** The dry run on a copy of the slots: tally, reserve, then place stacks. Nothing is written. */
  method SimulateReceive(slots: seq<Slot>, lines: seq<Line>, cat: Catalog) returns (ok: bool)
    ensures ok == CanReceive(slots, lines, cat)
  {
    var u := 0;
    var stacks: seq<Line> := [];
    var i := 0;
    assert lines[..0] == [];
    while i < |lines|
      invariant TalliedTo(lines, cat, i, u, stacks)
    {
      var x := lines[i];
      if x.item !in cat {
        UnknownRefused(slots, lines, cat, i);
        return false;
      }
      ghost var u0, stacks0 := u, stacks;
      if cat[x.item] == 1 {
        var k := 0;
        while k < x.quantity
          invariant 0 <= k && (k <= x.quantity || k == 0)
          invariant u == u0 + k
        {
          u, k := u + 1, k + 1;
        }
      } else {
        stacks := AddTo(stacks, x.item, x.quantity);
      }
      TallyStep(lines, cat, i, u0, stacks0, u, stacks);
      i := i + 1;
    }
    TallyDone(lines, cat, i, u, stacks);
    if FreeCount(slots) < u {
      TooFewFreeRefused(slots, lines, cat);
      return false;
    }
    var sim := ReserveLoop(slots, u);
    ok := PlaceStacks(sim, stacks, cat);
  }

  /** The tally after the first i lines: all known, their unique units counted, their stackable lines summed. */
  ghost predicate TalliedTo(lines: seq<Line>, cat: Catalog, i: nat, u: int, stacks: seq<Line>)
  {
    i <= |lines| && AllKnown(lines[..i], cat) && u == UniqueUnits(lines[..i], cat) && stacks == Aggregate(lines[..i], cat)
  }

  /** One step of the tally: a unique line adds its units to the count, a stackable one goes into the sum. */
  lemma TallyStep(lines: seq<Line>, cat: Catalog, i: nat, u: int, stacks: seq<Line>, u2: int, stacks2: seq<Line>)
    requires TalliedTo(lines, cat, i, u, stacks) && i < |lines| && lines[i].item in cat
    requires if cat[lines[i].item] == 1 then u2 == u + Max(0, lines[i].quantity) && stacks2 == stacks
      else u2 == u && stacks2 == AddTo(stacks, lines[i].item, lines[i].quantity)
    ensures TalliedTo(lines, cat, i + 1, u2, stacks2)
  {
    assert lines[..i + 1][..i] == lines[..i] && lines[..i + 1][i] == lines[i];
  }

  lemma TallyDone(lines: seq<Line>, cat: Catalog, i: nat, u: int, stacks: seq<Line>)
    requires TalliedTo(lines, cat, i, u, stacks) && i == |lines|
    ensures AllKnown(lines, cat) && u == UniqueUnits(lines, cat) && stacks == Aggregate(lines, cat)
    ensures AllKnown(stacks, cat)
  {
    assert lines[..i] == lines;
    AggregateKnown(lines, cat);
  }

  /** The stack loop over the reserved copy: each tallied line in turn must be stackable and fit exactly. */
  method PlaceStacks(slots: seq<Slot>, stacks: seq<Line>, cat: Catalog) returns (ok: bool)
    requires AllKnown(stacks, cat)
    ensures ok == ApplyStacks(slots, stacks, cat)
  {
    var sim := slots;
    var j := 0;
    while j < |stacks|
      invariant 0 <= j <= |stacks|
      invariant ApplyStacks(slots, stacks, cat) == ApplyStacks(sim, stacks[j..], cat)
    {
      assert stacks[j..][0] == stacks[j] && stacks[j..][1..] == stacks[j + 1..];
      var id, q := stacks[j].item, stacks[j].quantity;
      if cat[id] == 1 {
        return false;
      }
      var plan, remaining := PlanStackAdd(sim, id, cat[id], q);
      if remaining != 0 {
        return false;
      }
      sim := plan;
      j := j + 1;
    }
    ok := true;
  }

  /** The reservation loop over the copy. */
  method ReserveLoop(slots: seq<Slot>, k: int) returns (sim: seq<Slot>)
    ensures sim == Reserve(slots, k)
  {
    sim := slots;
    var i, left := 0, k;
    ReserveStart(slots, k);
    while i < |sim| && left > 0
      invariant i <= |sim| == |slots|
      invariant ReservedTo(slots, k, sim, i, left)
      decreases |slots| - i
    {
      ghost var sim0, left0 := sim, left;
      if sim[i].Empty? {
        sim := sim[i := Reserved];
        left := left - 1;
      }
      ReserveAdvance(slots, k, sim0, i, left0, sim, left);
      i := i + 1;
    }
    ReserveFinish(slots, k, sim, i, left);
  }

  /** The loop state after the first i slots: those are settled in the copy, the rest still read as the
      original, and reserving `left` more in the rest gives the whole reservation. */
  ghost predicate ReservedTo(slots: seq<Slot>, k: int, sim: seq<Slot>, i: nat, left: int)
  {
    i <= |sim| == |slots| && sim[i..] == slots[i..] && Reserve(slots, k) == sim[..i] + Reserve(slots[i..], left)
  }

  lemma ReserveStart(slots: seq<Slot>, k: int)
    ensures ReservedTo(slots, k, slots, 0, k)
  {
    assert slots[..0] + Reserve(slots[0..], k) == Reserve(slots, k);
  }

  /** One step of the reservation loop: slot i, read from the copy, is reserved if empty. */
  lemma ReserveAdvance(slots: seq<Slot>, k: int, sim: seq<Slot>, i: nat, left: int, sim2: seq<Slot>, left2: int)
    requires ReservedTo(slots, k, sim, i, left) && i < |sim| && left > 0
    requires if sim[i].Empty? then sim2 == sim[i := Reserved] && left2 == left - 1 else sim2 == sim && left2 == left
    ensures |sim2| == |slots| && ReservedTo(slots, k, sim2, i + 1, left2)
  {
    assert slots[i..][0] == sim[i] && slots[i..][1..] == slots[i + 1..];
    assert sim2[..i + 1] == sim[..i] + [sim2[i]];
  }

  lemma ReserveFinish(slots: seq<Slot>, k: int, sim: seq<Slot>, i: nat, left: int)
    requires ReservedTo(slots, k, sim, i, left) && !(i < |sim| && left > 0)
    ensures sim == Reserve(slots, k)
  {
    ReserveIdle(slots[i..], left);
    assert sim[..i] + sim[i..] == sim;
  }

  lemma {:induction false} ReserveIdle(slots: seq<Slot>, k: int)
    requires k <= 0 || slots == []
    ensures Reserve(slots, k) == slots
  {
    if slots != [] {
      ReserveIdle(slots[1..], k);
      assert [slots[0]] + slots[1..] == slots;
    }
  }

  // ---------------------------------------------------------------------------
  // Facts about the pieces

  lemma {:induction false} AggregateKnown(lines: seq<Line>, cat: Catalog)
    requires AllKnown(lines, cat)
    ensures AllKnown(Aggregate(lines, cat), cat)
  {
    if lines != [] {
      var pre := lines[..|lines| - 1];
      assert AllKnown(pre, cat);
      AggregateKnown(pre, cat);
      AddToItems(Aggregate(pre, cat), lines[|lines| - 1].item, lines[|lines| - 1].quantity);
    }
  }

  predicate DistinctItems(stacks: seq<Line>)
  {
    forall j, k :: 0 <= j < k < |stacks| ==> stacks[j].item != stacks[k].item
  }

  predicate Positive(lines: seq<Line>)
  {
    forall j :: 0 <= j < |lines| ==> lines[j].quantity > 0
  }

  lemma {:induction false} AddToItems(stacks: seq<Line>, id: ItemId, q: int)
    ensures forall l :: l in AddTo(stacks, id, q) ==> l.item == id || exists m :: m in stacks && m.item == l.item
    ensures forall m :: m in stacks ==> exists l :: l in AddTo(stacks, id, q) && l.item == m.item
  {
    if stacks != [] && stacks[0].item != id {
      AddToItems(stacks[1..], id, q);
      var r := AddTo(stacks, id, q);
      forall m | m in stacks ensures exists l :: l in r && l.item == m.item {
        if m != stacks[0] {
          assert m in stacks[1..];
        } else {
          assert r[0] in r;
        }
      }
      forall l | l in r ensures l.item == id || exists m :: m in stacks && m.item == l.item {
        if l != stacks[0] {
          assert l in AddTo(stacks[1..], id, q);
        }
      }
    } else if stacks != [] {
      var r := AddTo(stacks, id, q);
      forall m | m in stacks ensures exists l :: l in r && l.item == m.item {
        if m == stacks[0] {
          assert r[0] in r;
        } else {
          assert m in stacks[1..] && m in r[1..];
        }
      }
      forall l | l in r ensures l.item == id || exists m :: m in stacks && m.item == l.item {
        if l != r[0] {
          assert l in stacks[1..];
        }
      }
    }
  }

  /** Adding to the aggregation keeps one line per item and keeps every quantity positive. */
  lemma {:induction false} AddToKeeps(stacks: seq<Line>, id: ItemId, q: int)
    requires DistinctItems(stacks) && Positive(stacks) && q > 0
    ensures DistinctItems(AddTo(stacks, id, q)) && Positive(AddTo(stacks, id, q))
  {
    if stacks != [] && stacks[0].item != id {
      var tail := stacks[1..];
      assert forall j :: 0 <= j < |tail| ==> tail[j] == stacks[j + 1];
      AddToKeeps(tail, id, q);
      AddToItems(tail, id, q);
      var r := AddTo(stacks, id, q);
      forall j, k | 0 <= j < k < |r| ensures r[j].item != r[k].item {
        if j == 0 {
          assert r[k] in AddTo(tail, id, q);
        }
      }
    }
  }

  lemma {:induction false} AggregateDistinct(lines: seq<Line>, cat: Catalog)
    requires AllKnown(lines, cat) && Positive(lines)
    ensures DistinctItems(Aggregate(lines, cat)) && Positive(Aggregate(lines, cat))
  {
    if lines != [] {
      var pre := lines[..|lines| - 1];
      assert AllKnown(pre, cat) && Positive(pre);
      AggregateDistinct(pre, cat);
      var last := lines[|lines| - 1];
      if cat[last.item] != 1 {
        AddToKeeps(Aggregate(pre, cat), last.item, last.quantity);
      }
    }
  }

  /** Reserving k <= FreeCount slots leaves k fewer empty slots and every item's partial stacks alone. */
  lemma {:induction false} ReserveFacts(slots: seq<Slot>, k: int, id: ItemId, m: int)
    requires 0 <= k <= FreeCount(slots)
    ensures FreeCount(Reserve(slots, k)) == FreeCount(slots) - k
    ensures PartialRoom(Reserve(slots, k), id, m) == PartialRoom(slots, id, m)
  {
    if slots != [] {
      var r := Reserve(slots, k);
      if k > 0 && slots[0].Empty? {
        ReserveFacts(slots[1..], k - 1, id, m);
        assert r[1..] == Reserve(slots[1..], k - 1);
      } else {
        ReserveFacts(slots[1..], k, id, m);
        assert r[1..] == Reserve(slots[1..], k);
      }
    }
  }

  /** Empty slots each aggregated stackable line needs beyond the room in its own partial stacks. */
  function Demand(slots: seq<Slot>, stacks: seq<Line>, cat: Catalog): nat
    requires AllKnown(stacks, cat)
  {
    if stacks == [] then 0
    else
      var l := stacks[0];
      Needed(Max(0, l.quantity - PartialRoom(slots, l.item, cat[l.item])), cat[l.item]) + Demand(slots, stacks[1..], cat)
  }

  predicate Stackables(stacks: seq<Line>, cat: Catalog)
  {
    forall j :: 0 <= j < |stacks| ==> stacks[j].item in cat && cat[stacks[j].item] > 1
  }

  /** Demand depends only on the partial-stack room of the listed items. */
  lemma {:induction false} DemandSameRoom(a: seq<Slot>, b: seq<Slot>, stacks: seq<Line>, cat: Catalog)
    requires AllKnown(stacks, cat)
    requires forall j :: 0 <= j < |stacks| ==>
      PartialRoom(a, stacks[j].item, cat[stacks[j].item]) == PartialRoom(b, stacks[j].item, cat[stacks[j].item])
    ensures Demand(a, stacks, cat) == Demand(b, stacks, cat)
  {
    if stacks != [] {
      var tail := stacks[1..];
      assert forall j :: 0 <= j < |tail| ==> tail[j] == stacks[j + 1];
      DemandSameRoom(a, b, tail, cat);
    }
  }

  /** Distinct positive stackable lines all fit, one after another, exactly when their total demand
      for empty slots is at most the empty slots there are. */
  lemma {:induction false} ApplyStacksIff(slots: seq<Slot>, stacks: seq<Line>, cat: Catalog)
    requires AllKnown(stacks, cat) && Stackables(stacks, cat) && DistinctItems(stacks) && Positive(stacks)
    ensures ApplyStacks(slots, stacks, cat) <==> Demand(slots, stacks, cat) <= FreeCount(slots)
    decreases |stacks|
  {
    if stacks != [] {
      var l := stacks[0];
      var max := cat[l.item];
      var p := AddStackPlan(slots, l.item, max, l.quantity);
      var tail := stacks[1..];
      assert forall j :: 0 <= j < |tail| ==> tail[j] == stacks[j + 1];
      var leftover := Max(0, l.quantity - PartialRoom(slots, l.item, max));
      AddPlanRoom(slots, l.item, max, l.quantity);
      NeededFits(leftover, max, FreeCount(slots));
      assert p.1 == 0 <==> Needed(leftover, max) <= FreeCount(slots);
      if p.1 == 0 {
        AddPlanFree(slots, l.item, max, l.quantity);
        ApplyStacksIff(p.0, tail, cat);
        forall j | 0 <= j < |tail|
          ensures PartialRoom(p.0, tail[j].item, cat[tail[j].item]) == PartialRoom(slots, tail[j].item, cat[tail[j].item])
        {
          AddPlanOthers(slots, l.item, max, l.quantity, tail[j].item, cat[tail[j].item]);
        }
        DemandSameRoom(p.0, slots, tail, cat);
      }
    }
  }

  /** The capacity check, characterised: with positive quantities it answers true exactly when every
      item is known, the free slots cover the unique units, and the unique units plus the empty slots the
      stackable items need beyond their partial stacks fit in the free slots. */
  lemma CanReceiveIff(slots: seq<Slot>, lines: seq<Line>, cat: Catalog)
    requires Positive(lines)
    ensures CanReceive(slots, lines, cat) <==>
      AllKnown(lines, cat) &&
      (AggregateKnown(lines, cat);
       UniqueUnits(lines, cat) + Demand(slots, Aggregate(lines, cat), cat) <= FreeCount(slots))
  {
    if AllKnown(lines, cat) {
      AggregateKnown(lines, cat);
      AggregateDistinct(lines, cat);
      AggregateStackable(lines, cat);
      var u := UniqueUnits(lines, cat);
      var stacks := Aggregate(lines, cat);
      if u <= FreeCount(slots) {
        var r := Reserve(slots, u);
        ApplyStacksIff(r, stacks, cat);
        forall j | 0 <= j < |stacks|
          ensures PartialRoom(r, stacks[j].item, cat[stacks[j].item]) == PartialRoom(slots, stacks[j].item, cat[stacks[j].item])
        {
          ReserveFacts(slots, u, stacks[j].item, cat[stacks[j].item]);
        }
        ReserveFacts(slots, u, "", 0);
        DemandSameRoom(r, slots, stacks, cat);
      }
    }
  }

  lemma {:induction false} AggregateStackable(lines: seq<Line>, cat: Catalog)
    requires AllKnown(lines, cat)
    ensures Stackables(Aggregate(lines, cat), cat)
  {
    if lines != [] {
      var pre := lines[..|lines| - 1];
      assert AllKnown(pre, cat);
      AggregateStackable(pre, cat);
      var last := lines[|lines| - 1];
      if cat[last.item] != 1 {
        AddToItems(Aggregate(pre, cat), last.item, last.quantity);
        var r := AddTo(Aggregate(pre, cat), last.item, last.quantity);
        forall j | 0 <= j < |r| ensures r[j].item in cat && cat[r[j].item] > 1 {
          assert r[j] in r;
        }
      }
    }
  }

  // ---------------------------------------------------------------------------
  // How room for a stackable item changes when its units are put in or taken out

  /** The room one slot gives `id` when it is a partial stack of it. */
  function Room1(s: Slot, id: ItemId, max: int): int
  {
    if s.Stack? && s.item == id && s.qty < max then max - s.qty else 0
  }

  lemma {:induction false} PartialRoomUpdate(w: seq<Slot>, k: nat, s: Slot, id: ItemId, max: int)
    requires k < |w|
    ensures PartialRoom(w[k := s], id, max) == PartialRoom(w, id, max) - Room1(w[k], id, max) + Room1(s, id, max)
  {
    if k > 0 {
      assert w[k := s][1..] == w[1..][k - 1 := s];
      PartialRoomUpdate(w[1..], k - 1, s, id, max);
    }
  }

  /** What one slot offers `id`: the room in a partial stack of it, `max` for an empty slot, and the units
      of `id` it already holds. */
  function Space1(s: Slot, id: ItemId, max: int): int
  {
    Room1(s, id, max) + (if s.Empty? then max else 0) + Amount(s, id)
  }

  function Space(w: seq<Slot>, id: ItemId, max: int): int
  {
    if w == [] then 0 else Space1(w[0], id, max) + Space(w[1..], id, max)
  }

  lemma {:induction false} SpaceIs(w: seq<Slot>, id: ItemId, max: int)
    ensures Space(w, id, max) == PartialRoom(w, id, max) + max * FreeCount(w) + Count(w, id)
  {
    if w != [] {
      SpaceIs(w[1..], id, max);
      assert max * FreeCount(w) == max * (if w[0].Empty? then 1 else 0) + max * FreeCount(w[1..]);
    }
  }

  /** Slot by slot, w2 is w with partial stacks of `id` raised and empty slots filled with `id`, all within
      `max`: the room in partial stacks, `max` per empty slot and the units held add up to the same total. */
  lemma {:induction false} SpaceKept(w: seq<Slot>, w2: seq<Slot>, id: ItemId, max: int)
    requires |w| == |w2|
    requires forall i :: 0 <= i < |w| ==> w2[i] == w[i] || Raised(w[i], w2[i], id, max) || Filled(w[i], w2[i], id, max)
    ensures PartialRoom(w2, id, max) + max * FreeCount(w2) + Count(w2, id) ==
            PartialRoom(w, id, max) + max * FreeCount(w) + Count(w, id)
  {
    SpaceSame(w, w2, id, max);
    SpaceIs(w, id, max);
    SpaceIs(w2, id, max);
  }

  lemma {:induction false} SpaceSame(w: seq<Slot>, w2: seq<Slot>, id: ItemId, max: int)
    requires |w| == |w2|
    requires forall i :: 0 <= i < |w| ==> w2[i] == w[i] || Raised(w[i], w2[i], id, max) || Filled(w[i], w2[i], id, max)
    ensures Space(w2, id, max) == Space(w, id, max)
  {
    if w != [] {
      assert forall i :: 0 <= i < |w| - 1 ==> w[1..][i] == w[i + 1] && w2[1..][i] == w2[i + 1];
      SpaceSame(w[1..], w2[1..], id, max);
    }
  }

  /** Where only slots holding `y` change, each becoming empty or staying a slot of `y`, no other item's
      partial-stack room changes. */
  lemma {:induction false} PartialRoomOthers(w: seq<Slot>, w2: seq<Slot>, y: ItemId, id: ItemId, max: int)
    requires |w| == |w2| && y != id
    requires forall i :: 0 <= i < |w| ==> w2[i] == w[i] || (Holds(w[i], y) && (w2[i].Empty? || Holds(w2[i], y)))
    ensures PartialRoom(w2, id, max) == PartialRoom(w, id, max)
  {
    if w != [] {
      assert forall i :: 0 <= i < |w| - 1 ==> w[1..][i] == w[i + 1] && w2[1..][i] == w2[i + 1];
      PartialRoomOthers(w[1..], w2[1..], y, id, max);
    }
  }

  /** Where no empty slot is filled, the empty slots can only grow in number. */
  lemma {:induction false} FreeCountMore(w: seq<Slot>, w2: seq<Slot>)
    requires |w| == |w2| && forall i :: 0 <= i < |w| && w[i].Empty? ==> w2[i].Empty?
    ensures FreeCount(w) <= FreeCount(w2)
  {
    if w != [] {
      assert forall i :: 0 <= i < |w| - 1 ==> w[1..][i] == w[i + 1] && w2[1..][i] == w2[i + 1];
      FreeCountMore(w[1..], w2[1..]);
    }
  }

  /** More units never need fewer empty slots. */
  lemma {:induction false} NeededMono(a: int, b: int, max: StackMax)
    requires a <= b
    ensures Needed(a, max) <= Needed(b, max)
    decreases if b < 0 then 0 else b
  {
    if a > 0 {
      NeededMono(a - max, b - max, max);
    }
  }

  /** t full slots' worth fewer units need exactly t fewer empty slots, as long as t slots were needed. */
  lemma {:induction false} NeededLess(x: int, max: StackMax, t: nat)
    requires t <= Needed(x, max)
    ensures Needed(x - max * t, max) == Needed(x, max) - t
    decreases t
  {
    if t > 0 {
      NeededLess(x - max, max, t - 1);
      assert x - max - max * (t - 1) == x - max * t;
    }
  }

  /** The empty slots one line needs beyond its partial stacks. */
  function Term(w: seq<Slot>, l: Line, cat: Catalog): nat
    requires l.item in cat
  {
    Needed(Max(0, l.quantity - PartialRoom(w, l.item, cat[l.item])), cat[l.item])
  }

  /** Every line's own need is part of the total demand. */
  lemma {:induction false} DemandAtLeast(w: seq<Slot>, stacks: seq<Line>, p: nat, cat: Catalog)
    requires AllKnown(stacks, cat) && p < |stacks|
    ensures Term(w, stacks[p], cat) <= Demand(w, stacks, cat)
  {
    if p > 0 {
      assert stacks[1..][p - 1] == stacks[p];
      DemandAtLeast(w, stacks[1..], p - 1, cat);
    }
  }

  /** Changing line p, and slots that keep the room of every other line's item, changes the demand by the
      difference of line p's needs. */
  lemma {:induction false} DemandUpdate(a: seq<Slot>, b: seq<Slot>, stacks: seq<Line>, p: nat, l: Line, cat: Catalog)
    requires AllKnown(stacks, cat) && p < |stacks| && l.item in cat
    requires forall k :: 0 <= k < |stacks| && k != p ==>
      PartialRoom(a, stacks[k].item, cat[stacks[k].item]) == PartialRoom(b, stacks[k].item, cat[stacks[k].item])
    ensures AllKnown(stacks[p := l], cat)
    ensures Demand(b, stacks[p := l], cat) == Demand(a, stacks, cat) - Term(a, stacks[p], cat) + Term(b, l, cat)
  {
    var tail := stacks[1..];
    assert forall k :: 0 <= k < |tail| ==> tail[k] == stacks[k + 1];
    if p == 0 {
      assert stacks[p := l][1..] == tail;
      DemandSameRoom(a, b, tail, cat);
    } else {
      assert stacks[p := l][1..] == tail[p - 1 := l];
      DemandUpdate(a, b, tail, p - 1, l, cat);
    }
  }

  // ---------------------------------------------------------------------------
  // Line totals per item

  /** The total quantity the lines give item j. */
  function QtyOf(lines: seq<Line>, j: ItemId): int
  {
    if lines == [] then 0 else (if lines[0].item == j then lines[0].quantity else 0) + QtyOf(lines[1..], j)
  }

  lemma {:induction false} QtyOfAppend(a: seq<Line>, b: seq<Line>, j: ItemId)
    ensures QtyOf(a + b, j) == QtyOf(a, j) + QtyOf(b, j)
  {
    if a != [] {
      assert (a + b)[1..] == a[1..] + b;
      QtyOfAppend(a[1..], b, j);
    } else {
      assert a + b == b;
    }
  }

  /** Adding q units of id to the aggregation adds q to id's total and nothing to any other item's. */
  lemma {:induction false} AddToQty(stacks: seq<Line>, id: ItemId, q: int, j: ItemId)
    ensures QtyOf(AddTo(stacks, id, q), j) == QtyOf(stacks, j) + (if j == id then q else 0)
  {
    if stacks != [] && stacks[0].item != id {
      AddToQty(stacks[1..], id, q, j);
      assert AddTo(stacks, id, q)[1..] == AddTo(stacks[1..], id, q);
    } else if stacks != [] {
      assert AddTo(stacks, id, q)[1..] == stacks[1..];
    }
  }

  /** With one line per item, a line's quantity is its item's total. */
  lemma {:induction false} QtyOfDistinct(stacks: seq<Line>, k: nat)
    requires DistinctItems(stacks) && k < |stacks|
    ensures stacks[k].quantity == QtyOf(stacks, stacks[k].item)
  {
    var tail := stacks[1..];
    assert forall x :: 0 <= x < |tail| ==> tail[x] == stacks[x + 1];
    if k == 0 {
      QtyOfAbsent(tail, stacks[0].item);
    } else {
      QtyOfDistinct(tail, k - 1);
    }
  }

  lemma {:induction false} QtyOfAbsent(lines: seq<Line>, j: ItemId)
    requires forall x :: 0 <= x < |lines| ==> lines[x].item != j
    ensures QtyOf(lines, j) == 0
  {
    if lines != [] {
      assert forall x :: 0 <= x < |lines| - 1 ==> lines[1..][x] == lines[x + 1];
      QtyOfAbsent(lines[1..], j);
    }
  }

  /** The aggregation keeps every stackable item's total and drops every unique item's. */
  lemma {:induction false} AggregateQty(lines: seq<Line>, cat: Catalog, j: ItemId)
    requires AllKnown(lines, cat)
    ensures QtyOf(Aggregate(lines, cat), j) == (if j in cat && cat[j] > 1 then QtyOf(lines, j) else 0)
  {
    if lines != [] {
      var pre := lines[..|lines| - 1];
      var last := lines[|lines| - 1];
      assert AllKnown(pre, cat);
      AggregateQty(pre, cat, j);
      assert lines == pre + [last];
      QtyOfAppend(pre, [last], j);
      if cat[last.item] != 1 {
        AddToQty(Aggregate(pre, cat), last.item, last.quantity, j);
      }
    } else if j !in cat {
      QtyOfAbsent(lines, j);
    }
  }

  predicate NonNegative(lines: seq<Line>)
  {
    forall j :: 0 <= j < |lines| ==> lines[j].quantity >= 0
  }

  lemma {:induction false} UniqueUnitsCons(l: Line, lines: seq<Line>, cat: Catalog)
    requires l.item in cat && AllKnown(lines, cat)
    ensures AllKnown([l] + lines, cat)
    ensures UniqueUnits([l] + lines, cat) == (if cat[l.item] == 1 then Max(0, l.quantity) else 0) + UniqueUnits(lines, cat)
    decreases |lines|
  {
    if lines != [] {
      var pre := lines[..|lines| - 1];
      assert AllKnown(pre, cat);
      UniqueUnitsCons(l, pre, cat);
      assert ([l] + lines)[..|lines|] == [l] + pre;
    }
  }

  /** Adding q >= 0 units to the aggregation adds them to the unique units exactly when the item is unique. */
  lemma {:induction false} AddToUnique(stacks: seq<Line>, id: ItemId, q: int, cat: Catalog)
    requires AllKnown(stacks, cat) && NonNegative(stacks) && id in cat && q >= 0
    ensures AllKnown(AddTo(stacks, id, q), cat) && NonNegative(AddTo(stacks, id, q))
    ensures UniqueUnits(AddTo(stacks, id, q), cat) == UniqueUnits(stacks, cat) + (if cat[id] == 1 then q else 0)
  {
    if stacks == [] {
      UniqueUnitsCons(Line(id, q), [], cat);
    } else {
      assert AllKnown(stacks[1..], cat) && NonNegative(stacks[1..]);
      if stacks[0].item == id {
        AddToUniqueHead(stacks, id, q, cat);
      } else {
        AddToUnique(stacks[1..], id, q, cat);
        AddToUniqueNext(stacks, id, q, cat);
      }
    }
  }

  /** AddToUnique when the first line is already the item's: that line grows by q. */
  lemma AddToUniqueHead(stacks: seq<Line>, id: ItemId, q: int, cat: Catalog)
    requires AllKnown(stacks, cat) && NonNegative(stacks) && id in cat && q >= 0
    requires stacks != [] && stacks[0].item == id
    ensures AllKnown(AddTo(stacks, id, q), cat) && NonNegative(AddTo(stacks, id, q))
    ensures UniqueUnits(AddTo(stacks, id, q), cat) == UniqueUnits(stacks, cat) + (if cat[id] == 1 then q else 0)
  {
    var tail := stacks[1..];
    assert AllKnown(tail, cat) && NonNegative(tail);
    assert stacks == [stacks[0]] + tail;
    UniqueUnitsCons(stacks[0], tail, cat);
    UniqueUnitsCons(Line(id, stacks[0].quantity + q), tail, cat);
  }

  /** AddToUnique when the first line is another item's, given the fact for the rest of the lines. */
  lemma AddToUniqueNext(stacks: seq<Line>, id: ItemId, q: int, cat: Catalog)
    requires AllKnown(stacks, cat) && NonNegative(stacks) && id in cat && q >= 0
    requires stacks != [] && stacks[0].item != id
    requires var r := AddTo(stacks[1..], id, q);
      AllKnown(r, cat) && NonNegative(r) && UniqueUnits(r, cat) == UniqueUnits(stacks[1..], cat) + (if cat[id] == 1 then q else 0)
    ensures AllKnown(AddTo(stacks, id, q), cat) && NonNegative(AddTo(stacks, id, q))
    ensures UniqueUnits(AddTo(stacks, id, q), cat) == UniqueUnits(stacks, cat) + (if cat[id] == 1 then q else 0)
  {
    var tail := stacks[1..];
    var r := AddTo(tail, id, q);
    assert AllKnown(tail, cat) && NonNegative(tail);
    assert stacks == [stacks[0]] + tail;
    assert AddTo(stacks, id, q) == [stacks[0]] + r;
    UniqueUnitsCons(stacks[0], tail, cat);
    UniqueUnitsCons(stacks[0], r, cat);
    NonNegativeCons(stacks[0], r);
  }

  lemma NonNegativeCons(l: Line, lines: seq<Line>)
    requires l.quantity >= 0 && NonNegative(lines)
    ensures NonNegative([l] + lines)
  {
    forall j | 0 <= j < |[l] + lines|
      ensures ([l] + lines)[j].quantity >= 0
    {
      if j > 0 {
        assert ([l] + lines)[j] == lines[j - 1];
      }
    }
  }

  /** An unknown item makes the check fail whatever the slots. */
  lemma UnknownRefused(slots: seq<Slot>, lines: seq<Line>, cat: Catalog, j: nat)
    requires j < |lines| && lines[j].item !in cat
    ensures !CanReceive(slots, lines, cat)
  {
  }

  /** Fewer free slots than unique units makes the check fail whatever the stackable lines. */
  lemma TooFewFreeRefused(slots: seq<Slot>, lines: seq<Line>, cat: Catalog)
    requires AllKnown(lines, cat) && FreeCount(slots) < UniqueUnits(lines, cat)
    ensures !CanReceive(slots, lines, cat)
  {
  }
}
