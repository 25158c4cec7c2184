/** The inventory bot: ten slots per user, all-or-nothing add and remove, moves and
    merges between slots, using items (durability or quantity), and stack
    compaction after every stackable change. */
module MetroInventories {
  import opened Slots
  import opened Stacking
  import opened Removal

  const SlotsTotal: nat := 10

  datatype Reason =
    | InvalidQuantity
    | UnknownItem
    | NoRoomForUniques
    | NoRoomForStack
    | TooFewInstances
    | TooFewUnits
    | SameSlot
    | SlotOutOfRange
    | SourceEmpty
    | DestinationOccupied
    | DestinationFull
    | DestinationOtherItem
    | SlotEmpty
    | NotInCatalog
    | NoDurability

  datatype Outcome = Ok | Err(reason: Reason)

  /** An operation's answer and the owner's slots it would commit (the unchanged slots on an error). */
  datatype Change = Change(outcome: Outcome, slots: seq<Slot>)

  /** Number of slots holding `id`. */
  function HoldCount(slots: seq<Slot>, id: ItemId): nat
  {
    if slots == [] then 0 else (if Holds(slots[0], id) then 1 else 0) + HoldCount(slots[1..], id)
  }

  // ---------------------------------------------------------------------------
  // addItemsAtomic and removeItemsAtomic, after the argument checks and ensureSlots

  /** The add on the owner's slots: unique items take one free slot per unit with fresh ids
      next, next+1, ...; stackable items follow the top-up-then-fill plan. */
  function AddChange(s: seq<Slot>, cat: Catalog, id: ItemId, qty: int, next: InstanceId,
                     dur: Option<int>, durMax: Option<int>): (c: Change)
    requires id in cat
    ensures |c.slots| == |s|
  {
    if cat[id] == 1 then
      if FreeCount(s) < qty then Change(Err(NoRoomForUniques), s)
      else Change(Ok, PlaceUniques(s, id, next, qty, dur, durMax))
    else
      var p := AddStackPlan(s, id, cat[id], qty);
      if p.1 > 0 then Change(Err(NoRoomForStack), s) else Change(Ok, p.0)
  }

  /** The first `k` slots holding `id`, in slot order, are cleared. */
  function ClearFirst(s: seq<Slot>, id: ItemId, k: int): (r: seq<Slot>)
    ensures |r| == |s|
  {
    if s == [] then []
    else if k > 0 && Holds(s[0], id) then [Empty] + ClearFirst(s[1..], id, k - 1)
    else [s[0]] + ClearFirst(s[1..], id, k)
  }

  /** The remove on the owner's slots: unique items lose their first `qty` slots, stackable
      items are taken smallest stack first. */
  function RemoveChange(s: seq<Slot>, cat: Catalog, id: ItemId, qty: int): (c: Change)
    requires id in cat
    ensures |c.slots| == |s|
  {
    if cat[id] == 1 then
      if HoldCount(s, id) < qty then Change(Err(TooFewInstances), s)
      else Change(Ok, ClearFirst(s, id, qty))
    else if Count(s, id) < qty then Change(Err(TooFewUnits), s)
    else Change(Ok, RemoveStackPlan(s, id, qty).slots)
  }

  /** The add of `qty > 0` units succeeds exactly when there is room (one free slot per unique unit;
      partial-stack room plus stack_max per free slot for a stackable item); then it adds exactly qty
      units of `id` and changes no other item, and on failure nothing changes. */
  lemma AddChangeMeaning(s: seq<Slot>, cat: Catalog, id: ItemId, qty: int, next: InstanceId,
                         dur: Option<int>, durMax: Option<int>, j: ItemId)
    requires id in cat && qty > 0
    ensures var c := AddChange(s, cat, id, qty, next, dur, durMax);
      (c.outcome.Ok? <==>
        if cat[id] == 1 then qty <= FreeCount(s) else qty <= PartialRoom(s, id, cat[id]) + cat[id] * FreeCount(s)) &&
      (c.outcome.Ok? ==> Count(c.slots, j) == Count(s, j) + (if j == id then qty else 0)) &&
      (c.outcome.Err? ==> c.slots == s)
  {
    if cat[id] == 1 {
      if qty <= FreeCount(s) {
        PlaceUniquesFacts(s, id, next, qty, dur, durMax, j);
      }
    } else {
      AddPlanRoom(s, id, cat[id], qty);
      AddPlanCount(s, id, cat[id], qty, j);
    }
  }

  /** A unique add uses only free slots, each for one unit of `id` with a fresh id from next..next+qty-1. */
  lemma AddChangeUniqueSlots(s: seq<Slot>, cat: Catalog, id: ItemId, qty: int, next: InstanceId,
                             dur: Option<int>, durMax: Option<int>)
    requires id in cat && cat[id] == 1 && 0 < qty <= FreeCount(s)
    ensures var c := AddChange(s, cat, id, qty, next, dur, durMax);
      |c.slots| == |s| &&
      (forall i :: 0 <= i < |s| ==> c.slots[i] == s[i] || Placed(s[i], c.slots[i], id, next, next + qty, dur, durMax)) &&
      (forall a, b :: 0 <= a < b < |s| && c.slots[a] != s[a] && c.slots[b] != s[b] ==>
        c.slots[a].instance < c.slots[b].instance)
  {
    PlaceUniquesFacts(s, id, next, qty, dur, durMax, id);
    PlaceUniquesDistinct(s, id, next, qty, dur, durMax);
  }

  lemma {:induction false} HoldCountUnits(s: seq<Slot>, cat: Catalog, id: ItemId)
    requires Conforms(s, cat) && id in cat && cat[id] == 1
    ensures HoldCount(s, id) == Count(s, id)
  {
    if s != [] {
      assert SlotConforms(s[0], cat);
      assert Conforms(s[1..], cat) by {
        forall i | 0 <= i < |s[1..]| ensures SlotConforms(s[1..][i], cat) {
          assert s[1..][i] == s[i + 1];
        }
      }
      HoldCountUnits(s[1..], cat, id);
    }
  }

  /** Clearing at most HoldCount slots removes exactly that many of the item's slots and no other item. */
  lemma {:induction false} ClearFirstFacts(s: seq<Slot>, id: ItemId, k: int, j: ItemId)
    requires 0 <= k <= HoldCount(s, id)
    ensures HoldCount(ClearFirst(s, id, k), id) == HoldCount(s, id) - k
    ensures j != id ==> Count(ClearFirst(s, id, k), j) == Count(s, j)
    ensures forall i :: 0 <= i < |s| ==> ClearFirst(s, id, k)[i] == s[i] || ClearFirst(s, id, k)[i].Empty?
  {
    if s != [] {
      var r := ClearFirst(s, id, k);
      if k > 0 && Holds(s[0], id) {
        ClearFirstFacts(s[1..], id, k - 1, j);
        assert r[1..] == ClearFirst(s[1..], id, k - 1);
      } else {
        ClearFirstFacts(s[1..], id, k, j);
        assert r[1..] == ClearFirst(s[1..], id, k);
      }
      assert forall i :: 1 <= i < |s| ==> r[i] == r[1..][i - 1] && s[i] == s[1..][i - 1];
    }
  }

  lemma {:induction false} ClearFirstUnits(s: seq<Slot>, cat: Catalog, id: ItemId, k: int)
    requires Conforms(s, cat) && id in cat && cat[id] == 1 && 0 <= k <= HoldCount(s, id)
    ensures Count(ClearFirst(s, id, k), id) == Count(s, id) - k
  {
    ClearFirstFacts(s, id, k, id);
    HoldCountUnits(s, cat, id);
    ClearFirstConforms(s, cat, id, k);
    HoldCountUnits(ClearFirst(s, id, k), cat, id);
  }

  lemma ClearFirstConforms(s: seq<Slot>, cat: Catalog, id: ItemId, k: int)
    requires Conforms(s, cat) && 0 <= k <= HoldCount(s, id)
    ensures Conforms(ClearFirst(s, id, k), cat)
  {
    ClearFirstFacts(s, id, k, id);
  }

  /** The remove of `qty > 0` units succeeds exactly when the owner holds at least qty of them; then it
      lowers the item's total by exactly qty and changes no other item, and on failure nothing changes. */
  lemma RemoveChangeMeaning(s: seq<Slot>, cat: Catalog, id: ItemId, qty: int, j: ItemId)
    requires Conforms(s, cat) && id in cat && qty > 0
    ensures var c := RemoveChange(s, cat, id, qty);
      (c.outcome.Ok? <==> qty <= Count(s, id)) &&
      (c.outcome.Ok? ==> Count(c.slots, j) == Count(s, j) - (if j == id then qty else 0)) &&
      (c.outcome.Err? ==> c.slots == s)
  {
    if cat[id] == 1 {
      HoldCountUnits(s, cat, id);
      if qty <= HoldCount(s, id) {
        ClearFirstUnits(s, cat, id, qty);
        ClearFirstFacts(s, id, qty, j);
      }
    } else if qty <= Count(s, id) {
      RemovePlanExact(s, id, qty, j);
    }
  }

  // ---------------------------------------------------------------------------
  // Compaction (compactStacks)

  /** Every slot holding `id` is cleared. */
  function ClearItem(s: seq<Slot>, id: ItemId): (r: seq<Slot>)
    ensures |r| == |s|
  {
    if s == [] then [] else [if Holds(s[0], id) then Empty else s[0]] + ClearItem(s[1..], id)
  }

  /** Compaction as the source intends it: clear the item's slots, then lay its total back into the
      empty slots from the lowest, stack_max per slot. */
  function Compact(s: seq<Slot>, id: ItemId, max: StackMax): (r: seq<Slot>)
    ensures |r| == |s|
  {
    Fill(ClearItem(s, id), id, max, Count(s, id)).0
  }

  /** Compaction as written: the slots are read once, the item's slots are cleared, and the total is
      laid back only into slots that were empty in that earlier read; what does not fit is dropped. */
  function CompactStale(s: seq<Slot>, id: ItemId, max: StackMax, rem: int): (r: seq<Slot>)
    ensures |r| == |s|
  {
    if s == [] then []
    else if Holds(s[0], id) then [Empty] + CompactStale(s[1..], id, max, rem)
    else if rem > 0 && s[0].Empty? then [Stack(id, Min(max, rem))] + CompactStale(s[1..], id, max, rem - Min(max, rem))
    else [s[0]] + CompactStale(s[1..], id, max, rem)
  }

  function CompactAsWritten(s: seq<Slot>, id: ItemId, max: StackMax): seq<Slot>
  {
    CompactStale(s, id, max, Count(s, id))
  }

  lemma {:induction false} ClearItemFacts(s: seq<Slot>, id: ItemId, j: ItemId)
    ensures Count(ClearItem(s, id), j) == (if j == id then 0 else Count(s, j))
    ensures FreeCount(ClearItem(s, id)) == FreeCount(s) + HoldCount(s, id)
    ensures forall i :: 0 <= i < |s| ==>
      ClearItem(s, id)[i] == (if Holds(s[i], id) then Empty else s[i])
  {
    if s != [] {
      ClearItemFacts(s[1..], id, j);
      var r := ClearItem(s, id);
      assert r[1..] == ClearItem(s[1..], id);
      assert forall i :: 1 <= i < |s| ==> r[i] == r[1..][i - 1] && s[i] == s[1..][i - 1];
    }
  }

  /** An item none of whose slots exceeds stack_max has at most stack_max units per slot it holds. */
  lemma {:induction false} HoldBound(s: seq<Slot>, id: ItemId, max: StackMax)
    requires forall i :: 0 <= i < |s| && Holds(s[i], id) ==> Qty(s[i]) <= max
    ensures Count(s, id) <= max * HoldCount(s, id)
  {
    if s != [] {
      assert forall i :: 0 <= i < |s[1..]| ==> s[1..][i] == s[i + 1];
      HoldBound(s[1..], id, max);
      var h := HoldCount(s[1..], id);
      assert max * (h + 1) == max * h + max;
    }
  }

  /** The item's total always fits back: the slots it held plus the empty ones take stack_max each. */
  lemma CompactFits(s: seq<Slot>, cat: Catalog, id: ItemId)
    requires Conforms(s, cat) && id in cat && cat[id] > 1
    ensures Fill(ClearItem(s, id), id, cat[id], Count(s, id)).1 == 0
  {
    var max := cat[id];
    var cleared := ClearItem(s, id);
    ClearItemFacts(s, id, id);
    forall i | 0 <= i < |s| && Holds(s[i], id) ensures Qty(s[i]) <= max {
      assert SlotConforms(s[i], cat);
    }
    HoldBound(s, id, max);
    MulGrows(max, FreeCount(s), HoldCount(s, id));
    if Count(s, id) > 0 {
      FillLeft(cleared, id, max, Count(s, id));
    } else {
      FillIdle(cleared, id, max, Count(s, id));
    }
  }

  lemma MulGrows(max: int, f: nat, h: nat)
    requires max >= 1
    ensures max * (f + h) >= max * h
  {
    assert max * (f + h) == max * f + max * h;
  }

  /** Compaction keeps every item's total and keeps the slots within the catalogue. */
  lemma CompactConserves(s: seq<Slot>, cat: Catalog, id: ItemId, j: ItemId)
    requires Conforms(s, cat) && id in cat && cat[id] > 1
    ensures Count(Compact(s, id, cat[id]), j) == Count(s, j)
    ensures Conforms(Compact(s, id, cat[id]), cat)
  {
    var cleared := ClearItem(s, id);
    ClearItemFacts(s, id, j);
    CompactFits(s, cat, id);
    FillCount(cleared, id, cat[id], Count(s, id), j);
    FillShape(cleared, id, cat[id], Count(s, id));
  }

  /** Compacted stacks sit lowest first: a filled slot below a later filled one holds a full stack. */
  lemma CompactPacks(s: seq<Slot>, id: ItemId, max: StackMax)
    ensures |Compact(s, id, max)| == |s|
    ensures forall a, b :: 0 <= a < b < |s| && ClearItem(s, id)[a].Empty? && Compact(s, id, max)[b] != ClearItem(s, id)[b] ==>
      Compact(s, id, max)[a] == Stack(id, max)
  {
    FillInOrder(ClearItem(s, id), id, max, Count(s, id));
  }

  /** With no slot empty before compaction, the stale read leaves nowhere to put the item: all of it is lost. */
  lemma {:induction false} CompactAsWrittenLosesAll(s: seq<Slot>, id: ItemId, max: StackMax, rem: int)
    requires FreeCount(s) == 0
    ensures Count(CompactStale(s, id, max, rem), id) == 0
  {
    if s != [] {
      CompactAsWrittenLosesAll(s[1..], id, max, rem);
      var r := CompactStale(s, id, max, rem);
      assert r[1..] == CompactStale(s[1..], id, max, rem);
    }
  }

  /** inv-add of 2 x "ore" (stack_max 16) to slots [ore x3, then nine full stacks of "log"]: the add
      tops the first slot up to 5, and the compaction that follows, as written, leaves no ore at all,
      while the intended compaction keeps the 5. */
  lemma InvAddCompactionLoss()
    ensures var s0 := [Stack("ore", 3)] + seq(9, _ => Stack("log", 16));
      var p := AddStackPlan(s0, "ore", 16, 2);
      p.1 == 0 && Count(p.0, "ore") == 5 &&
      Count(CompactAsWritten(p.0, "ore", 16), "ore") == 0 &&
      Count(Compact(p.0, "ore", 16), "ore") == 5
  {
    var s0 := [Stack("ore", 3)] + seq(9, _ => Stack("log", 16));
    var cat: Catalog := map["ore" := 16, "log" := 16];
    assert PartialRoom(s0, "ore", 16) == 13 by {
      PartialRoomNone(s0[1..], "ore", 16);
      assert s0[1..] == seq(9, _ => Stack("log", 16));
    }
    FreeNone(s0);
    AddPlanRoom(s0, "ore", 16, 2);
    AddPlanCount(s0, "ore", 16, 2, "ore");
    AddPlanFree(s0, "ore", 16, 2);
    var p := AddStackPlan(s0, "ore", 16, 2);
    assert Count(s0, "ore") == 3 by {
      CountNone(s0[1..], "ore");
    }
    CompactAsWrittenLosesAll(p.0, "ore", 16, Count(p.0, "ore"));
    assert Conforms(s0, cat);
    AddPlanConforms(s0, cat, "ore", 2);
    CompactConserves(p.0, cat, "ore", "ore");
  }

  lemma {:induction false} PartialRoomNone(s: seq<Slot>, id: ItemId, max: int)
    requires forall i :: 0 <= i < |s| ==> !Holds(s[i], id)
    ensures PartialRoom(s, id, max) == 0
  {
    if s != [] {
      assert forall i :: 0 <= i < |s[1..]| ==> s[1..][i] == s[i + 1];
      PartialRoomNone(s[1..], id, max);
    }
  }

  lemma {:induction false} CountNone(s: seq<Slot>, id: ItemId)
    requires forall i :: 0 <= i < |s| ==> !Holds(s[i], id)
    ensures Count(s, id) == 0
  {
    CountZero(s, id);
  }

  lemma {:induction false} FreeNone(s: seq<Slot>)
    requires forall i :: 0 <= i < |s| ==> !s[i].Empty?
    ensures FreeCount(s) == 0
  {
    if s != [] {
      assert forall i :: 0 <= i < |s[1..]| ==> s[1..][i] == s[i + 1];
      FreeNone(s[1..]);
    }
  }
  // ---------------------------------------------------------------------------
  // moveBetweenSlots and use, after the range checks and ensureSlots

  /** Units left in a slot after `n` leave it: cleared at 0. */
  function Rest(item: ItemId, q: int, n: int): Slot
  {
    if q - n <= 0 then Empty else Stack(item, q - n)
  }

  /** stack_max as the move reads it: a missing catalogue entry counts as 16. */
  function MoveMax(cat: Catalog, item: ItemId): int
  {
    if item in cat then cat[item] else 16
  }

  /** The units a stackable move asks to carry: the requested amount (default: the whole source),
      clamped to 1..source quantity. */
  function MoveQty(qty: Option<int>, q: int): int
  {
    Max(1, Min(if qty.Some? then qty.value else q, q))
  }

  function MoveChange(s: seq<Slot>, cat: Catalog, from: int, to: int, qty: Option<int>): (c: Change)
    requires |s| == SlotsTotal && 1 <= from <= SlotsTotal && 1 <= to <= SlotsTotal && from != to
    ensures |c.slots| == |s|
  {
    var src, dst := s[from - 1], s[to - 1];
    if src.Empty? then Change(Err(SourceEmpty), s)
    else if MoveMax(cat, src.item) == 1 then
      if !dst.Empty? then Change(Err(DestinationOccupied), s)
      else Change(Ok, s[to - 1 := if src.Unique? then src else Stack(src.item, 1)][from - 1 := Empty])
    else
      var q := Qty(src);
      var m := MoveQty(qty, q);
      if dst.Empty? then Change(Ok, s[to - 1 := Stack(src.item, m)][from - 1 := Rest(src.item, q, m)])
      else if dst.item == src.item then
        var can := Min(MoveMax(cat, src.item) - Qty(dst), m);
        if can <= 0 then Change(Err(DestinationFull), s)
        else Change(Ok, s[to - 1 := Stack(src.item, Qty(dst) + can)][from - 1 := Rest(src.item, q, can)])
      else Change(Err(DestinationOtherItem), s)
  }

  /** Writing two distinct slots: the count moves by what the two slots held and now hold, the other
      slots are untouched, and the list conforms when the two new slots do. */
  lemma TwoWrites(s: seq<Slot>, cat: Catalog, a: nat, x: Slot, b: nat, y: Slot, j: ItemId)
    requires a < |s| && b < |s| && a != b && Conforms(s, cat)
    ensures var t := s[a := x][b := y];
      Count(t, j) == Count(s, j) - Amount(s[a], j) - Amount(s[b], j) + Amount(x, j) + Amount(y, j) &&
      (forall i :: 0 <= i < |s| && i != a && i != b ==> t[i] == s[i]) &&
      (SlotConforms(x, cat) && SlotConforms(y, cat) ==> Conforms(t, cat))
  {
    CountUpdate(s, a, x, j);
    CountUpdate(s[a := x], b, y, j);
  }

  /** A move is refused exactly when the source is empty, a unique unit meets an occupied slot, or a
      stack meets a full stack of its item or another item; an accepted move changes only the two slots,
      keeps every item's total, and carries min(stack_max - destination, clamped amount) units of a stack
      (the unique unit itself, for a unique item). */
  lemma MoveMeaning(s: seq<Slot>, cat: Catalog, from: int, to: int, qty: Option<int>, j: ItemId)
    requires |s| == SlotsTotal && 1 <= from <= SlotsTotal && 1 <= to <= SlotsTotal && from != to
    requires Conforms(s, cat)
    ensures var c := MoveChange(s, cat, from, to, qty);
      var src, dst := s[from - 1], s[to - 1];
      (c.outcome.Ok? <==>
        !src.Empty? &&
        (if cat[src.item] == 1 then dst.Empty?
         else dst.Empty? || (dst.item == src.item && Qty(dst) < cat[src.item]))) &&
      (c.outcome.Err? ==> c.slots == s) &&
      (c.outcome.Ok? ==>
        Count(c.slots, j) == Count(s, j) && Conforms(c.slots, cat) &&
        (forall i :: 0 <= i < |s| && i != from - 1 && i != to - 1 ==> c.slots[i] == s[i]) &&
        (cat[src.item] == 1 ==> c.slots[to - 1] == src && c.slots[from - 1].Empty?) &&
        (cat[src.item] > 1 ==>
          var moved := Min(cat[src.item] - Qty(dst), MoveQty(qty, Qty(src)));
          c.slots[to - 1] == Stack(src.item, Qty(dst) + moved) && Qty(c.slots[from - 1]) == Qty(src) - moved))
  {
    var src := s[from - 1];
    assert SlotConforms(src, cat);
    if !src.Empty? {
      if cat[src.item] == 1 {
        MoveUniqueCase(s, cat, from, to, qty, j);
      } else {
        assert src.Stack?;
        MoveStackCase(s, cat, from, to, qty, j);
      }
    }
  }

  /** MoveMeaning for a unique item. */
  lemma MoveUniqueCase(s: seq<Slot>, cat: Catalog, from: int, to: int, qty: Option<int>, j: ItemId)
    requires |s| == SlotsTotal && 1 <= from <= SlotsTotal && 1 <= to <= SlotsTotal && from != to
    requires Conforms(s, cat) && !s[from - 1].Empty? && s[from - 1].item in cat && cat[s[from - 1].item] == 1
    ensures var c := MoveChange(s, cat, from, to, qty);
      (c.outcome.Ok? <==> s[to - 1].Empty?) &&
      (c.outcome.Err? ==> c.slots == s) &&
      (c.outcome.Ok? ==>
        Count(c.slots, j) == Count(s, j) && Conforms(c.slots, cat) &&
        (forall i :: 0 <= i < |s| && i != from - 1 && i != to - 1 ==> c.slots[i] == s[i]) &&
        c.slots[to - 1] == s[from - 1] && c.slots[from - 1].Empty?)
  {
    var src, dst := s[from - 1], s[to - 1];
    assert SlotConforms(src, cat);
    assert src.Unique?;
    if dst.Empty? {
      TwoWrites(s, cat, to - 1, src, from - 1, Empty, j);
    }
  }

  /** MoveMeaning for a stackable item. */
  lemma MoveStackCase(s: seq<Slot>, cat: Catalog, from: int, to: int, qty: Option<int>, j: ItemId)
    requires |s| == SlotsTotal && 1 <= from <= SlotsTotal && 1 <= to <= SlotsTotal && from != to
    requires Conforms(s, cat) && s[from - 1].Stack? && s[from - 1].item in cat && cat[s[from - 1].item] > 1
    ensures var c := MoveChange(s, cat, from, to, qty);
      var src, dst := s[from - 1], s[to - 1];
      (c.outcome.Ok? <==> dst.Empty? || (dst.item == src.item && Qty(dst) < cat[src.item])) &&
      (c.outcome.Err? ==> c.slots == s) &&
      (c.outcome.Ok? ==>
        Count(c.slots, j) == Count(s, j) && Conforms(c.slots, cat) &&
        (forall i :: 0 <= i < |s| && i != from - 1 && i != to - 1 ==> c.slots[i] == s[i]) &&
        var moved := Min(cat[src.item] - Qty(dst), MoveQty(qty, Qty(src)));
        c.slots[to - 1] == Stack(src.item, Qty(dst) + moved) && Qty(c.slots[from - 1]) == Qty(src) - moved)
  {
    var src, dst := s[from - 1], s[to - 1];
    assert SlotConforms(dst, cat);
    if dst.Empty? {
      MoveToEmpty(s, cat, from, to, qty, j);
      assert Min(cat[src.item] - Qty(dst), MoveQty(qty, Qty(src))) == MoveQty(qty, src.qty);
    } else if dst.item == src.item {
      MoveMerge(s, cat, from, to, qty);
      if Min(cat[src.item] - dst.qty, MoveQty(qty, src.qty)) > 0 {
        MergeFits(s, cat, from, to, qty, j);
      }
    }
  }

  /** MoveStackCase onto a stack of the same item with room left. */
  lemma MergeFits(s: seq<Slot>, cat: Catalog, from: int, to: int, qty: Option<int>, j: ItemId)
    requires |s| == SlotsTotal && 1 <= from <= SlotsTotal && 1 <= to <= SlotsTotal && from != to
    requires Conforms(s, cat) && s[from - 1].Stack? && s[from - 1].item in cat && cat[s[from - 1].item] > 1
    requires s[to - 1].Stack? && s[to - 1].item == s[from - 1].item
    requires Min(cat[s[from - 1].item] - s[to - 1].qty, MoveQty(qty, s[from - 1].qty)) > 0
    ensures var c := MoveChange(s, cat, from, to, qty);
      var src, dst := s[from - 1], s[to - 1];
      (c.outcome.Ok? <==> dst.Empty? || (dst.item == src.item && Qty(dst) < cat[src.item])) &&
      (c.outcome.Err? ==> c.slots == s) &&
      (c.outcome.Ok? ==>
        Count(c.slots, j) == Count(s, j) && Conforms(c.slots, cat) &&
        (forall i :: 0 <= i < |s| && i != from - 1 && i != to - 1 ==> c.slots[i] == s[i]) &&
        var moved := Min(cat[src.item] - Qty(dst), MoveQty(qty, Qty(src)));
        c.slots[to - 1] == Stack(src.item, Qty(dst) + moved) && Qty(c.slots[from - 1]) == Qty(src) - moved)
  {
    var src, dst := s[from - 1], s[to - 1];
    var can := Min(cat[src.item] - dst.qty, MoveQty(qty, src.qty));
    MoveMerge(s, cat, from, to, qty);
    var c := MoveChange(s, cat, from, to, qty);
    assert SlotConforms(dst, cat);
    StackWrites(s, cat, to - 1, from - 1, src.item, src.qty, can, j);
    assert c.outcome.Ok? && c.slots[to - 1] == Stack(src.item, Qty(dst) + can);
    assert Qty(c.slots[from - 1]) == Qty(src) - can;
  }

  /** MoveStackCase onto an empty slot. */
  lemma MoveToEmpty(s: seq<Slot>, cat: Catalog, from: int, to: int, qty: Option<int>, j: ItemId)
    requires |s| == SlotsTotal && 1 <= from <= SlotsTotal && 1 <= to <= SlotsTotal && from != to
    requires Conforms(s, cat) && s[from - 1].Stack? && s[from - 1].item in cat && cat[s[from - 1].item] > 1
    requires s[to - 1].Empty?
    ensures var c := MoveChange(s, cat, from, to, qty);
      var src := s[from - 1];
      var m := MoveQty(qty, src.qty);
      c.outcome.Ok? && Count(c.slots, j) == Count(s, j) && Conforms(c.slots, cat) &&
      (forall i :: 0 <= i < |s| && i != from - 1 && i != to - 1 ==> c.slots[i] == s[i]) &&
      m <= cat[src.item] && c.slots[to - 1] == Stack(src.item, m) && Qty(c.slots[from - 1]) == src.qty - m
  {
    var src := s[from - 1];
    var m := MoveQty(qty, src.qty);
    assert MoveChange(s, cat, from, to, qty) == Change(Ok, s[to - 1 := Stack(src.item, m)][from - 1 := Rest(src.item, src.qty, m)]);
    StackWrites(s, cat, to - 1, from - 1, src.item, src.qty, m, j);
  }

  /** MoveStackCase onto a stack of the same item: the move carries what fits, or is refused when
      nothing does. */
  lemma MoveMerge(s: seq<Slot>, cat: Catalog, from: int, to: int, qty: Option<int>)
    requires |s| == SlotsTotal && 1 <= from <= SlotsTotal && 1 <= to <= SlotsTotal && from != to
    requires s[from - 1].Stack? && s[from - 1].item in cat && cat[s[from - 1].item] > 1
    requires s[to - 1].Stack? && s[to - 1].item == s[from - 1].item
    ensures var src, dst := s[from - 1], s[to - 1];
      var can := Min(cat[src.item] - dst.qty, MoveQty(qty, src.qty));
      MoveChange(s, cat, from, to, qty) ==
        if can > 0 then Change(Ok, s[to - 1 := Stack(src.item, dst.qty + can)][from - 1 := Rest(src.item, src.qty, can)])
        else Change(Err(DestinationFull), s)
  {
  }

  /** Moving `n` units of a stack at `b` onto an empty slot or a stack of the same item at `a`. */
  lemma StackWrites(s: seq<Slot>, cat: Catalog, a: nat, b: nat, id: ItemId, q: Pos, n: int, j: ItemId)
    requires a < |s| && b < |s| && a != b && Conforms(s, cat)
    requires s[b] == Stack(id, q) && id in cat && cat[id] > 1
    requires s[a].Empty? || (s[a].Stack? && s[a].item == id)
    requires 1 <= n <= q && Qty(s[a]) + n <= cat[id]
    ensures var t := s[a := Stack(id, Qty(s[a]) + n)][b := Rest(id, q, n)];
      Count(t, j) == Count(s, j) && Conforms(t, cat) &&
      (forall i :: 0 <= i < |s| && i != a && i != b ==> t[i] == s[i])
  {
    TwoWrites(s, cat, a, Stack(id, Qty(s[a]) + n), b, Rest(id, q, n), j);
  }

  /** Using the item in one slot: a unique unit with durability wears by max(1, amount) down to 0 and
      breaks (the slot is cleared) at 0; a stack loses max(1, amount) units if it has them. */
  function UseChange(s: seq<Slot>, cat: Catalog, slot: int, amount: int): (c: Change)
    requires |s| == SlotsTotal && 1 <= slot <= SlotsTotal
    ensures |c.slots| == |s|
  {
    var x := s[slot - 1];
    var dec := Max(1, amount);
    if x.Empty? then Change(Err(SlotEmpty), s)
    else if x.item !in cat then Change(Err(NotInCatalog), s)
    else if cat[x.item] == 1 then
      if !(x.Unique? && x.durability.Some? && x.durabilityMax.Some?) then Change(Err(NoDurability), s)
      else
        var wear := Max(0, x.durability.value - dec);
        Change(Ok, s[slot - 1 := if wear == 0 then Empty else Unique(x.item, x.instance, Some(wear), x.durabilityMax)])
    else if Qty(x) < dec then Change(Err(TooFewUnits), s)
    else Change(Ok, s[slot - 1 := Rest(x.item, Qty(x), dec)])
  }

  /** The use handler: UseChange, followed by compaction of the item when it is stackable. */
  function UseResult(s: seq<Slot>, cat: Catalog, slot: int, amount: int): (c: Change)
    requires |s| == SlotsTotal && 1 <= slot <= SlotsTotal
    ensures |c.slots| == |s|
  {
    var c := UseChange(s, cat, slot, amount);
    var x := s[slot - 1];
    if c.outcome.Ok? && x.item in cat && cat[x.item] > 1 then Change(Ok, Compact(c.slots, x.item, cat[x.item]))
    else c
  }

  /** Wearing a unique unit: the new durability is max(0, durability - max(1, amount)), the unit keeps its
      instance id and maximum, and it is gone exactly when the durability reaches 0. */
  lemma UseUniqueMeaning(s: seq<Slot>, cat: Catalog, slot: int, amount: int)
    requires |s| == SlotsTotal && 1 <= slot <= SlotsTotal && Conforms(s, cat)
    requires !s[slot - 1].Empty? && s[slot - 1].item in cat && cat[s[slot - 1].item] == 1
    ensures var x := s[slot - 1];
      var c := UseResult(s, cat, slot, amount);
      x.Unique? &&
      (c.outcome.Ok? <==> x.durability.Some? && x.durabilityMax.Some?) &&
      (c.outcome.Err? ==> c.slots == s) &&
      (c.outcome.Ok? ==>
        var wear := Max(0, x.durability.value - Max(1, amount));
        (forall i :: 0 <= i < |s| && i != slot - 1 ==> c.slots[i] == s[i]) &&
        (wear == 0 <==> c.slots[slot - 1].Empty?) &&
        (wear > 0 ==> c.slots[slot - 1] == x.(durability := Some(wear))) &&
        Count(c.slots, x.item) == Count(s, x.item) - (if wear == 0 then 1 else 0))
  {
    assert SlotConforms(s[slot - 1], cat);
    var c := UseResult(s, cat, slot, amount);
    if c.outcome.Ok? {
      CountUpdate(s, slot - 1, c.slots[slot - 1], s[slot - 1].item);
    }
  }

  /** Using a stackable item succeeds exactly when the slot holds at least max(1, amount) units; then the
      owner's total of that item, after the compaction that follows, is lower by exactly that much and
      no other item changes. */
  lemma UseStackMeaning(s: seq<Slot>, cat: Catalog, slot: int, amount: int, j: ItemId)
    requires |s| == SlotsTotal && 1 <= slot <= SlotsTotal && Conforms(s, cat)
    requires !s[slot - 1].Empty? && s[slot - 1].item in cat && cat[s[slot - 1].item] > 1
    ensures var x := s[slot - 1];
      var c := UseResult(s, cat, slot, amount);
      (c.outcome.Ok? <==> Qty(x) >= Max(1, amount)) &&
      (c.outcome.Err? ==> c.slots == s) &&
      (c.outcome.Ok? ==>
        Count(c.slots, j) == Count(s, j) - (if j == x.item then Max(1, amount) else 0) && Conforms(c.slots, cat))
  {
    var x := s[slot - 1];
    assert SlotConforms(x, cat);
    var u := UseChange(s, cat, slot, amount);
    if u.outcome.Ok? {
      CountUpdate(s, slot - 1, u.slots[slot - 1], j);
      assert Conforms(u.slots, cat) by {
        forall i | 0 <= i < |s| ensures SlotConforms(u.slots[i], cat) {
          if i != slot - 1 {
            assert u.slots[i] == s[i];
          }
        }
      }
      CompactConserves(u.slots, cat, x.item, j);
    }
  }

  // ---------------------------------------------------------------------------
  // The handlers' compositions: inv-add and inv-remove compact stackable items afterwards

  function InvAddResult(s: seq<Slot>, cat: Catalog, id: ItemId, qty: int, next: InstanceId,
                        dur: Option<int>, durMax: Option<int>): (c: Change)
    requires id in cat
    ensures |c.slots| == |s|
  {
    var c := AddChange(s, cat, id, qty, next, dur, durMax);
    if c.outcome.Ok? && cat[id] > 1 then Change(Ok, Compact(c.slots, id, cat[id])) else c
  }

  function InvRemoveResult(s: seq<Slot>, cat: Catalog, id: ItemId, qty: int): (c: Change)
    requires id in cat
    ensures |c.slots| == |s|
  {
    var c := RemoveChange(s, cat, id, qty);
    if c.outcome.Ok? && cat[id] > 1 then Change(Ok, Compact(c.slots, id, cat[id])) else c
  }

  /** inv-add, compaction included, adds exactly qty units when it succeeds and keeps the slots in the catalogue. */
  lemma InvAddTotals(s: seq<Slot>, cat: Catalog, id: ItemId, qty: int, next: InstanceId,
                     dur: Option<int>, durMax: Option<int>, j: ItemId)
    requires Conforms(s, cat) && id in cat && qty > 0
    ensures var c := InvAddResult(s, cat, id, qty, next, dur, durMax);
      c.outcome == AddChange(s, cat, id, qty, next, dur, durMax).outcome &&
      (c.outcome.Ok? ==> Count(c.slots, j) == Count(s, j) + (if j == id then qty else 0) && Conforms(c.slots, cat))
  {
    AddChangeMeaning(s, cat, id, qty, next, dur, durMax, j);
    var a := AddChange(s, cat, id, qty, next, dur, durMax);
    if a.outcome.Ok? {
      AddChangeConforms(s, cat, id, qty, next, dur, durMax);
      if cat[id] > 1 {
        CompactConserves(a.slots, cat, id, j);
      }
    }
  }

  lemma AddChangeConforms(s: seq<Slot>, cat: Catalog, id: ItemId, qty: int, next: InstanceId,
                          dur: Option<int>, durMax: Option<int>)
    requires Conforms(s, cat) && id in cat && qty > 0
    ensures Conforms(AddChange(s, cat, id, qty, next, dur, durMax).slots, cat)
  {
    if cat[id] == 1 {
      if qty <= FreeCount(s) {
        PlaceUniquesFacts(s, id, next, qty, dur, durMax, id);
      }
    } else {
      AddPlanConforms(s, cat, id, qty);
    }
  }

  /** inv-remove, compaction included, removes exactly qty units when it succeeds. */
  lemma InvRemoveTotals(s: seq<Slot>, cat: Catalog, id: ItemId, qty: int, j: ItemId)
    requires Conforms(s, cat) && id in cat && qty > 0
    ensures var c := InvRemoveResult(s, cat, id, qty);
      (c.outcome.Ok? <==> qty <= Count(s, id)) &&
      (c.outcome.Ok? ==> Count(c.slots, j) == Count(s, j) - (if j == id then qty else 0) && Conforms(c.slots, cat))
  {
    RemoveChangeMeaning(s, cat, id, qty, j);
    var c := RemoveChange(s, cat, id, qty);
    if c.outcome.Ok? {
      RemoveChangeConforms(s, cat, id, qty);
      if cat[id] > 1 {
        CompactConserves(c.slots, cat, id, j);
      }
    }
  }

  lemma RemoveChangeConforms(s: seq<Slot>, cat: Catalog, id: ItemId, qty: int)
    requires Conforms(s, cat) && id in cat && qty > 0
    ensures Conforms(RemoveChange(s, cat, id, qty).slots, cat)
  {
    if cat[id] == 1 {
      if qty <= HoldCount(s, id) {
        ClearFirstConforms(s, cat, id, qty);
      }
    } else if qty <= Count(s, id) {
      RemovePlanExact(s, id, qty, id);
      OrderTouchable(s, id);
      TakeConserves(s, RemovalOrder(s, id), id, qty, id);
      var t := RemoveStackPlan(s, id, qty);
      forall i | 0 <= i < |s| ensures SlotConforms(t.slots[i], cat) {
        assert SlotConforms(s[i], cat);
      }
    }
  }
  // ---------------------------------------------------------------------------
  // Instance ids through every change: unique units stay put, move as a whole, or are fresh

  lemma StayTrans(a: seq<Slot>, b: seq<Slot>, c: seq<Slot>)
    requires UniquesStay(a, b) && UniquesStay(b, c)
    ensures UniquesStay(a, c)
  {
  }

  lemma RefreshedStay(s: seq<Slot>, p: seq<Slot>, q: seq<Slot>, lo: int, hi: int)
    requires Refreshed(s, p, lo, hi) && UniquesStay(p, q)
    ensures Refreshed(s, q, lo, hi)
  {
    forall a, b | 0 <= a < |q| && 0 <= b < |q| && a != b && q[a].Unique? && q[b].Unique?
      ensures q[a].instance != q[b].instance
    {
      assert p[a].Unique? && p[b].Unique?;
    }
  }

  /** The add hands out ids next..next+qty-1 to the new unique units and leaves every other unit's id alone. */
  lemma AddChangeRefreshed(s: seq<Slot>, cat: Catalog, id: ItemId, qty: int, next: InstanceId,
                           dur: Option<int>, durMax: Option<int>)
    requires id in cat && qty > 0 && InstancesDistinct(s) && forall x :: x in Instances(s) ==> x < next
    ensures var c := AddChange(s, cat, id, qty, next, dur, durMax);
      Refreshed(s, c.slots, next, next + (if c.outcome.Ok? && cat[id] == 1 then qty else 0))
  {
    var c := AddChange(s, cat, id, qty, next, dur, durMax);
    if cat[id] == 1 && FreeCount(s) >= qty {
      var r := c.slots;
      PlaceUniquesFacts(s, id, next, qty, dur, durMax, id);
      PlaceUniquesDistinct(s, id, next, qty, dur, durMax);
      forall i | 0 <= i < |r| && r[i].Unique?
        ensures r[i].instance in Instances(s) || next <= r[i].instance < next + qty
      {
        if r[i] == s[i] {
          assert s[i].Unique?;
        }
      }
      forall a, b | 0 <= a < |r| && 0 <= b < |r| && a != b && r[a].Unique? && r[b].Unique?
        ensures r[a].instance != r[b].instance
      {
        if r[a] == s[a] && r[b] != s[b] {
          assert s[a].instance in Instances(s);
        } else if r[a] != s[a] && r[b] == s[b] {
          assert s[b].instance in Instances(s);
        }
      }
    } else if cat[id] > 1 {
      AddPlanShape(s, id, cat[id], qty);
      StayRefreshed(s, c.slots, next);
    } else {
      StayRefreshed(s, c.slots, next);
    }
  }

  lemma RemoveChangeStay(s: seq<Slot>, cat: Catalog, id: ItemId, qty: int)
    requires id in cat && qty > 0
    ensures UniquesStay(s, RemoveChange(s, cat, id, qty).slots)
  {
    if cat[id] == 1 {
      if qty <= HoldCount(s, id) {
        ClearFirstFacts(s, id, qty, id);
      }
    } else if qty <= Count(s, id) {
      OrderTouchable(s, id);
      TakeConserves(s, RemovalOrder(s, id), id, qty, id);
    }
  }

  lemma CompactStay(s: seq<Slot>, id: ItemId, max: StackMax)
    ensures UniquesStay(s, Compact(s, id, max))
  {
    ClearItemFacts(s, id, id);
    FillShape(ClearItem(s, id), id, max, Count(s, id));
  }

  /** Using an item never moves or renumbers a unique unit. */
  lemma UseResultStay(s: seq<Slot>, cat: Catalog, slot: int, amount: int)
    requires |s| == SlotsTotal && 1 <= slot <= SlotsTotal
    ensures UniquesStay(s, UseResult(s, cat, slot, amount).slots)
  {
    var u := UseChange(s, cat, slot, amount);
    assert UniquesStay(s, u.slots);
    var x := s[slot - 1];
    if u.outcome.Ok? && x.item in cat && cat[x.item] > 1 {
      CompactStay(u.slots, x.item, cat[x.item]);
      StayTrans(s, u.slots, Compact(u.slots, x.item, cat[x.item]));
    }
  }

  /** A move carries a unique unit, id and all, into an empty slot and clears its old slot. */
  lemma MoveRefreshed(s: seq<Slot>, cat: Catalog, from: int, to: int, qty: Option<int>, next: InstanceId)
    requires |s| == SlotsTotal && 1 <= from <= SlotsTotal && 1 <= to <= SlotsTotal && from != to
    requires Conforms(s, cat) && InstancesDistinct(s)
    ensures Refreshed(s, MoveChange(s, cat, from, to, qty).slots, next, next)
  {
    var c := MoveChange(s, cat, from, to, qty);
    var r := c.slots;
    assert SlotConforms(s[from - 1], cat) && SlotConforms(s[to - 1], cat);
    forall i | 0 <= i < |r| && r[i].Unique?
      ensures r[i] == s[if i == to - 1 && c.outcome.Ok? then from - 1 else i]
      ensures c.outcome.Ok? ==> i != from - 1
      ensures r[i].instance in Instances(s)
    {
      var j := if i == to - 1 && c.outcome.Ok? then from - 1 else i;
      assert r[i] == s[j];
    }
  }

  lemma InvAddRefreshed(s: seq<Slot>, cat: Catalog, id: ItemId, qty: int, next: InstanceId,
                        dur: Option<int>, durMax: Option<int>)
    requires id in cat && qty > 0 && InstancesDistinct(s) && forall x :: x in Instances(s) ==> x < next
    ensures var c := InvAddResult(s, cat, id, qty, next, dur, durMax);
      Refreshed(s, c.slots, next, next + (if c.outcome.Ok? && cat[id] == 1 then qty else 0))
  {
    var a := AddChange(s, cat, id, qty, next, dur, durMax);
    AddChangeRefreshed(s, cat, id, qty, next, dur, durMax);
    if a.outcome.Ok? && cat[id] > 1 {
      CompactStay(a.slots, id, cat[id]);
      RefreshedStay(s, a.slots, Compact(a.slots, id, cat[id]), next, next);
    }
  }

  lemma InvRemoveStay(s: seq<Slot>, cat: Catalog, id: ItemId, qty: int)
    requires id in cat && qty > 0
    ensures UniquesStay(s, InvRemoveResult(s, cat, id, qty).slots)
  {
    var c := RemoveChange(s, cat, id, qty);
    RemoveChangeStay(s, cat, id, qty);
    if c.outcome.Ok? && cat[id] > 1 {
      CompactStay(c.slots, id, cat[id]);
      StayTrans(s, c.slots, Compact(c.slots, id, cat[id]));
    }
  }
  // ---------------------------------------------------------------------------
  // The clearing loops over a copy of the slots

  /** removeItemsAtomic's unique loop: clear the first k slots holding `id`. */
  method PlanClearFirst(s: seq<Slot>, id: ItemId, k: int) returns (plan: seq<Slot>)
    ensures plan == ClearFirst(s, id, k)
  {
    plan := s;
    var i, left := 0, k;
    assert plan[..0] + ClearFirst(s[0..], id, left) == ClearFirst(s, id, k);
    while i < |plan|
      invariant 0 <= i <= |plan| == |s|
      invariant plan[i..] == s[i..]
      invariant ClearFirst(s, id, k) == plan[..i] + ClearFirst(s[i..], id, left)
    {
      ghost var plan0, left0 := plan, left;
      if left > 0 && Holds(plan[i], id) {
        plan := plan[i := Empty];
        left := left - 1;
      }
      ClearFirstStep(s, id, k, plan0, i, left0, plan, left);
      i := i + 1;
    }
    assert plan[..i] == plan;
  }

  /** One step of the unique clearing loop: slot i is cleared if it holds `id` and units remain to clear. */
  lemma ClearFirstStep(s: seq<Slot>, id: ItemId, k: int, plan: seq<Slot>, i: nat, left: int, plan2: seq<Slot>, left2: int)
    requires i < |plan| == |s| && plan[i..] == s[i..]
    requires ClearFirst(s, id, k) == plan[..i] + ClearFirst(s[i..], id, left)
    requires if left > 0 && Holds(plan[i], id) then plan2 == plan[i := Empty] && left2 == left - 1
      else plan2 == plan && left2 == left
    ensures |plan2| == |s| && plan2[i + 1..] == s[i + 1..]
    ensures ClearFirst(s, id, k) == plan2[..i + 1] + ClearFirst(s[i + 1..], id, left2)
  {
    assert s[i..][0] == plan[i] && s[i..][1..] == s[i + 1..];
    assert plan2[..i + 1] == plan[..i] + [plan2[i]];
  }

  /** compactStacks' clearing loop: every slot holding `id` is cleared. */
  method PlanClearItem(s: seq<Slot>, id: ItemId) returns (plan: seq<Slot>)
    ensures plan == ClearItem(s, id)
  {
    ClearItemFacts(s, id, id);
    plan := s;
    var i := 0;
    while i < |plan|
      invariant 0 <= i <= |plan| == |s|
      invariant forall k :: 0 <= k < |s| ==> plan[k] == if k < i then ClearItem(s, id)[k] else s[k]
    {
      if Holds(plan[i], id) {
        plan := plan[i := Empty];
      }
      i := i + 1;
    }
  }

  /** The table as the handlers find it after ensureSlots(o). */
  function Prepared(rows: Rows, o: Owner): (r: Rows)
    ensures Provisioned(r, o, SlotsTotal)
  {
    Provision(rows, o, SlotsTotal)
  }

  /** Committing an accepted removal, move or use keeps the slot table valid. */
  lemma RemoveCommitValid(rows: Rows, cat: Catalog, next: InstanceId, o: Owner, id: ItemId, qty: int)
    requires TableValid(rows, cat, SlotsTotal, next) && Provisioned(rows, o, SlotsTotal) && id in cat && qty > 0
    ensures TableValid(WriteBack(rows, o, RemoveChange(View(rows, o, SlotsTotal), cat, id, qty).slots), cat, SlotsTotal, next)
  {
    var v := View(rows, o, SlotsTotal);
    ViewValid(rows, cat, SlotsTotal, next, o);
    RemoveChangeStay(v, cat, id, qty);
    RemoveChangeConforms(v, cat, id, qty);
    StayRefreshed(v, RemoveChange(v, cat, id, qty).slots, next);
    CommitValid(rows, cat, SlotsTotal, next, o, RemoveChange(v, cat, id, qty).slots, next);
  }

  lemma MoveCommitValid(rows: Rows, cat: Catalog, next: InstanceId, o: Owner, from: int, to: int, qty: Option<int>)
    requires TableValid(rows, cat, SlotsTotal, next) && Provisioned(rows, o, SlotsTotal)
    requires 1 <= from <= SlotsTotal && 1 <= to <= SlotsTotal && from != to
    ensures TableValid(WriteBack(rows, o, MoveChange(View(rows, o, SlotsTotal), cat, from, to, qty).slots), cat, SlotsTotal, next)
  {
    var v := View(rows, o, SlotsTotal);
    ViewValid(rows, cat, SlotsTotal, next, o);
    MoveMeaning(v, cat, from, to, qty, "");
    MoveRefreshed(v, cat, from, to, qty, next);
    CommitValid(rows, cat, SlotsTotal, next, o, MoveChange(v, cat, from, to, qty).slots, next);
  }

  /** A move, accepted or refused, keeps the slot table valid. */
  lemma MoveValid(rows: Rows, cat: Catalog, next: InstanceId, o: Owner, from: int, to: int, qty: Option<int>)
    requires TableValid(rows, cat, SlotsTotal, next)
    requires 1 <= from <= SlotsTotal && 1 <= to <= SlotsTotal && from != to
    ensures var pre := Prepared(rows, o);
      var c := MoveChange(View(pre, o, SlotsTotal), cat, from, to, qty);
      TableValid(if c.outcome.Ok? then WriteBack(pre, o, c.slots) else pre, cat, SlotsTotal, next)
  {
    ProvisionValid(rows, cat, SlotsTotal, next, o);
    MoveCommitValid(Prepared(rows, o), cat, next, o, from, to, qty);
  }

  /** Using a slot, accepted or refused, keeps the slot table valid. */
  lemma UseValid(rows: Rows, cat: Catalog, next: InstanceId, o: Owner, slot: int, amount: int)
    requires TableValid(rows, cat, SlotsTotal, next) && 1 <= slot <= SlotsTotal
    ensures var pre := Prepared(rows, o);
      var c := UseResult(View(pre, o, SlotsTotal), cat, slot, amount);
      TableValid(if c.outcome.Ok? then WriteBack(pre, o, c.slots) else pre, cat, SlotsTotal, next)
  {
    ProvisionValid(rows, cat, SlotsTotal, next, o);
    UseCommitValid(Prepared(rows, o), cat, next, o, slot, amount);
  }

  lemma UseCommitValid(rows: Rows, cat: Catalog, next: InstanceId, o: Owner, slot: int, amount: int)
    requires TableValid(rows, cat, SlotsTotal, next) && Provisioned(rows, o, SlotsTotal) && 1 <= slot <= SlotsTotal
    ensures TableValid(WriteBack(rows, o, UseResult(View(rows, o, SlotsTotal), cat, slot, amount).slots), cat, SlotsTotal, next)
  {
    var v := View(rows, o, SlotsTotal);
    ViewValid(rows, cat, SlotsTotal, next, o);
    var c := UseResult(v, cat, slot, amount);
    var x := v[slot - 1];
    if c.outcome.Ok? {
      if cat[x.item] == 1 {
        UseUniqueMeaning(v, cat, slot, amount);
      } else {
        UseStackMeaning(v, cat, slot, amount, x.item);
      }
    }
    assert Conforms(c.slots, cat);
    UseResultStay(v, cat, slot, amount);
    StayRefreshed(v, c.slots, next);
    CommitValid(rows, cat, SlotsTotal, next, o, c.slots, next);
  }

  // ---------------------------------------------------------------------------
  // The bot's state: a fixed catalogue, the slot table and the fresh-id supply

  class Inventory {
    const cat: Catalog
    var rows: Rows
    var nextId: InstanceId

    ghost predicate Valid()
      reads this
    {
      TableValid(rows, cat, SlotsTotal, nextId)
    }

    constructor (cat: Catalog)
      ensures Valid() && this.cat == cat && rows == map[] && nextId == 0
    {
      this.cat := cat;
      rows := map[];
      nextId := 0;
    }

    /** ensureSlots: insert the owner's missing rows 1..10 as empty slots. */
    method EnsureSlots(o: Owner)
      requires Valid()
      modifies this
      ensures Valid() && rows == Prepared(old(rows), o) && nextId == old(nextId)
    {
      ProvisionValid(rows, cat, SlotsTotal, nextId, o);
      rows := EnsureRows(rows, o, SlotsTotal);
    }

    /** addItemsAtomic: argument checks, ensureSlots, then the add planned on a copy and committed only
        when it succeeds. */
    method AddItemsAtomic(o: Owner, id: ItemId, qty: int, dur: Option<int>, durMax: Option<int>) returns (outcome: Outcome)
      requires Valid()
      modifies this
      ensures Valid()
      ensures qty <= 0 ==> outcome == Err(InvalidQuantity) && rows == old(rows) && nextId == old(nextId)
      ensures qty > 0 && id !in cat ==> outcome == Err(UnknownItem) && rows == old(rows) && nextId == old(nextId)
      ensures qty > 0 && id in cat ==>
        var pre := Prepared(old(rows), o);
        var c := AddChange(View(pre, o, SlotsTotal), cat, id, qty, old(nextId), dur, durMax);
        outcome == c.outcome &&
        rows == (if c.outcome.Ok? then WriteBack(pre, o, c.slots) else pre) &&
        nextId == old(nextId) + (if c.outcome.Ok? && cat[id] == 1 then qty else 0)
    {
      if qty <= 0 {
        return Err(InvalidQuantity);
      }
      if id !in cat {
        return Err(UnknownItem);
      }
      EnsureSlots(o);
      var slots := View(rows, o, SlotsTotal);
      ViewValid(rows, cat, SlotsTotal, nextId, o);
      AddChangeRefreshed(slots, cat, id, qty, nextId, dur, durMax);
      AddChangeConforms(slots, cat, id, qty, nextId, dur, durMax);
      var max := cat[id];
      if max == 1 {
        if FreeCount(slots) < qty {
          return Err(NoRoomForUniques);
        }
        var plan := PlanUniques(slots, id, nextId, qty, dur, durMax);
        CommitValid(rows, cat, SlotsTotal, nextId, o, plan, nextId + qty);
        rows := WriteBack(rows, o, plan);
        nextId := nextId + qty;
        outcome := Ok;
      } else {
        var plan, remaining := PlanStackAdd(slots, id, max, qty);
        if remaining > 0 {
          return Err(NoRoomForStack);
        }
        CommitValid(rows, cat, SlotsTotal, nextId, o, plan, nextId);
        rows := WriteBack(rows, o, plan);
        outcome := Ok;
      }
    }

    /** removeItemsAtomic: argument checks, ensureSlots, then the removal planned on a copy. */
    method RemoveItemsAtomic(o: Owner, id: ItemId, qty: int) returns (outcome: Outcome)
      requires Valid()
      modifies this
      ensures Valid() && nextId == old(nextId)
      ensures qty <= 0 ==> outcome == Err(InvalidQuantity) && rows == old(rows)
      ensures qty > 0 && id !in cat ==> outcome == Err(UnknownItem) && rows == old(rows)
      ensures qty > 0 && id in cat ==>
        var pre := Prepared(old(rows), o);
        var c := RemoveChange(View(pre, o, SlotsTotal), cat, id, qty);
        outcome == c.outcome && rows == (if c.outcome.Ok? then WriteBack(pre, o, c.slots) else pre)
    {
      if qty <= 0 {
        return Err(InvalidQuantity);
      }
      if id !in cat {
        return Err(UnknownItem);
      }
      EnsureSlots(o);
      ghost var pre := rows;
      var slots := View(rows, o, SlotsTotal);
      ghost var c := RemoveChange(slots, cat, id, qty);
      RemoveCommitValid(rows, cat, nextId, o, id, qty);
      var plan;
      if cat[id] == 1 {
        if HoldCount(slots, id) < qty {
          return Err(TooFewInstances);
        }
        plan := PlanClearFirst(slots, id, qty);
      } else {
        if Count(slots, id) < qty {
          return Err(TooFewUnits);
        }
        var order := RemovalOrder(slots, id);
        RemovalOrderInRange(slots, id);
        var t := PlanTake(slots, order, id, qty);
        plan := t.slots;
      }
      assert c.outcome == Ok && plan == c.slots;
      rows := WriteBack(rows, o, plan);
      outcome := Ok;
    }

    /** compactStacks, as the source intends it (nothing for an unknown or unique item). */
    method CompactStacks(o: Owner, id: ItemId)
      requires Valid()
      modifies this
      ensures Valid() && nextId == old(nextId)
      ensures id !in cat || cat[id] == 1 ==> rows == old(rows)
      ensures id in cat && cat[id] > 1 ==>
        var pre := Prepared(old(rows), o);
        rows == WriteBack(pre, o, Compact(View(pre, o, SlotsTotal), id, cat[id]))
    {
      if id !in cat || cat[id] == 1 {
        return;
      }
      EnsureSlots(o);
      var slots := View(rows, o, SlotsTotal);
      ViewValid(rows, cat, SlotsTotal, nextId, o);
      var cleared := PlanClearItem(slots, id);
      var total := Count(slots, id);
      var plan, _ := PlanFill(cleared, id, cat[id], total);
      CompactConserves(slots, cat, id, id);
      CompactStay(slots, id, cat[id]);
      StayRefreshed(slots, plan, nextId);
      CommitValid(rows, cat, SlotsTotal, nextId, o, plan, nextId);
      rows := WriteBack(rows, o, plan);
    }

    /** moveBetweenSlots: identical and out-of-range slots are refused before ensureSlots. */
    method MoveBetweenSlots(o: Owner, from: int, to: int, qty: Option<int>) returns (outcome: Outcome)
      requires Valid()
      modifies this
      ensures Valid() && nextId == old(nextId)
      ensures from == to ==> outcome == Err(SameSlot) && rows == old(rows)
      ensures from != to && !(1 <= from <= SlotsTotal && 1 <= to <= SlotsTotal) ==>
        outcome == Err(SlotOutOfRange) && rows == old(rows)
      ensures from != to && 1 <= from <= SlotsTotal && 1 <= to <= SlotsTotal ==>
        var pre := Prepared(old(rows), o);
        var c := MoveChange(View(pre, o, SlotsTotal), cat, from, to, qty);
        outcome == c.outcome && rows == (if c.outcome.Ok? then WriteBack(pre, o, c.slots) else pre)
    {
      if from == to {
        return Err(SameSlot);
      }
      if from < 1 || from > SlotsTotal || to < 1 || to > SlotsTotal {
        return Err(SlotOutOfRange);
      }
      outcome := MoveChecked(o, from, to, qty);
    }

    /** MoveBetweenSlots once both slots are known distinct and in range. */
    method MoveChecked(o: Owner, from: int, to: int, qty: Option<int>) returns (outcome: Outcome)
      requires Valid() && 1 <= from <= SlotsTotal && 1 <= to <= SlotsTotal && from != to
      modifies this
      ensures Valid() && nextId == old(nextId)
      ensures var pre := Prepared(old(rows), o);
        var c := MoveChange(View(pre, o, SlotsTotal), cat, from, to, qty);
        outcome == c.outcome && rows == (if c.outcome.Ok? then WriteBack(pre, o, c.slots) else pre)
    {
      ghost var r0 := rows;
      outcome := MoveStep(o, from, to, qty);
      MoveValid(r0, cat, nextId, o, from, to, qty);
    }

    /** The effect of MoveChecked on the table, without the invariant. */
    method MoveStep(o: Owner, from: int, to: int, qty: Option<int>) returns (outcome: Outcome)
      requires 1 <= from <= SlotsTotal && 1 <= to <= SlotsTotal && from != to
      modifies this
      ensures nextId == old(nextId)
      ensures var pre := Prepared(old(rows), o);
        var c := MoveChange(View(pre, o, SlotsTotal), cat, from, to, qty);
        outcome == c.outcome && rows == (if c.outcome.Ok? then WriteBack(pre, o, c.slots) else pre)
    {
      rows := EnsureRows(rows, o, SlotsTotal);
      var slots := View(rows, o, SlotsTotal);
      var c := MoveChange(slots, cat, from, to, qty);
      outcome := c.outcome;
      if c.outcome.Ok? {
        rows := WriteBack(rows, o, c.slots);
      }
    }

    /** The use command on slot `slot` of owner o, compaction of a stackable item included. */
    method Use(o: Owner, slot: int, amount: int) returns (outcome: Outcome)
      requires Valid()
      modifies this
      ensures Valid() && nextId == old(nextId)
      ensures !(1 <= slot <= SlotsTotal) ==> outcome == Err(SlotOutOfRange) && rows == old(rows)
      ensures 1 <= slot <= SlotsTotal ==>
        var pre := Prepared(old(rows), o);
        var c := UseResult(View(pre, o, SlotsTotal), cat, slot, amount);
        outcome == c.outcome && rows == (if c.outcome.Ok? then WriteBack(pre, o, c.slots) else pre)
    {
      if slot < 1 || slot > SlotsTotal {
        return Err(SlotOutOfRange);
      }
      ghost var r0 := rows;
      outcome := UseStep(o, slot, amount);
      UseValid(r0, cat, nextId, o, slot, amount);
    }

    /** The effect of Use on an in-range slot, without the invariant. */
    method UseStep(o: Owner, slot: int, amount: int) returns (outcome: Outcome)
      requires 1 <= slot <= SlotsTotal
      modifies this
      ensures nextId == old(nextId)
      ensures var pre := Prepared(old(rows), o);
        var c := UseResult(View(pre, o, SlotsTotal), cat, slot, amount);
        outcome == c.outcome && rows == (if c.outcome.Ok? then WriteBack(pre, o, c.slots) else pre)
    {
      rows := EnsureRows(rows, o, SlotsTotal);
      var slots := View(rows, o, SlotsTotal);
      var c := UseResult(slots, cat, slot, amount);
      outcome := c.outcome;
      if c.outcome.Ok? {
        rows := WriteBack(rows, o, c.slots);
      }
    }

    /** inv-add: the atomic add, then compaction when the item is stackable. */
    method InvAdd(o: Owner, id: ItemId, qty: int, dur: Option<int>, durMax: Option<int>) returns (outcome: Outcome)
      requires Valid()
      modifies this
      ensures Valid()
      ensures qty <= 0 ==> outcome == Err(InvalidQuantity) && rows == old(rows) && nextId == old(nextId)
      ensures qty > 0 && id !in cat ==> outcome == Err(UnknownItem) && rows == old(rows) && nextId == old(nextId)
      ensures qty > 0 && id in cat ==>
        var pre := Prepared(old(rows), o);
        var c := InvAddResult(View(pre, o, SlotsTotal), cat, id, qty, old(nextId), dur, durMax);
        outcome == c.outcome &&
        rows == (if c.outcome.Ok? then WriteBack(pre, o, c.slots) else pre) &&
        nextId == old(nextId) + (if c.outcome.Ok? && cat[id] == 1 then qty else 0)
    {
      outcome := AddItemsAtomic(o, id, qty, dur, durMax);
      if outcome.Ok? && cat[id] > 1 {
        ghost var mid := rows;
        ProvisionNoop(rows, o, SlotsTotal);
        CompactStacks(o, id);
        WriteBackTwice(Prepared(old(rows), o), o, View(mid, o, SlotsTotal), Compact(View(mid, o, SlotsTotal), id, cat[id]));
      }
    }

    /** inv-remove: the atomic remove, then compaction when the item is stackable. */
    method InvRemove(o: Owner, id: ItemId, qty: int) returns (outcome: Outcome)
      requires Valid()
      modifies this
      ensures Valid() && nextId == old(nextId)
      ensures qty <= 0 ==> outcome == Err(InvalidQuantity) && rows == old(rows)
      ensures qty > 0 && id !in cat ==> outcome == Err(UnknownItem) && rows == old(rows)
      ensures qty > 0 && id in cat ==>
        var pre := Prepared(old(rows), o);
        var c := InvRemoveResult(View(pre, o, SlotsTotal), cat, id, qty);
        outcome == c.outcome && rows == (if c.outcome.Ok? then WriteBack(pre, o, c.slots) else pre)
    {
      outcome := RemoveItemsAtomic(o, id, qty);
      if outcome.Ok? && cat[id] > 1 {
        ghost var mid := rows;
        ProvisionNoop(rows, o, SlotsTotal);
        CompactStacks(o, id);
        WriteBackTwice(Prepared(old(rows), o), o, View(mid, o, SlotsTotal), Compact(View(mid, o, SlotsTotal), id, cat[id]));
      }
    }

    /** inv-clear: every row of the owner is emptied, then the missing rows are inserted. */
    method InvClear(o: Owner)
      requires Valid()
      modifies this
      ensures Valid() && nextId == old(nextId)
      ensures rows == Prepared(ClearOwner(old(rows), o), o)
      ensures forall i :: 0 <= i < SlotsTotal ==> View(rows, o, SlotsTotal)[i] == Empty
    {
      ClearOwnerValid(rows, cat, SlotsTotal, nextId, o);
      rows := ClearOwner(rows, o);
      EnsureSlots(o);
    }
  }
}
