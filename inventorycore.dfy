/** The shared inventory library used by the other bots: player slots (10 per user) and organisation
    warehouse slots (50 per org), with stack add and remove, unique add and remove, and the player to
    warehouse transfer. Unlike the inventory bot, these functions run no transaction: every slot is
    written as soon as the loop reaches it, so an error thrown at the end leaves the writes made so far. */
module InventoryCore {
  import opened Slots
  import opened Stacking
  import opened Removal

  const PlayerSlots: nat := 10
  const OrgSlots: nat := 50

  /** The errors the library throws. */
  datatype Failure =
    | UnknownItem        // the item is not in the catalogue
    | UseAddUnique       // a stack add of a unique item
    | NotMarkedUnique    // a unique add of a stackable item
    | InventoryFull      // the stack add left units unplaced
    | NoFreeSlot         // the unique add found no empty slot
    | TooFewUnits        // the stack remove left units untaken
    | InstanceNotFound
    | UniqueInWarehouse  // warehouses hold no unique items
    | WarehouseFull

  /** How a call ends: normally, or with a throw. */
  datatype Result = Done | Threw(why: Failure)

  // ---------------------------------------------------------------------------
  // Write-through loops: the slot list is read once, and each step writes its row at once

  /** After i steps of the top-up pass from `amount`: `plan` is the slot list so far and `rem` what is left. */
  ghost predicate TopUpAt(slots: seq<Slot>, plan: seq<Slot>, i: nat, rem: int, id: ItemId, max: StackMax, amount: int)
  {
    i <= |plan| == |slots| && plan[i..] == slots[i..] &&
    TopUp(slots, id, max, amount) == (plan[..i] + TopUp(slots[i..], id, max, rem).0, TopUp(slots[i..], id, max, rem).1)
  }

  lemma TopUpStart(slots: seq<Slot>, id: ItemId, max: StackMax, amount: int)
    ensures TopUpAt(slots, slots, 0, amount, id, max, amount)
  {
    assert slots[..0] + TopUp(slots[0..], id, max, amount).0 == TopUp(slots, id, max, amount).0;
  }

  lemma TopUpAdvance(slots: seq<Slot>, plan: seq<Slot>, i: nat, rem: int, id: ItemId, max: StackMax, amount: int)
    requires TopUpAt(slots, plan, i, rem, id, max, amount) && i < |slots|
    ensures plan[i] == slots[i]
    ensures var st := RaiseStep(slots[i], id, max, rem); TopUpAt(slots, plan[i := st.0], i + 1, st.1, id, max, amount)
  {
    assert plan[i] == plan[i..][0];
    var st := RaiseStep(slots[i], id, max, rem);
    PeelTopUp(plan[..i], slots[i..], id, max, rem);
    assert plan[i := st.0][..i + 1] == plan[..i] + [st.0];
    assert slots[i..][1..] == slots[i + 1..];
  }

  lemma TopUpDone(slots: seq<Slot>, plan: seq<Slot>, i: nat, rem: int, id: ItemId, max: StackMax, amount: int)
    requires TopUpAt(slots, plan, i, rem, id, max, amount) && (i == |slots| || rem <= 0)
    ensures TopUp(slots, id, max, amount) == (plan, rem)
  {
    TopUpIdle(slots[i..], id, max, rem);
    assert plan[..i] + plan[i..] == plan;
  }

  /** After i steps of the fill pass from `amount`. */
  ghost predicate FillAt(slots: seq<Slot>, plan: seq<Slot>, i: nat, rem: int, id: ItemId, max: StackMax, amount: int)
  {
    i <= |plan| == |slots| && plan[i..] == slots[i..] &&
    Fill(slots, id, max, amount) == (plan[..i] + Fill(slots[i..], id, max, rem).0, Fill(slots[i..], id, max, rem).1)
  }

  lemma FillStart(slots: seq<Slot>, id: ItemId, max: StackMax, amount: int)
    ensures FillAt(slots, slots, 0, amount, id, max, amount)
  {
    assert slots[..0] + Fill(slots[0..], id, max, amount).0 == Fill(slots, id, max, amount).0;
  }

  lemma FillAdvance(slots: seq<Slot>, plan: seq<Slot>, i: nat, rem: int, id: ItemId, max: StackMax, amount: int)
    requires FillAt(slots, plan, i, rem, id, max, amount) && i < |slots|
    ensures plan[i] == slots[i]
    ensures var st := PutStep(slots[i], id, max, rem); FillAt(slots, plan[i := st.0], i + 1, st.1, id, max, amount)
  {
    assert plan[i] == plan[i..][0];
    var st := PutStep(slots[i], id, max, rem);
    PeelFill(plan[..i], slots[i..], id, max, rem);
    assert plan[i := st.0][..i + 1] == plan[..i] + [st.0];
    assert slots[i..][1..] == slots[i + 1..];
  }

  lemma FillDone(slots: seq<Slot>, plan: seq<Slot>, i: nat, rem: int, id: ItemId, max: StackMax, amount: int)
    requires FillAt(slots, plan, i, rem, id, max, amount) && (i == |slots| || rem <= 0)
    ensures Fill(slots, id, max, amount) == (plan, rem)
  {
    FillIdle(slots[i..], id, max, rem);
    assert plan[..i] + plan[i..] == plan;
  }

  /** The rows r are those of committing plan for o, stated slot by slot. */
  ghost predicate Commits(r: Rows, rows: Rows, o: Owner, plan: seq<Slot>)
  {
    r.Keys == rows.Keys && Provisioned(rows, o, |plan|) &&
    (forall i :: 0 <= i < |plan| ==> r[SlotKey(o, i + 1)] == plan[i]) &&
    (forall k :: k in rows && !(k.owner == o && 1 <= k.slot <= |plan|) ==> r[k] == rows[k])
  }

  lemma CommitsStart(rows: Rows, o: Owner, n: nat)
    requires Provisioned(rows, o, n)
    ensures Commits(rows, rows, o, View(rows, o, n))
  {
  }

  lemma CommitsWriteBack(r: Rows, rows: Rows, o: Owner, plan: seq<Slot>)
    requires Commits(r, rows, o, plan)
    ensures r == WriteBack(rows, o, plan)
  {
    var w := WriteBack(rows, o, plan);
    forall k | k in r ensures r[k] == w[k] {
      if k.owner == o && 1 <= k.slot <= |plan| {
        assert k == SlotKey(o, k.slot);
      }
    }
  }

  /** Writing one slot of a provisioned owner is committing its slot list with that slot replaced. */
  lemma SetIsWriteBack(rows: Rows, o: Owner, n: nat, i: nat, x: Slot)
    requires Provisioned(rows, o, n) && i < n
    ensures rows[SlotKey(o, i + 1) := x] == WriteBack(rows, o, View(rows, o, n)[i := x])
  {
    CommitsStart(rows, o, n);
    assert Commits(rows[SlotKey(o, i + 1) := x], rows, o, View(rows, o, n)[i := x]);
    CommitsWriteBack(rows[SlotKey(o, i + 1) := x], rows, o, View(rows, o, n)[i := x]);
  }

  /** One step of the top-up loop, with the write it makes when the slot is a partial stack of id. */
  lemma TopUpWrite(r: Rows, r2: Rows, rows: Rows, o: Owner, slots: seq<Slot>, plan: seq<Slot>, i: nat, rem: int, rem2: int,
                   id: ItemId, max: StackMax, amount: int)
    requires Commits(r, rows, o, plan) && TopUpAt(slots, plan, i, rem, id, max, amount) && i < |slots| && rem > 0
    requires var s := slots[i];
      if s.Stack? && s.item == id && s.qty < max then
        r2 == r[SlotKey(o, i + 1) := Stack(id, s.qty + Min(max - s.qty, rem))] && rem2 == rem - Min(max - s.qty, rem)
      else r2 == r && rem2 == rem
    ensures var st := RaiseStep(slots[i], id, max, rem);
      TopUpAt(slots, plan[i := st.0], i + 1, rem2, id, max, amount) && Commits(r2, rows, o, plan[i := st.0])
  {
    TopUpAdvance(slots, plan, i, rem, id, max, amount);
    var st := RaiseStep(slots[i], id, max, rem);
    if !(slots[i].Stack? && slots[i].item == id && slots[i].qty < max) {
      assert plan[i := st.0] == plan;
    }
  }

  /** One step of the fill loop, with the write it makes when the slot read at the start was empty. */
  lemma FillWrite(r: Rows, r2: Rows, rows: Rows, o: Owner, snap: seq<Slot>, slots: seq<Slot>, plan: seq<Slot>, i: nat,
                  rem: int, rem2: int, id: ItemId, max: StackMax, amount: int)
    requires Commits(r, rows, o, plan) && FillAt(slots, plan, i, rem, id, max, amount) && i < |slots| && rem > 0
    requires |snap| == |slots| && (snap[i].Empty? <==> slots[i].Empty?)
    requires if snap[i].Empty? then r2 == r[SlotKey(o, i + 1) := Stack(id, Min(max, rem))] && rem2 == rem - Min(max, rem)
      else r2 == r && rem2 == rem
    ensures var st := PutStep(slots[i], id, max, rem);
      FillAt(slots, plan[i := st.0], i + 1, rem2, id, max, amount) && Commits(r2, rows, o, plan[i := st.0])
  {
    FillAdvance(slots, plan, i, rem, id, max, amount);
    var st := PutStep(slots[i], id, max, rem);
    if !snap[i].Empty? {
      assert plan[i := st.0] == plan;
    }
  }

  /** The top-up loop: each partial stack of `id` in the slot list read at the start is raised and written
      at once. */
  method WriteTopUp(rows: Rows, o: Owner, slots: seq<Slot>, id: ItemId, max: StackMax, amount: int)
    returns (r: Rows, remaining: int)
    requires Commits(rows, rows, o, slots)
    ensures var t := TopUp(slots, id, max, amount); Commits(r, rows, o, t.0) && remaining == t.1
  {
    ghost var plan := slots;
    TopUpStart(slots, id, max, amount);
    r, remaining := rows, amount;
    var i := 0;
    while i < |slots| && remaining > 0
      invariant |plan| == |slots| && TopUpAt(slots, plan, i, remaining, id, max, amount)
      invariant Commits(r, rows, o, plan)
    {
      ghost var st := RaiseStep(slots[i], id, max, remaining);
      ghost var r0, rem0 := r, remaining;
      var s := slots[i];
      if s.Stack? && s.item == id && s.qty < max {
        var can := Min(max - s.qty, remaining);
        r := r[SlotKey(o, i + 1) := Stack(id, s.qty + can)];
        remaining := remaining - can;
      }
      TopUpWrite(r0, r, rows, o, slots, plan, i, rem0, remaining, id, max, amount);
      plan := plan[i := st.0];
      i := i + 1;
    }
    TopUpDone(slots, plan, i, remaining, id, max, amount);
  }

  /** The fill loop: it tests emptiness on the slot list read before the top-up (`snap`), which the top-up
      does not change, and writes each filled slot at once. */
  method WriteFill(rows: Rows, o: Owner, snap: seq<Slot>, ghost topped: seq<Slot>, id: ItemId, max: StackMax, amount: int)
    returns (r: Rows, remaining: int)
    requires Commits(rows, rows, o, topped) && |snap| == |topped|
    requires forall k :: 0 <= k < |snap| ==> (snap[k].Empty? <==> topped[k].Empty?)
    ensures var t := Fill(topped, id, max, amount); Commits(r, rows, o, t.0) && remaining == t.1
  {
    ghost var plan := topped;
    FillStart(topped, id, max, amount);
    r, remaining := rows, amount;
    var i := 0;
    while i < |snap| && remaining > 0
      invariant |plan| == |topped| && FillAt(topped, plan, i, remaining, id, max, amount)
      invariant Commits(r, rows, o, plan)
    {
      ghost var st := PutStep(topped[i], id, max, remaining);
      ghost var r0, rem0 := r, remaining;
      if snap[i].Empty? {
        var put := Min(max, remaining);
        r := r[SlotKey(o, i + 1) := Stack(id, put)];
        remaining := remaining - put;
      }
      FillWrite(r0, r, rows, o, snap, topped, plan, i, rem0, remaining, id, max, amount);
      plan := plan[i := st.0];
      i := i + 1;
    }
    FillDone(topped, plan, i, remaining, id, max, amount);
  }

  /** The two add loops of InventoryAddStack and OrgInventoryAddStack over owner o's n slots: the rows they
      leave are those of the add plan (top up partial stacks, then fill empty slots), whether or not units
      remain unplaced. */
  method WriteAddStack(rows: Rows, o: Owner, n: nat, id: ItemId, max: StackMax, amount: int)
    returns (r: Rows, remaining: int)
    requires Provisioned(rows, o, n)
    ensures var p := AddStackPlan(View(rows, o, n), id, max, amount);
      r == WriteBack(rows, o, p.0) && remaining == p.1
  {
    var slots := View(rows, o, n);
    CommitsStart(rows, o, n);
    var r1, rem1 := WriteTopUp(rows, o, slots, id, max, amount);
    CommitsWriteBack(r1, rows, o, TopUp(slots, id, max, amount).0);
    ghost var topped := TopUp(slots, id, max, amount).0;
    r, remaining := r1, rem1;
    if rem1 > 0 {
      TopUpShape(slots, id, max, amount);
      assert forall k :: 0 <= k < n ==> (slots[k].Empty? <==> topped[k].Empty?);
      CommitsStart(r1, o, n);
      r, remaining := WriteFill(r1, o, slots, topped, id, max, rem1);
      CommitsWriteBack(r, r1, o, Fill(topped, id, max, rem1).0);
      WriteBackTwice(rows, o, topped, Fill(topped, id, max, rem1).0);
    }
  }

  /** After j steps of the take loop over `order` from `need`: `plan` is the slot list so far, `rem` what
      is still to take, `takes` what each step took; the slots not yet reached are as read at the start. */
  ghost predicate TakeAt(slots: seq<Slot>, order: seq<nat>, plan: seq<Slot>, j: nat, rem: int, takes: seq<int>,
                         id: ItemId, need: int)
  {
    j <= |order| && |plan| == |slots| && InRange(slots, order) &&
    (forall m :: j <= m < |order| ==> plan[order[m]] == slots[order[m]]) &&
    TakeAlong(slots, order, id, need) ==
      var rest := TakeAlong(plan, order[j..], id, rem); Taken(rest.slots, rest.left, takes + rest.takes)
  }

  lemma TakeStart(slots: seq<Slot>, order: seq<nat>, id: ItemId, need: int)
    requires InRange(slots, order)
    ensures TakeAt(slots, order, slots, 0, need, [], id, need)
  {
    assert order[0..] == order;
    var t := TakeAlong(slots, order, id, need);
    assert t == Taken(t.slots, t.left, [] + t.takes);
  }

  lemma TakeDone(slots: seq<Slot>, order: seq<nat>, plan: seq<Slot>, j: nat, rem: int, takes: seq<int>, id: ItemId, need: int)
    requires TakeAt(slots, order, plan, j, rem, takes, id, need) && (j == |order| || rem <= 0)
    ensures TakeAlong(slots, order, id, need) == Taken(plan, rem, takes)
  {
    assert takes + [] == takes;
  }

  /** One step of the take loop, with the write it makes. */
  lemma TakeWrite(r: Rows, rows: Rows, o: Owner, slots: seq<Slot>, order: seq<nat>, plan: seq<Slot>, j: nat,
                  rem: int, takes: seq<int>, id: ItemId, need: int, i: nat, take: int, x: Slot,
                  r2: Rows, plan2: seq<Slot>, j2: nat, rem2: int, takes2: seq<int>)
    requires Commits(r, rows, o, plan) && TakeAt(slots, order, plan, j, rem, takes, id, need) && j < |order| && rem > 0
    requires forall a, b :: 0 <= a < b < |order| ==> order[a] != order[b]
    requires i == order[j] && take == Min(Qty(slots[i]), rem) && x == Lowered(slots[i], id, take)
    requires r2 == r[SlotKey(o, i + 1) := x] && plan2 == plan[i := x] && j2 == j + 1 && rem2 == rem - take
    requires takes2 == takes + [take]
    ensures TakeAt(slots, order, plan2, j2, rem2, takes2, id, need)
    ensures Commits(r2, rows, o, plan2)
  {
    assert order[j..][0] == order[j] && order[j..][1..] == order[j + 1..];
    assert plan[i] == slots[i];
    forall m | j + 1 <= m < |order| ensures plan[i := x][order[m]] == slots[order[m]] {
      assert order[m] != order[j];
    }
  }

  /** The remove loop of InventoryRemoveStack: the slots holding `id`, smallest first, each lowered or cleared
      as soon as it is reached; the rows it leaves are those of the removal plan, whether or not units remain
      untaken. */
  method WriteTake(rows: Rows, o: Owner, n: nat, id: ItemId, need: int) returns (r: Rows, remaining: int)
    requires Provisioned(rows, o, n)
    ensures var t := RemoveStackPlan(View(rows, o, n), id, need);
      r == WriteBack(rows, o, t.slots) && remaining == t.left
  {
    var slots := View(rows, o, n);
    var order := RemovalOrder(slots, id);
    OrderTouchable(slots, id);
    ghost var plan := slots;
    ghost var takes: seq<int> := [];
    CommitsStart(rows, o, n);
    TakeStart(slots, order, id, need);
    r, remaining := rows, need;
    var j := 0;
    while j < |order| && remaining > 0
      invariant TakeAt(slots, order, plan, j, remaining, takes, id, need)
      invariant Commits(r, rows, o, plan)
    {
      var i := order[j];
      var s := slots[i];
      var take := Min(Qty(s), remaining);
      var newQ := Qty(s) - take;
      var x := if newQ == 0 then Empty else Stack(id, newQ);
      ghost var r0, plan0, j0, rem0, takes0 := r, plan, j, remaining, takes;
      r := r[SlotKey(o, i + 1) := x];
      plan := plan[i := x];
      remaining := remaining - take;
      takes := takes + [take];
      j := j + 1;
      TakeWrite(r0, rows, o, slots, order, plan0, j0, rem0, takes0, id, need, i, take, x, r, plan, j, remaining, takes);
    }
    TakeDone(slots, order, plan, j, remaining, takes, id, need);
    CommitsWriteBack(r, rows, o, plan);
  }

  // ---------------------------------------------------------------------------
  // Facts about the write-through add and remove

  /** The stack add on a provisioned owner places min(amount, room) units of id, where room is what the
      partial stacks and the empty slots can take, and nothing else; in particular an add that throws for lack
      of room has still filled every bit of room it found. */
  lemma AddStackPlaces(rows: Rows, o: Owner, n: nat, id: ItemId, max: StackMax, amount: int, j: ItemId)
    requires Provisioned(rows, o, n) && amount > 0
    ensures var v := View(rows, o, n);
      var room := PartialRoom(v, id, max) + max * FreeCount(v);
      var p := AddStackPlan(v, id, max, amount);
      var after := WriteBack(rows, o, p.0);
      p.1 == Max(0, amount - room) &&
      Provisioned(after, o, n) && Count(View(after, o, n), j) == Count(v, j) + (if j == id then amount - p.1 else 0)
  {
    AddStackLeft(rows, o, n, id, max, amount);
    AddStackCounts(rows, o, n, id, max, amount, j);
  }

  /** The leftover half of AddStackPlaces. */
  lemma AddStackLeft(rows: Rows, o: Owner, n: nat, id: ItemId, max: StackMax, amount: int)
    requires Provisioned(rows, o, n) && amount > 0
    ensures var v := View(rows, o, n);
      var room := PartialRoom(v, id, max) + max * FreeCount(v);
      var p := AddStackPlan(v, id, max, amount);
      p.1 == Max(0, amount - room)
  {
    AddPlanRoom(View(rows, o, n), id, max, amount);
  }

  /** The count half of AddStackPlaces. */
  lemma AddStackCounts(rows: Rows, o: Owner, n: nat, id: ItemId, max: StackMax, amount: int, j: ItemId)
    requires Provisioned(rows, o, n)
    ensures var v := View(rows, o, n);
      var p := AddStackPlan(v, id, max, amount);
      var after := WriteBack(rows, o, p.0);
      Provisioned(after, o, n) && Count(View(after, o, n), j) == Count(v, j) + (if j == id then amount - p.1 else 0)
  {
    AddPlanCount(View(rows, o, n), id, max, amount, j);
  }

  /** The stack remove on a provisioned owner: removing an amount the owner holds takes exactly that amount;
      removing more throws after clearing every slot of the item; in both cases other items stay. */
  lemma RemoveStackTakes(rows: Rows, o: Owner, n: nat, id: ItemId, amount: int, j: ItemId)
    requires Provisioned(rows, o, n) && amount > 0
    ensures var v := View(rows, o, n); var t := RemoveStackPlan(v, id, amount);
      var after := WriteBack(rows, o, t.slots);
      Provisioned(after, o, n) && (t.left > 0 <==> Count(v, id) < amount) &&
      (t.left <= 0 ==> Count(View(after, o, n), j) == Count(v, j) - (if j == id then amount else 0)) &&
      (t.left > 0 ==> Count(View(after, o, n), id) == 0 && (j != id ==> Count(View(after, o, n), j) == Count(v, j)))
  {
    var v := View(rows, o, n);
    RemovalOrderFacts(v, id);
    OrderTouchable(v, id);
    TakeConserves(v, RemovalOrder(v, id), id, amount, j);
    TakeConserves(v, RemovalOrder(v, id), id, amount, id);
    if RemoveStackPlan(v, id, amount).left > 0 {
      ExhaustedHoldsNone(v, id, amount);
    } else {
      RemovePlanExact(v, id, amount, j);
    }
  }

  // ---------------------------------------------------------------------------
  // Unique units

  /** The first slot holding the unique unit with instance id x. */
  function SlotOf(v: seq<Slot>, x: InstanceId): (r: Option<nat>)
    ensures r.Some? ==> r.value < |v| && v[r.value].Unique? && v[r.value].instance == x
    ensures r.None? ==> forall i :: 0 <= i < |v| ==> !(v[i].Unique? && v[i].instance == x)
  {
    if v == [] then None
    else if v[0].Unique? && v[0].instance == x then Some(0)
    else
      var r := SlotOf(v[1..], x);
      assert forall i :: 1 <= i < |v| ==> v[i] == v[1..][i - 1];
      if r.Some? then Some(r.value + 1) else None
  }

  /** Placing a fresh unique unit in the first free slot and removing it again by its id clears exactly the
      slot it went to, which gives back the table as it was. */
  lemma AddThenRemoveUnique(rows: Rows, o: Owner, id: ItemId, x: InstanceId)
    requires Provisioned(rows, o, PlayerSlots)
    requires forall i :: 0 <= i < PlayerSlots ==> !(View(rows, o, PlayerSlots)[i].Unique? && View(rows, o, PlayerSlots)[i].instance == x)
    requires FirstFree(View(rows, o, PlayerSlots)).Some?
    ensures var i := FirstFree(View(rows, o, PlayerSlots)).value;
      var added := rows[SlotKey(o, i + 1) := Unique(id, x, None, None)];
      Provisioned(added, o, PlayerSlots) &&
      SlotOf(View(added, o, PlayerSlots), x) == Some(i) &&
      added[SlotKey(o, i + 1) := Empty] == rows
  {
    var v := View(rows, o, PlayerSlots);
    var i := FirstFree(v).value;
    var u := Unique(id, x, None, None);
    ViewWrite(rows, o, PlayerSlots, i + 1, u);
    var w := View(rows[SlotKey(o, i + 1) := u], o, PlayerSlots);
    assert w == v[i := u];
    var f := SlotOf(w, x);
    assert f.Some? by { assert w[i].Unique? && w[i].instance == x; }
    assert f.value == i;
    assert rows[SlotKey(o, i + 1)] == v[i] == Empty;
  }

  // ---------------------------------------------------------------------------
  // Validity of the player table under the library's writes

  lemma AddStackValid(pre: Rows, cat: Catalog, next: InstanceId, o: Owner, id: ItemId, amount: int)
    requires TableValid(pre, cat, PlayerSlots, next) && Provisioned(pre, o, PlayerSlots) && id in cat && cat[id] > 1
    ensures TableValid(WriteBack(pre, o, AddStackPlan(View(pre, o, PlayerSlots), id, cat[id], amount).0), cat, PlayerSlots, next)
  {
    var v := View(pre, o, PlayerSlots);
    var plan := AddStackPlan(v, id, cat[id], amount).0;
    ViewValid(pre, cat, PlayerSlots, next, o);
    AddPlanConforms(v, cat, id, amount);
    AddPlanShape(v, id, cat[id], amount);
    assert UniquesStay(v, plan) by {
      forall i | 0 <= i < |plan| && plan[i].Unique? ensures v[i].Unique? && v[i].instance == plan[i].instance {
        assert plan[i] == v[i];
      }
    }
    StayRefreshed(v, plan, next);
    CommitValid(pre, cat, PlayerSlots, next, o, plan, next);
  }

  lemma UniqueAddValid(pre: Rows, cat: Catalog, next: InstanceId, o: Owner, i: nat, id: ItemId)
    requires TableValid(pre, cat, PlayerSlots, next) && Provisioned(pre, o, PlayerSlots) && i < PlayerSlots
    requires View(pre, o, PlayerSlots)[i].Empty? && id in cat && cat[id] == 1
    ensures TableValid(pre[SlotKey(o, i + 1) := Unique(id, next, None, None)], cat, PlayerSlots, next + 1)
  {
    SetIsWriteBack(pre, o, PlayerSlots, i, Unique(id, next, None, None));
    UniquePlanValid(pre, cat, next, o, i, id);
  }

  lemma UniquePlanValid(pre: Rows, cat: Catalog, next: InstanceId, o: Owner, i: nat, id: ItemId)
    requires TableValid(pre, cat, PlayerSlots, next) && Provisioned(pre, o, PlayerSlots) && i < PlayerSlots
    requires View(pre, o, PlayerSlots)[i].Empty? && id in cat && cat[id] == 1
    ensures TableValid(WriteBack(pre, o, View(pre, o, PlayerSlots)[i := Unique(id, next, None, None)]), cat, PlayerSlots, next + 1)
  {
    var v := View(pre, o, PlayerSlots);
    var plan := v[i := Unique(id, next, None, None)];
    ViewValid(pre, cat, PlayerSlots, next, o);
    assert Refreshed(v, plan, next, next + 1) by {
      forall a | 0 <= a < |plan| && plan[a].Unique? && a != i ensures plan[a].instance in Instances(v) {
        assert plan[a] == v[a];
      }
      forall a, b | 0 <= a < |plan| && 0 <= b < |plan| && a != b && plan[a].Unique? && plan[b].Unique?
        ensures plan[a].instance != plan[b].instance
      {
        if a == i { assert v[b].instance in Instances(v); }
        if b == i { assert v[a].instance in Instances(v); }
      }
    }
    CommitValid(pre, cat, PlayerSlots, next, o, plan, next + 1);
  }

  /** Clearing a slot of a valid table keeps it valid. */
  lemma ClearValid(rows: Rows, cat: Catalog, next: InstanceId, o: Owner, i: nat)
    requires TableValid(rows, cat, PlayerSlots, next) && Provisioned(rows, o, PlayerSlots) && i < PlayerSlots
    ensures TableValid(rows[SlotKey(o, i + 1) := Empty], cat, PlayerSlots, next)
  {
    var v := View(rows, o, PlayerSlots);
    ViewValid(rows, cat, PlayerSlots, next, o);
    StayRefreshed(v, v[i := Empty], next);
    CommitValid(rows, cat, PlayerSlots, next, o, v[i := Empty], next);
    SetIsWriteBack(rows, o, PlayerSlots, i, Empty);
  }

  // ---------------------------------------------------------------------------
  // The library's state

  /** A warehouse table: keyed 1..50, holding only stacks of stackable items within their limits. */
  ghost predicate OrgValid(rows: Rows, cat: Catalog)
  {
    WellKeyed(rows, OrgSlots) && forall k :: k in rows ==> rows[k].Empty? || (rows[k].Stack? && SlotConforms(rows[k], cat))
  }

  class Core {
    const cat: Catalog
    var rows: Rows                        // inventory_slots
    var orgRows: Rows                     // org_inventory_slots
    var meta: map<InstanceId, ItemId>     // inventory_instances_meta: one row per instance, payload left out
    var nextId: InstanceId                // the fresh-id supply

    ghost predicate Valid()
      reads this
    {
      TableValid(rows, cat, PlayerSlots, nextId) && OrgValid(orgRows, cat) && forall x :: x in meta ==> x < nextId
    }

    constructor (cat: Catalog)
      ensures Valid() && this.cat == cat && rows == map[] && orgRows == map[] && meta == map[] && nextId == 0
    {
      this.cat := cat;
      rows, orgRows, meta, nextId := map[], map[], map[], 0;
    }

    /** ensurePlayerSlots: the missing rows 1..10 of the player are inserted empty. */
    method EnsurePlayerSlots(o: Owner)
      requires Valid()
      modifies this
      ensures Valid() && rows == Provision(old(rows), o, PlayerSlots)
      ensures orgRows == old(orgRows) && meta == old(meta) && nextId == old(nextId)
    {
      ProvisionValid(rows, cat, PlayerSlots, nextId, o);
      rows := EnsureRows(rows, o, PlayerSlots);
    }

    /** ensureOrgSlots: the missing rows 1..50 of the warehouse are inserted empty. */
    method EnsureOrgSlots(o: Owner)
      requires Valid()
      modifies this
      ensures Valid() && orgRows == Provision(old(orgRows), o, OrgSlots)
      ensures rows == old(rows) && meta == old(meta) && nextId == old(nextId)
    {
      ProvisionKeeps(orgRows, o, OrgSlots);
      orgRows := EnsureRows(orgRows, o, OrgSlots);
    }

    /** InventoryAddStack: throws for an unknown or a unique item; otherwise the two loops write as they go,
        and throws when units remain, leaving what was written. */
    method InventoryAddStack(o: Owner, id: ItemId, amount: int) returns (res: Result)
      requires Valid()
      modifies this
      ensures Valid() && orgRows == old(orgRows) && meta == old(meta) && nextId == old(nextId)
      ensures id !in cat ==> res == Threw(UnknownItem) && rows == old(rows)
      ensures id in cat && cat[id] == 1 ==> res == Threw(UseAddUnique) && rows == old(rows)
      ensures id in cat && cat[id] > 1 ==>
        var pre := Provision(old(rows), o, PlayerSlots); var p := AddStackPlan(View(pre, o, PlayerSlots), id, cat[id], amount);
        rows == WriteBack(pre, o, p.0) && res == (if p.1 > 0 then Threw(InventoryFull) else Done)
    {
      if id !in cat {
        return Threw(UnknownItem);
      }
      if cat[id] == 1 {
        return Threw(UseAddUnique);
      }
      ghost var r0 := rows;
      res := AddStackStep(o, id, amount);
      ProvisionValid(r0, cat, PlayerSlots, nextId, o);
      AddStackValid(Provision(r0, o, PlayerSlots), cat, nextId, o, id, amount);
    }

    /** The effect of InventoryAddStack on the player table for a stackable item, without the invariant. */
    method AddStackStep(o: Owner, id: ItemId, amount: int) returns (res: Result)
      requires id in cat && cat[id] > 1
      modifies this
      ensures orgRows == old(orgRows) && meta == old(meta) && nextId == old(nextId)
      ensures var pre := Provision(old(rows), o, PlayerSlots); var p := AddStackPlan(View(pre, o, PlayerSlots), id, cat[id], amount);
        rows == WriteBack(pre, o, p.0) && res == (if p.1 > 0 then Threw(InventoryFull) else Done)
    {
      rows := EnsureRows(rows, o, PlayerSlots);
      var r, remaining := WriteAddStack(rows, o, PlayerSlots, id, cat[id], amount);
      rows := r;
      res := if remaining > 0 then Threw(InventoryFull) else Done;
    }

    /** InventoryRemoveStack: no catalogue check; the loop writes as it goes, and throws when units remain,
        leaving what was written. */
    method InventoryRemoveStack(o: Owner, id: ItemId, amount: int) returns (res: Result)
      requires Valid()
      modifies this
      ensures Valid() && orgRows == old(orgRows) && meta == old(meta) && nextId == old(nextId)
      ensures var pre := Provision(old(rows), o, PlayerSlots); var t := RemoveStackPlan(View(pre, o, PlayerSlots), id, amount);
        rows == WriteBack(pre, o, t.slots) && res == (if t.left > 0 then Threw(TooFewUnits) else Done)
    {
      ghost var r0 := rows;
      res := RemoveStackStep(o, id, amount);
      ProvisionValid(r0, cat, PlayerSlots, nextId, o);
      RemoveStackValid(Provision(r0, o, PlayerSlots), o, id, amount);
    }

    /** The effect of InventoryRemoveStack on the player table, without the invariant. */
    method RemoveStackStep(o: Owner, id: ItemId, amount: int) returns (res: Result)
      modifies this
      ensures orgRows == old(orgRows) && meta == old(meta) && nextId == old(nextId)
      ensures var pre := Provision(old(rows), o, PlayerSlots); var t := RemoveStackPlan(View(pre, o, PlayerSlots), id, amount);
        rows == WriteBack(pre, o, t.slots) && res == (if t.left > 0 then Threw(TooFewUnits) else Done)
    {
      rows := EnsureRows(rows, o, PlayerSlots);
      var r, remaining := WriteTake(rows, o, PlayerSlots, id, amount);
      rows := r;
      res := if remaining > 0 then Threw(TooFewUnits) else Done;
    }

    lemma RemoveStackValid(pre: Rows, o: Owner, id: ItemId, amount: int)
      requires TableValid(pre, cat, PlayerSlots, nextId) && Provisioned(pre, o, PlayerSlots)
      ensures TableValid(WriteBack(pre, o, RemoveStackPlan(View(pre, o, PlayerSlots), id, amount).slots), cat, PlayerSlots, nextId)
    {
      var v := View(pre, o, PlayerSlots);
      var t := RemoveStackPlan(v, id, amount);
      ViewValid(pre, cat, PlayerSlots, nextId, o);
      RemovalOrderFacts(v, id);
      OrderTouchable(v, id);
      TakeConserves(v, RemovalOrder(v, id), id, if amount < 0 then 0 else amount, id);
      if amount <= 0 {
        assert t.slots == v;
      }
      forall i | 0 <= i < |v| ensures SlotConforms(t.slots[i], cat) && (t.slots[i].Unique? ==> t.slots[i] == v[i]) {
        assert Shrunk(v[i], t.slots[i], id) || amount <= 0;
        assert v[i].Unique? ==> Qty(v[i]) == 1;
      }
      assert UniquesStay(v, t.slots);
      StayRefreshed(v, t.slots, nextId);
      CommitValid(pre, cat, PlayerSlots, nextId, o, t.slots, nextId);
    }

    /** InventoryAddUnique: the item must be known and unique and the player must have a free slot; the unit
        gets a fresh instance id in the first free slot, and a metadata row is recorded for it. */
    method InventoryAddUnique(o: Owner, id: ItemId) returns (res: Result)
      requires Valid()
      modifies this
      ensures Valid() && orgRows == old(orgRows)
      ensures id !in cat ==> res == Threw(UnknownItem) && rows == old(rows) && meta == old(meta) && nextId == old(nextId)
      ensures id in cat && cat[id] != 1 ==> res == Threw(NotMarkedUnique) && rows == old(rows) && meta == old(meta) && nextId == old(nextId)
      ensures id in cat && cat[id] == 1 ==>
        var pre := Provision(old(rows), o, PlayerSlots);
        match FirstFree(View(pre, o, PlayerSlots))
        case None => res == Threw(NoFreeSlot) && rows == pre && meta == old(meta) && nextId == old(nextId)
        case Some(i) =>
          res == Done && rows == pre[SlotKey(o, i + 1) := Unique(id, old(nextId), None, None)] &&
          meta == old(meta)[old(nextId) := id] && nextId == old(nextId) + 1
    {
      if id !in cat {
        return Threw(UnknownItem);
      }
      if cat[id] != 1 {
        return Threw(NotMarkedUnique);
      }
      EnsurePlayerSlots(o);
      var free := FirstFree(View(rows, o, PlayerSlots));
      if free.None? {
        return Threw(NoFreeSlot);
      }
      PlaceUnique(o, free.value, id);
      res := Done;
    }

    /** The unique add's writes once a free slot i is found: the slot row, then the metadata row. */
    method PlaceUnique(o: Owner, i: nat, id: ItemId)
      requires Valid() && Provisioned(rows, o, PlayerSlots) && i < PlayerSlots
      requires View(rows, o, PlayerSlots)[i].Empty? && id in cat && cat[id] == 1
      modifies this
      ensures Valid() && orgRows == old(orgRows) && nextId == old(nextId) + 1
      ensures rows == old(rows)[SlotKey(o, i + 1) := Unique(id, old(nextId), None, None)]
      ensures meta == old(meta)[old(nextId) := id]
    {
      var iid := nextId;
      UniqueAddValid(rows, cat, nextId, o, i, id);
      rows := rows[SlotKey(o, i + 1) := Unique(id, iid, None, None)];
      meta := meta[iid := id];
      nextId := nextId + 1;
    }

    /** InventoryRemoveUniqueById: throws unless a slot of the player holds the instance; otherwise exactly
        that slot is cleared and the instance's metadata row deleted. */
    method InventoryRemoveUniqueById(o: Owner, x: InstanceId) returns (res: Result)
      requires Valid()
      modifies this
      ensures Valid() && orgRows == old(orgRows) && nextId == old(nextId)
      ensures match SlotOf(Snapshot(old(rows), o, PlayerSlots), x)
        case None => res == Threw(InstanceNotFound) && rows == old(rows) && meta == old(meta)
        case Some(i) => res == Done && rows == old(rows)[SlotKey(o, i + 1) := Empty] && meta == old(meta) - {x}
    {
      var found := SlotOf(Snapshot(rows, o, PlayerSlots), x);
      if found.None? {
        return Threw(InstanceNotFound);
      }
      var i := found.value;
      ClearValid(rows, cat, nextId, o, i);
      rows := rows[SlotKey(o, i + 1) := Empty];
      meta := meta - {x};
      res := Done;
    }

    /** OrgInventoryAddStack: the stack add over the warehouse's 50 slots; unique items are refused, and a
        throw for lack of room leaves what was written. */
    method OrgInventoryAddStack(o: Owner, id: ItemId, amount: int) returns (res: Result)
      requires Valid()
      modifies this
      ensures Valid() && rows == old(rows) && meta == old(meta) && nextId == old(nextId)
      ensures id !in cat ==> res == Threw(UnknownItem) && orgRows == old(orgRows)
      ensures id in cat && cat[id] == 1 ==> res == Threw(UniqueInWarehouse) && orgRows == old(orgRows)
      ensures id in cat && cat[id] > 1 ==>
        var pre := Provision(old(orgRows), o, OrgSlots); var p := AddStackPlan(View(pre, o, OrgSlots), id, cat[id], amount);
        orgRows == WriteBack(pre, o, p.0) && res == (if p.1 > 0 then Threw(WarehouseFull) else Done)
    {
      if id !in cat {
        return Threw(UnknownItem);
      }
      if cat[id] == 1 {
        return Threw(UniqueInWarehouse);
      }
      EnsureOrgSlots(o);
      var r, remaining := WriteAddStack(orgRows, o, OrgSlots, id, cat[id], amount);
      OrgAddValid(orgRows, o, id, amount);
      orgRows := r;
      res := if remaining > 0 then Threw(WarehouseFull) else Done;
    }

    lemma OrgAddValid(pre: Rows, o: Owner, id: ItemId, amount: int)
      requires OrgValid(pre, cat) && Provisioned(pre, o, OrgSlots) && id in cat && cat[id] > 1
      ensures OrgValid(WriteBack(pre, o, AddStackPlan(View(pre, o, OrgSlots), id, cat[id], amount).0), cat)
    {
      var v := View(pre, o, OrgSlots);
      var plan := AddStackPlan(v, id, cat[id], amount).0;
      assert Conforms(v, cat);
      AddPlanConforms(v, cat, id, amount);
      AddPlanShape(v, id, cat[id], amount);
      WriteBackKeeps(pre, o, plan);
      var r := WriteBack(pre, o, plan);
      forall k | k in r ensures r[k].Empty? || (r[k].Stack? && SlotConforms(r[k], cat)) {
        if k.owner == o && 1 <= k.slot <= OrgSlots {
          var i := k.slot - 1;
          assert r[k] == plan[i];
          assert v[i] == pre[k];
        }
      }
    }

    /** transferPlayerToOrg: the player's remove, then the warehouse's add, as two separate calls; a throw in
        the remove skips the add, and a throw in the add keeps the remove. */
    method TransferPlayerToOrg(player: Owner, org: Owner, id: ItemId, amount: int) returns (res: Result)
      requires Valid()
      modifies this
      ensures Valid() && meta == old(meta) && nextId == old(nextId)
      ensures var pre := Provision(old(rows), player, PlayerSlots); var t := RemoveStackPlan(View(pre, player, PlayerSlots), id, amount);
        rows == WriteBack(pre, player, t.slots) &&
        (t.left > 0 ==> res == Threw(TooFewUnits) && orgRows == old(orgRows)) &&
        (t.left <= 0 && id !in cat ==> res == Threw(UnknownItem) && orgRows == old(orgRows)) &&
        (t.left <= 0 && id in cat && cat[id] == 1 ==> res == Threw(UniqueInWarehouse) && orgRows == old(orgRows)) &&
        (t.left <= 0 && id in cat && cat[id] > 1 ==>
          var opre := Provision(old(orgRows), org, OrgSlots); var p := AddStackPlan(View(opre, org, OrgSlots), id, cat[id], amount);
          orgRows == WriteBack(opre, org, p.0) && res == (if p.1 > 0 then Threw(WarehouseFull) else Done))
    {
      res := InventoryRemoveStack(player, id, amount);
      if res.Threw? {
        return;
      }
      res := OrgInventoryAddStack(org, id, amount);
    }
  }

  /** A transfer of an amount the player's slots `v` hold, into a warehouse whose slots are `w`: the player's
      slots lose exactly `amount`; a warehouse add that ends normally gains exactly `amount`, and one that
      throws for lack of room gains only the room it had, so the units in between are lost. */
  lemma TransferOutcome(v: seq<Slot>, w: seq<Slot>, id: ItemId, max: StackMax, amount: int)
    requires 0 < amount <= Count(v, id)
    ensures var t := RemoveStackPlan(v, id, amount);
      var p := AddStackPlan(w, id, max, amount);
      var room := PartialRoom(w, id, max) + max * FreeCount(w);
      t.left <= 0 && Count(t.slots, id) == Count(v, id) - amount &&
      (p.1 <= 0 ==> Count(p.0, id) == Count(w, id) + amount) &&
      (p.1 > 0 ==> room < amount && Count(p.0, id) == Count(w, id) + room)
  {
    RemovePlanExact(v, id, amount, id);
    AddPlanRoom(w, id, max, amount);
    AddPlanCount(w, id, max, amount, id);
  }
}
