/** The slot model shared by every bot: catalogue items, slots, per-owner slot
    tables, and the counting functions the properties are stated with. */
module Slots {

  datatype Option<T> = None | Some(value: T)

  type ItemId = string

  /** Instance ids come from an abstract fresh-id supply: a store hands out the next natural number. */
  type InstanceId = nat

  /** stack_max of a catalogue item; item-upsert refuses values below 1. */
  type StackMax = n: int | 1 <= n witness 1

  /** The catalogue: item id to stack_max (1 marks a unique item). */
  type Catalog = map<ItemId, StackMax>

  /** A fungible stack holds at least one unit: every writer clears a slot that would reach 0. */
  type Pos = n: int | 1 <= n witness 1

  /** One slot row: empty, a fungible stack, or one unit of a unique item. */
  datatype Slot =
    | Empty
    | Stack(item: ItemId, qty: Pos)
    | Unique(item: ItemId, instance: InstanceId, durability: Option<int>, durabilityMax: Option<int>)

  /** The slot row's `quantity` column. */
  function Qty(s: Slot): nat
  {
    match s
    case Empty => 0
    case Stack(_, q) => q
    case Unique(_, _, _, _) => 1
  }

  predicate Holds(s: Slot, id: ItemId)
  {
    !s.Empty? && s.item == id
  }

  /** Units of `id` held by one slot. */
  function Amount(s: Slot, id: ItemId): nat
  {
    if Holds(s, id) then Qty(s) else 0
  }

  /** Units of `id` held across a slot list. */
  function Count(slots: seq<Slot>, id: ItemId): nat
  {
    if slots == [] then 0 else Amount(slots[0], id) + Count(slots[1..], id)
  }

  /** Number of empty slots. */
  function FreeCount(slots: seq<Slot>): nat
  {
    if slots == [] then 0 else (if slots[0].Empty? then 1 else 0) + FreeCount(slots[1..])
  }

  function Min(a: int, b: int): int { if a <= b then a else b }
  function Max(a: int, b: int): int { if a >= b then a else b }

  /** A slot agrees with the catalogue: stacks of stackable items within stack_max,
      unique units only of items with stack_max = 1. */
  predicate SlotConforms(s: Slot, cat: Catalog)
  {
    match s
    case Empty => true
    case Stack(id, q) => id in cat && cat[id] > 1 && q <= cat[id]
    case Unique(id, _, _, _) => id in cat && cat[id] == 1
  }

  predicate Conforms(slots: seq<Slot>, cat: Catalog)
  {
    forall i :: 0 <= i < |slots| ==> SlotConforms(slots[i], cat)
  }

  lemma {:induction false} CountAppend(a: seq<Slot>, b: seq<Slot>, id: ItemId)
    ensures Count(a + b, id) == Count(a, id) + Count(b, id)
  {
    if a != [] {
      assert (a + b)[1..] == a[1..] + b;
      CountAppend(a[1..], b, id);
    } else {
      assert a + b == b;
    }
  }

  lemma {:induction false} FreeCountAppend(a: seq<Slot>, b: seq<Slot>)
    ensures FreeCount(a + b) == FreeCount(a) + FreeCount(b)
  {
    if a != [] {
      assert (a + b)[1..] == a[1..] + b;
      FreeCountAppend(a[1..], b);
    } else {
      assert a + b == b;
    }
  }

  /** Overwriting one slot changes the count by exactly what that slot held and now holds. */
  lemma {:induction false} CountUpdate(slots: seq<Slot>, k: nat, s: Slot, id: ItemId)
    requires k < |slots|
    ensures Count(slots[k := s], id) == Count(slots, id) - Amount(slots[k], id) + Amount(s, id)
  {
    if k > 0 {
      assert slots[k := s][1..] == slots[1..][k - 1 := s];
      CountUpdate(slots[1..], k - 1, s, id);
    }
  }

  lemma {:induction false} FreeCountUpdate(slots: seq<Slot>, k: nat, s: Slot)
    requires k < |slots|
    ensures FreeCount(slots[k := s]) ==
      FreeCount(slots) - (if slots[k].Empty? then 1 else 0) + (if s.Empty? then 1 else 0)
  {
    if k > 0 {
      assert slots[k := s][1..] == slots[1..][k - 1 := s];
      FreeCountUpdate(slots[1..], k - 1, s);
    }
  }

  /** Count is the sum of the per-slot amounts at every index. */
  lemma {:induction false} CountSplit(slots: seq<Slot>, k: nat, id: ItemId)
    requires k < |slots|
    ensures Count(slots, id) == Count(slots[..k], id) + Amount(slots[k], id) + Count(slots[k + 1..], id)
  {
    assert slots == slots[..k] + ([slots[k]] + slots[k + 1..]);
    CountAppend(slots[..k], [slots[k]] + slots[k + 1..], id);
    assert ([slots[k]] + slots[k + 1..])[1..] == slots[k + 1..];
  }

  /** A list in which no slot holds `id` counts 0 units of it, and conversely. */
  lemma {:induction false} CountZero(slots: seq<Slot>, id: ItemId)
    ensures Count(slots, id) == 0 <==> forall i :: 0 <= i < |slots| ==> !Holds(slots[i], id)
  {
    if slots != [] {
      CountZero(slots[1..], id);
      assert forall i :: 1 <= i < |slots| ==> slots[i] == slots[1..][i - 1];
    }
  }

  /** Two lists that agree on every slot holding `id` or not holding it at all count `id` equally. */
  lemma {:induction false} CountSameAmounts(a: seq<Slot>, b: seq<Slot>, id: ItemId)
    requires |a| == |b|
    requires forall i :: 0 <= i < |a| ==> Amount(a[i], id) == Amount(b[i], id)
    ensures Count(a, id) == Count(b, id)
  {
    if a != [] {
      assert forall i :: 0 <= i < |a| - 1 ==> a[1..][i] == a[i + 1] && b[1..][i] == b[i + 1];
      CountSameAmounts(a[1..], b[1..], id);
    }
  }

  lemma {:induction false} FreeCountSame(a: seq<Slot>, b: seq<Slot>)
    requires |a| == |b|
    requires forall i :: 0 <= i < |a| ==> (a[i].Empty? <==> b[i].Empty?)
    ensures FreeCount(a) == FreeCount(b)
  {
    if a != [] {
      assert forall i :: 0 <= i < |a| - 1 ==> a[1..][i] == a[i + 1] && b[1..][i] == b[i + 1];
      FreeCountSame(a[1..], b[1..]);
    }
  }

  /** The first empty slot (`slots.find(s => !s.item_id)`). */
  function FirstFree(v: seq<Slot>): (r: Option<nat>)
    ensures r.Some? ==> (r.value < |v| && v[r.value].Empty? && forall i :: 0 <= i < r.value ==> !v[i].Empty?)
    ensures r.None? ==> forall i :: 0 <= i < |v| ==> !v[i].Empty?
  {
    if v == [] then None
    else if v[0].Empty? then Some(0)
    else
      var r := FirstFree(v[1..]);
      assert forall i :: 1 <= i < |v| ==> v[i] == v[1..][i - 1];
      if r.Some? then Some(r.value + 1) else None
  }

  // ---------------------------------------------------------------------------
  // Slot tables: one row per (owner, slot number), as in the inventory_slots table

  /** An owner of slots: a (guild, user) pair, or a (guild, org) pair for a warehouse. */
  datatype Owner = Owner(guild: string, user: string)

  datatype SlotKey = SlotKey(owner: Owner, slot: int)

  type Rows = map<SlotKey, Slot>

  /** Every slot number 1..n of owner o has a row. */
  predicate Provisioned(rows: Rows, o: Owner, n: nat)
  {
    forall s :: 1 <= s <= n ==> SlotKey(o, s) in rows
  }

  /** The rows are keyed 1..n and an owner has either all n rows or none
      (ensureSlots is the only writer that inserts rows, and it inserts all missing ones). */
  ghost predicate WellKeyed(rows: Rows, n: nat)
  {
    forall k :: k in rows ==> 1 <= k.slot <= n && Provisioned(rows, k.owner, n)
  }

  /** The owner's slots in slot order (`SELECT * ... ORDER BY slot`). */
  function View(rows: Rows, o: Owner, n: nat): (v: seq<Slot>)
    requires Provisioned(rows, o, n)
    ensures |v| == n
    ensures forall i :: 0 <= i < n ==> v[i] == rows[SlotKey(o, i + 1)]
  {
    seq(n, i requires 0 <= i < n => rows[SlotKey(o, i + 1)])
  }

  /** What the slot query returns for an owner whose rows may not exist yet. */
  function Snapshot(rows: Rows, o: Owner, n: nat): (v: seq<Slot>)
  {
    if Provisioned(rows, o, n) then View(rows, o, n) else []
  }

  /** The table after ensureSlots(o): the missing rows 1..n of o are inserted empty, nothing else changes. */
  function Provision(rows: Rows, o: Owner, n: nat): (r: Rows)
    ensures Provisioned(r, o, n)
    ensures forall k :: k in rows ==> k in r && r[k] == rows[k]
    ensures forall k :: k in r && k !in rows ==> k.owner == o && 1 <= k.slot <= n && r[k] == Empty
  {
    map k | k in rows.Keys + (set s | 1 <= s <= n :: SlotKey(o, s)) :: if k in rows then rows[k] else Empty
  }

  /** ensureSlots: walk slot numbers 1..n and insert an empty row for each missing one. */
  method EnsureRows(rows: Rows, o: Owner, n: nat) returns (r: Rows)
    ensures r == Provision(rows, o, n)
  {
    r := rows;
    var s := 1;
    while s <= n
      invariant 1 <= s <= n + 1
      invariant r == Provision(rows, o, s - 1)
    {
      if SlotKey(o, s) !in r {
        r := r[SlotKey(o, s) := Empty];
      }
      s := s + 1;
    }
  }

  /** Provisioning twice is provisioning once. */
  lemma ProvisionIdempotent(rows: Rows, o: Owner, n: nat)
    ensures Provision(Provision(rows, o, n), o, n) == Provision(rows, o, n)
  {
  }

  /** A provisioned owner's table is left exactly as it was by ensureSlots. */
  lemma ProvisionNoop(rows: Rows, o: Owner, n: nat)
    requires Provisioned(rows, o, n)
    ensures Provision(rows, o, n) == rows
  {
  }

  lemma ProvisionKeeps(rows: Rows, o: Owner, n: nat)
    requires WellKeyed(rows, n)
    ensures WellKeyed(Provision(rows, o, n), n)
    ensures forall p :: Provisioned(rows, p, n) ==>
              Provisioned(Provision(rows, o, n), p, n) && View(Provision(rows, o, n), p, n) == View(rows, p, n)
  {
  }

  /** Commit a whole plan for owner o (the write-back loop over the planned slots). */
  function WriteBack(rows: Rows, o: Owner, plan: seq<Slot>): (r: Rows)
    requires Provisioned(rows, o, |plan|)
    ensures r.Keys == rows.Keys
    ensures Provisioned(r, o, |plan|) && View(r, o, |plan|) == plan
    ensures forall k :: k in rows && !(k.owner == o && 1 <= k.slot <= |plan|) ==> r[k] == rows[k]
  {
    map k | k in rows :: if k.owner == o && 1 <= k.slot <= |plan| then plan[k.slot - 1] else rows[k]
  }

  /** Writing slot k of owner o changes o's view at k and no other owner's view. */
  lemma ViewWrite(rows: Rows, o: Owner, n: nat, k: int, s: Slot)
    requires Provisioned(rows, o, n) && 1 <= k <= n
    ensures Provisioned(rows[SlotKey(o, k) := s], o, n)
    ensures View(rows[SlotKey(o, k) := s], o, n) == View(rows, o, n)[k - 1 := s]
    ensures forall p :: p != o && Provisioned(rows, p, n) ==>
              Provisioned(rows[SlotKey(o, k) := s], p, n) && View(rows[SlotKey(o, k) := s], p, n) == View(rows, p, n)
  {
  }

  lemma WriteBackOthers(rows: Rows, o: Owner, plan: seq<Slot>)
    requires Provisioned(rows, o, |plan|)
    ensures forall p :: p != o && Provisioned(rows, p, |plan|) ==>
              Provisioned(WriteBack(rows, o, plan), p, |plan|) && View(WriteBack(rows, o, plan), p, |plan|) == View(rows, p, |plan|)
  {
  }

  lemma WriteBackKeeps(rows: Rows, o: Owner, plan: seq<Slot>)
    requires Provisioned(rows, o, |plan|) && WellKeyed(rows, |plan|)
    ensures WellKeyed(WriteBack(rows, o, plan), |plan|)
  {
  }
  /** A second commit for the same owner overrides the first. */
  lemma WriteBackTwice(rows: Rows, o: Owner, p1: seq<Slot>, p2: seq<Slot>)
    requires Provisioned(rows, o, |p1|) && |p1| == |p2|
    ensures WriteBack(WriteBack(rows, o, p1), o, p2) == WriteBack(rows, o, p2)
  {
  }

  /** Committing the owner's own slots changes nothing. */
  lemma WriteBackView(rows: Rows, o: Owner, n: nat)
    requires Provisioned(rows, o, n)
    ensures WriteBack(rows, o, View(rows, o, n)) == rows
  {
  }

  /** The clear-all update: every row of owner o becomes empty, whatever its slot number. */
  function ClearOwner(rows: Rows, o: Owner): (r: Rows)
    ensures r.Keys == rows.Keys
    ensures forall k :: k in rows ==> r[k] == (if k.owner == o then Empty else rows[k])
  {
    map k | k in rows :: if k.owner == o then Empty else rows[k]
  }

  // ---------------------------------------------------------------------------
  // Instance ids: each unique unit carries its own id, drawn from a fresh-id supply

  /** The instance ids of the unique units in a slot list. */
  ghost function Instances(slots: seq<Slot>): set<InstanceId>
  {
    set i | 0 <= i < |slots| && slots[i].Unique? :: slots[i].instance
  }

  /** No two unique units of a slot list share an instance id. */
  predicate InstancesDistinct(slots: seq<Slot>)
  {
    forall a, b :: 0 <= a < |slots| && 0 <= b < |slots| && a != b && slots[a].Unique? && slots[b].Unique? ==>
      slots[a].instance != slots[b].instance
  }

  /** Every unique unit of `plan` was already among `view`'s units or has a fresh id in lo..hi-1,
      and no two share an id. */
  ghost predicate Refreshed(view: seq<Slot>, plan: seq<Slot>, lo: int, hi: int)
  {
    InstancesDistinct(plan) &&
    forall i :: 0 <= i < |plan| && plan[i].Unique? ==> plan[i].instance in Instances(view) || lo <= plan[i].instance < hi
  }

  /** Unique units stay where they are: a unique slot of `plan` is a unique slot of `view` with the same id. */
  predicate UniquesStay(view: seq<Slot>, plan: seq<Slot>)
  {
    |plan| == |view| &&
    forall i :: 0 <= i < |plan| && plan[i].Unique? ==> view[i].Unique? && view[i].instance == plan[i].instance
  }

  lemma StayRefreshed(view: seq<Slot>, plan: seq<Slot>, lo: int)
    requires InstancesDistinct(view) && UniquesStay(view, plan)
    ensures Refreshed(view, plan, lo, lo)
  {
    forall i | 0 <= i < |plan| && plan[i].Unique? ensures plan[i].instance in Instances(view) {
      assert view[i].Unique?;
    }
  }

  /** The slot table's invariant: keyed 1..n, every row agrees with the catalogue, every instance id is
      below the next fresh id, and no two rows hold the same instance. */
  ghost predicate TableValid(rows: Rows, cat: Catalog, n: nat, next: InstanceId)
  {
    WellKeyed(rows, n) &&
    (forall k :: k in rows ==> SlotConforms(rows[k], cat)) &&
    (forall k :: k in rows && rows[k].Unique? ==> rows[k].instance < next) &&
    (forall k1, k2 ::
      (k1 in rows && k2 in rows && rows[k1].Unique? && rows[k2].Unique? && rows[k1].instance == rows[k2].instance) ==>
      k1 == k2)
  }

  /** An owner's slots in a valid table agree with the catalogue and hold distinct, already issued ids. */
  lemma ViewValid(rows: Rows, cat: Catalog, n: nat, next: InstanceId, o: Owner)
    requires TableValid(rows, cat, n, next) && Provisioned(rows, o, n)
    ensures var v := View(rows, o, n);
      Conforms(v, cat) && InstancesDistinct(v) && forall x :: x in Instances(v) ==> x < next
  {
    var v := View(rows, o, n);
    forall a, b | 0 <= a < n && 0 <= b < n && a != b && v[a].Unique? && v[b].Unique?
      ensures v[a].instance != v[b].instance
    {
      assert SlotKey(o, a + 1) != SlotKey(o, b + 1);
    }
  }

  lemma ClearOwnerValid(rows: Rows, cat: Catalog, n: nat, next: InstanceId, o: Owner)
    requires TableValid(rows, cat, n, next)
    ensures TableValid(ClearOwner(rows, o), cat, n, next)
  {
  }

  lemma ProvisionValid(rows: Rows, cat: Catalog, n: nat, next: InstanceId, o: Owner)
    requires TableValid(rows, cat, n, next)
    ensures TableValid(Provision(rows, o, n), cat, n, next)
  {
    ProvisionKeeps(rows, o, n);
  }

  /** An id that is already held by owner o, or not yet issued, is held by no row of another owner
      (nor by a row of o outside 1..n). */
  lemma NotElsewhere(rows: Rows, cat: Catalog, n: nat, next: InstanceId, o: Owner, x: InstanceId, k: SlotKey)
    requires TableValid(rows, cat, n, next) && Provisioned(rows, o, n)
    requires x in Instances(View(rows, o, n)) || x >= next
    requires k in rows && rows[k].Unique? && !(k.owner == o && 1 <= k.slot <= n)
    ensures rows[k].instance != x
  {
    var v := View(rows, o, n);
    if x in Instances(v) {
      var i :| 0 <= i < |v| && v[i].Unique? && v[i].instance == x;
      assert rows[SlotKey(o, i + 1)] == v[i];
    }
  }

  /** Committing a plan that agrees with the catalogue and whose unique units are old or freshly issued
      below next2 keeps the table valid with next2 as the next fresh id. */
  lemma CommitValid(rows: Rows, cat: Catalog, n: nat, next: InstanceId, o: Owner, plan: seq<Slot>, next2: InstanceId)
    requires TableValid(rows, cat, n, next) && Provisioned(rows, o, n) && |plan| == n
    requires Conforms(plan, cat) && Refreshed(View(rows, o, n), plan, next, next2) && next <= next2
    ensures TableValid(WriteBack(rows, o, plan), cat, n, next2)
  {
    var v := View(rows, o, n);
    var r := WriteBack(rows, o, plan);
    WriteBackKeeps(rows, o, plan);
    forall k | k in r
      ensures SlotConforms(r[k], cat)
      ensures r[k].Unique? ==> r[k].instance < next2
    {
      if k.owner == o && 1 <= k.slot <= n {
        assert r[k] == plan[k.slot - 1];
        if plan[k.slot - 1].Unique? && plan[k.slot - 1].instance in Instances(v) {
          var i :| 0 <= i < |v| && v[i].Unique? && v[i].instance == plan[k.slot - 1].instance;
          assert rows[SlotKey(o, i + 1)] == v[i];
        }
      }
    }
    forall k1, k2 | k1 in r && k2 in r && r[k1].Unique? && r[k2].Unique?
      ensures r[k1].instance == r[k2].instance ==> k1 == k2
    {
      var in1 := k1.owner == o && 1 <= k1.slot <= n;
      var in2 := k2.owner == o && 1 <= k2.slot <= n;
      if in1 && in2 {
        assert r[k1] == plan[k1.slot - 1] && r[k2] == plan[k2.slot - 1];
      } else if in1 {
        assert r[k1] == plan[k1.slot - 1] && r[k2] == rows[k2];
        NotElsewhere(rows, cat, n, next, o, r[k1].instance, k2);
      } else if in2 {
        assert r[k2] == plan[k2.slot - 1] && r[k1] == rows[k1];
        NotElsewhere(rows, cat, n, next, o, r[k2].instance, k1);
      } else {
        assert r[k1] == rows[k1] && r[k2] == rows[k2];
      }
    }
  }
}
