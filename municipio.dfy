/** The town-hall bot's adapter onto the inventory bot's slot table (the same ten slots per user, written
    here as PlayerSlots), and the
    administrators' certificate transfer between two users, which gives the certificate back to the sender
    when the receiver cannot take it. Like the shared library, the adapter runs no transaction. */
module Municipio {
  import opened Slots
  import opened Stacking
  import opened Removal
  import opened InventoryCore
  import MI = MetroInventories
  import MT = MetroTrades

  /** The JSON text of a metadata row's payload; its contents are not modelled. */
  type Payload = string

  /** What the certificate lookup answers when the instance has no metadata row. */
  const NoPayload: Payload := "{}"

  /** The item the transfer moves. */
  const Certificate: ItemId := "certificato_arrivo"

  /** A row of the instance metadata table. */
  datatype MetaRow = MetaRow(item: ItemId, payload: Payload)

  /** A unique unit found by item: its instance id and its payload. */
  datatype Found = Found(instance: InstanceId, payload: Payload)

  /** The unique add's answer: the new instance id, or the error it throws. */
  datatype Placement = Placed(instance: InstanceId) | Refused(why: Failure)

  /** The transfer command's replies; `Errored` is the handler's outer catch. */
  datatype SimReply = AdminOnly | NoCertificate | ReceiverFull(why: Failure) | Transferred | Errored(why: Failure)

  /** A slot the lookup by item matches: item `id`, quantity 1 and an instance id. */
  predicate UniqueOf(s: Slot, id: ItemId)
  {
    s.Unique? && s.item == id
  }

  /** The lowest slot whose unit is a unique unit of `id`. */
  function FirstUnique(v: seq<Slot>, id: ItemId): (r: Option<nat>)
    ensures r.Some? ==> r.value < |v| && UniqueOf(v[r.value], id) && forall i :: 0 <= i < r.value ==> !UniqueOf(v[i], id)
    ensures r.None? ==> forall i :: 0 <= i < |v| ==> !UniqueOf(v[i], id)
  {
    if v == [] then None
    else if UniqueOf(v[0], id) then Some(0)
    else
      var r := FirstUnique(v[1..], id);
      assert forall i :: 1 <= i < |v| ==> v[i] == v[1..][i - 1];
      if r.Some? then Some(r.value + 1) else None
  }

  /** InventoryFindUnique: the unit of the lowest slot holding a unique unit of `id` (no provisioning),
      with its payload, or `{}` when its metadata row is missing; None when the user holds none. */
  function FindUnique(rows: Rows, meta: map<InstanceId, MetaRow>, o: Owner, id: ItemId): (r: Option<Found>)
    ensures var v := Snapshot(rows, o, PlayerSlots);
      r.None? <==> forall i :: 0 <= i < |v| ==> !UniqueOf(v[i], id)
    ensures var v := Snapshot(rows, o, PlayerSlots);
      r.Some? ==> (exists i :: 0 <= i < |v| && UniqueOf(v[i], id) && v[i].instance == r.value.instance &&
                     (forall k :: 0 <= k < i ==> !UniqueOf(v[k], id)))
    ensures r.Some? && r.value.instance in meta ==> r.value.payload == meta[r.value.instance].payload
    ensures r.Some? && r.value.instance !in meta ==> r.value.payload == NoPayload
  {
    var v := Snapshot(rows, o, PlayerSlots);
    match FirstUnique(v, id)
    case None => None
    case Some(i) =>
      var x := v[i].instance;
      Some(Found(x, if x in meta then meta[x].payload else NoPayload))
  }

  /** Writing slot i + 1 of a provisioned owner o changes o's units by what leaves and enters that slot,
      and no other owner's slots. */
  lemma SetUnits(rows: Rows, o: Owner, i: nat, x: Slot, j: ItemId)
    requires Provisioned(rows, o, PlayerSlots) && i < PlayerSlots
    ensures MT.Units(rows[SlotKey(o, i + 1) := x], o, j) ==
      MT.Units(rows, o, j) - Amount(View(rows, o, PlayerSlots)[i], j) + Amount(x, j)
    ensures forall p :: p != o ==> Snapshot(rows[SlotKey(o, i + 1) := x], p, PlayerSlots) == Snapshot(rows, p, PlayerSlots)
  {
    ViewWrite(rows, o, PlayerSlots, i + 1, x);
    CountUpdate(View(rows, o, PlayerSlots), i, x, j);
    MT.WriteSnapshots(rows, o, i + 1, x);
  }

  /** A user holding no unique unit of `id` holds none after provisioning either: the inserted rows are empty. */
  lemma ProvisionNoUnique(before: Rows, o: Owner, id: ItemId)
    requires WellKeyed(before, PlayerSlots)
    requires var v := Snapshot(before, o, PlayerSlots); forall k :: 0 <= k < |v| ==> !UniqueOf(v[k], id)
    ensures forall k :: 0 <= k < PlayerSlots ==> !UniqueOf(View(Provision(before, o, PlayerSlots), o, PlayerSlots)[k], id)
  {
    var v := View(Provision(before, o, PlayerSlots), o, PlayerSlots);
    if Provisioned(before, o, PlayerSlots) {
      ProvisionNoop(before, o, PlayerSlots);
      assert v == Snapshot(before, o, PlayerSlots);
    } else {
      forall k | 0 <= k < PlayerSlots ensures v[k].Empty? {
        assert SlotKey(o, k + 1) !in before;
      }
    }
  }

  /** A user holding no unique unit of u's item, once given u in the free slot i, is found holding u at slot i. */
  lemma AddThenFind(rows: Rows, o: Owner, i: nat, u: Slot)
    requires Provisioned(rows, o, PlayerSlots) && i < PlayerSlots && u.Unique?
    requires forall k :: 0 <= k < PlayerSlots ==> !UniqueOf(View(rows, o, PlayerSlots)[k], u.item)
    ensures FirstUnique(Snapshot(rows[SlotKey(o, i + 1) := u], o, PlayerSlots), u.item) == Some(i)
  {
    var v := View(rows, o, PlayerSlots);
    ViewWrite(rows, o, PlayerSlots, i + 1, u);
    var w := View(rows[SlotKey(o, i + 1) := u], o, PlayerSlots);
    assert w == v[i := u];
    var f := FirstUnique(w, u.item);
    assert f.Some? by { assert UniqueOf(w[i], u.item); }
    assert f.value == i by { assert UniqueOf(w[f.value], u.item); }
  }

  /** A user who held no unique unit of `id`, once the unique add has put the fresh unit n in the first free
      slot after provisioning and recorded its payload, is found holding n with that payload. */
  lemma AddedFound(before: Rows, meta: map<InstanceId, MetaRow>, o: Owner, id: ItemId, n: InstanceId, payload: Payload)
    requires WellKeyed(before, PlayerSlots) && FindUnique(before, meta, o, id).None?
    requires FirstFree(View(Provision(before, o, PlayerSlots), o, PlayerSlots)).Some?
    ensures var pre := Provision(before, o, PlayerSlots); var i := FirstFree(View(pre, o, PlayerSlots)).value;
      FindUnique(pre[SlotKey(o, i + 1) := Unique(id, n, None, None)], meta[n := MetaRow(id, payload)], o, id) ==
        Some(Found(n, payload))
  {
    var pre := Provision(before, o, PlayerSlots);
    var i := FirstFree(View(pre, o, PlayerSlots)).value;
    ProvisionNoUnique(before, o, id);
    ProvisionKeeps(before, o, PlayerSlots);
    AddThenFind(pre, o, i, Unique(id, n, None, None));
  }

  /** Clearing the slot that holds instance x of a valid table leaves no slot of the owner holding x. */
  lemma ClearedGone(rows: Rows, cat: Catalog, next: InstanceId, o: Owner, i: nat, x: InstanceId)
    requires TableValid(rows, cat, PlayerSlots, next) && Provisioned(rows, o, PlayerSlots) && i < PlayerSlots
    requires View(rows, o, PlayerSlots)[i].Unique? && View(rows, o, PlayerSlots)[i].instance == x
    ensures SlotOf(Snapshot(rows[SlotKey(o, i + 1) := Empty], o, PlayerSlots), x).None?
  {
    ViewWrite(rows, o, PlayerSlots, i + 1, Empty);
    var w := View(rows[SlotKey(o, i + 1) := Empty], o, PlayerSlots);
    forall k | 0 <= k < PlayerSlots ensures !(w[k].Unique? && w[k].instance == x) {
      if k != i && w[k].Unique? && w[k].instance == x {
        SameInstance(rows, cat, next, o, i, k);
      }
    }
  }

  /** Owners whose slots are the same hold the same units. */
  lemma SameUnits(a: Rows, b: Rows, p: Owner)
    requires Snapshot(a, p, PlayerSlots) == Snapshot(b, p, PlayerSlots)
    ensures forall j :: MT.Units(a, p, j) == MT.Units(b, p, j)
  {
  }

  /** Two slots of a valid table holding the same instance are the same slot. */
  lemma SameInstance(rows: Rows, cat: Catalog, next: InstanceId, o: Owner, a: nat, b: nat)
    requires TableValid(rows, cat, PlayerSlots, next) && Provisioned(rows, o, PlayerSlots)
    requires a < PlayerSlots && b < PlayerSlots
    requires View(rows, o, PlayerSlots)[a].Unique? && View(rows, o, PlayerSlots)[b].Unique?
    requires View(rows, o, PlayerSlots)[a].instance == View(rows, o, PlayerSlots)[b].instance
    ensures a == b
  {
    assert SlotKey(o, a + 1) == SlotKey(o, b + 1);
  }

  class Adapter {
    const cat: Catalog
    var rows: Rows                       // inventory_slots, shared with the inventory bot
    var meta: map<InstanceId, MetaRow>   // inventory_instances_meta
    var nextId: InstanceId               // the fresh-id supply

    ghost predicate Valid()
      reads this
    {
      TableValid(rows, cat, PlayerSlots, nextId) && forall x :: x in meta ==> x < nextId
    }

    constructor (cat: Catalog)
      ensures Valid() && this.cat == cat && rows == map[] && meta == map[] && nextId == 0
    {
      this.cat := cat;
      rows, meta, nextId := map[], map[], 0;
    }

    /** invEnsureSlots: the missing rows 1..10 of the user are inserted empty. */
    method InvEnsureSlots(o: Owner)
      requires Valid()
      modifies this
      ensures Valid() && rows == Provision(old(rows), o, PlayerSlots) && meta == old(meta) && nextId == old(nextId)
    {
      ProvisionValid(rows, cat, PlayerSlots, nextId, o);
      rows := EnsureRows(rows, o, PlayerSlots);
    }

    /** InventoryAddStack: throws for an unknown or a unique item; otherwise provisions the user, runs the
        top-up and fill loops, writing as it goes, and throws when units remain, leaving what was written. */
    method InventoryAddStack(o: Owner, id: ItemId, amount: int) returns (res: Result)
      requires Valid()
      modifies this
      ensures Valid() && meta == old(meta) && nextId == old(nextId)
      ensures id !in cat ==> res == Threw(UnknownItem) && rows == old(rows)
      ensures id in cat && cat[id] == 1 ==> res == Threw(UseAddUnique) && rows == old(rows)
      ensures id in cat && cat[id] > 1 ==>
        var pre := Provision(old(rows), o, PlayerSlots); var p := AddStackPlan(View(pre, o, PlayerSlots), id, cat[id], amount);
        rows == WriteBack(pre, o, p.0) && res == (if p.1 > 0 then Threw(InventoryFull) else Done)
    {
      if id !in cat {
        return Threw(UnknownItem);
      }
      if cat[id] == 1 {
        return Threw(UseAddUnique);
      }
      InvEnsureSlots(o);
      var r, remaining := WriteAddStack(rows, o, PlayerSlots, id, cat[id], amount);
      AddStackValid(rows, cat, nextId, o, id, amount);
      rows := r;
      res := if remaining > 0 then Threw(InventoryFull) else Done;
    }

    /** InventoryAddUnique: the item must be known and unique; the user is provisioned, and the unit gets a
        fresh instance id in the first free slot, with a metadata row holding the payload; a user with no
        free slot makes it throw. */
    method InventoryAddUnique(o: Owner, id: ItemId, payload: Payload) returns (r: Placement)
      requires Valid()
      modifies this
      ensures Valid()
      ensures id !in cat ==> r == Refused(UnknownItem) && rows == old(rows) && meta == old(meta) && nextId == old(nextId)
      ensures id in cat && cat[id] != 1 ==> r == Refused(NotMarkedUnique) && rows == old(rows) && meta == old(meta) && nextId == old(nextId)
      ensures id in cat && cat[id] == 1 ==>
        var pre := Provision(old(rows), o, PlayerSlots);
        match FirstFree(View(pre, o, PlayerSlots))
        case None => r == Refused(NoFreeSlot) && rows == pre && meta == old(meta) && nextId == old(nextId)
        case Some(i) =>
          r == Placed(old(nextId)) && rows == pre[SlotKey(o, i + 1) := Unique(id, old(nextId), None, None)] &&
          meta == old(meta)[old(nextId) := MetaRow(id, payload)] && nextId == old(nextId) + 1
    {
      if id !in cat {
        return Refused(UnknownItem);
      }
      if cat[id] != 1 {
        return Refused(NotMarkedUnique);
      }
      InvEnsureSlots(o);
      var free := FirstFree(View(rows, o, PlayerSlots));
      if free.None? {
        return Refused(NoFreeSlot);
      }
      var iid := nextId;
      PlaceUnique(o, free.value, id, payload);
      r := Placed(iid);
    }

    /** The unique add's writes once a free slot i is found: the slot row, then the metadata row. */
    method PlaceUnique(o: Owner, i: nat, id: ItemId, payload: Payload)
      requires Valid() && Provisioned(rows, o, PlayerSlots) && i < PlayerSlots
      requires View(rows, o, PlayerSlots)[i].Empty? && id in cat && cat[id] == 1
      modifies this
      ensures Valid() && nextId == old(nextId) + 1
      ensures rows == old(rows)[SlotKey(o, i + 1) := Unique(id, old(nextId), None, None)]
      ensures meta == old(meta)[old(nextId) := MetaRow(id, payload)]
    {
      var iid := nextId;
      UniqueAddValid(rows, cat, nextId, o, i, id);
      rows := rows[SlotKey(o, i + 1) := Unique(id, iid, None, None)];
      meta := meta[iid := MetaRow(id, payload)];
      nextId := nextId + 1;
    }

    /** InventoryFindUnique, over the adapter's own tables. */
    function InventoryFindUnique(o: Owner, id: ItemId): Option<Found>
      reads this
    {
      FindUnique(rows, meta, o, id)
    }

    /** InventoryRemoveUniqueById: clears the user's slot holding the instance when there is one, and deletes
        the instance's metadata row in every case; it never throws. */
    method InventoryRemoveUniqueById(o: Owner, x: InstanceId)
      requires Valid()
      modifies this
      ensures Valid() && nextId == old(nextId) && meta == old(meta) - {x}
      ensures SlotOf(Snapshot(rows, o, PlayerSlots), x).None?
      ensures match SlotOf(Snapshot(old(rows), o, PlayerSlots), x)
        case None => rows == old(rows)
        case Some(i) => rows == old(rows)[SlotKey(o, i + 1) := Empty]
    {
      var found := SlotOf(Snapshot(rows, o, PlayerSlots), x);
      if found.Some? {
        ClearValid(rows, cat, nextId, o, found.value);
        ClearedGone(rows, cat, nextId, o, found.value, x);
        rows := rows[SlotKey(o, found.value + 1) := Empty];
      }
      meta := meta - {x};
    }

    /** trade-sim: an administrator moves the sender's first certificate to the receiver with the same
        payload; when the receiver's add throws, the certificate is added back to the sender. The sender's
        slot freed by the removal guarantees that the add back succeeds, so the outer error reply never
        happens; the certificate count of each party is restored or moved by one, and the payload travels
        with the certificate. */
    method TradeSim(admin: bool, from: Owner, to: Owner) returns (reply: SimReply)
      requires Valid()
      modifies this
      ensures Valid()
      ensures !admin ==> reply == AdminOnly && rows == old(rows) && meta == old(meta) && nextId == old(nextId)
      ensures admin && FindUnique(old(rows), old(meta), from, Certificate).None? ==>
        reply == NoCertificate && rows == old(rows) && meta == old(meta) && nextId == old(nextId)
      ensures !reply.Errored?
      ensures reply.ReceiverFull? ==> reply.why == NoFreeSlot && from != to
      ensures reply.Transferred? || reply.ReceiverFull? ==>
        FindUnique(old(rows), old(meta), from, Certificate).Some? && nextId == old(nextId) + 1 && old(nextId) in meta &&
        meta[old(nextId)] == MetaRow(Certificate, FindUnique(old(rows), old(meta), from, Certificate).value.payload) &&
        FindUnique(old(rows), old(meta), from, Certificate).value.instance !in meta
      ensures reply.Transferred? && from != to ==>
        MT.Units(rows, from, Certificate) == MT.Units(old(rows), from, Certificate) - 1 &&
        MT.Units(rows, to, Certificate) == MT.Units(old(rows), to, Certificate) + 1
      ensures reply.Transferred? && from == to ==> MT.Units(rows, from, Certificate) == MT.Units(old(rows), from, Certificate)
      ensures reply.Transferred? ==> SlotOf(Snapshot(rows, to, PlayerSlots), old(nextId)).Some?
      ensures reply.ReceiverFull? ==>
        MT.Units(rows, from, Certificate) == MT.Units(old(rows), from, Certificate) &&
        MT.Units(rows, to, Certificate) == MT.Units(old(rows), to, Certificate)
      ensures forall j :: j != Certificate ==>
        MT.Units(rows, from, j) == MT.Units(old(rows), from, j) && MT.Units(rows, to, j) == MT.Units(old(rows), to, j)
      ensures forall p :: p != from && p != to ==> Snapshot(rows, p, PlayerSlots) == Snapshot(old(rows), p, PlayerSlots)
    {
      if !admin {
        return AdminOnly;
      }
      var found := InventoryFindUnique(from, Certificate);
      if found.None? {
        return NoCertificate;
      }
      var payload := found.value.payload;
      ghost var rows0 := rows;
      ghost var k := RemoveFound(from, found.value.instance);
      ghost var rows1 := rows;
      var placed := AddCertificate(to, payload);
      if placed.Refused? {
        ReceiverFullFacts(rows1, from, to, k);
        ProvisionNoop(rows, from, PlayerSlots);
        ghost var rows2 := rows;
        var back := AddCertificate(from, payload);
        match back
        case Refused(why) => reply := Errored(why);
        case Placed(_) =>
          SameUnits(rows, rows2, to);
          SameUnits(rows1, rows0, to);
          reply := ReceiverFull(placed.why);
      } else {
        if from != to {
          SameUnits(rows, rows1, from);
          SameUnits(rows1, rows0, to);
        }
        reply := Transferred;
      }
    }

    /** The unique add of a certificate, in terms of unit counts: refused exactly when the provisioned owner
        has no free slot, otherwise one more certificate for o, the new metadata row, and no other owner's
        slots touched. */
    method AddCertificate(o: Owner, payload: Payload) returns (placed: Placement)
      requires Valid() && Certificate in cat && cat[Certificate] == 1
      modifies this
      ensures Valid()
      ensures forall j :: j != Certificate ==> MT.Units(rows, o, j) == MT.Units(old(rows), o, j)
      ensures forall p :: p != o ==> Snapshot(rows, p, PlayerSlots) == Snapshot(old(rows), p, PlayerSlots)
      ensures placed.Refused? ==>
        placed.why == NoFreeSlot && rows == Provision(old(rows), o, PlayerSlots) &&
        FirstFree(View(rows, o, PlayerSlots)).None? && meta == old(meta) && nextId == old(nextId)
      ensures placed.Placed? ==>
        placed.instance == old(nextId) && nextId == old(nextId) + 1 &&
        meta == old(meta)[old(nextId) := MetaRow(Certificate, payload)] &&
        MT.Units(rows, o, Certificate) == MT.Units(old(rows), o, Certificate) + 1 &&
        SlotOf(Snapshot(rows, o, PlayerSlots), old(nextId)).Some?
    {
      ghost var before := rows;
      ghost var n := nextId;
      placed := InventoryAddUnique(o, Certificate, payload);
      CertificateUnits(before, rows, o, n);
    }

    /** The removal half of the transfer: the certificate found by item leaves the sender's slot k, and its
        metadata row is deleted. */
    method RemoveFound(from: Owner, x: InstanceId) returns (ghost k: nat)
      requires Valid() && FindUnique(rows, meta, from, Certificate).Some?
      requires FindUnique(rows, meta, from, Certificate).value.instance == x
      modifies this
      ensures Valid() && nextId == old(nextId) && meta == old(meta) - {x}
      ensures Certificate in cat && cat[Certificate] == 1 && x < nextId
      ensures k < PlayerSlots && Provisioned(old(rows), from, PlayerSlots) && rows == old(rows)[SlotKey(from, k + 1) := Empty]
      ensures Provisioned(rows, from, PlayerSlots) && View(rows, from, PlayerSlots)[k].Empty?
      ensures MT.Units(rows, from, Certificate) + 1 == MT.Units(old(rows), from, Certificate)
      ensures forall j :: j != Certificate ==> MT.Units(rows, from, j) == MT.Units(old(rows), from, j)
      ensures forall p :: p != from ==> Snapshot(rows, p, PlayerSlots) == Snapshot(old(rows), p, PlayerSlots)
    {
      var v := Snapshot(rows, from, PlayerSlots);
      var i := FirstUnique(v, Certificate).value;
      assert Provisioned(rows, from, PlayerSlots);
      assert SlotConforms(rows[SlotKey(from, i + 1)], cat);
      assert SlotOf(v, x).Some?;
      k := SlotOf(v, x).value;
      SameInstance(rows, cat, nextId, from, i, k);
      SetUnits(rows, from, k, Empty, Certificate);
      forall j | j != Certificate ensures MT.Units(rows[SlotKey(from, k + 1) := Empty], from, j) == MT.Units(rows, from, j) {
        SetUnits(rows, from, k, Empty, j);
      }
      ViewWrite(rows, from, PlayerSlots, k + 1, Empty);
      InventoryRemoveUniqueById(from, x);
    }
  }

  /** When the receiver has no free slot after provisioning, it is not the sender (whose slot k was just
      emptied), provisioning it leaves the sender's slots and every owner's units as they were, and the
      sender still has a free slot for the certificate to go back to. */
  lemma ReceiverFullFacts(rows: Rows, from: Owner, to: Owner, k: nat)
    requires WellKeyed(rows, PlayerSlots) && Provisioned(rows, from, PlayerSlots) && k < PlayerSlots
    requires View(rows, from, PlayerSlots)[k].Empty?
    requires FirstFree(View(Provision(rows, to, PlayerSlots), to, PlayerSlots)).None?
    ensures to != from
    ensures var r := Provision(rows, to, PlayerSlots);
      Provisioned(r, from, PlayerSlots) && FirstFree(View(r, from, PlayerSlots)).Some? &&
      forall p :: MT.Units(r, p, Certificate) == MT.Units(rows, p, Certificate)
  {
    var r := Provision(rows, to, PlayerSlots);
    ProvisionNoop(rows, from, PlayerSlots);
    assert View(Provision(rows, from, PlayerSlots), from, PlayerSlots)[k].Empty?;
    assert View(r, from, PlayerSlots)[k] == View(rows, from, PlayerSlots)[k];
    MT.ProvisionUnits(rows, to);
    forall p ensures MT.Units(r, p, Certificate) == MT.Units(rows, p, Certificate) {
      if p != to {
        assert Snapshot(r, p, PlayerSlots) == Snapshot(rows, p, PlayerSlots);
      }
    }
  }

  /** The unique add of a certificate with id n, in terms of units: o gains one certificate when a slot was
      free and keeps every other item; no other owner's slots change. */
  lemma CertificateUnits(before: Rows, after: Rows, o: Owner, n: InstanceId)
    requires WellKeyed(before, PlayerSlots)
    requires var pre := Provision(before, o, PlayerSlots);
      match FirstFree(View(pre, o, PlayerSlots))
      case None => after == pre
      case Some(i) => after == pre[SlotKey(o, i + 1) := Unique(Certificate, n, None, None)]
    ensures FirstFree(View(Provision(before, o, PlayerSlots), o, PlayerSlots)).Some? ==>
      MT.Units(after, o, Certificate) == MT.Units(before, o, Certificate) + 1 &&
      SlotOf(Snapshot(after, o, PlayerSlots), n).Some?
    ensures forall j :: j != Certificate ==> MT.Units(after, o, j) == MT.Units(before, o, j)
    ensures forall p :: p != o ==> Snapshot(after, p, PlayerSlots) == Snapshot(before, p, PlayerSlots)
  {
    var pre := Provision(before, o, PlayerSlots);
    match FirstFree(View(pre, o, PlayerSlots))
    case None =>
      MT.ProvisionUnits(before, o);
    case Some(i) =>
      var u := Unique(Certificate, n, None, None);
      PlacedUnits(before, after, o, i, u);
      ViewWrite(pre, o, PlayerSlots, i + 1, u);
      assert Snapshot(after, o, PlayerSlots)[i] == u;
  }

  /** The unique add placing unit u in the free slot i of o, after provisioning o, gives o one more unit of
      u's item and leaves every other owner's slots alone. */
  lemma PlacedUnits(before: Rows, after: Rows, o: Owner, i: nat, u: Slot)
    requires WellKeyed(before, PlayerSlots) && i < PlayerSlots && u.Unique?
    requires View(Provision(before, o, PlayerSlots), o, PlayerSlots)[i].Empty?
    requires after == Provision(before, o, PlayerSlots)[SlotKey(o, i + 1) := u]
    ensures MT.Units(after, o, u.item) == MT.Units(before, o, u.item) + 1
    ensures forall j :: j != u.item ==> MT.Units(after, o, j) == MT.Units(before, o, j)
    ensures forall p :: p != o ==> Snapshot(after, p, PlayerSlots) == Snapshot(before, p, PlayerSlots)
  {
    var pre := Provision(before, o, PlayerSlots);
    MT.ProvisionUnits(before, o);
    SetUnits(pre, o, i, u, u.item);
    forall j | j != u.item ensures MT.Units(after, o, j) == MT.Units(before, o, j) {
      SetUnits(pre, o, i, u, j);
    }
  }
}
