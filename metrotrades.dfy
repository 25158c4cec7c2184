/** The trade bot: two-party sessions CREATED -> LOCKED -> FINALIZED / CANCELLED, offers that
    accumulate per (session, offerer, item), escrow of the offered units at lock, delivery to the
    other party at finalize, and the return of escrow to its owners on cancel or failure. */
module MetroTrades {
  import opened Slots
  import opened Stacking
  import opened Removal
  import opened Capacity
  import opened MetroInventories

  type UserId = string

  /** Session ids come from a fresh-id supply: the position of the session in the sessions table. */
  type SessionId = nat

  datatype Status = Created | Locked | Finalized | Cancelled

  datatype Session = Session(guild: string, a: UserId, b: UserId, status: Status,
                             aReady: bool, bReady: bool, aConfirm: bool, bConfirm: bool)

  /** One trade_offers row. */
  datatype Offer = Offer(session: SessionId, from: UserId, item: ItemId, quantity: int)

  /** One trade_escrow row: a stack part (instance None) or one unique unit with its durability snapshot. */
  datatype Escrow = Escrow(session: SessionId, from: UserId, item: ItemId, quantity: int,
                           instance: Option<InstanceId>, durability: Option<int>, durabilityMax: Option<int>)

  // ---------------------------------------------------------------------------
  // Sessions

  predicate Active(s: Session)
  {
    s.status == Created || s.status == Locked
  }

  /** An active session of guild g with u as one of the two parties (qFindActiveForUser). */
  predicate Involves(s: Session, g: string, u: UserId)
  {
    s.guild == g && Active(s) && (s.a == u || s.b == u)
  }

  /** The first session from position i on that involves u in guild g. */
  function FindActiveFrom(sessions: seq<Session>, g: string, u: UserId, i: nat): (r: Option<SessionId>)
    ensures r.Some? ==> (i <= r.value < |sessions| && Involves(sessions[r.value], g, u) &&
                         forall k :: i <= k < r.value ==> !Involves(sessions[k], g, u))
    ensures r.None? ==> forall k :: i <= k < |sessions| ==> !Involves(sessions[k], g, u)
    decreases |sessions| - i
  {
    if i >= |sessions| then None
    else if Involves(sessions[i], g, u) then Some(i)
    else FindActiveFrom(sessions, g, u, i + 1)
  }

  function FindActive(sessions: seq<Session>, g: string, u: UserId): Option<SessionId>
  {
    FindActiveFrom(sessions, g, u, 0)
  }

  /** pickSessionFor: an explicit id is looked up as is (no guild or party check); otherwise the
      caller's active session. */
  function Pick(sessions: seq<Session>, g: string, u: UserId, explicit: Option<SessionId>): (r: Option<SessionId>)
    ensures r.Some? ==> r.value < |sessions|
    ensures explicit.Some? ==> r == (if explicit.value < |sessions| then explicit else None)
    ensures explicit.None? ==> r == FindActive(sessions, g, u)
  {
    if explicit.Some? then (if explicit.value < |sessions| then explicit else None)
    else FindActive(sessions, g, u)
  }

  /** qSetReady as called by trade-ready: a caller who is not party a marks party b ready. */
  function ReadyFlags(s: Session, caller: UserId): (r: Session)
    ensures r == s.(aReady := r.aReady, bReady := r.bReady)
    ensures r.aReady == (s.aReady || caller == s.a)
    ensures r.bReady == (s.bReady || caller != s.a)
  {
    var isA := s.a == caller;
    s.(aReady := if isA then true else s.aReady, bReady := if isA then s.bReady else true)
  }

  /** qConfirm as written: it is passed the session's own a_id and b_id, so every confirm sets both flags. */
  function ConfirmFlagsAsWritten(s: Session, caller: UserId): Session
  {
    s.(aConfirm := true, bConfirm := true)
  }

  /** qConfirm as intended: only the caller's own flag is set. */
  function ConfirmFlags(s: Session, caller: UserId): (r: Session)
    ensures r == s.(aConfirm := r.aConfirm, bConfirm := r.bConfirm)
    ensures r.aConfirm == (s.aConfirm || caller == s.a)
    ensures r.bConfirm == (s.bConfirm || caller == s.b)
  {
    s.(aConfirm := s.aConfirm || caller == s.a, bConfirm := s.bConfirm || caller == s.b)
  }

  /** As written, a single confirm by either party (or anybody else) completes the confirmation. */
  lemma ConfirmAsWrittenCompletes(s: Session, caller: UserId)
    ensures var r := ConfirmFlagsAsWritten(s, caller); r.aConfirm && r.bConfirm
    ensures var r := ConfirmFlagsAsWritten(s, caller); r == s.(aConfirm := true, bConfirm := true)
  {
  }

  /** As intended, both flags are set exactly when each party has confirmed at least once. */
  lemma {:induction false} ConfirmBothNeeded(s: Session, callers: seq<UserId>)
    requires s.a != s.b && !s.aConfirm && !s.bConfirm
    ensures var r := ConfirmAll(s, callers);
      (r.aConfirm <==> s.a in callers) && (r.bConfirm <==> s.b in callers) &&
      r == s.(aConfirm := r.aConfirm, bConfirm := r.bConfirm)
    decreases |callers|
  {
    if callers != [] {
      var last := callers[|callers| - 1];
      var init := callers[..|callers| - 1];
      ConfirmBothNeeded(s, init);
      assert callers == init + [last];
    }
  }

  /** A sequence of confirms, oldest first. */
  function ConfirmAll(s: Session, callers: seq<UserId>): Session
    decreases |callers|
  {
    if callers == [] then s else ConfirmFlags(ConfirmAll(s, callers[..|callers| - 1]), callers[|callers| - 1])
  }

  // ---------------------------------------------------------------------------
  // Offers: one row per (session, offerer, item)

  predicate SameKey(x: Offer, sid: SessionId, u: UserId, item: ItemId)
  {
    x.session == sid && x.from == u && x.item == item
  }

  /** The offered quantity for a key (the sum over its rows; there is at most one). */
  function OfferQty(offers: seq<Offer>, sid: SessionId, u: UserId, item: ItemId): int
  {
    if offers == [] then 0
    else (if SameKey(offers[0], sid, u, item) then offers[0].quantity else 0) + OfferQty(offers[1..], sid, u, item)
  }

  predicate HasOffer(offers: seq<Offer>, sid: SessionId, u: UserId, item: ItemId)
  {
    exists i :: 0 <= i < |offers| && SameKey(offers[i], sid, u, item)
  }

  /** The primary key of trade_offers. */
  predicate KeysUnique(offers: seq<Offer>)
  {
    forall i, j :: 0 <= i < j < |offers| ==> !SameKey(offers[j], offers[i].session, offers[i].from, offers[i].item)
  }

  /** Every offer row holds a positive quantity (zero and negative rows are deleted). */
  predicate OffersPositive(offers: seq<Offer>)
  {
    forall i :: 0 <= i < |offers| ==> offers[i].quantity > 0
  }

  function FindOffer(offers: seq<Offer>, sid: SessionId, u: UserId, item: ItemId): (r: Option<nat>)
    ensures r.Some? ==> r.value < |offers| && SameKey(offers[r.value], sid, u, item)
    ensures r.None? ==> !HasOffer(offers, sid, u, item)
  {
    if offers == [] then None
    else if SameKey(offers[0], sid, u, item) then Some(0)
    else
      var r := FindOffer(offers[1..], sid, u, item);
      assert r.None? ==> forall i :: 1 <= i < |offers| ==> offers[i] == offers[1..][i - 1];
      if r.Some? then Some(r.value + 1) else None
  }

  /** qOfferUpsert: a new row, or the quantity added to the existing row. */
  function Upsert(offers: seq<Offer>, sid: SessionId, u: UserId, item: ItemId, qty: int): seq<Offer>
  {
    match FindOffer(offers, sid, u, item)
    case Some(i) => offers[i := offers[i].(quantity := offers[i].quantity + qty)]
    case None => offers + [Offer(sid, u, item, qty)]
  }

  /** qOfferRemove: the key's rows lose qty. */
  function Subtract(offers: seq<Offer>, sid: SessionId, u: UserId, item: ItemId, qty: int): (r: seq<Offer>)
    ensures |r| == |offers|
    ensures forall i :: 0 <= i < |offers| ==>
      r[i] == (if SameKey(offers[i], sid, u, item) then offers[i].(quantity := offers[i].quantity - qty) else offers[i])
  {
    seq(|offers|, i requires 0 <= i < |offers| =>
      if SameKey(offers[i], sid, u, item) then offers[i].(quantity := offers[i].quantity - qty) else offers[i])
  }

  /** qOfferCleanupZero: every row of the session with quantity <= 0 is deleted. */
  function Cleanup(offers: seq<Offer>, sid: SessionId): (r: seq<Offer>)
    ensures forall x :: x in r <==> x in offers && !(x.session == sid && x.quantity <= 0)
  {
    if offers == [] then []
    else if offers[0].session == sid && offers[0].quantity <= 0 then Cleanup(offers[1..], sid)
    else [offers[0]] + Cleanup(offers[1..], sid)
  }

  function OfferRemove(offers: seq<Offer>, sid: SessionId, u: UserId, item: ItemId, qty: int): seq<Offer>
  {
    Cleanup(Subtract(offers, sid, u, item, qty), sid)
  }

  lemma {:induction false} OfferQtyAppend(offers: seq<Offer>, y: Offer, sid: SessionId, u: UserId, item: ItemId)
    ensures OfferQty(offers + [y], sid, u, item) ==
            OfferQty(offers, sid, u, item) + (if SameKey(y, sid, u, item) then y.quantity else 0)
  {
    if offers == [] {
      assert [y][1..] == [];
    } else {
      OfferQtyAppend(offers[1..], y, sid, u, item);
      assert (offers + [y])[1..] == offers[1..] + [y];
    }
  }

  lemma {:induction false} OfferQtyUpdate(offers: seq<Offer>, i: nat, y: Offer, sid: SessionId, u: UserId, item: ItemId)
    requires i < |offers|
    ensures OfferQty(offers[i := y], sid, u, item) ==
            OfferQty(offers, sid, u, item) - (if SameKey(offers[i], sid, u, item) then offers[i].quantity else 0)
                                           + (if SameKey(y, sid, u, item) then y.quantity else 0)
  {
    if i == 0 {
      assert offers[i := y][1..] == offers[1..];
    } else {
      OfferQtyUpdate(offers[1..], i - 1, y, sid, u, item);
      assert offers[i := y][1..] == offers[1..][i - 1 := y];
    }
  }

  lemma {:induction false} OfferQtyAbsent(offers: seq<Offer>, sid: SessionId, u: UserId, item: ItemId)
    requires !HasOffer(offers, sid, u, item)
    ensures OfferQty(offers, sid, u, item) == 0
  {
    if offers != [] {
      assert !SameKey(offers[0], sid, u, item);
      assert forall k :: 0 <= k < |offers[1..]| ==> offers[1..][k] == offers[k + 1];
      OfferQtyAbsent(offers[1..], sid, u, item);
    }
  }

  /** With unique keys the offered quantity of a key is the quantity of its row. */
  lemma {:induction false} OfferQtyRow(offers: seq<Offer>, i: nat, sid: SessionId, u: UserId, item: ItemId)
    requires KeysUnique(offers) && i < |offers| && SameKey(offers[i], sid, u, item)
    ensures OfferQty(offers, sid, u, item) == offers[i].quantity
  {
    if i == 0 {
      assert forall k :: 0 <= k < |offers[1..]| ==> offers[1..][k] == offers[k + 1];
      OfferQtyAbsent(offers[1..], sid, u, item);
    } else {
      assert !SameKey(offers[0], sid, u, item);
      assert forall k :: 0 <= k < |offers[1..]| ==> offers[1..][k] == offers[k + 1];
      OfferQtyRow(offers[1..], i - 1, sid, u, item);
    }
  }

  /** Adding to an offer: the key's quantity grows by qty, every other key keeps its quantity, and the
      primary key stays unique. */
  lemma UpsertMeaning(offers: seq<Offer>, sid: SessionId, u: UserId, item: ItemId, qty: int)
    requires KeysUnique(offers)
    ensures var r := Upsert(offers, sid, u, item, qty);
      KeysUnique(r) && HasOffer(r, sid, u, item) &&
      OfferQty(r, sid, u, item) == OfferQty(offers, sid, u, item) + qty &&
      (forall s2, u2, i2 :: !(s2 == sid && u2 == u && i2 == item) ==>
        OfferQty(r, s2, u2, i2) == OfferQty(offers, s2, u2, i2)) &&
      (OffersPositive(offers) && qty > 0 ==> OffersPositive(r))
  {
    var r := Upsert(offers, sid, u, item, qty);
    match FindOffer(offers, sid, u, item)
    case Some(i) =>
      var y := offers[i].(quantity := offers[i].quantity + qty);
      assert r == offers[i := y];
      assert SameKey(r[i], sid, u, item);
      OfferQtyUpdate(offers, i, y, sid, u, item);
      forall s2, u2, i2 | !(s2 == sid && u2 == u && i2 == item)
        ensures OfferQty(r, s2, u2, i2) == OfferQty(offers, s2, u2, i2)
      {
        OfferQtyUpdate(offers, i, y, s2, u2, i2);
      }
    case None =>
      var y := Offer(sid, u, item, qty);
      assert r == offers + [y];
      assert SameKey(r[|offers|], sid, u, item);
      OfferQtyAppend(offers, y, sid, u, item);
      forall s2, u2, i2 | !(s2 == sid && u2 == u && i2 == item)
        ensures OfferQty(r, s2, u2, i2) == OfferQty(offers, s2, u2, i2)
      {
        OfferQtyAppend(offers, y, s2, u2, i2);
      }
  }

  lemma {:induction false} CleanupQty(offers: seq<Offer>, sid: SessionId, s2: SessionId, u2: UserId, i2: ItemId)
    requires KeysUnique(offers)
    ensures OfferQty(Cleanup(offers, sid), s2, u2, i2) ==
            (if s2 == sid && OfferQty(offers, s2, u2, i2) <= 0 then 0 else OfferQty(offers, s2, u2, i2))
  {
    if offers != [] {
      var t := offers[1..];
      assert forall k :: 0 <= k < |t| ==> t[k] == offers[k + 1];
      assert KeysUnique(t);
      CleanupQty(t, sid, s2, u2, i2);
      if SameKey(offers[0], s2, u2, i2) {
        assert !HasOffer(t, s2, u2, i2);
        OfferQtyAbsent(t, s2, u2, i2);
        if !(s2 == sid && OfferQty(t, s2, u2, i2) <= 0) {
          OfferQtyAbsent(t, s2, u2, i2);
        }
      }
    }
  }

  lemma {:induction false} CleanupUnique(offers: seq<Offer>, sid: SessionId)
    requires KeysUnique(offers)
    ensures KeysUnique(Cleanup(offers, sid))
  {
    if offers != [] {
      var t := offers[1..];
      assert forall k :: 0 <= k < |t| ==> t[k] == offers[k + 1];
      CleanupUnique(t, sid);
      var c := Cleanup(t, sid);
      if !(offers[0].session == sid && offers[0].quantity <= 0) {
        var r := [offers[0]] + c;
        forall i, j | 0 <= i < j < |r|
          ensures !SameKey(r[j], r[i].session, r[i].from, r[i].item)
        {
          if i == 0 {
            assert r[j] in c;
          }
        }
      }
    }
  }

  lemma SubtractUnique(offers: seq<Offer>, sid: SessionId, u: UserId, item: ItemId, qty: int)
    requires KeysUnique(offers)
    ensures KeysUnique(Subtract(offers, sid, u, item, qty))
  {
  }

  lemma SubtractQty(offers: seq<Offer>, sid: SessionId, u: UserId, item: ItemId, qty: int, s2: SessionId, u2: UserId, i2: ItemId)
    requires KeysUnique(offers)
    ensures OfferQty(Subtract(offers, sid, u, item, qty), s2, u2, i2) ==
            OfferQty(offers, s2, u2, i2) - (if s2 == sid && u2 == u && i2 == item && HasOffer(offers, sid, u, item) then qty else 0)
  {
    var r := Subtract(offers, sid, u, item, qty);
    SubtractUnique(offers, sid, u, item, qty);
    if HasOffer(offers, s2, u2, i2) {
      var i :| 0 <= i < |offers| && SameKey(offers[i], s2, u2, i2);
      OfferQtyRow(offers, i, s2, u2, i2);
      OfferQtyRow(r, i, s2, u2, i2);
    } else {
      assert !HasOffer(r, s2, u2, i2);
      OfferQtyAbsent(offers, s2, u2, i2);
      OfferQtyAbsent(r, s2, u2, i2);
    }
  }

  /** Removing from an offer: the key's quantity falls by qty when the row exists, the row disappears once
      it reaches zero or below (as does any row of the session at or below zero), every other key keeps
      its quantity, and the primary key stays unique. */
  lemma OfferRemoveMeaning(offers: seq<Offer>, sid: SessionId, u: UserId, item: ItemId, qty: int)
    requires KeysUnique(offers) && OffersPositive(offers)
    ensures var r := OfferRemove(offers, sid, u, item, qty);
      KeysUnique(r) && OffersPositive(r) &&
      OfferQty(r, sid, u, item) ==
        (if HasOffer(offers, sid, u, item) && OfferQty(offers, sid, u, item) - qty > 0
         then OfferQty(offers, sid, u, item) - qty else 0) &&
      (forall s2, u2, i2 :: !(s2 == sid && u2 == u && i2 == item) ==>
        OfferQty(r, s2, u2, i2) == OfferQty(offers, s2, u2, i2))
  {
    var m := Subtract(offers, sid, u, item, qty);
    var r := Cleanup(m, sid);
    SubtractUnique(offers, sid, u, item, qty);
    CleanupUnique(m, sid);
    SubtractQty(offers, sid, u, item, qty, sid, u, item);
    CleanupQty(m, sid, sid, u, item);
    if !HasOffer(offers, sid, u, item) {
      OfferQtyAbsent(offers, sid, u, item);
    }
    OfferRemoveOthers(offers, sid, u, item, qty);
    OfferRemovePositive(offers, sid, u, item, qty);
  }

  /** OfferRemoveMeaning for the keys other than the one removed from. */
  lemma OfferRemoveOthers(offers: seq<Offer>, sid: SessionId, u: UserId, item: ItemId, qty: int)
    requires KeysUnique(offers) && OffersPositive(offers)
    ensures var r := OfferRemove(offers, sid, u, item, qty);
      forall s2, u2, i2 :: !(s2 == sid && u2 == u && i2 == item) ==>
        OfferQty(r, s2, u2, i2) == OfferQty(offers, s2, u2, i2)
  {
    var m := Subtract(offers, sid, u, item, qty);
    var r := Cleanup(m, sid);
    forall s2, u2, i2 | !(s2 == sid && u2 == u && i2 == item)
      ensures OfferQty(r, s2, u2, i2) == OfferQty(offers, s2, u2, i2)
    {
      SubtractQty(offers, sid, u, item, qty, s2, u2, i2);
      CleanupQty(m, sid, s2, u2, i2);
      if HasOffer(offers, s2, u2, i2) {
        var i :| 0 <= i < |offers| && SameKey(offers[i], s2, u2, i2);
        OfferQtyRow(offers, i, s2, u2, i2);
      } else {
        OfferQtyAbsent(offers, s2, u2, i2);
      }
    }
  }

  /** Removing from an offer leaves no row at or below zero. */
  lemma OfferRemovePositive(offers: seq<Offer>, sid: SessionId, u: UserId, item: ItemId, qty: int)
    requires OffersPositive(offers)
    ensures OffersPositive(OfferRemove(offers, sid, u, item, qty))
  {
    var m := Subtract(offers, sid, u, item, qty);
    var r := Cleanup(m, sid);
    forall i | 0 <= i < |r| ensures r[i].quantity > 0 {
      assert r[i] in r;
      var k :| 0 <= k < |m| && m[k] == r[i];
      assert r[i].session != sid ==> !SameKey(m[k], sid, u, item);
    }
  }

  // ---------------------------------------------------------------------------
  // Units carried by escrow rows

  /** The units an escrow row stands for: one for a unique unit, its quantity for a stack part. */
  function RowUnits(e: Escrow): int
  {
    if e.instance.Some? then 1 else e.quantity
  }

  /** Units of item j over a list of escrow rows. */
  function RowsUnits(es: seq<Escrow>, j: ItemId): int
  {
    if es == [] then 0 else (if es[0].item == j then RowUnits(es[0]) else 0) + RowsUnits(es[1..], j)
  }

  lemma {:induction false} RowsUnitsAppend(a: seq<Escrow>, b: seq<Escrow>, j: ItemId)
    ensures RowsUnits(a + b, j) == RowsUnits(a, j) + RowsUnits(b, j)
  {
    if a != [] {
      assert (a + b)[1..] == a[1..] + b;
      RowsUnitsAppend(a[1..], b, j);
    } else {
      assert a + b == b;
    }
  }

  /** An escrow row as the lock writes it: a known item, a unique unit with its id and quantity 1, or a
      stack part of a stackable item with at least one unit (the take loop only visits slots holding
      units and stops once nothing is needed). */
  predicate RowShaped(e: Escrow, cat: Catalog)
  {
    e.item in cat &&
    (if e.instance.Some? then cat[e.item] == 1 && e.quantity == 1 else cat[e.item] > 1 && e.quantity >= 1)
  }

  predicate RowsShaped(es: seq<Escrow>, cat: Catalog, sid: SessionId, u: UserId)
  {
    forall k :: 0 <= k < |es| ==> RowShaped(es[k], cat) && es[k].session == sid && es[k].from == u
  }

  // ---------------------------------------------------------------------------
  // Lock: moveOfferToEscrow on the offerer's slots (no ensureSlots: an unprovisioned owner has no slots)

  /** The holdings cover an offer: enough slots holding a unique item, enough units of a stackable one. */
  predicate Covered(v: seq<Slot>, cat: Catalog, x: Offer)
    requires x.item in cat
  {
    if cat[x.item] == 1 then HoldCount(v, x.item) >= x.quantity else Count(v, x.item) >= x.quantity
  }

  /** Phase 1: the first offer of an unknown item, or not covered by the holdings, fails the lock. */
  function Precheck(v: seq<Slot>, cat: Catalog, offs: seq<Offer>): (r: Outcome)
    ensures r.Ok? <==> forall k :: 0 <= k < |offs| ==> offs[k].item in cat && Covered(v, cat, offs[k])
  {
    if offs == [] then Ok
    else if offs[0].item !in cat then Err(UnknownItem)
    else if !Covered(v, cat, offs[0]) then Err(if cat[offs[0].item] == 1 then TooFewInstances else TooFewUnits)
    else
      var r := Precheck(v, cat, offs[1..]);
      assert forall k :: 1 <= k < |offs| ==> offs[k] == offs[1..][k - 1];
      r
  }

  /** The escrow row recording a unique slot's unit and its durability snapshot. */
  function Snap(s: Slot, sid: SessionId, u: UserId): Escrow
    requires s.Unique?
  {
    Escrow(sid, u, s.item, 1, Some(s.instance), s.durability, s.durabilityMax)
  }

  /** The rows recording the unique slots of `before` that `after` empties, in slot order. */
  function Vacated(before: seq<Slot>, after: seq<Slot>, sid: SessionId, u: UserId): seq<Escrow>
    requires |before| == |after|
  {
    if before == [] then []
    else
      var head := if before[0].Unique? && after[0].Empty? then [Snap(before[0], sid, u)] else [];
      head + Vacated(before[1..], after[1..], sid, u)
  }

  /** Phase 2 for a unique offer: the first `need` unique units of `id` in slot order go to escrow
      and their slots are cleared. */
  function TakeInstances(v: seq<Slot>, sid: SessionId, u: UserId, id: ItemId, need: int): (r: (seq<Slot>, seq<Escrow>))
    ensures |r.0| == |v|
  {
    if v == [] then ([], [])
    else if need > 0 && v[0].Unique? && v[0].item == id then
      var rest := TakeInstances(v[1..], sid, u, id, need - 1);
      ([Empty] + rest.0, [Snap(v[0], sid, u)] + rest.1)
    else
      var rest := TakeInstances(v[1..], sid, u, id, need);
      ([v[0]] + rest.0, rest.1)
  }

  /** One stack-part row per take of the removal loop. */
  function PartRows(takes: seq<int>, sid: SessionId, u: UserId, id: ItemId): (r: seq<Escrow>)
    ensures |r| == |takes|
    ensures forall k :: 0 <= k < |takes| ==> r[k] == Escrow(sid, u, id, takes[k], None, None, None)
  {
    seq(|takes|, k requires 0 <= k < |takes| => Escrow(sid, u, id, takes[k], None, None, None))
  }

  /** What a lock step leaves: whether it got everything, the offerer's slots, and the escrow rows it wrote. */
  datatype Moved = Moved(ok: bool, slots: seq<Slot>, rows: seq<Escrow>)

  /** Phase 2 for one offer. A stackable offer is taken smallest stack first, one escrow row per take; if
      units are still missing the step fails, keeping what it already wrote. */
  function EscrowStep(v: seq<Slot>, cat: Catalog, sid: SessionId, u: UserId, x: Offer): (m: Moved)
    requires x.item in cat
    ensures |m.slots| == |v|
  {
    if cat[x.item] == 1 then
      var t := TakeInstances(v, sid, u, x.item, x.quantity);
      Moved(true, t.0, t.1)
    else
      var t := RemoveStackPlan(v, x.item, x.quantity);
      Moved(t.left <= 0, t.slots, PartRows(t.takes, sid, u, x.item))
  }

  predicate KnownOffers(offs: seq<Offer>, cat: Catalog)
  {
    forall k :: 0 <= k < |offs| ==> offs[k].item in cat
  }

  /** Phase 2: the offers in turn, each on the slots the previous ones left; a failed step ends the lock
      with everything written so far committed. */
  function Phase2(v: seq<Slot>, cat: Catalog, sid: SessionId, u: UserId, offs: seq<Offer>): (m: Moved)
    requires KnownOffers(offs, cat)
    ensures |m.slots| == |v|
    decreases |offs|
  {
    if offs == [] then Moved(true, v, [])
    else
      var m := EscrowStep(v, cat, sid, u, offs[0]);
      if !m.ok then m
      else
        assert KnownOffers(offs[1..], cat) by {
          forall k | 0 <= k < |offs| - 1 ensures offs[1..][k].item in cat { assert offs[1..][k] == offs[k + 1]; }
        }
        var rest := Phase2(m.slots, cat, sid, u, offs[1..]);
        Moved(rest.ok, rest.slots, m.rows + rest.rows)
  }

  /** moveOfferToEscrow on the offerer's slots: nothing moves unless every offer passes phase 1. */
  function MoveToEscrow(v: seq<Slot>, cat: Catalog, sid: SessionId, u: UserId, offs: seq<Offer>): (m: Moved)
    ensures |m.slots| == |v|
    ensures Precheck(v, cat, offs).Err? ==> !m.ok && m.slots == v && m.rows == []
  {
    if Precheck(v, cat, offs).Err? then Moved(false, v, []) else Phase2(v, cat, sid, u, offs)
  }

  /** Total quantity of item j over a list of offers. */
  function OfferTotal(offs: seq<Offer>, j: ItemId): int
  {
    if offs == [] then 0 else (if offs[0].item == j then offs[0].quantity else 0) + OfferTotal(offs[1..], j)
  }

  predicate DistinctItems(offs: seq<Offer>)
  {
    forall a, b :: 0 <= a < b < |offs| ==> offs[a].item != offs[b].item
  }

  /** Every slot holding id holds a unique unit of it. */
  predicate AllUnique(v: seq<Slot>, id: ItemId)
  {
    forall i :: 0 <= i < |v| && Holds(v[i], id) ==> v[i].Unique?
  }

  /** Where every holding of id is a unique unit, taking instances is clearing the first slots holding id,
      and the rows written are the snapshots of exactly the slots cleared. */
  lemma {:induction false} TakeInstancesClears(v: seq<Slot>, sid: SessionId, u: UserId, id: ItemId, need: int)
    requires AllUnique(v, id)
    ensures TakeInstances(v, sid, u, id, need).0 == ClearFirst(v, id, need)
    ensures TakeInstances(v, sid, u, id, need).1 == Vacated(v, ClearFirst(v, id, need), sid, u)
  {
    if v != [] {
      assert AllUnique(v[1..], id) by {
        forall i | 0 <= i < |v| - 1 && Holds(v[1..][i], id) ensures v[1..][i].Unique? { assert v[1..][i] == v[i + 1]; }
      }
      var c := ClearFirst(v, id, need);
      if need > 0 && v[0].Unique? && v[0].item == id {
        TakeInstancesClears(v[1..], sid, u, id, need - 1);
        assert c[1..] == ClearFirst(v[1..], id, need - 1);
      } else {
        TakeInstancesClears(v[1..], sid, u, id, need);
        assert c[1..] == ClearFirst(v[1..], id, need);
        assert !(v[0].Unique? && c[0].Empty?);
      }
    }
  }

  /** Clearing k slots of a unique item writes k rows, each one unit of that item with its instance id. */
  lemma {:induction false} ClearedRows(v: seq<Slot>, sid: SessionId, u: UserId, id: ItemId, k: int, j: ItemId)
    requires AllUnique(v, id) && 0 <= k <= HoldCount(v, id)
    ensures var rs := Vacated(v, ClearFirst(v, id, k), sid, u);
      |rs| == k && RowsUnits(rs, j) == (if j == id then k else 0) &&
      forall x :: 0 <= x < |rs| ==>
        rs[x].item == id && rs[x].instance.Some? && rs[x].quantity == 1 && rs[x].session == sid && rs[x].from == u
  {
    if v != [] {
      assert AllUnique(v[1..], id) by {
        forall i | 0 <= i < |v| - 1 && Holds(v[1..][i], id) ensures v[1..][i].Unique? { assert v[1..][i] == v[i + 1]; }
      }
      var c := ClearFirst(v, id, k);
      if k > 0 && Holds(v[0], id) {
        ClearedRows(v[1..], sid, u, id, k - 1, j);
        assert c[1..] == ClearFirst(v[1..], id, k - 1);
        assert Vacated(v, c, sid, u) == [Snap(v[0], sid, u)] + Vacated(v[1..], c[1..], sid, u);
      } else {
        ClearedRows(v[1..], sid, u, id, k, j);
        assert c[1..] == ClearFirst(v[1..], id, k);
        assert c[0] == v[0];
        assert Vacated(v, c, sid, u) == Vacated(v[1..], c[1..], sid, u);
      }
    }
  }

  /** Along distinct slots that all hold id, the removal loop takes at least one unit at every step. */
  lemma {:induction false} TakesPositive(slots: seq<Slot>, order: seq<nat>, id: ItemId, need: int)
    requires InRange(slots, order) && forall j :: 0 <= j < |order| ==> Holds(slots[order[j]], id)
    requires forall j, k :: 0 <= j < k < |order| ==> order[j] != order[k]
    ensures forall k :: 0 <= k < |TakeAlong(slots, order, id, need).takes| ==> TakeAlong(slots, order, id, need).takes[k] >= 1
    decreases |order|
  {
    if order != [] && need > 0 {
      var i := order[0];
      var take := Min(Qty(slots[i]), need);
      var s1 := slots[i := Lowered(slots[i], id, take)];
      var tail := order[1..];
      assert forall k :: 0 <= k < |tail| ==> tail[k] == order[k + 1] && tail[k] != i;
      TakesPositive(s1, tail, id, need - take);
    }
  }

  lemma {:induction false} PartRowsUnits(takes: seq<int>, sid: SessionId, u: UserId, id: ItemId, j: ItemId)
    ensures RowsUnits(PartRows(takes, sid, u, id), j) == (if j == id then Sum(takes) else 0)
  {
    if takes != [] {
      PartRowsUnits(takes[1..], sid, u, id, j);
      assert PartRows(takes, sid, u, id)[1..] == PartRows(takes[1..], sid, u, id);
    }
  }

  /** In slots that agree with the catalogue, every holding of a unique item is a unique unit. */
  lemma ConformsAllUnique(v: seq<Slot>, cat: Catalog, id: ItemId)
    requires Conforms(v, cat) && id in cat && cat[id] == 1
    ensures AllUnique(v, id)
  {
    forall i | 0 <= i < |v| && Holds(v[i], id) ensures v[i].Unique? {
      assert SlotConforms(v[i], cat);
    }
  }

  /** A lock step on a covered offer always gets everything it needs: it leaves the offerer's slots exactly
      as removing the offer would, and its rows carry exactly the offered units, well formed. A unique offer
      writes one row per cleared slot, recording that slot's instance id and durability. */
  lemma {:induction false} EscrowStepMeaning(v: seq<Slot>, cat: Catalog, sid: SessionId, u: UserId, x: Offer, j: ItemId)
    requires Conforms(v, cat) && x.item in cat && x.quantity > 0 && Covered(v, cat, x)
    ensures var m := EscrowStep(v, cat, sid, u, x);
      m.ok && m.slots == RemoveChange(v, cat, x.item, x.quantity).slots &&
      RowsUnits(m.rows, j) == (if j == x.item then x.quantity else 0) && RowsShaped(m.rows, cat, sid, u) &&
      (cat[x.item] == 1 ==> m.rows == Vacated(v, m.slots, sid, u))
  {
    if cat[x.item] == 1 {
      ConformsAllUnique(v, cat, x.item);
      TakeInstancesClears(v, sid, u, x.item, x.quantity);
      ClearedRows(v, sid, u, x.item, x.quantity, j);
    } else {
      RemovePlanExact(v, x.item, x.quantity, j);
      RemovalOrderInRange(v, x.item);
      var t := RemoveStackPlan(v, x.item, x.quantity);
      RemovalOrderFacts(v, x.item);
      OrderTouchable(v, x.item);
      TakesPositive(v, RemovalOrder(v, x.item), x.item, x.quantity);
      PartRowsUnits(t.takes, sid, u, x.item, j);
    }
  }

  /** A lock step for one item leaves every offer of another item covered. */
  lemma {:induction false} StepKeepsCover(v: seq<Slot>, cat: Catalog, sid: SessionId, u: UserId, x: Offer, tail: seq<Offer>)
    requires Conforms(v, cat) && x.item in cat && x.quantity > 0 && Covered(v, cat, x)
    requires Precheck(v, cat, tail).Ok? && forall k :: 0 <= k < |tail| ==> tail[k].item != x.item
    ensures Conforms(EscrowStep(v, cat, sid, u, x).slots, cat)
    ensures Precheck(EscrowStep(v, cat, sid, u, x).slots, cat, tail).Ok?
  {
    var m := EscrowStep(v, cat, sid, u, x);
    EscrowStepMeaning(v, cat, sid, u, x, x.item);
    RemoveChangeConforms(v, cat, x.item, x.quantity);
    forall k | 0 <= k < |tail| ensures Covered(m.slots, cat, tail[k]) {
      var y := tail[k];
      RemoveChangeMeaning(v, cat, x.item, x.quantity, y.item);
      if cat[y.item] == 1 {
        HoldCountUnits(v, cat, y.item);
        HoldCountUnits(m.slots, cat, y.item);
      }
    }
  }

  lemma ShapedAppend(a: seq<Escrow>, b: seq<Escrow>, cat: Catalog, sid: SessionId, u: UserId)
    requires RowsShaped(a, cat, sid, u) && RowsShaped(b, cat, sid, u)
    ensures RowsShaped(a + b, cat, sid, u)
  {
    forall k | 0 <= k < |a| + |b|
      ensures var e := (a + b)[k]; RowShaped(e, cat) && e.session == sid && e.from == u
    {
      if k >= |a| {
        assert (a + b)[k] == b[k - |a|];
      }
    }
  }

  /** Phase 2 after a passed phase 1 never fails: each offer still finds its units (the offers are of
      distinct items), the offerer loses exactly the offered units, and the escrow rows carry them. */
  lemma {:induction false} Phase2Meaning(v: seq<Slot>, cat: Catalog, sid: SessionId, u: UserId, offs: seq<Offer>, j: ItemId)
    requires Conforms(v, cat) && Precheck(v, cat, offs).Ok? && DistinctItems(offs) && OffersPositive(offs)
    ensures KnownOffers(offs, cat)
    ensures var m := Phase2(v, cat, sid, u, offs);
      m.ok && Count(m.slots, j) == Count(v, j) - OfferTotal(offs, j) && RowsUnits(m.rows, j) == OfferTotal(offs, j) &&
      Conforms(m.slots, cat) && RowsShaped(m.rows, cat, sid, u)
    decreases |offs|
  {
    if offs != [] {
      var x := offs[0];
      var tail := offs[1..];
      assert forall k :: 0 <= k < |tail| ==> tail[k] == offs[k + 1];
      var m := EscrowStep(v, cat, sid, u, x);
      EscrowStepMeaning(v, cat, sid, u, x, j);
      RemoveChangeMeaning(v, cat, x.item, x.quantity, j);
      StepKeepsCover(v, cat, sid, u, x, tail);
      Phase2Meaning(m.slots, cat, sid, u, tail, j);
      var rest := Phase2(m.slots, cat, sid, u, tail);
      RowsUnitsAppend(m.rows, rest.rows, j);
      ShapedAppend(m.rows, rest.rows, cat, sid, u);
    }
  }

  // ---------------------------------------------------------------------------
  // The slot table as the trade bot sees it

  /** Units of item j that owner o holds (none while o has no slots). */
  function Units(rows: Rows, o: Owner, j: ItemId): nat
  {
    Count(Snapshot(rows, o, SlotsTotal), j)
  }

  /** Every row of the table agrees with the catalogue. */
  predicate RowsConform(rows: Rows, cat: Catalog)
  {
    forall k :: k in rows ==> SlotConforms(rows[k], cat)
  }

  lemma SnapshotConforms(rows: Rows, cat: Catalog, o: Owner)
    requires RowsConform(rows, cat)
    ensures Conforms(Snapshot(rows, o, SlotsTotal), cat)
  {
  }

  /** ensureSlots changes no owner's holdings and no other owner's slots. */
  lemma ProvisionUnits(rows: Rows, o: Owner)
    requires WellKeyed(rows, SlotsTotal)
    ensures WellKeyed(Prepared(rows, o), SlotsTotal)
    ensures forall j :: Units(Prepared(rows, o), o, j) == Units(rows, o, j)
    ensures forall p :: p != o ==> Snapshot(Prepared(rows, o), p, SlotsTotal) == Snapshot(rows, p, SlotsTotal)
  {
    var r := Prepared(rows, o);
    ProvisionKeeps(rows, o, SlotsTotal);
    if !Provisioned(rows, o, SlotsTotal) {
      var v := View(r, o, SlotsTotal);
      forall i | 0 <= i < SlotsTotal ensures v[i].Empty? {
        assert SlotKey(o, i + 1) !in rows;
      }
      forall j ensures Count(v, j) == 0 {
        CountZero(v, j);
      }
    }
    forall p | p != o && !Provisioned(rows, p, SlotsTotal) ensures !Provisioned(r, p, SlotsTotal) {
      var s :| 1 <= s <= SlotsTotal && SlotKey(p, s) !in rows;
      assert SlotKey(p, s) !in r;
    }
  }

  /** A commit for one owner leaves every other owner's slots as they were. */
  lemma WriteBackSnapshots(rows: Rows, o: Owner, plan: seq<Slot>)
    requires |plan| == SlotsTotal && Provisioned(rows, o, SlotsTotal)
    ensures forall p :: p != o ==> Snapshot(WriteBack(rows, o, plan), p, SlotsTotal) == Snapshot(rows, p, SlotsTotal)
  {
    WriteBackOthers(rows, o, plan);
  }

  /** Writing one slot of owner o leaves every other owner's slots as they were. */
  lemma WriteSnapshots(rows: Rows, o: Owner, k: int, x: Slot)
    requires Provisioned(rows, o, SlotsTotal) && 1 <= k <= SlotsTotal
    ensures forall p :: p != o ==> Snapshot(rows[SlotKey(o, k) := x], p, SlotsTotal) == Snapshot(rows, p, SlotsTotal)
  {
    ViewWrite(rows, o, SlotsTotal, k, x);
    forall p | p != o && !Provisioned(rows, p, SlotsTotal) ensures !Provisioned(rows[SlotKey(o, k) := x], p, SlotsTotal) {
      var s :| 1 <= s <= SlotsTotal && SlotKey(p, s) !in rows;
      assert SlotKey(p, s) != SlotKey(o, k);
    }
  }

  /** Committing a conforming plan for o: o's slots are the plan, every other owner's stay, and the table
      stays keyed and conforming. */
  lemma CommitPlan(rows: Rows, cat: Catalog, o: Owner, plan: seq<Slot>)
    requires WellKeyed(rows, SlotsTotal) && RowsConform(rows, cat)
    requires |plan| == SlotsTotal && Provisioned(rows, o, SlotsTotal) && Conforms(plan, cat)
    ensures Snapshot(WriteBack(rows, o, plan), o, SlotsTotal) == plan
    ensures forall p :: p != o ==> Snapshot(WriteBack(rows, o, plan), p, SlotsTotal) == Snapshot(rows, p, SlotsTotal)
    ensures WellKeyed(WriteBack(rows, o, plan), SlotsTotal) && RowsConform(WriteBack(rows, o, plan), cat)
  {
    WriteBackSnapshots(rows, o, plan);
    WriteBackKeeps(rows, o, plan);
    var r := WriteBack(rows, o, plan);
    forall k | k in r ensures SlotConforms(r[k], cat) {
      if k.owner == o && 1 <= k.slot <= SlotsTotal {
        assert r[k] == plan[k.slot - 1];
      }
    }
  }

  // ---------------------------------------------------------------------------
  // Lock on the table

  /** What a lock of one party's offers commits, and the escrow rows it wrote. */
  datatype EscrowMove = EscrowMove(ok: bool, rows: Rows, added: seq<Escrow>)

  /** moveOfferToEscrow as one transaction: the planned slots are written back even when phase 2 fails
      (the transaction returns rather than throws). */
  function EscrowCommit(rows: Rows, cat: Catalog, g: string, sid: SessionId, u: UserId, offs: seq<Offer>): EscrowMove
  {
    var o := Owner(g, u);
    var m := MoveToEscrow(Snapshot(rows, o, SlotsTotal), cat, sid, u, offs);
    EscrowMove(m.ok, if Provisioned(rows, o, SlotsTotal) then WriteBack(rows, o, m.slots) else rows, m.rows)
  }

  /** The lock of one party's offers (distinct items, positive quantities) succeeds exactly when every offer
      passes phase 1 on the party's slots. A refused lock changes nothing and writes no escrow row. An
      accepted one moves exactly the offered units of every item from the party to escrow, and no other
      owner's slots change. */
  lemma {:induction false} EscrowCommitMeaning(rows: Rows, cat: Catalog, g: string, sid: SessionId, u: UserId, offs: seq<Offer>, j: ItemId)
    requires WellKeyed(rows, SlotsTotal) && RowsConform(rows, cat) && DistinctItems(offs) && OffersPositive(offs)
    ensures var r := EscrowCommit(rows, cat, g, sid, u, offs); var o := Owner(g, u);
      (r.ok <==> Precheck(Snapshot(rows, o, SlotsTotal), cat, offs).Ok?) &&
      (!r.ok ==> r.rows == rows && r.added == []) &&
      (r.ok ==> Units(r.rows, o, j) == Units(rows, o, j) - OfferTotal(offs, j) && RowsUnits(r.added, j) == OfferTotal(offs, j)) &&
      RowsShaped(r.added, cat, sid, u) &&
      (forall p :: p != o ==> Snapshot(r.rows, p, SlotsTotal) == Snapshot(rows, p, SlotsTotal)) &&
      WellKeyed(r.rows, SlotsTotal) && RowsConform(r.rows, cat)
  {
    if Precheck(Snapshot(rows, Owner(g, u), SlotsTotal), cat, offs).Ok? {
      EscrowAccepted(rows, cat, g, sid, u, offs, j);
    } else {
      SnapshotConforms(rows, cat, Owner(g, u));
    }
  }

  /** EscrowCommitMeaning when every offer passes phase 1. */
  lemma EscrowAccepted(rows: Rows, cat: Catalog, g: string, sid: SessionId, u: UserId, offs: seq<Offer>, j: ItemId)
    requires WellKeyed(rows, SlotsTotal) && RowsConform(rows, cat) && DistinctItems(offs) && OffersPositive(offs)
    requires Precheck(Snapshot(rows, Owner(g, u), SlotsTotal), cat, offs).Ok?
    ensures var r := EscrowCommit(rows, cat, g, sid, u, offs); var o := Owner(g, u);
      r.ok && Units(r.rows, o, j) == Units(rows, o, j) - OfferTotal(offs, j) && RowsUnits(r.added, j) == OfferTotal(offs, j) &&
      RowsShaped(r.added, cat, sid, u) &&
      (forall p :: p != o ==> Snapshot(r.rows, p, SlotsTotal) == Snapshot(rows, p, SlotsTotal)) &&
      WellKeyed(r.rows, SlotsTotal) && RowsConform(r.rows, cat)
  {
    var o := Owner(g, u);
    var v := Snapshot(rows, o, SlotsTotal);
    SnapshotConforms(rows, cat, o);
    Phase2Meaning(v, cat, sid, u, offs, j);
    var m := Phase2(v, cat, sid, u, offs);
    if Provisioned(rows, o, SlotsTotal) {
      CommitPlan(rows, cat, o, m.slots);
    }
  }

  // ---------------------------------------------------------------------------
  // Delivery and rollback: escrow rows placed back into slots

  /** What the trade bot's addItemsAtomic commits and answers. */
  datatype Commit = Commit(outcome: Outcome, rows: Rows, next: InstanceId)

  /** The trade bot's own addItemsAtomic: argument checks, ensureSlots, then the inventory bot's add plan,
      written back only when it succeeds. Units are added without durability. */
  function TradeAdd(rows: Rows, cat: Catalog, o: Owner, id: ItemId, qty: int, next: InstanceId): Commit
  {
    if qty <= 0 then Commit(Err(InvalidQuantity), rows, next)
    else if id !in cat then Commit(Err(UnknownItem), rows, next)
    else
      var pre := Prepared(rows, o);
      var c := AddChange(View(pre, o, SlotsTotal), cat, id, qty, next, None, None);
      if c.outcome.Ok? then Commit(Ok, WriteBack(pre, o, c.slots), next + (if cat[id] == 1 then qty else 0))
      else Commit(c.outcome, pre, next)
  }

  /** The add succeeds exactly for a positive quantity of a known item with room for it; it then adds exactly
      qty units of id to o, and in every case adds nothing else and touches no other owner. */
  lemma TradeAddMeaning(rows: Rows, cat: Catalog, o: Owner, id: ItemId, qty: int, next: InstanceId, j: ItemId)
    requires WellKeyed(rows, SlotsTotal) && RowsConform(rows, cat)
    ensures var c := TradeAdd(rows, cat, o, id, qty, next); var v := View(Prepared(rows, o), o, SlotsTotal);
      (c.outcome.Ok? <==> (qty > 0 && id in cat &&
        if cat[id] == 1 then qty <= FreeCount(v) else qty <= PartialRoom(v, id, cat[id]) + cat[id] * FreeCount(v))) &&
      Units(c.rows, o, j) == Units(rows, o, j) + (if c.outcome.Ok? && j == id then qty else 0) &&
      (forall p :: p != o ==> Snapshot(c.rows, p, SlotsTotal) == Snapshot(rows, p, SlotsTotal)) &&
      WellKeyed(c.rows, SlotsTotal) && RowsConform(c.rows, cat) && c.next >= next
  {
    if qty > 0 && id in cat {
      var pre := Prepared(rows, o);
      ProvisionUnits(rows, o);
      ProvisionKeeps(rows, o, SlotsTotal);
      var v := View(pre, o, SlotsTotal);
      SnapshotConforms(pre, cat, o);
      AddChangeMeaning(v, cat, id, qty, next, None, None, j);
      AddChangeConforms(v, cat, id, qty, next, None, None);
      var c := AddChange(v, cat, id, qty, next, None, None);
      if c.outcome.Ok? {
        CommitPlan(pre, cat, o, c.slots);
      }
    }
  }

  /** The outcome of a delivery or a rollback. */
  datatype Delivery = Delivery(ok: bool, rows: Rows, next: InstanceId)

  /** One escrow row placed with owner o: a unique unit, with its id and durability, into o's first free
      slot after ensureSlots; a stack part through addItemsAtomic. */
  function PutRow(rows: Rows, cat: Catalog, next: InstanceId, o: Owner, e: Escrow): Delivery
  {
    if e.instance.Some? then
      var p := Prepared(rows, o);
      match FirstFree(View(p, o, SlotsTotal))
      case None => Delivery(false, p, next)
      case Some(i) => Delivery(true, p[SlotKey(o, i + 1) := Unique(e.item, e.instance.value, e.durability, e.durabilityMax)], next)
    else
      var c := TradeAdd(rows, cat, o, e.item, e.quantity, next);
      Delivery(c.outcome.Ok?, c.rows, c.next)
  }

  predicate AllShaped(es: seq<Escrow>, cat: Catalog)
  {
    forall k :: 0 <= k < |es| ==> RowShaped(es[k], cat)
  }

  /** Placing a well-formed row gives o exactly its units when it succeeds and nothing otherwise, and no
      other owner's slots change. */
  lemma PutRowMeaning(rows: Rows, cat: Catalog, next: InstanceId, o: Owner, e: Escrow, j: ItemId)
    requires WellKeyed(rows, SlotsTotal) && RowsConform(rows, cat) && RowShaped(e, cat)
    ensures var d := PutRow(rows, cat, next, o, e);
      Units(d.rows, o, j) == Units(rows, o, j) + (if d.ok && e.item == j then RowUnits(e) else 0) &&
      (forall p :: p != o ==> Snapshot(d.rows, p, SlotsTotal) == Snapshot(rows, p, SlotsTotal)) &&
      WellKeyed(d.rows, SlotsTotal) && RowsConform(d.rows, cat) && d.next >= next
  {
    if e.instance.Some? {
      PutUniqueMeaning(rows, cat, next, o, e, j);
    } else {
      TradeAddMeaning(rows, cat, o, e.item, e.quantity, next, j);
    }
  }

  /** PutRowMeaning for a unique unit: it goes into o's first empty slot, if there is one. */
  lemma PutUniqueMeaning(rows: Rows, cat: Catalog, next: InstanceId, o: Owner, e: Escrow, j: ItemId)
    requires WellKeyed(rows, SlotsTotal) && RowsConform(rows, cat) && RowShaped(e, cat) && e.instance.Some?
    ensures var d := PutRow(rows, cat, next, o, e);
      Units(d.rows, o, j) == Units(rows, o, j) + (if d.ok && e.item == j then RowUnits(e) else 0) &&
      (forall p :: p != o ==> Snapshot(d.rows, p, SlotsTotal) == Snapshot(rows, p, SlotsTotal)) &&
      WellKeyed(d.rows, SlotsTotal) && RowsConform(d.rows, cat) && d.next >= next
  {
    var p := Prepared(rows, o);
    ProvisionUnits(rows, o);
    ProvisionKeeps(rows, o, SlotsTotal);
    var v := View(p, o, SlotsTotal);
    var f := FirstFree(v);
    if f.Some? {
      var x := Unique(e.item, e.instance.value, e.durability, e.durabilityMax);
      assert RowsConform(p, cat);
      WriteEmptySlot(p, cat, o, f.value, x, j);
    }
  }

  /** Writing a slot that agrees with the catalogue into o's empty slot i adds that slot's units to o, keeps
      the table well-formed and changes no other owner's slots. */
  lemma WriteEmptySlot(p: Rows, cat: Catalog, o: Owner, i: nat, x: Slot, j: ItemId)
    requires WellKeyed(p, SlotsTotal) && RowsConform(p, cat) && Provisioned(p, o, SlotsTotal) && SlotConforms(x, cat)
    requires i < SlotsTotal && View(p, o, SlotsTotal)[i].Empty?
    ensures var p2 := p[SlotKey(o, i + 1) := x];
      Units(p2, o, j) == Units(p, o, j) + Amount(x, j) &&
      (forall q :: q != o ==> Snapshot(p2, q, SlotsTotal) == Snapshot(p, q, SlotsTotal)) &&
      WellKeyed(p2, SlotsTotal) && RowsConform(p2, cat)
  {
    ViewWrite(p, o, SlotsTotal, i + 1, x);
    WriteSnapshots(p, o, i + 1, x);
    CountUpdate(View(p, o, SlotsTotal), i, x, j);
  }

  /** The insert loop of deliverEscrowTo: the rows in turn; the first failure ends the loop, keeping what was
      already written (the transaction returns rather than throws). */
  function PutAll(rows: Rows, cat: Catalog, next: InstanceId, o: Owner, es: seq<Escrow>): Delivery
    decreases |es|
  {
    if es == [] then Delivery(true, rows, next)
    else
      var d := PutRow(rows, cat, next, o, es[0]);
      if !d.ok then d else PutAll(d.rows, cat, d.next, o, es[1..])
  }

  lemma {:induction false} PutAllMeaning(rows: Rows, cat: Catalog, next: InstanceId, o: Owner, es: seq<Escrow>, j: ItemId)
    requires WellKeyed(rows, SlotsTotal) && RowsConform(rows, cat) && AllShaped(es, cat)
    ensures var d := PutAll(rows, cat, next, o, es);
      (d.ok ==> Units(d.rows, o, j) == Units(rows, o, j) + RowsUnits(es, j)) &&
      (forall p :: p != o ==> Snapshot(d.rows, p, SlotsTotal) == Snapshot(rows, p, SlotsTotal)) &&
      WellKeyed(d.rows, SlotsTotal) && RowsConform(d.rows, cat) && d.next >= next
    decreases |es|
  {
    if es != [] {
      PutRowMeaning(rows, cat, next, o, es[0], j);
      var d := PutRow(rows, cat, next, o, es[0]);
      if d.ok {
        assert AllShaped(es[1..], cat) by {
          forall k | 0 <= k < |es| - 1 ensures RowShaped(es[1..][k], cat) { assert es[1..][k] == es[k + 1]; }
        }
        PutAllMeaning(d.rows, cat, d.next, o, es[1..], j);
      }
    }
  }

  /** The incoming lines of a delivery: units per item (one per unique row, the quantity of a stack part),
      in order of first appearance. */
  function Incoming(es: seq<Escrow>): seq<Line>
  {
    if es == [] then [] else AddTo(Incoming(es[..|es| - 1]), es[|es| - 1].item, RowUnits(es[|es| - 1]))
  }

  /** The capacity check of a delivery, on the receiver's slots after ensureSlots. */
  predicate Fits(rows: Rows, cat: Catalog, o: Owner, es: seq<Escrow>)
  {
    CanReceive(View(Prepared(rows, o), o, SlotsTotal), Incoming(es), cat)
  }

  /** deliverEscrowTo: the capacity check, then the insert loop, in one transaction that is committed
      whatever it answers. */
  function Deliver(rows: Rows, cat: Catalog, next: InstanceId, o: Owner, es: seq<Escrow>): Delivery
  {
    if !Fits(rows, cat, o, es) then Delivery(false, Prepared(rows, o), next)
    else PutAll(Prepared(rows, o), cat, next, o, es)
  }

  /** A delivery that succeeds gives the receiver exactly the rows' units; one refused by the capacity check
      changes nobody's holdings; no other owner's slots ever change. */
  lemma DeliverMeaning(rows: Rows, cat: Catalog, next: InstanceId, o: Owner, es: seq<Escrow>, j: ItemId)
    requires WellKeyed(rows, SlotsTotal) && RowsConform(rows, cat) && AllShaped(es, cat)
    ensures var d := Deliver(rows, cat, next, o, es);
      (d.ok ==> Units(d.rows, o, j) == Units(rows, o, j) + RowsUnits(es, j)) &&
      (!Fits(rows, cat, o, es) ==> !d.ok && Units(d.rows, o, j) == Units(rows, o, j)) &&
      (forall p :: p != o ==> Snapshot(d.rows, p, SlotsTotal) == Snapshot(rows, p, SlotsTotal)) &&
      WellKeyed(d.rows, SlotsTotal) && RowsConform(d.rows, cat) && d.next >= next
  {
    ProvisionUnits(rows, o);
    ProvisionKeeps(rows, o, SlotsTotal);
    var pre := Prepared(rows, o);
    assert RowsConform(pre, cat);
    PutAllMeaning(pre, cat, next, o, es, j);
  }

  /** The escrow rows of es written by user u, in order. */
  function FromUser(es: seq<Escrow>, u: UserId): (r: seq<Escrow>)
    ensures forall e :: e in r <==> e in es && e.from == u
  {
    if es == [] then [] else (if es[0].from == u then [es[0]] else []) + FromUser(es[1..], u)
  }

  /** The loop of rollbackEscrowToOwners: each row goes back to the user who escrowed it; a stack part with no
      units is skipped; false where the loop throws. */
  function RestoreAll(rows: Rows, cat: Catalog, next: InstanceId, g: string, es: seq<Escrow>): Delivery
    decreases |es|
  {
    if es == [] then Delivery(true, rows, next)
    else
      var e := es[0];
      if e.instance.None? && e.quantity <= 0 then RestoreAll(rows, cat, next, g, es[1..])
      else
        var d := PutRow(rows, cat, next, Owner(g, e.from), e);
        if !d.ok then d else RestoreAll(d.rows, cat, d.next, g, es[1..])
  }

  /** rollbackEscrowToOwners as one transaction: a throw undoes all of it. */
  function Rollback(rows: Rows, cat: Catalog, next: InstanceId, g: string, es: seq<Escrow>): (d: Delivery)
    ensures !d.ok ==> d.rows == rows && d.next == next
  {
    var d := RestoreAll(rows, cat, next, g, es);
    if d.ok then d else Delivery(false, rows, next)
  }

  lemma FromUserUnits(es: seq<Escrow>, j: ItemId)
    requires es != []
    ensures forall u :: (RowsUnits(FromUser(es, u), j) ==
                          (if es[0].from == u && es[0].item == j then RowUnits(es[0]) else 0) + RowsUnits(FromUser(es[1..], u), j))
  {
    forall u ensures RowsUnits(FromUser(es, u), j) ==
      (if es[0].from == u && es[0].item == j then RowUnits(es[0]) else 0) + RowsUnits(FromUser(es[1..], u), j)
    {
      var head := if es[0].from == u then [es[0]] else [];
      RowsUnitsAppend(head, FromUser(es[1..], u), j);
    }
  }

  /** A rollback that goes through returns to every user of guild g exactly the units that user escrowed,
      and changes no owner of another guild. */
  lemma {:induction false} RestoreAllMeaning(rows: Rows, cat: Catalog, next: InstanceId, g: string, es: seq<Escrow>, j: ItemId)
    requires WellKeyed(rows, SlotsTotal) && RowsConform(rows, cat) && AllShaped(es, cat)
    ensures var d := RestoreAll(rows, cat, next, g, es);
      (d.ok ==> forall o :: Units(d.rows, o, j) == Units(rows, o, j) + (if o.guild == g then RowsUnits(FromUser(es, o.user), j) else 0)) &&
      WellKeyed(d.rows, SlotsTotal) && RowsConform(d.rows, cat) && d.next >= next
    decreases |es|
  {
    if es != [] {
      var e := es[0];
      var tail := es[1..];
      assert AllShaped(tail, cat) by {
        forall k | 0 <= k < |tail| ensures RowShaped(tail[k], cat) { assert tail[k] == es[k + 1]; }
      }
      assert RowShaped(e, cat);
      var d := RestoreAll(rows, cat, next, g, es);
      if e.instance.None? && e.quantity <= 0 {
        assert false;
      } else {
        var d1 := PutRow(rows, cat, next, Owner(g, e.from), e);
        PutRowMeaning(rows, cat, next, Owner(g, e.from), e, j);
        if d1.ok {
          RestoreAllMeaning(d1.rows, cat, d1.next, g, tail, j);
          assert d == RestoreAll(d1.rows, cat, d1.next, g, tail);
          if d.ok {
            RestoreUnitsStep(rows, d1.rows, d.rows, g, es, j);
          }
        }
      }
    }
  }

  /** One placed row followed by the rest of the rollback: each user of g gains the row's units when it is
      that user's, plus the units the rest returns. */
  lemma RestoreUnitsStep(rows: Rows, r1: Rows, r2: Rows, g: string, es: seq<Escrow>, j: ItemId)
    requires es != []
    requires Units(r1, Owner(g, es[0].from), j) == Units(rows, Owner(g, es[0].from), j) + (if es[0].item == j then RowUnits(es[0]) else 0)
    requires forall p :: p != Owner(g, es[0].from) ==> Snapshot(r1, p, SlotsTotal) == Snapshot(rows, p, SlotsTotal)
    requires forall o :: Units(r2, o, j) == Units(r1, o, j) + (if o.guild == g then RowsUnits(FromUser(es[1..], o.user), j) else 0)
    ensures forall o :: Units(r2, o, j) == Units(rows, o, j) + (if o.guild == g then RowsUnits(FromUser(es, o.user), j) else 0)
  {
    FromUserUnits(es, j);
    forall o ensures Units(r2, o, j) == Units(rows, o, j) + (if o.guild == g then RowsUnits(FromUser(es, o.user), j) else 0) {
      if o != Owner(g, es[0].from) {
        assert Snapshot(r1, o, SlotsTotal) == Snapshot(rows, o, SlotsTotal);
      }
    }
  }

  lemma RollbackMeaning(rows: Rows, cat: Catalog, next: InstanceId, g: string, es: seq<Escrow>, j: ItemId)
    requires WellKeyed(rows, SlotsTotal) && RowsConform(rows, cat) && AllShaped(es, cat)
    ensures var d := Rollback(rows, cat, next, g, es);
      (d.ok ==> forall o :: Units(d.rows, o, j) == Units(rows, o, j) + (if o.guild == g then RowsUnits(FromUser(es, o.user), j) else 0)) &&
      (!d.ok ==> d.rows == rows && d.next == next) &&
      WellKeyed(d.rows, SlotsTotal) && RowsConform(d.rows, cat) && d.next >= next
  {
    RestoreAllMeaning(rows, cat, next, g, es, j);
  }

  // ---------------------------------------------------------------------------
  // Finalize

  /** The escrow rows of session sid in insertion order (qEscrowBySession). */
  function OfSession(es: seq<Escrow>, sid: SessionId): (r: seq<Escrow>)
    ensures forall e :: e in r <==> e in es && e.session == sid
  {
    if es == [] then [] else (if es[0].session == sid then [es[0]] else []) + OfSession(es[1..], sid)
  }

  /** The escrow table after qEscrowDeleteSession(sid). */
  function WithoutSession(es: seq<Escrow>, sid: SessionId): (r: seq<Escrow>)
    ensures forall e :: e in r <==> e in es && e.session != sid
  {
    if es == [] then [] else (if es[0].session != sid then [es[0]] else []) + WithoutSession(es[1..], sid)
  }

  /** The two parties' holdings of item j plus what the session holds in escrow. */
  function Held(rows: Rows, escrow: seq<Escrow>, g: string, sid: SessionId, a: UserId, b: UserId, j: ItemId): int
  {
    Units(rows, Owner(g, a), j) + Units(rows, Owner(g, b), j) + RowsUnits(OfSession(escrow, sid), j)
  }

  predicate FromParties(es: seq<Escrow>, a: UserId, b: UserId)
  {
    forall k :: 0 <= k < |es| ==> es[k].from == a || es[k].from == b
  }

  lemma {:induction false} SplitParties(es: seq<Escrow>, a: UserId, b: UserId, j: ItemId)
    requires a != b && FromParties(es, a, b)
    ensures RowsUnits(es, j) == RowsUnits(FromUser(es, a), j) + RowsUnits(FromUser(es, b), j)
  {
    if es != [] {
      assert FromParties(es[1..], a, b) by {
        forall k | 0 <= k < |es| - 1 ensures es[1..][k].from == a || es[1..][k].from == b { assert es[1..][k] == es[k + 1]; }
      }
      SplitParties(es[1..], a, b, j);
      FromUserUnits(es, j);
    }
  }

  lemma ShapedSubset(a: seq<Escrow>, b: seq<Escrow>, cat: Catalog)
    requires AllShaped(b, cat) && forall e :: e in a ==> e in b
    ensures AllShaped(a, cat)
  {
    forall k | 0 <= k < |a| ensures RowShaped(a[k], cat) {
      assert a[k] in b;
    }
  }

  lemma {:induction false} SessionDropped(escrow: seq<Escrow>, sid: SessionId, j: ItemId)
    ensures OfSession(WithoutSession(escrow, sid), sid) == []
    ensures RowsUnits(OfSession(WithoutSession(escrow, sid), sid), j) == 0
  {
    if escrow != [] {
      SessionDropped(escrow[1..], sid, j);
      var w := WithoutSession(escrow[1..], sid);
      if escrow[0].session != sid {
        assert WithoutSession(escrow, sid) == [escrow[0]] + w;
        assert ([escrow[0]] + w)[1..] == w;
        assert OfSession([escrow[0]] + w, sid) == OfSession(w, sid);
      } else {
        assert WithoutSession(escrow, sid) == w;
      }
    }
  }

  /** What the confirm handler leaves once both confirm flags are set. */
  datatype Finale = Finale(rows: Rows, next: InstanceId, escrow: seq<Escrow>, status: Status)

  /** Finalize as written: two separate delivery transactions (to a, then to b), each committed whatever it
      answers; on any failure the whole session's escrow is rolled back and the session cancelled. A rollback
      that throws leaves the deliveries committed, the escrow in place and the session LOCKED. */
  function FinalizeAsWritten(rows: Rows, cat: Catalog, next: InstanceId, g: string, sid: SessionId,
                             a: UserId, b: UserId, escrow: seq<Escrow>): Finale
  {
    var es := OfSession(escrow, sid);
    var dA := Deliver(rows, cat, next, Owner(g, a), FromUser(es, b));
    var dB := Deliver(dA.rows, cat, dA.next, Owner(g, b), FromUser(es, a));
    if dA.ok && dB.ok then Finale(dB.rows, dB.next, WithoutSession(escrow, sid), Finalized)
    else
      var r := Rollback(dB.rows, cat, dB.next, g, es);
      if r.ok then Finale(r.rows, r.next, WithoutSession(escrow, sid), Cancelled)
      else Finale(dB.rows, dB.next, escrow, Locked)
  }

  /** Finalize as intended: both deliveries in one transaction, undone when either fails, so the rollback
      starts from the table as it was. */
  function Finalize(rows: Rows, cat: Catalog, next: InstanceId, g: string, sid: SessionId,
                    a: UserId, b: UserId, escrow: seq<Escrow>): Finale
  {
    var es := OfSession(escrow, sid);
    var dA := Deliver(rows, cat, next, Owner(g, a), FromUser(es, b));
    var dB := Deliver(dA.rows, cat, dA.next, Owner(g, b), FromUser(es, a));
    if dA.ok && dB.ok then Finale(dB.rows, dB.next, WithoutSession(escrow, sid), Finalized)
    else
      var r := Rollback(rows, cat, next, g, es);
      if r.ok then Finale(r.rows, r.next, WithoutSession(escrow, sid), Cancelled)
      else Finale(rows, next, escrow, Locked)
  }

  /** Finalize either leaves the table and the escrow as they were, with the session LOCKED, or closes the
      session and deletes exactly its escrow rows. */
  lemma FinalizeEscrow(rows: Rows, cat: Catalog, next: InstanceId, g: string, sid: SessionId,
                       a: UserId, b: UserId, escrow: seq<Escrow>)
    ensures var f := Finalize(rows, cat, next, g, sid, a, b, escrow);
      (f.status == Locked && f.rows == rows && f.next == next && f.escrow == escrow) ||
      ((f.status == Finalized || f.status == Cancelled) && f.escrow == WithoutSession(escrow, sid))
  {
  }

  lemma NoRows(es: seq<Escrow>, u: UserId, a: UserId, b: UserId, j: ItemId)
    requires FromParties(es, a, b) && u != a && u != b
    ensures RowsUnits(FromUser(es, u), j) == 0
  {
    var r := FromUser(es, u);
    if r != [] {
      assert r[0] in r;
    }
  }

  /** Two successful deliveries swap the parties' escrowed units. */
  lemma SwapCounts(rows: Rows, cat: Catalog, next: InstanceId, g: string, a: UserId, b: UserId, es: seq<Escrow>, j: ItemId)
    requires a != b && WellKeyed(rows, SlotsTotal) && RowsConform(rows, cat) && AllShaped(es, cat)
    requires var dA := Deliver(rows, cat, next, Owner(g, a), FromUser(es, b));
      dA.ok && Deliver(dA.rows, cat, dA.next, Owner(g, b), FromUser(es, a)).ok
    ensures var dA := Deliver(rows, cat, next, Owner(g, a), FromUser(es, b));
      var dB := Deliver(dA.rows, cat, dA.next, Owner(g, b), FromUser(es, a));
      Units(dB.rows, Owner(g, a), j) == Units(rows, Owner(g, a), j) + RowsUnits(FromUser(es, b), j) &&
      Units(dB.rows, Owner(g, b), j) == Units(rows, Owner(g, b), j) + RowsUnits(FromUser(es, a), j) &&
      (forall o :: o != Owner(g, a) && o != Owner(g, b) ==> Units(dB.rows, o, j) == Units(rows, o, j)) &&
      WellKeyed(dB.rows, SlotsTotal) && RowsConform(dB.rows, cat) && dB.next >= next
  {
    ShapedSubset(FromUser(es, a), es, cat);
    ShapedSubset(FromUser(es, b), es, cat);
    var dA := Deliver(rows, cat, next, Owner(g, a), FromUser(es, b));
    DeliverMeaning(rows, cat, next, Owner(g, a), FromUser(es, b), j);
    DeliverMeaning(dA.rows, cat, dA.next, Owner(g, b), FromUser(es, a), j);
  }

  /** What finalize promises: the parties' holdings plus the session's escrow are the same before and
      after, nobody else's holdings change, a finalized trade gives each party exactly what the other
      escrowed, a cancelled one gives each party back exactly what it escrowed, and a session left LOCKED
      leaves everything as it was. */
  ghost predicate FinaleSound(rows: Rows, cat: Catalog, next: InstanceId, escrow: seq<Escrow>, f: Finale,
                              g: string, sid: SessionId, a: UserId, b: UserId, j: ItemId)
  {
    var es := OfSession(escrow, sid);
    Held(f.rows, f.escrow, g, sid, a, b, j) == Held(rows, escrow, g, sid, a, b, j) &&
    (forall o :: o != Owner(g, a) && o != Owner(g, b) ==> Units(f.rows, o, j) == Units(rows, o, j)) &&
    (f.status == Finalized ==>
      Units(f.rows, Owner(g, a), j) == Units(rows, Owner(g, a), j) + RowsUnits(FromUser(es, b), j) &&
      Units(f.rows, Owner(g, b), j) == Units(rows, Owner(g, b), j) + RowsUnits(FromUser(es, a), j)) &&
    (f.status == Cancelled ==>
      Units(f.rows, Owner(g, a), j) == Units(rows, Owner(g, a), j) + RowsUnits(FromUser(es, a), j) &&
      Units(f.rows, Owner(g, b), j) == Units(rows, Owner(g, b), j) + RowsUnits(FromUser(es, b), j)) &&
    (f.status == Locked ==> f.rows == rows && f.escrow == escrow) &&
    (f.status == Finalized || f.status == Cancelled || f.status == Locked) &&
    WellKeyed(f.rows, SlotsTotal) && RowsConform(f.rows, cat) && f.next >= next
  }

  lemma FinalizeSwapSound(rows: Rows, cat: Catalog, next: InstanceId, g: string, sid: SessionId,
                          a: UserId, b: UserId, escrow: seq<Escrow>, j: ItemId)
    requires a != b && WellKeyed(rows, SlotsTotal) && RowsConform(rows, cat) && AllShaped(escrow, cat)
    requires FromParties(OfSession(escrow, sid), a, b)
    requires var es := OfSession(escrow, sid);
      var dA := Deliver(rows, cat, next, Owner(g, a), FromUser(es, b));
      dA.ok && Deliver(dA.rows, cat, dA.next, Owner(g, b), FromUser(es, a)).ok
    ensures var es := OfSession(escrow, sid);
      var dA := Deliver(rows, cat, next, Owner(g, a), FromUser(es, b));
      var dB := Deliver(dA.rows, cat, dA.next, Owner(g, b), FromUser(es, a));
      FinaleSound(rows, cat, next, escrow, Finale(dB.rows, dB.next, WithoutSession(escrow, sid), Finalized), g, sid, a, b, j)
  {
    var es := OfSession(escrow, sid);
    ShapedSubset(es, escrow, cat);
    SplitParties(es, a, b, j);
    SessionDropped(escrow, sid, j);
    SwapCounts(rows, cat, next, g, a, b, es, j);
  }

  lemma FinalizeCancelSound(rows: Rows, cat: Catalog, next: InstanceId, g: string, sid: SessionId,
                            a: UserId, b: UserId, escrow: seq<Escrow>, j: ItemId)
    requires a != b && WellKeyed(rows, SlotsTotal) && RowsConform(rows, cat) && AllShaped(escrow, cat)
    requires FromParties(OfSession(escrow, sid), a, b)
    requires Rollback(rows, cat, next, g, OfSession(escrow, sid)).ok
    ensures var r := Rollback(rows, cat, next, g, OfSession(escrow, sid));
      FinaleSound(rows, cat, next, escrow, Finale(r.rows, r.next, WithoutSession(escrow, sid), Cancelled), g, sid, a, b, j)
  {
    var es := OfSession(escrow, sid);
    ShapedSubset(es, escrow, cat);
    SplitParties(es, a, b, j);
    SessionDropped(escrow, sid, j);
    var r := Rollback(rows, cat, next, g, es);
    RollbackMeaning(rows, cat, next, g, es, j);
    ReturnedUnits(rows, r.rows, g, es, a, b, j);
  }

  /** Rows of two parties returned each to its sender: each party gains what it escrowed, and no one else
      gains anything. */
  lemma ReturnedUnits(rows: Rows, after: Rows, g: string, es: seq<Escrow>, a: UserId, b: UserId, j: ItemId)
    requires FromParties(es, a, b)
    requires forall o :: Units(after, o, j) == Units(rows, o, j) + (if o.guild == g then RowsUnits(FromUser(es, o.user), j) else 0)
    ensures Units(after, Owner(g, a), j) == Units(rows, Owner(g, a), j) + RowsUnits(FromUser(es, a), j)
    ensures Units(after, Owner(g, b), j) == Units(rows, Owner(g, b), j) + RowsUnits(FromUser(es, b), j)
    ensures forall o :: o != Owner(g, a) && o != Owner(g, b) ==> Units(after, o, j) == Units(rows, o, j)
  {
    assert Units(after, Owner(g, a), j) == Units(rows, Owner(g, a), j) + RowsUnits(FromUser(es, a), j);
    assert Units(after, Owner(g, b), j) == Units(rows, Owner(g, b), j) + RowsUnits(FromUser(es, b), j);
    forall o | o != Owner(g, a) && o != Owner(g, b) ensures Units(after, o, j) == Units(rows, o, j) {
      if o.guild == g {
        NoRows(es, o.user, a, b, j);
      }
    }
  }

  lemma FinalizeRollbackSound(rows: Rows, cat: Catalog, next: InstanceId, g: string, sid: SessionId,
                              a: UserId, b: UserId, escrow: seq<Escrow>, j: ItemId)
    requires a != b && WellKeyed(rows, SlotsTotal) && RowsConform(rows, cat) && AllShaped(escrow, cat)
    requires FromParties(OfSession(escrow, sid), a, b)
    ensures var r := Rollback(rows, cat, next, g, OfSession(escrow, sid));
      FinaleSound(rows, cat, next, escrow,
        if r.ok then Finale(r.rows, r.next, WithoutSession(escrow, sid), Cancelled) else Finale(rows, next, escrow, Locked),
        g, sid, a, b, j)
  {
    if Rollback(rows, cat, next, g, OfSession(escrow, sid)).ok {
      FinalizeCancelSound(rows, cat, next, g, sid, a, b, escrow, j);
    }
  }

  /** Finalize as intended conserves every item (FinaleSound). */
  lemma FinalizeConserves(rows: Rows, cat: Catalog, next: InstanceId, g: string, sid: SessionId,
                          a: UserId, b: UserId, escrow: seq<Escrow>, j: ItemId)
    requires a != b && WellKeyed(rows, SlotsTotal) && RowsConform(rows, cat) && AllShaped(escrow, cat)
    requires FromParties(OfSession(escrow, sid), a, b)
    ensures FinaleSound(rows, cat, next, escrow, Finalize(rows, cat, next, g, sid, a, b, escrow), g, sid, a, b, j)
  {
    var es := OfSession(escrow, sid);
    var dA := Deliver(rows, cat, next, Owner(g, a), FromUser(es, b));
    var dB := Deliver(dA.rows, cat, dA.next, Owner(g, b), FromUser(es, a));
    if dA.ok && dB.ok {
      FinalizeSwapSound(rows, cat, next, g, sid, a, b, escrow, j);
    } else {
      FinalizeRollbackSound(rows, cat, next, g, sid, a, b, escrow, j);
    }
  }

  /** The hazard of finalize as written: when the delivery to a goes through, the delivery to b is refused by
      its capacity check and the rollback goes through, b's escrowed units are both delivered to a and
      returned to b. The session is cancelled, its escrow is gone, and the parties together hold b's whole
      offer once more than they did. */
  lemma FinalizeAsWrittenDuplicates(rows: Rows, cat: Catalog, next: InstanceId, g: string, sid: SessionId,
                                    a: UserId, b: UserId, escrow: seq<Escrow>, j: ItemId)
    requires a != b && WellKeyed(rows, SlotsTotal) && RowsConform(rows, cat) && AllShaped(escrow, cat)
    requires FromParties(OfSession(escrow, sid), a, b)
    requires var es := OfSession(escrow, sid);
      var dA := Deliver(rows, cat, next, Owner(g, a), FromUser(es, b));
      var dB := Deliver(dA.rows, cat, dA.next, Owner(g, b), FromUser(es, a));
      dA.ok && !Fits(dA.rows, cat, Owner(g, b), FromUser(es, a)) && Rollback(dB.rows, cat, dB.next, g, es).ok
    ensures var f := FinalizeAsWritten(rows, cat, next, g, sid, a, b, escrow); var es := OfSession(escrow, sid);
      f.status == Cancelled && f.escrow == WithoutSession(escrow, sid) &&
      Held(f.rows, f.escrow, g, sid, a, b, j) == Held(rows, escrow, g, sid, a, b, j) + RowsUnits(FromUser(es, b), j) &&
      Units(f.rows, Owner(g, a), j) == Units(rows, Owner(g, a), j) + RowsUnits(FromUser(es, b), j) + RowsUnits(FromUser(es, a), j)
  {
    var es := OfSession(escrow, sid);
    var oa, ob := Owner(g, a), Owner(g, b);
    ShapedSubset(es, escrow, cat);
    ShapedSubset(FromUser(es, a), escrow, cat);
    ShapedSubset(FromUser(es, b), escrow, cat);
    SplitParties(es, a, b, j);
    SessionDropped(escrow, sid, j);
    var dA := Deliver(rows, cat, next, oa, FromUser(es, b));
    DeliverMeaning(rows, cat, next, oa, FromUser(es, b), j);
    var dB := Deliver(dA.rows, cat, dA.next, ob, FromUser(es, a));
    DeliverMeaning(dA.rows, cat, dA.next, ob, FromUser(es, a), j);
    RollbackMeaning(dB.rows, cat, dB.next, g, es, j);
  }

  // ---------------------------------------------------------------------------
  // Escrow tables: appending and filtering

  lemma {:induction false} OfSessionAppend(x: seq<Escrow>, y: seq<Escrow>, sid: SessionId)
    ensures OfSession(x + y, sid) == OfSession(x, sid) + OfSession(y, sid)
  {
    if x == [] {
      assert x + y == y;
    } else {
      assert (x + y)[1..] == x[1..] + y;
      OfSessionAppend(x[1..], y, sid);
    }
  }

  lemma {:induction false} WithoutSessionAppend(x: seq<Escrow>, y: seq<Escrow>, sid: SessionId)
    ensures WithoutSession(x + y, sid) == WithoutSession(x, sid) + WithoutSession(y, sid)
  {
    if x == [] {
      assert x + y == y;
    } else {
      assert (x + y)[1..] == x[1..] + y;
      WithoutSessionAppend(x[1..], y, sid);
    }
  }

  lemma {:induction false} FromUserAppend(x: seq<Escrow>, y: seq<Escrow>, u: UserId)
    ensures FromUser(x + y, u) == FromUser(x, u) + FromUser(y, u)
  {
    if x == [] {
      assert x + y == y;
    } else {
      assert (x + y)[1..] == x[1..] + y;
      FromUserAppend(x[1..], y, u);
    }
  }

  /** Rows a lock step wrote for (sid, u) are all of session sid and all from u. */
  lemma {:induction false} ShapedOwn(es: seq<Escrow>, cat: Catalog, sid: SessionId, u: UserId, w: UserId)
    requires RowsShaped(es, cat, sid, u)
    ensures OfSession(es, sid) == es && FromUser(es, u) == es && AllShaped(es, cat)
    ensures w != u ==> FromUser(es, w) == []
    ensures forall s2 :: s2 != sid ==> OfSession(es, s2) == []
  {
    if es != [] {
      assert RowsShaped(es[1..], cat, sid, u) by {
        forall k | 0 <= k < |es| - 1 ensures es[1..][k] == es[k + 1] { }
      }
      ShapedOwn(es[1..], cat, sid, u, w);
      assert es == [es[0]] + es[1..];
    }
  }

  /** Deleting a session's rows leaves every other session's rows as they were. */
  lemma {:induction false} OfSessionWithout(es: seq<Escrow>, sid: SessionId, s2: SessionId)
    requires s2 != sid
    ensures OfSession(WithoutSession(es, sid), s2) == OfSession(es, s2)
  {
    if es != [] {
      OfSessionWithout(es[1..], sid, s2);
      var w := WithoutSession(es[1..], sid);
      if es[0].session != sid {
        assert WithoutSession(es, sid) == [es[0]] + w;
        assert ([es[0]] + w)[1..] == w;
      } else {
        assert WithoutSession(es, sid) == w;
      }
    }
  }

  lemma FromPartiesAppend(x: seq<Escrow>, y: seq<Escrow>, a: UserId, b: UserId)
    requires FromParties(x, a, b) && FromParties(y, a, b)
    ensures FromParties(x + y, a, b)
  {
    forall k | 0 <= k < |x + y| ensures (x + y)[k].from == a || (x + y)[k].from == b {
      if k >= |x| {
        assert (x + y)[k] == y[k - |x|];
      }
    }
  }

  // ---------------------------------------------------------------------------
  // Lock of a session: both parties' offers moved to escrow, or everything handed back

  /** The session's offers made by u (`offers.filter(o => o.from_user_id === u)`). */
  function PartyOffers(offers: seq<Offer>, sid: SessionId, u: UserId): (r: seq<Offer>)
    ensures forall x :: x in r <==> x in offers && x.session == sid && x.from == u
  {
    if offers == [] then []
    else (if offers[0].session == sid && offers[0].from == u then [offers[0]] else []) + PartyOffers(offers[1..], sid, u)
  }

  /** With the offers' primary key, one party's offers in a session name each item once, and they are
      positive when all offers are. */
  lemma {:induction false} PartyOffersShape(offers: seq<Offer>, sid: SessionId, u: UserId)
    requires KeysUnique(offers) && OffersPositive(offers)
    ensures DistinctItems(PartyOffers(offers, sid, u)) && OffersPositive(PartyOffers(offers, sid, u))
  {
    if offers != [] {
      var t := offers[1..];
      assert forall k :: 0 <= k < |t| ==> t[k] == offers[k + 1];
      PartyOffersShape(t, sid, u);
      var rest := PartyOffers(t, sid, u);
      if offers[0].session == sid && offers[0].from == u {
        var r := [offers[0]] + rest;
        forall x, y | 0 <= x < y < |r| ensures r[x].item != r[y].item {
          if x == 0 {
            assert r[y] in rest;
            var k :| 0 <= k < |t| && t[k] == r[y];
            assert !SameKey(offers[k + 1], offers[0].session, offers[0].from, offers[0].item);
          } else {
            assert r[x] == rest[x - 1] && r[y] == rest[y - 1];
          }
        }
      }
    }
  }

  /** What a party's offers amount to for item j is the quantity offered under that key. */
  lemma {:induction false} PartyOffersTotal(offers: seq<Offer>, sid: SessionId, u: UserId, j: ItemId)
    ensures OfferTotal(PartyOffers(offers, sid, u), j) == OfferQty(offers, sid, u, j)
  {
    if offers != [] {
      PartyOffersTotal(offers[1..], sid, u, j);
      var head := if offers[0].session == sid && offers[0].from == u then [offers[0]] else [];
      var rest := PartyOffers(offers[1..], sid, u);
      assert PartyOffers(offers, sid, u) == head + rest;
      if head != [] {
        assert (head + rest)[1..] == rest;
      } else {
        assert head + rest == rest;
      }
    }
  }

  /** What a lock leaves: whether it locked, the table, the fresh-id supply, the escrow table, and whether the
      rollback after a failed lock went through (the session flags are reset only then). */
  datatype LockOutcome = LockOutcome(ok: bool, rows: Rows, next: InstanceId, escrow: seq<Escrow>, restored: bool)

  /** The lock in trade-ready: a's offers, then b's, each moved to escrow in its own transaction (both run
      whatever the first answers); if either fails, the whole session's escrow goes back to its owners. A
      rollback that throws ends the handler with both moves committed. */
  function Lock(rows: Rows, cat: Catalog, next: InstanceId, escrow: seq<Escrow>, g: string, sid: SessionId,
                a: UserId, b: UserId, offers: seq<Offer>): LockOutcome
  {
    var eA := EscrowCommit(rows, cat, g, sid, a, PartyOffers(offers, sid, a));
    var eB := EscrowCommit(eA.rows, cat, g, sid, b, PartyOffers(offers, sid, b));
    var esc := escrow + eA.added + eB.added;
    if eA.ok && eB.ok then LockOutcome(true, eB.rows, next, esc, false)
    else
      var r := Rollback(eB.rows, cat, next, g, OfSession(esc, sid));
      if r.ok then LockOutcome(false, r.rows, r.next, WithoutSession(esc, sid), true)
      else LockOutcome(false, eB.rows, next, esc, false)
  }

  /** The owners' side of the two escrow moves of a lock, before any rollback. */
  ghost predicate MovesOwners(rows: Rows, cat: Catalog, g: string, sid: SessionId, a: UserId, b: UserId,
                              offers: seq<Offer>, eA: EscrowMove, eB: EscrowMove, j: ItemId)
  {
    var oa, ob := Owner(g, a), Owner(g, b);
    (eA.ok <==> Precheck(Snapshot(rows, oa, SlotsTotal), cat, PartyOffers(offers, sid, a)).Ok?) &&
    (eB.ok <==> Precheck(Snapshot(rows, ob, SlotsTotal), cat, PartyOffers(offers, sid, b)).Ok?) &&
    Units(eB.rows, oa, j) == Units(rows, oa, j) - (if eA.ok then OfferQty(offers, sid, a, j) else 0) &&
    Units(eB.rows, ob, j) == Units(rows, ob, j) - (if eB.ok then OfferQty(offers, sid, b, j) else 0) &&
    RowsUnits(eA.added, j) == (if eA.ok then OfferQty(offers, sid, a, j) else 0) &&
    RowsUnits(eB.added, j) == (if eB.ok then OfferQty(offers, sid, b, j) else 0) &&
    RowsShaped(eA.added, cat, sid, a) && RowsShaped(eB.added, cat, sid, b) &&
    (forall o :: o != oa && o != ob ==> Units(eB.rows, o, j) == Units(rows, o, j)) &&
    WellKeyed(eB.rows, SlotsTotal) && RowsConform(eB.rows, cat)
  }

  /** Appending a's rows and then b's rows of session sid to the escrow table adds their units to the
      session, each party's to its own share. */
  lemma EscrowAppendUnits(escrow: seq<Escrow>, addA: seq<Escrow>, addB: seq<Escrow>, cat: Catalog,
                          sid: SessionId, a: UserId, b: UserId, j: ItemId)
    requires a != b && RowsShaped(addA, cat, sid, a) && RowsShaped(addB, cat, sid, b)
    ensures var esc := escrow + addA + addB; var es0 := OfSession(escrow, sid);
      RowsUnits(OfSession(esc, sid), j) == RowsUnits(es0, j) + RowsUnits(addA, j) + RowsUnits(addB, j)
  {
    var es0 := OfSession(escrow, sid);
    ShapedOwn(addA, cat, sid, a, b);
    ShapedOwn(addB, cat, sid, b, a);
    OfSessionAppend(escrow, addA, sid);
    OfSessionAppend(escrow + addA, addB, sid);
    RowsUnitsAppend(es0, addA, j);
    RowsUnitsAppend(es0 + addA, addB, j);
  }

  /** Rows of w appended to a list add their units to w's share and nothing to anybody else's. */
  lemma ShareAppend(es: seq<Escrow>, add: seq<Escrow>, cat: Catalog, sid: SessionId, u: UserId, w: UserId, j: ItemId)
    requires RowsShaped(add, cat, sid, w)
    ensures RowsUnits(FromUser(es + add, u), j) == RowsUnits(FromUser(es, u), j) + (if u == w then RowsUnits(add, j) else 0)
  {
    ShapedOwn(add, cat, sid, w, u);
    FromUserAppend(es, add, u);
    RowsUnitsAppend(FromUser(es, u), FromUser(add, u), j);
    if u != w {
      assert FromUser(es, u) + [] == FromUser(es, u);
    }
  }

  lemma EscrowAppendShares(escrow: seq<Escrow>, addA: seq<Escrow>, addB: seq<Escrow>, cat: Catalog,
                           sid: SessionId, a: UserId, b: UserId, j: ItemId)
    requires a != b && RowsShaped(addA, cat, sid, a) && RowsShaped(addB, cat, sid, b)
    ensures var esc := escrow + addA + addB; var es0 := OfSession(escrow, sid);
      RowsUnits(FromUser(OfSession(esc, sid), a), j) == RowsUnits(FromUser(es0, a), j) + RowsUnits(addA, j) &&
      RowsUnits(FromUser(OfSession(esc, sid), b), j) == RowsUnits(FromUser(es0, b), j) + RowsUnits(addB, j)
  {
    var es0 := OfSession(escrow, sid);
    ShapedOwn(addA, cat, sid, a, b);
    ShapedOwn(addB, cat, sid, b, a);
    OfSessionAppend(escrow, addA, sid);
    OfSessionAppend(escrow + addA, addB, sid);
    assert OfSession(escrow + addA + addB, sid) == es0 + addA + addB;
    ShareAppend(es0, addA, cat, sid, a, a, j);
    ShareAppend(es0 + addA, addB, cat, sid, a, b, j);
    ShareAppend(es0, addA, cat, sid, b, a, j);
    ShareAppend(es0 + addA, addB, cat, sid, b, b, j);
  }

  lemma EscrowAppendShape(escrow: seq<Escrow>, addA: seq<Escrow>, addB: seq<Escrow>, cat: Catalog,
                          sid: SessionId, a: UserId, b: UserId)
    requires a != b && RowsShaped(addA, cat, sid, a) && RowsShaped(addB, cat, sid, b)
    requires AllShaped(escrow, cat) && FromParties(OfSession(escrow, sid), a, b)
    ensures var esc := escrow + addA + addB;
      (forall s2 :: s2 != sid ==> OfSession(esc, s2) == OfSession(escrow, s2)) &&
      FromParties(OfSession(esc, sid), a, b) && AllShaped(esc, cat)
  {
    var es0 := OfSession(escrow, sid);
    var esc := escrow + addA + addB;
    ShapedOwn(addA, cat, sid, a, b);
    ShapedOwn(addB, cat, sid, b, a);
    OfSessionAppend(escrow, addA, sid);
    OfSessionAppend(escrow + addA, addB, sid);
    forall s2 | s2 != sid ensures OfSession(esc, s2) == OfSession(escrow, s2) {
      OfSessionAppend(escrow, addA, s2);
      OfSessionAppend(escrow + addA, addB, s2);
      assert OfSession(esc, s2) == OfSession(escrow, s2) + [] + [];
    }
    assert FromParties(addA, a, b) && FromParties(addB, a, b);
    FromPartiesAppend(es0, addA, a, b);
    FromPartiesAppend(es0 + addA, addB, a, b);
    assert AllShaped(esc, cat) by {
      forall k | 0 <= k < |esc| ensures RowShaped(esc[k], cat) {
        if k < |escrow| {
          assert esc[k] == escrow[k];
        } else if k < |escrow| + |addA| {
          assert esc[k] == addA[k - |escrow|];
        } else {
          assert esc[k] == addB[k - |escrow| - |addA|];
        }
      }
    }
  }

  /** One party's escrow move in a lock: it goes through exactly when phase 1 passes on the party's slots,
      and then takes exactly the offered quantity of every item; a refused move writes nothing. */
  lemma PartyMove(rows: Rows, cat: Catalog, g: string, sid: SessionId, u: UserId, offers: seq<Offer>, j: ItemId)
    requires WellKeyed(rows, SlotsTotal) && RowsConform(rows, cat) && KeysUnique(offers) && OffersPositive(offers)
    ensures var e := EscrowCommit(rows, cat, g, sid, u, PartyOffers(offers, sid, u)); var o := Owner(g, u);
      var t := if e.ok then OfferQty(offers, sid, u, j) else 0;
      (e.ok <==> Precheck(Snapshot(rows, o, SlotsTotal), cat, PartyOffers(offers, sid, u)).Ok?) &&
      Units(e.rows, o, j) == Units(rows, o, j) - t && RowsUnits(e.added, j) == t &&
      RowsShaped(e.added, cat, sid, u) &&
      (forall p :: p != o ==> Snapshot(e.rows, p, SlotsTotal) == Snapshot(rows, p, SlotsTotal)) &&
      WellKeyed(e.rows, SlotsTotal) && RowsConform(e.rows, cat)
  {
    PartyOffersShape(offers, sid, u);
    PartyOffersTotal(offers, sid, u, j);
    EscrowCommitMeaning(rows, cat, g, sid, u, PartyOffers(offers, sid, u), j);
  }

  lemma MovesOwnersFacts(rows: Rows, cat: Catalog, g: string, sid: SessionId,
                         a: UserId, b: UserId, offers: seq<Offer>, j: ItemId)
    requires a != b && WellKeyed(rows, SlotsTotal) && RowsConform(rows, cat) && KeysUnique(offers) && OffersPositive(offers)
    ensures var eA := EscrowCommit(rows, cat, g, sid, a, PartyOffers(offers, sid, a));
      var eB := EscrowCommit(eA.rows, cat, g, sid, b, PartyOffers(offers, sid, b));
      MovesOwners(rows, cat, g, sid, a, b, offers, eA, eB, j)
  {
    var oa, ob := Owner(g, a), Owner(g, b);
    var eA := EscrowCommit(rows, cat, g, sid, a, PartyOffers(offers, sid, a));
    PartyMove(rows, cat, g, sid, a, offers, j);
    var eB := EscrowCommit(eA.rows, cat, g, sid, b, PartyOffers(offers, sid, b));
    PartyMove(eA.rows, cat, g, sid, b, offers, j);
    assert Snapshot(eA.rows, ob, SlotsTotal) == Snapshot(rows, ob, SlotsTotal);
    assert Snapshot(eB.rows, oa, SlotsTotal) == Snapshot(eA.rows, oa, SlotsTotal);
    forall o | o != oa && o != ob ensures Units(eB.rows, o, j) == Units(rows, o, j) {
      assert Snapshot(eA.rows, o, SlotsTotal) == Snapshot(rows, o, SlotsTotal);
      assert Snapshot(eB.rows, o, SlotsTotal) == Snapshot(eA.rows, o, SlotsTotal);
    }
  }

  lemma HeldMoves(rows: Rows, rowsB: Rows, escrow: seq<Escrow>, esc: seq<Escrow>, g: string, sid: SessionId,
                  a: UserId, b: UserId, ta: int, tb: int, j: ItemId)
    requires Units(rowsB, Owner(g, a), j) == Units(rows, Owner(g, a), j) - ta
    requires Units(rowsB, Owner(g, b), j) == Units(rows, Owner(g, b), j) - tb
    requires RowsUnits(OfSession(esc, sid), j) == RowsUnits(OfSession(escrow, sid), j) + ta + tb
    ensures Held(rowsB, esc, g, sid, a, b, j) == Held(rows, escrow, g, sid, a, b, j)
  {
  }

  /** What a lock promises. Together the two parties and the session's escrow hold what they held, and
      nobody else's holdings change. A lock that goes through takes exactly the offered quantity of every
      item from each party into escrow. A failed lock whose rollback goes through leaves the session without
      escrow and gives each party back what was in escrow for it before, so a session entering the lock with
      no escrow comes out of a failed lock with every holding as it was. */
  ghost predicate LockSound(rows: Rows, cat: Catalog, next: InstanceId, escrow: seq<Escrow>, l: LockOutcome,
                            g: string, sid: SessionId, a: UserId, b: UserId, offers: seq<Offer>, j: ItemId)
  {
    var es0 := OfSession(escrow, sid);
    var oa, ob := Owner(g, a), Owner(g, b);
    Held(l.rows, l.escrow, g, sid, a, b, j) == Held(rows, escrow, g, sid, a, b, j) &&
    (forall o :: o != oa && o != ob ==> Units(l.rows, o, j) == Units(rows, o, j)) &&
    (l.ok ==>
      Units(l.rows, oa, j) == Units(rows, oa, j) - OfferQty(offers, sid, a, j) &&
      Units(l.rows, ob, j) == Units(rows, ob, j) - OfferQty(offers, sid, b, j) &&
      RowsUnits(OfSession(l.escrow, sid), j) == RowsUnits(es0, j) + OfferQty(offers, sid, a, j) + OfferQty(offers, sid, b, j)) &&
    (l.restored ==>
      !l.ok && OfSession(l.escrow, sid) == [] &&
      Units(l.rows, oa, j) == Units(rows, oa, j) + RowsUnits(FromUser(es0, a), j) &&
      Units(l.rows, ob, j) == Units(rows, ob, j) + RowsUnits(FromUser(es0, b), j)) &&
    (forall s2 :: s2 != sid ==> OfSession(l.escrow, s2) == OfSession(escrow, s2)) &&
    FromParties(OfSession(l.escrow, sid), a, b) && AllShaped(l.escrow, cat) &&
    WellKeyed(l.rows, SlotsTotal) && RowsConform(l.rows, cat) && l.next >= next
  }

  /** The lock goes through exactly when both parties pass phase 1 on their own slots, and it is sound. */
  lemma LockMeaning(rows: Rows, cat: Catalog, next: InstanceId, escrow: seq<Escrow>, g: string, sid: SessionId,
                    a: UserId, b: UserId, offers: seq<Offer>, j: ItemId)
    requires a != b && WellKeyed(rows, SlotsTotal) && RowsConform(rows, cat) && AllShaped(escrow, cat)
    requires FromParties(OfSession(escrow, sid), a, b) && KeysUnique(offers) && OffersPositive(offers)
    ensures var l := Lock(rows, cat, next, escrow, g, sid, a, b, offers);
      (l.ok <==> Precheck(Snapshot(rows, Owner(g, a), SlotsTotal), cat, PartyOffers(offers, sid, a)).Ok? &&
                 Precheck(Snapshot(rows, Owner(g, b), SlotsTotal), cat, PartyOffers(offers, sid, b)).Ok?) &&
      LockSound(rows, cat, next, escrow, l, g, sid, a, b, offers, j)
  {
    var eA := EscrowCommit(rows, cat, g, sid, a, PartyOffers(offers, sid, a));
    var eB := EscrowCommit(eA.rows, cat, g, sid, b, PartyOffers(offers, sid, b));
    var esc := escrow + eA.added + eB.added;
    MovesOwnersFacts(rows, cat, g, sid, a, b, offers, j);
    assert MovesOwners(rows, cat, g, sid, a, b, offers, eA, eB, j);
    EscrowAppendUnits(escrow, eA.added, eB.added, cat, sid, a, b, j);
    EscrowAppendShares(escrow, eA.added, eB.added, cat, sid, a, b, j);
    EscrowAppendShape(escrow, eA.added, eB.added, cat, sid, a, b);
    HeldMoves(rows, eB.rows, escrow, esc, g, sid, a, b, RowsUnits(eA.added, j), RowsUnits(eB.added, j), j);
    if !(eA.ok && eB.ok) {
      var r := Rollback(eB.rows, cat, next, g, OfSession(esc, sid));
      if r.ok {
        FinalizeCancelSound(eB.rows, cat, next, g, sid, a, b, esc, j);
        SessionDropped(esc, sid, j);
        forall s2 | s2 != sid ensures OfSession(WithoutSession(esc, sid), s2) == OfSession(escrow, s2) {
          OfSessionWithout(esc, sid, s2);
        }
        assert AllShaped(WithoutSession(esc, sid), cat) by {
          ShapedSubset(WithoutSession(esc, sid), esc, cat);
        }
      }
    }
  }
}
