/** The trade bot as a stateful object over its database tables: the loops of moveOfferToEscrow,
    deliverEscrowTo, rollbackEscrowToOwners and the bot's own addItemsAtomic, and the slash-command
    handlers that drive them. Every method is proved to leave exactly the tables the step functions of
    MetroTrades and TradeHandlers describe, so what is proved about those functions holds of the bot. */
module TradeBot {
  import opened Slots
  import opened Stacking
  import opened Removal
  import opened Capacity
  import opened MetroInventories
  import opened MetroTrades
  import opened TradeHandlers

  // ---------------------------------------------------------------------------
  // The loops of the escrow move, on a copy of the offerer's slots

  /** Phase 1: each offer in turn must name a known item that the slots cover. */
  method CheckOffers(v: seq<Slot>, cat: Catalog, offs: seq<Offer>) returns (r: Outcome)
    ensures r == Precheck(v, cat, offs)
  {
    var i := 0;
    while i < |offs|
      invariant 0 <= i <= |offs|
      invariant Precheck(v, cat, offs) == Precheck(v, cat, offs[i..])
    {
      assert offs[i..][0] == offs[i] && offs[i..][1..] == offs[i + 1..];
      var x := offs[i];
      if x.item !in cat {
        return Err(UnknownItem);
      }
      if !Covered(v, cat, x) {
        return Err(if cat[x.item] == 1 then TooFewInstances else TooFewUnits);
      }
      i := i + 1;
    }
    r := Ok;
  }

  /** The unique branch of phase 2: walk the slots, sending the first `need` units of `id` to escrow. */
  method TakeUniqueSlots(v: seq<Slot>, sid: SessionId, u: UserId, id: ItemId, need: int)
    returns (slots: seq<Slot>, rows: seq<Escrow>)
    ensures (slots, rows) == TakeInstances(v, sid, u, id, need)
  {
    slots, rows := v, [];
    var i, left := 0, need;
    InstancesStart(v, sid, u, id, need);
    while i < |v|
      invariant i <= |v| == |slots|
      invariant InstancesTo(v, sid, u, id, need, slots, rows, i, left)
    {
      ghost var slots0, rows0, left0 := slots, rows, left;
      if left > 0 && slots[i].Unique? && slots[i].item == id {
        rows := rows + [Snap(slots[i], sid, u)];
        slots := slots[i := Empty];
        left := left - 1;
      }
      InstancesAdvance(v, sid, u, id, need, slots0, rows0, i, left0, slots, rows, left);
      i := i + 1;
    }
    InstancesFinish(v, sid, u, id, need, slots, rows, i, left);
  }

  /** The unique walk's state after the first i slots: the rest of the copy is still the original, and
      walking it with what is still needed completes the whole walk. */
  ghost predicate InstancesTo(v: seq<Slot>, sid: SessionId, u: UserId, id: ItemId, need: int,
                              slots: seq<Slot>, rows: seq<Escrow>, i: nat, left: int)
  {
    i <= |v| == |slots| && slots[i..] == v[i..] &&
    var rest := TakeInstances(v[i..], sid, u, id, left);
    TakeInstances(v, sid, u, id, need) == (slots[..i] + rest.0, rows + rest.1)
  }

  lemma InstancesStart(v: seq<Slot>, sid: SessionId, u: UserId, id: ItemId, need: int)
    ensures InstancesTo(v, sid, u, id, need, v, [], 0, need)
  {
    assert v[0..] == v && v[..0] == [];
    var r := TakeInstances(v, sid, u, id, need);
    assert [] + r.0 == r.0 && [] + r.1 == r.1;
  }

  /** One step of the unique walk: slot i goes to escrow when units are still needed and it holds one. */
  lemma InstancesAdvance(v: seq<Slot>, sid: SessionId, u: UserId, id: ItemId, need: int,
                         slots: seq<Slot>, rows: seq<Escrow>, i: nat, left: int,
                         slots2: seq<Slot>, rows2: seq<Escrow>, left2: int)
    requires InstancesTo(v, sid, u, id, need, slots, rows, i, left) && i < |v|
    requires if left > 0 && slots[i].Unique? && slots[i].item == id
      then rows2 == rows + [Snap(slots[i], sid, u)] && slots2 == slots[i := Empty] && left2 == left - 1
      else rows2 == rows && slots2 == slots && left2 == left
    ensures InstancesTo(v, sid, u, id, need, slots2, rows2, i + 1, left2)
  {
    assert v[i..][0] == v[i] == slots[i] && v[i..][1..] == v[i + 1..];
    var rest := TakeInstances(v[i + 1..], sid, u, id, left2);
    var prefix := slots[..i];
    if left > 0 && slots[i].Unique? && slots[i].item == id {
      assert TakeInstances(v[i..], sid, u, id, left) == ([Empty] + rest.0, [Snap(v[i], sid, u)] + rest.1);
      assert rows + ([Snap(v[i], sid, u)] + rest.1) == rows2 + rest.1;
    } else {
      assert TakeInstances(v[i..], sid, u, id, left) == ([v[i]] + rest.0, rest.1);
    }
    assert slots2[..i + 1] == prefix + [slots2[i]];
    assert prefix + ([slots2[i]] + rest.0) == slots2[..i + 1] + rest.0;
  }

  lemma InstancesFinish(v: seq<Slot>, sid: SessionId, u: UserId, id: ItemId, need: int,
                        slots: seq<Slot>, rows: seq<Escrow>, i: nat, left: int)
    requires InstancesTo(v, sid, u, id, need, slots, rows, i, left) && i == |v|
    ensures (slots, rows) == TakeInstances(v, sid, u, id, need)
  {
    assert v[i..] == [] && slots[..i] == slots;
    assert TakeInstances([], sid, u, id, left) == ([], []);
    assert slots + [] == slots && rows + [] == rows;
  }

  /** Phase 2 for one offer: uniques slot by slot, stacks smallest first through the removal loop. */
  method StepEscrow(v: seq<Slot>, cat: Catalog, sid: SessionId, u: UserId, x: Offer) returns (m: Moved)
    requires x.item in cat
    ensures m == EscrowStep(v, cat, sid, u, x)
  {
    if cat[x.item] == 1 {
      var slots, rows := TakeUniqueSlots(v, sid, u, x.item, x.quantity);
      m := Moved(true, slots, rows);
    } else {
      var order := RemovalOrder(v, x.item);
      RemovalOrderInRange(v, x.item);
      var t := PlanTake(v, order, x.item, x.quantity);
      m := Moved(t.left <= 0, t.slots, PartRows(t.takes, sid, u, x.item));
    }
  }

  /** Phase 2: the offers in turn; the first step that comes up short ends the loop. */
  method MoveAll(v: seq<Slot>, cat: Catalog, sid: SessionId, u: UserId, offs: seq<Offer>) returns (m: Moved)
    requires KnownOffers(offs, cat)
    ensures m == Phase2(v, cat, sid, u, offs)
  {
    var slots, rows, ok := v, [], true;
    var i := 0;
    while i < |offs| && ok
      invariant 0 <= i <= |offs| && |slots| == |v|
      invariant KnownOffers(offs[i..], cat)
      invariant ok ==> (Phase2(v, cat, sid, u, offs) ==
        var rest := Phase2(slots, cat, sid, u, offs[i..]); Moved(rest.ok, rest.slots, rows + rest.rows))
      invariant !ok ==> Phase2(v, cat, sid, u, offs) == Moved(false, slots, rows)
    {
      assert offs[i..][0] == offs[i] && offs[i..][1..] == offs[i + 1..];
      var step := StepEscrow(slots, cat, sid, u, offs[i]);
      slots, rows, ok := step.slots, rows + step.rows, step.ok;
      i := i + 1;
    }
    m := Moved(ok, slots, rows);
  }

  /** The aggregation loop of deliverEscrowTo: units per item, in order of first appearance. */
  method IncomingLines(es: seq<Escrow>) returns (lines: seq<Line>)
    ensures lines == Incoming(es)
  {
    lines := [];
    var i := 0;
    while i < |es|
      invariant 0 <= i <= |es|
      invariant lines == Incoming(es[..i])
    {
      assert es[..i + 1][..i] == es[..i] && es[..i + 1][i] == es[i];
      lines := AddTo(lines, es[i].item, RowUnits(es[i]));
      i := i + 1;
    }
    assert es[..i] == es;
  }

  // ---------------------------------------------------------------------------
  // The bot

  class Bot {
    const cat: Catalog
    var rows: Rows
    var nextId: InstanceId
    var sessions: seq<Session>
    var offers: seq<Offer>
    var escrow: seq<Escrow>

    function State(): Trades
      reads this
    {
      Trades(rows, nextId, sessions, offers, escrow)
    }

    ghost predicate Valid()
      reads this
    {
      TradesValid(State(), cat)
    }

    constructor (cat: Catalog)
      ensures Valid() && this.cat == cat && State() == Trades(map[], 0, [], [], [])
    {
      this.cat := cat;
      rows, nextId, sessions, offers, escrow := map[], 0, [], [], [];
    }

    /** ensureSlots. */
    method EnsureSlots(o: Owner)
      modifies this
      ensures rows == Prepared(old(rows), o)
      ensures nextId == old(nextId) && sessions == old(sessions) && offers == old(offers) && escrow == old(escrow)
    {
      rows := EnsureRows(rows, o, SlotsTotal);
    }

    /** The bot's own addItemsAtomic: argument checks, ensureSlots, the plan on a copy, committed only when
        it succeeds. */
    method AddItemsAtomic(o: Owner, id: ItemId, qty: int) returns (outcome: Outcome)
      modifies this
      ensures Commit(outcome, rows, nextId) == TradeAdd(old(rows), cat, o, id, qty, old(nextId))
      ensures sessions == old(sessions) && offers == old(offers) && escrow == old(escrow)
    {
      if qty <= 0 {
        return Err(InvalidQuantity);
      }
      if id !in cat {
        return Err(UnknownItem);
      }
      EnsureSlots(o);
      var slots := View(rows, o, SlotsTotal);
      ghost var c := AddChange(slots, cat, id, qty, nextId, None, None);
      assert TradeAdd(old(rows), cat, o, id, qty, old(nextId)) == if c.outcome.Ok?
        then Commit(Ok, WriteBack(rows, o, c.slots), nextId + (if cat[id] == 1 then qty else 0))
        else Commit(c.outcome, rows, nextId);
      if cat[id] == 1 {
        if FreeCount(slots) < qty {
          return Err(NoRoomForUniques);
        }
        var plan := PlanUniques(slots, id, nextId, qty, None, None);
        assert c == Change(Ok, plan);
        rows := WriteBack(rows, o, plan);
        nextId := nextId + qty;
      } else {
        var plan, remaining := PlanStackAdd(slots, id, cat[id], qty);
        if remaining > 0 {
          return Err(NoRoomForStack);
        }
        assert c == Change(Ok, plan);
        rows := WriteBack(rows, o, plan);
      }
      outcome := Ok;
    }

    /** One escrow row placed with o: a unique unit into the first free slot, a stack part through the add. */
    method PlaceRow(o: Owner, e: Escrow) returns (ok: bool)
      modifies this
      ensures Delivery(ok, rows, nextId) == PutRow(old(rows), cat, old(nextId), o, e)
      ensures sessions == old(sessions) && offers == old(offers) && escrow == old(escrow)
    {
      if e.instance.Some? {
        EnsureSlots(o);
        var free := FirstFree(View(rows, o, SlotsTotal));
        if free.None? {
          return false;
        }
        rows := rows[SlotKey(o, free.value + 1) := Unique(e.item, e.instance.value, e.durability, e.durabilityMax)];
        ok := true;
      } else {
        var outcome := AddItemsAtomic(o, e.item, e.quantity);
        ok := outcome.Ok?;
      }
    }

    /** moveOfferToEscrow: phase 1 on the offerer's slots, then phase 2; what phase 2 wrote is committed
        even when it comes up short. */
    method MoveOfferToEscrow(g: string, sid: SessionId, u: UserId, offs: seq<Offer>) returns (ok: bool)
      modifies this
      ensures var m := EscrowCommit(old(rows), cat, g, sid, u, offs);
        ok == m.ok && rows == m.rows && escrow == old(escrow) + m.added
      ensures nextId == old(nextId) && sessions == old(sessions) && offers == old(offers)
    {
      var o := Owner(g, u);
      var v := Snapshot(rows, o, SlotsTotal);
      var pre := CheckOffers(v, cat, offs);
      if pre.Err? {
        if Provisioned(rows, o, SlotsTotal) {
          WriteBackView(rows, o, SlotsTotal);
        }
        return false;
      }
      var m := MoveAll(v, cat, sid, u, offs);
      if Provisioned(rows, o, SlotsTotal) {
        rows := WriteBack(rows, o, m.slots);
      }
      escrow := escrow + m.rows;
      ok := m.ok;
    }

    /** deliverEscrowTo: the rows user `from` escrowed in the session, checked for room with the receiver,
        then inserted one by one; the first failure ends the loop and what was written stays. */
    method DeliverEscrowTo(g: string, sid: SessionId, to: UserId, from: UserId) returns (ok: bool)
      modifies this
      ensures Delivery(ok, rows, nextId) == Deliver(old(rows), cat, old(nextId), Owner(g, to), FromUser(OfSession(old(escrow), sid), from))
      ensures sessions == old(sessions) && offers == old(offers) && escrow == old(escrow)
    {
      var o := Owner(g, to);
      var es := FromUser(OfSession(escrow, sid), from);
      var lines := IncomingLines(es);
      EnsureSlots(o);
      var fits := SimulateReceive(View(rows, o, SlotsTotal), lines, cat);
      if !fits {
        return false;
      }
      ghost var start, startNext := rows, nextId;
      var i := 0;
      while i < |es|
        invariant 0 <= i <= |es| && escrow == old(escrow) && sessions == old(sessions) && offers == old(offers)
        invariant PutAll(start, cat, startNext, o, es) == PutAll(rows, cat, nextId, o, es[i..])
      {
        assert es[i..][0] == es[i] && es[i..][1..] == es[i + 1..];
        var placed := PlaceRow(o, es[i]);
        if !placed {
          return false;
        }
        i := i + 1;
      }
      ok := true;
    }

    /** rollbackEscrowToOwners: every row of the session back to the user who escrowed it, then the session's
        escrow deleted, in one transaction; a row that cannot be placed throws, and the throw undoes it all. */
    method RollbackEscrowToOwners(g: string, sid: SessionId) returns (ok: bool)
      modifies this
      ensures var d := Rollback(old(rows), cat, old(nextId), g, OfSession(old(escrow), sid));
        ok == d.ok && rows == d.rows && nextId == d.next &&
        escrow == (if d.ok then WithoutSession(old(escrow), sid) else old(escrow))
      ensures sessions == old(sessions) && offers == old(offers)
    {
      var es := OfSession(escrow, sid);
      var saved, savedNext := rows, nextId;
      var i := 0;
      while i < |es|
        invariant 0 <= i <= |es| && escrow == old(escrow) && sessions == old(sessions) && offers == old(offers)
        invariant RestoreAll(saved, cat, savedNext, g, es) == RestoreAll(rows, cat, nextId, g, es[i..])
      {
        assert es[i..][0] == es[i] && es[i..][1..] == es[i + 1..];
        var e := es[i];
        if !(e.instance.None? && e.quantity <= 0) {
          var placed := PlaceRow(Owner(g, e.from), e);
          if !placed {
            rows, nextId := saved, savedNext;
            return false;
          }
        }
        i := i + 1;
      }
      escrow := WithoutSession(escrow, sid);
      ok := true;
    }

    /** The lock of trade-ready: both parties' offers to escrow, the second move run whatever the first
        answered; when either fails the whole session's escrow is rolled back. */
    method LockOffers(g: string, sid: SessionId, a: UserId, b: UserId) returns (ok: bool, restored: bool)
      modifies this
      ensures LockOutcome(ok, rows, nextId, escrow, restored) == Lock(old(rows), cat, old(nextId), old(escrow), g, sid, a, b, offers)
      ensures sessions == old(sessions) && offers == old(offers)
    {
      var okA := MoveOfferToEscrow(g, sid, a, PartyOffers(offers, sid, a));
      var okB := MoveOfferToEscrow(g, sid, b, PartyOffers(offers, sid, b));
      ok, restored := okA && okB, false;
      if !ok {
        restored := RollbackEscrowToOwners(g, sid);
      }
    }

    /** The finalize of trade-confirm, as intended: both deliveries, undone together when either fails,
        then the rollback from the table as it was. */
    method FinalizeSession(g: string, sid: SessionId, a: UserId, b: UserId) returns (status: Status)
      modifies this
      ensures Finale(rows, nextId, escrow, status) == Finalize(old(rows), cat, old(nextId), g, sid, a, b, old(escrow))
      ensures sessions == old(sessions) && offers == old(offers)
    {
      var saved, savedNext := rows, nextId;
      var okA := DeliverEscrowTo(g, sid, a, b);
      var okB := DeliverEscrowTo(g, sid, b, a);
      if okA && okB {
        escrow := WithoutSession(escrow, sid);
        return Finalized;
      }
      rows, nextId := saved, savedNext;
      var back := RollbackEscrowToOwners(g, sid);
      status := if back then Cancelled else Locked;
    }

    // -------------------------------------------------------------------------
    // The handlers

    method TradeOpen(g: string, caller: UserId, other: UserId) returns (reply: Reply)
      requires Valid()
      modifies this
      ensures (State(), reply) == Open(old(State()), g, caller, other)
      ensures Valid() && Evolves(old(sessions), sessions)
    {
      OpenMeaning(State(), cat, g, caller, other);
      if other == caller {
        return Refused(SelfTrade);
      }
      if FindActive(sessions, g, caller).Some? {
        return Refused(CallerBusy);
      }
      if FindActive(sessions, g, other).Some? {
        return Refused(OtherBusy);
      }
      reply := Opened(|sessions|);
      sessions := sessions + [Session(g, caller, other, Created, false, false, false, false)];
    }

    method TradeOfferAdd(g: string, caller: UserId, explicit: Option<SessionId>, item: ItemId, qty: int)
      returns (reply: Reply)
      requires Valid()
      modifies this
      ensures (State(), reply) == OfferAdd(old(State()), cat, g, caller, explicit, item, qty)
      ensures Valid()
    {
      OfferAddMeaning(State(), cat, g, caller, explicit, item, qty);
      var p := Pick(sessions, g, caller, explicit);
      if p.None? {
        return Refused(NoSession);
      }
      if sessions[p.value].status != Created {
        return Refused(OffersFrozen);
      }
      if item !in cat {
        return Refused(NoSuchItem);
      }
      if qty <= 0 {
        return Refused(BadQuantity);
      }
      offers := Upsert(offers, p.value, caller, item, qty);
      reply := OfferSaved;
    }

    method TradeOfferRemove(g: string, caller: UserId, explicit: Option<SessionId>, item: ItemId, qty: int)
      returns (reply: Reply)
      requires Valid()
      modifies this
      ensures (State(), reply) == OfferDrop(old(State()), g, caller, explicit, item, qty)
      ensures Valid()
    {
      OfferDropMeaning(State(), cat, g, caller, explicit, item, qty);
      var p := Pick(sessions, g, caller, explicit);
      if p.None? {
        return Refused(NoSession);
      }
      if sessions[p.value].status != Created {
        return Refused(OffersFrozen);
      }
      offers := OfferRemove(offers, p.value, caller, item, qty);
      reply := OfferSaved;
    }

    method TradeReady(g: string, caller: UserId, explicit: Option<SessionId>) returns (reply: Reply)
      requires Valid()
      modifies this
      ensures (State(), reply) == Ready(old(State()), cat, g, caller, explicit)
      ensures Valid() && Evolves(old(sessions), sessions)
    {
      ghost var t0 := State();
      reply := ReadyStep(g, caller, explicit);
      ReadyKeeps(t0, cat, g, caller, explicit);
    }

    /** The steps of trade-ready, without the invariant. */
    method ReadyStep(g: string, caller: UserId, explicit: Option<SessionId>) returns (reply: Reply)
      modifies this
      ensures (State(), reply) == Ready(old(State()), cat, g, caller, explicit)
    {
      ghost var t0 := State();
      var p := Pick(sessions, g, caller, explicit);
      if p.None? {
        return Refused(NoSession);
      }
      var sid := p.value;
      var s := sessions[sid];
      if s.status != Created {
        return Refused(NotCreated);
      }
      var r := ReadyFlags(s, caller);
      sessions := sessions[sid := r];
      if !(r.aReady && r.bReady) {
        return Waiting;
      }
      reply := ReadyLock(t0, g, caller, explicit, sid, r);
    }

    /** The lock once both ready flags are set, and the session status it leaves. */
    method ReadyLock(ghost t0: Trades, g: string, caller: UserId, explicit: Option<SessionId>, sid: SessionId, r: Session)
      returns (reply: Reply)
      requires Pick(t0.sessions, g, caller, explicit) == Some(sid) && t0.sessions[sid].status == Created
      requires r == ReadyFlags(t0.sessions[sid], caller) && r.aReady && r.bReady
      requires State() == t0.(sessions := t0.sessions[sid := r])
      modifies this
      ensures (State(), reply) == Ready(t0, cat, g, caller, explicit)
    {
      ghost var l := Lock(rows, cat, nextId, escrow, g, sid, r.a, r.b, offers);
      var ok, restored := LockOffers(g, sid, r.a, r.b);
      assert ok == l.ok && restored == l.restored && rows == l.rows && nextId == l.next && escrow == l.escrow;
      if !ok {
        if !restored {
          reply := Unexpected;
        } else {
          sessions := sessions[sid := Reset(r)];
          reply := Refused(LockFailed);
        }
      } else {
        sessions := sessions[sid := r.(status := Locked)];
        reply := LockedIn;
      }
      ghost var s2 := if l.ok then r.(status := Locked) else if l.restored then Reset(r) else r;
      assert sessions == t0.sessions[sid := s2];
    }

    /** trade-confirm with finalize as intended: both deliveries are undone together before the rollback. */
    method TradeConfirm(g: string, caller: UserId, explicit: Option<SessionId>) returns (reply: Reply)
      requires Valid()
      modifies this
      ensures (State(), reply) == Confirm(old(State()), cat, g, caller, explicit)
      ensures Valid() && Evolves(old(sessions), sessions)
    {
      ConfirmKeeps(State(), cat, g, caller, explicit);
      ghost var after := Confirm(State(), cat, g, caller, explicit);
      var p := Pick(sessions, g, caller, explicit);
      if p.None? {
        reply := Refused(NoSession);
      } else if sessions[p.value].status != Locked {
        reply := Refused(NotLocked);
      } else {
        var sid := p.value;
        var r := ConfirmFlags(sessions[sid], caller);
        ghost var s0 := sessions;
        sessions := sessions[sid := r];
        if !(r.aConfirm && r.bConfirm) {
          reply := Waiting;
        } else {
          var status := FinalizeSession(g, sid, r.a, r.b);
          sessions := sessions[sid := r.(status := status)];
          assert sessions == s0[sid := r.(status := status)];
          reply := if status == Finalized then Completed else if status == Cancelled then Refused(FinalizeFailed) else Unexpected;
        }
      }
      assert (State(), reply) == after;
    }

    method TradeCancel(g: string, caller: UserId, explicit: Option<SessionId>) returns (reply: Reply)
      requires Valid()
      modifies this
      ensures (State(), reply) == Cancel(old(State()), cat, g, caller, explicit)
      ensures Valid() && Evolves(old(sessions), sessions)
    {
      CancelKeeps(State(), cat, g, caller, explicit);
      var p := Pick(sessions, g, caller, explicit);
      if p.None? {
        return Refused(NoSession);
      }
      var sid := p.value;
      var s := sessions[sid];
      if s.status == Finalized || s.status == Cancelled {
        return Refused(AlreadyClosed);
      }
      var back := RollbackEscrowToOwners(g, sid);
      if !back {
        return Unexpected;
      }
      sessions := sessions[sid := s.(status := Cancelled)];
      reply := Closed;
    }
  }
}
