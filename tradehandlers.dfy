/** The trade bot's slash-command handlers as steps on the bot's tables: trade-open, trade-offer-add,
    trade-offer-remove, trade-ready, trade-confirm and trade-cancel. Each step answers with a reply and
    the tables it leaves; ready and confirm run the lock and the finalize of the session protocol. */
module TradeHandlers {
  import opened Slots
  import opened MetroInventories
  import opened MetroTrades
  import DeliveryRoom

  /** Why a handler refused the command. */
  datatype Refusal =
    | SelfTrade        // trade-open with oneself
    | CallerBusy       // the caller already has an active session in the guild
    | OtherBusy        // so has the other user
    | NoSession        // no session found for the command
    | OffersFrozen     // offers change only while the session is CREATED
    | NoSuchItem
    | BadQuantity
    | NotCreated       // ready outside CREATED
    | NotLocked        // confirm outside LOCKED
    | AlreadyClosed    // cancel of a FINALIZED or CANCELLED session
    | LockFailed
    | FinalizeFailed

  datatype Reply =
    | Opened(sid: SessionId)
    | OfferSaved
    | Waiting          // this side is ready or has confirmed; the other has not
    | LockedIn
    | Completed
    | Closed
    | Refused(why: Refusal)
    | Unexpected       // a rollback threw; the handler's catch answers

  /** The bot's tables: inventory slots, the fresh-id supply, sessions, offers and escrow. */
  datatype Trades = Trades(rows: Rows, next: InstanceId, sessions: seq<Session>, offers: seq<Offer>, escrow: seq<Escrow>)

  // ---------------------------------------------------------------------------
  // What the tables keep

  /** At most one active session per user and guild. */
  predicate OneActive(sessions: seq<Session>)
  {
    forall i, k :: 0 <= i < k < |sessions| && Active(sessions[i]) && Active(sessions[k]) && sessions[i].guild == sessions[k].guild ==>
      sessions[i].a != sessions[k].a && sessions[i].a != sessions[k].b &&
      sessions[i].b != sessions[k].a && sessions[i].b != sessions[k].b
  }

  predicate PartiesDistinct(sessions: seq<Session>)
  {
    forall k :: 0 <= k < |sessions| ==> sessions[k].a != sessions[k].b
  }

  /** An escrow row belongs to an existing LOCKED session and to one of its two parties: only a lock that
      goes through leaves rows in escrow, and finalize and cancel delete them when they close the session. */
  predicate Owned(sessions: seq<Session>, e: Escrow)
  {
    e.session < |sessions| && sessions[e.session].status == Locked &&
    (e.from == sessions[e.session].a || e.from == sessions[e.session].b)
  }

  ghost predicate TradesValid(t: Trades, cat: Catalog)
  {
    WellKeyed(t.rows, SlotsTotal) && RowsConform(t.rows, cat) &&
    KeysUnique(t.offers) && OffersPositive(t.offers) &&
    AllShaped(t.escrow, cat) && (forall e :: e in t.escrow ==> Owned(t.sessions, e)) &&
    PartiesDistinct(t.sessions) && OneActive(t.sessions)
  }

  /** The status changes the protocol allows. */
  predicate Legal(before: Status, after: Status)
  {
    after == before ||
    (before == Created && after == Locked) ||
    (before == Locked && after == Finalized) ||
    ((before == Created || before == Locked) && after == Cancelled)
  }

  /** How a handler may change the sessions table: existing sessions keep guild and parties and move only along
      legal status changes; new sessions start CREATED. */
  predicate Evolves(before: seq<Session>, after: seq<Session>)
  {
    |before| <= |after| &&
    (forall k :: 0 <= k < |before| ==>
      after[k].guild == before[k].guild && after[k].a == before[k].a && after[k].b == before[k].b &&
      Legal(before[k].status, after[k].status)) &&
    (forall k :: |before| <= k < |after| ==> after[k].status == Created)
  }

  // ---------------------------------------------------------------------------
  // The handlers

  /** trade-open: no self-trade, and neither user may already have an active session in the guild. */
  function Open(t: Trades, g: string, caller: UserId, other: UserId): (Trades, Reply)
  {
    if other == caller then (t, Refused(SelfTrade))
    else if FindActive(t.sessions, g, caller).Some? then (t, Refused(CallerBusy))
    else if FindActive(t.sessions, g, other).Some? then (t, Refused(OtherBusy))
    else (t.(sessions := t.sessions + [Session(g, caller, other, Created, false, false, false, false)]), Opened(|t.sessions|))
  }

  /** trade-offer-add: the session must be CREATED, the item known and the quantity positive. */
  function OfferAdd(t: Trades, cat: Catalog, g: string, caller: UserId, explicit: Option<SessionId>,
                    item: ItemId, qty: int): (Trades, Reply)
  {
    match Pick(t.sessions, g, caller, explicit)
    case None => (t, Refused(NoSession))
    case Some(sid) =>
      if t.sessions[sid].status != Created then (t, Refused(OffersFrozen))
      else if item !in cat then (t, Refused(NoSuchItem))
      else if qty <= 0 then (t, Refused(BadQuantity))
      else (t.(offers := Upsert(t.offers, sid, caller, item, qty)), OfferSaved)
  }

  /** trade-offer-remove: the session must be CREATED; the quantity is not checked. */
  function OfferDrop(t: Trades, g: string, caller: UserId, explicit: Option<SessionId>,
                     item: ItemId, qty: int): (Trades, Reply)
  {
    match Pick(t.sessions, g, caller, explicit)
    case None => (t, Refused(NoSession))
    case Some(sid) =>
      if t.sessions[sid].status != Created then (t, Refused(OffersFrozen))
      else (t.(offers := OfferRemove(t.offers, sid, caller, item, qty)), OfferSaved)
  }

  /** qResetReadyAndConfirm. */
  function Reset(s: Session): Session
  {
    s.(aReady := false, bReady := false, aConfirm := false, bConfirm := false)
  }

  /** trade-ready: in CREATED the caller's flag is set; once both are set the lock runs. A lock that goes through
      makes the session LOCKED, a failed one whose rollback goes through resets the flags, and a rollback that
      throws leaves the flags set. */
  function Ready(t: Trades, cat: Catalog, g: string, caller: UserId, explicit: Option<SessionId>): (Trades, Reply)
  {
    match Pick(t.sessions, g, caller, explicit)
    case None => (t, Refused(NoSession))
    case Some(sid) =>
      var s := t.sessions[sid];
      if s.status != Created then (t, Refused(NotCreated))
      else
        var r := ReadyFlags(s, caller);
        if !(r.aReady && r.bReady) then (t.(sessions := t.sessions[sid := r]), Waiting)
        else
          var l := Lock(t.rows, cat, t.next, t.escrow, g, sid, r.a, r.b, t.offers);
          var s2 := if l.ok then r.(status := Locked) else if l.restored then Reset(r) else r;
          (Trades(l.rows, l.next, t.sessions[sid := s2], t.offers, l.escrow),
           if l.ok then LockedIn else if l.restored then Refused(LockFailed) else Unexpected)
  }

  /** trade-confirm, as intended: in LOCKED the caller's own flag is set; once both are set finalize runs, with
      both deliveries undone together when either fails. */
  function Confirm(t: Trades, cat: Catalog, g: string, caller: UserId, explicit: Option<SessionId>): (Trades, Reply)
  {
    match Pick(t.sessions, g, caller, explicit)
    case None => (t, Refused(NoSession))
    case Some(sid) =>
      var s := t.sessions[sid];
      if s.status != Locked then (t, Refused(NotLocked))
      else
        var r := ConfirmFlags(s, caller);
        if !(r.aConfirm && r.bConfirm) then (t.(sessions := t.sessions[sid := r]), Waiting)
        else
          var f := Finalize(t.rows, cat, t.next, g, sid, r.a, r.b, t.escrow);
          (Trades(f.rows, f.next, t.sessions[sid := r.(status := f.status)], t.offers, f.escrow),
           if f.status == Finalized then Completed else if f.status == Cancelled then Refused(FinalizeFailed) else Unexpected)
  }

  /** trade-confirm as written: qConfirm receives both party ids, so any confirm on a LOCKED session sets both
      flags, and finalize runs the two deliveries as separate transactions before the rollback. */
  function ConfirmAsWritten(t: Trades, cat: Catalog, g: string, caller: UserId, explicit: Option<SessionId>): (Trades, Reply)
  {
    match Pick(t.sessions, g, caller, explicit)
    case None => (t, Refused(NoSession))
    case Some(sid) =>
      var s := t.sessions[sid];
      if s.status != Locked then (t, Refused(NotLocked))
      else
        var r := ConfirmFlagsAsWritten(s, caller);
        if !(r.aConfirm && r.bConfirm) then (t.(sessions := t.sessions[sid := r]), Waiting)
        else
          var f := FinalizeAsWritten(t.rows, cat, t.next, g, sid, r.a, r.b, t.escrow);
          (Trades(f.rows, f.next, t.sessions[sid := r.(status := f.status)], t.offers, f.escrow),
           if f.status == Finalized then Completed else if f.status == Cancelled then Refused(FinalizeFailed) else Unexpected)
  }

  /** trade-cancel: refused on a closed session; otherwise the escrow goes back and the session is CANCELLED. */
  function Cancel(t: Trades, cat: Catalog, g: string, caller: UserId, explicit: Option<SessionId>): (Trades, Reply)
  {
    match Pick(t.sessions, g, caller, explicit)
    case None => (t, Refused(NoSession))
    case Some(sid) =>
      var s := t.sessions[sid];
      if s.status == Finalized || s.status == Cancelled then (t, Refused(AlreadyClosed))
      else
        var r := Rollback(t.rows, cat, t.next, g, OfSession(t.escrow, sid));
        if r.ok then (Trades(r.rows, r.next, t.sessions[sid := s.(status := Cancelled)], t.offers, WithoutSession(t.escrow, sid)), Closed)
        else (t, Unexpected)
  }

  // ---------------------------------------------------------------------------
  // Facts about the tables

  /** The session picked for a command is an existing one. */
  lemma PickInRange(t: Trades, g: string, caller: UserId, explicit: Option<SessionId>)
    ensures var p := Pick(t.sessions, g, caller, explicit); p.Some? ==> p.value < |t.sessions|
  {
  }

  /** In valid tables the escrow rows of a session come from its two parties. */
  lemma SessionRowsFromParties(t: Trades, cat: Catalog, sid: SessionId)
    requires TradesValid(t, cat) && sid < |t.sessions|
    ensures FromParties(OfSession(t.escrow, sid), t.sessions[sid].a, t.sessions[sid].b)
  {
    var es := OfSession(t.escrow, sid);
    forall k | 0 <= k < |es| ensures es[k].from == t.sessions[sid].a || es[k].from == t.sessions[sid].b {
      assert es[k] in es;
      assert Owned(t.sessions, es[k]);
    }
  }

  /** Changing one session's flags or status without changing its guild and parties, and without turning a
      closed session active, keeps at most one active session per user. */
  lemma OneActiveUpdate(sessions: seq<Session>, sid: nat, s2: Session)
    requires OneActive(sessions) && sid < |sessions|
    requires s2.guild == sessions[sid].guild && s2.a == sessions[sid].a && s2.b == sessions[sid].b
    requires Active(s2) ==> Active(sessions[sid])
    ensures OneActive(sessions[sid := s2])
  {
    var n := sessions[sid := s2];
    forall i, k | 0 <= i < k < |n| && Active(n[i]) && Active(n[k]) && n[i].guild == n[k].guild
      ensures n[i].a != n[k].a && n[i].a != n[k].b && n[i].b != n[k].a && n[i].b != n[k].b
    {
      assert Active(sessions[i]) && Active(sessions[k]);
    }
  }

  /** A step that changes session sid to s2 and the escrow table to escrow2 keeps every escrow row owned, when
      the rows of sid it leaves are rows of s2's parties while s2 is LOCKED, and every other row was there before. */
  lemma OwnedUpdate(sessions: seq<Session>, sid: nat, s2: Session, escrow: seq<Escrow>, escrow2: seq<Escrow>)
    requires sid < |sessions| && forall e :: e in escrow ==> Owned(sessions, e)
    requires forall e :: e in escrow2 && e.session == sid ==> s2.status == Locked && (e.from == s2.a || e.from == s2.b)
    requires forall e :: e in escrow2 && e.session != sid ==> e in escrow
    ensures forall e :: e in escrow2 ==> Owned(sessions[sid := s2], e)
  {
    forall e | e in escrow2 ensures Owned(sessions[sid := s2], e) {
      if e.session != sid {
        assert Owned(sessions, e);
      }
    }
  }

  /** Rows kept from a table, or added as rows of session sid by its parties, once the session's rows are
      gathered in one list. */
  lemma SessionRowsOwned(escrow: seq<Escrow>, sid: SessionId, a: UserId, b: UserId)
    requires FromParties(OfSession(escrow, sid), a, b)
    ensures forall e :: e in escrow && e.session == sid ==> e.from == a || e.from == b
  {
    var es := OfSession(escrow, sid);
    forall e | e in escrow && e.session == sid ensures e.from == a || e.from == b {
      assert e in es;
      var k :| 0 <= k < |es| && es[k] == e;
    }
  }

  // ---------------------------------------------------------------------------
  // What the handlers promise

  /** trade-open opens a session exactly when the two users differ and neither has an active session in the
      guild; the new session is CREATED with every flag clear, and nothing else changes. The tables stay valid,
      in particular at most one active session per user. */
  lemma OpenMeaning(t: Trades, cat: Catalog, g: string, caller: UserId, other: UserId)
    requires TradesValid(t, cat)
    ensures var (t2, rep) := Open(t, g, caller, other);
      (rep.Opened? <==> caller != other && FindActive(t.sessions, g, caller).None? && FindActive(t.sessions, g, other).None?) &&
      (rep.Opened? ==> rep.sid == |t.sessions| && t2.sessions == t.sessions + [Session(g, caller, other, Created, false, false, false, false)] &&
                       t2.rows == t.rows && t2.offers == t.offers && t2.escrow == t.escrow) &&
      (!rep.Opened? ==> t2 == t) &&
      TradesValid(t2, cat) && Evolves(t.sessions, t2.sessions)
  {
    var (t2, rep) := Open(t, g, caller, other);
    if rep.Opened? {
      var n := t2.sessions;
      var x := n[|t.sessions|];
      forall i, k | 0 <= i < k < |n| && Active(n[i]) && Active(n[k]) && n[i].guild == n[k].guild
        ensures n[i].a != n[k].a && n[i].a != n[k].b && n[i].b != n[k].a && n[i].b != n[k].b
      {
        if k == |t.sessions| {
          assert n[i] == t.sessions[i];
          assert !Involves(t.sessions[i], g, caller) && !Involves(t.sessions[i], g, other);
        } else {
          assert n[i] == t.sessions[i] && n[k] == t.sessions[k];
        }
      }
      forall e | e in t2.escrow ensures Owned(n, e) {
        assert Owned(t.sessions, e);
        assert n[e.session] == t.sessions[e.session];
      }
    }
  }

  /** trade-offer-add changes only the offers, and only on a CREATED session with a known item and a positive
      quantity: the caller's offered quantity of the item grows by qty, every other offer stays as it was. */
  lemma OfferAddMeaning(t: Trades, cat: Catalog, g: string, caller: UserId, explicit: Option<SessionId>, item: ItemId, qty: int)
    requires TradesValid(t, cat)
    ensures var (t2, rep) := OfferAdd(t, cat, g, caller, explicit, item, qty); var p := Pick(t.sessions, g, caller, explicit);
      (rep == OfferSaved <==> p.Some? && t.sessions[p.value].status == Created && item in cat && qty > 0) &&
      (rep == OfferSaved ==>
        OfferQty(t2.offers, p.value, caller, item) == OfferQty(t.offers, p.value, caller, item) + qty &&
        (forall s2, u2, i2 :: !(s2 == p.value && u2 == caller && i2 == item) ==>
          OfferQty(t2.offers, s2, u2, i2) == OfferQty(t.offers, s2, u2, i2))) &&
      (rep != OfferSaved ==> t2 == t) &&
      t2.rows == t.rows && t2.escrow == t.escrow && t2.sessions == t.sessions && t2.next == t.next &&
      TradesValid(t2, cat)
  {
    var p := Pick(t.sessions, g, caller, explicit);
    if p.Some? {
      UpsertMeaning(t.offers, p.value, caller, item, qty);
    }
  }

  /** trade-offer-remove changes only the offers, and only on a CREATED session: the caller's offered quantity
      of the item falls by qty and the row goes once it is no longer positive; every other offer stays. */
  lemma OfferDropMeaning(t: Trades, cat: Catalog, g: string, caller: UserId, explicit: Option<SessionId>, item: ItemId, qty: int)
    requires TradesValid(t, cat)
    ensures var (t2, rep) := OfferDrop(t, g, caller, explicit, item, qty); var p := Pick(t.sessions, g, caller, explicit);
      (rep == OfferSaved <==> p.Some? && t.sessions[p.value].status == Created) &&
      (rep == OfferSaved ==>
        var before := OfferQty(t.offers, p.value, caller, item);
        OfferQty(t2.offers, p.value, caller, item) ==
          (if HasOffer(t.offers, p.value, caller, item) && before - qty > 0 then before - qty else 0) &&
        (forall s2, u2, i2 :: !(s2 == p.value && u2 == caller && i2 == item) ==>
          OfferQty(t2.offers, s2, u2, i2) == OfferQty(t.offers, s2, u2, i2))) &&
      (rep != OfferSaved ==> t2 == t) &&
      t2.rows == t.rows && t2.escrow == t.escrow && t2.sessions == t.sessions && t2.next == t.next &&
      TradesValid(t2, cat)
  {
    var p := Pick(t.sessions, g, caller, explicit);
    if p.Some? {
      OfferRemoveMeaning(t.offers, p.value, caller, item, qty);
    }
  }

  /** A step that rewrites the slots and escrow and changes one active session in place keeps the tables valid,
      when the session's escrow rows still come from its parties, it keeps escrow only if it is LOCKED, and every
      other session's rows are untouched. */
  lemma StepKeeps(t: Trades, cat: Catalog, sid: SessionId, s2: Session, rows2: Rows, next2: InstanceId, escrow2: seq<Escrow>)
    requires TradesValid(t, cat) && sid < |t.sessions|
    requires s2.guild == t.sessions[sid].guild && s2.a == t.sessions[sid].a && s2.b == t.sessions[sid].b
    requires Active(s2) && Active(t.sessions[sid])
    requires WellKeyed(rows2, SlotsTotal) && RowsConform(rows2, cat) && AllShaped(escrow2, cat)
    requires FromParties(OfSession(escrow2, sid), s2.a, s2.b) && (OfSession(escrow2, sid) == [] || s2.status == Locked)
    requires forall x :: x != sid ==> OfSession(escrow2, x) == OfSession(t.escrow, x)
    ensures TradesValid(Trades(rows2, next2, t.sessions[sid := s2], t.offers, escrow2), cat)
  {
    OneActiveUpdate(t.sessions, sid, s2);
    SessionRowsOwned(escrow2, sid, s2.a, s2.b);
    forall e | e in escrow2 && e.session == sid ensures s2.status == Locked {
      assert e in OfSession(escrow2, sid);
    }
    forall e | e in escrow2 && e.session != sid ensures e in t.escrow {
      assert e in OfSession(escrow2, e.session);
    }
    OwnedUpdate(t.sessions, sid, s2, t.escrow, escrow2);
  }

  /** trade-ready keeps the tables valid, changes sessions only along legal steps, and never touches offers. */
  lemma ReadyKeeps(t: Trades, cat: Catalog, g: string, caller: UserId, explicit: Option<SessionId>)
    requires TradesValid(t, cat)
    ensures var (t2, rep) := Ready(t, cat, g, caller, explicit);
      TradesValid(t2, cat) && Evolves(t.sessions, t2.sessions) && t2.offers == t.offers
  {
    var p := Pick(t.sessions, g, caller, explicit);
    if p.Some? && t.sessions[p.value].status == Created {
      var sid := p.value;
      var r := ReadyFlags(t.sessions[sid], caller);
      if r.aReady && r.bReady {
        LockKeeps(t, cat, g, sid, r);
      } else {
        OneActiveUpdate(t.sessions, sid, r);
        OwnedUpdate(t.sessions, sid, r, t.escrow, t.escrow);
        EvolvesUpdate(t.sessions, sid, r);
      }
    }
  }

  /** A session that is not LOCKED has no escrow rows. */
  lemma NoEscrowUnlocked(t: Trades, cat: Catalog, sid: SessionId)
    requires TradesValid(t, cat) && sid < |t.sessions| && t.sessions[sid].status != Locked
    ensures OfSession(t.escrow, sid) == []
  {
    NoRowsOf(t.escrow, sid);
  }

  lemma {:induction false} NoRowsOf(es: seq<Escrow>, sid: SessionId)
    requires forall e :: e in es ==> e.session != sid
    ensures OfSession(es, sid) == []
  {
    if es != [] {
      assert es[0] in es;
      assert forall e :: e in es[1..] ==> e in es;
      NoRowsOf(es[1..], sid);
    }
  }

  /** The lock step of trade-ready keeps the tables valid. */
  lemma LockKeeps(t: Trades, cat: Catalog, g: string, sid: SessionId, r: Session)
    requires TradesValid(t, cat) && sid < |t.sessions| && t.sessions[sid].status == Created
    requires r == t.sessions[sid].(aReady := r.aReady, bReady := r.bReady)
    ensures var l := Lock(t.rows, cat, t.next, t.escrow, g, sid, r.a, r.b, t.offers);
      var s2 := if l.ok then r.(status := Locked) else if l.restored then Reset(r) else r;
      TradesValid(Trades(l.rows, l.next, t.sessions[sid := s2], t.offers, l.escrow), cat) &&
      Evolves(t.sessions, t.sessions[sid := s2])
  {
    var l := Lock(t.rows, cat, t.next, t.escrow, g, sid, r.a, r.b, t.offers);
    var s2 := if l.ok then r.(status := Locked) else if l.restored then Reset(r) else r;
    SessionRowsFromParties(t, cat, sid);
    LockMeaning(t.rows, cat, t.next, t.escrow, g, sid, r.a, r.b, t.offers, "");
    NoEscrowUnlocked(t, cat, sid);
    DeliveryRoom.LockRestores(t.rows, cat, t.next, t.escrow, g, sid, r.a, r.b, t.offers);
    StepKeeps(t, cat, sid, s2, l.rows, l.next, l.escrow);
    EvolvesUpdate(t.sessions, sid, s2);
  }

  /** Changing one session along a legal status step, keeping its guild and parties, is an evolution. */
  lemma EvolvesUpdate(sessions: seq<Session>, sid: nat, s2: Session)
    requires sid < |sessions| && Legal(sessions[sid].status, s2.status)
    requires s2.guild == sessions[sid].guild && s2.a == sessions[sid].a && s2.b == sessions[sid].b
    ensures Evolves(sessions, sessions[sid := s2])
  {
  }

  /** Once both ready flags are set, the lock goes through exactly when both parties hold their offers; it is
      sound (LockSound: the parties and the session's escrow together keep their holdings, nobody else is
      touched); a lock that goes through makes the session LOCKED, and a failed one leaves it CREATED with every
      flag reset and without escrow: its rollback always goes through, since a CREATED session holds no escrow
      and the lock's own moves freed the room (DeliveryRoom.LockRestores). Otherwise nothing but the flags
      changes. */
  lemma ReadyLocks(t: Trades, cat: Catalog, g: string, caller: UserId, explicit: Option<SessionId>, j: ItemId)
    requires TradesValid(t, cat)
    ensures var (t2, rep) := Ready(t, cat, g, caller, explicit); var p := Pick(t.sessions, g, caller, explicit);
      (p.None? || t.sessions[p.value].status != Created ==> t2 == t && rep.Refused?) &&
      (p.Some? && t.sessions[p.value].status == Created ==>
        var sid := p.value; var r := ReadyFlags(t.sessions[sid], caller);
        var oa, ob := Owner(g, r.a), Owner(g, r.b);
        (!(r.aReady && r.bReady) ==> rep == Waiting && t2 == t.(sessions := t.sessions[sid := r])) &&
        (r.aReady && r.bReady ==>
          var l := Lock(t.rows, cat, t.next, t.escrow, g, sid, r.a, r.b, t.offers);
          (rep == LockedIn <==>
            Precheck(Snapshot(t.rows, oa, SlotsTotal), cat, PartyOffers(t.offers, sid, r.a)).Ok? &&
            Precheck(Snapshot(t.rows, ob, SlotsTotal), cat, PartyOffers(t.offers, sid, r.b)).Ok?) &&
          LockSound(t.rows, cat, t.next, t.escrow, l, g, sid, r.a, r.b, t.offers, j) &&
          t2.rows == l.rows && t2.escrow == l.escrow &&
          (rep == LockedIn ==> t2.sessions[sid].status == Locked) &&
          (rep == Refused(LockFailed) ==> t2.sessions[sid] == Reset(r) && OfSession(t2.escrow, sid) == []) &&
          rep != Unexpected))
  {
    var p := Pick(t.sessions, g, caller, explicit);
    if p.Some? && t.sessions[p.value].status == Created {
      var sid := p.value;
      var r := ReadyFlags(t.sessions[sid], caller);
      if r.aReady && r.bReady {
        SessionRowsFromParties(t, cat, sid);
        LockMeaning(t.rows, cat, t.next, t.escrow, g, sid, r.a, r.b, t.offers, j);
        NoEscrowUnlocked(t, cat, sid);
        DeliveryRoom.LockRestores(t.rows, cat, t.next, t.escrow, g, sid, r.a, r.b, t.offers);
      }
    }
  }

  /** trade-confirm keeps the tables valid, changes sessions only along legal steps, and never touches offers. */
  lemma ConfirmKeeps(t: Trades, cat: Catalog, g: string, caller: UserId, explicit: Option<SessionId>)
    ensures var (t2, rep) := Confirm(t, cat, g, caller, explicit);
      TradesValid(t, cat) ==> TradesValid(t2, cat) && Evolves(t.sessions, t2.sessions) && t2.offers == t.offers
  {
    var p := Pick(t.sessions, g, caller, explicit);
    if TradesValid(t, cat) && p.Some? && t.sessions[p.value].status == Locked {
      var sid := p.value;
      var s := t.sessions[sid];
      var r := ConfirmFlags(s, caller);
      if r.aConfirm && r.bConfirm {
        FinalizeKeeps(t, cat, g, sid, r);
      } else {
        OneActiveUpdate(t.sessions, sid, r);
        OwnedUpdate(t.sessions, sid, r, t.escrow, t.escrow);
        EvolvesUpdate(t.sessions, sid, r);
      }
    }
  }

  /** The finalize step of trade-confirm keeps the tables valid. */
  lemma FinalizeKeeps(t: Trades, cat: Catalog, g: string, sid: SessionId, r: Session)
    requires TradesValid(t, cat) && sid < |t.sessions| && t.sessions[sid].status == Locked
    requires r == t.sessions[sid].(aConfirm := r.aConfirm, bConfirm := r.bConfirm)
    ensures var f := Finalize(t.rows, cat, t.next, g, sid, r.a, r.b, t.escrow);
      TradesValid(Trades(f.rows, f.next, t.sessions[sid := r.(status := f.status)], t.offers, f.escrow), cat) &&
      Evolves(t.sessions, t.sessions[sid := r.(status := f.status)])
  {
    var f := Finalize(t.rows, cat, t.next, g, sid, r.a, r.b, t.escrow);
    FinalizeRows(t, cat, g, sid, r);
    FinalizeOwned(t, cat, g, sid, r);
    ValidAfter(t, cat, sid, r.(status := f.status), f.rows, f.next, f.escrow);
  }

  /** Tables whose rows and escrow are valid on their own, and whose one changed session keeps its parties and
      moves as the protocol allows, are valid tables that evolved from the old ones. */
  lemma ValidAfter(t: Trades, cat: Catalog, sid: SessionId, s2: Session, rows: Rows, next: InstanceId, escrow: seq<Escrow>)
    requires TradesValid(t, cat) && sid < |t.sessions|
    requires s2.guild == t.sessions[sid].guild && s2.a == t.sessions[sid].a && s2.b == t.sessions[sid].b
    requires Legal(t.sessions[sid].status, s2.status) && (Active(s2) ==> Active(t.sessions[sid]))
    requires WellKeyed(rows, SlotsTotal) && RowsConform(rows, cat) && AllShaped(escrow, cat)
    requires forall e :: e in escrow ==> Owned(t.sessions[sid := s2], e)
    ensures TradesValid(Trades(rows, next, t.sessions[sid := s2], t.offers, escrow), cat)
    ensures Evolves(t.sessions, t.sessions[sid := s2])
  {
    OneActiveUpdate(t.sessions, sid, s2);
    EvolvesUpdate(t.sessions, sid, s2);
  }

  /** Finalize leaves the slot table keyed and within the catalogue, and a status the protocol allows. */
  lemma FinalizeRows(t: Trades, cat: Catalog, g: string, sid: SessionId, r: Session)
    requires TradesValid(t, cat) && sid < |t.sessions| && t.sessions[sid].status == Locked
    requires r == t.sessions[sid].(aConfirm := r.aConfirm, bConfirm := r.bConfirm)
    ensures var f := Finalize(t.rows, cat, t.next, g, sid, r.a, r.b, t.escrow);
      WellKeyed(f.rows, SlotsTotal) && RowsConform(f.rows, cat) &&
      (f.status == Finalized || f.status == Cancelled || f.status == Locked)
  {
    SessionRowsFromParties(t, cat, sid);
    FinalizeConserves(t.rows, cat, t.next, g, sid, r.a, r.b, t.escrow, "");
  }

  /** After finalize, the escrow left is still well formed and owned by live sessions. */
  lemma FinalizeOwned(t: Trades, cat: Catalog, g: string, sid: SessionId, r: Session)
    requires TradesValid(t, cat) && sid < |t.sessions| && t.sessions[sid].status == Locked
    requires r == t.sessions[sid].(aConfirm := r.aConfirm, bConfirm := r.bConfirm)
    ensures var f := Finalize(t.rows, cat, t.next, g, sid, r.a, r.b, t.escrow);
      AllShaped(f.escrow, cat) && forall e :: e in f.escrow ==> Owned(t.sessions[sid := r.(status := f.status)], e)
  {
    var f := Finalize(t.rows, cat, t.next, g, sid, r.a, r.b, t.escrow);
    var s2 := r.(status := f.status);
    FinalizeEscrow(t.rows, cat, t.next, g, sid, r.a, r.b, t.escrow);
    if f.status == Locked {
      SessionRowsFromParties(t, cat, sid);
      SessionRowsOwned(t.escrow, sid, r.a, r.b);
    } else {
      ShapedSubset(f.escrow, t.escrow, cat);
    }
    OwnedUpdate(t.sessions, sid, s2, t.escrow, f.escrow);
  }

  /** Once both confirm flags are set (each party's own confirm is needed, ConfirmBothNeeded), finalize runs and
      is sound (FinaleSound): a FINALIZED session gave each party exactly what the other escrowed, a CANCELLED
      one gave each party back its own escrow, and the parties with the session's escrow keep their holdings. The
      session is FINALIZED exactly when each party has room, by the capacity check on the table as it was, for
      what the other escrowed. */
  lemma ConfirmFinalizes(t: Trades, cat: Catalog, g: string, caller: UserId, explicit: Option<SessionId>, j: ItemId)
    requires TradesValid(t, cat)
    ensures var (t2, rep) := Confirm(t, cat, g, caller, explicit); var p := Pick(t.sessions, g, caller, explicit);
      (p.None? || t.sessions[p.value].status != Locked ==> t2 == t && rep.Refused?) &&
      (p.Some? && t.sessions[p.value].status == Locked ==>
        var sid := p.value; var r := ConfirmFlags(t.sessions[sid], caller);
        (!(r.aConfirm && r.bConfirm) ==> rep == Waiting && t2 == t.(sessions := t.sessions[sid := r])) &&
        (r.aConfirm && r.bConfirm ==>
          FinaleSound(t.rows, cat, t.next, t.escrow, Finale(t2.rows, t2.next, t2.escrow, t2.sessions[sid].status), g, sid, r.a, r.b, j) &&
          (rep == Completed <==> t2.sessions[sid].status == Finalized) &&
          (rep == Completed <==>
            var es := OfSession(t.escrow, sid);
            Fits(t.rows, cat, Owner(g, r.a), FromUser(es, r.b)) && Fits(t.rows, cat, Owner(g, r.b), FromUser(es, r.a))) &&
          (rep == Refused(FinalizeFailed) <==> t2.sessions[sid].status == Cancelled)))
  {
    var p := Pick(t.sessions, g, caller, explicit);
    if p.Some? && t.sessions[p.value].status == Locked {
      var sid := p.value;
      var r := ConfirmFlags(t.sessions[sid], caller);
      if r.aConfirm && r.bConfirm {
        SessionRowsFromParties(t, cat, sid);
        FinalizeConserves(t.rows, cat, t.next, g, sid, r.a, r.b, t.escrow, j);
        DeliveryRoom.FinalizeFits(t.rows, cat, t.next, g, sid, r.a, r.b, t.escrow);
      }
    }
  }

  /** The confirm handler as written never waits: a single confirm on a LOCKED session, by either party or by
      anybody else, runs finalize at once. The trade then completes exactly when each party passes the capacity
      check for the other's escrow rows; a refused session or a status other than LOCKED changes nothing. */
  lemma ConfirmAsWrittenMeaning(t: Trades, cat: Catalog, g: string, caller: UserId, explicit: Option<SessionId>)
    requires TradesValid(t, cat)
    ensures var (t2, rep) := ConfirmAsWritten(t, cat, g, caller, explicit); var p := Pick(t.sessions, g, caller, explicit);
      (p.None? || t.sessions[p.value].status != Locked ==> t2 == t && rep.Refused?) &&
      (p.Some? && t.sessions[p.value].status == Locked ==>
        var s := t.sessions[p.value];
        rep != Waiting && t2.offers == t.offers &&
        t2.sessions[p.value] == s.(aConfirm := true, bConfirm := true, status := t2.sessions[p.value].status) &&
        (rep == Completed <==> t2.sessions[p.value].status == Finalized) &&
        (rep == Completed <==>
          var es := OfSession(t.escrow, p.value);
          Fits(t.rows, cat, Owner(g, s.a), FromUser(es, s.b)) && Fits(t.rows, cat, Owner(g, s.b), FromUser(es, s.a))))
  {
    var p := Pick(t.sessions, g, caller, explicit);
    if p.Some? && t.sessions[p.value].status == Locked {
      var s := t.sessions[p.value];
      ConfirmAsWrittenCompletes(s, caller);
      SessionFinalizeFits(t, cat, g, p.value);
    }
  }

  /** On valid tables, finalize of a session, as written or as intended, ends FINALIZED exactly when each party
      passes the capacity check for the other's escrow rows. */
  lemma SessionFinalizeFits(t: Trades, cat: Catalog, g: string, sid: SessionId)
    ensures TradesValid(t, cat) && sid < |t.sessions| ==>
      var s := t.sessions[sid]; var es := OfSession(t.escrow, sid);
      var fits := Fits(t.rows, cat, Owner(g, s.a), FromUser(es, s.b)) && Fits(t.rows, cat, Owner(g, s.b), FromUser(es, s.a));
      (Finalize(t.rows, cat, t.next, g, sid, s.a, s.b, t.escrow).status == Finalized <==> fits) &&
      (FinalizeAsWritten(t.rows, cat, t.next, g, sid, s.a, s.b, t.escrow).status == Finalized <==> fits)
  {
    if TradesValid(t, cat) && sid < |t.sessions| {
      DeliveryRoom.FinalizeFits(t.rows, cat, t.next, g, sid, t.sessions[sid].a, t.sessions[sid].b, t.escrow);
    }
  }

  /** trade-cancel keeps the tables valid, changes sessions only along legal steps, and never touches offers. */
  lemma CancelKeeps(t: Trades, cat: Catalog, g: string, caller: UserId, explicit: Option<SessionId>)
    requires TradesValid(t, cat)
    ensures var (t2, rep) := Cancel(t, cat, g, caller, explicit);
      TradesValid(t2, cat) && Evolves(t.sessions, t2.sessions) && t2.offers == t.offers
  {
    var (t2, rep) := Cancel(t, cat, g, caller, explicit);
    var p := Pick(t.sessions, g, caller, explicit);
    if p.Some? && t.sessions[p.value].status != Finalized && t.sessions[p.value].status != Cancelled {
      var sid := p.value;
      var s := t.sessions[sid];
      var es := OfSession(t.escrow, sid);
      ShapedSubset(es, t.escrow, cat);
      var r := Rollback(t.rows, cat, t.next, g, es);
      RollbackMeaning(t.rows, cat, t.next, g, es, "");
      if r.ok {
        var s2 := s.(status := Cancelled);
        OneActiveUpdate(t.sessions, sid, s2);
        ShapedSubset(WithoutSession(t.escrow, sid), t.escrow, cat);
        OwnedUpdate(t.sessions, sid, s2, t.escrow, WithoutSession(t.escrow, sid));
      }
    }
  }

  /** A cancel that goes through hands every escrow row of the session back to the user who escrowed it, deletes
      the session's escrow and nothing else, and closes the session; one whose rollback throws changes nothing. */
  lemma CancelReturns(t: Trades, cat: Catalog, g: string, caller: UserId, explicit: Option<SessionId>, j: ItemId)
    requires TradesValid(t, cat)
    ensures var (t2, rep) := Cancel(t, cat, g, caller, explicit); var p := Pick(t.sessions, g, caller, explicit);
      (p.None? || t.sessions[p.value].status == Finalized || t.sessions[p.value].status == Cancelled ==>
        t2 == t && rep.Refused?) &&
      (rep == Unexpected ==> t2 == t) &&
      (rep == Closed ==>
        var sid := p.value; var es := OfSession(t.escrow, sid);
        t2.sessions == t.sessions[sid := t.sessions[sid].(status := Cancelled)] &&
        (forall o :: Units(t2.rows, o, j) == Units(t.rows, o, j) + (if o.guild == g then RowsUnits(FromUser(es, o.user), j) else 0)) &&
        OfSession(t2.escrow, sid) == [] &&
        (forall s2 :: s2 != sid ==> OfSession(t2.escrow, s2) == OfSession(t.escrow, s2)))
  {
    var p := Pick(t.sessions, g, caller, explicit);
    if p.Some? && t.sessions[p.value].status != Finalized && t.sessions[p.value].status != Cancelled {
      var sid := p.value;
      var es := OfSession(t.escrow, sid);
      ShapedSubset(es, t.escrow, cat);
      RollbackMeaning(t.rows, cat, t.next, g, es, j);
      SessionDropped(t.escrow, sid, j);
      forall s2 | s2 != sid ensures OfSession(WithoutSession(t.escrow, sid), s2) == OfSession(t.escrow, s2) {
        OfSessionWithout(t.escrow, sid, s2);
      }
    }
  }
}
