/**
 * The operations of service/EventRegistrationService.java over the database.
 * The caller (the authenticated user) and the clock reading `now` are
 * parameters. Every state-changing operation either succeeds or returns the
 * exception it throws and leaves the database as it was (the transaction
 * rolls back).
 *
 * The slot counter of an event is not tied to its registration rows: the
 * service increments it on register and decrements it on every cancel and
 * every reject, so the model keeps only the capacity invariant
 * `0 <= slotsFilled <= maxParticipants`, as the code does.
 */
module EventRegistrationService {
  import opened Wrappers
  import opened Time
  import opened Enums
  import opened Text
  import opened Errors
  import opened Users
  import opened Events
  import opened Registrations
  import opened Persistence
  import opened Paging
  import EventRules
  import EventService
  import EventRepository
  import Rows = EventRegistrationRepository

  /** dto/RegisterEventRequest.java */
  datatype RegisterEventRequest = RegisterEventRequest(
    teamName: Option<string>,
    additionalNotes: Option<string>,
    transactionId: Option<string>)
  {
    /** The @Size bounds: a team name of at most 100 characters, notes of at most 1000. */
    predicate Valid() {
      (teamName.Some? ==> |teamName.value| <= 100)
      && (additionalNotes.Some? ==> |additionalNotes.value| <= 1000)
    }

    /** A transaction id that is neither null nor empty. */
    predicate HasTransactionId() {
      transactionId.Some? && transactionId.value != []
    }
  }

  /** dto/RegistrationResponse.java, without the update timestamp. */
  datatype RegistrationResponse = RegistrationResponse(
    id: nat,
    eventKey: nat,
    eventName: string,
    userId: nat,
    username: string,
    userEmail: string,
    status: RegistrationStatus,
    teamName: Option<string>,
    additionalNotes: Option<string>,
    transactionId: Option<string>,
    amountPaid: Option<int>,
    paymentVerified: Option<bool>,
    registeredAt: DateTime)

  function RegistrationNotFoundMessage(id: nat): string {
    "Registration not found with id: " + Decimal(id)
  }

  /** registration.getEvent(): the stored event the row's foreign key names. */
  function EventOf(events: seq<Event>, row: Registration): (e: Event)
    requires EventRepository.IndexOfId(events, row.eventKey).Some?
    ensures e in events && e.id == row.eventKey
  {
    events[EventRepository.IndexOfId(events, row.eventKey).value]
  }

  /** registration.getUser(): the stored user the row's foreign key names. */
  function UserOf(users: seq<User>, row: Registration): (u: User)
    requires ExistsById(users, row.userId)
    ensures u in users && u.id == row.userId
  {
    users[IndexOfUser(users, row.userId).value]
  }

  /** mapToRegistrationResponse: the row's columns, with its event's name and its user's name and email. */
  function MapToRegistrationResponse(row: Registration, e: Event, u: User): (r: RegistrationResponse)
    reads e
    requires e.id == row.eventKey && u.id == row.userId
    ensures r.id == row.id && r.eventKey == row.eventKey && r.userId == row.userId && r.status == row.status
    ensures r.eventName == e.eventName && r.username == u.username && r.userEmail == u.email
    ensures r.teamName == row.teamName && r.additionalNotes == row.additionalNotes
    ensures r.transactionId == row.transactionId && r.amountPaid == row.amountPaid
    ensures r.paymentVerified == row.paymentVerified && r.registeredAt == row.registeredAt
  {
    RegistrationResponse(row.id, e.id, e.eventName, u.id, u.username, u.email, row.status,
                         row.teamName, row.additionalNotes, row.transactionId, row.amountPaid,
                         row.paymentVerified, row.registeredAt)
  }

  /** The responses for rows whose event and user are stored, in order. */
  function Responses(rows: seq<Registration>, events: seq<Event>, users: seq<User>): (r: seq<RegistrationResponse>)
    reads events
    requires EventKeysExist(rows, events) && UserIdsExist(rows, users)
    ensures |r| == |rows|
    ensures forall i :: 0 <= i < |r| ==>
      r[i].id == rows[i].id && r[i].eventKey == rows[i].eventKey && r[i].userId == rows[i].userId
      && r[i].status == rows[i].status
  {
    if rows == [] then []
    else
      assert EventRepository.IndexOfId(events, rows[0].eventKey).Some? && ExistsById(users, rows[0].userId);
      [MapToRegistrationResponse(rows[0], EventOf(events, rows[0]), UserOf(users, rows[0]))]
      + Responses(rows[1..], events, users)
  }

  /** Rows drawn from a table whose references hold have references that hold. */
  lemma ReferencesKept(sub: seq<Registration>, rows: seq<Registration>, events: seq<Event>, users: seq<User>)
    requires forall i :: 0 <= i < |sub| ==> sub[i] in rows
    requires EventKeysExist(rows, events) && UserIdsExist(rows, users)
    ensures EventKeysExist(sub, events) && UserIdsExist(sub, users)
  {
    forall i | 0 <= i < |sub|
      ensures EventRepository.IndexOfId(events, sub[i].eventKey).Some? && ExistsById(users, sub[i].userId)
    {
      var j :| 0 <= j < |rows| && rows[j] == sub[i];
    }
  }

  /** A page of rows drawn from a table whose references hold has references that hold. */
  lemma PageKeepsReferences(sub: seq<Registration>, rows: seq<Registration>, page: nat, size: nat,
                            events: seq<Event>, users: seq<User>)
    requires size >= 1 && forall i :: 0 <= i < |sub| ==> sub[i] in rows
    requires EventKeysExist(rows, events) && UserIdsExist(rows, users)
    ensures EventKeysExist(Page(sub, page, size), events) && UserIdsExist(Page(sub, page, size), users)
  {
    var p := Page(sub, page, size);
    forall i | 0 <= i < |p|
      ensures p[i] in rows
    {
      assert p[i] == sub[page * size + i];
    }
    ReferencesKept(p, rows, events, users);
  }

  // ---------------------------------------------------------------------
  // The two writes a registration change makes together
  // ---------------------------------------------------------------------

  /** Take a slot of event `j` and append `row`: the save and the counter update of registerForEvent. */
  method Enroll(db: Database, j: nat, row: Registration)
    requires db.Valid() && j < |db.events| && !db.events[j].IsFull()
    requires row.id == db.nextRegistrationId && row.eventKey == db.events[j].id && ExistsById(db.users, row.userId)
    requires !Rows.ExistsByEventAndUser(db.registrations, row.eventKey, row.userId)
    modifies db, db.events[j]
    ensures db.Valid()
    ensures db.events == old(db.events) && db.users == old(db.users)
    ensures db.registrations == old(db.registrations) + [row]
    ensures db.nextRegistrationId == old(db.nextRegistrationId) + 1
    ensures db.nextUserId == old(db.nextUserId) && db.nextEventKey == old(db.nextEventKey)
    ensures db.events[j].Record() == old(db.events[j].Record()).(slotsFilled := old(db.events[j].slotsFilled) + 1)
  {
    var e := db.events[j];
    assert forall i :: 0 <= i < |db.events| && i != j ==> db.events[i] != e;
    e.IncrementSlotsFilled();
    db.EditEventKeepsValid(j);
    db.InsertRegistration(row);
  }

  /** Give back a slot of event `j` and overwrite row `k`: the save and the counter update of cancel and reject. */
  method Release(db: Database, j: nat, k: nat, row: Registration)
    requires db.Valid() && j < |db.events| && k < |db.registrations|
    requires row.id == db.registrations[k].id && row.eventKey == db.registrations[k].eventKey
    requires row.userId == db.registrations[k].userId
    modifies db, db.events[j]
    ensures db.Valid()
    ensures db.events == old(db.events) && db.users == old(db.users)
    ensures db.registrations == old(db.registrations)[k := row]
    ensures db.nextRegistrationId == old(db.nextRegistrationId)
    ensures db.nextUserId == old(db.nextUserId) && db.nextEventKey == old(db.nextEventKey)
    ensures db.events[j].Record() == old(db.events[j].Record()).(slotsFilled :=
      if old(db.events[j].slotsFilled) > 0 then old(db.events[j].slotsFilled) - 1 else old(db.events[j].slotsFilled))
  {
    var e := db.events[j];
    assert forall i :: 0 <= i < |db.events| && i != j ==> db.events[i] != e;
    e.DecrementSlotsFilled();
    db.EditEventKeepsValid(j);
    db.ReplaceRegistrationAt(k, row);
  }

  // ---------------------------------------------------------------------
  // registerForEvent
  // ---------------------------------------------------------------------

  /**
   * The first check registerForEvent fails, in the order the code runs them:
   * the caller's role, the event's existence, the open registration window,
   * an earlier registration of the caller, the transaction id of a paid
   * event. The code's free-slot check sits between the window and the
   * duplicate checks, but an open window already implies a free slot, so it
   * never fires; RegisterForEvent keeps it and proves it dead.
   */
  function RegisterFailure(events: seq<Event>, rows: seq<Registration>, caller: User, key: nat,
                           req: RegisterEventRequest, now: DateTime): (r: Option<Error>)
    reads events
    ensures r.None? <==>
      caller.role == Player
      && var k := EventRepository.IndexOfId(events, key);
         k.Some? && events[k.value].IsRegistrationOpen(now)
         && !Rows.ExistsByEventAndUser(rows, key, caller.id)
         && (events[k.value].isPaid ==> req.HasTransactionId())
    ensures caller.role != Player ==> r == Some(Error(Unauthorized, "Only players can register for events"))
    ensures caller.role == Player && EventRepository.IndexOfId(events, key).None? ==>
      r == Some(Error(ResourceNotFound, EventService.NotFoundMessage(key)))
    ensures caller.role == Player ==>
      var k := EventRepository.IndexOfId(events, key);
      k.Some? ==>
        (!events[k.value].IsRegistrationOpen(now)
         ==> r == Some(Error(ErrorKind.RegistrationClosed, "Registration is not open for this event")))
        && (events[k.value].IsRegistrationOpen(now) && Rows.ExistsByEventAndUser(rows, key, caller.id)
            ==> r == Some(Error(DuplicateRegistration, "You have already registered for this event")))
        && (events[k.value].IsRegistrationOpen(now) && !Rows.ExistsByEventAndUser(rows, key, caller.id)
            && events[k.value].isPaid && !req.HasTransactionId()
            ==> r == Some(Error(BadRequest, "Transaction ID is required for paid events")))
  {
    if caller.role != Player then Some(Error(Unauthorized, "Only players can register for events"))
    else
      var found := EventRepository.IndexOfId(events, key);
      if found.None? then Some(Error(ResourceNotFound, EventService.NotFoundMessage(key)))
      else
        var e := events[found.value];
        if !e.IsRegistrationOpen(now) then Some(Error(ErrorKind.RegistrationClosed, "Registration is not open for this event"))
        else if Rows.ExistsByEventAndUser(rows, key, caller.id)
        then Some(Error(DuplicateRegistration, "You have already registered for this event"))
        else if e.isPaid && !req.HasTransactionId()
        then Some(Error(BadRequest, "Transaction ID is required for paid events"))
        else None
  }

  /**
   * The EventFull check of registerForEvent is unreachable: an open window
   * already requires a free slot, so a full event reports RegistrationClosed
   * and EventFull is never raised.
   */
  lemma EventFullIsUnreachable(events: seq<Event>, rows: seq<Registration>, caller: User, key: nat,
                               req: RegisterEventRequest, now: DateTime)
    ensures (caller.role == Player && EventRepository.IndexOfId(events, key).Some?
             && events[EventRepository.IndexOfId(events, key).value].IsFull()) ==>
      RegisterFailure(events, rows, caller, key, req, now)
      == Some(Error(ErrorKind.RegistrationClosed, "Registration is not open for this event"))
    ensures var r := RegisterFailure(events, rows, caller, key, req, now);
      r.Some? ==> r.value.kind != EventFull
  {
  }

  /** The row registerForEvent builds: PENDING for a paid event, CONFIRMED for a free one. */
  function NewRegistration(id: nat, eventKey: nat, isPaid: bool, entryFee: Option<int>, userId: nat,
                           req: RegisterEventRequest, now: DateTime): (r: Registration)
    ensures r.status == (if isPaid then Pending else Confirmed)
    ensures r.amountPaid == entryFee && r.paymentVerified == Some(false)
    ensures r.id == id && r.eventKey == eventKey && r.userId == userId && r.registeredAt == now
    ensures r.cancelledAt.None? && r.cancellationReason.None?
  {
    Build(id, eventKey, userId, Some(if isPaid then Pending else Confirmed), req.teamName,
          req.additionalNotes, req.transactionId, entryFee, Some(false), now)
  }

  /**
   * registerForEvent: on success the new row is appended and the event's
   * slot counter rises by exactly one; nothing else changes.
   */
  method RegisterForEvent(db: Database, caller: User, key: nat, req: RegisterEventRequest, now: DateTime)
    returns (r: Result<RegistrationResponse>)
    requires db.Valid() && caller in db.users && req.Valid()
    modifies db, db.events
    ensures db.Valid()
    ensures var failure := old(RegisterFailure(db.events, db.registrations, caller, key, req, now));
      (failure.Some? ==> r == Err(failure.value)) && (failure.None? <==> r.Ok?)
    ensures r.Err? ==> unchanged(db) && unchanged(db.events)
    ensures db.events == old(db.events) && db.users == old(db.users)
    ensures db.nextUserId == old(db.nextUserId) && db.nextEventKey == old(db.nextEventKey)
    ensures db.nextRegistrationId == old(db.nextRegistrationId) + (if r.Ok? then 1 else 0)
    ensures r.Ok? ==>
      var k := EventRepository.IndexOfId(db.events, key).value;
      var e := db.events[k];
      var row := NewRegistration(old(db.nextRegistrationId), key, e.isPaid, e.entryFee, caller.id, req, now);
      e.Record() == old(e.Record()).(slotsFilled := old(e.slotsFilled) + 1)
      && db.registrations == old(db.registrations) + [row]
      && r.value == MapToRegistrationResponse(row, e, caller)
      && forall i :: 0 <= i < |db.events| && i != k ==> unchanged(db.events[i])
  {
    ghost var failure := RegisterFailure(db.events, db.registrations, caller, key, req, now);
    if caller.role != Player {
      return Err(Error(Unauthorized, "Only players can register for events"));
    }
    var found := EventRepository.IndexOfId(db.events, key);
    if found.None? {
      return Err(Error(ResourceNotFound, EventService.NotFoundMessage(key)));
    }
    var e := db.events[found.value];
    if !e.IsRegistrationOpen(now) {
      return Err(Error(ErrorKind.RegistrationClosed, "Registration is not open for this event"));
    }
    if e.IsFull() {
      return Err(Error(EventFull, "Event is full. No more slots available"));
    }
    if Rows.ExistsByEventAndUser(db.registrations, key, caller.id) {
      return Err(Error(DuplicateRegistration, "You have already registered for this event"));
    }
    if e.isPaid && !req.HasTransactionId() {
      return Err(Error(BadRequest, "Transaction ID is required for paid events"));
    }
    assert failure.None?;
    var row := NewRegistration(db.nextRegistrationId, key, e.isPaid, e.entryFee, caller.id, req, now);
    assert ExistsById(db.users, caller.id) by {
      var i :| 0 <= i < |db.users| && db.users[i] == caller;
    }
    Enroll(db, found.value, row);
    r := Ok(MapToRegistrationResponse(row, e, caller));
  }

  // ---------------------------------------------------------------------
  // cancelRegistration
  // ---------------------------------------------------------------------

  /** The first check cancelRegistration fails: the row exists, the caller registered it, it is not cancelled. */
  function CancelFailure(rows: seq<Registration>, caller: User, id: nat): (r: Option<Error>)
    ensures r.None? <==>
      var k := Rows.IndexOfId(rows, id);
      k.Some? && rows[k.value].userId == caller.id && rows[k.value].status != RegistrationStatus.Cancelled
    ensures Rows.IndexOfId(rows, id).None? ==> r == Some(Error(ResourceNotFound, RegistrationNotFoundMessage(id)))
    ensures r.Some? ==> r.value.kind == ResourceNotFound || r.value.kind == Unauthorized || r.value.kind == BadRequest
  {
    match Rows.IndexOfId(rows, id)
    case None => Some(Error(ResourceNotFound, RegistrationNotFoundMessage(id)))
    case Some(k) =>
      if rows[k].userId != caller.id
      then Some(Error(Unauthorized, "You are not authorized to cancel this registration"))
      else if rows[k].status == RegistrationStatus.Cancelled
      then Some(Error(BadRequest, "Registration is already cancelled"))
      else None
  }

  /** The row after cancelRegistration's three setters; every other column is kept. */
  function CancelledRow(row: Registration, now: DateTime): (r: Registration)
    ensures r.status == RegistrationStatus.Cancelled && r.cancelledAt == Some(now)
    ensures r.cancellationReason == Some("Cancelled by user")
    ensures r.(status := row.status, cancelledAt := row.cancelledAt, cancellationReason := row.cancellationReason) == row
  {
    row.(status := RegistrationStatus.Cancelled, cancelledAt := Some(now), cancellationReason := Some("Cancelled by user"))
  }

  /**
   * cancelRegistration: only the registrant may cancel (an ADMIN may not), from
   * any status but CANCELLED, including REJECTED; the event's counter is
   * decremented, stopping at zero.
   */
  method CancelRegistration(db: Database, caller: User, id: nat, now: DateTime) returns (r: Result<()>)
    requires db.Valid()
    modifies db, db.events
    ensures db.Valid()
    ensures var failure := old(CancelFailure(db.registrations, caller, id));
      (failure.Some? ==> r == Err(failure.value)) && (failure.None? <==> r.Ok?)
    ensures r.Err? ==> unchanged(db) && unchanged(db.events)
    ensures db.events == old(db.events) && db.users == old(db.users)
    ensures db.nextUserId == old(db.nextUserId) && db.nextEventKey == old(db.nextEventKey)
    ensures db.nextRegistrationId == old(db.nextRegistrationId)
    ensures r.Ok? ==>
      var k := Rows.IndexOfId(old(db.registrations), id).value;
      var row := old(db.registrations[k]);
      var j := EventRepository.IndexOfId(db.events, row.eventKey).value;
      var e := db.events[j];
      db.registrations == old(db.registrations)[k := CancelledRow(row, now)]
      && e.Record() == old(e.Record()).(slotsFilled := if old(e.slotsFilled) > 0 then old(e.slotsFilled) - 1 else old(e.slotsFilled))
      && forall i :: 0 <= i < |db.events| && i != j ==> unchanged(db.events[i])
  {
    ghost var failure := CancelFailure(db.registrations, caller, id);
    var found := Rows.IndexOfId(db.registrations, id);
    if found.None? {
      return Err(Error(ResourceNotFound, RegistrationNotFoundMessage(id)));
    }
    var row := db.registrations[found.value];
    if row.userId != caller.id {
      return Err(Error(Unauthorized, "You are not authorized to cancel this registration"));
    }
    if row.status == RegistrationStatus.Cancelled {
      return Err(Error(BadRequest, "Registration is already cancelled"));
    }
    assert failure.None?;
    var j := EventRepository.IndexOfId(db.events, row.eventKey).value;
    Release(db, j, found.value, CancelledRow(row, now));
    r := Ok(());
  }

  // ---------------------------------------------------------------------
  // confirmRegistration and rejectRegistration
  // ---------------------------------------------------------------------

  /** The organizer of the row's event or an ADMIN. */
  predicate ManagesRow(events: seq<Event>, row: Registration, caller: User)
    reads events
    requires EventRepository.IndexOfId(events, row.eventKey).Some?
  {
    EventRules.IsOwnerOrAdmin(caller, EventOf(events, row).organizerId)
  }

  /** The first check confirmRegistration fails: the row exists, the caller manages it, it is not yet confirmed. */
  function ConfirmFailure(events: seq<Event>, rows: seq<Registration>, caller: User, id: nat): (r: Option<Error>)
    reads events
    requires EventKeysExist(rows, events)
    ensures r.None? <==>
      var k := Rows.IndexOfId(rows, id);
      k.Some? && ManagesRow(events, rows[k.value], caller) && rows[k.value].status != Confirmed
    ensures Rows.IndexOfId(rows, id).None? ==> r == Some(Error(ResourceNotFound, RegistrationNotFoundMessage(id)))
    ensures r.Some? ==> r.value.kind == ResourceNotFound || r.value.kind == Unauthorized || r.value.kind == BadRequest
  {
    match Rows.IndexOfId(rows, id)
    case None => Some(Error(ResourceNotFound, RegistrationNotFoundMessage(id)))
    case Some(k) =>
      if !ManagesRow(events, rows[k], caller)
      then Some(Error(Unauthorized, "You are not authorized to confirm this registration"))
      else if rows[k].status == Confirmed
      then Some(Error(BadRequest, "Registration is already confirmed"))
      else None
  }

  /** The row after confirmRegistration: CONFIRMED, and the payment verified when the event is paid. */
  function ConfirmedRow(row: Registration, isPaid: bool): (r: Registration)
    ensures r.status == Confirmed
    ensures r.paymentVerified == if isPaid then Some(true) else row.paymentVerified
    ensures r.(status := row.status, paymentVerified := row.paymentVerified) == row
  {
    row.(status := Confirmed, paymentVerified := if isPaid then Some(true) else row.paymentVerified)
  }

  /**
   * confirmRegistration: from any status but CONFIRMED, so a cancelled or
   * rejected row comes back; the slot counter is not touched.
   */
  method ConfirmRegistration(db: Database, caller: User, id: nat) returns (r: Result<RegistrationResponse>)
    requires db.Valid()
    modifies db
    ensures db.Valid()
    ensures var failure := old(ConfirmFailure(db.events, db.registrations, caller, id));
      (failure.Some? ==> r == Err(failure.value)) && (failure.None? <==> r.Ok?)
    ensures r.Err? ==> unchanged(db)
    ensures db.events == old(db.events) && db.users == old(db.users)
    ensures db.nextUserId == old(db.nextUserId) && db.nextEventKey == old(db.nextEventKey)
    ensures db.nextRegistrationId == old(db.nextRegistrationId)
    ensures r.Ok? ==>
      var k := Rows.IndexOfId(old(db.registrations), id).value;
      var row := old(db.registrations[k]);
      var e := EventOf(db.events, row);
      db.registrations == old(db.registrations)[k := ConfirmedRow(row, e.isPaid)]
      && r.value == MapToRegistrationResponse(ConfirmedRow(row, e.isPaid), e, UserOf(db.users, row))
  {
    ghost var failure := ConfirmFailure(db.events, db.registrations, caller, id);
    var found := Rows.IndexOfId(db.registrations, id);
    if found.None? {
      return Err(Error(ResourceNotFound, RegistrationNotFoundMessage(id)));
    }
    var row := db.registrations[found.value];
    var e := EventOf(db.events, row);
    if e.organizerId != caller.id && caller.role != Admin {
      return Err(Error(Unauthorized, "You are not authorized to confirm this registration"));
    }
    if row.status == Confirmed {
      return Err(Error(BadRequest, "Registration is already confirmed"));
    }
    assert failure.None?;
    var updated := ConfirmedRow(row, e.isPaid);
    db.ReplaceRegistrationAt(found.value, updated);
    r := Ok(MapToRegistrationResponse(updated, e, UserOf(db.users, row)));
  }

  /** The first check rejectRegistration fails: the row exists and the caller manages it; the status is not checked. */
  function RejectFailure(events: seq<Event>, rows: seq<Registration>, caller: User, id: nat): (r: Option<Error>)
    reads events
    requires EventKeysExist(rows, events)
    ensures r.None? <==>
      var k := Rows.IndexOfId(rows, id);
      k.Some? && ManagesRow(events, rows[k.value], caller)
    ensures Rows.IndexOfId(rows, id).None? ==> r == Some(Error(ResourceNotFound, RegistrationNotFoundMessage(id)))
    ensures r.Some? ==> r.value.kind == ResourceNotFound || r.value.kind == Unauthorized
  {
    match Rows.IndexOfId(rows, id)
    case None => Some(Error(ResourceNotFound, RegistrationNotFoundMessage(id)))
    case Some(k) =>
      if !ManagesRow(events, rows[k], caller)
      then Some(Error(Unauthorized, "You are not authorized to reject this registration"))
      else None
  }

  /** The row after rejectRegistration: REJECTED with the reason (possibly null); cancelledAt is left alone. */
  function RejectedRow(row: Registration, reason: Option<string>): (r: Registration)
    ensures r.status == Rejected && r.cancellationReason == reason
    ensures r.(status := row.status, cancellationReason := row.cancellationReason) == row
  {
    row.(status := Rejected, cancellationReason := reason)
  }

  /**
   * rejectRegistration: from any status, and every call decrements the
   * event's counter (stopping at zero), even when the row was already
   * rejected or cancelled.
   */
  method RejectRegistration(db: Database, caller: User, id: nat, reason: Option<string>)
    returns (r: Result<RegistrationResponse>)
    requires db.Valid()
    modifies db, db.events
    ensures db.Valid()
    ensures var failure := old(RejectFailure(db.events, db.registrations, caller, id));
      (failure.Some? ==> r == Err(failure.value)) && (failure.None? <==> r.Ok?)
    ensures r.Err? ==> unchanged(db) && unchanged(db.events)
    ensures db.events == old(db.events) && db.users == old(db.users)
    ensures db.nextUserId == old(db.nextUserId) && db.nextEventKey == old(db.nextEventKey)
    ensures db.nextRegistrationId == old(db.nextRegistrationId)
    ensures r.Ok? ==>
      var k := Rows.IndexOfId(old(db.registrations), id).value;
      var row := old(db.registrations[k]);
      var j := EventRepository.IndexOfId(db.events, row.eventKey).value;
      var e := db.events[j];
      db.registrations == old(db.registrations)[k := RejectedRow(row, reason)]
      && e.Record() == old(e.Record()).(slotsFilled := if old(e.slotsFilled) > 0 then old(e.slotsFilled) - 1 else old(e.slotsFilled))
      && r.value == MapToRegistrationResponse(RejectedRow(row, reason), e, UserOf(db.users, row))
      && forall i :: 0 <= i < |db.events| && i != j ==> unchanged(db.events[i])
  {
    ghost var failure := RejectFailure(db.events, db.registrations, caller, id);
    var found := Rows.IndexOfId(db.registrations, id);
    if found.None? {
      return Err(Error(ResourceNotFound, RegistrationNotFoundMessage(id)));
    }
    var row := db.registrations[found.value];
    var j := EventRepository.IndexOfId(db.events, row.eventKey).value;
    var e := db.events[j];
    if e.organizerId != caller.id && caller.role != Admin {
      return Err(Error(Unauthorized, "You are not authorized to reject this registration"));
    }
    assert failure.None?;
    var updated := RejectedRow(row, reason);
    Release(db, j, found.value, updated);
    r := Ok(MapToRegistrationResponse(updated, e, UserOf(db.users, row)));
  }

  // ---------------------------------------------------------------------
  // Read-only operations
  // ---------------------------------------------------------------------

  /** A page of the caller's rows holds rows of that user whose references hold. */
  lemma MyRegistrationsPage(events: seq<Event>, rows: seq<Registration>, users: seq<User>, caller: User,
                            page: nat, size: nat)
    requires size >= 1 && EventKeysExist(rows, events) && UserIdsExist(rows, users)
    ensures var p := Page(Rows.FindByUser(rows, caller.id), page, size);
      EventKeysExist(p, events) && UserIdsExist(p, users) && forall i :: 0 <= i < |p| ==> p[i].userId == caller.id
  {
    var mine := Rows.FindByUser(rows, caller.id);
    PageKeepsReferences(mine, rows, page, size, events, users);
    var p := Page(mine, page, size);
    forall i | 0 <= i < |p|
      ensures p[i].userId == caller.id
    {
      assert p[i] == mine[page * size + i];
    }
  }

  /** A page of the event's rows holds rows of that event whose references hold. */
  lemma EventRegistrationsPage(events: seq<Event>, rows: seq<Registration>, users: seq<User>, key: nat,
                               page: nat, size: nat)
    requires size >= 1 && EventKeysExist(rows, events) && UserIdsExist(rows, users)
    ensures var p := Page(Rows.FindByEvent(rows, key), page, size);
      EventKeysExist(p, events) && UserIdsExist(p, users) && forall i :: 0 <= i < |p| ==> p[i].eventKey == key
  {
    var all := Rows.FindByEvent(rows, key);
    PageKeepsReferences(all, rows, page, size, events, users);
    var p := Page(all, page, size);
    forall i | 0 <= i < |p|
      ensures p[i].eventKey == key
    {
      assert p[i] == all[page * size + i];
    }
  }

  /** getMyRegistrations: a page of the caller's own rows, in every status. */
  function GetMyRegistrations(events: seq<Event>, rows: seq<Registration>, users: seq<User>, caller: User,
                              page: nat, size: nat): (r: seq<RegistrationResponse>)
    reads events
    requires size >= 1 && EventKeysExist(rows, events) && UserIdsExist(rows, users)
    ensures |r| <= size
    ensures forall i :: 0 <= i < |r| ==> r[i].userId == caller.id
    ensures var p := Page(Rows.FindByUser(rows, caller.id), page, size);
      |r| == |p| && forall i :: 0 <= i < |r| ==> r[i].id == p[i].id && r[i].status == p[i].status
  {
    MyRegistrationsPage(events, rows, users, caller, page, size);
    Responses(Page(Rows.FindByUser(rows, caller.id), page, size), events, users)
  }

  /** The existence and ownership checks of the two event-wide listings. */
  function ListingFailure(events: seq<Event>, caller: User, key: nat): (r: Option<Error>)
    reads events
    ensures r.None? <==>
      var k := EventRepository.IndexOfId(events, key);
      k.Some? && EventRules.IsOwnerOrAdmin(caller, events[k.value].organizerId)
    ensures EventRepository.IndexOfId(events, key).None? ==> r == Some(Error(ResourceNotFound, EventService.NotFoundMessage(key)))
    ensures r.Some? ==> r.value.kind == ResourceNotFound || r.value.kind == Unauthorized
  {
    match EventRepository.IndexOfId(events, key)
    case None => Some(Error(ResourceNotFound, EventService.NotFoundMessage(key)))
    case Some(k) =>
      if !EventRules.IsOwnerOrAdmin(caller, events[k].organizerId)
      then Some(Error(Unauthorized, "You are not authorized to view registrations for this event"))
      else None
  }

  /** A page of the event's rows, in every status. */
  function EventPage(events: seq<Event>, rows: seq<Registration>, users: seq<User>, key: nat,
                     page: nat, size: nat): (r: seq<RegistrationResponse>)
    reads events
    requires size >= 1 && EventKeysExist(rows, events) && UserIdsExist(rows, users)
    ensures |r| <= size && forall i :: 0 <= i < |r| ==> r[i].eventKey == key
    ensures var p := Page(Rows.FindByEvent(rows, key), page, size);
      |r| == |p| && forall i :: 0 <= i < |r| ==> r[i].id == p[i].id && r[i].status == p[i].status
  {
    EventRegistrationsPage(events, rows, users, key, page, size);
    Responses(Page(Rows.FindByEvent(rows, key), page, size), events, users)
  }

  /** getEventRegistrations: a page of the event's rows, for its organizer or an ADMIN. */
  function GetEventRegistrations(events: seq<Event>, rows: seq<Registration>, users: seq<User>, caller: User,
                                 key: nat, page: nat, size: nat): (r: Result<seq<RegistrationResponse>>)
    reads events
    requires size >= 1 && EventKeysExist(rows, events) && UserIdsExist(rows, users)
    ensures r.Ok? <==> ListingFailure(events, caller, key).None?
    ensures r.Err? ==> r.error == ListingFailure(events, caller, key).value
    ensures r.Ok? ==> |r.value| <= size && forall i :: 0 <= i < |r.value| ==> r.value[i].eventKey == key
    ensures r.Ok? ==>
      var p := Page(Rows.FindByEvent(rows, key), page, size);
      |r.value| == |p| && forall i :: 0 <= i < |r.value| ==> r.value[i].id == p[i].id && r.value[i].status == p[i].status
  {
    match ListingFailure(events, caller, key)
    case Some(error) => Err(error)
    case None =>
      Ok(EventPage(events, rows, users, key, page, size))
  }

  /** getConfirmedRegistrations: every CONFIRMED row of the event, for its organizer or an ADMIN. */
  function GetConfirmedRegistrations(events: seq<Event>, rows: seq<Registration>, users: seq<User>, caller: User,
                                     key: nat): (r: Result<seq<RegistrationResponse>>)
    reads events
    requires EventKeysExist(rows, events) && UserIdsExist(rows, users)
    ensures r.Ok? <==> ListingFailure(events, caller, key).None?
    ensures r.Err? ==> r.error == ListingFailure(events, caller, key).value
    ensures r.Ok? ==> forall i :: 0 <= i < |r.value| ==> r.value[i].eventKey == key && r.value[i].status == Confirmed
    ensures r.Ok? ==> |r.value| == Rows.CountByEventAndStatus(rows, key, Confirmed)
    ensures r.Ok? ==>
      var c := Rows.FindConfirmedRegistrationsByEventId(rows, key);
      |r.value| == |c| && forall i :: 0 <= i < |c| ==> r.value[i].id == c[i].id && r.value[i].userId == c[i].userId
  {
    match ListingFailure(events, caller, key)
    case Some(error) => Err(error)
    case None =>
      var confirmed := Rows.FindConfirmedRegistrationsByEventId(rows, key);
      ReferencesKept(confirmed, rows, events, users);
      Rows.ConfirmedIsByEventAndStatus(rows, key);
      Rows.CountByEventAndStatusIsSize(rows, key, Confirmed);
      Ok(Responses(confirmed, events, users))
  }

  /** Who may read a registration: its registrant, the organizer of its event, or an ADMIN. */
  predicate CanView(events: seq<Event>, row: Registration, caller: User)
    reads events
    requires EventRepository.IndexOfId(events, row.eventKey).Some?
  {
    row.userId == caller.id || EventOf(events, row).organizerId == caller.id || caller.role == Admin
  }

  /** getRegistrationById */
  function GetRegistrationById(events: seq<Event>, rows: seq<Registration>, users: seq<User>, caller: User,
                               id: nat): (r: Result<RegistrationResponse>)
    reads events
    requires EventKeysExist(rows, events) && UserIdsExist(rows, users)
    ensures r.Ok? <==>
      var k := Rows.IndexOfId(rows, id);
      k.Some? && CanView(events, rows[k.value], caller)
    ensures Rows.IndexOfId(rows, id).None? ==> r == Err(Error(ResourceNotFound, RegistrationNotFoundMessage(id)))
    ensures r.Err? && Rows.IndexOfId(rows, id).Some? ==>
      r.error == Error(Unauthorized, "You are not authorized to view this registration")
    ensures r.Ok? ==> r.value.id == id
    ensures r.Ok? ==>
      var row := rows[Rows.IndexOfId(rows, id).value];
      r.value.eventKey == row.eventKey && r.value.userId == row.userId && r.value.status == row.status
      && r.value.teamName == row.teamName && r.value.additionalNotes == row.additionalNotes
      && r.value.transactionId == row.transactionId && r.value.amountPaid == row.amountPaid
      && r.value.paymentVerified == row.paymentVerified && r.value.registeredAt == row.registeredAt
      && r.value.eventName == EventOf(events, row).eventName && r.value.username == UserOf(users, row).username
      && r.value.userEmail == UserOf(users, row).email
  {
    match Rows.IndexOfId(rows, id)
    case None => Err(Error(ResourceNotFound, RegistrationNotFoundMessage(id)))
    case Some(k) =>
      var row := rows[k];
      if !CanView(events, row, caller) then Err(Error(Unauthorized, "You are not authorized to view this registration"))
      else Ok(MapToRegistrationResponse(row, EventOf(events, row), UserOf(users, row)))
  }

  /** isUserRegistered: whether the caller has a row for the event, whatever its status. */
  function IsUserRegistered(events: seq<Event>, rows: seq<Registration>, caller: User, key: nat): (r: Result<bool>)
    ensures r.Err? <==> EventRepository.IndexOfId(events, key).None?
    ensures r.Err? ==> r.error == Error(ResourceNotFound, EventService.NotFoundMessage(key))
    ensures r.Ok? ==> (r.value <==> Rows.FindByEventAndUser(rows, key, caller.id).Some?)
  {
    if EventRepository.IndexOfId(events, key).None? then Err(Error(ResourceNotFound, EventService.NotFoundMessage(key)))
    else Ok(Rows.ExistsByEventAndUser(rows, key, caller.id))
  }

  // ---------------------------------------------------------------------
  // Properties of the state machine as written
  // ---------------------------------------------------------------------

  /**
   * A player who cancelled (or was rejected) cannot register again: the old
   * row still links them to the event, so an open event reports a duplicate.
   */
  lemma CancelledPlayerIsDuplicate(events: seq<Event>, rows: seq<Registration>, k: nat, caller: User,
                                   req: RegisterEventRequest, cancelledAt: DateTime, now: DateTime)
    requires k < |rows| && rows[k].userId == caller.id && caller.role == Player
    requires EventRepository.IndexOfId(events, rows[k].eventKey).Some?
    requires EventOf(events, rows[k]).IsRegistrationOpen(now)
    ensures var after := rows[k := CancelledRow(rows[k], cancelledAt)];
      RegisterFailure(events, after, caller, rows[k].eventKey, req, now)
      == Some(Error(DuplicateRegistration, "You have already registered for this event"))
  {
    var after := rows[k := CancelledRow(rows[k], cancelledAt)];
    Rows.ExistsIgnoresStatus(after, k);
  }

  /** Cancelling is not repeatable: a cancelled row reports "already cancelled" to its registrant. */
  lemma CancelIsNotRepeatable(rows: seq<Registration>, caller: User, id: nat, now: DateTime)
    requires CancelFailure(rows, caller, id).None?
    ensures var k := Rows.IndexOfId(rows, id).value;
      CancelFailure(rows[k := CancelledRow(rows[k], now)], caller, id)
      == Some(Error(BadRequest, "Registration is already cancelled"))
  {
    var k := Rows.IndexOfId(rows, id).value;
    IndexOfIdIgnoresOtherColumns(rows, k, CancelledRow(rows[k], now), id);
  }

  /** Rewriting a row without changing its id leaves every id lookup where it was. */
  lemma {:induction false} IndexOfIdIgnoresOtherColumns(rows: seq<Registration>, k: nat, row: Registration, id: nat)
    requires k < |rows| && row.id == rows[k].id
    ensures Rows.IndexOfId(rows[k := row], id) == Rows.IndexOfId(rows, id)
  {
    if rows != [] && k > 0 {
      assert rows[k := row][1..] == rows[1..][k - 1 := row];
      IndexOfIdIgnoresOtherColumns(rows[1..], k - 1, row, id);
    }
  }

  /**
   * Rejecting is repeatable: a rejection changes nothing reject checks, so the
   * organizer can reject the same row again, and each time the counter drops.
   */
  lemma RejectIsRepeatable(events: seq<Event>, rows: seq<Registration>, caller: User, id: nat, reason: Option<string>)
    requires EventKeysExist(rows, events) && RejectFailure(events, rows, caller, id).None?
    ensures var k := Rows.IndexOfId(rows, id).value;
      var after := rows[k := RejectedRow(rows[k], reason)];
      EventKeysExist(after, events) && RejectFailure(events, after, caller, id).None?
  {
    var k := Rows.IndexOfId(rows, id).value;
    var after := rows[k := RejectedRow(rows[k], reason)];
    IndexOfIdIgnoresOtherColumns(rows, k, RejectedRow(rows[k], reason), id);
    assert after[k].eventKey == rows[k].eventKey;
  }

  /** Confirming revives a cancelled or rejected row: neither status blocks it. */
  lemma ConfirmRevivesClosedRows(events: seq<Event>, rows: seq<Registration>, caller: User, id: nat)
    requires EventKeysExist(rows, events)
    requires var k := Rows.IndexOfId(rows, id);
      k.Some? && ManagesRow(events, rows[k.value], caller)
      && (rows[k.value].status == RegistrationStatus.Cancelled || rows[k.value].status == Rejected)
    ensures ConfirmFailure(events, rows, caller, id).None?
  {
  }
}
