/**
 * The operations of service/EventService.java over the database. The caller
 * (the authenticated user) and the clock reading `now` are parameters. Every
 * operation either succeeds or returns the exception it throws and leaves
 * the database as it was (the transaction rolls back).
 */
module EventService {
  import opened Wrappers
  import opened Time
  import opened Enums
  import opened Text
  import opened Errors
  import opened Users
  import opened Events
  import opened CreateEventDto
  import opened UpdateEventDto
  import opened EventRules
  import opened Persistence
  import opened Paging
  import EventRepository

  function NotFoundMessage(key: nat): string {
    "Event not found with id: " + Decimal(key)
  }

  /** The message of the unique-key violation when a generated event id is already taken. */
  const DuplicateEventIdMessage := "Duplicate value for the unique column event_id"

  // ---------------------------------------------------------------------
  // createEvent
  // ---------------------------------------------------------------------

  method CreateEvent(db: Database, caller: User, req: CreateEventRequest, now: DateTime)
    returns (r: Result<EventResponse>)
    requires db.Valid() && caller in db.users
    requires req.Valid(now.date) && ValidDate(now.date) && now.date.year >= 1
    modifies db
    ensures db.Valid()
    ensures db.users == old(db.users) && db.registrations == old(db.registrations)
    ensures var failure := CreateEventFailure(caller, req, now.date);
      failure.Some? ==> r == Err(failure.value)
    ensures var eventId := GenerateEventId(now.date, old(|db.events|));
      r.Ok? <==> CreateEventFailure(caller, req, now.date).None?
                 && !old(EventRepository.ExistsByEventId(db.events, eventId))
    ensures r.Err? ==> unchanged(db) && r.error.kind != ResourceNotFound
    ensures r.Ok? ==>
      |db.events| == old(|db.events|) + 1 && db.events[..old(|db.events|)] == old(db.events)
      && var e := db.events[old(|db.events|)];
         fresh(e) && e.id == old(db.nextEventKey) && db.nextEventKey == old(db.nextEventKey) + 1
         && e.Record() == NewEventRecord(GenerateEventId(now.date, old(|db.events|)), req, caller, now.date)
         && r.value == MapToEventResponse(e, now)
  {
    var failure := CreateEventFailure(caller, req, now.date);
    if failure.Some? {
      return Err(failure.value);
    }
    var eventId := GenerateEventId(now.date, |db.events|);
    if EventRepository.ExistsByEventId(db.events, eventId) {
      return Err(Error(Generic, DuplicateEventIdMessage));
    }
    var e := NewEvent(db.nextEventKey, eventId, req, caller, now.date);
    NewEventWithinCapacity(eventId, caller, req, now.date);
    assert ExistsById(db.users, caller.id) by {
      var i :| 0 <= i < |db.users| && db.users[i] == caller;
    }
    db.InsertEvent(e);
    r := Ok(MapToEventResponse(e, now));
  }

  /** `new Event(...)` with the request's columns, followed by setVisibility. */
  method NewEvent(key: nat, eventId: string, req: CreateEventRequest, organizer: User, today: Date) returns (e: Event)
    requires req.Valid(today)
    ensures fresh(e) && e.id == key && e.Record() == NewEventRecord(eventId, req, organizer, today)
  {
    e := new Event(key, eventId, req.eventName.value, req.gameName.value,
                   req.eventDate.value, req.eventStartTime.value, req.eventEndTime.value,
                   req.registrationOpenDate.value, req.registrationCloseDate.value,
                   req.participationType.value, req.teamSize.value,
                   req.maxParticipants.value, req.minParticipants.value,
                   req.isPaid.value, req.entryFee, req.prizePool, req.attributes,
                   organizer.id, organizer.username);
    e.visibility := req.visibility.value;
  }

  // ---------------------------------------------------------------------
  // updateEvent
  // ---------------------------------------------------------------------

  /** The first check updateEvent fails on the event at `k`, if any. */
  function UpdateEventFailure(events: seq<Event>, caller: User, key: nat, req: UpdateEventRequest): (r: Option<Error>)
    reads events
    ensures EventRepository.IndexOfId(events, key).None? ==> r == Some(Error(ResourceNotFound, NotFoundMessage(key)))
    ensures r.None? <==>
      var k := EventRepository.IndexOfId(events, key);
      k.Some? && IsOwnerOrAdmin(caller, events[k.value].organizerId)
      && (req.maxParticipants.Some? ==> req.maxParticipants.value >= events[k.value].slotsFilled)
  {
    match EventRepository.IndexOfId(events, key)
    case None => Some(Error(ResourceNotFound, NotFoundMessage(key)))
    case Some(k) =>
      var e := events[k];
      if !IsOwnerOrAdmin(caller, e.organizerId) then Some(Error(Unauthorized, "You are not authorized to update this event"))
      else if req.maxParticipants.Some? && req.maxParticipants.value < e.slotsFilled
      then Some(Error(BadRequest, "Cannot reduce max participants below current registrations"))
      else None
  }

  /**
   * updateEvent: a partial patch of the event's columns. The guard on the new
   * maximum is checked before any column is written, which is what the
   * rollback of the original's mid-patch exception amounts to.
   */
  method UpdateEvent(db: Database, caller: User, key: nat, req: UpdateEventRequest, now: DateTime)
    returns (r: Result<EventResponse>)
    requires db.Valid() && req.Valid()
    modifies db.events
    ensures db.Valid()
    ensures var failure := old(UpdateEventFailure(db.events, caller, key, req));
      (failure.Some? ==> r == Err(failure.value)) && (failure.None? <==> r.Ok?)
    ensures r.Err? ==> unchanged(db.events)
    ensures r.Ok? ==>
      var k := EventRepository.IndexOfId(db.events, key).value;
      db.events[k].Record() == ApplyPatch(old(db.events[k].Record()), req)
      && r.value == MapToEventResponse(db.events[k], now)
    ensures forall i :: 0 <= i < |db.events| && db.events[i].id != key ==> unchanged(db.events[i])
  {
    ghost var failure := UpdateEventFailure(db.events, caller, key, req);
    var found := EventRepository.IndexOfId(db.events, key);
    if found.None? {
      return Err(Error(ResourceNotFound, NotFoundMessage(key)));
    }
    var e := db.events[found.value];
    if e.organizerId != caller.id && caller.role != Admin {
      return Err(Error(Unauthorized, "You are not authorized to update this event"));
    }
    if req.maxParticipants.Some? && req.maxParticipants.value < e.slotsFilled {
      return Err(Error(BadRequest, "Cannot reduce max participants below current registrations"));
    }
    assert failure.None?;
    PatchColumns(e, req);
    db.EditEventKeepsValid(found.value);
    r := Ok(MapToEventResponse(e, now));
  }

  /** The setter calls of updateEvent: each column the request carries is overwritten. */
  method PatchColumns(e: Event, req: UpdateEventRequest)
    modifies e
    ensures e.Record() == ApplyPatch(old(e.Record()), req)
  {
    PatchNames(e, req);
    PatchWindow(e, req);
    PatchFormat(e, req);
    PatchMoney(e, req);
    PatchDetails(e, req);
  }

  /** The event and game names, the event date and its start time. */
  method PatchNames(e: Event, req: UpdateEventRequest)
    modifies e`eventName, e`gameName, e`eventDate, e`eventStartTime
    ensures e.Record() == old(e.Record()).(
      eventName := req.eventName.GetOr(old(e.eventName)),
      gameName := req.gameName.GetOr(old(e.gameName)),
      eventDate := req.eventDate.GetOr(old(e.eventDate)),
      eventStartTime := req.eventStartTime.GetOr(old(e.eventStartTime)))
  {
    e.eventName := req.eventName.GetOr(e.eventName);
    e.gameName := req.gameName.GetOr(e.gameName);
    e.eventDate := req.eventDate.GetOr(e.eventDate);
    e.eventStartTime := req.eventStartTime.GetOr(e.eventStartTime);
  }

  /** The end time and the registration window. */
  method PatchWindow(e: Event, req: UpdateEventRequest)
    modifies e`eventEndTime, e`registrationOpenDate, e`registrationCloseDate
    ensures e.Record() == old(e.Record()).(
      eventEndTime := req.eventEndTime.GetOr(old(e.eventEndTime)),
      registrationOpenDate := req.registrationOpenDate.GetOr(old(e.registrationOpenDate)),
      registrationCloseDate := req.registrationCloseDate.GetOr(old(e.registrationCloseDate)))
  {
    e.eventEndTime := req.eventEndTime.GetOr(e.eventEndTime);
    e.registrationOpenDate := req.registrationOpenDate.GetOr(e.registrationOpenDate);
    e.registrationCloseDate := req.registrationCloseDate.GetOr(e.registrationCloseDate);
  }

  /** The team format and the participant bounds. */
  method PatchFormat(e: Event, req: UpdateEventRequest)
    modifies e`participationType, e`teamSize, e`maxParticipants, e`minParticipants
    ensures e.Record() == old(e.Record()).(
      participationType := req.participationType.GetOr(old(e.participationType)),
      teamSize := req.teamSize.GetOr(old(e.teamSize)),
      maxParticipants := req.maxParticipants.GetOr(old(e.maxParticipants)),
      minParticipants := req.minParticipants.GetOr(old(e.minParticipants)))
  {
    e.participationType := req.participationType.GetOr(e.participationType);
    e.teamSize := req.teamSize.GetOr(e.teamSize);
    e.maxParticipants := req.maxParticipants.GetOr(e.maxParticipants);
    e.minParticipants := req.minParticipants.GetOr(e.minParticipants);
  }

  /** The money columns; a null fee or prize pool in the request leaves the stored one. */
  method PatchMoney(e: Event, req: UpdateEventRequest)
    modifies e`isPaid, e`entryFee, e`prizePool
    ensures e.Record() == old(e.Record()).(
      isPaid := req.isPaid.GetOr(old(e.isPaid)),
      entryFee := if req.entryFee.Some? then req.entryFee else old(e.entryFee),
      prizePool := if req.prizePool.Some? then req.prizePool else old(e.prizePool))
  {
    e.isPaid := req.isPaid.GetOr(e.isPaid);
    e.entryFee := if req.entryFee.Some? then req.entryFee else e.entryFee;
    e.prizePool := if req.prizePool.Some? then req.prizePool else e.prizePool;
  }

  /** The free-text columns, merged over the stored ones, and the visibility. */
  method PatchDetails(e: Event, req: UpdateEventRequest)
    modifies e`attributes, e`visibility
    ensures e.Record() == old(e.Record()).(
      attributes := old(e.attributes) + req.attributes,
      visibility := req.visibility.GetOr(old(e.visibility)))
  {
    e.attributes := e.attributes + req.attributes;
    e.visibility := req.visibility.GetOr(e.visibility);
  }

  // ---------------------------------------------------------------------
  // deleteEvent
  // ---------------------------------------------------------------------

  /** The first check deleteEvent fails, if any: existence, ownership, no slots filled. */
  function DeleteEventFailure(events: seq<Event>, caller: User, key: nat): (r: Option<Error>)
    reads events
    ensures EventRepository.IndexOfId(events, key).None? ==> r == Some(Error(ResourceNotFound, NotFoundMessage(key)))
    ensures r.None? <==>
      var k := EventRepository.IndexOfId(events, key);
      k.Some? && IsOwnerOrAdmin(caller, events[k.value].organizerId) && events[k.value].slotsFilled <= 0
  {
    match EventRepository.IndexOfId(events, key)
    case None => Some(Error(ResourceNotFound, NotFoundMessage(key)))
    case Some(k) =>
      var e := events[k];
      if !IsOwnerOrAdmin(caller, e.organizerId) then Some(Error(Unauthorized, "You are not authorized to delete this event"))
      else if e.slotsFilled > 0
      then Some(Error(BadRequest, "Cannot delete event with existing registrations. Cancel the event instead."))
      else None
  }

  /** deleteEvent: removes exactly that event, and with it (by cascade) its registrations. */
  method DeleteEvent(db: Database, caller: User, key: nat) returns (r: Result<()>)
    requires db.Valid()
    modifies db
    ensures db.Valid()
    ensures var failure := old(DeleteEventFailure(db.events, caller, key));
      (failure.Some? ==> r == Err(failure.value)) && (failure.None? <==> r.Ok?)
    ensures r.Err? ==> unchanged(db)
    ensures r.Ok? ==>
      var k := EventRepository.IndexOfId(old(db.events), key).value;
      db.events == old(db.events[..k] + db.events[k + 1..])
      && db.registrations == CascadeDelete(old(db.registrations), key)
      && db.users == old(db.users)
    ensures db.nextUserId == old(db.nextUserId) && db.nextEventKey == old(db.nextEventKey)
    ensures db.nextRegistrationId == old(db.nextRegistrationId)
  {
    ghost var failure := DeleteEventFailure(db.events, caller, key);
    var found := EventRepository.IndexOfId(db.events, key);
    if found.None? {
      return Err(Error(ResourceNotFound, NotFoundMessage(key)));
    }
    var k := found.value;
    var e := db.events[k];
    if e.organizerId != caller.id && caller.role != Admin {
      return Err(Error(Unauthorized, "You are not authorized to delete this event"));
    }
    if e.slotsFilled > 0 {
      return Err(Error(BadRequest, "Cannot delete event with existing registrations. Cancel the event instead."));
    }
    assert failure.None? && e.id == key;
    db.DeleteEventAt(k);
    r := Ok(());
  }

  // ---------------------------------------------------------------------
  // publishEvent and cancelEvent
  // ---------------------------------------------------------------------

  /** The existence and ownership checks of publish and cancel, with the action named in the message. */
  function OwnedEventFailure(events: seq<Event>, caller: User, key: nat, action: string): (r: Option<Error>)
    reads events
    ensures r.None? <==>
      var k := EventRepository.IndexOfId(events, key);
      k.Some? && IsOwnerOrAdmin(caller, events[k.value].organizerId)
    ensures r.Some? ==> r.value.kind == ResourceNotFound || r.value.kind == Unauthorized
    ensures EventRepository.IndexOfId(events, key).None? ==> r == Some(Error(ResourceNotFound, NotFoundMessage(key)))
  {
    match EventRepository.IndexOfId(events, key)
    case None => Some(Error(ResourceNotFound, NotFoundMessage(key)))
    case Some(k) =>
      if !IsOwnerOrAdmin(caller, events[k].organizerId)
      then Some(Error(Unauthorized, "You are not authorized to " + action + " this event"))
      else None
  }

  /** setStatus: only the status column changes. */
  method SetStatus(e: Event, status: EventStatus)
    modifies e`status
    ensures e.Record() == old(e.Record()).(status := status)
  {
    e.status := status;
  }

  /** publishEvent: the status follows from `now` and the registration window, whatever it was before. */
  method PublishEvent(db: Database, caller: User, key: nat, now: DateTime) returns (r: Result<EventResponse>)
    requires db.Valid()
    modifies db.events
    ensures db.Valid()
    ensures var failure := old(OwnedEventFailure(db.events, caller, key, "publish"));
      (failure.Some? ==> r == Err(failure.value)) && (failure.None? <==> r.Ok?)
    ensures r.Err? ==> unchanged(db.events)
    ensures r.Ok? ==>
      var e := db.events[EventRepository.IndexOfId(db.events, key).value];
      e.Record() == old(e.Record()).(status := PublishedStatus(now, e.registrationOpenDate, e.registrationCloseDate))
      && r.value == MapToEventResponse(e, now)
    ensures forall i :: 0 <= i < |db.events| && db.events[i].id != key ==> unchanged(db.events[i])
  {
    ghost var failure := OwnedEventFailure(db.events, caller, key, "publish");
    var found := EventRepository.IndexOfId(db.events, key);
    if found.None? {
      return Err(Error(ResourceNotFound, NotFoundMessage(key)));
    }
    var e := db.events[found.value];
    if e.organizerId != caller.id && caller.role != Admin {
      return Err(Error(Unauthorized, "You are not authorized to publish this event"));
    }
    assert failure.None?;
    SetStatus(e, PublishedStatus(now, e.registrationOpenDate, e.registrationCloseDate));
    r := Ok(MapToEventResponse(e, now));
  }

  /** The remarks column after setRemarks(reason): a null reason clears it. */
  function WithRemarks(attributes: map<TextAttribute, string>, reason: Option<string>): (m: map<TextAttribute, string>)
    ensures reason.Some? ==> Remarks in m && m[Remarks] == reason.value
    ensures reason.None? ==> Remarks !in m
    ensures forall a :: a != Remarks ==> (a in m <==> a in attributes) && (a in m ==> m[a] == attributes[a])
  {
    if reason.Some? then attributes[Remarks := reason.value] else attributes - {Remarks}
  }

  /** The two setter calls of cancelEvent. */
  method MarkCancelled(e: Event, reason: Option<string>)
    modifies e`status, e`attributes
    ensures e.Record() == old(e.Record()).(
      status := EventStatus.Cancelled,
      attributes := WithRemarks(old(e.attributes), reason))
  {
    e.status := EventStatus.Cancelled;
    e.attributes := WithRemarks(e.attributes, reason);
  }

  /** cancelEvent: CANCELLED from any status, and the reason (possibly none) replaces the remarks. */
  method CancelEvent(db: Database, caller: User, key: nat, reason: Option<string>, now: DateTime)
    returns (r: Result<EventResponse>)
    requires db.Valid()
    modifies db.events
    ensures db.Valid()
    ensures var failure := old(OwnedEventFailure(db.events, caller, key, "cancel"));
      (failure.Some? ==> r == Err(failure.value)) && (failure.None? <==> r.Ok?)
    ensures r.Err? ==> unchanged(db.events)
    ensures r.Ok? ==>
      var e := db.events[EventRepository.IndexOfId(db.events, key).value];
      e.Record() == old(e.Record()).(status := EventStatus.Cancelled, attributes := WithRemarks(old(e.attributes), reason))
      && r.value == MapToEventResponse(e, now)
    ensures forall i :: 0 <= i < |db.events| && db.events[i].id != key ==> unchanged(db.events[i])
  {
    ghost var failure := OwnedEventFailure(db.events, caller, key, "cancel");
    var found := EventRepository.IndexOfId(db.events, key);
    if found.None? {
      return Err(Error(ResourceNotFound, NotFoundMessage(key)));
    }
    var e := db.events[found.value];
    if e.organizerId != caller.id && caller.role != Admin {
      return Err(Error(Unauthorized, "You are not authorized to cancel this event"));
    }
    assert failure.None?;
    assert forall i :: 0 <= i < |db.events| && i != found.value ==> db.events[i] != e;
    MarkCancelled(e, reason);
    db.EditEventKeepsValid(found.value);
    r := Ok(MapToEventResponse(e, now));
  }

  // ---------------------------------------------------------------------
  // Read-only operations
  // ---------------------------------------------------------------------

  /** getEventById */
  function GetEventById(events: seq<Event>, key: nat, now: DateTime): (r: Result<EventResponse>)
    reads events
    ensures r.Ok? <==> EventRepository.IndexOfId(events, key).Some?
    ensures r.Err? ==> r.error == Error(ResourceNotFound, NotFoundMessage(key))
    ensures r.Ok? ==> r.value.id == key
    ensures r.Ok? ==>
      var e := events[EventRepository.IndexOfId(events, key).value];
      r.value.event == e.Record() && r.value.isRegistrationOpen == e.IsRegistrationOpen(now)
      && r.value == MapToEventResponse(e, now)
  {
    match EventRepository.IndexOfId(events, key)
    case None => Err(Error(ResourceNotFound, NotFoundMessage(key)))
    case Some(k) => Ok(MapToEventResponse(events[k], now))
  }

  /** getEventByEventId: the lookup by the human-readable id. */
  function GetEventByEventId(events: seq<Event>, eventId: string, now: DateTime): (r: Result<EventResponse>)
    reads events
    ensures r.Ok? <==> EventRepository.ExistsByEventId(events, eventId)
    ensures r.Err? ==> r.error == Error(ResourceNotFound, "Event not found with event ID: " + eventId)
    ensures r.Ok? ==> r.value.event.eventId == eventId
    ensures r.Ok? ==>
      var e := events[EventRepository.FindByEventId(events, eventId).value];
      r.value.id == e.id && r.value.event == e.Record() && r.value.isRegistrationOpen == e.IsRegistrationOpen(now)
      && r.value == MapToEventResponse(e, now)
  {
    match EventRepository.FindByEventId(events, eventId)
    case None => Err(Error(ResourceNotFound, "Event not found with event ID: " + eventId))
    case Some(k) => Ok(MapToEventResponse(events[k], now))
  }

  /** The responses for a list of events, in order. */
  function Responses(events: seq<Event>, now: DateTime): (r: seq<EventResponse>)
    reads events
    ensures |r| == |events| && forall i :: 0 <= i < |r| ==> r[i] == MapToEventResponse(events[i], now)
  {
    if events == [] then [] else [MapToEventResponse(events[0], now)] + Responses(events[1..], now)
  }

  /** getAllEvents: one page of the whole table. */
  function GetAllEvents(events: seq<Event>, page: nat, size: nat, now: DateTime): (r: seq<EventResponse>)
    requires size >= 1
    reads events
    ensures |r| <= size
    ensures forall i :: 0 <= i < |r| ==>
      page * size + i < |events| && r[i] == MapToEventResponse(events[page * size + i], now)
    ensures var rows := Page(events, page, size);
      |r| == |rows| && forall i :: 0 <= i < |r| ==> r[i] == MapToEventResponse(rows[i], now)
  {
    Responses(Page(events, page, size), now)
  }

  /** getPublicEvents: PUBLIC events whose status is REGISTRATION_OPEN. */
  function GetPublicEvents(events: seq<Event>, page: nat, size: nat, now: DateTime): (r: seq<EventResponse>)
    requires size >= 1
    reads events
    ensures |r| <= size
    ensures forall i :: 0 <= i < |r| ==> r[i].event.visibility == Public && r[i].event.status == RegistrationOpen
    ensures var rows := Page(EventRepository.FindByVisibilityAndStatus(events, Public, RegistrationOpen), page, size);
      |r| == |rows| && forall i :: 0 <= i < |r| ==>
        r[i] == MapToEventResponse(rows[i], now) && r[i].id == rows[i].id && r[i].event == rows[i].Record()
  {
    PublicPage(events, page, size);
    Responses(Page(EventRepository.FindByVisibilityAndStatus(events, Public, RegistrationOpen), page, size), now)
  }

  /** A page of the caller's events holds stored events of that organizer. */
  lemma MyEventsPage(events: seq<Event>, caller: User, page: nat, size: nat)
    requires size >= 1
    ensures var s := EventRepository.FindByOrganizer(events, caller.id);
      var rows := Page(s, page, size);
      forall i :: 0 <= i < |rows| ==> rows[i] in events && rows[i].organizerId == caller.id
  {
    var s := EventRepository.FindByOrganizer(events, caller.id);
    var rows := Page(s, page, size);
    forall i | 0 <= i < |rows|
      ensures rows[i] in events && rows[i].organizerId == caller.id
    {
      assert rows[i] == s[page * size + i];
    }
  }

  /** A page of the public listing holds stored PUBLIC, REGISTRATION_OPEN events. */
  lemma PublicPage(events: seq<Event>, page: nat, size: nat)
    requires size >= 1
    ensures var s := EventRepository.FindByVisibilityAndStatus(events, Public, RegistrationOpen);
      var rows := Page(s, page, size);
      forall i :: 0 <= i < |rows| ==> rows[i] in events && rows[i].visibility == Public && rows[i].status == RegistrationOpen
  {
    var s := EventRepository.FindByVisibilityAndStatus(events, Public, RegistrationOpen);
    var rows := Page(s, page, size);
    forall i | 0 <= i < |rows|
      ensures rows[i] in events && rows[i].visibility == Public && rows[i].status == RegistrationOpen
    {
      assert rows[i] == s[page * size + i];
    }
  }

  /** A page of search hits holds stored PUBLIC, REGISTRATION_OPEN events that match the keyword. */
  lemma SearchPage(events: seq<Event>, keyword: string, page: nat, size: nat)
    requires size >= 1
    ensures var s := EventRepository.SearchEvents(events, keyword, RegistrationOpen, Public);
      var rows := Page(s, page, size);
      forall i :: 0 <= i < |rows| ==>
        rows[i] in events && rows[i].visibility == Public && rows[i].status == RegistrationOpen
        && EventRepository.KeywordMatches(rows[i], keyword)
  {
    var s := EventRepository.SearchEvents(events, keyword, RegistrationOpen, Public);
    var rows := Page(s, page, size);
    forall i | 0 <= i < |rows|
      ensures rows[i] in events && rows[i].visibility == Public && rows[i].status == RegistrationOpen
      ensures EventRepository.KeywordMatches(rows[i], keyword)
    {
      assert rows[i] == s[page * size + i];
    }
  }

  /** A page of the by-game listing holds stored REGISTRATION_OPEN events of a matching game. */
  lemma GamePage(events: seq<Event>, gameName: string, page: nat, size: nat)
    requires size >= 1
    ensures var s := EventRepository.FindByGameNameContainingIgnoreCaseAndStatus(events, gameName, RegistrationOpen);
      var rows := Page(s, page, size);
      forall i :: 0 <= i < |rows| ==>
        rows[i] in events && Contains(Lower(rows[i].gameName), Lower(gameName)) && rows[i].status == RegistrationOpen
  {
    var s := EventRepository.FindByGameNameContainingIgnoreCaseAndStatus(events, gameName, RegistrationOpen);
    var rows := Page(s, page, size);
    forall i | 0 <= i < |rows|
      ensures rows[i] in events && Contains(Lower(rows[i].gameName), Lower(gameName)) && rows[i].status == RegistrationOpen
    {
      assert rows[i] == s[page * size + i];
    }
  }

  /** A page of rows drawn from the table is drawn from the table. */
  lemma PageInTable(s: seq<Event>, events: seq<Event>, page: nat, size: nat)
    requires size >= 1
    requires forall i :: 0 <= i < |s| ==> s[i] in events
    ensures var rows := Page(s, page, size);
      forall i :: 0 <= i < |rows| ==> rows[i] in events
  {
  }

  /** A page of a list in date order is in date order. */
  lemma PageInDateOrder(s: seq<Event>, page: nat, size: nat, today: Date)
    requires size >= 1 && EventRepository.InDateOrder(s)
    requires forall i :: 0 <= i < |s| ==> !DateBefore(s[i].eventDate, today) && s[i].status == RegistrationOpen
    ensures EventRepository.InDateOrder(Page(s, page, size))
    ensures var rows := Page(s, page, size);
      forall i :: 0 <= i < |rows| ==> !DateBefore(rows[i].eventDate, today) && rows[i].status == RegistrationOpen
  {
    var rows := Page(s, page, size);
    forall i, j | 0 <= i < j < |rows|
      ensures !DateBefore(rows[j].eventDate, rows[i].eventDate)
    {
      assert rows[i] == s[page * size + i] && rows[j] == s[page * size + j];
    }
  }

  /** The responses are listed earliest event date first. */
  predicate ResponsesInDateOrder(r: seq<EventResponse>) {
    forall i, j :: 0 <= i < j < |r| ==> !DateBefore(r[j].event.eventDate, r[i].event.eventDate)
  }

  /** The responses of rows in date order, all open and dated today or later, keep those properties. */
  lemma UpcomingResponses(rows: seq<Event>, today: Date, now: DateTime)
    requires EventRepository.InDateOrder(rows)
    requires forall i :: 0 <= i < |rows| ==> !DateBefore(rows[i].eventDate, today) && rows[i].status == RegistrationOpen
    ensures var r := Responses(rows, now);
      forall i :: 0 <= i < |r| ==> !DateBefore(r[i].event.eventDate, today) && r[i].event.status == RegistrationOpen
    ensures ResponsesInDateOrder(Responses(rows, now))
  {
    var r := Responses(rows, now);
    forall i | 0 <= i < |r|
      ensures r[i].event.eventDate == rows[i].eventDate && r[i].event.status == rows[i].status
    {
    }
  }

  /** getUpcomingEvents: REGISTRATION_OPEN events dated today or later, earliest first. */
  function GetUpcomingEvents(events: seq<Event>, page: nat, size: nat, now: DateTime): (r: seq<EventResponse>)
    requires size >= 1
    reads events
    ensures |r| <= size
    ensures forall i :: 0 <= i < |r| ==> !DateBefore(r[i].event.eventDate, now.date) && r[i].event.status == RegistrationOpen
    ensures ResponsesInDateOrder(r)
    ensures var rows := Page(EventRepository.FindUpcomingEvents(events, now.date, RegistrationOpen), page, size);
      |r| == |rows| && forall i :: 0 <= i < |r| ==>
        r[i] == MapToEventResponse(rows[i], now) && r[i].id == rows[i].id && r[i].event == rows[i].Record()
  {
    var upcoming := EventRepository.FindUpcomingEvents(events, now.date, RegistrationOpen);
    PageInTable(upcoming, events, page, size);
    var rows := Page(upcoming, page, size);
    PageInDateOrder(upcoming, page, size, now.date);
    UpcomingResponses(rows, now.date, now);
    Responses(rows, now)
  }

  /** getMyEvents: the caller's own events, in every status. */
  function GetMyEvents(events: seq<Event>, caller: User, page: nat, size: nat, now: DateTime): (r: seq<EventResponse>)
    requires size >= 1
    reads events
    ensures |r| <= size
    ensures forall i :: 0 <= i < |r| ==> r[i].event.organizerId == caller.id
    ensures var rows := Page(EventRepository.FindByOrganizer(events, caller.id), page, size);
      |r| == |rows| && forall i :: 0 <= i < |r| ==>
        r[i] == MapToEventResponse(rows[i], now) && r[i].id == rows[i].id && r[i].event == rows[i].Record()
  {
    MyEventsPage(events, caller, page, size);
    Responses(Page(EventRepository.FindByOrganizer(events, caller.id), page, size), now)
  }

  /** searchEvents: PUBLIC, REGISTRATION_OPEN events whose name, game or description matches the keyword. */
  function SearchEvents(events: seq<Event>, keyword: string, page: nat, size: nat, now: DateTime): (r: seq<EventResponse>)
    requires size >= 1
    reads events
    ensures |r| <= size
    ensures forall i :: 0 <= i < |r| ==> r[i].event.visibility == Public && r[i].event.status == RegistrationOpen
    ensures forall i :: 0 <= i < |r| ==>
      EventRepository.LikeKeyword(r[i].event.eventName, keyword) || EventRepository.LikeKeyword(r[i].event.gameName, keyword)
      || (Description in r[i].event.attributes && EventRepository.LikeKeyword(r[i].event.attributes[Description], keyword))
    ensures var rows := Page(EventRepository.SearchEvents(events, keyword, RegistrationOpen, Public), page, size);
      |r| == |rows| && forall i :: 0 <= i < |r| ==>
        r[i] == MapToEventResponse(rows[i], now) && r[i].id == rows[i].id && r[i].event == rows[i].Record()
  {
    SearchPage(events, keyword, page, size);
    Responses(Page(EventRepository.SearchEvents(events, keyword, RegistrationOpen, Public), page, size), now)
  }

  /** getEventsByGame: REGISTRATION_OPEN events whose game name contains the argument, ignoring case. */
  function GetEventsByGame(events: seq<Event>, gameName: string, page: nat, size: nat, now: DateTime): (r: seq<EventResponse>)
    requires size >= 1
    reads events
    ensures |r| <= size
    ensures forall i :: 0 <= i < |r| ==>
      Contains(Lower(r[i].event.gameName), Lower(gameName)) && r[i].event.status == RegistrationOpen
    ensures var rows := Page(EventRepository.FindByGameNameContainingIgnoreCaseAndStatus(events, gameName, RegistrationOpen), page, size);
      |r| == |rows| && forall i :: 0 <= i < |r| ==>
        r[i] == MapToEventResponse(rows[i], now) && r[i].id == rows[i].id && r[i].event == rows[i].Record()
  {
    GamePage(events, gameName, page, size);
    Responses(Page(EventRepository.FindByGameNameContainingIgnoreCaseAndStatus(events, gameName, RegistrationOpen), page, size), now)
  }
}
