# PlayeroneBackend — event, registration and sign-up core in Dafny

PlayeroneBackend is a Spring Boot service for esports tournaments. Organizers create events,
publish them, update them, cancel them and delete them. Players register for published events,
and the organizer confirms or rejects each registration. This project models that core:

- the `Event` and `EventRegistration` entities, with the slot counter the event keeps;
- the repository queries, as filters and counts over in-memory tables;
- the two services: `EventService` and `EventRegistrationService`;
- the sign-up half of `AuthService`;
- the validation DTOs, `CreateEventRequest` and `UpdateEventRequest`;
- the error mapping of `GlobalExceptionHandler`.

Structure of the model:

- The database is a `class Database` (module `Persistence`). It holds the users, events and
  registrations tables as `seq` fields, plus the next identity value of each table. Its `Valid()`
  predicate states:
  - unique keys and unique human-readable event ids;
  - the unique columns of users and registrations;
  - each event's slot counter stays within capacity;
  - the foreign keys hold.
- `Event` is a `class`, because the services update its fields in place. Users and registrations
  are rows (datatypes) that the services replace in their table.
- Each service operation is a `method` over the database. Its contract does three things:
  - ties its outcome to a pure "first failing check" function (`UpdateEventFailure`,
    `RegisterFailure`, ...);
  - gives the exact new state on success;
  - says nothing changes on failure.
- Read-only operations are functions over the tables.
- The signed-in user (`caller`), the clock (`now`), the password encoder's output and the JWT are
  parameters.

## Model

Source cells give a file's path in the repository and the lines the member models.

| member | source | states |
|---|---|---|
| Errors.StatusCode | src/main/java/com/example/PlayeroneBackend/exception/GlobalExceptionHandler.java:18-94 | not-found is 404, bad request 400, unauthorized 403 (not 401), the three conflict exceptions 409, each exactly |
| Errors.HandleError | src/main/java/com/example/PlayeroneBackend/exception/GlobalExceptionHandler.java:18-119 | the body carries the handler's status, the exception's message, the request path and the status title |
| Errors.ConflictsDistinguishedByTitle | src/main/java/com/example/PlayeroneBackend/exception/GlobalExceptionHandler.java:57-94 | two different 409 exceptions always carry different error titles |
| Errors.HandleValidationErrors | src/main/java/com/example/PlayeroneBackend/exception/GlobalExceptionHandler.java:96-106 | validation failures answer 400 with the field-to-message map |
| Errors.FieldErrorMapKeys | src/main/java/com/example/PlayeroneBackend/exception/GlobalExceptionHandler.java:99-103 | a field is a key of the map iff some error names it |
| Errors.FieldErrorMapLastWins | src/main/java/com/example/PlayeroneBackend/exception/GlobalExceptionHandler.java:99-103 | for a field named twice, the later `put` wins: the map holds the last message |
| Time.AtStartOfDay | src/main/java/com/example/PlayeroneBackend/service/EventService.java:311-313 | the first instant of the date: no time on that date is earlier |
| Time.BeforeIsStrictTotalOrder | src/main/java/com/example/PlayeroneBackend/service/EventService.java:302-316 | the timestamp order the date rules use is irreflexive, transitive, total and asymmetric |
| Time.ValidDateTime | src/main/java/com/example/PlayeroneBackend/dto/CreateEventRequest.java:29-43 | a timestamp the JSON layer can build: a valid date and a nanosecond within its day |
| Time.ValidTimeOfDay | src/main/java/com/example/PlayeroneBackend/dto/CreateEventRequest.java:33-37 | a time of day the JSON layer can build: a second within the day |
| Text.Lower | src/main/java/com/example/PlayeroneBackend/repository/EventRepository.java:45-53 | LOWER keeps the length and lower-cases each ASCII letter in place |
| Text.LikeIsContains | src/main/java/com/example/PlayeroneBackend/repository/EventRepository.java:45-53 | for a keyword without wildcards, `LIKE '%kw%'` holds iff the text contains the keyword |
| Text.LikeTrailingPercent | src/main/java/com/example/PlayeroneBackend/repository/EventRepository.java:45-53 | `LIKE 'p%'` holds iff `p` is a prefix, for `p` without wildcards |
| Text.LikePercentMatchesAll | src/main/java/com/example/PlayeroneBackend/repository/EventRepository.java:45-53 | an empty keyword (`'%%'`) matches every text |
| Text.FormatPaddedRoundTrip | src/main/java/com/example/PlayeroneBackend/service/EventService.java:296-300 | reading back a zero-padded `%0Nd` number gives the number |
| Text.ParseDecimalOfDecimal | src/main/java/com/example/PlayeroneBackend/service/EventService.java:296-300 | decimal printing and parsing are inverse |
| Users.IndexOfUser | src/main/java/com/example/PlayeroneBackend/service/EventRegistrationService.java:257-259 | the lookup by id finds a row with that id, and finds none exactly when no row has it |
| Users.ExistsByUsername | src/main/java/com/example/PlayeroneBackend/service/AuthService.java:28-30 | some stored user has the username |
| Users.ExistsByEmail | src/main/java/com/example/PlayeroneBackend/service/AuthService.java:32-34 | some stored user has the email |
| Users.ExistsByPhoneNumber | src/main/java/com/example/PlayeroneBackend/service/AuthService.java:36-38 | some stored user has the phone number |
| Users.UniqueUsers | src/main/java/com/example/PlayeroneBackend/entity/User.java:18-27 | no two users share an id, a username, an email or a phone number |
| Events.Event.constructor | src/main/java/com/example/PlayeroneBackend/entity/Event.java:133-162 | a new event copies every given column; it starts with 0 slots filled, DRAFT and PUBLIC |
| Events.Event.IsFull | src/main/java/com/example/PlayeroneBackend/entity/Event.java:174-176 | full iff slotsFilled >= maxParticipants |
| Events.Event.IsRegistrationOpen | src/main/java/com/example/PlayeroneBackend/entity/Event.java:178-182 | open iff strictly inside the window, REGISTRATION_OPEN and not full |
| Events.Event.IncrementSlotsFilled | src/main/java/com/example/PlayeroneBackend/entity/Event.java:184-186 | adds one to the counter and changes no other column; a non-full event stays within capacity |
| Events.Event.DecrementSlotsFilled | src/main/java/com/example/PlayeroneBackend/entity/Event.java:188-192 | subtracts one only when positive, so it never goes below 0; changes no other column |
| Events.OpenImpliesNotFull | src/main/java/com/example/PlayeroneBackend/entity/Event.java:174-182 | an event open for registration has a free slot |
| Events.OpenWindowExcludesEndpoints | src/main/java/com/example/PlayeroneBackend/entity/Event.java:178-182 | the strict isAfter/isBefore test rejects both the opening and the closing instant |
| Registrations.Build | src/main/java/com/example/PlayeroneBackend/entity/EventRegistration.java:38-68 | a built row defaults its status to PENDING and has no cancellation data |
| Registrations.UniqueRows | src/main/java/com/example/PlayeroneBackend/entity/EventRegistration.java:12-14 | no two registrations share an id or the same (event, user) pair |
| CreateEventDto.FutureIsStricterThanNotPast | src/main/java/com/example/PlayeroneBackend/dto/CreateEventRequest.java:29-31 | a valid request's event date is strictly after today, so today is refused before the service runs |
| CreateEventDto.CreateEventRequest.Valid | src/main/java/com/example/PlayeroneBackend/dto/CreateEventRequest.java:16-114 | every bean-validation annotation of the request, with @Future checked against today |
| CreateEventDto.MinAboveMaxPassesValidation | src/main/java/com/example/PlayeroneBackend/dto/CreateEventRequest.java:53-60 | bean validation has no cross-field rule: a request with min > max passes it |
| UpdateEventDto.EmptyPatch | src/main/java/com/example/PlayeroneBackend/dto/UpdateEventRequest.java:16-100 | the all-null request is valid |
| UpdateEventDto.UpdateEventRequest.Valid | src/main/java/com/example/PlayeroneBackend/dto/UpdateEventRequest.java:16-100 | the size and range annotations, each passed by a null field |
| UpdateEventDto.NoCrossFieldConstraint | src/main/java/com/example/PlayeroneBackend/dto/UpdateEventRequest.java:16-100 | an update request with an inverted window and min > max is valid |
| Paging.Page | src/main/java/com/example/PlayeroneBackend/repository/EventRepository.java:27 | a page has at most `size` rows; it is the slice starting at `page*size`, empty past the end |
| Paging.ElementOnItsPage | src/main/java/com/example/PlayeroneBackend/repository/EventRepository.java:27 | row `k` appears on page `k / size` at offset `k % size` |
| EventRepository.Select | src/main/java/com/example/PlayeroneBackend/repository/EventRepository.java:20-67 | a query returns exactly the rows of the table that satisfy its WHERE clause |
| EventRepository.IndexOfId | src/main/java/com/example/PlayeroneBackend/service/EventService.java:109-110 | findById finds a row with the key, or reports that none has it |
| EventRepository.FindByEventId | src/main/java/com/example/PlayeroneBackend/repository/EventRepository.java:22-24 | found iff existsByEventId, and the row found carries that id |
| EventRepository.ExistsByEventId | src/main/java/com/example/PlayeroneBackend/repository/EventRepository.java:24 | some row carries the event id |
| EventRepository.FindByOrganizer | src/main/java/com/example/PlayeroneBackend/repository/EventRepository.java:27-29 | exactly the organizer's events, in every status |
| EventRepository.CountByOrganizer | src/main/java/com/example/PlayeroneBackend/repository/EventRepository.java:62 | the count is bounded by the table size |
| EventRepository.CountByOrganizerIsSize | src/main/java/com/example/PlayeroneBackend/repository/EventRepository.java:27-29 | countByOrganizer equals the number of rows findByOrganizer returns |
| EventRepository.FindByStatus | src/main/java/com/example/PlayeroneBackend/repository/EventRepository.java:32 | exactly the rows in the status |
| EventRepository.PublicListingWithinStatus | src/main/java/com/example/PlayeroneBackend/repository/EventRepository.java:32-35 | every row of the visibility-and-status listing is in the status listing |
| EventRepository.FindByVisibilityAndStatus | src/main/java/com/example/PlayeroneBackend/repository/EventRepository.java:35 | exactly the rows with both the visibility and the status |
| EventRepository.FindByGameNameContainingIgnoreCaseAndStatus | src/main/java/com/example/PlayeroneBackend/repository/EventRepository.java:42 | exactly the rows in the status whose lower-cased game name contains the lower-cased argument |
| EventRepository.SearchEvents | src/main/java/com/example/PlayeroneBackend/repository/EventRepository.java:45-53 | exactly the rows in the status and visibility whose name, game or non-null description is LIKE the keyword |
| EventRepository.FindEventsWithOpenRegistration | src/main/java/com/example/PlayeroneBackend/repository/EventRepository.java:56-59 | exactly the REGISTRATION_OPEN rows with `open <= now < close` and a free slot |
| EventRepository.FindEventsByDateRange | src/main/java/com/example/PlayeroneBackend/repository/EventRepository.java:65-66 | exactly the rows dated within the inclusive BETWEEN range |
| EventRepository.InsertByDate | src/main/java/com/example/PlayeroneBackend/repository/EventRepository.java:38 | inserting into a date-ordered list keeps it ordered and adds exactly the one row |
| EventRepository.SortByDate | src/main/java/com/example/PlayeroneBackend/repository/EventRepository.java:38 | the result is in date order and a permutation of the input |
| EventRepository.SortedRows | src/main/java/com/example/PlayeroneBackend/repository/EventRepository.java:38 | the rows of a sorted permutation are the same rows, in date order |
| EventRepository.FindUpcomingEvents | src/main/java/com/example/PlayeroneBackend/repository/EventRepository.java:38-39 | exactly the rows in the status dated today or later, ordered by event date ascending |
| EventRepository.KeywordLikeIsContainment | src/main/java/com/example/PlayeroneBackend/repository/EventRepository.java:45-53 | for a keyword without % or _, the LIKE search is case-insensitive containment |
| EventRepository.UnderscoreIsWildcard | src/main/java/com/example/PlayeroneBackend/repository/EventRepository.java:45-53 | the keyword is not escaped: "B_MI" finds "BGMI", which does not contain it |
| EventRepository.OpenRegistrationQueryIncludesWindowStart | src/main/java/com/example/PlayeroneBackend/repository/EventRepository.java:56-59 | every event isRegistrationOpen accepts is in the query; the query also lists an event at its opening instant, where isRegistrationOpen says no |
| EventRegistrationRepository.Select | src/main/java/com/example/PlayeroneBackend/repository/EventRegistrationRepository.java:27-37 | a query returns exactly the rows that satisfy its condition |
| EventRegistrationRepository.IndexOfId | src/main/java/com/example/PlayeroneBackend/service/EventRegistrationService.java:95-96 | findById finds a row with the id, or reports that none has it |
| EventRegistrationRepository.FindByEventAndUser | src/main/java/com/example/PlayeroneBackend/repository/EventRegistrationRepository.java:21-24 | found iff existsByEventAndUser, and the row found links that event and user |
| EventRegistrationRepository.ExistsByEventAndUser | src/main/java/com/example/PlayeroneBackend/repository/EventRegistrationRepository.java:21 | some row, in any status, links the event and the user |
| EventRegistrationRepository.FindByEvent | src/main/java/com/example/PlayeroneBackend/repository/EventRegistrationRepository.java:27-29 | exactly the event's rows |
| EventRegistrationRepository.FindByUser | src/main/java/com/example/PlayeroneBackend/repository/EventRegistrationRepository.java:32-34 | exactly the user's rows |
| EventRegistrationRepository.FindByEventAndStatus | src/main/java/com/example/PlayeroneBackend/repository/EventRegistrationRepository.java:37 | exactly the event's rows in the status |
| EventRegistrationRepository.FindConfirmedRegistrationsByEventId | src/main/java/com/example/PlayeroneBackend/repository/EventRegistrationRepository.java:46-47 | exactly the event's CONFIRMED rows |
| EventRegistrationRepository.CountByEvent | src/main/java/com/example/PlayeroneBackend/repository/EventRegistrationRepository.java:40 | the count is bounded by the table size |
| EventRegistrationRepository.CountByEventAndStatus | src/main/java/com/example/PlayeroneBackend/repository/EventRegistrationRepository.java:43 | the count per status never exceeds the count per event |
| EventRegistrationRepository.FindUpcomingRegistrationsByUserId | src/main/java/com/example/PlayeroneBackend/repository/EventRegistrationRepository.java:50-52 | exactly the user's rows whose status is PENDING or CONFIRMED and whose event is dated today or later |
| EventRegistrationRepository.CountByEventIsSize | src/main/java/com/example/PlayeroneBackend/repository/EventRegistrationRepository.java:27-40 | countByEvent equals the number of rows findByEvent returns |
| EventRegistrationRepository.CountByEventAndStatusIsSize | src/main/java/com/example/PlayeroneBackend/repository/EventRegistrationRepository.java:37-43 | countByEventAndStatus equals the number of rows findByEventAndStatus returns |
| EventRegistrationRepository.ConfirmedIsByEventAndStatus | src/main/java/com/example/PlayeroneBackend/repository/EventRegistrationRepository.java:37-47 | the confirmed-rows query is findByEventAndStatus with CONFIRMED |
| EventRegistrationRepository.CountsByStatusAddUp | src/main/java/com/example/PlayeroneBackend/repository/EventRegistrationRepository.java:40-43 | the four per-status counts add up to the per-event count |
| EventRegistrationRepository.ExistsIgnoresStatus | src/main/java/com/example/PlayeroneBackend/repository/EventRegistrationRepository.java:21-24 | a row of any status, cancelled and rejected included, makes the pair exist |
| EventRegistrationRepository.FindByEventAndUserIsTheRow | src/main/java/com/example/PlayeroneBackend/entity/EventRegistration.java:14 | under the unique (event, user) constraint, the lookup returns that very row |
| Persistence.CascadeDelete | src/main/java/com/example/PlayeroneBackend/entity/Event.java:127-130 | deleting an event removes exactly its registrations and keeps all others |
| Persistence.DistinctEventIds | src/main/java/com/example/PlayeroneBackend/entity/Event.java:31-32 | the `event_id` column is unique across the events table |
| Persistence.DistinctKeys | src/main/java/com/example/PlayeroneBackend/entity/Event.java:26-29 | no two events share a database id |
| Persistence.UsersValid | src/main/java/com/example/PlayeroneBackend/entity/User.java:18-27 | the users table has unique columns and ids below the next generated id |
| Persistence.EventsValid | src/main/java/com/example/PlayeroneBackend/entity/Event.java:26-32 | distinct keys and event ids below the next key, a stored organizer, and 0 <= slotsFilled <= maxParticipants |
| Persistence.RegistrationsValid | src/main/java/com/example/PlayeroneBackend/entity/EventRegistration.java:12-33 | the unique constraint, ids below the next id, and both foreign keys reference stored rows |
| Persistence.Database.Valid | src/main/java/com/example/PlayeroneBackend/entity/Event.java:26-32 | the three tables each satisfy their invariant, which every service operation keeps |
| Persistence.CascadeDeleteKeepsUnique | src/main/java/com/example/PlayeroneBackend/entity/EventRegistration.java:14 | the cascade keeps ids and (event, user) pairs unique |
| Persistence.RemoveEventKeepsValid | src/main/java/com/example/PlayeroneBackend/service/EventService.java:179 | removing an event keeps the events table invariant |
| Persistence.RemoveEventKeepsRegistrations | src/main/java/com/example/PlayeroneBackend/entity/Event.java:127-130 | after the cascade, every remaining registration still names a stored event |
| Persistence.RemoveEventKeepsOthers | src/main/java/com/example/PlayeroneBackend/service/EventService.java:179 | other events stay findable after a delete |
| Persistence.AppendEventKeepsValid | src/main/java/com/example/PlayeroneBackend/service/EventService.java:101 | saving a new event with the next key, a fresh event id and capacity kept keeps the events table invariant |
| Persistence.AppendEventKeepsKeys | src/main/java/com/example/PlayeroneBackend/service/EventService.java:101 | stored events stay findable after an insert |
| Persistence.AppendRowKeepsValid | src/main/java/com/example/PlayeroneBackend/service/EventRegistrationService.java:82 | a new row for a fresh (event, user) pair with the next id keeps the registrations invariant |
| Persistence.ReplaceRowKeepsValid | src/main/java/com/example/PlayeroneBackend/service/EventRegistrationService.java:114 | re-saving a row with the same id, event and user keeps the invariant |
| Persistence.AppendUserKeepsIds | src/main/java/com/example/PlayeroneBackend/service/AuthService.java:66 | stored users stay findable after an insert |
| Persistence.AppendUserKeepsValid | src/main/java/com/example/PlayeroneBackend/entity/User.java:20-27 | a user whose username, email and phone are free keeps the three columns unique |
| Persistence.Database.InsertEvent | src/main/java/com/example/PlayeroneBackend/service/EventService.java:101 | appends the event under the next key, its event id not yet stored; the other tables are unchanged |
| Persistence.Database.DeleteEventAt | src/main/java/com/example/PlayeroneBackend/service/EventService.java:179 | removes the event and cascades to its registrations; the invariant holds |
| Persistence.Database.InsertRegistration | src/main/java/com/example/PlayeroneBackend/service/EventRegistrationService.java:82 | appends the row under the next id; the invariant holds |
| Persistence.Database.ReplaceRegistrationAt | src/main/java/com/example/PlayeroneBackend/service/EventRegistrationService.java:114 | replaces one row in place; the invariant holds |
| Persistence.Database.InsertUser | src/main/java/com/example/PlayeroneBackend/service/AuthService.java:66 | appends the user under the next id; the invariant holds |
| Persistence.Database.EditEventKeepsValid | src/main/java/com/example/PlayeroneBackend/entity/Event.java:184-192 | editing one event in place, within capacity and with the same event id and organizer, keeps the invariant |
| Persistence.Database.constructor | src/main/java/com/example/PlayeroneBackend/entity/EventRegistration.java:14 | the empty database satisfies the invariant |
| EventRules.ValidateEventDates | src/main/java/com/example/PlayeroneBackend/service/EventService.java:302-316 | accepts iff the date is not past, open is not after close, and close is not after the event day's midnight; each of the three failures returns its own message |
| EventRules.DateRulesAcceptBoundaries | src/main/java/com/example/PlayeroneBackend/service/EventService.java:302-316 | an event today whose window opens and closes at midnight passes: every comparison is strict |
| EventRules.CloseAfterMidnightRejected | src/main/java/com/example/PlayeroneBackend/service/EventService.java:313-315 | registration closing even one instant after the event day's start is refused |
| EventRules.CreateEventFailure | src/main/java/com/example/PlayeroneBackend/service/EventService.java:42-58 | passes iff organizer or admin, the dates pass, min <= max and a paid event has a positive fee; a player gets Unauthorized |
| EventRules.NewEventRecord | src/main/java/com/example/PlayeroneBackend/service/EventService.java:63-99 | the request's columns, the caller as organizer, 0 slots filled, DRAFT |
| EventRules.NewEventWithinCapacity | src/main/java/com/example/PlayeroneBackend/service/EventService.java:63-99 | a created event is DRAFT with 0 of max slots filled, min <= max, the caller as organizer, and a fee when paid |
| EventRules.GenerateEventId | src/main/java/com/example/PlayeroneBackend/service/EventService.java:296-300 | the id starts with "EVT-" |
| EventRules.GenerateEventIdRoundTrip | src/main/java/com/example/PlayeroneBackend/service/EventService.java:296-300 | the id parses back to the date and row count + 1 |
| EventRules.ParseAssembledId | src/main/java/com/example/PlayeroneBackend/service/EventService.java:296-300 | the id's digit fields are read back exactly |
| EventRules.GenerateEventIdInjective | src/main/java/com/example/PlayeroneBackend/service/EventService.java:296-300 | two ids are equal only when date and row count are |
| EventRules.PublishedStatus | src/main/java/com/example/PlayeroneBackend/service/EventService.java:196-203 | UPCOMING before the window, REGISTRATION_OPEN inside it, REGISTRATION_CLOSED from the close on, each iff |
| EventRules.PublishedOpenAtWindowStart | src/main/java/com/example/PlayeroneBackend/service/EventService.java:196-203 | publishing at the opening instant marks the event open though isRegistrationOpen refuses it then |
| EventRules.EmptyPatchIsIdentity | src/main/java/com/example/PlayeroneBackend/service/EventService.java:120-154 | an all-null update changes nothing |
| EventRules.PatchIsIdempotent | src/main/java/com/example/PlayeroneBackend/service/EventService.java:120-154 | applying the same update twice equals applying it once |
| EventRules.ApplyPatch | src/main/java/com/example/PlayeroneBackend/service/EventService.java:120-154 | each non-null request field replaces its column; null fields keep it |
| EventRules.PatchKeepsBookkeeping | src/main/java/com/example/PlayeroneBackend/service/EventService.java:120-154 | each patchable column takes the request's value when given and keeps its old value when null; eventId, organizer, slots and status never change |
| EventRules.PatchKeepsCapacity | src/main/java/com/example/PlayeroneBackend/service/EventService.java:130-135 | with the guard on max, the slots stay within capacity |
| EventRules.PatchCanInvertBounds | src/main/java/com/example/PlayeroneBackend/service/EventService.java:130-136 | an update may leave min above max: nothing re-checks the pair |
| EventRules.MapToEventResponse | src/main/java/com/example/PlayeroneBackend/service/EventService.java:318-363 | the response copies the event's columns; isRegistrationOpen is the entity's test at `now`; slotsAvailable is max - filled, <= 0 iff full, and positive whenever registration is open |
| EventService.CreateEvent | src/main/java/com/example/PlayeroneBackend/service/EventService.java:38-105 | fails with the first failing check or on a taken event id, changing nothing; else appends the new DRAFT event under the next key, advances that counter and returns its response |
| EventService.NewEvent | src/main/java/com/example/PlayeroneBackend/service/EventService.java:63-99 | the built event has the request's columns and the given key |
| EventService.UpdateEventFailure | src/main/java/com/example/PlayeroneBackend/service/EventService.java:109-135 | passes iff found, owner or admin, and a given max is not below the filled slots |
| EventService.UpdateEvent | src/main/java/com/example/PlayeroneBackend/service/EventService.java:108-160 | on success the event's columns are the patch applied to the old ones; other events unchanged; on failure nothing changes |
| EventService.PatchColumns | src/main/java/com/example/PlayeroneBackend/service/EventService.java:120-154 | the event's columns become ApplyPatch of the old ones |
| EventService.DeleteEventFailure | src/main/java/com/example/PlayeroneBackend/service/EventService.java:164-177 | passes iff found, owner or admin, and no slot is filled |
| EventService.DeleteEvent | src/main/java/com/example/PlayeroneBackend/service/EventService.java:163-181 | on success the event and its registrations are removed and the id counters are kept; on failure nothing changes |
| EventService.OwnedEventFailure | src/main/java/com/example/PlayeroneBackend/service/EventService.java:185-194 | passes iff found and owner or admin |
| EventService.PublishEvent | src/main/java/com/example/PlayeroneBackend/service/EventService.java:184-209 | on success only the status changes, to the published status for `now` |
| EventService.SetStatus | src/main/java/com/example/PlayeroneBackend/service/EventService.java:197-203 | only the status column changes, to the given status |
| EventService.WithRemarks | src/main/java/com/example/PlayeroneBackend/service/EventService.java:223-224 | the remarks become the reason (null clears them); other text columns are kept |
| EventService.MarkCancelled | src/main/java/com/example/PlayeroneBackend/service/EventService.java:223-224 | status CANCELLED and the remarks set from the reason; no other column changes |
| EventService.CancelEvent | src/main/java/com/example/PlayeroneBackend/service/EventService.java:212-230 | on success the event is CANCELLED with the reason as remarks; slots and registrations are untouched |
| EventService.GetEventById | src/main/java/com/example/PlayeroneBackend/service/EventService.java:233-238 | not-found with its message iff the key is missing; otherwise the response is the stored event's mapped response: its columns and its open-for-registration test |
| EventService.GetEventByEventId | src/main/java/com/example/PlayeroneBackend/service/EventService.java:241-246 | not-found "Event not found with event ID: " iff no row has the id; otherwise the mapped response of that row: its key and columns |
| EventService.Responses | src/main/java/com/example/PlayeroneBackend/service/EventService.java:249-252 | each row maps to its response, in order |
| EventService.GetAllEvents | src/main/java/com/example/PlayeroneBackend/service/EventService.java:249-252 | the responses are exactly the mapped rows of the requested page of the whole table, in order, and as many |
| EventService.GetPublicEvents | src/main/java/com/example/PlayeroneBackend/service/EventService.java:255-259 | the responses are exactly the rows of the requested page of the PUBLIC and REGISTRATION_OPEN listing, in order; every listed event is public and open |
| EventService.GetUpcomingEvents | src/main/java/com/example/PlayeroneBackend/service/EventService.java:262-265 | the responses are exactly the rows of the requested page of the open events dated today or later, in date order |
| EventService.GetMyEvents | src/main/java/com/example/PlayeroneBackend/service/EventService.java:268-272 | the responses are exactly the rows of the requested page of the caller's events, in order |
| EventService.SearchEvents | src/main/java/com/example/PlayeroneBackend/service/EventService.java:275-279 | the responses are exactly the rows of the requested page of the public, open events LIKE the keyword in name, game or description |
| EventService.GetEventsByGame | src/main/java/com/example/PlayeroneBackend/service/EventService.java:282-286 | the responses are exactly the rows of the requested page of the open events whose game name contains the argument, ignoring case |
| EventService.MyEventsPage | src/main/java/com/example/PlayeroneBackend/service/EventService.java:268-272 | every row on a page of the organizer's listing is a stored event of the caller |
| EventService.PublicPage | src/main/java/com/example/PlayeroneBackend/service/EventService.java:255-259 | every row on a page of the public listing is stored, public and open |
| EventService.SearchPage | src/main/java/com/example/PlayeroneBackend/service/EventService.java:275-279 | every row on a page of the search is stored, public, open and matches the keyword |
| EventService.GamePage | src/main/java/com/example/PlayeroneBackend/service/EventService.java:282-286 | every row on a page of the game listing is stored, open and matches the game |
| EventService.PageInDateOrder | src/main/java/com/example/PlayeroneBackend/service/EventService.java:262-265 | a page of a date-ordered listing is date-ordered |
| EventService.UpcomingResponses | src/main/java/com/example/PlayeroneBackend/service/EventService.java:262-265 | mapping rows to responses keeps their dates, status and order |
| EventRegistrationService.EventOf | src/main/java/com/example/PlayeroneBackend/service/EventRegistrationService.java:255-256 | the row's event is the stored event its key names |
| EventRegistrationService.UserOf | src/main/java/com/example/PlayeroneBackend/service/EventRegistrationService.java:257-259 | the row's user is the stored user its id names |
| EventRegistrationService.MapToRegistrationResponse | src/main/java/com/example/PlayeroneBackend/service/EventRegistrationService.java:252-269 | the response copies the row's columns with its event's name and its user's name and email |
| EventRegistrationService.RegisterEventRequest.Valid | src/main/java/com/example/PlayeroneBackend/dto/RegisterEventRequest.java:12-16 | team name at most 100 characters, notes at most 1000, each only when given |
| EventRegistrationService.Enroll | src/main/java/com/example/PlayeroneBackend/service/EventRegistrationService.java:82-86 | appends the row under the next id and adds one filled slot to its event; the invariant holds |
| EventRegistrationService.Release | src/main/java/com/example/PlayeroneBackend/service/EventRegistrationService.java:110-119 | overwrites the row and gives back one slot of its event (never below 0); the invariant holds |
| EventRegistrationService.Responses | src/main/java/com/example/PlayeroneBackend/service/EventRegistrationService.java:181-182 | each row maps to its response, in order, keeping id, event, user and status |
| EventRegistrationService.RegisterFailure | src/main/java/com/example/PlayeroneBackend/service/EventRegistrationService.java:41-68 | passes iff player, found, open, not already registered in any status, and a paid event brings a transaction id; each failure has its kind and message |
| EventRegistrationService.EventFullIsUnreachable | src/main/java/com/example/PlayeroneBackend/service/EventRegistrationService.java:49-56 | a full event is refused as closed, so the event-full exception is never thrown |
| EventRegistrationService.NewRegistration | src/main/java/com/example/PlayeroneBackend/service/EventRegistrationService.java:71-80 | PENDING when paid, CONFIRMED when free; amount is the entry fee; payment unverified |
| EventRegistrationService.RegisterForEvent | src/main/java/com/example/PlayeroneBackend/service/EventRegistrationService.java:36-91 | on success appends the new row and adds one filled slot, other events unchanged; on failure nothing changes |
| EventRegistrationService.CancelFailure | src/main/java/com/example/PlayeroneBackend/service/EventRegistrationService.java:95-108 | passes iff found, the caller's own row, and not already cancelled |
| EventRegistrationService.CancelledRow | src/main/java/com/example/PlayeroneBackend/service/EventRegistrationService.java:111-113 | status CANCELLED, cancelled now, reason "Cancelled by user"; other columns kept |
| EventRegistrationService.CancelRegistration | src/main/java/com/example/PlayeroneBackend/service/EventRegistrationService.java:93-122 | on success the row is cancelled and its event's counter decremented; on failure nothing changes |
| EventRegistrationService.ConfirmFailure | src/main/java/com/example/PlayeroneBackend/service/EventRegistrationService.java:126-139 | passes iff found, the caller owns the event or is admin, and the row is not already confirmed |
| EventRegistrationService.ConfirmedRow | src/main/java/com/example/PlayeroneBackend/service/EventRegistrationService.java:141-144 | status CONFIRMED; payment marked verified only for a paid event |
| EventRegistrationService.ConfirmRegistration | src/main/java/com/example/PlayeroneBackend/service/EventRegistrationService.java:124-150 | on success the row is confirmed, the counter untouched; on failure nothing changes |
| EventRegistrationService.RejectFailure | src/main/java/com/example/PlayeroneBackend/service/EventRegistrationService.java:154-163 | passes iff found and the caller owns the event or is admin, whatever the row's status |
| EventRegistrationService.RejectedRow | src/main/java/com/example/PlayeroneBackend/service/EventRegistrationService.java:165-166 | status REJECTED with the reason; other columns kept |
| EventRegistrationService.RejectRegistration | src/main/java/com/example/PlayeroneBackend/service/EventRegistrationService.java:152-176 | on success the row is rejected and its event's counter decremented; on failure nothing changes |
| EventRegistrationService.MyRegistrationsPage | src/main/java/com/example/PlayeroneBackend/service/EventRegistrationService.java:178-183 | every row on a page of the caller's listing is the caller's, with stored references |
| EventRegistrationService.EventRegistrationsPage | src/main/java/com/example/PlayeroneBackend/service/EventRegistrationService.java:197-198 | every row on a page of the event's listing is the event's, with stored references |
| EventRegistrationService.GetMyRegistrations | src/main/java/com/example/PlayeroneBackend/service/EventRegistrationService.java:178-183 | the responses are the rows of the requested page of the caller's registrations, in order, with their ids and statuses |
| EventRegistrationService.ListingFailure | src/main/java/com/example/PlayeroneBackend/service/EventRegistrationService.java:187-195 | passes iff found and the caller owns the event or is admin |
| EventRegistrationService.EventPage | src/main/java/com/example/PlayeroneBackend/service/EventRegistrationService.java:197-198 | the responses are the rows of the requested page of the event's registrations, in order, with their ids and statuses |
| EventRegistrationService.GetEventRegistrations | src/main/java/com/example/PlayeroneBackend/service/EventRegistrationService.java:185-199 | lists only when the listing check passes, and then the requested page of the event's registrations, in order |
| EventRegistrationService.GetConfirmedRegistrations | src/main/java/com/example/PlayeroneBackend/service/EventRegistrationService.java:201-216 | lists only when allowed; then one response per row of findConfirmedRegistrationsByEventId, in order, with its id and user, each CONFIRMED and of the event, as many as countByEventAndStatus(CONFIRMED) |
| EventRegistrationService.GetRegistrationById | src/main/java/com/example/PlayeroneBackend/service/EventRegistrationService.java:218-233 | found and shown iff the caller is the player, the organizer or an admin; the response carries the stored row's event, user, status and other columns, with the event's name and the user's name and email |
| EventRegistrationService.IsUserRegistered | src/main/java/com/example/PlayeroneBackend/service/EventRegistrationService.java:235-242 | not-found iff the event is missing; else true iff a row links the event and the caller |
| EventRegistrationService.CancelledPlayerIsDuplicate | src/main/java/com/example/PlayeroneBackend/service/EventRegistrationService.java:59-61 | a player who cancelled cannot register again: the cancelled row counts as a duplicate |
| EventRegistrationService.CancelIsNotRepeatable | src/main/java/com/example/PlayeroneBackend/service/EventRegistrationService.java:106-108 | cancelling twice fails with "already cancelled" |
| EventRegistrationService.IndexOfIdIgnoresOtherColumns | src/main/java/com/example/PlayeroneBackend/service/EventRegistrationService.java:95-96 | re-saving a row with the same id keeps every lookup by id |
| EventRegistrationService.RejectIsRepeatable | src/main/java/com/example/PlayeroneBackend/service/EventRegistrationService.java:152-170 | rejecting has no status guard: the same rejection passes again (and decrements again) |
| EventRegistrationService.ConfirmRevivesClosedRows | src/main/java/com/example/PlayeroneBackend/service/EventRegistrationService.java:137-144 | a cancelled or rejected row can be confirmed by the event's owner |
| AuthService.SignupFailure | src/main/java/com/example/PlayeroneBackend/service/AuthService.java:28-48 | passes iff username, email and phone are free and a player gives both BGMI fields; each of the five failures is a generic runtime error with its own message |
| AuthService.NewUser | src/main/java/com/example/PlayeroneBackend/service/AuthService.java:51-64 | enabled, with the encoded password; BGMI fields kept only for a player |
| AuthService.MapToAuthResponse | src/main/java/com/example/PlayeroneBackend/service/AuthService.java:72-81 | a "Bearer" response carrying the token and the user's columns |
| AuthService.Signup | src/main/java/com/example/PlayeroneBackend/service/AuthService.java:26-82 | on success appends the new user under the next id and keeps the unique columns unique; on failure nothing changes |
| AuthService.SignupIsNotRepeatable | src/main/java/com/example/PlayeroneBackend/service/AuthService.java:28-30 | signing up the same request twice fails the second time on the username |
| AuthService.SharedEmailIsRefused | src/main/java/com/example/PlayeroneBackend/service/AuthService.java:32-34 | a request reusing a stored email is refused with the email message |

## Left out

- Controllers, HTTP routing and the security filter chain. The signed-in user is the `caller`
  parameter, so getCurrentUser's "User not found" failure is not modelled.
- Login (AuthService.java:84-111): it is the authentication manager and the JWT utility, both
  foreign code. The password encoder's output and the token are parameters of `Signup`.
- SignupRequest.java is not part of this model. The fields of `AuthService.SignupRequest` are the
  ones signup reads through its getters.
- The clock: `LocalDateTime.now()` and `LocalDate.now()` become the `now` parameter.
- JPA timestamps (createdAt, updatedAt) and the updatedAt field of the registration response.
- The event's winner, results and highlight columns, which no core operation writes.
- Logging, concurrency between requests, and optimistic locking.
- Money: entryFee, prizePool and amountPaid are `Double` in the source. The model uses `int`;
  only their sign and presence matter to the rules.
- Sort parameters of `Pageable`. Pages are taken in table order, or in date order for
  findUpcomingEvents. Ties in date keep no particular order there.
- Text: LOWER and toLowerCase are modelled on ASCII letters only, with no Unicode case folding.
- Events.Event: the fifteen free-text columns are one `attributes` map, with a missing key meaning
  null.
- EventRegistrationService.RegisterFailure: the full-event check after the open check is left
  out of the function. isRegistrationOpen already requires a free slot, so that branch is dead.
  `RegisterForEvent` keeps the check, and `EventFullIsUnreachable` states the fact.
- EventService.UpdateEvent: the max-participants guard is tested before any column is written.
  The source writes some columns first, but the transaction rolls them back on the exception, so
  the committed state is the same.
- EventRegistrationService.RegisterForEvent: the event's counter is updated before the
  registration row is saved. The source saves the row first. Both happen inside one transaction,
  so the committed state is the same.
- EventService.CreateEvent: the id `generateEventId` builds from the row count can repeat after a
  delete. The model then fails with a generic error and changes nothing, standing for the unique
  constraint's exception.
