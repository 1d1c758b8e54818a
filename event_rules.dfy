/**
 * The computations of service/EventService.java that change nothing: the date
 * rules of validateEventDates, the ordered checks of createEvent, the event id
 * of generateEventId, the status publishEvent picks, the partial patch of
 * updateEvent, and the response projection of mapToEventResponse.
 */
module EventRules {
  import opened Wrappers
  import opened Time
  import opened Enums
  import opened Text
  import opened Errors
  import opened Users
  import opened Events
  import opened CreateEventDto
  import opened UpdateEventDto

  // ---------------------------------------------------------------------
  // validateEventDates
  // ---------------------------------------------------------------------

  /**
   * The first date rule a new event breaks, if any, on day `today`: the event
   * date is not before today, the window opens no later than it closes, and
   * it closes no later than midnight at the start of the event date.
   */
  function ValidateEventDates(eventDate: Date, open: DateTime, close: DateTime, today: Date): (r: Option<Error>)
    ensures r.None? <==>
      !DateBefore(eventDate, today) && !After(open, close) && !After(close, AtStartOfDay(eventDate))
    ensures r.Some? ==> r.value.kind == BadRequest
    ensures DateBefore(eventDate, today) ==> r == Some(Error(BadRequest, "Event date cannot be in the past"))
    ensures !DateBefore(eventDate, today) && After(open, close)
            ==> r == Some(Error(BadRequest, "Registration open date must be before close date"))
    ensures !DateBefore(eventDate, today) && !After(open, close) && After(close, AtStartOfDay(eventDate))
            ==> r == Some(Error(BadRequest, "Registration must close before event date"))
  {
    if DateBefore(eventDate, today) then Some(Error(BadRequest, "Event date cannot be in the past"))
    else if After(open, close) then Some(Error(BadRequest, "Registration open date must be before close date"))
    else if After(close, AtStartOfDay(eventDate)) then Some(Error(BadRequest, "Registration must close before event date"))
    else None
  }

  /**
   * Each rule accepts its boundary: an event today, a window that opens and
   * closes at the same instant, and a close at exactly midnight of the event date.
   */
  lemma DateRulesAcceptBoundaries(today: Date)
    ensures ValidateEventDates(today, AtStartOfDay(today), AtStartOfDay(today), today).None?
  {
  }

  /** One nanosecond past midnight of the event date is already too late to close. */
  lemma CloseAfterMidnightRejected(eventDate: Date, open: DateTime, today: Date)
    requires !DateBefore(eventDate, today) && !After(open, DateTime(eventDate, 1))
    ensures ValidateEventDates(eventDate, open, DateTime(eventDate, 1), today)
         == Some(Error(BadRequest, "Registration must close before event date"))
  {
  }

  // ---------------------------------------------------------------------
  // createEvent's checks
  // ---------------------------------------------------------------------

  predicate IsOrganizerOrAdmin(u: User) {
    u.role == Organizer || u.role == Admin
  }

  /** A paid event needs an entry fee above zero; a free event needs nothing. */
  predicate FeeAcceptable(isPaid: bool, entryFee: Option<int>) {
    !isPaid || (entryFee.Some? && entryFee.value > 0)
  }

  /**
   * The first check createEvent fails, in the order the code runs them: the
   * caller's role, the date rules, the participant bounds, the entry fee.
   */
  function CreateEventFailure(caller: User, req: CreateEventRequest, today: Date): (r: Option<Error>)
    requires req.Valid(today)
    ensures r.None? <==>
      IsOrganizerOrAdmin(caller)
      && ValidateEventDates(req.eventDate.value, req.registrationOpenDate.value, req.registrationCloseDate.value, today).None?
      && req.minParticipants.value <= req.maxParticipants.value
      && FeeAcceptable(req.isPaid.value, req.entryFee)
    ensures !IsOrganizerOrAdmin(caller) ==> r == Some(Error(Unauthorized, "Only organizers and admins can create events"))
    ensures IsOrganizerOrAdmin(caller) && r.Some? ==> r.value.kind == BadRequest
  {
    if !IsOrganizerOrAdmin(caller) then Some(Error(Unauthorized, "Only organizers and admins can create events"))
    else
      var dates := ValidateEventDates(req.eventDate.value, req.registrationOpenDate.value,
                                      req.registrationCloseDate.value, today);
      if dates.Some? then dates
      else if req.minParticipants.value > req.maxParticipants.value
      then Some(Error(BadRequest, "Minimum participants cannot exceed maximum participants"))
      else if req.isPaid.value && (req.entryFee.None? || req.entryFee.value <= 0)
      then Some(Error(BadRequest, "Entry fee is required for paid events"))
      else None
  }

  /** The columns of the event createEvent builds for `organizer` from a request that passed its checks. */
  function NewEventRecord(eventId: string, req: CreateEventRequest, organizer: User, today: Date): (r: EventRecord)
    requires req.Valid(today)
  {
    EventRecord(eventId, req.eventName.value, req.gameName.value, req.eventDate.value,
                req.eventStartTime.value, req.eventEndTime.value,
                req.registrationOpenDate.value, req.registrationCloseDate.value,
                req.participationType.value, req.teamSize.value,
                req.maxParticipants.value, req.minParticipants.value,
                req.isPaid.value, req.entryFee, req.prizePool, req.attributes,
                organizer.id, organizer.username, 0, Draft, req.visibility.value)
  }

  /** An event created from a request that passed every check starts a draft, empty and within capacity. */
  lemma NewEventWithinCapacity(eventId: string, caller: User, req: CreateEventRequest, today: Date)
    requires req.Valid(today) && CreateEventFailure(caller, req, today).None?
    ensures var r := NewEventRecord(eventId, req, caller, today);
      r.status == Draft && r.slotsFilled == 0 && 0 <= r.slotsFilled <= r.maxParticipants
      && r.minParticipants <= r.maxParticipants && r.organizerId == caller.id
      && (r.isPaid ==> r.entryFee.Some? && r.entryFee.value > 0)
  {
  }

  // ---------------------------------------------------------------------
  // generateEventId
  // ---------------------------------------------------------------------

  /**
   * The `yyyy` field of the date pattern: four digits, zero-padded; a year of
   * five or more digits is printed in full after a `+` sign.
   */
  function YearField(year: nat): (s: string)
  {
    if year > 9999 then "+" + Decimal(year) else FormatPadded(year, 4)
  }

  /**
   * `EVT-` + the date as `yyyyMMdd` + `-` + the row count plus one, zero-padded
   * to at least four digits.
   */
  function GenerateEventId(today: Date, rowCount: nat): (s: string)
    requires ValidDate(today) && today.year >= 1
    ensures |s| >= 4 && s[..4] == "EVT-"
  {
    var id := "EVT-" + YearField(today.year) + FormatPadded(today.month, 2) + FormatPadded(today.day, 2)
              + "-" + FormatPadded(rowCount + 1, 4);
    assert id[..4] == "EVT-";
    id
  }

  datatype EventIdParts = EventIdParts(date: Date, sequence: nat)

  /** Reads back the date and the sequence number of an event id written with a four-digit year. */
  function ParseEventId(s: string): Option<EventIdParts>
  {
    if |s| >= 17 && s[..4] == "EVT-" && s[12] == '-'
       && AllDigits(s[4..8]) && AllDigits(s[8..10]) && AllDigits(s[10..12]) && AllDigits(s[13..])
    then Some(EventIdParts(Date(ParseDecimal(s[4..8]), ParseDecimal(s[8..10]), ParseDecimal(s[10..12])),
                           ParseDecimal(s[13..])))
    else None
  }

  /** An id assembled from digit fields of widths 4, 2, 2 and at least 4 reads back as those fields. */
  lemma ParseAssembledId(y: string, m: string, d: string, n: string)
    requires |y| == 4 && |m| == 2 && |d| == 2 && |n| >= 4
    requires AllDigits(y) && AllDigits(m) && AllDigits(d) && AllDigits(n)
    ensures ParseEventId("EVT-" + y + m + d + "-" + n)
         == Some(EventIdParts(Date(ParseDecimal(y), ParseDecimal(m), ParseDecimal(d)), ParseDecimal(n)))
  {
    var t1 := "EVT-" + y;
    var t2 := t1 + m;
    var t3 := t2 + d;
    var t4 := t3 + "-";
    var s := t4 + n;
    assert s[..13] == t4 && s[13..] == n;
    assert t4[..12] == t3 && t4[12] == '-';
    assert t3[..10] == t2 && t3[10..] == d;
    assert t2[..8] == t1 && t2[8..] == m;
    assert t1[..4] == "EVT-" && t1[4..] == y;
    assert s[..4] == "EVT-" && s[4..8] == y && s[8..10] == m && s[10..12] == d && s[12] == '-';
  }

  /** An id reads back as the date it was made on and the row count plus one. */
  lemma GenerateEventIdRoundTrip(today: Date, rowCount: nat)
    requires ValidDate(today) && 1 <= today.year <= 9999
    ensures ParseEventId(GenerateEventId(today, rowCount)) == Some(EventIdParts(today, rowCount + 1))
  {
    var y, m, d := FormatPadded(today.year, 4), FormatPadded(today.month, 2), FormatPadded(today.day, 2);
    var n := FormatPadded(rowCount + 1, 4);
    FormatPaddedWidth(today.year, 4, 9999);
    FormatPaddedWidth(today.month, 2, 99);
    FormatPaddedWidth(today.day, 2, 99);
    assert GenerateEventId(today, rowCount) == "EVT-" + y + m + d + "-" + n;
    ParseAssembledId(y, m, d, n);
    FormatPaddedRoundTrip(today.year, 4);
    FormatPaddedRoundTrip(today.month, 2);
    FormatPaddedRoundTrip(today.day, 2);
    FormatPaddedRoundTrip(rowCount + 1, 4);
  }

  /** A number below 10^width is written in exactly `width` digits. */
  lemma {:induction false} FormatPaddedWidth(n: nat, width: nat, bound: nat)
    requires n <= bound && (width == 4 ==> bound == 9999) && (width == 2 ==> bound == 99)
    requires width == 2 || width == 4
    ensures |FormatPadded(n, width)| == width
  {
    DecimalLength(n, width);
  }

  lemma {:induction false} DecimalLength(n: nat, k: nat)
    requires k >= 1 && n < Pow10(k)
    ensures |Decimal(n)| <= k
  {
    if n >= 10 {
      DecimalLength(n / 10, k - 1);
    }
  }

  function Pow10(k: nat): nat {
    if k == 0 then 1 else 10 * Pow10(k - 1)
  }

  /** Two events made on days with four-digit years get the same id only on the same day at the same row count. */
  lemma GenerateEventIdInjective(d1: Date, c1: nat, d2: Date, c2: nat)
    requires ValidDate(d1) && 1 <= d1.year <= 9999 && ValidDate(d2) && 1 <= d2.year <= 9999
    requires GenerateEventId(d1, c1) == GenerateEventId(d2, c2)
    ensures d1 == d2 && c1 == c2
  {
    GenerateEventIdRoundTrip(d1, c1);
    GenerateEventIdRoundTrip(d2, c2);
  }

  // ---------------------------------------------------------------------
  // publishEvent
  // ---------------------------------------------------------------------

  /** The status publishEvent gives an event, from `now` and its registration window; the old status is not consulted. */
  function PublishedStatus(now: DateTime, open: DateTime, close: DateTime): (s: EventStatus)
    ensures s == EventStatus.Upcoming <==> Before(now, open)
    ensures s == RegistrationOpen <==> !Before(now, open) && Before(now, close)
    ensures s == EventStatus.RegistrationClosed <==> !Before(now, open) && !Before(now, close)
  {
    if Before(now, open) then EventStatus.Upcoming
    else if Before(now, close) then RegistrationOpen
    else EventStatus.RegistrationClosed
  }

  /**
   * An event published at the instant its window opens is REGISTRATION_OPEN,
   * yet isRegistrationOpen is false at that instant.
   */
  lemma PublishedOpenAtWindowStart(e: Event)
    requires Before(e.registrationOpenDate, e.registrationCloseDate)
    ensures PublishedStatus(e.registrationOpenDate, e.registrationOpenDate, e.registrationCloseDate) == RegistrationOpen
    ensures !e.IsRegistrationOpen(e.registrationOpenDate)
  {
  }

  // ---------------------------------------------------------------------
  // Authorisation
  // ---------------------------------------------------------------------

  /** The owning organizer or any ADMIN. */
  predicate IsOwnerOrAdmin(caller: User, organizerId: nat) {
    caller.id == organizerId || caller.role == Admin
  }

  // ---------------------------------------------------------------------
  // updateEvent's patch
  // ---------------------------------------------------------------------

  /** The columns after updateEvent: each field present in the request replaces the column, an absent one leaves it. */
  function ApplyPatch(r: EventRecord, p: UpdateEventRequest): EventRecord {
    r.(eventName := p.eventName.GetOr(r.eventName),
       gameName := p.gameName.GetOr(r.gameName),
       eventDate := p.eventDate.GetOr(r.eventDate),
       eventStartTime := p.eventStartTime.GetOr(r.eventStartTime),
       eventEndTime := p.eventEndTime.GetOr(r.eventEndTime),
       registrationOpenDate := p.registrationOpenDate.GetOr(r.registrationOpenDate),
       registrationCloseDate := p.registrationCloseDate.GetOr(r.registrationCloseDate),
       participationType := p.participationType.GetOr(r.participationType),
       teamSize := p.teamSize.GetOr(r.teamSize),
       maxParticipants := p.maxParticipants.GetOr(r.maxParticipants),
       minParticipants := p.minParticipants.GetOr(r.minParticipants),
       isPaid := p.isPaid.GetOr(r.isPaid),
       entryFee := if p.entryFee.Some? then p.entryFee else r.entryFee,
       prizePool := if p.prizePool.Some? then p.prizePool else r.prizePool,
       attributes := r.attributes + p.attributes,
       visibility := p.visibility.GetOr(r.visibility))
  }

  /** The empty patch changes nothing. */
  lemma EmptyPatchIsIdentity(r: EventRecord)
    ensures ApplyPatch(r, EmptyPatch()) == r
  {
    assert r.attributes + map[] == r.attributes;
  }

  /** Applying the same patch twice is applying it once. */
  lemma PatchIsIdempotent(r: EventRecord, p: UpdateEventRequest)
    ensures ApplyPatch(ApplyPatch(r, p), p) == ApplyPatch(r, p)
  {
    assert (r.attributes + p.attributes) + p.attributes == r.attributes + p.attributes;
  }

  /** `after` is the column after a patch whose field is `given`: the given value, or `before` when the field is null. */
  predicate Patched<T(==)>(given: Option<T>, before: T, after: T) {
    if given.Some? then after == given.value else after == before
  }

  /**
   * The patch never touches the id, the organizer, the slot counter or the
   * status; every patchable column takes the request's value when it is
   * given and keeps its own when it is null.
   */
  lemma PatchKeepsBookkeeping(r: EventRecord, p: UpdateEventRequest)
    ensures var s := ApplyPatch(r, p);
      s.eventId == r.eventId && s.organizerId == r.organizerId && s.organizerName == r.organizerName
      && s.slotsFilled == r.slotsFilled && s.status == r.status
      && Patched(p.eventName, r.eventName, s.eventName) && Patched(p.gameName, r.gameName, s.gameName)
      && Patched(p.eventDate, r.eventDate, s.eventDate)
      && Patched(p.eventStartTime, r.eventStartTime, s.eventStartTime)
      && Patched(p.eventEndTime, r.eventEndTime, s.eventEndTime)
      && Patched(p.registrationOpenDate, r.registrationOpenDate, s.registrationOpenDate)
      && Patched(p.registrationCloseDate, r.registrationCloseDate, s.registrationCloseDate)
      && Patched(p.participationType, r.participationType, s.participationType)
      && Patched(p.teamSize, r.teamSize, s.teamSize)
      && Patched(p.maxParticipants, r.maxParticipants, s.maxParticipants)
      && Patched(p.minParticipants, r.minParticipants, s.minParticipants)
      && Patched(p.isPaid, r.isPaid, s.isPaid)
      && (p.entryFee.Some? ==> s.entryFee == p.entryFee) && (p.entryFee.None? ==> s.entryFee == r.entryFee)
      && (p.prizePool.Some? ==> s.prizePool == p.prizePool) && (p.prizePool.None? ==> s.prizePool == r.prizePool)
      && Patched(p.visibility, r.visibility, s.visibility)
      && (forall a :: a !in p.attributes ==> (a in s.attributes <==> a in r.attributes))
      && (forall a :: a !in p.attributes && a in r.attributes ==> s.attributes[a] == r.attributes[a])
      && (forall a :: a in p.attributes ==> a in s.attributes && s.attributes[a] == p.attributes[a])
  {
  }

  /** With updateEvent's guard (a new maximum is not below the slots filled) the patch keeps the capacity invariant. */
  lemma PatchKeepsCapacity(r: EventRecord, p: UpdateEventRequest)
    requires 0 <= r.slotsFilled <= r.maxParticipants
    requires p.maxParticipants.Some? ==> p.maxParticipants.value >= r.slotsFilled
    ensures 0 <= ApplyPatch(r, p).slotsFilled <= ApplyPatch(r, p).maxParticipants
  {
  }

  /** No cross-field rule is applied: a patch can put the minimum above the maximum. */
  lemma PatchCanInvertBounds(r: EventRecord)
    requires 0 <= r.slotsFilled <= 2
    ensures var p := EmptyPatch().(maxParticipants := Some(2), minParticipants := Some(1000));
      p.Valid() && var s := ApplyPatch(r, p); s.minParticipants > s.maxParticipants && s.slotsFilled <= s.maxParticipants
  {
  }

  // ---------------------------------------------------------------------
  // mapToEventResponse
  // ---------------------------------------------------------------------

  /** The response body for an event (its audit timestamps and winner are left out). */
  datatype EventResponse = EventResponse(
    id: nat,
    event: EventRecord,
    slotsAvailable: int,
    isRegistrationOpen: bool)

  /** mapToEventResponse, with the clock reading `now` that isRegistrationOpen needs. */
  function MapToEventResponse(e: Event, now: DateTime): (r: EventResponse)
    reads e
    ensures r.id == e.id && r.event == e.Record()
    ensures r.slotsAvailable + e.slotsFilled == e.maxParticipants
    ensures r.slotsAvailable <= 0 <==> e.IsFull()
    ensures e.WithinCapacity() ==> 0 <= r.slotsAvailable <= e.maxParticipants
    ensures r.isRegistrationOpen == e.IsRegistrationOpen(now)
    ensures r.isRegistrationOpen ==> r.slotsAvailable > 0
  {
    EventResponse(e.id, e.Record(), e.maxParticipants - e.slotsFilled, e.IsRegistrationOpen(now))
  }
}
