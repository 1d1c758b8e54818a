/**
 * The body of a create-event request (dto/CreateEventRequest.java) and the
 * bean-validation constraints declared on it, as one validity predicate. The
 * controller validates the body (@Valid) before the service runs.
 */
module CreateEventDto {
  import opened Wrappers
  import opened Time
  import opened Enums
  import opened Text
  import opened Events

  /** The @Size(max = ...) bound of each free-text column; PrizeDistribution has none. */
  function MaxLength(a: TextAttribute): Option<nat> {
    match a
    case Description => Some(5000)
    case AllowedRanks => Some(500)
    case Platform => Some(50)
    case PrizeDistribution => None
    case RefundPolicy => Some(2000)
    case GameMap => Some(100)
    case Mode => Some(100)
    case ServerRegion => Some(50)
    case RoomId => Some(100)
    case RoomPassword => Some(100)
    case Rules => Some(5000)
    case Contact => Some(200)
    case ThumbnailUrl => Some(500)
    case LiveStreamLink => Some(500)
    case Remarks => Some(2000)
  }

  /** Every free-text value present respects its column's @Size bound. */
  predicate AttributesWithinSize(attributes: map<TextAttribute, string>) {
    forall a :: a in attributes && MaxLength(a).Some? ==> |attributes[a]| <= MaxLength(a).value
  }

  /** @Min(0) on a nullable number: null passes. */
  predicate NullOrNonNegative(x: Option<int>) {
    x.None? || x.value >= 0
  }

  /** Every field is nullable in JSON; the annotations decide which may be absent. */
  datatype CreateEventRequest = CreateEventRequest(
    eventName: Option<string>,
    gameName: Option<string>,
    eventDate: Option<Date>,
    eventStartTime: Option<TimeOfDay>,
    eventEndTime: Option<TimeOfDay>,
    registrationOpenDate: Option<DateTime>,
    registrationCloseDate: Option<DateTime>,
    participationType: Option<ParticipationType>,
    teamSize: Option<int>,
    maxParticipants: Option<int>,
    minParticipants: Option<int>,
    isPaid: Option<bool>,
    entryFee: Option<int>,
    prizePool: Option<int>,
    attributes: map<TextAttribute, string>,
    visibility: Option<EventVisibility>)
  {
    /** The declared constraints, checked on day `today` (for @Future). */
    predicate Valid(today: Date) {
      // @NotBlank @Size(min = 3, max = 200)
      && eventName.Some? && NotBlank(eventName.value) && 3 <= |eventName.value| <= 200
      // @NotBlank @Size(max = 100)
      && gameName.Some? && NotBlank(gameName.value) && |gameName.value| <= 100
      // @NotNull @Future: strictly after today
      && eventDate.Some? && DateBefore(today, eventDate.value)
      && eventStartTime.Some? && eventEndTime.Some?
      && registrationOpenDate.Some? && registrationCloseDate.Some?
      // Jackson only builds well-formed java.time values
      && ValidDate(eventDate.value)
      && ValidTimeOfDay(eventStartTime.value) && ValidTimeOfDay(eventEndTime.value)
      && ValidDateTime(registrationOpenDate.value) && ValidDateTime(registrationCloseDate.value)
      && participationType.Some?
      // @NotNull @Min(1) @Max(100)
      && teamSize.Some? && 1 <= teamSize.value <= 100
      // @NotNull @Min(2) @Max(1000)
      && maxParticipants.Some? && 2 <= maxParticipants.value <= 1000
      // @NotNull @Min(2)
      && minParticipants.Some? && minParticipants.value >= 2
      && isPaid.Some?
      // @Min(0), nullable
      && NullOrNonNegative(entryFee) && NullOrNonNegative(prizePool)
      && AttributesWithinSize(attributes)
      && visibility.Some?
    }
  }

  /**
   * A valid request names an event date strictly after `today`, so the
   * service's own rule (not before today) can never be the one that fails.
   */
  lemma FutureIsStricterThanNotPast(req: CreateEventRequest, today: Date)
    requires req.Valid(today)
    ensures !DateBefore(req.eventDate.value, today) && req.eventDate.value != today
  {
  }

  /** The annotations alone do not order the participant bounds: a valid request may have min above max. */
  lemma MinAboveMaxPassesValidation(today: Date)
    requires ValidDate(today)
    ensures exists req: CreateEventRequest ::
      req.Valid(today) && req.minParticipants.value > req.maxParticipants.value
  {
    var later := Date(today.year + 1, 1, 1);
    var t := DateTime(today, 0);
    var req := CreateEventRequest(Some("Cup"), Some("BGMI"), Some(later), Some(0), Some(0),
                                  Some(t), Some(t), Some(Solo), Some(1), Some(2), Some(3),
                                  Some(false), None, None, map[], Some(Public));
    assert "Cup"[0] > ' ';
    assert "BGMI"[0] > ' ';
    assert req.Valid(today);
  }
}
