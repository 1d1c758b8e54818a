/**
 * The body of an update-event request (dto/UpdateEventRequest.java): every
 * field optional, a null field meaning "leave unchanged", and the
 * bean-validation constraints on the fields that are present.
 */
module UpdateEventDto {
  import opened Wrappers
  import opened Time
  import opened Enums
  import opened Events
  import opened CreateEventDto

  datatype UpdateEventRequest = UpdateEventRequest(
    eventName: Option<string>,
    gameName: Option<string>,
    eventDate: Option<Date>,
    eventStartTime: Option<TimeOfDay>,
    eventEndTime: Option<TimeOfDay>,
    registrationOpenDate: Option<DateTime>,
    registrationCloseDate: Option<DateTime>,
    participationType: Option<ParticipationType>,
    teamSize: Option<int>,
    maxParticipants: Option<int>,
    minParticipants: Option<int>,
    isPaid: Option<bool>,
    entryFee: Option<int>,
    prizePool: Option<int>,
    /** The free-text fields that are present (non-null) in the body. */
    attributes: map<TextAttribute, string>,
    visibility: Option<EventVisibility>)
  {
    /** The declared constraints; a null value passes every one of them. */
    predicate Valid() {
      // @Size(min = 3, max = 200); no @NotBlank
      && (eventName.None? || 3 <= |eventName.value| <= 200)
      // @Size(max = 100)
      && (gameName.None? || |gameName.value| <= 100)
      // Jackson only builds well-formed java.time values
      && (eventDate.None? || ValidDate(eventDate.value))
      && (eventStartTime.None? || ValidTimeOfDay(eventStartTime.value))
      && (eventEndTime.None? || ValidTimeOfDay(eventEndTime.value))
      && (registrationOpenDate.None? || ValidDateTime(registrationOpenDate.value))
      && (registrationCloseDate.None? || ValidDateTime(registrationCloseDate.value))
      // @Min(1) @Max(100)
      && (teamSize.None? || 1 <= teamSize.value <= 100)
      // @Min(2) @Max(1000)
      && (maxParticipants.None? || 2 <= maxParticipants.value <= 1000)
      // @Min(2)
      && (minParticipants.None? || minParticipants.value >= 2)
      // @Min(0)
      && NullOrNonNegative(entryFee) && NullOrNonNegative(prizePool)
      && AttributesWithinSize(attributes)
    }
  }

  /** The empty patch: every field null. */
  function EmptyPatch(): (r: UpdateEventRequest)
    ensures r.Valid()
  {
    UpdateEventRequest(None, None, None, None, None, None, None, None, None,
                       None, None, None, None, None, map[], None)
  }

  /**
   * No cross-field rule is declared: a valid patch may set the minimum above
   * the maximum and the registration window after the event date.
   */
  lemma NoCrossFieldConstraint(d: Date, open: DateTime, close: DateTime)
    requires Before(close, open) && DateBefore(d, close.date)
    requires ValidDate(d) && ValidDateTime(open) && ValidDateTime(close)
    ensures var p := EmptyPatch().(eventDate := Some(d), registrationOpenDate := Some(open),
                                   registrationCloseDate := Some(close),
                                   maxParticipants := Some(2), minParticipants := Some(1000));
            p.Valid() && p.minParticipants.value > p.maxParticipants.value
  {
  }
}
