/**
 * The event entity (entity/Event.java): its columns, the builder's defaults,
 * the two derived predicates and the in-place slot counter.
 */
module Events {
  import opened Wrappers
  import opened Time
  import opened Enums

  /**
   * The nullable free-text columns, which no rule of the core reads except the
   * keyword search (Description) and cancel (Remarks). An event keeps them in a
   * map: a column that is null has no entry.
   */
  datatype TextAttribute =
    | Description
    | AllowedRanks
    | Platform
    | PrizeDistribution
    | RefundPolicy
    | GameMap
    | Mode
    | ServerRegion
    | RoomId
    | RoomPassword
    | Rules
    | Contact
    | ThumbnailUrl
    | LiveStreamLink
    | Remarks

  /** The columns of an event as one value, as the service reads and writes them. */
  datatype EventRecord = EventRecord(
    eventId: string,
    eventName: string,
    gameName: string,
    eventDate: Date,
    eventStartTime: TimeOfDay,
    eventEndTime: TimeOfDay,
    registrationOpenDate: DateTime,
    registrationCloseDate: DateTime,
    participationType: ParticipationType,
    teamSize: int,
    maxParticipants: int,
    minParticipants: int,
    isPaid: bool,
    entryFee: Option<int>,
    prizePool: Option<int>,
    attributes: map<TextAttribute, string>,
    organizerId: nat,
    organizerName: string,
    slotsFilled: int,
    status: EventStatus,
    visibility: EventVisibility)

  class Event {
    /** The database identity (the `id` column). */
    const id: nat
    /** The human-readable id, `EVT-yyyyMMdd-NNNN`. */
    var eventId: string
    var eventName: string
    var gameName: string
    var eventDate: Date
    var eventStartTime: TimeOfDay
    var eventEndTime: TimeOfDay
    var registrationOpenDate: DateTime
    var registrationCloseDate: DateTime
    var participationType: ParticipationType
    var teamSize: int
    var maxParticipants: int
    var minParticipants: int
    var isPaid: bool
    /** Money is kept in whole units; only its comparisons with 0 matter. */
    var entryFee: Option<int>
    var prizePool: Option<int>
    var attributes: map<TextAttribute, string>
    /** The owning user's id (the `organizer_id` foreign key). */
    var organizerId: nat
    var organizerName: string
    var slotsFilled: int
    var status: EventStatus
    var visibility: EventVisibility

    /**
     * Event.builder()...build() with every column the builder is given; the
     * three columns marked @Builder.Default take their defaults.
     */
    constructor (id: nat, eventId: string, eventName: string, gameName: string,
                 eventDate: Date, eventStartTime: TimeOfDay, eventEndTime: TimeOfDay,
                 registrationOpenDate: DateTime, registrationCloseDate: DateTime,
                 participationType: ParticipationType, teamSize: int,
                 maxParticipants: int, minParticipants: int,
                 isPaid: bool, entryFee: Option<int>, prizePool: Option<int>,
                 attributes: map<TextAttribute, string>,
                 organizerId: nat, organizerName: string)
      ensures this.id == id && this.eventId == eventId
      ensures this.eventName == eventName && this.gameName == gameName
      ensures this.eventDate == eventDate
      ensures this.eventStartTime == eventStartTime && this.eventEndTime == eventEndTime
      ensures this.registrationOpenDate == registrationOpenDate
      ensures this.registrationCloseDate == registrationCloseDate
      ensures this.participationType == participationType && this.teamSize == teamSize
      ensures this.maxParticipants == maxParticipants && this.minParticipants == minParticipants
      ensures this.isPaid == isPaid && this.entryFee == entryFee && this.prizePool == prizePool
      ensures this.attributes == attributes
      ensures this.organizerId == organizerId && this.organizerName == organizerName
      ensures slotsFilled == 0 && status == Draft && visibility == Public
    {
      this.id := id;
      this.eventId := eventId;
      this.eventName := eventName;
      this.gameName := gameName;
      this.eventDate := eventDate;
      this.eventStartTime := eventStartTime;
      this.eventEndTime := eventEndTime;
      this.registrationOpenDate := registrationOpenDate;
      this.registrationCloseDate := registrationCloseDate;
      this.participationType := participationType;
      this.teamSize := teamSize;
      this.maxParticipants := maxParticipants;
      this.minParticipants := minParticipants;
      this.isPaid := isPaid;
      this.entryFee := entryFee;
      this.prizePool := prizePool;
      this.attributes := attributes;
      this.organizerId := organizerId;
      this.organizerName := organizerName;
      slotsFilled := 0;
      status := Draft;
      visibility := Public;
    }

    /** The current values of the columns. */
    function Record(): EventRecord
      reads this
    {
      EventRecord(eventId, eventName, gameName, eventDate, eventStartTime, eventEndTime,
                  registrationOpenDate, registrationCloseDate, participationType, teamSize,
                  maxParticipants, minParticipants, isPaid, entryFee, prizePool, attributes,
                  organizerId, organizerName, slotsFilled, status, visibility)
    }

    /** The capacity invariant every operation of the services keeps. */
    predicate WithinCapacity()
      reads this
    {
      0 <= slotsFilled <= maxParticipants
    }

    /** isFull */
    predicate IsFull()
      reads this
    {
      slotsFilled >= maxParticipants
    }

    /** isRegistrationOpen, with the clock reading `now` passed in; both window ends are excluded. */
    predicate IsRegistrationOpen(now: DateTime)
      reads this
    {
      After(now, registrationOpenDate) && Before(now, registrationCloseDate)
      && status == RegistrationOpen && !IsFull()
    }

    /** incrementSlotsFilled */
    method IncrementSlotsFilled()
      modifies this`slotsFilled
      ensures slotsFilled == old(slotsFilled) + 1
      ensures Record() == old(Record()).(slotsFilled := old(slotsFilled) + 1)
      ensures old(WithinCapacity()) && !old(IsFull()) ==> WithinCapacity()
    {
      slotsFilled := slotsFilled + 1;
    }

    /** decrementSlotsFilled: stops at zero. */
    method DecrementSlotsFilled()
      modifies this`slotsFilled
      ensures slotsFilled == if old(slotsFilled) > 0 then old(slotsFilled) - 1 else old(slotsFilled)
      ensures old(slotsFilled) >= 0 ==> slotsFilled >= 0
      ensures Record() == old(Record()).(slotsFilled := slotsFilled)
      ensures old(WithinCapacity()) ==> WithinCapacity()
    {
      if slotsFilled > 0 {
        slotsFilled := slotsFilled - 1;
      }
    }
  }

  /** An event whose registration is open has a free slot. */
  lemma OpenImpliesNotFull(e: Event, now: DateTime)
    ensures e.IsRegistrationOpen(now) ==> !e.IsFull() && e.slotsFilled < e.maxParticipants
  {
  }

  /** Registration is closed at the very instant the window opens and at the instant it closes. */
  lemma OpenWindowExcludesEndpoints(e: Event)
    ensures !e.IsRegistrationOpen(e.registrationOpenDate)
    ensures !e.IsRegistrationOpen(e.registrationCloseDate)
  {
  }
}
