/**
 * The registration row (entity/EventRegistration.java): one player's entry for
 * one event, the builder's defaults and the table's uniqueness constraint.
 */
module Registrations {
  import opened Wrappers
  import opened Time
  import opened Enums

  /**
   * The event and the user are required foreign keys (`event_id`, `user_id`,
   * both NOT NULL), held here as the database ids of the rows they reference.
   */
  datatype Registration = Registration(
    id: nat,
    eventKey: nat,
    userId: nat,
    status: RegistrationStatus,
    teamName: Option<string>,
    additionalNotes: Option<string>,
    transactionId: Option<string>,
    amountPaid: Option<int>,
    /** Null unless set: the field initialiser is not applied by the builder. */
    paymentVerified: Option<bool>,
    registeredAt: DateTime,
    cancelledAt: Option<DateTime>,
    cancellationReason: Option<string>)

  /**
   * EventRegistration.builder()...build(): `status` is the only column with a
   * builder default (PENDING); `paymentVerified` stays null when the builder is
   * not given a value, and nothing is cancelled yet.
   */
  function Build(id: nat, eventKey: nat, userId: nat, status: Option<RegistrationStatus>,
                 teamName: Option<string>, additionalNotes: Option<string>,
                 transactionId: Option<string>, amountPaid: Option<int>,
                 paymentVerified: Option<bool>, registeredAt: DateTime): (r: Registration)
    ensures r.status == (if status.Some? then status.value else Pending)
    ensures r.paymentVerified == paymentVerified
    ensures r.cancelledAt.None? && r.cancellationReason.None?
    ensures r.id == id && r.eventKey == eventKey && r.userId == userId
  {
    Registration(id, eventKey, userId, status.GetOr(Pending), teamName, additionalNotes,
                 transactionId, amountPaid, paymentVerified, registeredAt, None, None)
  }

  /** The unique constraints: one row per id, and one row per (event_id, user_id) whatever its status. */
  predicate UniqueRows(rows: seq<Registration>) {
    forall i, j :: 0 <= i < j < |rows| ==>
      rows[i].id != rows[j].id
      && (rows[i].eventKey != rows[j].eventKey || rows[i].userId != rows[j].userId)
  }
}
