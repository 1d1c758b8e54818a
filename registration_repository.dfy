/**
 * The queries of repository/EventRegistrationRepository.java as filters and
 * counts over the registration table. An event or user argument is matched
 * by its database id; every query keeps table order.
 */
module EventRegistrationRepository {
  import opened Wrappers
  import opened Time
  import opened Enums
  import opened Events
  import opened Registrations
  import EventRepository

  /** The WHERE clauses of the registration queries. */
  datatype RegistrationQuery =
    | ByEvent(eventKey: nat)
    | ByUser(userId: nat)
    | ByEventAndStatus(eventKey: nat, status: RegistrationStatus)

  predicate Matches(row: Registration, q: RegistrationQuery) {
    match q
    case ByEvent(k) => row.eventKey == k
    case ByUser(u) => row.userId == u
    case ByEventAndStatus(k, s) => row.eventKey == k && row.status == s
  }

  /** The rows that satisfy `q`, in table order. */
  function Select(rows: seq<Registration>, q: RegistrationQuery): (r: seq<Registration>)
    ensures forall i :: 0 <= i < |r| ==> r[i] in rows && Matches(r[i], q)
    ensures forall i :: 0 <= i < |rows| && Matches(rows[i], q) ==> rows[i] in r
    ensures |r| <= |rows|
  {
    if rows == [] then []
    else if Matches(rows[0], q) then [rows[0]] + Select(rows[1..], q)
    else Select(rows[1..], q)
  }

  /** findById: the position of the row with id `id`. */
  function IndexOfId(rows: seq<Registration>, id: nat): (r: Option<nat>)
    ensures r.Some? ==> r.value < |rows| && rows[r.value].id == id
    ensures r.None? ==> forall i :: 0 <= i < |rows| ==> rows[i].id != id
  {
    if rows == [] then None
    else if rows[0].id == id then Some(0)
    else match IndexOfId(rows[1..], id)
      case None => None
      case Some(i) => Some(i + 1)
  }

  /** existsByEventAndUser: some row links the two, whatever its status. */
  predicate ExistsByEventAndUser(rows: seq<Registration>, eventKey: nat, userId: nat) {
    exists i :: 0 <= i < |rows| && rows[i].eventKey == eventKey && rows[i].userId == userId
  }

  /** findByEventAndUser: the first row linking the event and the user, if any. */
  function FindByEventAndUser(rows: seq<Registration>, eventKey: nat, userId: nat): (r: Option<Registration>)
    ensures r.Some? <==> ExistsByEventAndUser(rows, eventKey, userId)
    ensures r.Some? ==> r.value in rows && r.value.eventKey == eventKey && r.value.userId == userId
  {
    if rows == [] then None
    else if rows[0].eventKey == eventKey && rows[0].userId == userId then Some(rows[0])
    else
      var r := FindByEventAndUser(rows[1..], eventKey, userId);
      assert ExistsByEventAndUser(rows[1..], eventKey, userId) ==> ExistsByEventAndUser(rows, eventKey, userId) by {
        if ExistsByEventAndUser(rows[1..], eventKey, userId) {
          var i :| 0 <= i < |rows[1..]| && rows[1..][i].eventKey == eventKey && rows[1..][i].userId == userId;
          assert rows[i + 1] == rows[1..][i];
        }
      }
      assert ExistsByEventAndUser(rows, eventKey, userId) ==> ExistsByEventAndUser(rows[1..], eventKey, userId) by {
        if ExistsByEventAndUser(rows, eventKey, userId) {
          var i :| 0 <= i < |rows| && rows[i].eventKey == eventKey && rows[i].userId == userId;
          assert i > 0 && rows[1..][i - 1] == rows[i];
        }
      }
      r
  }

  /** findByEvent: every registration of the event, in every status. */
  function FindByEvent(rows: seq<Registration>, eventKey: nat): (r: seq<Registration>)
    ensures forall i :: 0 <= i < |r| ==> r[i] in rows && r[i].eventKey == eventKey
    ensures forall i :: 0 <= i < |rows| && rows[i].eventKey == eventKey ==> rows[i] in r
  {
    Select(rows, ByEvent(eventKey))
  }

  /** findByUser and findByUserId: every registration of the user, in every status. */
  function FindByUser(rows: seq<Registration>, userId: nat): (r: seq<Registration>)
    ensures forall i :: 0 <= i < |r| ==> r[i] in rows && r[i].userId == userId
    ensures forall i :: 0 <= i < |rows| && rows[i].userId == userId ==> rows[i] in r
  {
    Select(rows, ByUser(userId))
  }

  /** findByEventAndStatus */
  function FindByEventAndStatus(rows: seq<Registration>, eventKey: nat, status: RegistrationStatus): (r: seq<Registration>)
    ensures forall i :: 0 <= i < |r| ==> r[i] in rows && r[i].eventKey == eventKey && r[i].status == status
    ensures forall i :: 0 <= i < |rows| && rows[i].eventKey == eventKey && rows[i].status == status ==> rows[i] in r
  {
    Select(rows, ByEventAndStatus(eventKey, status))
  }

  /** findConfirmedRegistrationsByEventId: `r.event.id = :eventId AND r.status = 'CONFIRMED'`. */
  function FindConfirmedRegistrationsByEventId(rows: seq<Registration>, eventKey: nat): (r: seq<Registration>)
    ensures forall i :: 0 <= i < |r| ==> r[i] in rows && r[i].eventKey == eventKey && r[i].status == Confirmed
    ensures forall i :: 0 <= i < |rows| && rows[i].eventKey == eventKey && rows[i].status == Confirmed ==> rows[i] in r
  {
    if rows == [] then []
    else if rows[0].eventKey == eventKey && rows[0].status == Confirmed
    then [rows[0]] + FindConfirmedRegistrationsByEventId(rows[1..], eventKey)
    else FindConfirmedRegistrationsByEventId(rows[1..], eventKey)
  }

  /** countByEvent */
  function CountByEvent(rows: seq<Registration>, eventKey: nat): (n: nat)
    ensures n <= |rows|
  {
    if rows == [] then 0
    else (if rows[0].eventKey == eventKey then 1 else 0) + CountByEvent(rows[1..], eventKey)
  }

  /** countByEventAndStatus */
  function CountByEventAndStatus(rows: seq<Registration>, eventKey: nat, status: RegistrationStatus): (n: nat)
    ensures n <= CountByEvent(rows, eventKey)
  {
    if rows == [] then 0
    else (if rows[0].eventKey == eventKey && rows[0].status == status then 1 else 0)
         + CountByEventAndStatus(rows[1..], eventKey, status)
  }

  /**
   * findUpcomingRegistrationsByUserId: the user's rows whose event is dated
   * today or later and whose status is PENDING or CONFIRMED. The query joins
   * the event table, so a row whose event is missing is not returned.
   */
  predicate Upcoming(row: Registration, events: seq<Event>, userId: nat, today: Date)
    reads events
  {
    var k := EventRepository.IndexOfId(events, row.eventKey);
    row.userId == userId && k.Some?
    && !DateBefore(events[k.value].eventDate, today)
    && (row.status == Pending || row.status == Confirmed)
  }

  function FindUpcomingRegistrationsByUserId(rows: seq<Registration>, events: seq<Event>, userId: nat, today: Date)
    : (r: seq<Registration>)
    reads events
    ensures forall i :: 0 <= i < |r| ==> r[i] in rows && Upcoming(r[i], events, userId, today)
    ensures forall i :: 0 <= i < |rows| && Upcoming(rows[i], events, userId, today) ==> rows[i] in r
  {
    if rows == [] then []
    else if Upcoming(rows[0], events, userId, today)
    then [rows[0]] + FindUpcomingRegistrationsByUserId(rows[1..], events, userId, today)
    else FindUpcomingRegistrationsByUserId(rows[1..], events, userId, today)
  }

  // ---------------------------------------------------------------------
  // Properties
  // ---------------------------------------------------------------------

  /** The counting queries agree with the listing queries they abbreviate. */
  lemma {:induction false} CountByEventIsSize(rows: seq<Registration>, eventKey: nat)
    ensures CountByEvent(rows, eventKey) == |FindByEvent(rows, eventKey)|
  {
    if rows != [] {
      CountByEventIsSize(rows[1..], eventKey);
    }
  }

  lemma {:induction false} CountByEventAndStatusIsSize(rows: seq<Registration>, eventKey: nat, status: RegistrationStatus)
    ensures CountByEventAndStatus(rows, eventKey, status) == |FindByEventAndStatus(rows, eventKey, status)|
  {
    if rows != [] {
      CountByEventAndStatusIsSize(rows[1..], eventKey, status);
    }
  }

  /** The confirmed-registrations query is findByEventAndStatus with CONFIRMED. */
  lemma {:induction false} ConfirmedIsByEventAndStatus(rows: seq<Registration>, eventKey: nat)
    ensures FindConfirmedRegistrationsByEventId(rows, eventKey) == FindByEventAndStatus(rows, eventKey, Confirmed)
  {
    if rows != [] {
      ConfirmedIsByEventAndStatus(rows[1..], eventKey);
    }
  }

  /** Every registration of an event has exactly one status, so the per-status counts add up to the event's count. */
  lemma {:induction false} CountsByStatusAddUp(rows: seq<Registration>, eventKey: nat)
    ensures CountByEvent(rows, eventKey)
         == CountByEventAndStatus(rows, eventKey, Pending) + CountByEventAndStatus(rows, eventKey, Confirmed)
          + CountByEventAndStatus(rows, eventKey, Rejected) + CountByEventAndStatus(rows, eventKey, RegistrationStatus.Cancelled)
  {
    if rows != [] {
      CountsByStatusAddUp(rows[1..], eventKey);
    }
  }

  /**
   * existsByEventAndUser ignores the status: a cancelled or rejected row still
   * counts as a registration of that user for that event.
   */
  lemma ExistsIgnoresStatus(rows: seq<Registration>, i: nat)
    requires i < |rows|
    ensures ExistsByEventAndUser(rows, rows[i].eventKey, rows[i].userId)
    ensures FindByEventAndUser(rows, rows[i].eventKey, rows[i].userId).Some?
  {
  }

  /** Under the table's unique constraint, findByEventAndUser finds the one row for the pair. */
  lemma FindByEventAndUserIsTheRow(rows: seq<Registration>, i: nat)
    requires UniqueRows(rows) && i < |rows|
    ensures FindByEventAndUser(rows, rows[i].eventKey, rows[i].userId) == Some(rows[i])
  {
    var r := FindByEventAndUser(rows, rows[i].eventKey, rows[i].userId);
    var j :| 0 <= j < |rows| && rows[j] == r.value;
    assert !(i < j) && !(j < i);
  }
}
