/**
 * The three tables the services read and write (users, events and
 * registrations), with the id counters that stand for the database's
 * generated keys, and the invariant every service operation keeps.
 */
module Persistence {
  import opened Users
  import opened Events
  import opened Registrations
  import EventRepository
  import EventRegistrationRepository

  /** The users table: its unique columns, and ids below the next generated id. */
  predicate UsersValid(users: seq<User>, nextUserId: nat) {
    UniqueUsers(users) && forall i :: 0 <= i < |users| ==> users[i].id < nextUserId
  }

  /** No two event rows share a database id (so no event object is listed twice). */
  predicate DistinctKeys(events: seq<Event>) {
    forall i, j :: 0 <= i < j < |events| ==> events[i].id != events[j].id
  }

  /** The `event_id` column is unique: no two event rows share a human-readable id. */
  predicate DistinctEventIds(events: seq<Event>)
    reads events
  {
    forall i, j :: 0 <= i < j < |events| ==> events[i].eventId != events[j].eventId
  }

  /**
   * The events table: distinct ids below the next generated id, distinct
   * human-readable ids, an organizer that is a stored user, and the capacity
   * invariant `0 <= slotsFilled <= maxParticipants`.
   */
  predicate EventsValid(events: seq<Event>, users: seq<User>, nextEventKey: nat)
    reads events
  {
    DistinctKeys(events) && DistinctEventIds(events)
    && forall i :: 0 <= i < |events| ==>
         events[i].id < nextEventKey && events[i].WithinCapacity() && ExistsById(users, events[i].organizerId)
  }

  /**
   * The registrations table: the unique constraints, ids below the next
   * generated id, and foreign keys that reference a stored event and user.
   */
  predicate RegistrationsValid(rows: seq<Registration>, events: seq<Event>, users: seq<User>, nextRegistrationId: nat) {
    UniqueRows(rows)
    && (forall i :: 0 <= i < |rows| ==> rows[i].id < nextRegistrationId)
    && EventKeysExist(rows, events)
    && UserIdsExist(rows, users)
  }

  /** The `event_id` foreign key: every row's event is in the events table. */
  predicate EventKeysExist(rows: seq<Registration>, events: seq<Event>) {
    forall i :: 0 <= i < |rows| ==> EventRepository.IndexOfId(events, rows[i].eventKey).Some?
  }

  /** The `user_id` foreign key: every row's user is in the users table. */
  predicate UserIdsExist(rows: seq<Registration>, users: seq<User>) {
    forall i :: 0 <= i < |rows| ==> ExistsById(users, rows[i].userId)
  }

  /** The rows that survive deleting event `eventKey`: the entity cascades the delete to its registrations. */
  function CascadeDelete(rows: seq<Registration>, eventKey: nat): (r: seq<Registration>)
    ensures forall i :: 0 <= i < |r| ==> r[i] in rows && r[i].eventKey != eventKey
    ensures forall i :: 0 <= i < |rows| && rows[i].eventKey != eventKey ==> rows[i] in r
  {
    if rows == [] then []
    else if rows[0].eventKey == eventKey then CascadeDelete(rows[1..], eventKey)
    else [rows[0]] + CascadeDelete(rows[1..], eventKey)
  }

  /** Dropping rows keeps the unique constraints. */
  lemma {:induction false} CascadeDeleteKeepsUnique(rows: seq<Registration>, eventKey: nat)
    requires UniqueRows(rows)
    ensures UniqueRows(CascadeDelete(rows, eventKey))
  {
    if rows != [] {
      assert UniqueRows(rows[1..]) by {
        forall i, j | 0 <= i < j < |rows[1..]|
          ensures rows[1..][i].id != rows[1..][j].id
          ensures rows[1..][i].eventKey != rows[1..][j].eventKey || rows[1..][i].userId != rows[1..][j].userId
        {
          assert rows[1..][i] == rows[i + 1] && rows[1..][j] == rows[j + 1];
        }
      }
      CascadeDeleteKeepsUnique(rows[1..], eventKey);
      var tail := CascadeDelete(rows[1..], eventKey);
      if rows[0].eventKey != eventKey {
        forall j | 0 <= j < |tail|
          ensures rows[0].id != tail[j].id
          ensures rows[0].eventKey != tail[j].eventKey || rows[0].userId != tail[j].userId
        {
          var m :| 0 <= m < |rows[1..]| && rows[1..][m] == tail[j];
          assert rows[m + 1] == tail[j];
        }
        var r := [rows[0]] + tail;
        forall i, j | 0 <= i < j < |r|
          ensures r[i].id != r[j].id && (r[i].eventKey != r[j].eventKey || r[i].userId != r[j].userId)
        {
          if i > 0 {
            assert r[i] == tail[i - 1] && r[j] == tail[j - 1];
          }
        }
      }
    }
  }

  /** Removing the row at `k` leaves every other event findable by its id. */
  lemma RemoveEventKeepsOthers(events: seq<Event>, k: nat, key: nat)
    requires k < |events| && key != events[k].id && EventRepository.IndexOfId(events, key).Some?
    ensures EventRepository.IndexOfId(events[..k] + events[k + 1..], key).Some?
  {
    var rest := events[..k] + events[k + 1..];
    var i := EventRepository.IndexOfId(events, key).value;
    if i < k {
      assert rest[i] == events[i];
    } else {
      assert rest[i - 1] == events[i];
    }
  }

  /** A new event with a fresh key keeps the events table valid. */
  lemma AppendEventKeepsValid(events: seq<Event>, e: Event, users: seq<User>, nextEventKey: nat)
    requires EventsValid(events, users, nextEventKey)
    requires e.id == nextEventKey && e.WithinCapacity() && ExistsById(users, e.organizerId)
    requires !EventRepository.ExistsByEventId(events, e.eventId)
    ensures EventsValid(events + [e], users, nextEventKey + 1)
  {
    var r := events + [e];
    forall i, j | 0 <= i < j < |r|
      ensures r[i].eventId != r[j].eventId
    {
      if j == |events| {
        assert r[i] == events[i];
      }
    }
  }

  /** Appending an event keeps every existing key findable. */
  lemma AppendEventKeepsKeys(events: seq<Event>, e: Event, key: nat)
    requires EventRepository.IndexOfId(events, key).Some?
    ensures EventRepository.IndexOfId(events + [e], key).Some?
  {
    var i := EventRepository.IndexOfId(events, key).value;
    assert (events + [e])[i] == events[i];
  }

  /** Removing one event keeps the events table valid. */
  lemma RemoveEventKeepsValid(events: seq<Event>, k: nat, users: seq<User>, nextEventKey: nat)
    requires EventsValid(events, users, nextEventKey) && k < |events|
    ensures EventsValid(events[..k] + events[k + 1..], users, nextEventKey)
  {
    var rest := events[..k] + events[k + 1..];
    forall i | 0 <= i < |rest|
      ensures rest[i] == events[if i < k then i else i + 1]
    {
    }
  }

  /** Removing one event together with its registrations keeps the registrations table valid. */
  lemma RemoveEventKeepsRegistrations(rows: seq<Registration>, events: seq<Event>, k: nat, users: seq<User>, nextRegistrationId: nat)
    requires RegistrationsValid(rows, events, users, nextRegistrationId) && k < |events|
    ensures RegistrationsValid(CascadeDelete(rows, events[k].id), events[..k] + events[k + 1..], users, nextRegistrationId)
  {
    var kept := CascadeDelete(rows, events[k].id);
    CascadeDeleteKeepsUnique(rows, events[k].id);
    forall i | 0 <= i < |kept|
      ensures kept[i].id < nextRegistrationId
      ensures EventRepository.IndexOfId(events[..k] + events[k + 1..], kept[i].eventKey).Some?
      ensures ExistsById(users, kept[i].userId)
    {
      var j :| 0 <= j < |rows| && rows[j] == kept[i];
      RemoveEventKeepsOthers(events, k, kept[i].eventKey);
    }
  }

  /** A new row with a fresh id, existing references and a new (event, user) pair keeps the table valid. */
  lemma AppendRowKeepsValid(rows: seq<Registration>, row: Registration, events: seq<Event>, users: seq<User>, next: nat)
    requires RegistrationsValid(rows, events, users, next)
    requires row.id == next && EventRepository.IndexOfId(events, row.eventKey).Some? && ExistsById(users, row.userId)
    requires !EventRegistrationRepository.ExistsByEventAndUser(rows, row.eventKey, row.userId)
    ensures RegistrationsValid(rows + [row], events, users, next + 1)
  {
    var r := rows + [row];
    forall i, j | 0 <= i < j < |r|
      ensures r[i].id != r[j].id && (r[i].eventKey != r[j].eventKey || r[i].userId != r[j].userId)
    {
      if j == |rows| {
        assert r[i] == rows[i];
      }
    }
  }

  /** Rewriting a row's own columns, keeping its id, event and user, keeps the table valid. */
  lemma ReplaceRowKeepsValid(rows: seq<Registration>, k: nat, row: Registration, events: seq<Event>, users: seq<User>, next: nat)
    requires RegistrationsValid(rows, events, users, next) && k < |rows|
    requires row.id == rows[k].id && row.eventKey == rows[k].eventKey && row.userId == rows[k].userId
    ensures RegistrationsValid(rows[k := row], events, users, next)
  {
    var r := rows[k := row];
    forall i, j | 0 <= i < j < |r|
      ensures r[i].id != r[j].id && (r[i].eventKey != r[j].eventKey || r[i].userId != r[j].userId)
    {
      assert rows[i].id != rows[j].id;
    }
  }

  /** A new user keeps every existing user findable. */
  lemma AppendUserKeepsIds(users: seq<User>, u: User, id: nat)
    requires ExistsById(users, id)
    ensures ExistsById(users + [u], id)
  {
    var i :| 0 <= i < |users| && users[i].id == id;
    assert (users + [u])[i] == users[i];
  }

  /** A new user whose unique columns are all free, with the next id, keeps the users table valid. */
  lemma AppendUserKeepsValid(users: seq<User>, u: User, nextUserId: nat)
    requires UsersValid(users, nextUserId) && u.id == nextUserId
    requires !ExistsByUsername(users, u.username) && !ExistsByEmail(users, u.email)
    requires !ExistsByPhoneNumber(users, u.phoneNumber)
    ensures UsersValid(users + [u], nextUserId + 1)
  {
    var r := users + [u];
    forall i, j | 0 <= i < j < |r|
      ensures r[i].id != r[j].id && r[i].username != r[j].username
      ensures r[i].email != r[j].email && r[i].phoneNumber != r[j].phoneNumber
    {
      if j == |users| {
        assert r[i] == users[i];
      }
    }
  }

  class Database {
    var users: seq<User>
    var events: seq<Event>
    var registrations: seq<Registration>
    var nextUserId: nat
    var nextEventKey: nat
    var nextRegistrationId: nat

    ghost predicate Valid()
      reads this, events
    {
      UsersValid(users, nextUserId)
      && EventsValid(events, users, nextEventKey)
      && RegistrationsValid(registrations, events, users, nextRegistrationId)
    }

    /**
     * Changing the columns of one event, keeping its human-readable id, its
     * organizer and its capacity invariant, keeps the database valid.
     */
    twostate lemma EditEventKeepsValid(k: nat)
      requires old(Valid()) && unchanged(this)
      requires k < |events|
      requires forall i :: 0 <= i < |events| && i != k ==> unchanged(events[i])
      requires events[k].WithinCapacity() && events[k].organizerId == old(events[k].organizerId)
      requires events[k].eventId == old(events[k].eventId)
      ensures Valid()
    {
      forall i, j | 0 <= i < j < |events|
        ensures events[i].eventId != events[j].eventId
      {
        assert old(events[i].eventId) != old(events[j].eventId);
      }
      forall i | 0 <= i < |events|
        ensures events[i].WithinCapacity() && ExistsById(users, events[i].organizerId)
      {
        if i != k {
          assert old(events[i].WithinCapacity());
        }
      }
    }

    /** eventRepository.save for a new event: the row is added with the next generated id. */
    method InsertEvent(e: Event)
      requires Valid() && e !in events
      requires e.id == nextEventKey && e.WithinCapacity() && ExistsById(users, e.organizerId)
      requires !EventRepository.ExistsByEventId(events, e.eventId)
      modifies this
      ensures Valid()
      ensures events == old(events) + [e] && nextEventKey == old(nextEventKey) + 1
      ensures users == old(users) && registrations == old(registrations)
      ensures nextUserId == old(nextUserId) && nextRegistrationId == old(nextRegistrationId)
    {
      AppendEventKeepsValid(events, e, users, nextEventKey);
      forall i | 0 <= i < |registrations|
        ensures EventRepository.IndexOfId(events + [e], registrations[i].eventKey).Some?
      {
        AppendEventKeepsKeys(events, e, registrations[i].eventKey);
      }
      events := events + [e];
      nextEventKey := nextEventKey + 1;
    }

    /** eventRepository.delete: the row at `k` goes, and its registrations go with it (cascade). */
    method DeleteEventAt(k: nat)
      requires Valid() && k < |events|
      modifies this
      ensures Valid()
      ensures events == old(events[..k] + events[k + 1..])
      ensures registrations == CascadeDelete(old(registrations), old(events[k].id))
      ensures users == old(users)
      ensures nextUserId == old(nextUserId) && nextEventKey == old(nextEventKey)
      ensures nextRegistrationId == old(nextRegistrationId)
    {
      var key := events[k].id;
      RemoveEventKeepsValid(events, k, users, nextEventKey);
      RemoveEventKeepsRegistrations(registrations, events, k, users, nextRegistrationId);
      events := events[..k] + events[k + 1..];
      registrations := CascadeDelete(registrations, key);
    }

    /** registrationRepository.save for a new row: it is appended with the next generated id. */
    method InsertRegistration(row: Registration)
      requires Valid() && row.id == nextRegistrationId
      requires EventRepository.IndexOfId(events, row.eventKey).Some? && ExistsById(users, row.userId)
      requires !EventRegistrationRepository.ExistsByEventAndUser(registrations, row.eventKey, row.userId)
      modifies this
      ensures Valid()
      ensures registrations == old(registrations) + [row] && nextRegistrationId == old(nextRegistrationId) + 1
      ensures users == old(users) && events == old(events)
      ensures nextUserId == old(nextUserId) && nextEventKey == old(nextEventKey)
    {
      AppendRowKeepsValid(registrations, row, events, users, nextRegistrationId);
      registrations := registrations + [row];
      nextRegistrationId := nextRegistrationId + 1;
    }

    /** registrationRepository.save for an existing row: the row at `k` is overwritten. */
    method ReplaceRegistrationAt(k: nat, row: Registration)
      requires Valid() && k < |registrations|
      requires row.id == registrations[k].id && row.eventKey == registrations[k].eventKey
      requires row.userId == registrations[k].userId
      modifies this
      ensures Valid()
      ensures registrations == old(registrations)[k := row]
      ensures users == old(users) && events == old(events) && nextRegistrationId == old(nextRegistrationId)
      ensures nextUserId == old(nextUserId) && nextEventKey == old(nextEventKey)
    {
      ReplaceRowKeepsValid(registrations, k, row, events, users, nextRegistrationId);
      registrations := registrations[k := row];
    }

    /** userRepository.save for a new user: it is appended with the next generated id. */
    method InsertUser(u: User)
      requires Valid() && u.id == nextUserId
      requires !ExistsByUsername(users, u.username) && !ExistsByEmail(users, u.email)
      requires !ExistsByPhoneNumber(users, u.phoneNumber)
      modifies this
      ensures Valid()
      ensures users == old(users) + [u] && nextUserId == old(nextUserId) + 1
      ensures events == old(events) && registrations == old(registrations)
      ensures nextEventKey == old(nextEventKey) && nextRegistrationId == old(nextRegistrationId)
    {
      AppendUserKeepsValid(users, u, nextUserId);
      forall i | 0 <= i < |events|
        ensures ExistsById(users + [u], events[i].organizerId)
      {
        AppendUserKeepsIds(users, u, events[i].organizerId);
      }
      forall i | 0 <= i < |registrations|
        ensures ExistsById(users + [u], registrations[i].userId)
      {
        AppendUserKeepsIds(users, u, registrations[i].userId);
      }
      users := users + [u];
      nextUserId := nextUserId + 1;
    }

    /** An empty database. */
    constructor ()
      ensures users == [] && events == [] && registrations == []
      ensures Valid()
    {
      users := [];
      events := [];
      registrations := [];
      nextUserId := 1;
      nextEventKey := 1;
      nextRegistrationId := 1;
    }
  }
}
