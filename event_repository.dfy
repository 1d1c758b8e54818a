/**
 * The queries of repository/EventRepository.java as filters over the event
 * table. Each query keeps the table order of the rows it selects, except
 * findUpcomingEvents, which orders by event date.
 */
module EventRepository {
  import opened Wrappers
  import opened Time
  import opened Enums
  import opened Text
  import opened Events

  /** The WHERE clauses of the event queries. */
  datatype EventQuery =
    | ByOrganizer(organizerId: nat)
    | ByStatus(status: EventStatus)
    | ByVisibilityAndStatus(visibility: EventVisibility, status: EventStatus)
    | Upcoming(today: Date, status: EventStatus)
    | ByGameName(gameName: string, status: EventStatus)
    | Keyword(keyword: string, status: EventStatus, visibility: EventVisibility)
    | OpenRegistration(now: DateTime)
    | DateRange(startDate: Date, endDate: Date)

  /** `LOWER(column) LIKE LOWER(CONCAT('%', :keyword, '%'))`: the keyword's own % and _ stay wildcards. */
  predicate LikeKeyword(column: string, keyword: string) {
    Like(Lower(column), Lower("%" + keyword + "%"))
  }

  /** A Spring Data `...ContainingIgnoreCase` condition: the argument is matched literally. */
  predicate ContainsIgnoreCase(column: string, part: string) {
    Contains(Lower(column), Lower(part))
  }

  /** The keyword search over name, game and description; a null description never matches. */
  predicate KeywordMatches(e: Event, keyword: string)
    reads e
  {
    LikeKeyword(e.eventName, keyword)
    || LikeKeyword(e.gameName, keyword)
    || (Description in e.attributes && LikeKeyword(e.attributes[Description], keyword))
  }

  predicate Matches(e: Event, q: EventQuery)
    reads e
  {
    match q
    case ByOrganizer(o) => e.organizerId == o
    case ByStatus(s) => e.status == s
    case ByVisibilityAndStatus(v, s) => e.visibility == v && e.status == s
    case Upcoming(today, s) => !DateBefore(e.eventDate, today) && e.status == s
    case ByGameName(g, s) => ContainsIgnoreCase(e.gameName, g) && e.status == s
    case Keyword(k, s, v) => KeywordMatches(e, k) && e.status == s && e.visibility == v
    case OpenRegistration(now) => OpenAt(e, now)
    case DateRange(from, to) => !DateBefore(e.eventDate, from) && !DateBefore(to, e.eventDate)
  }

  /** The rows of `events` that satisfy `q`, in table order. */
  function Select(events: seq<Event>, q: EventQuery): (r: seq<Event>)
    reads events
    ensures forall i :: 0 <= i < |r| ==> r[i] in events && Matches(r[i], q)
    ensures forall i :: 0 <= i < |events| && Matches(events[i], q) ==> events[i] in r
    ensures |r| <= |events|
  {
    if events == [] then []
    else if Matches(events[0], q) then [events[0]] + Select(events[1..], q)
    else Select(events[1..], q)
  }

  /** The open-registration condition of findEventsWithOpenRegistration: `open <= now < close` and a free slot. */
  predicate OpenAt(e: Event, now: DateTime)
    reads e
  {
    e.status == RegistrationOpen
    && !Before(now, e.registrationOpenDate) && Before(now, e.registrationCloseDate)
    && e.slotsFilled < e.maxParticipants
  }

  // ---------------------------------------------------------------------
  // The repository methods
  // ---------------------------------------------------------------------

  /** findById: the position of the row with database id `key`. */
  function IndexOfId(events: seq<Event>, key: nat): (r: Option<nat>)
    ensures r.Some? ==> r.value < |events| && events[r.value].id == key
    ensures r.None? ==> forall i :: 0 <= i < |events| ==> events[i].id != key
  {
    if events == [] then None
    else if events[0].id == key then Some(0)
    else match IndexOfId(events[1..], key)
      case None => None
      case Some(i) => Some(i + 1)
  }

  /** existsByEventId */
  predicate ExistsByEventId(events: seq<Event>, eventId: string)
    reads events
  {
    exists i :: 0 <= i < |events| && events[i].eventId == eventId
  }

  /** findByEventId: the position of the first row whose human-readable id is `eventId`. */
  function FindByEventId(events: seq<Event>, eventId: string): (r: Option<nat>)
    reads events
    ensures r.Some? <==> ExistsByEventId(events, eventId)
    ensures r.Some? ==> r.value < |events| && events[r.value].eventId == eventId
  {
    if events == [] then None
    else if events[0].eventId == eventId then Some(0)
    else match FindByEventId(events[1..], eventId)
      case None => None
      case Some(i) => Some(i + 1)
  }

  /** findByOrganizer: the organizer's events in every status. */
  function FindByOrganizer(events: seq<Event>, organizerId: nat): (r: seq<Event>)
    reads events
    ensures forall i :: 0 <= i < |r| ==> r[i] in events && r[i].organizerId == organizerId
    ensures forall i :: 0 <= i < |events| && events[i].organizerId == organizerId ==> events[i] in r
  {
    Select(events, ByOrganizer(organizerId))
  }

  /** countByOrganizer: how many rows the organizer owns. */
  function CountByOrganizer(events: seq<Event>, organizerId: nat): (n: nat)
    reads events
    ensures n <= |events|
  {
    if events == [] then 0
    else (if events[0].organizerId == organizerId then 1 else 0) + CountByOrganizer(events[1..], organizerId)
  }

  /** The count agrees with the listing: it is the length of findByOrganizer's result. */
  lemma {:induction false} CountByOrganizerIsSize(events: seq<Event>, organizerId: nat)
    ensures CountByOrganizer(events, organizerId) == |FindByOrganizer(events, organizerId)|
  {
    if events != [] {
      CountByOrganizerIsSize(events[1..], organizerId);
    }
  }

  /** findByStatus: the rows in one status, whatever their visibility. */
  function FindByStatus(events: seq<Event>, status: EventStatus): (r: seq<Event>)
    reads events
    ensures forall i :: 0 <= i < |r| ==> r[i] in events && r[i].status == status
    ensures forall i :: 0 <= i < |events| && events[i].status == status ==> events[i] in r
  {
    Select(events, ByStatus(status))
  }

  /** A status query sees every row that the public listing sees. */
  lemma PublicListingWithinStatus(events: seq<Event>, visibility: EventVisibility, status: EventStatus, e: Event)
    requires e in FindByVisibilityAndStatus(events, visibility, status)
    ensures e in FindByStatus(events, status)
  {
  }

  /** findByVisibilityAndStatus: both columns match exactly. */
  function FindByVisibilityAndStatus(events: seq<Event>, visibility: EventVisibility, status: EventStatus): (r: seq<Event>)
    reads events
    ensures forall i :: 0 <= i < |r| ==> r[i] in events && r[i].visibility == visibility && r[i].status == status
    ensures forall i :: 0 <= i < |events| ==>
      (events[i].visibility == visibility && events[i].status == status ==> events[i] in r)
  {
    Select(events, ByVisibilityAndStatus(visibility, status))
  }

  /** findByGameNameContainingIgnoreCaseAndStatus */
  function FindByGameNameContainingIgnoreCaseAndStatus(events: seq<Event>, gameName: string, status: EventStatus): (r: seq<Event>)
    reads events
    ensures forall i :: 0 <= i < |r| ==>
      r[i] in events && Contains(Lower(r[i].gameName), Lower(gameName)) && r[i].status == status
    ensures forall i :: 0 <= i < |events| ==>
      (Contains(Lower(events[i].gameName), Lower(gameName)) && events[i].status == status ==> events[i] in r)
  {
    Select(events, ByGameName(gameName, status))
  }

  /** searchEvents */
  function SearchEvents(events: seq<Event>, keyword: string, status: EventStatus, visibility: EventVisibility): (r: seq<Event>)
    reads events
    ensures forall i :: 0 <= i < |r| ==>
      r[i] in events && r[i].status == status && r[i].visibility == visibility && KeywordMatches(r[i], keyword)
    ensures forall i :: 0 <= i < |events| ==>
      (events[i].status == status && events[i].visibility == visibility && KeywordMatches(events[i], keyword)
       ==> events[i] in r)
  {
    Select(events, Keyword(keyword, status, visibility))
  }

  /** findEventsWithOpenRegistration: `open <= now < close` and a free slot. */
  function FindEventsWithOpenRegistration(events: seq<Event>, now: DateTime): (r: seq<Event>)
    reads events
    ensures forall i :: 0 <= i < |r| ==> r[i] in events && OpenAt(r[i], now)
    ensures forall i :: 0 <= i < |events| && OpenAt(events[i], now) ==> events[i] in r
  {
    Select(events, OpenRegistration(now))
  }

  /** findEventsByDateRange: BETWEEN includes both ends. */
  function FindEventsByDateRange(events: seq<Event>, startDate: Date, endDate: Date): (r: seq<Event>)
    reads events
    ensures forall i :: 0 <= i < |r| ==>
      r[i] in events && !DateBefore(r[i].eventDate, startDate) && !DateBefore(endDate, r[i].eventDate)
    ensures forall i :: 0 <= i < |events| ==>
      (!DateBefore(events[i].eventDate, startDate) && !DateBefore(endDate, events[i].eventDate) ==> events[i] in r)
  {
    Select(events, DateRange(startDate, endDate))
  }

  // ---------------------------------------------------------------------
  // ORDER BY e.eventDate ASC
  // ---------------------------------------------------------------------

  /** `ORDER BY e.eventDate ASC`: no row is dated before an earlier one. */
  predicate InDateOrder(s: seq<Event>)
    reads s
  {
    forall i, j :: 0 <= i < j < |s| ==> !DateBefore(s[j].eventDate, s[i].eventDate)
  }

  /** A row paired with the value of its sort column, read once. */
  datatype Dated = Dated(date: Date, event: Event)

  predicate SortedByDate(s: seq<Dated>) {
    forall i, j :: 0 <= i < j < |s| ==> !DateBefore(s[j].date, s[i].date)
  }

  /** A row no later than the head of a sorted sequence can go in front of it. */
  lemma ConsSorted(x: Dated, t: seq<Dated>)
    requires SortedByDate(t) && (t == [] || !DateBefore(t[0].date, x.date))
    ensures SortedByDate([x] + t)
  {
    var r := [x] + t;
    forall i, j | 0 <= i < j < |r|
      ensures !DateBefore(r[j].date, r[i].date)
    {
      if i > 0 {
        assert r[i] == t[i - 1] && r[j] == t[j - 1];
      } else if j > 1 {
        assert !DateBefore(t[j - 1].date, t[0].date);
      }
    }
  }

  function InsertByDate(d: Dated, s: seq<Dated>): (r: seq<Dated>)
    requires SortedByDate(s)
    ensures SortedByDate(r)
    ensures multiset(r) == multiset(s) + multiset{d}
    ensures r[0] == d || (s != [] && r[0] == s[0])
  {
    if s == [] || !DateBefore(s[0].date, d.date) then
      ConsSorted(d, s);
      [d] + s
    else
      assert s == [s[0]] + s[1..];
      var t := InsertByDate(d, s[1..]);
      assert t[0] == d || t[0] == s[1];
      ConsSorted(s[0], t);
      [s[0]] + t
  }

  /** An insertion sort: ordered by date and a permutation of its input. */
  function SortByDate(s: seq<Dated>): (r: seq<Dated>)
    ensures SortedByDate(r)
    ensures multiset(r) == multiset(s)
  {
    if s == [] then []
    else
      assert s == [s[0]] + s[1..];
      InsertByDate(s[0], SortByDate(s[1..]))
  }

  function WithDates(events: seq<Event>): (r: seq<Dated>)
    reads events
    ensures |r| == |events| && forall i :: 0 <= i < |r| ==> r[i] == Dated(events[i].eventDate, events[i])
  {
    if events == [] then [] else [Dated(events[0].eventDate, events[0])] + WithDates(events[1..])
  }

  function Rows(s: seq<Dated>): (r: seq<Event>)
    ensures |r| == |s| && forall i :: 0 <= i < |r| ==> r[i] == s[i].event
  {
    if s == [] then [] else [s[0].event] + Rows(s[1..])
  }

  /**
   * Sorting `WithDates(rows)` and dropping the dates yields `r`: exactly the
   * rows of `rows`, ordered by their current event date.
   */
  lemma SortedRows(rows: seq<Event>, sorted: seq<Dated>, r: seq<Event>)
    requires SortedByDate(sorted) && multiset(sorted) == multiset(WithDates(rows))
    requires |r| == |sorted| && forall i :: 0 <= i < |r| ==> r[i] == sorted[i].event
    ensures forall i :: 0 <= i < |r| ==> r[i] in rows
    ensures forall j :: 0 <= j < |rows| ==> rows[j] in r
    ensures InDateOrder(r)
  {
    var w := WithDates(rows);
    forall i | 0 <= i < |sorted|
      ensures r[i] in rows && sorted[i].date == r[i].eventDate
    {
      assert sorted[i] in multiset(w);
      var j :| 0 <= j < |w| && w[j] == sorted[i];
    }
    forall j | 0 <= j < |rows|
      ensures rows[j] in r
    {
      assert w[j] in multiset(sorted);
      var i :| 0 <= i < |sorted| && sorted[i] == w[j];
      assert r[i] == rows[j];
    }
  }

  /** findUpcomingEvents: events on or after `today` in `status`, earliest date first. */
  function FindUpcomingEvents(events: seq<Event>, today: Date, status: EventStatus): (r: seq<Event>)
    reads events
    ensures forall i :: 0 <= i < |r| ==> r[i] in events && !DateBefore(r[i].eventDate, today) && r[i].status == status
    ensures forall i :: 0 <= i < |events| ==>
      (!DateBefore(events[i].eventDate, today) && events[i].status == status ==> events[i] in r)
    ensures InDateOrder(r)
  {
    var rows := Select(events, EventQuery.Upcoming(today, status));
    var sorted := SortByDate(WithDates(rows));
    var r := Rows(sorted);
    SortedRows(rows, sorted, r);
    assert forall i :: 0 <= i < |r| ==> r[i] in events && Matches(r[i], EventQuery.Upcoming(today, status)) by {
      forall i | 0 <= i < |r|
        ensures r[i] in events && Matches(r[i], EventQuery.Upcoming(today, status))
      {
        var k :| 0 <= k < |rows| && rows[k] == r[i];
      }
    }
    assert forall i :: 0 <= i < |events| && Matches(events[i], EventQuery.Upcoming(today, status)) ==> events[i] in r by {
      forall i | 0 <= i < |events| && Matches(events[i], EventQuery.Upcoming(today, status))
        ensures events[i] in r
      {
        var k :| 0 <= k < |rows| && rows[k] == events[i];
      }
    }
    r
  }

  // ---------------------------------------------------------------------
  // Properties
  // ---------------------------------------------------------------------

  /** For a keyword without % or _, the LIKE search is case-insensitive substring containment. */
  lemma KeywordLikeIsContainment(column: string, keyword: string)
    requires NoWildcards(keyword)
    ensures LikeKeyword(column, keyword) <==> Contains(Lower(column), Lower(keyword))
  {
    LowerAppend("%", keyword);
    LowerAppend("%" + keyword, "%");
    assert Lower("%") == "%";
    assert NoWildcards(Lower(keyword));
    LikeIsContains(Lower(column), Lower(keyword));
  }

  /** The keyword's `_` is a wildcard: "B_MI" finds a game named "BGMI". */
  lemma UnderscoreIsWildcard()
    ensures LikeKeyword("BGMI", "B_MI") && !Contains(Lower("BGMI"), Lower("B_MI"))
  {
    LowerOfExample();
    assert "%" + "B_MI" + "%" == "%B_MI%";
    LikeOfExample();
    ContainsOfExample();
  }

  /** The lower-cased texts of the example. */
  lemma LowerOfExample()
    ensures Lower("BGMI") == "bgmi" && Lower("B_MI") == "b_mi" && Lower("%B_MI%") == "%b_mi%"
  {
    LowerOfText("BGMI", "bgmi");
    LowerOfText("B_MI", "b_mi");
    LowerOfText("%B_MI%", "%b_mi%");
  }

  /** `Lower(s) == t` follows from comparing the two position by position. */
  lemma LowerOfText(s: string, t: string)
    requires |s| == |t| && forall i :: 0 <= i < |s| ==> LowerChar(s[i]) == t[i]
    ensures Lower(s) == t
  {
  }

  /** "bgmi" LIKE "%b_mi%": the leading % matches nothing and `_` takes the g. */
  lemma LikeOfExample()
    ensures Like("bgmi", "%b_mi%")
  {
    assert Like([], "%") by { assert Like([], []); }
    assert Like("i", "i%") by { assert "i%"[1..] == "%" && "i"[1..] == []; }
    assert Like("mi", "mi%") by { assert "mi%"[1..] == "i%" && "mi"[1..] == "i"; }
    assert Like("gmi", "_mi%") by { assert "_mi%"[1..] == "mi%" && "gmi"[1..] == "mi"; }
    assert Like("bgmi", "b_mi%") by { assert "b_mi%"[1..] == "_mi%" && "bgmi"[1..] == "gmi"; }
    assert "%b_mi%"[1..] == "b_mi%";
  }

  /** No position of "bgmi" holds the literal text "b_mi". */
  lemma ContainsOfExample()
    ensures !Contains("bgmi", "b_mi")
  {
    var t, k := "bgmi", "b_mi";
    assert !IsPrefix(k, t) by { assert t[..4][1] != k[1]; }
    assert t[1..] == "gmi" && "gmi"[1..] == "mi" && "mi"[1..] == "i" && "i"[1..] == [];
    assert !Contains([], k);
    assert !Contains("i", k);
    assert !Contains("mi", k);
  }

  /**
   * Every event whose registration is open is listed by
   * findEventsWithOpenRegistration, but at the instant the window opens the
   * query lists an event that Event.isRegistrationOpen reports closed.
   */
  lemma OpenRegistrationQueryIncludesWindowStart(e: Event, now: DateTime)
    ensures e.IsRegistrationOpen(now) ==> OpenAt(e, now)
    ensures now == e.registrationOpenDate && Before(now, e.registrationCloseDate)
            && e.status == RegistrationOpen && e.slotsFilled < e.maxParticipants
            ==> OpenAt(e, now) && !e.IsRegistrationOpen(now)
  {
  }
}
