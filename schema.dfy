/// The relational tables that auth.py and app.py share, as one immutable
/// value (`Tables`) and as the mutable database object the handlers update
/// in place (`Database`).
module Schema {

  datatype Option<+T> = None | Some(value: T)

  datatype Result<+T, +E> = Success(value: T) | Failure(error: E)

  type Byte = b: int | 0 <= b < 256

  type Email = string

  /// SHA-256 rendered as a hex digest. It is a foreign call, so every
  /// operation that hashes takes it as a parameter and nothing is assumed
  /// about it unless a lemma asks for `Injective`.
  type Hasher = string -> string

  ghost predicate Injective(sha: Hasher) {
    forall a, b :: sha(a) == sha(b) ==> a == b
  }

  /// A stored ISO-8601 stamp: either a parsable instant (microseconds since
  /// the epoch) or text that does not parse.
  datatype Timestamp = Instant(micros: int) | Unparsable

  /// users(email PRIMARY KEY, password_hash, role)
  datatype UserRow = UserRow(passwordHash: string, role: string)

  /// email_verifications(email PRIMARY KEY, code_hash, code_plain,
  /// password_hash, created_at, last_sent_at)
  datatype PendingRow = PendingRow(
    codeHash: string,
    codePlain: string,
    passwordHash: string,
    createdAt: Timestamp,
    lastSentAt: Timestamp)

  /// rooms(id, type, title, description, price_eur, capacity, available)
  datatype Room = Room(
    kind: string,
    title: string,
    description: string,
    priceEur: int,
    capacity: int,
    available: bool)

  /// room_bookings(room_id, user_email)
  datatype RoomBooking = RoomBooking(roomId: int, userEmail: Email)

  /// events(id, title, category, date_time, location, description, quota,
  /// created_by_email); a `None` quota is SQL NULL, i.e. unbounded
  datatype Event = Event(
    title: string,
    category: string,
    dateTime: string,
    location: string,
    description: string,
    quota: Option<int>,
    createdByEmail: Email)

  /// event_registrations(event_id, user_email), unique on the pair
  datatype EventRegistration = EventRegistration(eventId: int, userEmail: Email)

  datatype RequestStatus = Pending | Accepted | Rejected

  /// event_requests(id, title, category, date_time, location, description,
  /// quota, requested_by_email, status, admin_comment)
  datatype EventRequest = EventRequest(
    title: string,
    category: string,
    dateTime: string,
    location: string,
    description: string,
    quota: Option<int>,
    requestedByEmail: Email,
    status: RequestStatus,
    adminComment: Option<string>)

  /// student_hidden_event_requests(request_id, student_email), unique on the pair
  datatype HiddenMark = HiddenMark(requestId: int, studentEmail: Email)

  /// The whole database at one instant. The tables `events` and
  /// `event_requests` are never deleted from, so they are sequences in
  /// insertion order and the row with id `k` sits at index `k - 1`.
  datatype Tables = Tables(
    users: map<Email, UserRow>,
    verifications: map<Email, PendingRow>,
    rooms: map<int, Room>,
    bookings: set<RoomBooking>,
    events: seq<Event>,
    registrations: set<EventRegistration>,
    requests: seq<EventRequest>,
    hidden: set<HiddenMark>,
    settings: map<string, string>)

  /// SELECT COUNT(*) FROM room_bookings WHERE room_id = ?
  function BookedCount(bookings: set<RoomBooking>, roomId: int): nat {
    |set b | b in bookings && b.roomId == roomId|
  }

  /// SELECT COUNT(*) FROM event_registrations WHERE event_id = ?
  function RegisteredCount(registrations: set<EventRegistration>, eventId: int): nat {
    |set g | g in registrations && g.eventId == eventId|
  }

  /// SELECT ... FROM room_bookings WHERE user_email = ? finds a row
  predicate HasBooking(bookings: set<RoomBooking>, email: Email) {
    exists b :: b in bookings && b.userEmail == email
  }

  predicate HasEvent(t: Tables, id: int) {
    1 <= id <= |t.events|
  }

  predicate HasRequest(t: Tables, id: int) {
    1 <= id <= |t.requests|
  }

  lemma {:induction false} SubsetCardinality<T>(small: set<T>, large: set<T>)
    requires small <= large
    ensures |small| <= |large|
    decreases small
  {
    if small != {} {
      var x :| x in small;
      SubsetCardinality(small - {x}, large - {x});
    }
  }

  /// Every booking names an existing room, no email holds two bookings and
  /// no room holds more bookings than its capacity.
  ghost predicate RoomsConsistent(t: Tables) {
    && (forall b :: b in t.bookings ==> b.roomId in t.rooms)
    && (forall b1, b2 :: b1 in t.bookings && b2 in t.bookings && b1.userEmail == b2.userEmail ==> b1 == b2)
    && (forall r :: r in t.rooms ==> BookedCount(t.bookings, r) <= t.rooms[r].capacity)
  }

  /// Every registration names an existing event, no event with a quota
  /// holds more registrations than its quota, every requested quota is
  /// non-negative (so that an accepted request yields a consistent event)
  /// and every hidden mark names an existing request.
  ghost predicate EventsConsistent(t: Tables) {
    && (forall g :: g in t.registrations ==> HasEvent(t, g.eventId))
    && (forall h :: h in t.hidden ==> HasRequest(t, h.requestId))
    && (forall i :: 0 <= i < |t.events| && t.events[i].quota.Some? ==>
          RegisteredCount(t.registrations, i + 1) <= t.events[i].quota.value)
    && (forall i :: 0 <= i < |t.requests| && t.requests[i].quota.Some? ==>
          t.requests[i].quota.value >= 0)
  }

  ghost predicate Consistent(t: Tables) {
    RoomsConsistent(t) && EventsConsistent(t)
  }

  /// The SQLite database behind one connection: each field is one table.
  class Database {
    var users: map<Email, UserRow>
    var verifications: map<Email, PendingRow>
    var rooms: map<int, Room>
    var bookings: set<RoomBooking>
    var events: seq<Event>
    var registrations: set<EventRegistration>
    var requests: seq<EventRequest>
    var hidden: set<HiddenMark>
    var settings: map<string, string>

    function Snapshot(): Tables
      reads this
    {
      Tables(users, verifications, rooms, bookings, events, registrations, requests, hidden, settings)
    }

    ghost predicate Valid()
      reads this
    {
      Consistent(Snapshot())
    }

    /// A freshly seeded database: the given users, rooms and events and
    /// nothing else.
    constructor (users: map<Email, UserRow>, rooms: map<int, Room>, events: seq<Event>)
      requires forall r :: r in rooms ==> rooms[r].capacity >= 0
      requires forall i :: 0 <= i < |events| && events[i].quota.Some? ==> events[i].quota.value >= 0
      ensures Valid()
      ensures Snapshot() == Tables(users, map[], rooms, {}, events, {}, [], {}, map[])
    {
      this.users := users;
      this.verifications := map[];
      this.rooms := rooms;
      this.bookings := {};
      this.events := events;
      this.registrations := {};
      this.requests := [];
      this.hidden := {};
      this.settings := map[];
      forall r ensures BookedCount({}, r) == 0 {
        assert (set b: RoomBooking | b in {} && b.roomId == r) == {};
      }
      forall e ensures RegisteredCount({}, e) == 0 {
        assert (set g: EventRegistration | g in {} && g.eventId == e) == {};
      }
    }
  }
}
