/// app.py, lines 19-131: the session, the two authorization gates, the
/// read-model DTOs and the settings lookup that every handler shares.
module AppCommon {
  import opened Schema
  import opened Auth

  const AdminRole: string := "admin"

  /// The identity a signed session cookie carries: the values login stored
  /// under "email" and "role" ("" when absent).
  datatype Session = Session(email: Email, role: string)

  /// A handler's JSON answer: a "message" with HTTP 200, or an "error"
  /// with its status code.
  datatype Reply = Message(text: string) | Error(status: int, text: string)

  /// The answer of a listing handler: the items, or the gate's refusal.
  datatype Listing<T> = Listed(items: seq<T>) | Denied(status: int, text: string)

  // ---------------------------------------------------------------------
  // Authorization gates (the email argument of the source is ignored)
  // ---------------------------------------------------------------------

  /// _require_student: `None` when the session belongs to a stored
  /// student of the allowed domain, otherwise the first failing reason.
  function RequireStudent(users: map<Email, UserRow>, session: Session): (denial: Option<string>)
    ensures denial.None? <==>
      && session.email != ""
      && IsAllowedEmail(session.email)
      && session.email in users
      && session.role == StudentRole
      && users[session.email].role == StudentRole
    ensures session.email == "" ==> denial == Some("Not logged in.")
    ensures session.email != "" && !IsAllowedEmail(session.email) ==>
      denial == Some("Only @uni-bayreuth.de emails are allowed.")
    ensures session.email != "" && IsAllowedEmail(session.email) && session.email !in users ==>
      denial == Some("User not found.")
    ensures (&& session.email != "" && IsAllowedEmail(session.email) && session.email in users
             && (session.role != StudentRole || users[session.email].role != StudentRole)) ==>
      denial == Some("Only students can perform this action.")
  {
    if session.email == "" then Some("Not logged in.")
    else if !IsAllowedEmail(session.email) then Some("Only @uni-bayreuth.de emails are allowed.")
    else if session.email !in users then Some("User not found.")
    else if session.role != StudentRole || users[session.email].role != StudentRole then
      Some("Only students can perform this action.")
    else None
  }

  /// _require_admin: `None` when the session belongs to a stored admin,
  /// otherwise the first failing reason; no domain check.
  function RequireAdmin(users: map<Email, UserRow>, session: Session): (denial: Option<string>)
    ensures denial.None? <==>
      && session.email != ""
      && session.email in users
      && session.role == AdminRole
      && users[session.email].role == AdminRole
    ensures session.email == "" ==> denial == Some("Not logged in.")
    ensures session.email != "" && session.email !in users ==> denial == Some("User not found.")
    ensures (&& session.email != "" && session.email in users
             && (session.role != AdminRole || users[session.email].role != AdminRole)) ==>
      denial == Some("Admin only.")
  {
    if session.email == "" then Some("Not logged in.")
    else if session.email !in users then Some("User not found.")
    else if session.role != AdminRole || users[session.email].role != AdminRole then Some("Admin only.")
    else None
  }

  /// No session passes both gates, and a claimed role that disagrees with
  /// the stored one passes neither.
  lemma GatesAreExclusive(users: map<Email, UserRow>, session: Session)
    ensures RequireStudent(users, session).None? ==> RequireAdmin(users, session).Some?
    ensures session.email in users && session.role != users[session.email].role ==>
      RequireStudent(users, session).Some? && RequireAdmin(users, session).Some?
  {
  }

  /// The session written by a successful login of a verified student with
  /// an allowed address passes the student gate.
  lemma VerifiedStudentPassesGate(
    t: Tables, sha: Hasher, email: Email, password: string,
    saltBytes: seq<Byte>, codeBytes: seq<Byte>, now: int)
    requires |saltBytes| == 8 && |codeBytes| == 3
    requires IsAllowedEmail(email)
    requires email !in t.users && email !in t.verifications
    ensures var (t1, r1) := StartRegistrationStep(t, sha, email, password, saltBytes, codeBytes, now);
      var (t2, r2) := VerifyStep(t1, sha, email, r1.value.code);
      var (ok, role) := Login(t2, sha, email, password);
      ok && RequireStudent(t2.users, Session(email, role)).None?
  {
    LoginAfterVerification(t, sha, email, password, saltBytes, codeBytes, now);
  }

  // ---------------------------------------------------------------------
  // Read-model DTOs
  // ---------------------------------------------------------------------

  datatype RoomDto = RoomDto(
    id: int,
    kind: string,
    title: string,
    description: string,
    priceEur: int,
    capacity: int,
    available: bool,
    bookedCount: int,
    remaining: int,
    isFull: bool)

  function Max(a: int, b: int): int {
    if a >= b then a else b
  }

  /// _room_dto_from_row: the room with its booking count, the places left
  /// (never negative) and whether none is left.
  function RoomDtoFromRow(id: int, room: Room, booked: nat): (dto: RoomDto)
    ensures dto.remaining >= 0
    ensures dto.remaining + booked >= room.capacity
    ensures booked >= room.capacity ==> dto.remaining == 0
    ensures booked <= room.capacity ==> dto.remaining == room.capacity - booked
    ensures dto.isFull <==> booked >= room.capacity
    ensures dto.id == id && dto.capacity == room.capacity && dto.bookedCount == booked
    ensures dto.kind == room.kind && dto.title == room.title && dto.description == room.description
    ensures dto.priceEur == room.priceEur && dto.available == room.available
  {
    var remaining := Max(0, room.capacity - booked);
    RoomDto(id, room.kind, room.title, room.description, room.priceEur, room.capacity,
            room.available, booked, remaining, remaining == 0)
  }

  /// The DTO that /api/me/room builds inline, with "full" computed as
  /// booked >= capacity.
  function MeRoomDto(id: int, room: Room, booked: nat): RoomDto {
    RoomDto(id, room.kind, room.title, room.description, room.priceEur, room.capacity,
            room.available, booked, Max(0, room.capacity - booked), booked >= room.capacity)
  }

  /// The two room read models agree.
  lemma MeRoomAgreesWithRoomDto(id: int, room: Room, booked: nat)
    ensures MeRoomDto(id, room, booked) == RoomDtoFromRow(id, room, booked)
  {
  }

  datatype EventDto = EventDto(
    id: int,
    title: string,
    category: string,
    dateTime: string,
    location: string,
    description: string,
    quota: Option<int>,
    registeredCount: int,
    remaining: Option<int>,
    isFull: bool)

  /// _event_dto_from_row: a NULL quota has no remaining count and is never
  /// full; otherwise the room rule applies to the quota.
  function EventDtoFromRow(id: int, event: Event, registered: nat): (dto: EventDto)
    ensures event.quota.None? ==> dto.remaining.None? && !dto.isFull
    ensures event.quota.Some? ==>
      && dto.remaining.Some? && dto.remaining.value >= 0
      && (registered <= event.quota.value ==> dto.remaining.value == event.quota.value - registered)
      && (dto.isFull <==> registered >= event.quota.value)
      && (registered >= event.quota.value ==> dto.remaining == Some(0))
    ensures dto.id == id && dto.quota == event.quota && dto.registeredCount == registered
    ensures dto.title == event.title && dto.category == event.category && dto.dateTime == event.dateTime
    ensures dto.location == event.location && dto.description == event.description
  {
    var remaining := if event.quota.None? then None else Some(Max(0, event.quota.value - registered));
    var isFull := if event.quota.None? then false else remaining.value == 0;
    EventDto(id, event.title, event.category, event.dateTime, event.location, event.description,
             event.quota, registered, remaining, isFull)
  }

  // ---------------------------------------------------------------------
  // Settings
  // ---------------------------------------------------------------------

  /// _get_setting: the stored value, or the default when the key is absent.
  function GetSetting(settings: map<string, string>, key: string, default: string): (value: string)
    ensures key in settings ==> value == settings[key]
    ensures key !in settings ==> value == default
  {
    if key in settings then settings[key] else default
  }

  /// rooms_open is read with default "1": rooms are open unless an admin
  /// stored something other than "1".
  predicate RoomsOpen(settings: map<string, string>) {
    GetSetting(settings, "rooms_open", "1") == "1"
  }

  lemma RoomsOpenByDefault(settings: map<string, string>)
    ensures "rooms_open" !in settings ==> RoomsOpen(settings)
    ensures RoomsOpen(settings) <==> "rooms_open" !in settings || settings["rooms_open"] == "1"
  {
  }
}
