/// app.py, room selection: join (482-517), leave (597-612) and the admin
/// switch that opens or closes room selection (362-391).
module AppRooms {
  import opened Schema
  import opened AppCommon

  // ---------------------------------------------------------------------
  // Counting bookings
  // ---------------------------------------------------------------------

  /// Adding a booking that is not yet there raises its room's count by one
  /// and leaves every other room's count alone.
  lemma BookedCountAfterInsert(bookings: set<RoomBooking>, x: RoomBooking, r: int)
    requires x !in bookings
    ensures BookedCount(bookings + {x}, r) ==
      BookedCount(bookings, r) + (if x.roomId == r then 1 else 0)
  {
    var before := set b | b in bookings && b.roomId == r;
    var after := set b | b in bookings + {x} && b.roomId == r;
    if x.roomId == r {
      assert after == before + {x};
    } else {
      assert after == before;
    }
  }

  /// Removing bookings never raises a room's count.
  lemma BookedCountOfSubset(small: set<RoomBooking>, large: set<RoomBooking>, r: int)
    requires small <= large
    ensures BookedCount(small, r) <= BookedCount(large, r)
  {
    var a := set b | b in small && b.roomId == r;
    var c := set b | b in large && b.roomId == r;
    SubsetCardinality(a, c);
  }

  // ---------------------------------------------------------------------
  // Join
  // ---------------------------------------------------------------------

  /// POST /api/rooms/<room_id>/join: gate, then rooms_open, then an
  /// existing booking of the caller, then the room's existence, then its
  /// capacity, then the insert.
  function JoinRoom(t: Tables, session: Session, roomId: int): (Tables, Reply) {
    var denial := RequireStudent(t.users, session);
    if denial.Some? then (t, Error(401, denial.value))
    else if !RoomsOpen(t.settings) then (t, Error(403, "Room selection is closed by admin."))
    else if HasBooking(t.bookings, session.email) then
      (t, Error(409, "You are already in a room. Leave it first to switch."))
    else if roomId !in t.rooms then (t, Error(404, "Room not found"))
    else if BookedCount(t.bookings, roomId) >= t.rooms[roomId].capacity then (t, Error(409, "Room is full"))
    else (t.(bookings := t.bookings + {RoomBooking(roomId, session.email)}), Message("Joined room"))
  }

  /// A join succeeds exactly when every check passes; it then adds one
  /// booking, raising that room's count by one, and otherwise changes
  /// nothing. The first failing check, in the order gate, rooms_open,
  /// existing booking, room, capacity, decides the reply.
  lemma JoinRoomOutcome(t: Tables, session: Session, roomId: int)
    ensures var (t', reply) := JoinRoom(t, session, roomId);
      var denial := RequireStudent(t.users, session);
      && (denial.Some? ==> reply == Error(401, denial.value))
      && (denial.None? && !RoomsOpen(t.settings) ==>
            reply == Error(403, "Room selection is closed by admin."))
      && (denial.None? && RoomsOpen(t.settings) && HasBooking(t.bookings, session.email) ==>
            reply == Error(409, "You are already in a room. Leave it first to switch."))
      && (denial.None? && RoomsOpen(t.settings) && !HasBooking(t.bookings, session.email)
          && roomId !in t.rooms ==>
            reply == Error(404, "Room not found"))
      && (denial.None? && RoomsOpen(t.settings) && !HasBooking(t.bookings, session.email)
          && roomId in t.rooms && BookedCount(t.bookings, roomId) >= t.rooms[roomId].capacity ==>
            reply == Error(409, "Room is full"))
      && (reply == Message("Joined room") <==>
            && RequireStudent(t.users, session).None?
            && RoomsOpen(t.settings)
            && !HasBooking(t.bookings, session.email)
            && roomId in t.rooms
            && BookedCount(t.bookings, roomId) < t.rooms[roomId].capacity)
      && (reply == Message("Joined room") ==>
            && t' == t.(bookings := t.bookings + {RoomBooking(roomId, session.email)})
            && |t'.bookings| == |t.bookings| + 1
            && BookedCount(t'.bookings, roomId) == BookedCount(t.bookings, roomId) + 1)
      && (reply != Message("Joined room") ==> t' == t)
  {
    var x := RoomBooking(roomId, session.email);
    if JoinRoom(t, session, roomId).1 == Message("Joined room") {
      assert x !in t.bookings;
      BookedCountAfterInsert(t.bookings, x, roomId);
    }
  }

  /// A join keeps every booking on an existing room, at most one booking
  /// per student and every room within its capacity.
  lemma JoinRoomKeepsConsistent(t: Tables, session: Session, roomId: int)
    requires Consistent(t)
    ensures Consistent(JoinRoom(t, session, roomId).0)
  {
    var (t', reply) := JoinRoom(t, session, roomId);
    if t' != t {
      var x := RoomBooking(roomId, session.email);
      assert x !in t.bookings;
      forall r | r in t'.rooms
        ensures BookedCount(t'.bookings, r) <= t'.rooms[r].capacity
      {
        BookedCountAfterInsert(t.bookings, x, r);
      }
    }
  }

  // ---------------------------------------------------------------------
  // Leave
  // ---------------------------------------------------------------------

  /// The bookings without the caller's.
  function WithoutBookingOf(bookings: set<RoomBooking>, email: Email): (rest: set<RoomBooking>)
    ensures rest <= bookings && !HasBooking(rest, email)
    ensures forall b :: b in bookings && b.userEmail != email ==> b in rest
  {
    set b | b in bookings && b.userEmail != email
  }

  /// POST /api/rooms/leave: gate, then rooms_open, then delete the
  /// caller's booking, if any.
  function LeaveRoom(t: Tables, session: Session): (Tables, Reply) {
    var denial := RequireStudent(t.users, session);
    if denial.Some? then (t, Error(401, denial.value))
    else if !RoomsOpen(t.settings) then
      (t, Error(403, "Room selection is closed by admin. You cannot leave your room now."))
    else (t.(bookings := WithoutBookingOf(t.bookings, session.email)), Message("Left room"))
  }

  /// Leaving succeeds whenever the gate passes and rooms are open, even
  /// with nothing booked; it removes only the caller's booking, and a
  /// second leave changes nothing and answers the same.
  lemma LeaveRoomOutcome(t: Tables, session: Session)
    ensures var (t', reply) := LeaveRoom(t, session);
      var denial := RequireStudent(t.users, session);
      && (denial.Some? ==> reply == Error(401, denial.value))
      && (denial.None? && !RoomsOpen(t.settings) ==>
            reply == Error(403, "Room selection is closed by admin. You cannot leave your room now."))
      && (reply == Message("Left room") <==> RequireStudent(t.users, session).None? && RoomsOpen(t.settings))
      && (reply == Message("Left room") ==>
            && !HasBooking(t'.bookings, session.email)
            && (forall b :: b in t.bookings && b.userEmail != session.email <==> b in t'.bookings)
            && t' == t.(bookings := t'.bookings))
      && (reply != Message("Left room") ==> t' == t)
      && LeaveRoom(t', session) == (t', reply)
  {
    var (t', reply) := LeaveRoom(t, session);
    if reply == Message("Left room") {
      assert WithoutBookingOf(t'.bookings, session.email) == t'.bookings;
    }
  }

  lemma LeaveRoomKeepsConsistent(t: Tables, session: Session)
    requires Consistent(t)
    ensures Consistent(LeaveRoom(t, session).0)
  {
    var t' := LeaveRoom(t, session).0;
    forall r | r in t'.rooms
      ensures BookedCount(t'.bookings, r) <= t'.rooms[r].capacity
    {
      BookedCountOfSubset(t'.bookings, t.bookings, r);
    }
  }

  // ---------------------------------------------------------------------
  // Opening and closing room selection
  // ---------------------------------------------------------------------

  /// The JSON value of "open": a boolean, a string, or anything else.
  datatype OpenArg = JsonBool(b: bool) | JsonString(s: string) | JsonOther

  /// POST /api/admin/settings/rooms_open: admin gate, then validate the
  /// value, then upsert rooms_open.
  function SetRoomsOpen(t: Tables, session: Session, open: OpenArg): (Tables, Reply) {
    var denial := RequireAdmin(t.users, session);
    if denial.Some? then (t, Error(401, denial.value))
    else
      var value :=
        match open
        case JsonBool(b) => Some(if b then "1" else "0")
        case JsonString(s) => if s == "0" || s == "1" then Some(s) else None
        case JsonOther => None;
      if value.None? then (t, Error(400, "open must be boolean (true/false) or '0'/'1'"))
      else (t.(settings := t.settings["rooms_open" := value.value]), Message("Updated"))
  }

  /// An admin's valid switch stores "1" or "0" under rooms_open, which then
  /// decides RoomsOpen, and touches no other setting or table; any other
  /// request changes nothing.
  lemma SetRoomsOpenOutcome(t: Tables, session: Session, open: OpenArg)
    ensures var (t', reply) := SetRoomsOpen(t, session, open);
      var denial := RequireAdmin(t.users, session);
      && (denial.Some? ==> reply == Error(401, denial.value))
      && (denial.None? && !(open.JsonBool? || open == JsonString("0") || open == JsonString("1")) ==>
            reply == Error(400, "open must be boolean (true/false) or '0'/'1'"))
      && (reply == Message("Updated") <==>
            RequireAdmin(t.users, session).None?
            && (open.JsonBool? || open == JsonString("0") || open == JsonString("1")))
      && (reply == Message("Updated") ==>
            && (RoomsOpen(t'.settings) <==> open == JsonBool(true) || open == JsonString("1"))
            && t'.settings == t.settings["rooms_open" :=
                 if open == JsonBool(true) || open == JsonString("1") then "1" else "0"]
            && t' == t.(settings := t'.settings))
      && (reply != Message("Updated") ==> t' == t)
  {
  }

  /// Once room selection is closed, neither join nor leave changes any
  /// booking.
  lemma ClosedSelectionFreezesBookings(t: Tables, session: Session, student: Session, roomId: int)
    ensures var (t', reply) := SetRoomsOpen(t, session, JsonBool(false));
      reply == Message("Updated") ==>
        && JoinRoom(t', student, roomId).0 == t'
        && LeaveRoom(t', student).0 == t'
  {
  }

  // ---------------------------------------------------------------------
  // The handlers, in place on the database
  // ---------------------------------------------------------------------

  method ApiJoinRoom(db: Database, session: Session, roomId: int) returns (reply: Reply)
    requires db.Valid()
    modifies db
    ensures db.Valid()
    ensures (db.Snapshot(), reply) == JoinRoom(old(db.Snapshot()), session, roomId)
  {
    JoinRoomKeepsConsistent(db.Snapshot(), session, roomId);
    var denial := RequireStudent(db.users, session);
    if denial.Some? {
      return Error(401, denial.value);
    }
    if !RoomsOpen(db.settings) {
      return Error(403, "Room selection is closed by admin.");
    }
    if HasBooking(db.bookings, session.email) {
      return Error(409, "You are already in a room. Leave it first to switch.");
    }
    if roomId !in db.rooms {
      return Error(404, "Room not found");
    }
    var booked := BookedCount(db.bookings, roomId);
    if booked >= db.rooms[roomId].capacity {
      return Error(409, "Room is full");
    }
    db.bookings := db.bookings + {RoomBooking(roomId, session.email)};
    return Message("Joined room");
  }

  method ApiLeaveRoom(db: Database, session: Session) returns (reply: Reply)
    requires db.Valid()
    modifies db
    ensures db.Valid()
    ensures (db.Snapshot(), reply) == LeaveRoom(old(db.Snapshot()), session)
  {
    LeaveRoomKeepsConsistent(db.Snapshot(), session);
    var denial := RequireStudent(db.users, session);
    if denial.Some? {
      return Error(401, denial.value);
    }
    if !RoomsOpen(db.settings) {
      return Error(403, "Room selection is closed by admin. You cannot leave your room now.");
    }
    db.bookings := WithoutBookingOf(db.bookings, session.email);
    return Message("Left room");
  }

  method ApiAdminSetRoomsOpen(db: Database, session: Session, open: OpenArg) returns (reply: Reply)
    requires db.Valid()
    modifies db
    ensures db.Valid()
    ensures (db.Snapshot(), reply) == SetRoomsOpen(old(db.Snapshot()), session, open)
  {
    var denial := RequireAdmin(db.users, session);
    if denial.Some? {
      return Error(401, denial.value);
    }
    var value: string;
    if open.JsonBool? {
      value := if open.b then "1" else "0";
    } else if open.JsonString? && (open.s == "0" || open.s == "1") {
      value := open.s;
    } else {
      return Error(400, "open must be boolean (true/false) or '0'/'1'");
    }
    db.settings := db.settings["rooms_open" := value];
    return Message("Updated");
  }
}
