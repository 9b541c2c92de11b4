/// app.py, events: the paginated listing (520-555), registering (557-589)
/// and leaving (953-969).
module AppEvents {
  import opened Schema
  import opened AppCommon

  // ---------------------------------------------------------------------
  // Pagination of GET /api/events
  // ---------------------------------------------------------------------

  datatype PageInfo = PageInfo(page: int, pageSize: int, offset: int, hasPrev: bool, hasNext: bool)

  /// The page arithmetic: a page below 1 becomes 1, a page size outside
  /// [1, 50] becomes 4, and the flags say whether rows lie before and after.
  function EventsPage(pageArg: int, pageSizeArg: int, total: nat): (p: PageInfo)
    ensures p.page >= 1 && 1 <= p.pageSize <= 50 && p.offset >= 0
    ensures p.page == (if pageArg < 1 then 1 else pageArg)
    ensures p.pageSize == (if 1 <= pageSizeArg <= 50 then pageSizeArg else 4)
    ensures p.offset == (p.page - 1) * p.pageSize
    ensures p.hasPrev <==> p.page > 1
    ensures p.hasPrev <==> p.offset > 0
    ensures p.hasNext <==> p.offset + p.pageSize < total
  {
    var page := if pageArg < 1 then 1 else pageArg;
    var pageSize := if pageSizeArg < 1 || pageSizeArg > 50 then 4 else pageSizeArg;
    var offset := (page - 1) * pageSize;
    PageInfo(page, pageSize, offset, page > 1, offset + pageSize < total)
  }

  function Min(a: int, b: int): int {
    if a <= b then a else b
  }

  /// LIMIT pageSize OFFSET offset over rows already in listing order.
  function PageItems<T>(rows: seq<T>, p: PageInfo): (items: seq<T>)
    requires p.offset >= 0 && p.pageSize >= 1
    ensures |items| <= p.pageSize
    ensures |items| == Min(p.pageSize, Max(0, |rows| - p.offset))
    ensures forall k :: 0 <= k < |items| ==> p.offset + k < |rows| && items[k] == rows[p.offset + k]
  {
    rows[Min(p.offset, |rows|)..Min(p.offset + p.pageSize, |rows|)]
  }

  /// has_next is true exactly when the following page is not empty.
  lemma HasNextIffNextPageNonEmpty<T>(rows: seq<T>, page: int, pageSize: int)
    requires page >= 1
    ensures EventsPage(page, pageSize, |rows|).hasNext <==>
      |PageItems(rows, EventsPage(page + 1, pageSize, |rows|))| > 0
  {
    var p := EventsPage(page, pageSize, |rows|);
    var q := EventsPage(page + 1, pageSize, |rows|);
    assert q.offset == p.page * p.pageSize;
  }

  /// Every row is listed on exactly the page its index falls into.
  lemma RowIsOnItsPage<T>(rows: seq<T>, pageSize: int, i: int)
    requires 1 <= pageSize <= 50
    requires 0 <= i < |rows|
    ensures var p := EventsPage(i / pageSize + 1, pageSize, |rows|);
      i % pageSize < |PageItems(rows, p)| && PageItems(rows, p)[i % pageSize] == rows[i]
  {
    var p := EventsPage(i / pageSize + 1, pageSize, |rows|);
    assert p.offset == (i / pageSize) * pageSize;
    assert i == (i / pageSize) * pageSize + i % pageSize;
  }

  /// GET /api/events: the page of event DTOs and the page flags. Rows are
  /// taken in id order; each carries its event's registration count.
  function ListEvents(t: Tables, pageArg: int, pageSizeArg: int): (listing: (PageInfo, seq<EventDto>))
    ensures listing.0 == EventsPage(pageArg, pageSizeArg, |t.events|)
    ensures |listing.1| <= listing.0.pageSize
    ensures |listing.1| == Min(listing.0.pageSize, Max(0, |t.events| - listing.0.offset))
    ensures forall k :: 0 <= k < |listing.1| ==>
      var i := listing.0.offset + k;
      && i < |t.events|
      && listing.1[k] == EventDtoFromRow(i + 1, t.events[i], RegisteredCount(t.registrations, i + 1))
  {
    var p := EventsPage(pageArg, pageSizeArg, |t.events|);
    (p, PageItems(EventRows(t), p))
  }

  /// Every event's DTO, in id order.
  function EventRows(t: Tables): (rows: seq<EventDto>)
    ensures |rows| == |t.events|
    ensures forall i :: 0 <= i < |rows| ==>
      rows[i] == EventDtoFromRow(i + 1, t.events[i], RegisteredCount(t.registrations, i + 1))
  {
    seq(|t.events|, i requires 0 <= i < |t.events| =>
      EventDtoFromRow(i + 1, t.events[i], RegisteredCount(t.registrations, i + 1)))
  }

  // ---------------------------------------------------------------------
  // Counting registrations
  // ---------------------------------------------------------------------

  lemma RegisteredCountAfterInsert(regs: set<EventRegistration>, x: EventRegistration, e: int)
    requires x !in regs
    ensures RegisteredCount(regs + {x}, e) == RegisteredCount(regs, e) + (if x.eventId == e then 1 else 0)
  {
    var before := set g | g in regs && g.eventId == e;
    var after := set g | g in regs + {x} && g.eventId == e;
    if x.eventId == e {
      assert after == before + {x};
    } else {
      assert after == before;
    }
  }

  lemma RegisteredCountOfSubset(small: set<EventRegistration>, large: set<EventRegistration>, e: int)
    requires small <= large
    ensures RegisteredCount(small, e) <= RegisteredCount(large, e)
  {
    SubsetCardinality(set g | g in small && g.eventId == e, set g | g in large && g.eventId == e);
  }

  // ---------------------------------------------------------------------
  // Register
  // ---------------------------------------------------------------------

  /// POST /api/events/<event_id>/register: gate, then the event's
  /// existence, then its quota (before any duplicate check), then the
  /// (event, user) uniqueness, then the insert.
  function RegisterEvent(t: Tables, session: Session, eventId: int): (Tables, Reply) {
    var denial := RequireStudent(t.users, session);
    if denial.Some? then (t, Error(401, denial.value))
    else if !HasEvent(t, eventId) then (t, Error(404, "Event not found"))
    else if t.events[eventId - 1].quota.Some?
         && RegisteredCount(t.registrations, eventId) >= t.events[eventId - 1].quota.value then
      (t, Error(409, "Event is full"))
    else if EventRegistration(eventId, session.email) in t.registrations then
      (t, Error(409, "You are already registered for this event"))
    else (t.(registrations := t.registrations + {EventRegistration(eventId, session.email)}), Message("Registered"))
  }

  /// Registration succeeds exactly when the gate passes, the event exists,
  /// a quota (if any) is not reached and the student is not registered
  /// yet; it then adds that one pair, and otherwise changes nothing. A
  /// student already registered for a full event is told it is full.
  /// The first failing check, in the order gate, event, quota, duplicate,
  /// decides the reply.
  lemma RegisterEventOutcome(t: Tables, session: Session, eventId: int)
    ensures var (t', reply) := RegisterEvent(t, session, eventId);
      var denial := RequireStudent(t.users, session);
      && (denial.Some? ==> reply == Error(401, denial.value))
      && (denial.None? && !HasEvent(t, eventId) ==> reply == Error(404, "Event not found"))
      && (denial.None? && HasEvent(t, eventId)
          && (t.events[eventId - 1].quota.None?
              || RegisteredCount(t.registrations, eventId) < t.events[eventId - 1].quota.value)
          && EventRegistration(eventId, session.email) in t.registrations ==>
            reply == Error(409, "You are already registered for this event"))
      && (reply == Message("Registered") <==>
            && RequireStudent(t.users, session).None?
            && HasEvent(t, eventId)
            && (t.events[eventId - 1].quota.None?
                || RegisteredCount(t.registrations, eventId) < t.events[eventId - 1].quota.value)
            && EventRegistration(eventId, session.email) !in t.registrations)
      && (reply == Message("Registered") ==>
            && t' == t.(registrations := t.registrations + {EventRegistration(eventId, session.email)})
            && RegisteredCount(t'.registrations, eventId) == RegisteredCount(t.registrations, eventId) + 1)
      && (reply != Message("Registered") ==> t' == t)
      && (RequireStudent(t.users, session).None? && HasEvent(t, eventId)
          && t.events[eventId - 1].quota.Some?
          && RegisteredCount(t.registrations, eventId) >= t.events[eventId - 1].quota.value ==>
            reply == Error(409, "Event is full"))
  {
    var x := EventRegistration(eventId, session.email);
    if RegisterEvent(t, session, eventId).1 == Message("Registered") {
      RegisteredCountAfterInsert(t.registrations, x, eventId);
    }
  }

  /// Registration keeps every registration on an existing event and every
  /// event with a quota within it.
  lemma RegisterEventKeepsConsistent(t: Tables, session: Session, eventId: int)
    requires Consistent(t)
    ensures Consistent(RegisterEvent(t, session, eventId).0)
  {
    var (t', reply) := RegisterEvent(t, session, eventId);
    if t' != t {
      var x := EventRegistration(eventId, session.email);
      forall i | 0 <= i < |t'.events| && t'.events[i].quota.Some?
        ensures RegisteredCount(t'.registrations, i + 1) <= t'.events[i].quota.value
      {
        RegisteredCountAfterInsert(t.registrations, x, i + 1);
      }
    }
  }

  // ---------------------------------------------------------------------
  // Leave
  // ---------------------------------------------------------------------

  /// POST /api/events/<event_id>/leave: gate, then delete the pair, if any.
  function LeaveEvent(t: Tables, session: Session, eventId: int): (Tables, Reply) {
    var denial := RequireStudent(t.users, session);
    if denial.Some? then (t, Error(401, denial.value))
    else (t.(registrations := t.registrations - {EventRegistration(eventId, session.email)}), Message("Left event"))
  }

  /// Leaving an event removes exactly the caller's pair for that event,
  /// registered or not, and nothing else.
  lemma LeaveEventOutcome(t: Tables, session: Session, eventId: int)
    ensures var (t', reply) := LeaveEvent(t, session, eventId);
      var denial := RequireStudent(t.users, session);
      && (denial.Some? ==> reply == Error(401, denial.value))
      && (reply == Message("Left event") <==> RequireStudent(t.users, session).None?)
      && (reply == Message("Left event") ==>
            && EventRegistration(eventId, session.email) !in t'.registrations
            && (forall g :: g in t'.registrations <==>
                  g in t.registrations && g != EventRegistration(eventId, session.email))
            && t' == t.(registrations := t.registrations - {EventRegistration(eventId, session.email)}))
      && (reply != Message("Left event") ==> t' == t)
  {
  }

  /// Leaving an event keeps every registration on an existing event and
  /// every event with a quota within it.
  lemma LeaveEventKeepsConsistent(t: Tables, session: Session, eventId: int)
    requires Consistent(t)
    ensures Consistent(LeaveEvent(t, session, eventId).0)
  {
    var t' := LeaveEvent(t, session, eventId).0;
    forall i | 0 <= i < |t'.events| && t'.events[i].quota.Some?
      ensures RegisteredCount(t'.registrations, i + 1) <= t'.events[i].quota.value
    {
      RegisteredCountOfSubset(t'.registrations, t.registrations, i + 1);
    }
  }

  // ---------------------------------------------------------------------
  // The handlers, in place on the database
  // ---------------------------------------------------------------------

  method ApiRegisterEvent(db: Database, session: Session, eventId: int) returns (reply: Reply)
    requires db.Valid()
    modifies db
    ensures db.Valid()
    ensures (db.Snapshot(), reply) == RegisterEvent(old(db.Snapshot()), session, eventId)
  {
    RegisterEventKeepsConsistent(db.Snapshot(), session, eventId);
    var denial := RequireStudent(db.users, session);
    if denial.Some? {
      return Error(401, denial.value);
    }
    if !(1 <= eventId <= |db.events|) {
      return Error(404, "Event not found");
    }
    var registered := RegisteredCount(db.registrations, eventId);
    var quota := db.events[eventId - 1].quota;
    if quota.Some? && registered >= quota.value {
      return Error(409, "Event is full");
    }
    var pair := EventRegistration(eventId, session.email);
    if pair in db.registrations {
      return Error(409, "You are already registered for this event");
    }
    db.registrations := db.registrations + {pair};
    return Message("Registered");
  }

  method ApiLeaveEvent(db: Database, session: Session, eventId: int) returns (reply: Reply)
    requires db.Valid()
    modifies db
    ensures db.Valid()
    ensures (db.Snapshot(), reply) == LeaveEvent(old(db.Snapshot()), session, eventId)
  {
    LeaveEventKeepsConsistent(db.Snapshot(), session, eventId);
    var denial := RequireStudent(db.users, session);
    if denial.Some? {
      return Error(401, denial.value);
    }
    db.registrations := db.registrations - {EventRegistration(eventId, session.email)};
    return Message("Left event");
  }
}
