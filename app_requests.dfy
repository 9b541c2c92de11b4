/// app.py, event requests: a student proposes an event (708-747), lists
/// (669-706) and hides (749-783) their own requests; an admin lists
/// requests by status (785-824) and accepts or rejects them (826-889),
/// accepting publishes the request as an event.
module AppRequests {
  import opened Schema
  import opened AppCommon

  // ---------------------------------------------------------------------
  // Create
  // ---------------------------------------------------------------------

  /// The "quota" field of the body after `int(quota)`: absent or null, an
  /// integer, or a value that does not convert.
  datatype QuotaArg = NullQuota | Converted(n: int) | Unconvertible

  /// The stripped text fields of the body, and its quota.
  datatype RequestForm = RequestForm(
    title: string,
    category: string,
    dateTime: string,
    location: string,
    description: string,
    quota: QuotaArg)

  predicate IsCategory(c: string) {
    c == "social" || c == "orientation" || c == "study_group"
  }

  predicate FieldsValid(form: RequestForm) {
    form.title != "" && IsCategory(form.category) && form.dateTime != ""
    && form.location != "" && form.description != ""
  }

  /// POST /api/event-requests: gate, then the text fields and category,
  /// then the quota, then append a pending request in the name of the
  /// body's email.
  function CreateRequest(t: Tables, session: Session, email: Email, form: RequestForm): (Tables, Reply) {
    var denial := RequireStudent(t.users, session);
    if denial.Some? then (t, Error(401, denial.value))
    else if !FieldsValid(form) then (t, Error(400, "Invalid request fields"))
    else if form.quota.Converted? && form.quota.n < 0 then (t, Error(400, "Quota must be non-negative"))
    else if form.quota.Unconvertible? then (t, Error(400, "Quota must be null or an integer"))
    else
      var quota := if form.quota.Converted? then Some(form.quota.n) else None;
      var r := EventRequest(form.title, form.category, form.dateTime, form.location, form.description,
                            quota, email, Pending, None);
      (t.(requests := t.requests + [r]), Message("Event request created"))
  }

  /// A request is created exactly when the gate passes, the fields are
  /// valid and the quota is null or a non-negative integer; the new row,
  /// with the next id, is pending, has no comment and carries the body's
  /// email. Anything else changes nothing, and the first failing check,
  /// in the order gate, fields, negative quota, unconvertible quota,
  /// decides the reply.
  lemma CreateRequestOutcome(t: Tables, session: Session, email: Email, form: RequestForm)
    ensures var (t', reply) := CreateRequest(t, session, email, form);
      var denial := RequireStudent(t.users, session);
      && (denial.Some? ==> reply == Error(401, denial.value))
      && (denial.None? && !FieldsValid(form) ==> reply == Error(400, "Invalid request fields"))
      && (denial.None? && FieldsValid(form) && form.quota.Converted? && form.quota.n < 0 ==>
            reply == Error(400, "Quota must be non-negative"))
      && (denial.None? && FieldsValid(form) && form.quota.Unconvertible? ==>
            reply == Error(400, "Quota must be null or an integer"))
      && (reply == Message("Event request created") <==>
            && RequireStudent(t.users, session).None?
            && FieldsValid(form)
            && (form.quota.NullQuota? || (form.quota.Converted? && form.quota.n >= 0)))
      && (reply == Message("Event request created") ==>
            && t' == t.(requests := t'.requests)
            && |t'.requests| == |t.requests| + 1
            && t'.requests[..|t.requests|] == t.requests
            && var r := t'.requests[|t.requests|];
               && r.status == Pending && r.adminComment.None? && r.requestedByEmail == email
               && r.title == form.title && r.category == form.category && r.dateTime == form.dateTime
               && r.location == form.location && r.description == form.description
               && (r.quota.None? <==> form.quota.NullQuota?)
               && (r.quota.Some? ==> r.quota.value >= 0 && form.quota == Converted(r.quota.value)))
      && (reply != Message("Event request created") ==> t' == t)
  {
  }

  lemma CreateRequestKeepsConsistent(t: Tables, session: Session, email: Email, form: RequestForm)
    requires Consistent(t)
    ensures Consistent(CreateRequest(t, session, email, form).0)
  {
    var t' := CreateRequest(t, session, email, form).0;
    assert forall i :: 0 <= i < |t.requests| ==> t'.requests[i] == t.requests[i];
  }

  // ---------------------------------------------------------------------
  // The student's own listing
  // ---------------------------------------------------------------------

  /// One row of a request listing.
  datatype RequestView = RequestView(
    id: int,
    title: string,
    category: string,
    dateTime: string,
    location: string,
    description: string,
    quota: Option<int>,
    requestedByEmail: Email,
    status: RequestStatus,
    adminComment: Option<string>)

  function ViewOf(id: int, r: EventRequest): (v: RequestView)
    ensures v.id == id && v.status == r.status && v.requestedByEmail == r.requestedByEmail
    ensures v.title == r.title && v.category == r.category && v.dateTime == r.dateTime
    ensures v.location == r.location && v.description == r.description
    ensures v.quota == r.quota && v.adminComment == r.adminComment
  {
    RequestView(id, r.title, r.category, r.dateTime, r.location, r.description, r.quota,
                r.requestedByEmail, r.status, r.adminComment)
  }

  /// The request with this id was made by `email`, and `email` has not
  /// hidden it.
  predicate OwnVisible(requests: seq<EventRequest>, hidden: set<HiddenMark>, email: Email, id: int)
    requires 1 <= id <= |requests|
  {
    requests[id - 1].requestedByEmail == email && HiddenMark(id, email) !in hidden
  }

  /// The views of the requests with ids in (i, |requests|] that `email`
  /// owns and has not hidden, newest (highest id) first.
  function OwnVisibleAbove(requests: seq<EventRequest>, hidden: set<HiddenMark>, email: Email, i: nat): seq<RequestView>
    requires i <= |requests|
    decreases |requests| - i
  {
    if i == |requests| then []
    else
      OwnVisibleAbove(requests, hidden, email, i + 1)
      + (if OwnVisible(requests, hidden, email, i + 1) then [ViewOf(i + 1, requests[i])] else [])
  }

  predicate DescendingIds(s: seq<RequestView>) {
    forall a, b :: 0 <= a < b < |s| ==> s[a].id > s[b].id
  }

  /// The listing holds exactly the owned, unhidden requests, each with its
  /// current row, in strictly decreasing id order.
  lemma {:induction false} OwnVisibleAboveExactly(requests: seq<EventRequest>, hidden: set<HiddenMark>, email: Email, i: nat)
    requires i <= |requests|
    ensures forall v :: v in OwnVisibleAbove(requests, hidden, email, i) ==>
      && i < v.id <= |requests|
      && OwnVisible(requests, hidden, email, v.id)
      && v == ViewOf(v.id, requests[v.id - 1])
    ensures forall id :: i < id <= |requests| && OwnVisible(requests, hidden, email, id) ==>
      ViewOf(id, requests[id - 1]) in OwnVisibleAbove(requests, hidden, email, i)
    ensures DescendingIds(OwnVisibleAbove(requests, hidden, email, i))
    decreases |requests| - i
  {
    if i < |requests| {
      OwnVisibleAboveExactly(requests, hidden, email, i + 1);
      var rest := OwnVisibleAbove(requests, hidden, email, i + 1);
      var s := OwnVisibleAbove(requests, hidden, email, i);
      assert s == rest + (if OwnVisible(requests, hidden, email, i + 1) then [ViewOf(i + 1, requests[i])] else []);
      forall a, b | 0 <= a < b < |s|
        ensures s[a].id > s[b].id
      {
        assert s[a] == rest[a] && rest[a] in rest;
        if b == |rest| {
          assert s[b] == ViewOf(i + 1, requests[i]);
        } else {
          assert s[b] == rest[b];
        }
      }
    }
  }

  /// GET /api/event-requests?email=...: gate, then the listing for the
  /// query's email: every request that email made and has not hidden,
  /// with its current fields, newest first.
  function ListOwnRequests(t: Tables, session: Session, email: Email): (listing: Listing<RequestView>)
    ensures RequireStudent(t.users, session).Some? ==>
      listing == Denied(401, RequireStudent(t.users, session).value)
    ensures RequireStudent(t.users, session).None? ==>
      && listing.Listed?
      && DescendingIds(listing.items)
      && (forall v :: v in listing.items ==>
            && 1 <= v.id <= |t.requests|
            && OwnVisible(t.requests, t.hidden, email, v.id)
            && v == ViewOf(v.id, t.requests[v.id - 1]))
      && (forall id :: 1 <= id <= |t.requests| && OwnVisible(t.requests, t.hidden, email, id) ==>
            ViewOf(id, t.requests[id - 1]) in listing.items)
  {
    var denial := RequireStudent(t.users, session);
    if denial.Some? then Denied(401, denial.value)
    else
      OwnVisibleAboveExactly(t.requests, t.hidden, email, 0);
      Listed(OwnVisibleAbove(t.requests, t.hidden, email, 0))
  }

  method ApiEventRequestsList(db: Database, session: Session, email: Email) returns (listing: Listing<RequestView>)
    ensures listing == ListOwnRequests(db.Snapshot(), session, email)
  {
    var denial := RequireStudent(db.users, session);
    if denial.Some? {
      return Denied(401, denial.value);
    }
    var requests := db.requests;
    var hidden := db.hidden;
    var out: seq<RequestView> := [];
    var i := |requests|;
    while i > 0
      invariant 0 <= i <= |requests|
      invariant out == OwnVisibleAbove(requests, hidden, email, i)
      decreases i
    {
      var r := requests[i - 1];
      if r.requestedByEmail == email && HiddenMark(i, email) !in hidden {
        out := out + [ViewOf(i, r)];
      }
      i := i - 1;
    }
    return Listed(out);
  }

  // ---------------------------------------------------------------------
  // Hide
  // ---------------------------------------------------------------------

  /// POST /api/event-requests/<req_id>/hide: gate, then existence, then
  /// ownership by the body's email, then a decided status, then insert the
  /// mark; an existing mark makes the insert fail and answers "Already
  /// hidden".
  function HideRequest(t: Tables, session: Session, email: Email, reqId: int): (Tables, Reply) {
    var denial := RequireStudent(t.users, session);
    if denial.Some? then (t, Error(401, denial.value))
    else if !HasRequest(t, reqId) then (t, Error(404, "Request not found"))
    else if t.requests[reqId - 1].requestedByEmail != email then (t, Error(403, "Not your request"))
    else if t.requests[reqId - 1].status == Pending then (t, Error(409, "Pending requests cannot be hidden"))
    else if HiddenMark(reqId, email) in t.hidden then (t, Message("Already hidden"))
    else (t.(hidden := t.hidden + {HiddenMark(reqId, email)}), Message("Hidden"))
  }

  predicate IsHiddenReply(reply: Reply) {
    reply == Message("Hidden") || reply == Message("Already hidden")
  }

  /// Hiding works exactly on one's own decided requests; it only adds the
  /// mark, and hiding again answers "Already hidden" and changes nothing.
  /// The first failing check, in the order gate, existence, ownership,
  /// status, decides the error.
  lemma HideRequestOutcome(t: Tables, session: Session, email: Email, reqId: int)
    ensures var (t', reply) := HideRequest(t, session, email, reqId);
      var denial := RequireStudent(t.users, session);
      && (denial.Some? ==> reply == Error(401, denial.value))
      && (denial.None? && !HasRequest(t, reqId) ==> reply == Error(404, "Request not found"))
      && (denial.None? && HasRequest(t, reqId) && t.requests[reqId - 1].requestedByEmail != email ==>
            reply == Error(403, "Not your request"))
      && (denial.None? && HasRequest(t, reqId) && t.requests[reqId - 1].requestedByEmail == email
          && t.requests[reqId - 1].status == Pending ==>
            reply == Error(409, "Pending requests cannot be hidden"))
      && (IsHiddenReply(reply) ==>
            (reply == Message("Already hidden") <==> HiddenMark(reqId, email) in t.hidden))
      && (IsHiddenReply(reply) <==>
            && RequireStudent(t.users, session).None?
            && HasRequest(t, reqId)
            && t.requests[reqId - 1].requestedByEmail == email
            && t.requests[reqId - 1].status != Pending)
      && (IsHiddenReply(reply) ==>
            && t' == t.(hidden := t.hidden + {HiddenMark(reqId, email)})
            && HideRequest(t', session, email, reqId) == (t', Message("Already hidden")))
      && (!IsHiddenReply(reply) ==> t' == t)
  {
  }

  lemma HideRequestKeepsConsistent(t: Tables, session: Session, email: Email, reqId: int)
    requires Consistent(t)
    ensures Consistent(HideRequest(t, session, email, reqId).0)
  {
  }

  /// After a successful hide the owner's listing is the previous one
  /// without that request, and nothing else in it changes.
  lemma HiddenRequestLeavesOwnListing(t: Tables, session: Session, email: Email, reqId: int)
    ensures var (t', reply) := HideRequest(t, session, email, reqId);
      IsHiddenReply(reply) ==>
        && ListOwnRequests(t, session, email).Listed?
        && ListOwnRequests(t', session, email).Listed?
        && (forall v :: v in ListOwnRequests(t', session, email).items <==>
              v in ListOwnRequests(t, session, email).items && v.id != reqId)
  {
    var (t', reply) := HideRequest(t, session, email, reqId);
    if IsHiddenReply(reply) {
      OwnVisibleAboveExactly(t.requests, t.hidden, email, 0);
      OwnVisibleAboveExactly(t'.requests, t'.hidden, email, 0);
      var before := ListOwnRequests(t, session, email).items;
      var after := ListOwnRequests(t', session, email).items;
      forall v
        ensures v in after <==> v in before && v.id != reqId
      {
        if v in after {
          assert OwnVisible(t.requests, t.hidden, email, v.id);
        }
        if v in before && v.id != reqId {
          assert OwnVisible(t'.requests, t'.hidden, email, v.id);
        }
      }
    }
  }

  // ---------------------------------------------------------------------
  // The admin listing
  // ---------------------------------------------------------------------

  /// The status filter of GET /api/admin/event-requests: anything but the
  /// three status names selects pending requests.
  function StatusFilter(statusArg: string): (s: RequestStatus)
    ensures statusArg == "accepted" <==> s == Accepted
    ensures statusArg == "rejected" <==> s == Rejected
  {
    if statusArg == "accepted" then Accepted
    else if statusArg == "rejected" then Rejected
    else Pending
  }

  /// The views of the first n requests with status s, in id order.
  function WithStatus(requests: seq<EventRequest>, s: RequestStatus, n: nat): seq<RequestView>
    requires n <= |requests|
  {
    if n == 0 then []
    else WithStatus(requests, s, n - 1) + (if requests[n - 1].status == s then [ViewOf(n, requests[n - 1])] else [])
  }

  predicate AscendingIds(s: seq<RequestView>) {
    forall a, b :: 0 <= a < b < |s| ==> s[a].id < s[b].id
  }

  /// The admin listing holds exactly the requests of status s among the
  /// first n, each once with its current row, in strictly increasing id
  /// order.
  lemma {:induction false} WithStatusExactly(requests: seq<EventRequest>, s: RequestStatus, n: nat)
    requires n <= |requests|
    ensures forall v :: v in WithStatus(requests, s, n) ==>
      1 <= v.id <= n && v == ViewOf(v.id, requests[v.id - 1]) && v.status == s
    ensures forall k :: 0 <= k < n && requests[k].status == s ==>
      ViewOf(k + 1, requests[k]) in WithStatus(requests, s, n)
    ensures AscendingIds(WithStatus(requests, s, n))
  {
    if n > 0 {
      WithStatusExactly(requests, s, n - 1);
      var rest := WithStatus(requests, s, n - 1);
      var w := WithStatus(requests, s, n);
      assert w == rest + (if requests[n - 1].status == s then [ViewOf(n, requests[n - 1])] else []);
      forall a, b | 0 <= a < b < |w|
        ensures w[a].id < w[b].id
      {
        assert w[a] == rest[a] && rest[a] in rest;
        if b == |rest| {
          assert w[b] == ViewOf(n, requests[n - 1]);
        } else {
          assert w[b] == rest[b];
        }
      }
    }
  }

  /// GET /api/admin/event-requests?status=...: admin gate, then every
  /// request of the selected status, hidden or not.
  function ListRequestsByStatus(t: Tables, session: Session, statusArg: string): (listing: Listing<RequestView>)
    ensures RequireAdmin(t.users, session).Some? ==>
      listing == Denied(401, RequireAdmin(t.users, session).value)
    ensures RequireAdmin(t.users, session).None? ==>
      && listing.Listed?
      && AscendingIds(listing.items)
      && (forall v :: v in listing.items ==>
            && 1 <= v.id <= |t.requests|
            && v == ViewOf(v.id, t.requests[v.id - 1])
            && v.status == StatusFilter(statusArg))
      && (forall k :: 0 <= k < |t.requests| && t.requests[k].status == StatusFilter(statusArg) ==>
            ViewOf(k + 1, t.requests[k]) in listing.items)
  {
    var denial := RequireAdmin(t.users, session);
    if denial.Some? then Denied(401, denial.value)
    else
      WithStatusExactly(t.requests, StatusFilter(statusArg), |t.requests|);
      Listed(WithStatus(t.requests, StatusFilter(statusArg), |t.requests|))
  }

  /// Hiding is the student's view only: the admin listing still shows the
  /// request.
  lemma HiddenRequestStaysVisibleToAdmin(t: Tables, student: Session, email: Email, reqId: int, admin: Session, statusArg: string)
    requires RequireAdmin(t.users, admin).None?
    ensures var (t', reply) := HideRequest(t, student, email, reqId);
      IsHiddenReply(reply) && StatusFilter(statusArg) == t.requests[reqId - 1].status ==>
        ViewOf(reqId, t'.requests[reqId - 1]) in ListRequestsByStatus(t', admin, statusArg).items
  {
  }

  // ---------------------------------------------------------------------
  // The admin decision
  // ---------------------------------------------------------------------

  /// The event that accepting a request publishes: its fields, its quota
  /// and its requester as creator.
  function Published(r: EventRequest): (e: Event)
    ensures e.title == r.title && e.category == r.category && e.dateTime == r.dateTime
    ensures e.location == r.location && e.description == r.description
    ensures e.quota == r.quota && e.createdByEmail == r.requestedByEmail
  {
    Event(r.title, r.category, r.dateTime, r.location, r.description, r.quota, r.requestedByEmail)
  }

  /// POST /api/admin/event-requests/<req_id>/decision: admin gate, then
  /// existence, then the action; "reject" needs a comment and overwrites
  /// any status; "accept" of an accepted request does nothing, otherwise it
  /// marks the request accepted, clears the comment and publishes it.
  function Decide(t: Tables, session: Session, reqId: int, action: string, comment: string): (Tables, Reply) {
    var denial := RequireAdmin(t.users, session);
    if denial.Some? then (t, Error(401, denial.value))
    else if !HasRequest(t, reqId) then (t, Error(404, "Request not found"))
    else if action != "accept" && action != "reject" then (t, Error(400, "Action must be accept or reject"))
    else
      var r := t.requests[reqId - 1];
      if action == "reject" then
        if comment == "" then (t, Error(400, "Rejection comment is required"))
        else (t.(requests := t.requests[reqId - 1 := r.(status := Rejected, adminComment := Some(comment))]), Message("Rejected"))
      else if r.status == Accepted then (t, Message("Already accepted"))
      else
        (t.(requests := t.requests[reqId - 1 := r.(status := Accepted, adminComment := None)],
            events := t.events + [Published(r)]),
         Message("Accepted and published"))
  }

  /// Accepting publishes exactly one event, a copy of the request, and
  /// rejecting publishes none; each changes only that request's status and
  /// comment; every other answer changes nothing. The first failing check,
  /// in the order gate, existence, action, comment, decides the error.
  lemma DecideOutcome(t: Tables, session: Session, reqId: int, action: string, comment: string)
    ensures var (t', reply) := Decide(t, session, reqId, action, comment);
      var denial := RequireAdmin(t.users, session);
      && (denial.Some? ==> reply == Error(401, denial.value))
      && (denial.None? && !HasRequest(t, reqId) ==> reply == Error(404, "Request not found"))
      && (denial.None? && HasRequest(t, reqId) && action != "accept" && action != "reject" ==>
            reply == Error(400, "Action must be accept or reject"))
      && (denial.None? && HasRequest(t, reqId) && action == "reject" && comment == "" ==>
            reply == Error(400, "Rejection comment is required"))
      && (denial.None? && HasRequest(t, reqId) && action == "accept" && t.requests[reqId - 1].status == Accepted ==>
            reply == Message("Already accepted"))
      && (reply == Message("Accepted and published") <==>
            && RequireAdmin(t.users, session).None? && HasRequest(t, reqId)
            && action == "accept" && t.requests[reqId - 1].status != Accepted)
      && (reply == Message("Rejected") <==>
            && RequireAdmin(t.users, session).None? && HasRequest(t, reqId)
            && action == "reject" && comment != "")
      && (reply == Message("Accepted and published") ==>
            && t'.events == t.events + [Published(t.requests[reqId - 1])]
            && t'.requests == t.requests[reqId - 1 := t.requests[reqId - 1].(status := Accepted, adminComment := None)]
            && t' == t.(requests := t'.requests, events := t'.events))
      && (reply == Message("Rejected") ==>
            && t'.requests == t.requests[reqId - 1 := t.requests[reqId - 1].(status := Rejected, adminComment := Some(comment))]
            && t' == t.(requests := t'.requests))
      && (reply != Message("Accepted and published") && reply != Message("Rejected") ==> t' == t)
  {
  }

  /// A second accept answers "Already accepted" and changes nothing.
  lemma SecondAcceptChangesNothing(t: Tables, session: Session, reqId: int, comment: string, comment2: string)
    ensures var (t1, reply1) := Decide(t, session, reqId, "accept", comment);
      reply1 == Message("Accepted and published") ==>
        Decide(t1, session, reqId, "accept", comment2) == (t1, Message("Already accepted"))
  {
  }

  /// Rejecting an accepted request does not withdraw its event, and
  /// accepting it again publishes a second copy.
  lemma ReacceptPublishesAgain(t: Tables, session: Session, reqId: int, comment: string)
    requires comment != ""
    ensures var (t1, reply1) := Decide(t, session, reqId, "accept", "");
      var (t2, reply2) := Decide(t1, session, reqId, "reject", comment);
      var (t3, reply3) := Decide(t2, session, reqId, "accept", "");
      reply1 == Message("Accepted and published") ==>
        && reply2 == Message("Rejected") && t2.events == t1.events
        && reply3 == Message("Accepted and published")
        && |t3.events| == |t.events| + 2
        && t3.events[|t.events|] == t3.events[|t.events| + 1] == Published(t.requests[reqId - 1])
  {
    var (t1, reply1) := Decide(t, session, reqId, "accept", "");
    if reply1 == Message("Accepted and published") {
      var (t2, reply2) := Decide(t1, session, reqId, "reject", comment);
      assert Published(t2.requests[reqId - 1]) == Published(t.requests[reqId - 1]);
    }
  }

  /// A decision keeps the tables consistent: the published event has no
  /// registrations yet and a non-negative quota.
  lemma DecideKeepsConsistent(t: Tables, session: Session, reqId: int, action: string, comment: string)
    requires Consistent(t)
    ensures Consistent(Decide(t, session, reqId, action, comment).0)
    ensures var (t', reply) := Decide(t, session, reqId, action, comment);
      reply == Message("Accepted and published") ==>
        && |t'.events| == |t.events| + 1
        && RegisteredCount(t'.registrations, |t'.events|) == 0
        && (t'.events[|t.events|].quota.Some? ==> t'.events[|t.events|].quota.value >= 0)
  {
    var (t', reply) := Decide(t, session, reqId, action, comment);
    if reply == Message("Accepted and published") {
      var n := |t.events|;
      assert (set g | g in t'.registrations && g.eventId == n + 1) == {};
      assert forall i :: 0 <= i < n ==> t'.events[i] == t.events[i];
    }
  }

  // ---------------------------------------------------------------------
  // The handlers, in place on the database
  // ---------------------------------------------------------------------

  method ApiEventRequestsCreate(db: Database, session: Session, email: Email, form: RequestForm) returns (reply: Reply)
    requires db.Valid()
    modifies db
    ensures db.Valid()
    ensures (db.Snapshot(), reply) == CreateRequest(old(db.Snapshot()), session, email, form)
  {
    CreateRequestKeepsConsistent(db.Snapshot(), session, email, form);
    var denial := RequireStudent(db.users, session);
    if denial.Some? {
      return Error(401, denial.value);
    }
    if !FieldsValid(form) {
      return Error(400, "Invalid request fields");
    }
    var quota: Option<int>;
    match form.quota {
      case NullQuota =>
        quota := None;
      case Converted(n) =>
        if n < 0 {
          return Error(400, "Quota must be non-negative");
        }
        quota := Some(n);
      case Unconvertible =>
        return Error(400, "Quota must be null or an integer");
    }
    db.requests := db.requests + [EventRequest(form.title, form.category, form.dateTime, form.location,
                                               form.description, quota, email, Pending, None)];
    return Message("Event request created");
  }

  method ApiEventRequestsHide(db: Database, session: Session, email: Email, reqId: int) returns (reply: Reply)
    requires db.Valid()
    modifies db
    ensures db.Valid()
    ensures (db.Snapshot(), reply) == HideRequest(old(db.Snapshot()), session, email, reqId)
  {
    HideRequestKeepsConsistent(db.Snapshot(), session, email, reqId);
    var denial := RequireStudent(db.users, session);
    if denial.Some? {
      return Error(401, denial.value);
    }
    if !(1 <= reqId <= |db.requests|) {
      return Error(404, "Request not found");
    }
    var r := db.requests[reqId - 1];
    if r.requestedByEmail != email {
      return Error(403, "Not your request");
    }
    if r.status == Pending {
      return Error(409, "Pending requests cannot be hidden");
    }
    var mark := HiddenMark(reqId, email);
    if mark in db.hidden {
      return Message("Already hidden");
    }
    db.hidden := db.hidden + {mark};
    return Message("Hidden");
  }

  method ApiAdminEventRequestDecision(db: Database, session: Session, reqId: int, action: string, comment: string)
    returns (reply: Reply)
    requires db.Valid()
    modifies db
    ensures db.Valid()
    ensures (db.Snapshot(), reply) == Decide(old(db.Snapshot()), session, reqId, action, comment)
  {
    DecideKeepsConsistent(db.Snapshot(), session, reqId, action, comment);
    var denial := RequireAdmin(db.users, session);
    if denial.Some? {
      return Error(401, denial.value);
    }
    if !(1 <= reqId <= |db.requests|) {
      return Error(404, "Request not found");
    }
    if action != "accept" && action != "reject" {
      return Error(400, "Action must be accept or reject");
    }
    var r := db.requests[reqId - 1];
    if action == "reject" {
      if comment == "" {
        return Error(400, "Rejection comment is required");
      }
      db.requests := db.requests[reqId - 1 := r.(status := Rejected, adminComment := Some(comment))];
      return Message("Rejected");
    }
    if r.status == Accepted {
      return Message("Already accepted");
    }
    db.requests := db.requests[reqId - 1 := r.(status := Accepted, adminComment := None)];
    db.events := db.events + [Published(r)];
    return Message("Accepted and published");
  }
}
