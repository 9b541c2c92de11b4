# Campus housing and events portal — verified model of its core

This project is a Dafny model of the server core of a student portal for the
University of Bayreuth. It covers two connected state machines that share
one SQLite database.

1. **The registration ledger** (`auth.py`). A prospective student registers
   with an `@uni-bayreuth.de` address and a password. The server stores a
   pending record holding a salted password hash (`salt$digest`) and a
   six-digit code, under a 60-second resend cooldown. A correct code moves
   the record into `users` with the role `student`, and `login` then checks
   the password.
2. **The application handlers** (`app.py`).
   - Two authorization gates check the session's email and role against
     the stored user.
   - Students join and leave rooms. A student holds at most one booking,
     and a room never holds more bookings than its capacity. An admin
     switch (`rooms_open`) freezes room selection.
   - Students register for and leave events. An event's optional quota
     bounds its registrations.
   - Students submit event requests, list them and hide their resolved
     ones. An admin accepts a request, which publishes it as an event, or
     rejects it with a comment.
   - A demo endpoint verifies a pending registration without the code.
   - The events listing is paginated.

## How the model is built

Files and modules:
- `schema.dfy` (`Schema`) holds the tables:
  - `Tables`, an immutable snapshot of every table;
  - `Database`, a class with one field per table;
  - `Consistent`, the invariant every handler keeps: every booking names a
    room, one booking per student, bookings ≤ capacity, every registration
    names an event, registrations ≤ quota, request quotas ≥ 0, and every
    hidden mark names a request.
- `auth.dfy` (`Auth`) holds the ledger and its helpers.
- `app_common.dfy` (`AppCommon`) holds the gates, the DTOs and the settings
  lookup.
- The handlers are in `app_rooms.dfy`, `app_events.dfy`,
  `app_requests.dfy` and `app_demo.dfy`.

Each state-changing operation is modelled twice:
- as a pure transition on `Tables`, which returns the new tables and the
  reply (HTTP status and message);
- as a method that updates the `Database` fields in place. Its contract
  says the new snapshot and the reply are exactly those of the transition.
  The `app.py` handler methods also preserve `Valid()`, which is
  `Consistent` of the snapshot.

The properties are proved as lemmas about the transitions.

Parameters stand in for what the model cannot see:
- SHA-256 is a function parameter (`Hasher`). Lemmas that need a
  collision-free digest require `Injective(sha)`.
- `os.urandom` output is a parameter: 8 salt bytes and 3 code bytes.
- The wall clock is an integer parameter `now`, in microseconds. A stored
  timestamp is either an instant or unparsable.
- The session cookie is a `Session(email, role)` value.
- A JSON body becomes the fields the handler reads, after the source's
  normalisation: emails, the status filter and the decision action are
  stripped and lower-cased; the request's text fields and the rejection
  comment are only stripped, so a category such as "Social" is refused.

Tables:
- `events` and `event_requests` are never deleted from, so each is a
  sequence. The row with id `k` is element `k - 1`.
- Bookings, registrations and hidden marks are sets.
- Users, pending records, rooms and settings are maps.

### Where the model follows the code rather than its description

- `_cooldown_seconds` (auth.py:47-54) is described as clamped to [0, 60].
  The code only clamps from below. A `last_sent_at` in the future yields
  more than 60 (`Auth.FutureStampExceedsCooldown`). The value is 0 once
  more than 59 seconds have passed, because `int()` truncates.
- Creating, hiding and listing event requests (app.py:669-783) pass the
  gate on the session, but they use the `email` from the body or query as
  the requester.
- Accepting a rejected request publishes it. Rejecting an accepted request
  is allowed and does not withdraw its event. So accept, reject, accept
  publishes two events (`AppRequests.ReacceptPublishesAgain`).

## Model

| member | source | states |
|---|---|---|
| Auth.IsAllowedEmail | auth.py:16-17 | the domain test; its meaning is stated by `Auth.AllowedEmailIsLocalPartAtDomain` |
| Auth.AllowedEmailIsLocalPartAtDomain | auth.py:16-17 | an address is allowed exactly when it is some local part followed by "@uni-bayreuth.de" |
| Auth.Hex | auth.py:24-25 | the salt's hex text has two characters per byte, all lower-case hex digits |
| Auth.HashPassword | auth.py:20-21 | the digest of salt followed by password; stated through `Auth.PasswordRoundTrip` and `Auth.PasswordCheckIsExact` |
| Auth.MakePasswordHash | auth.py:24-27 | `salt$digest` with an 8-byte hex salt; its round trip is stated by `Auth.PasswordRoundTrip` and `Auth.PasswordCheckIsExact` |
| Auth.CheckPassword | auth.py:30-35 | split at the first "$" and compare digests; stated by `Auth.PasswordRoundTrip`, `Auth.PasswordCheckIsExact` and `Auth.UnsplittableNeverChecks` |
| Auth.SplitOnce | auth.py:30-34 | the split fails exactly when the stored text has no "$"; otherwise the first part has no "$" and the parts rejoin to the input |
| Auth.SplitOnceAtFirstSeparator | auth.py:30-32 | the split happens at the first separator, whatever follows it |
| Auth.PasswordRoundTrip | auth.py:20-35 | a hash made from a password checks against that password, because the hex salt has no "$" |
| Auth.PasswordCheckIsExact | auth.py:20-35 | with an injective digest, a made hash checks against exactly its own password |
| Auth.UnsplittableNeverChecks | auth.py:30-34 | a stored value without "$" never checks |
| Auth.DecimalString | auth.py:40 | `str(n)` is nonempty decimal digits, with no leading zero, whose value is n |
| Auth.GenerateCode | auth.py:38-40 | the zero-filled decimal of the random value mod 1000000; stated by `Auth.GeneratedCodeIsSixDigits` |
| Auth.GeneratedCodeIsSixDigits | auth.py:38-40 | the code is exactly six decimal digits whose value is the big-endian random value mod 1000000 |
| Auth.DistinctValuesGiveDistinctCodes | auth.py:38-40 | different random values mod 1000000 give different codes |
| Auth.HashCode | auth.py:43-44 | the digest of the code; a code verifies exactly when its digest is the stored one (`Auth.VerifySucceedsExactly`) |
| Auth.CooldownSeconds | auth.py:47-54 | seconds left is ≥ 0; it is positive exactly when the stamp parses and at most 59 s have passed; it is ≤ 60 for a past stamp; it is 0 once 60 s have passed or when the stamp does not parse; when positive it is the whole number of seconds in the remaining microseconds (left·10⁶ ≤ 60·10⁶ − elapsed < (left + 1)·10⁶) |
| Auth.FutureStampExceedsCooldown | auth.py:47-54 | any stamp at least one second in the future leaves more than 60 s, so the value is not clamped from above; 10 s ahead leaves 70 s |
| Auth.StartRegistrationStep | auth.py:57-92 | the registration transition; its outcomes are stated by `Auth.StartRegistrationOutcomes` and `Auth.RegistrationIsThrottled` |
| Auth.ResendCodeStep | auth.py:95-125 | the resend transition; its outcomes are stated by `Auth.ResendRotatesOnlyTheCode` |
| Auth.VerifyStep | auth.py:128-149 | the verification transition; its outcomes are stated by `Auth.VerifySucceedsExactly` and `Auth.SecondVerifyFails` |
| Auth.StartRegistrationOutcomes | auth.py:57-92 | three outcomes. An existing user is refused and nothing changes. A record still cooling down gives ("", its cooldown seconds), which are > 0, and nothing changes. Otherwise the pending record is replaced wholesale, with the code's digest, and the reply is (six-digit code, 60) |
| Auth.RegistrationIsThrottled | auth.py:63-71 | a second registration within 59 s of one that issued a code issues none, reports a positive wait and changes nothing |
| Auth.ResendRotatesOnlyTheCode | auth.py:95-125 | four outcomes. An existing user gets USER_ALREADY_EXISTS and nothing changes. An unknown email gets NO_PENDING_REGISTRATION. A record still cooling down gives ("", the cooldown) and nothing changes. Otherwise the reply is (the generated six-digit code, 60), the record stores that code, its digest and last_sent_at = now, and keeps the password hash and created_at; no other record changes |
| Auth.VerifySucceedsExactly | auth.py:128-149 | verification succeeds exactly when a pending record exists, the code's digest matches and no user exists. It then moves the record into users as a student; otherwise nothing changes. The reply is IntegrityError exactly when the digest matches but the user exists, and false exactly when there is no pending record or the digest differs |
| Auth.SecondVerifyFails | auth.py:128-149 | after a successful verification the same code returns false and changes nothing |
| Auth.LedgerStaysDisjoint | auth.py:57-149 | registration, resend and verification keep users and pending emails disjoint, so the users insert never conflicts |
| Auth.Login | auth.py:159-170 | success exactly when the user exists and the password checks; the reply is then the stored role, otherwise "" |
| Auth.LoginAfterVerification | auth.py:57-170 | register then verify with the issued code: login with the same password succeeds as a student |
| Auth.LoginRejectsOtherPasswords | auth.py:57-170 | with an injective digest, a verified user's login fails for every other password |
| Auth.RegistrationScenario | auth.py:57-170 | register, then an early resend (throttled), a late resend (new code), the old code (refused), the new code (accepted), then login as a student |
| Auth.StartRegistration | auth.py:57-92 | updates the tables in place exactly as the registration transition |
| Auth.ResendCode | auth.py:95-125 | updates the tables in place exactly as the resend transition |
| Auth.VerifyCodeAndCreateUser | auth.py:128-149 | updates the tables in place exactly as the verification transition |
| AppCommon.RequireStudent | app.py:41-54 | passes exactly when the session email is non-empty and in the allowed domain, the user exists, and both the session role and the stored role are "student"; each failing check, given the earlier ones pass, yields its own message: "Not logged in.", the domain message, "User not found.", "Only students can perform this action." |
| AppCommon.RequireAdmin | app.py:58-69 | passes exactly when the session email is non-empty, the user exists, and both roles are "admin"; there is no domain check; the failing checks yield "Not logged in.", "User not found.", "Admin only." in that order |
| AppCommon.GatesAreExclusive | app.py:41-69 | no session passes both gates; a session whose role disagrees with the stored one passes neither |
| AppCommon.VerifiedStudentPassesGate | app.py:41-54 | the session written by a verified student's login passes the student gate |
| AppCommon.RoomDtoFromRow | app.py:73-90 | remaining = max(0, capacity − booked) ≥ 0, and is 0 once booked ≥ capacity; is_full exactly when booked ≥ capacity; the other fields are copied |
| AppCommon.MeRoomDto | app.py:466-477 | the room read model of /api/me/room; stated by `AppCommon.MeRoomAgreesWithRoomDto` |
| AppCommon.MeRoomAgreesWithRoomDto | app.py:466-477 | the /api/me/room computation agrees with the room DTO |
| AppCommon.EventDtoFromRow | app.py:94-117 | a null quota has no remaining count and is never full; otherwise remaining = max(0, quota − registered), 0 once the quota is reached, and is_full exactly then |
| AppCommon.RoomsOpenByDefault | app.py:492 | rooms are open when rooms_open is absent or equals "1" |
| Schema.BookedCount | app.py:504 | the COUNT of a room's bookings; how it moves is stated by `AppRooms.BookedCountAfterInsert` and `AppRooms.BookedCountOfSubset` |
| AppRooms.BookedCountAfterInsert | app.py:504-512 | inserting a new booking raises its room's count by one and no other room's count |
| AppRooms.JoinRoom | app.py:482-517 | the join transition; stated by `AppRooms.JoinRoomOutcome` and `AppRooms.JoinRoomKeepsConsistent` |
| AppRooms.JoinRoomOutcome | app.py:482-517 | each failing check, given the earlier ones pass, gives its reply: 401 with the gate message, 403 selection closed, 409 already in a room, 404 room not found, 409 room full. A join succeeds exactly when all pass, and then adds exactly one booking to that room; otherwise nothing changes |
| AppRooms.JoinRoomKeepsConsistent | app.py:482-517 | a join keeps one booking per student and bookings ≤ capacity |
| AppRooms.WithoutBookingOf | app.py:610 | the DELETE by user email: a subset of the bookings with no booking of that email, keeping every other booking |
| AppRooms.LeaveRoom | app.py:597-612 | the leave transition; stated by `AppRooms.LeaveRoomOutcome` and `AppRooms.LeaveRoomKeepsConsistent` |
| AppRooms.LeaveRoomOutcome | app.py:597-612 | a failed gate gives 401 with its message; closed selection gives 403. Leave succeeds exactly when the gate passes and rooms are open, even with no booking. It removes only the caller's booking, and repeating it changes nothing |
| AppRooms.LeaveRoomKeepsConsistent | app.py:597-612 | a leave keeps the room invariants |
| AppRooms.SetRoomsOpen | app.py:362-391 | the admin switch transition; stated by `AppRooms.SetRoomsOpenOutcome` |
| AppRooms.SetRoomsOpenOutcome | app.py:362-391 | a failed admin gate gives 401; a value that is not a boolean or "0"/"1" gives 400. An admin's valid value stores "1" (true or "1") or "0" under rooms_open, keeps every other setting and table, and so decides RoomsOpen; anything else changes nothing |
| AppRooms.ClosedSelectionFreezesBookings | app.py:362-391 | after an admin closes room selection, no join or leave changes the tables |
| AppRooms.ApiJoinRoom | app.py:482-517 | joins in place exactly as the transition and keeps the invariant |
| AppRooms.ApiLeaveRoom | app.py:597-612 | leaves in place exactly as the transition and keeps the invariant |
| AppRooms.ApiAdminSetRoomsOpen | app.py:362-391 | sets rooms_open in place exactly as the transition and keeps the invariant |
| AppEvents.EventsPage | app.py:520-531 | page < 1 becomes 1; page_size outside [1, 50] becomes 4; offset = (page − 1)·page_size; has_prev exactly when page > 1; has_next exactly when offset + page_size < total |
| AppEvents.PageItems | app.py:533-542 | the LIMIT/OFFSET window holds exactly min(page_size, max(0, rows − offset)) rows, namely the rows starting at offset |
| AppEvents.HasNextIffNextPageNonEmpty | app.py:531-546 | has_next is true exactly when the next page is not empty |
| AppEvents.RowIsOnItsPage | app.py:522-542 | row i appears on page i / page_size + 1, at position i mod page_size |
| AppEvents.ListEvents | app.py:520-555 | the page holds exactly min(page_size, max(0, events − offset)) items, and item k is the DTO of the event at offset + k, with its registration count |
| Schema.RegisteredCount | app.py:571-574 | the COUNT of an event's registrations; how it moves is stated by `AppEvents.RegisteredCountAfterInsert` and `AppEvents.RegisteredCountOfSubset` |
| AppEvents.RegisteredCountAfterInsert | app.py:580-585 | inserting a new registration raises its event's count by one and no other event's count |
| AppEvents.RegisterEvent | app.py:557-589 | the registration transition; stated by `AppEvents.RegisterEventOutcome` and `AppEvents.RegisterEventKeepsConsistent` |
| AppEvents.RegisterEventOutcome | app.py:557-589 | each failing check, given the earlier ones pass, gives its reply: 401 gate, 404 "Event not found", 409 "Event is full", 409 already registered. Registration succeeds exactly when all pass and then adds exactly that pair; otherwise nothing changes. A full event reports "Event is full" before any duplicate check |
| AppEvents.RegisterEventKeepsConsistent | app.py:557-589 | registration keeps registrations ≤ quota and every registration on an existing event |
| AppEvents.LeaveEvent | app.py:953-969 | the leave transition; stated by `AppEvents.LeaveEventOutcome` |
| AppEvents.LeaveEventOutcome | app.py:953-969 | a failed gate gives 401 with its message. Leave succeeds exactly when the gate passes; the registrations after are exactly the old ones minus the caller's pair for that event, and nothing else changes |
| AppEvents.LeaveEventKeepsConsistent | app.py:953-969 | leaving keeps registrations ≤ quota and every registration on an existing event |
| AppEvents.ApiRegisterEvent | app.py:557-589 | registers in place exactly as the transition and keeps the invariant |
| AppEvents.ApiLeaveEvent | app.py:953-969 | leaves in place exactly as the transition and keeps the invariant |
| AppRequests.CreateRequest | app.py:708-747 | the create transition; stated by `AppRequests.CreateRequestOutcome` and `AppRequests.CreateRequestKeepsConsistent` |
| AppRequests.CreateRequestOutcome | app.py:708-747 | each failing check, given the earlier ones pass, gives its reply: 401 gate, 400 invalid fields, 400 negative quota, 400 unconvertible quota. A request is created exactly when the gate passes, the four text fields are non-empty, the category is social, orientation or study_group, and the quota is null or a non-negative integer. It is appended as pending, with no comment and the body email as requester; otherwise nothing changes |
| AppRequests.CreateRequestKeepsConsistent | app.py:708-747 | creating a request keeps the invariant, including non-negative request quotas |
| AppRequests.OwnVisibleAboveExactly | app.py:669-706 | the student listing holds exactly the requests the email made and has not hidden, each with its current fields, in descending id order |
| AppRequests.ListOwnRequests | app.py:669-706 | a failed gate gives 401 with its message; otherwise exactly the requests the query email made and has not hidden, each with its current fields, in strictly descending id order |
| AppRequests.ApiEventRequestsList | app.py:669-706 | the loop builds exactly the listing function's result |
| AppRequests.HideRequest | app.py:749-783 | the hide transition; stated by `AppRequests.HideRequestOutcome` and `AppRequests.HideRequestKeepsConsistent` |
| AppRequests.HideRequestOutcome | app.py:749-783 | each failing check, given the earlier ones pass, gives its reply: 401 gate, 404 "Request not found", 403 "Not your request", 409 for a pending request. Hiding works exactly on one's own non-pending request and only adds the mark; the reply is "Already hidden" exactly when the mark was there. A repeated hide answers "Already hidden" and changes nothing |
| AppRequests.HideRequestKeepsConsistent | app.py:749-783 | hiding keeps the invariant |
| AppRequests.HiddenRequestLeavesOwnListing | app.py:669-783 | after a hide, the owner's listing is the previous one minus that request |
| AppRequests.WithStatusExactly | app.py:787-806 | the admin listing holds exactly the requests of the selected status, each with its current fields, in strictly increasing id order (so each at most once) |
| AppRequests.ListRequestsByStatus | app.py:785-824 | a failed admin gate gives 401 with its message; otherwise exactly the requests whose status is the selected one ("accepted", "rejected", anything else pending), hidden or not, each with its current fields, in strictly increasing id order |
| AppRequests.HiddenRequestStaysVisibleToAdmin | app.py:749-824 | a request a student hid still appears in the admin listing of its status |
| AppRequests.Decide | app.py:826-889 | the decision transition; stated by `AppRequests.DecideOutcome`, `AppRequests.SecondAcceptChangesNothing` and `AppRequests.DecideKeepsConsistent` |
| AppRequests.DecideOutcome | app.py:826-889 | each failing check, given the earlier ones pass, gives its reply: 401 gate, 404 "Request not found", 400 bad action, 400 missing rejection comment, "Already accepted". Accept publishes exactly one copy of the request, exactly when the admin gate passes, the request exists and it is not yet accepted. Reject needs a non-empty comment and sets rejected from any status without touching events. Each changes only that request's status and comment; all other answers change nothing |
| AppRequests.SecondAcceptChangesNothing | app.py:861-862 | a second accept answers "Already accepted" and creates no event |
| AppRequests.ReacceptPublishesAgain | app.py:844-889 | accept, reject, accept publishes the request twice; the reject leaves the events alone |
| AppRequests.DecideKeepsConsistent | app.py:826-889 | a decision keeps the invariant; on accept there is exactly one new event, it has no registrations, and its quota, if any, is non-negative |
| AppRequests.ApiEventRequestsCreate | app.py:708-747 | creates in place exactly as the transition and keeps the invariant |
| AppRequests.ApiEventRequestsHide | app.py:749-783 | hides in place exactly as the transition and keeps the invariant |
| AppRequests.ApiAdminEventRequestDecision | app.py:826-889 | decides in place exactly as the transition and keeps the invariant |
| AppDemo.DemoVerify | app.py:306-348 | the demo verification transition; stated by `AppDemo.DemoVerifyOutcome` |
| AppDemo.DemoVerifyOutcome | app.py:306-348 | each failing check, given the earlier ones pass, gives its reply: 400 missing email, 400 wrong domain, 403 demo admin, 404 no pending record; "Already verified" exactly for an existing user with a pending record. A student is created exactly for an allowed, non-"demo.admin" address with a pending record and no account. The account carries the pending password hash and the record is removed. An existing user only loses the record, a demo admin address changes nothing, and no account other than a student is ever created |
| AppDemo.DemoVerifyAgreesWithCodeVerify | app.py:306-348 | with the emailed code, the demo flow and the code verification produce the same tables |
| AppDemo.DemoVerifyKeepsLedgerDisjoint | app.py:306-348 | the demo flow keeps users and pending emails disjoint, and the new student passes the student gate |
| AppDemo.ApiDemoVerify | app.py:306-348 | verifies in place exactly as the transition and keeps the invariant |
| Schema.Database.constructor | seed.py:20-148 | a fresh database with the given users, rooms and events, and nothing else, satisfies the invariant |

## Left out

- SHA-256, `os.urandom` and the clock are foreign. They become parameters (`Hasher`, byte sequences, `now`).
- `CooldownSeconds` uses integer microseconds. The source uses floating-point seconds, so its rounding at sub-microsecond precision is not modelled.
- Parsing ISO-8601 timestamps, and the `Z` suffix rewrite, are not modelled. A stamp is an instant or unparsable.
- The `created_at` and `updated_at` stamps of users, rooms, room bookings, events, event registrations, event requests and hidden marks are not stored. Only the pending record keeps its `created_at` and `last_sent_at`.
- Listing order by `created_at`, `updated_at` or `date_time` is not modelled. The student listing is newest id first, and the events and admin listings are in id order.
- `AppEvents.ListEvents` pages the events in id order, not by `date_time`.
- The `.strip()` of text fields and the `.strip().lower()` of emails, the status filter and the action are not modelled. Inputs are taken as already normalised that way; text fields keep their case.
- Flask routing, JSON bodies, the `int()` conversion of page arguments and of quotas, and the session cookie are not modelled. Handlers take the converted values; a quota that does not convert is `Unconvertible`.
- Replies carry only the status and message. Extra response fields, such as `"status": "pending"` or `"open"`, are not modelled.
- The `IntegrityError` fallbacks of room join and event registration are explicit membership checks. The room-join fallback cannot be reached in a sequential model, because the existing-booking check runs first.
- Concurrency and SQLite transaction isolation are not modelled. Each handler is one atomic step.
- The auth endpoints (app.py:178-274) are not modelled: their domain check, the password length of at least 6, the 400 for a missing code, the 429 throttle replies, the mapping of ledger errors to HTTP replies, and the session write at login. The model states the ledger functions they call (`Auth.StartRegistrationStep`, `Auth.ResendCodeStep`, `Auth.VerifyStep`, `Auth.Login`).
- The public `hash_password` alias (auth.py:151-156) is `MakePasswordHash` itself.
- The read-only endpoints outside the core are not part of this model: rooms and events listings other than `/api/events`, `/api/me/*`, admin rosters, the demo inbox, the info pages, and the public `rooms_open` read.
- static/app.js, emailer.py, db.py and the SQL schema file are not part of this model. Of seed.py only the shape of the seeded database is modelled (`Schema.Database.constructor` takes the users, rooms and events as parameters); its concrete rooms, events, admin password and info pages are not.
- `Auth.StartRegistration`, `Auth.ResendCode` and `Auth.VerifyCodeAndCreateUser` do not state `Valid()`. Their transitions touch only users and pending records, which the invariant does not constrain.
