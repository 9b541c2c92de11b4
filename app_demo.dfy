/// app.py, lines 306-348: the demo verification endpoint, which turns a
/// pending registration into a student account without the emailed code.
module AppDemo {
  import opened Schema
  import opened Auth
  import opened AppCommon

  const DemoAdminPrefix: string := "demo.admin"

  /// POST /api/demo/verify: the body's email must be present and allowed
  /// and must not be a demo admin address; then the pending record must
  /// exist. An existing user only loses the pending record; otherwise a
  /// student is created with the pending password hash.
  function DemoVerify(t: Tables, email: Email): (Tables, Reply) {
    if email == "" then (t, Error(400, "email is required"))
    else if !IsAllowedEmail(email) then (t, Error(400, "Only @uni-bayreuth.de emails allowed"))
    else if EndsWith(email, AllowedDomain) && StartsWith(email, DemoAdminPrefix) then
      (t, Error(403, "Admin accounts cannot be verified via demo flow."))
    else if email !in t.verifications then (t, Error(404, "No pending verification for this email"))
    else if email in t.users then
      (t.(verifications := t.verifications - {email}), Message("Already verified"))
    else
      var user := UserRow(t.verifications[email].passwordHash, StudentRole);
      (t.(users := t.users[email := user], verifications := t.verifications - {email}),
       Message("Verified (demo). Student user created."))
  }

  /// A student is created exactly for an allowed, non-admin address with a
  /// pending record and no account; the account carries the pending
  /// password hash and the pending record is gone. A demo admin address is
  /// always refused and changes nothing. The first failing check, in the
  /// order presence, domain, demo admin, pending record, decides the error.
  lemma DemoVerifyOutcome(t: Tables, email: Email)
    ensures var (t', reply) := DemoVerify(t, email);
      && (email == "" ==> reply == Error(400, "email is required"))
      && (email != "" && !IsAllowedEmail(email) ==> reply == Error(400, "Only @uni-bayreuth.de emails allowed"))
      && (email != "" && IsAllowedEmail(email) && StartsWith(email, DemoAdminPrefix) ==>
            reply == Error(403, "Admin accounts cannot be verified via demo flow."))
      && (IsAllowedEmail(email) && !StartsWith(email, DemoAdminPrefix) && email !in t.verifications ==>
            reply == Error(404, "No pending verification for this email"))
      && (reply == Message("Already verified") <==>
            IsAllowedEmail(email) && !StartsWith(email, DemoAdminPrefix)
            && email in t.verifications && email in t.users)
      && (reply == Message("Verified (demo). Student user created.") <==>
            && IsAllowedEmail(email)
            && !StartsWith(email, DemoAdminPrefix)
            && email in t.verifications
            && email !in t.users)
      && (reply == Message("Verified (demo). Student user created.") ==>
            && t'.users == t.users[email := UserRow(t.verifications[email].passwordHash, StudentRole)]
            && t'.verifications == t.verifications - {email}
            && t' == t.(users := t'.users, verifications := t'.verifications))
      && (reply == Message("Already verified") ==>
            t' == t.(verifications := t.verifications - {email}))
      && (StartsWith(email, DemoAdminPrefix) ==> t' == t && reply.Error?)
      && (forall e :: e in t'.users && e !in t.users ==> t'.users[e].role == StudentRole)
      && (forall e :: e in t.users ==> e in t'.users && t'.users[e] == t.users[e])
  {
    var (t', reply) := DemoVerify(t, email);
    if email != "" && StartsWith(email, DemoAdminPrefix) && IsAllowedEmail(email) {
      assert reply == Error(403, "Admin accounts cannot be verified via demo flow.");
    }
  }

  /// With the emailed code, the regular verification and the demo flow
  /// create the same account and leave the same tables.
  lemma DemoVerifyAgreesWithCodeVerify(t: Tables, sha: Hasher, email: Email, code: string)
    requires LedgerDisjoint(t)
    requires IsAllowedEmail(email) && !StartsWith(email, DemoAdminPrefix)
    requires email in t.verifications && HashCode(sha, code) == t.verifications[email].codeHash
    ensures VerifyStep(t, sha, email, code).1 == Success(true)
    ensures DemoVerify(t, email).1 == Message("Verified (demo). Student user created.")
    ensures DemoVerify(t, email).0 == VerifyStep(t, sha, email, code).0
  {
    assert email !in t.users;
  }

  /// The demo flow keeps users and pending records apart, and the new
  /// student passes the student gate.
  lemma DemoVerifyKeepsLedgerDisjoint(t: Tables, email: Email)
    requires LedgerDisjoint(t)
    ensures LedgerDisjoint(DemoVerify(t, email).0)
    ensures var (t', reply) := DemoVerify(t, email);
      reply == Message("Verified (demo). Student user created.") ==>
        RequireStudent(t'.users, Session(email, StudentRole)).None?
  {
    var (t', reply) := DemoVerify(t, email);
    assert t'.users.Keys <= t.users.Keys + {email};
  }

  method ApiDemoVerify(db: Database, email: Email) returns (reply: Reply)
    requires db.Valid()
    modifies db
    ensures db.Valid()
    ensures (db.Snapshot(), reply) == DemoVerify(old(db.Snapshot()), email)
  {
    if email == "" {
      return Error(400, "email is required");
    }
    if !IsAllowedEmail(email) {
      return Error(400, "Only @uni-bayreuth.de emails allowed");
    }
    if EndsWith(email, AllowedDomain) && StartsWith(email, DemoAdminPrefix) {
      return Error(403, "Admin accounts cannot be verified via demo flow.");
    }
    if email !in db.verifications {
      return Error(404, "No pending verification for this email");
    }
    if email in db.users {
      db.verifications := db.verifications - {email};
      return Message("Already verified");
    }
    db.users := db.users[email := UserRow(db.verifications[email].passwordHash, StudentRole)];
    db.verifications := db.verifications - {email};
    return Message("Verified (demo). Student user created.");
  }
}
