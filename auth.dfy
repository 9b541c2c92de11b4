/// auth.py: the registration / verification / login ledger over the
/// `users` and `email_verifications` tables.
module Auth {
  import opened Schema

  const AllowedDomain: string := "@uni-bayreuth.de"
  /// Cooldown between two codes for one email, in seconds.
  const CodeTtlSeconds: int := 60
  const MicrosPerSecond: int := 1000000
  const StudentRole: string := "student"

  // ---------------------------------------------------------------------
  // Email domain
  // ---------------------------------------------------------------------

  predicate EndsWith(s: string, suffix: string) {
    |suffix| <= |s| && s[|s| - |suffix|..] == suffix
  }

  predicate StartsWith(s: string, prefix: string) {
    |prefix| <= |s| && s[..|prefix|] == prefix
  }

  /// is_allowed_email: the address ends with the university domain.
  predicate IsAllowedEmail(email: string) {
    EndsWith(email, AllowedDomain)
  }

  /// An address is allowed exactly when it is some local part followed by
  /// the domain suffix.
  lemma AllowedEmailIsLocalPartAtDomain(email: string)
    ensures IsAllowedEmail(email) <==> exists local :: email == local + AllowedDomain
  {
    if IsAllowedEmail(email) {
      var local := email[..|email| - |AllowedDomain|];
      assert email == local + AllowedDomain;
    }
    forall local | email == local + AllowedDomain
      ensures IsAllowedEmail(email)
    {
      assert email[|email| - |AllowedDomain|..] == AllowedDomain;
    }
  }

  // ---------------------------------------------------------------------
  // Salted password hashes, stored as "salt$digest"
  // ---------------------------------------------------------------------

  const HexDigits: string := "0123456789abcdef"

  /// bytes.hex(): two lower-case hex digits per byte.
  function Hex(bytes: seq<Byte>): (h: string)
    ensures |h| == 2 * |bytes|
    ensures forall i :: 0 <= i < |h| ==> h[i] in HexDigits
  {
    if bytes == [] then ""
    else [HexDigits[bytes[0] / 16], HexDigits[bytes[0] % 16]] + Hex(bytes[1..])
  }

  /// _hash_password: the hex digest of salt followed by password.
  function HashPassword(sha: Hasher, password: string, salt: string): string {
    sha(salt + password)
  }

  /// _make_password_hash, with the 8 random salt bytes as a parameter.
  function MakePasswordHash(sha: Hasher, password: string, saltBytes: seq<Byte>): string
    requires |saltBytes| == 8
  {
    var salt := Hex(saltBytes);
    salt + "$" + HashPassword(sha, password, salt)
  }

  /// `s.split(sep, 1)` unpacked into exactly two parts: `None` when `s`
  /// has no separator (the unpacking raises), otherwise the text before
  /// the first separator and everything after it.
  function SplitOnce(s: string, sep: char): (parts: Option<(string, string)>)
    ensures parts.None? <==> sep !in s
    ensures parts.Some? ==> sep !in parts.value.0 && s == parts.value.0 + [sep] + parts.value.1
  {
    if s == [] then None
    else if s[0] == sep then Some(([], s[1..]))
    else match SplitOnce(s[1..], sep)
      case None => None
      case Some(p) => Some(([s[0]] + p.0, p.1))
  }

  /// The split is determined by where the first separator is.
  lemma {:induction false} SplitOnceAtFirstSeparator(a: string, b: string, sep: char)
    requires sep !in a
    ensures SplitOnce(a + [sep] + b, sep) == Some((a, b))
  {
    var s := a + [sep] + b;
    if a == [] {
      assert s[1..] == b;
    } else {
      assert s[0] == a[0] != sep;
      assert s[1..] == a[1..] + [sep] + b;
      SplitOnceAtFirstSeparator(a[1..], b, sep);
      assert [a[0]] + a[1..] == a;
    }
  }

  /// _check_password: split the stored text at the first "$" and compare
  /// the digest of salt + password with the rest.
  function CheckPassword(sha: Hasher, stored: string, password: string): bool {
    match SplitOnce(stored, '$')
    case None => false
    case Some(p) => HashPassword(sha, password, p.0) == p.1
  }

  lemma HexHasNoSeparator(bytes: seq<Byte>)
    ensures '$' !in Hex(bytes)
  {
    var h := Hex(bytes);
    forall i | 0 <= i < |h| ensures h[i] != '$' {
      assert h[i] in HexDigits;
    }
  }

  /// A freshly made hash checks against the password it was made from,
  /// because the hex salt never contains the separator.
  lemma PasswordRoundTrip(sha: Hasher, password: string, saltBytes: seq<Byte>)
    requires |saltBytes| == 8
    ensures CheckPassword(sha, MakePasswordHash(sha, password, saltBytes), password)
  {
    var salt := Hex(saltBytes);
    HexHasNoSeparator(saltBytes);
    SplitOnceAtFirstSeparator(salt, HashPassword(sha, password, salt), '$');
  }

  /// With an injective digest, the stored hash checks against exactly one
  /// password.
  lemma PasswordCheckIsExact(sha: Hasher, password: string, attempt: string, saltBytes: seq<Byte>)
    requires Injective(sha)
    requires |saltBytes| == 8
    ensures CheckPassword(sha, MakePasswordHash(sha, password, saltBytes), attempt) <==> attempt == password
  {
    var salt := Hex(saltBytes);
    HexHasNoSeparator(saltBytes);
    SplitOnceAtFirstSeparator(salt, HashPassword(sha, password, salt), '$');
    if sha(salt + attempt) == sha(salt + password) {
      assert salt + attempt == salt + password;
      assert attempt == (salt + attempt)[|salt|..] == (salt + password)[|salt|..] == password;
    }
  }

  /// A stored value without a separator never checks.
  lemma UnsplittableNeverChecks(sha: Hasher, stored: string, password: string)
    requires '$' !in stored
    ensures !CheckPassword(sha, stored, password)
  {
  }

  // ---------------------------------------------------------------------
  // Six-digit verification codes
  // ---------------------------------------------------------------------

  /// int.from_bytes(bytes, "big")
  function BigEndianValue(bytes: seq<Byte>): nat {
    if bytes == [] then 0 else BigEndianValue(bytes[..|bytes| - 1]) * 256 + bytes[|bytes| - 1]
  }

  predicate IsDigit(c: char) {
    '0' <= c <= '9'
  }

  predicate AllDigits(s: string) {
    forall i :: 0 <= i < |s| ==> IsDigit(s[i])
  }

  function DigitChar(d: int): (c: char)
    requires 0 <= d < 10
    ensures IsDigit(c)
  {
    (48 + d) as char
  }

  /// int(s) for a string of decimal digits.
  function DigitsValue(s: string): nat
    requires AllDigits(s)
  {
    if s == [] then 0
    else DigitsValue(s[..|s| - 1]) * 10 + ((s[|s| - 1] as int) - 48)
  }

  /// str(n) for a natural number: decimal digits, no leading zero.
  function DecimalString(n: nat): (s: string)
    ensures |s| >= 1 && AllDigits(s)
    ensures DigitsValue(s) == n
    ensures |s| > 1 ==> s[0] != '0'
  {
    if n < 10 then [DigitChar(n)]
    else
      var prefix := DecimalString(n / 10);
      var s := prefix + [DigitChar(n % 10)];
      assert s[..|s| - 1] == prefix;
      s
  }

  function Pow10(k: nat): nat {
    if k == 0 then 1 else 10 * Pow10(k - 1)
  }

  lemma {:induction false} DecimalStringLength(n: nat, k: nat)
    requires 1 <= k && n < Pow10(k)
    ensures |DecimalString(n)| <= k
  {
    if n >= 10 {
      assert k >= 2;
      assert n / 10 < Pow10(k - 1);
      DecimalStringLength(n / 10, k - 1);
    }
  }

  function Zeros(k: nat): (z: string)
    ensures |z| == k && AllDigits(z)
  {
    seq(k, _ => '0')
  }

  /// s.zfill(width) for a string without sign: left-pad with '0'.
  function ZFill(s: string, width: nat): (r: string)
    ensures |r| == if |s| >= width then |s| else width
  {
    if |s| >= width then s else Zeros(width - |s|) + s
  }

  lemma {:induction false} ZerosValue(k: nat)
    ensures DigitsValue(Zeros(k)) == 0
  {
    if k > 0 {
      assert Zeros(k)[..k - 1] == Zeros(k - 1);
      ZerosValue(k - 1);
    }
  }

  /// Leading zeros do not change the value.
  lemma {:induction false} LeadingZerosValue(k: nat, s: string)
    requires AllDigits(s)
    ensures AllDigits(Zeros(k) + s)
    ensures DigitsValue(Zeros(k) + s) == DigitsValue(s)
  {
    var z := Zeros(k) + s;
    if s == [] {
      assert z == Zeros(k);
      ZerosValue(k);
    } else {
      assert z[..|z| - 1] == Zeros(k) + s[..|s| - 1];
      LeadingZerosValue(k, s[..|s| - 1]);
    }
  }

  /// _generate_code, with the 3 random bytes as a parameter.
  function GenerateCode(random: seq<Byte>): string
    requires |random| == 3
  {
    ZFill(DecimalString(BigEndianValue(random) % 1000000), 6)
  }

  /// The code is exactly six decimal digits and reads as the random value
  /// modulo one million.
  lemma GeneratedCodeIsSixDigits(random: seq<Byte>)
    requires |random| == 3
    ensures |GenerateCode(random)| == 6
    ensures AllDigits(GenerateCode(random))
    ensures DigitsValue(GenerateCode(random)) == BigEndianValue(random) % 1000000
  {
    var n := BigEndianValue(random) % 1000000;
    var d := DecimalString(n);
    assert Pow10(6) == 1000000;
    DecimalStringLength(n, 6);
    if |d| < 6 {
      LeadingZerosValue(6 - |d|, d);
    }
  }

  /// Distinct random values modulo one million give distinct codes.
  lemma DistinctValuesGiveDistinctCodes(r1: seq<Byte>, r2: seq<Byte>)
    requires |r1| == 3 && |r2| == 3
    requires BigEndianValue(r1) % 1000000 != BigEndianValue(r2) % 1000000
    ensures GenerateCode(r1) != GenerateCode(r2)
  {
    GeneratedCodeIsSixDigits(r1);
    GeneratedCodeIsSixDigits(r2);
  }

  /// _hash_code
  function HashCode(sha: Hasher, code: string): string {
    sha(code)
  }

  // ---------------------------------------------------------------------
  // Cooldown
  // ---------------------------------------------------------------------

  /// _cooldown_seconds: whole seconds left of the 60-second cooldown since
  /// `lastSentAt`, 0 when it has passed or the stamp does not parse.
  /// `int(max(0, 60 - elapsed))` truncates, so the value drops to 0 as soon
  /// as more than 59 seconds have elapsed.
  function CooldownSeconds(lastSentAt: Timestamp, now: int): (left: int)
    ensures left >= 0
    ensures left > 0 <==> lastSentAt.Instant? && now - lastSentAt.micros <= (CodeTtlSeconds - 1) * MicrosPerSecond
    ensures lastSentAt.Instant? && lastSentAt.micros <= now ==> left <= CodeTtlSeconds
    ensures lastSentAt.Instant? && now - lastSentAt.micros >= CodeTtlSeconds * MicrosPerSecond ==> left == 0
    ensures lastSentAt.Instant? && left > 0 ==>
      left * MicrosPerSecond <= CodeTtlSeconds * MicrosPerSecond - (now - lastSentAt.micros) < (left + 1) * MicrosPerSecond
  {
    match lastSentAt
    case Unparsable => 0
    case Instant(t) =>
      var leftMicros := CodeTtlSeconds * MicrosPerSecond - (now - t);
      if leftMicros <= 0 then 0 else leftMicros / MicrosPerSecond
  }

  /// The cooldown is not clamped from above: a stamp at least one second
  /// in the future leaves more than sixty seconds (ten seconds ahead leave
  /// seventy).
  lemma FutureStampExceedsCooldown(lastSentAt: Timestamp, now: int)
    requires lastSentAt.Instant? && lastSentAt.micros - now >= MicrosPerSecond
    ensures CooldownSeconds(lastSentAt, now) > CodeTtlSeconds
    ensures CooldownSeconds(Instant(10 * MicrosPerSecond), 0) == 70
  {
    var left := CooldownSeconds(lastSentAt, now);
    assert left * MicrosPerSecond > CodeTtlSeconds * MicrosPerSecond;
  }

  // ---------------------------------------------------------------------
  // Ledger transitions
  // ---------------------------------------------------------------------

  /// The ValueError reasons raised by auth.py; `IntegrityError` is the
  /// sqlite3 exception of an INSERT that breaks the users primary key.
  datatype AuthError = UserAlreadyExists | NoPendingRegistration | IntegrityError

  /// The (code, seconds) pair: a fresh code and the cooldown, or an empty
  /// code and the seconds still to wait.
  datatype CodeIssue = CodeIssue(code: string, seconds: int)

  /// start_registration on a snapshot of the tables.
  function StartRegistrationStep(
    t: Tables, sha: Hasher, email: Email, password: string,
    saltBytes: seq<Byte>, codeBytes: seq<Byte>, now: int): (Tables, Result<CodeIssue, AuthError>)
    requires |saltBytes| == 8 && |codeBytes| == 3
  {
    if email in t.users then (t, Failure(UserAlreadyExists))
    else if email in t.verifications && CooldownSeconds(t.verifications[email].lastSentAt, now) > 0 then
      (t, Success(CodeIssue("", CooldownSeconds(t.verifications[email].lastSentAt, now))))
    else
      var code := GenerateCode(codeBytes);
      var row := PendingRow(HashCode(sha, code), code, MakePasswordHash(sha, password, saltBytes), Instant(now), Instant(now));
      (t.(verifications := t.verifications[email := row]), Success(CodeIssue(code, CodeTtlSeconds)))
  }

  /// resend_code on a snapshot of the tables.
  function ResendCodeStep(t: Tables, sha: Hasher, email: Email, codeBytes: seq<Byte>, now: int)
    : (Tables, Result<CodeIssue, AuthError>)
    requires |codeBytes| == 3
  {
    if email in t.users then (t, Failure(UserAlreadyExists))
    else if email !in t.verifications then (t, Failure(NoPendingRegistration))
    else if CooldownSeconds(t.verifications[email].lastSentAt, now) > 0 then
      (t, Success(CodeIssue("", CooldownSeconds(t.verifications[email].lastSentAt, now))))
    else
      var code := GenerateCode(codeBytes);
      var row := t.verifications[email].(codeHash := HashCode(sha, code), codePlain := code, lastSentAt := Instant(now));
      (t.(verifications := t.verifications[email := row]), Success(CodeIssue(code, CodeTtlSeconds)))
  }

  /// verify_code_and_create_user on a snapshot of the tables. The INSERT
  /// into users raises (and nothing is committed) if the email is already
  /// a user.
  function VerifyStep(t: Tables, sha: Hasher, email: Email, code: string): (Tables, Result<bool, AuthError>) {
    if email !in t.verifications then (t, Success(false))
    else if HashCode(sha, code) != t.verifications[email].codeHash then (t, Success(false))
    else if email in t.users then (t, Failure(IntegrityError))
    else
      var user := UserRow(t.verifications[email].passwordHash, StudentRole);
      (t.(users := t.users[email := user], verifications := t.verifications - {email}), Success(true))
  }

  /// login: (True, role) when the user exists and the password checks,
  /// otherwise (False, "").
  function Login(t: Tables, sha: Hasher, email: Email, password: string): (r: (bool, string))
    ensures r.0 <==> email in t.users && CheckPassword(sha, t.users[email].passwordHash, password)
    ensures r.0 ==> r.1 == t.users[email].role
    ensures !r.0 ==> r.1 == ""
  {
    if email !in t.users then (false, "")
    else if !CheckPassword(sha, t.users[email].passwordHash, password) then (false, "")
    else (true, t.users[email].role)
  }

  // ---------------------------------------------------------------------
  // Properties of the ledger transitions
  // ---------------------------------------------------------------------

  /// start_registration has three outcomes: refuse an existing user,
  /// throttle a pending record still cooling down, or replace the pending
  /// record wholesale with a fresh code. Only the pending record of
  /// `email` ever changes.
  lemma StartRegistrationOutcomes(
    t: Tables, sha: Hasher, email: Email, password: string,
    saltBytes: seq<Byte>, codeBytes: seq<Byte>, now: int)
    requires |saltBytes| == 8 && |codeBytes| == 3
    ensures var (t', r) := StartRegistrationStep(t, sha, email, password, saltBytes, codeBytes, now);
      && (email in t.users ==> t' == t && r == Failure(UserAlreadyExists))
      && (email !in t.users && email in t.verifications
          && CooldownSeconds(t.verifications[email].lastSentAt, now) > 0 ==>
            && t' == t
            && r == Success(CodeIssue("", CooldownSeconds(t.verifications[email].lastSentAt, now)))
            && r.value.seconds > 0)
      && (email !in t.users
          && (email !in t.verifications || CooldownSeconds(t.verifications[email].lastSentAt, now) == 0) ==>
            var code := GenerateCode(codeBytes);
            && r == Success(CodeIssue(code, CodeTtlSeconds))
            && |code| == 6 && AllDigits(code)
            && t' == t.(verifications := t.verifications[email := PendingRow(
                 sha(code), code, MakePasswordHash(sha, password, saltBytes), Instant(now), Instant(now))]))
  {
    GeneratedCodeIsSixDigits(codeBytes);
  }

  /// Two registrations for one email at most 59 seconds apart, the first
  /// of which issued a code: the second issues no code, reports a positive wait and changes nothing.
  lemma RegistrationIsThrottled(
    t: Tables, sha: Hasher, email: Email, password: string, password2: string,
    saltBytes: seq<Byte>, codeBytes: seq<Byte>, salt2: seq<Byte>, code2: seq<Byte>, now: int, later: int)
    requires |saltBytes| == 8 && |codeBytes| == 3 && |salt2| == 8 && |code2| == 3
    requires email !in t.users
    requires now <= later <= now + (CodeTtlSeconds - 1) * MicrosPerSecond
    ensures var (t1, r1) := StartRegistrationStep(t, sha, email, password, saltBytes, codeBytes, now);
      r1.Success? && r1.value.code != "" ==>
        var (t2, r2) := StartRegistrationStep(t1, sha, email, password2, salt2, code2, later);
        t2 == t1 && r2.Success? && r2.value.code == "" && r2.value.seconds > 0
  {
  }

  /// resend_code refuses an existing user and a missing pending record,
  /// throttles a record still cooling down, and otherwise issues a fresh
  /// code, rotating only the code, its digest and last_sent_at of that
  /// record.
  lemma ResendRotatesOnlyTheCode(t: Tables, sha: Hasher, email: Email, codeBytes: seq<Byte>, now: int)
    requires |codeBytes| == 3
    ensures var (t', r) := ResendCodeStep(t, sha, email, codeBytes, now);
      && (email in t.users ==> t' == t && r == Failure(UserAlreadyExists))
      && (email !in t.users && email in t.verifications
          && CooldownSeconds(t.verifications[email].lastSentAt, now) > 0 ==>
            t' == t && r == Success(CodeIssue("", CooldownSeconds(t.verifications[email].lastSentAt, now))))
      && (email !in t.users && email in t.verifications
          && CooldownSeconds(t.verifications[email].lastSentAt, now) == 0 ==>
            && r == Success(CodeIssue(GenerateCode(codeBytes), CodeTtlSeconds))
            && |r.value.code| == 6 && AllDigits(r.value.code)
            && t'.verifications[email].codePlain == r.value.code)
      && (r == Failure(NoPendingRegistration) <==> email !in t.users && email !in t.verifications)
      && (r.Success? && r.value.code != "" ==>
            && email in t.verifications && email in t'.verifications
            && t' == t.(verifications := t'.verifications)
            && t'.verifications.Keys == t.verifications.Keys
            && (forall e :: e in t.verifications && e != email ==> t'.verifications[e] == t.verifications[e])
            && t'.verifications[email].passwordHash == t.verifications[email].passwordHash
            && t'.verifications[email].createdAt == t.verifications[email].createdAt
            && t'.verifications[email].codeHash == sha(r.value.code)
            && t'.verifications[email].lastSentAt == Instant(now))
      && (!(r.Success? && r.value.code != "") ==> t' == t)
  {
    GeneratedCodeIsSixDigits(codeBytes);
  }

  /// Verification succeeds exactly when a pending record exists, the code
  /// hashes to its digest and the email is not yet a user; it then moves
  /// the record into users as a student and changes nothing else.
  /// Otherwise nothing changes.
  lemma VerifySucceedsExactly(t: Tables, sha: Hasher, email: Email, code: string)
    ensures var (t', r) := VerifyStep(t, sha, email, code);
      && (r == Success(true) <==>
            email in t.verifications && sha(code) == t.verifications[email].codeHash && email !in t.users)
      && (r == Success(true) ==>
            && t'.users == t.users[email := UserRow(t.verifications[email].passwordHash, StudentRole)]
            && t'.verifications == t.verifications - {email}
            && t' == t.(users := t'.users, verifications := t'.verifications))
      && (r != Success(true) ==> t' == t)
      && (r == Failure(IntegrityError) <==>
            email in t.verifications && sha(code) == t.verifications[email].codeHash && email in t.users)
      && (r == Success(false) <==>
            email !in t.verifications || sha(code) != t.verifications[email].codeHash)
      && (r == Success(true) || r == Success(false) || r == Failure(IntegrityError))
  {
  }

  /// A code is consumed by a successful verification: the same code a
  /// second time returns false and changes nothing.
  lemma SecondVerifyFails(t: Tables, sha: Hasher, email: Email, code: string)
    ensures var (t1, r1) := VerifyStep(t, sha, email, code);
      r1 == Success(true) ==> VerifyStep(t1, sha, email, code) == (t1, Success(false))
  {
  }

  /// No email is both a user and pending.
  ghost predicate LedgerDisjoint(t: Tables) {
    t.users.Keys !! t.verifications.Keys
  }

  /// Every ledger transition keeps users and pending records apart, so in
  /// a reachable state verification never meets the IntegrityError branch.
  lemma LedgerStaysDisjoint(
    t: Tables, sha: Hasher, email: Email, password: string, code: string,
    saltBytes: seq<Byte>, codeBytes: seq<Byte>, now: int)
    requires |saltBytes| == 8 && |codeBytes| == 3
    requires LedgerDisjoint(t)
    ensures LedgerDisjoint(StartRegistrationStep(t, sha, email, password, saltBytes, codeBytes, now).0)
    ensures LedgerDisjoint(ResendCodeStep(t, sha, email, codeBytes, now).0)
    ensures LedgerDisjoint(VerifyStep(t, sha, email, code).0)
    ensures VerifyStep(t, sha, email, code).1 != Failure(IntegrityError)
  {
  }

  /// A user created by verification logs in with the password given at
  /// registration and gets the role "student".
  lemma LoginAfterVerification(
    t: Tables, sha: Hasher, email: Email, password: string,
    saltBytes: seq<Byte>, codeBytes: seq<Byte>, now: int)
    requires |saltBytes| == 8 && |codeBytes| == 3
    requires email !in t.users && email !in t.verifications
    ensures var (t1, r1) := StartRegistrationStep(t, sha, email, password, saltBytes, codeBytes, now);
      var (t2, r2) := VerifyStep(t1, sha, email, r1.value.code);
      r2 == Success(true) && Login(t2, sha, email, password) == (true, StudentRole)
  {
    PasswordRoundTrip(sha, password, saltBytes);
  }

  /// With an injective digest, login after verification succeeds with no
  /// other password.
  lemma LoginRejectsOtherPasswords(
    t: Tables, sha: Hasher, email: Email, password: string, attempt: string,
    saltBytes: seq<Byte>, codeBytes: seq<Byte>, now: int)
    requires Injective(sha)
    requires |saltBytes| == 8 && |codeBytes| == 3
    requires email !in t.users && email !in t.verifications
    requires attempt != password
    ensures var (t1, r1) := StartRegistrationStep(t, sha, email, password, saltBytes, codeBytes, now);
      var (t2, r2) := VerifyStep(t1, sha, email, r1.value.code);
      Login(t2, sha, email, attempt) == (false, "")
  {
    PasswordCheckIsExact(sha, password, attempt, saltBytes);
  }

  /// Register, resend too early (throttled), resend after the cooldown
  /// (new code), verify with the old code (refused), verify with the new
  /// code (accepted), log in as a student.
  lemma RegistrationScenario(
    t: Tables, sha: Hasher, email: Email, password: string,
    saltBytes: seq<Byte>, first: seq<Byte>, second: seq<Byte>,
    registeredAt: int, earlyAt: int, lateAt: int)
    requires Injective(sha)
    requires |saltBytes| == 8 && |first| == 3 && |second| == 3
    requires BigEndianValue(first) % 1000000 != BigEndianValue(second) % 1000000
    requires email !in t.users && email !in t.verifications
    requires registeredAt <= earlyAt <= registeredAt + (CodeTtlSeconds - 1) * MicrosPerSecond
    requires lateAt >= registeredAt + CodeTtlSeconds * MicrosPerSecond
    ensures var (t1, r1) := StartRegistrationStep(t, sha, email, password, saltBytes, first, registeredAt);
      var (t2, r2) := ResendCodeStep(t1, sha, email, second, earlyAt);
      var (t3, r3) := ResendCodeStep(t2, sha, email, second, lateAt);
      var (t4, r4) := VerifyStep(t3, sha, email, r1.value.code);
      var (t5, r5) := VerifyStep(t4, sha, email, r3.value.code);
      && r1 == Success(CodeIssue(GenerateCode(first), CodeTtlSeconds))
      && t2 == t1 && r2.Success? && r2.value.code == "" && r2.value.seconds > 0
      && r3 == Success(CodeIssue(GenerateCode(second), CodeTtlSeconds))
      && t4 == t3 && r4 == Success(false)
      && r5 == Success(true)
      && Login(t5, sha, email, password) == (true, StudentRole)
  {
    DistinctValuesGiveDistinctCodes(first, second);
    assert sha(GenerateCode(first)) != sha(GenerateCode(second));
    PasswordRoundTrip(sha, password, saltBytes);
  }

  // ---------------------------------------------------------------------
  // The same transitions, in place on the database
  // ---------------------------------------------------------------------

  method StartRegistration(
    db: Database, sha: Hasher, email: Email, password: string,
    saltBytes: seq<Byte>, codeBytes: seq<Byte>, now: int) returns (r: Result<CodeIssue, AuthError>)
    requires |saltBytes| == 8 && |codeBytes| == 3
    modifies db
    ensures (db.Snapshot(), r) == StartRegistrationStep(old(db.Snapshot()), sha, email, password, saltBytes, codeBytes, now)
  {
    if email in db.users {
      return Failure(UserAlreadyExists);
    }
    if email in db.verifications {
      var retryIn := CooldownSeconds(db.verifications[email].lastSentAt, now);
      if retryIn > 0 {
        return Success(CodeIssue("", retryIn));
      }
    }
    var code := GenerateCode(codeBytes);
    var codeHash := HashCode(sha, code);
    var passwordHash := MakePasswordHash(sha, password, saltBytes);
    db.verifications := db.verifications[email := PendingRow(codeHash, code, passwordHash, Instant(now), Instant(now))];
    return Success(CodeIssue(code, CodeTtlSeconds));
  }

  method ResendCode(db: Database, sha: Hasher, email: Email, codeBytes: seq<Byte>, now: int)
    returns (r: Result<CodeIssue, AuthError>)
    requires |codeBytes| == 3
    modifies db
    ensures (db.Snapshot(), r) == ResendCodeStep(old(db.Snapshot()), sha, email, codeBytes, now)
  {
    if email in db.users {
      return Failure(UserAlreadyExists);
    }
    if email !in db.verifications {
      return Failure(NoPendingRegistration);
    }
    var retryIn := CooldownSeconds(db.verifications[email].lastSentAt, now);
    if retryIn > 0 {
      return Success(CodeIssue("", retryIn));
    }
    var code := GenerateCode(codeBytes);
    var pending := db.verifications[email];
    db.verifications := db.verifications[email := pending.(codeHash := HashCode(sha, code), codePlain := code, lastSentAt := Instant(now))];
    return Success(CodeIssue(code, CodeTtlSeconds));
  }

  method VerifyCodeAndCreateUser(db: Database, sha: Hasher, email: Email, code: string)
    returns (r: Result<bool, AuthError>)
    modifies db
    ensures (db.Snapshot(), r) == VerifyStep(old(db.Snapshot()), sha, email, code)
  {
    if email !in db.verifications {
      return Success(false);
    }
    var row := db.verifications[email];
    if HashCode(sha, code) != row.codeHash {
      return Success(false);
    }
    if email in db.users {
      return Failure(IntegrityError);
    }
    db.users := db.users[email := UserRow(row.passwordHash, StudentRole)];
    db.verifications := db.verifications - {email};
    return Success(true);
  }
}
