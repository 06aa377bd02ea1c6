/** `AuthService`: registration, login with lockout escalation, logout, password
    reset and CSRF tokens, each a sequence of statements over the tables.
    bcrypt, the JWT signer, the clock and the random bytes come in as
    parameters. */
module Auth {
  import opened Common
  import opened Tokens
  import Users
  import Sessions
  import ResetTokens
  import CsrfTokens
  import LoginHistory

  /** Failed attempts after which `login` locks the account. */
  const MaxFailedAttempts: nat := 5
  /** `7 * 24 * 60 * 60 * 1000`: the lifetime of a session, in milliseconds. */
  const SessionLifetimeMs: int := 604800000
  /** One hour: the lifetime of a password-reset token. */
  const ResetTokenLifetimeMs: int := 3600000
  /** One hour: the lifetime of a CSRF token. */
  const CsrfTokenLifetimeMs: int := 3600000

  /** The errors the service throws. */
  datatype AuthError =
    | InvalidCredentials
    | AccountIsLocked
    | AccountLockedAfterFailures
    | InvalidOrExpiredToken

  function Message(e: AuthError): string {
    match e
    case InvalidCredentials => "Invalid credentials"
    case AccountIsLocked => "Account is locked"
    case AccountLockedAfterFailures => "Account locked due to too many failed attempts"
    case InvalidOrExpiredToken => "Invalid or expired token"
  }

  datatype Result<+T> = Ok(value: T) | Err(error: AuthError)

  /** What `login` returns: the signed credential and the user row it read. */
  datatype LoginSuccess = LoginSuccess(token: string, user: Users.UserRow)

  /** An account whose counter reached the threshold is locked. */
  ghost predicate LockoutConsistent(u: Users.UserRow) {
    u.failedLoginAttempts >= MaxFailedAttempts ==> u.isLocked == 1
  }

  /** The row of the account a login attempt names, after the attempt, and the
      error it ends with (none on success). */
  datatype Attempt = Attempt(row: Users.UserRow, error: Option<AuthError>)

  /** What `login` does to the row of an existing account. A locked account is
      refused whatever the password. A wrong password raises the counter by one
      and locks the account once the counter reaches the threshold. A right
      password resets the counter and stamps the login time. */
  function LoginAttempt(u: Users.UserRow, passwordMatches: bool, now: int): (a: Attempt)
    ensures a.row.id == u.id && a.row.email == u.email && a.row.username == u.username
    ensures a.row.passwordHash == u.passwordHash && a.row.salt == u.salt
    ensures u.isLocked == 1 ==> a.row == u && a.error == Some(AccountIsLocked)
    ensures a.row.isLocked == 1 && u.isLocked == 0 ==> a.error == Some(AccountLockedAfterFailures)
    ensures u.isLocked == 0 && !passwordMatches ==>
      && a.row.failedLoginAttempts == u.failedLoginAttempts + 1
      && (a.row.isLocked == 1 <==> u.failedLoginAttempts + 1 >= MaxFailedAttempts)
      && a.error == Some(if u.failedLoginAttempts + 1 >= MaxFailedAttempts
                         then AccountLockedAfterFailures else InvalidCredentials)
    ensures a.error.None? <==> u.isLocked == 0 && passwordMatches
    ensures a.error.None? ==> a.row.failedLoginAttempts == 0 && a.row.lastLogin == Some(now)
    ensures a.error.Some? ==> a.row.lastLogin == u.lastLogin
    ensures LockoutConsistent(u) ==> LockoutConsistent(a.row)
  {
    if u.isLocked != 0 then
      Attempt(u, Some(AccountIsLocked))
    else if !passwordMatches then
      var attempts := u.failedLoginAttempts + 1;
      if attempts >= MaxFailedAttempts then
        Attempt(u.(failedLoginAttempts := attempts, isLocked := 1), Some(AccountLockedAfterFailures))
      else
        Attempt(u.(failedLoginAttempts := attempts), Some(InvalidCredentials))
    else
      Attempt(u.(lastLogin := Some(now), failedLoginAttempts := 0), None)
  }

  /** The row of an account after `n` consecutive logins with a wrong password. */
  function AfterWrongPasswords(u: Users.UserRow, n: nat): Users.UserRow {
    if n == 0 then u else LoginAttempt(AfterWrongPasswords(u, n - 1), false, 0).row
  }

  /** From a fresh, unlocked account: four wrong passwords leave it unlocked,
      the fifth locks it, and the counter stops at five. */
  lemma {:induction false} WrongPasswordsLockOnTheFifth(u: Users.UserRow, n: nat)
    requires u.isLocked == 0 && u.failedLoginAttempts == 0
    ensures AfterWrongPasswords(u, n).failedLoginAttempts == Min(n, MaxFailedAttempts)
    ensures AfterWrongPasswords(u, n).isLocked == 1 <==> n >= MaxFailedAttempts
  {
    if n > 0 {
      WrongPasswordsLockOnTheFifth(u, n - 1);
    }
  }

  /** The error of the `n`-th consecutive wrong-password login from a fresh
      account: "Invalid credentials" for the first four, the lockout error for
      the fifth, "Account is locked" afterwards -- and from the fifth on even
      the right password is refused. */
  lemma WrongPasswordErrors(u: Users.UserRow, n: nat, passwordMatches: bool, now: int)
    requires u.isLocked == 0 && u.failedLoginAttempts == 0 && n >= 1
    ensures LoginAttempt(AfterWrongPasswords(u, n - 1), false, now).error ==
      Some(if n < MaxFailedAttempts then InvalidCredentials
           else if n == MaxFailedAttempts then AccountLockedAfterFailures
           else AccountIsLocked)
    ensures n >= MaxFailedAttempts ==>
      LoginAttempt(AfterWrongPasswords(u, n), passwordMatches, now).error == Some(AccountIsLocked)
  {
    WrongPasswordsLockOnTheFifth(u, n - 1);
    WrongPasswordsLockOnTheFifth(u, n);
  }

  lemma ReplaceKeepsLockoutConsistent(rows: seq<Users.UserRow>, u: Users.UserRow, v: Users.UserRow)
    requires forall i :: 0 <= i < |rows| ==> LockoutConsistent(rows[i])
    requires LockoutConsistent(v)
    ensures forall i :: 0 <= i < |rows| ==> LockoutConsistent(Users.ReplaceById(rows, u.id, v)[i])
  {
  }

  /** The message of the TypeError `resetPassword` raises when it calls the
      `updatePassword` that the users model does not define. */
  const UpdatePasswordMissing: string := "User.updatePassword is not a function"

  /** `resetPassword` as the source stands: the token check runs, then the call
      to the undefined `updatePassword` throws before any statement reaches the
      database. Every call fails, and no table changes, so the token stays
      usable and the owner's sessions stay active. */
  function ResetPasswordAsWritten(resetRows: seq<ResetTokens.ResetTokenRow>, token: string, now: int)
    : (thrown: string)
    ensures thrown == Message(InvalidOrExpiredToken) <==> ResetTokens.FindByToken(resetRows, token, now).None?
    ensures thrown != Message(InvalidOrExpiredToken) ==> thrown == UpdatePasswordMissing
  {
    if ResetTokens.FindByToken(resetRows, token, now).None? then Message(InvalidOrExpiredToken)
    else UpdatePasswordMissing
  }

  /** A fresh, unused reset token within its hour is refused by the code as
      written; since that refusal changes no table
      (`AuthService.ResetPasswordAsWrittenOnTables`), the token stays usable and
      the reset can never complete. */
  lemma ResetAsWrittenRefusesAValidToken()
    ensures var rows := [ResetTokens.ResetTokenRow(1, 7, "ab", ResetTokenLifetimeMs, 0)];
      && ResetTokens.FindByToken(rows, "ab", 0).Some?
      && ResetPasswordAsWritten(rows, "ab", 0) == UpdatePasswordMissing
  {
    var rows := [ResetTokens.ResetTokenRow(1, 7, "ab", ResetTokenLifetimeMs, 0)];
    assert ResetTokens.Usable(rows[0], "ab", 0);
  }

  /** The service over its tables. */
  class AuthService {
    const users: Users.UserTable
    const sessions: Sessions.SessionTable
    const resetTokens: ResetTokens.ResetTokenTable
    const csrfTokens: CsrfTokens.CsrfTokenTable
    const history: LoginHistory.HistoryTable

    ghost predicate Valid()
      reads this, users, sessions, resetTokens, csrfTokens
    {
      && users.Valid() && sessions.Valid() && resetTokens.Valid() && csrfTokens.Valid()
      && forall i :: 0 <= i < |users.rows| ==> LockoutConsistent(users.rows[i])
    }

    constructor (users: Users.UserTable, sessions: Sessions.SessionTable,
                 resetTokens: ResetTokens.ResetTokenTable, csrfTokens: CsrfTokens.CsrfTokenTable,
                 history: LoginHistory.HistoryTable)
      requires users.Valid() && sessions.Valid() && resetTokens.Valid() && csrfTokens.Valid()
      requires forall i :: 0 <= i < |users.rows| ==> LockoutConsistent(users.rows[i])
      ensures Valid()
      ensures this.users == users && this.sessions == sessions && this.resetTokens == resetTokens
      ensures this.csrfTokens == csrfTokens && this.history == history
    {
      this.users := users;
      this.sessions := sessions;
      this.resetTokens := resetTokens;
      this.csrfTokens := csrfTokens;
      this.history := history;
    }

    /** `register`: stores `hash(password, salt)` and the salt in a new user row
        and returns the new id. No session is created. */
    method Register(username: string, email: string, password: string,
                    salt: string, hash: (string, string) -> string)
      returns (userId: nat)
      requires Valid()
      modifies users
      ensures Valid()
      ensures userId == old(users.nextId) && users.nextId == userId + 1
      ensures forall i :: 0 <= i < |old(users.rows)| ==> old(users.rows)[i].id != userId
      ensures users.rows == old(users.rows) + [Users.UserRow(userId, username, email, hash(password, salt), salt, 0, 0, None)]
    {
      var passwordHash := hash(password, salt);
      userId := users.Create(username, email, passwordHash, salt);
    }

    /** `login`. An unknown email records one failed attempt with no user and
        fails like a wrong password. Otherwise the account's row undergoes
        `LoginAttempt`; a locked account records nothing, any other attempt
        records one row; only a success creates a session, one of seven days,
        and returns the credential signed over the user id and session token. */
    method Login(email: string, password: string, ipAddress: string, userAgent: string, now: int,
                 sessionBytes: seq<Byte>, compare: (string, string) -> bool, sign: Claims -> string)
      returns (r: Result<LoginSuccess>)
      requires Valid()
      requires |sessionBytes| == TokenBytes
      requires forall i :: 0 <= i < |sessions.rows| ==> sessions.rows[i].sessionToken != TokenFromBytes(sessionBytes)
      modifies users, history, sessions
      ensures Valid()
      ensures users.nextId == old(users.nextId)
      ensures sessions.nextId == if r.Ok? then old(sessions.nextId) + 1 else old(sessions.nextId)
      ensures var found := Users.FindByEmail(old(users.rows), email);
        found.None? ==>
          && r == Err(InvalidCredentials)
          && users.rows == old(users.rows) && sessions.rows == old(sessions.rows)
          && history.rows == old(history.rows) + [LoginHistory.HistoryRow(None, ipAddress, userAgent, 0, now)]
      ensures var found := Users.FindByEmail(old(users.rows), email);
        found.Some? && found.value.isLocked == 1 ==>
          && r == Err(AccountIsLocked)
          && users.rows == old(users.rows) && sessions.rows == old(sessions.rows)
          && history.rows == old(history.rows)
      ensures var found := Users.FindByEmail(old(users.rows), email);
        found.Some? && found.value.isLocked == 0 ==>
          var u := found.value;
          var a := LoginAttempt(u, compare(password, u.passwordHash), now);
          && users.rows == Users.ReplaceById(old(users.rows), u.id, a.row)
          && history.rows == old(history.rows)
               + [LoginHistory.HistoryRow(Some(u.id), ipAddress, userAgent, if a.error.None? then 1 else 0, now)]
          && (a.error.Some? ==> r == Err(a.error.value) && sessions.rows == old(sessions.rows))
          && (a.error.None? ==>
                var sessionToken := TokenFromBytes(sessionBytes);
                var session := Sessions.SessionRow(old(sessions.nextId), u.id, sessionToken, ipAddress, userAgent,
                                                   now + SessionLifetimeMs, 1);
                && r == Ok(LoginSuccess(sign(Claims(u.id, sessionToken)), u))
                && sessions.rows == old(sessions.rows) + [session]
                && forall t :: Sessions.FindByToken(sessions.rows, sessionToken, t) ==
                     (if t < now + SessionLifetimeMs then Some(session) else None))
    {
      var found := Users.FindByEmail(users.rows, email);
      if found.None? {
        history.RecordLogin(None, ipAddress, userAgent, false, now);
        return Err(InvalidCredentials);
      }
      var user := found.value;
      if user.isLocked != 0 {
        return Err(AccountIsLocked);
      }
      var isMatch := compare(password, user.passwordHash);
      if !isMatch {
        var e := RecordWrongPassword(user, ipAddress, userAgent, now);
        return Err(e);
      }
      var success := CompleteLogin(user, ipAddress, userAgent, now, sessionBytes, sign);
      r := Ok(success);
    }

    /** The wrong-password branch of `login`: the counter goes up by one, one
        failed attempt is recorded, and the account is locked once the counter
        reaches the threshold. */
    method RecordWrongPassword(user: Users.UserRow, ipAddress: string, userAgent: string, now: int)
      returns (e: AuthError)
      requires Valid()
      requires user in users.rows && user.isLocked == 0
      modifies users, history
      ensures Valid()
      ensures users.nextId == old(users.nextId)
      ensures var a := LoginAttempt(user, false, now);
        users.rows == Users.ReplaceById(old(users.rows), user.id, a.row) && a.error == Some(e)
      ensures history.rows == old(history.rows) + [LoginHistory.HistoryRow(Some(user.id), ipAddress, userAgent, 0, now)]
    {
      ghost var before := users.rows;
      ghost var a := LoginAttempt(user, false, now);
      Users.UpdatesReplaceTheRow(before, users.nextId, user, user.failedLoginAttempts + 1, now);
      ReplaceKeepsLockoutConsistent(before, user, a.row);
      users.UpdateLoginAttempts(user.id, user.failedLoginAttempts + 1);
      history.RecordLogin(Some(user.id), ipAddress, userAgent, false, now);
      if user.failedLoginAttempts + 1 >= MaxFailedAttempts {
        users.LockAccount(user.id);
        return AccountLockedAfterFailures;
      }
      return InvalidCredentials;
    }

    /** The success branch of `login`: the counter is reset and the login time
        stamped, one successful attempt is recorded, one session of seven days
        is created, and the credential is signed over the user id and the
        session token. */
    method CompleteLogin(user: Users.UserRow, ipAddress: string, userAgent: string, now: int,
                         sessionBytes: seq<Byte>, sign: Claims -> string)
      returns (success: LoginSuccess)
      requires Valid()
      requires user in users.rows && user.isLocked == 0
      requires |sessionBytes| == TokenBytes
      requires forall i :: 0 <= i < |sessions.rows| ==> sessions.rows[i].sessionToken != TokenFromBytes(sessionBytes)
      modifies users, history, sessions
      ensures Valid()
      ensures users.nextId == old(users.nextId) && sessions.nextId == old(sessions.nextId) + 1
      ensures users.rows == Users.ReplaceById(old(users.rows), user.id, LoginAttempt(user, true, now).row)
      ensures history.rows == old(history.rows) + [LoginHistory.HistoryRow(Some(user.id), ipAddress, userAgent, 1, now)]
      ensures var sessionToken := TokenFromBytes(sessionBytes);
        var session := Sessions.SessionRow(old(sessions.nextId), user.id, sessionToken, ipAddress, userAgent,
                                           now + SessionLifetimeMs, 1);
        && success == LoginSuccess(sign(Claims(user.id, sessionToken)), user)
        && sessions.rows == old(sessions.rows) + [session]
        && forall t :: Sessions.FindByToken(sessions.rows, sessionToken, t) ==
             (if t < now + SessionLifetimeMs then Some(session) else None)
    {
      Users.UpdatesReplaceTheRow(users.rows, users.nextId, user, 0, now);
      ReplaceKeepsLockoutConsistent(users.rows, user, LoginAttempt(user, true, now).row);
      users.UpdateLastLogin(user.id, now);
      history.RecordLogin(Some(user.id), ipAddress, userAgent, true, now);
      var expiresAt := now + SessionLifetimeMs;
      var _, sessionToken := sessions.Create(user.id, ipAddress, userAgent, expiresAt, sessionBytes);
      var token := sign(Claims(user.id, sessionToken));
      success := LoginSuccess(token, user);
    }

    /** `logout`: deactivates the session with that token, and only it;
        idempotent. */
    method Logout(sessionToken: string)
      requires Valid()
      modifies sessions
      ensures Valid() && sessions.nextId == old(sessions.nextId)
      ensures sessions.rows == Sessions.Deactivated(old(sessions.rows), sessionToken)
      ensures forall now :: Sessions.FindByToken(sessions.rows, sessionToken, now).None?
      ensures forall t, now :: t != sessionToken ==>
        Sessions.FindByToken(sessions.rows, t, now) == old(Sessions.FindByToken(sessions.rows, t, now))
    {
      sessions.Invalidate(sessionToken);
    }

    /** `generatePasswordResetToken`: no token, and no row, for an unknown
        email; otherwise one unused token of one hour for that user. */
    method GeneratePasswordResetToken(email: string, now: int, randomBytes: seq<Byte>)
      returns (token: Option<string>)
      requires Valid()
      requires |randomBytes| == TokenBytes
      requires forall i :: 0 <= i < |resetTokens.rows| ==> resetTokens.rows[i].token != TokenFromBytes(randomBytes)
      modifies resetTokens
      ensures Valid()
      ensures var found := Users.FindByEmail(users.rows, email);
        found.None? ==> token.None? && resetTokens.rows == old(resetTokens.rows)
                        && resetTokens.nextId == old(resetTokens.nextId)
      ensures var found := Users.FindByEmail(users.rows, email);
        found.Some? ==>
          var row := ResetTokens.ResetTokenRow(old(resetTokens.nextId), found.value.id, TokenFromBytes(randomBytes),
                                               now + ResetTokenLifetimeMs, 0);
          && token == Some(row.token)
          && resetTokens.nextId == old(resetTokens.nextId) + 1
          && resetTokens.rows == old(resetTokens.rows) + [row]
          && forall t :: ResetTokens.FindByToken(resetTokens.rows, row.token, t) ==
               (if t < now + ResetTokenLifetimeMs then Some(row) else None)
    {
      var found := Users.FindByEmail(users.rows, email);
      if found.None? {
        return None;
      }
      var expiresAt := now + ResetTokenLifetimeMs;
      var _, t := resetTokens.Create(found.value.id, expiresAt, randomBytes);
      token := Some(t);
    }

    /** `resetPassword`. Without a usable token it fails and changes nothing.
        With one it stores `hash(newPassword, salt)` and the salt in the owner's
        row, marks the token used so it never works again, and deactivates every
        session of the owner. */
    method ResetPassword(token: string, newPassword: string, now: int,
                         salt: string, hash: (string, string) -> string)
      returns (r: Result<()>)
      requires Valid()
      modifies users, resetTokens, sessions
      ensures Valid()
      ensures users.nextId == old(users.nextId) && resetTokens.nextId == old(resetTokens.nextId)
      ensures sessions.nextId == old(sessions.nextId)
      ensures var found := ResetTokens.FindByToken(old(resetTokens.rows), token, now);
        found.None? ==>
          && r == Err(InvalidOrExpiredToken)
          && users.rows == old(users.rows) && resetTokens.rows == old(resetTokens.rows)
          && sessions.rows == old(sessions.rows)
      ensures var found := ResetTokens.FindByToken(old(resetTokens.rows), token, now);
        found.Some? ==>
          var owner := found.value.userId;
          && r == Ok(())
          && users.rows == Users.WithPassword(old(users.rows), owner, hash(newPassword, salt), salt)
          && resetTokens.rows == ResetTokens.MarkedUsed(old(resetTokens.rows), token)
          && sessions.rows == Sessions.DeactivatedForUser(old(sessions.rows), owner)
          && (forall t :: ResetTokens.FindByToken(resetTokens.rows, token, t).None?)
          && (forall s, t :: Sessions.FindByToken(sessions.rows, s, t).Some? ==>
                Sessions.FindByToken(sessions.rows, s, t).value.userId != owner)
    {
      var resetToken := ResetTokens.FindByToken(resetTokens.rows, token, now);
      if resetToken.None? {
        return Err(InvalidOrExpiredToken);
      }
      var passwordHash := hash(newPassword, salt);
      users.UpdatePassword(resetToken.value.userId, passwordHash, salt);
      resetTokens.MarkAsUsed(token);
      sessions.InvalidateAllForUser(resetToken.value.userId);
      r := Ok(());
    }

    /** `resetPassword` as the source stands, over the tables: the token lookup
        runs, then the call to the undefined `updatePassword` throws before any
        statement writes. So a usable token is refused with the TypeError, and
        the password, the token and the owner's sessions all stay as they were. */
    method ResetPasswordAsWrittenOnTables(token: string, newPassword: string, now: int,
                                          salt: string, hash: (string, string) -> string)
      returns (thrown: string)
      requires Valid()
      ensures thrown == Message(InvalidOrExpiredToken) <==>
        ResetTokens.FindByToken(resetTokens.rows, token, now).None?
      ensures ResetTokens.FindByToken(resetTokens.rows, token, now).Some? ==> thrown == UpdatePasswordMissing
      ensures users.rows == old(users.rows) && resetTokens.rows == old(resetTokens.rows)
      ensures sessions.rows == old(sessions.rows)
    {
      var resetToken := ResetTokens.FindByToken(resetTokens.rows, token, now);
      if resetToken.None? {
        return Message(InvalidOrExpiredToken);
      }
      var passwordHash := hash(newPassword, salt);
      return UpdatePasswordMissing;
    }

    /** `generateCsrfToken`: one token of one hour bound to the user. */
    method GenerateCsrfToken(userId: nat, now: int, randomBytes: seq<Byte>) returns (token: string)
      requires Valid()
      requires |randomBytes| == TokenBytes
      requires forall i :: 0 <= i < |csrfTokens.rows| ==> csrfTokens.rows[i].token != TokenFromBytes(randomBytes)
      modifies csrfTokens
      ensures Valid()
      ensures token == TokenFromBytes(randomBytes) && csrfTokens.nextId == old(csrfTokens.nextId) + 1
      ensures csrfTokens.rows == old(csrfTokens.rows)
                + [CsrfTokens.CsrfRow(old(csrfTokens.nextId), userId, token, now + CsrfTokenLifetimeMs)]
      ensures forall u, t :: CsrfTokens.IsValid(csrfTokens.rows, u, token, t) <==>
        u == userId && t < now + CsrfTokenLifetimeMs
    {
      var expiresAt := now + CsrfTokenLifetimeMs;
      var _, t := csrfTokens.Create(userId, expiresAt, randomBytes);
      token := t;
    }

    /** `validateCsrfToken`: a read-only check; the token is not consumed here. */
    method ValidateCsrfToken(userId: nat, token: string, now: int) returns (valid: bool)
      requires Valid()
      ensures valid <==> exists i :: 0 <= i < |csrfTokens.rows| && CsrfTokens.Matches(csrfTokens.rows[i], userId, token, now)
    {
      valid := CsrfTokens.IsValid(csrfTokens.rows, userId, token, now);
    }
  }
}
