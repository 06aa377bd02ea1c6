# Credential and token lifecycle of Auth-apiv1

This project models in Dafny the part of the Auth-apiv1 Express/MySQL service that decides who gets in and for how long:

- registration;
- login with failed-attempt counting and a lockout after five failures;
- a session of seven days per successful login;
- logout;
- single-use password-reset tokens of one hour;
- single-use CSRF tokens of one hour;
- the login history;
- the two request middlewares (`authenticate`, `validateCsrf`);
- the request-body validators.

Each MySQL table (`users`, `sessions`, `password_reset_tokens`, `csrf_tokens`, `login_history`) is a class. It holds its rows, in insertion order, as a `seq` field. The four tables with an id column also hold the next AUTO_INCREMENT id, and their `Valid()` states that ids are positive and strictly increasing. No statement reads a `login_history` id, so that table keeps only its rows.

- `SELECT` statements are pure functions over the rows. `rows[0]` of a query is the first matching row in table order.
- `INSERT`, `UPDATE` and `DELETE` statements are methods that reassign the rows.
- An `INSERT` method's postcondition states the new rows as the old rows followed by the inserted row.
- An `UPDATE` or `DELETE` method's postcondition names the pure function that gives the new rows.
- The service (`AuthService`) and the middlewares are methods over those tables. They follow the source's statements and early exits one for one.
- The validators are pure functions producing express-validator's error list.

These come in as parameters:

- the clock (`now`, in milliseconds; SQL `NOW()` and `Date.now()` are the same value);
- the 32 random bytes behind every token;
- bcrypt's `hash` and `compare` (and the salt);
- the JWT signer and verifier;
- `isEmail`.

A token is Node's `toString('hex')` of its bytes, modelled exactly together with its inverse. So 64 lower-case hex digits, and distinct bytes give distinct tokens (`Tokens.HexInjective`).

Files:

- `common.dfy`: `Option`, the 0/1 flag type, the JWT payload, and the first-match / filter / update-in-place shapes of the SQL statements.
- `tokens.dfy`: `crypto.randomBytes(32).toString('hex')`.
- `users.dfy`, `sessions.dfy`, `reset_tokens.dfy`, `csrf_tokens.dfy`, `login_history.dfy`: the five models.
- `auth_service.dfy`: `AuthService`.
- `middleware.dfy`: `authenticate` and `validateCsrf`.
- `validation.dfy`: `validateRegister`, `validateLogin`, `validatePasswordReset`.

## Model

| member | source | states |
|---|---|---|
| Common.FirstMatch | src/models/User.model.js:12-18 | `rows[0]` of a SELECT: none exactly when no row matches; otherwise a matching row with no matching row before it |
| Common.Filter | src/models/CsrfToken.model.js:22-33 | the rows a DELETE keeps: each kept row with its multiplicity, no other row, never more rows than before |
| Common.UpdateWhereIdempotent | src/models/Session.model.js:22-27 | an UPDATE whose new values still match its WHERE clause and are fixed by its SET has no further effect when run again |
| Common.UpdateWhereUnchanged | src/models/User.model.js:42-47 | an UPDATE that matches no row, or leaves every matching row as it was, leaves the table unchanged |
| Tokens.Hex | src/models/Session.model.js:6 | `toString('hex')`: two characters per byte, all lower-case hex digits |
| Tokens.UnhexHex | src/models/Session.model.js:6 | reading the hex rendering back gives the original bytes |
| Tokens.HexInjective | src/models/Session.model.js:6 | distinct random bytes give distinct tokens |
| Tokens.TokenFromBytes | src/models/Session.model.js:6 | a token from 32 bytes has 64 lower-case hex characters and decodes back to those bytes |
| Users.FindByEmail | src/models/User.model.js:12-18 | none exactly when no row has the email; otherwise the first row with that email |
| Users.FindById | src/models/User.model.js:20-26 | none exactly when no row has the id; otherwise a row with that id |
| Users.OnlyRowWithItsId | src/models/User.model.js:4-10 | with AUTO_INCREMENT ids, a row is the only row carrying its id |
| Users.LockIdempotent | src/models/User.model.js:42-47 | locking twice equals locking once; locking an already locked account changes no row |
| Users.UpdatesReplaceTheRow | src/models/User.model.js:28-47 | each single-user UPDATE replaces exactly the row of that user by that row with the new column values |
| Users.UserTable.Create | src/models/User.model.js:4-10 | appends one row with no failed attempts, unlocked and never logged in; returns its id, which no earlier row has |
| Users.UserTable.UpdateLoginAttempts | src/models/User.model.js:28-33 | that user's counter becomes the given value; every other row and field is unchanged |
| Users.UserTable.UpdateLastLogin | src/models/User.model.js:35-40 | that user's last login becomes now and the counter 0; nothing else changes |
| Users.UserTable.LockAccount | src/models/User.model.js:42-47 | that user becomes locked, nothing else changes, and on a locked account the table is unchanged |
| Users.UserTable.UpdatePassword | src/services/auth.service.js:86 | that user's hash and salt become the given ones; nothing else changes |
| Sessions.FindByToken | src/models/Session.model.js:14-20 | a row is returned only if its token matches, it is active and unexpired, and it is the first such row; none exactly when no such row exists |
| Sessions.FreshTokenFindsNewRow | src/models/Session.model.js:5-20 | a token no earlier row carries finds exactly the row just inserted with it before its expiry, and nothing from then on |
| Sessions.InvalidateRevokes | src/models/Session.model.js:22-27 | after invalidation the token is found at no time; every other token is found exactly as before |
| Sessions.InvalidateIdempotent | src/models/Session.model.js:22-27 | invalidating twice equals invalidating once |
| Sessions.InvalidateAllRevokesUser | src/models/Session.model.js:29-34 | afterwards no lookup yields a session of that user; a lookup that found another user's session finds the same session |
| Sessions.SessionTable.Create | src/models/Session.model.js:5-12 | given fresh random bytes, appends one active row with the given user, ip, agent and expiry and a 64-hex token; the token finds exactly that row until the expiry and nothing afterwards |
| Sessions.SessionTable.Invalidate | src/models/Session.model.js:22-27 | deactivates exactly the rows with that token; afterwards that token is never found and other tokens are found as before |
| Sessions.SessionTable.InvalidateAllForUser | src/models/Session.model.js:29-34 | deactivates every row of that user and leaves every other row untouched |
| ResetTokens.FindByToken | src/models/PasswordResetToken.model.js:14-20 | a row is returned only if its token matches, it is unused and unexpired; none exactly when no such row exists |
| ResetTokens.FreshTokenFindsNewRow | src/models/PasswordResetToken.model.js:5-20 | a token no earlier row carries finds exactly the row just inserted with it before its expiry, and nothing from then on |
| ResetTokens.MarkUsedRevokes | src/models/PasswordResetToken.model.js:22-27 | a token marked used is never found again, even before its expiry; other tokens are unaffected; marking is idempotent |
| ResetTokens.ResetTokenTable.Create | src/models/PasswordResetToken.model.js:5-12 | given fresh random bytes, appends one unused row for the user with the given expiry and a 64-hex token; the token finds exactly that row until the expiry and nothing afterwards |
| ResetTokens.ResetTokenTable.MarkAsUsed | src/models/PasswordResetToken.model.js:22-27 | marks exactly the rows with that token; afterwards the token is never found and other tokens are found as before |
| CsrfTokens.IsValid | src/models/CsrfToken.model.js:14-20 | true exactly when some unexpired row binds that token to that user, so another user's token is rejected |
| CsrfTokens.WithoutToken | src/models/CsrfToken.model.js:22-27 | the rows left are exactly the rows carrying another token |
| CsrfTokens.Unexpired | src/models/CsrfToken.model.js:29-33 | the rows left are exactly the rows expiring after now |
| CsrfTokens.FreshTokenValidatesOnlyForOwner | src/models/CsrfToken.model.js:5-20 | a token no earlier row carries, once inserted for a user, validates exactly for that user and before its expiry |
| CsrfTokens.DeleteRevokes | src/models/CsrfToken.model.js:22-27 | after deletion the token validates for no user at any time; other tokens validate as before |
| CsrfTokens.SweepPreservesValidity | src/models/CsrfToken.model.js:29-33 | removing the expired rows changes no validation result at now or later |
| CsrfTokens.CsrfTokenTable.Create | src/models/CsrfToken.model.js:5-12 | given fresh random bytes, appends one row binding a 64-hex token to the user with the given expiry; it validates exactly for that user and until the expiry |
| CsrfTokens.CsrfTokenTable.Delete | src/models/CsrfToken.model.js:22-27 | removes exactly the rows with that token, keeping the ids increasing; the token then validates for nobody |
| CsrfTokens.CsrfTokenTable.DeleteExpired | src/models/CsrfToken.model.js:29-33 | removes exactly the rows with expiry at or before now; no validation result from now on changes |
| LoginHistory.RowsOf | src/models/LoginHistory.model.js:11-17 | `WHERE user_id = ?`: exactly the rows of that user; rows with a null user never match |
| LoginHistory.InsertNewestFirst | src/models/LoginHistory.model.js:13 | inserting a row into a newest-first list keeps it newest first and adds exactly that row |
| LoginHistory.SortNewestFirst | src/models/LoginHistory.model.js:13 | `ORDER BY created_at DESC`: a permutation of the rows, newest first |
| LoginHistory.TakeNewest | src/models/LoginHistory.model.js:13 | the first k rows of a newest-first list are newest first and no older than any row left out |
| LoginHistory.InSortedMeansMine | src/models/LoginHistory.model.js:11-17 | the sorted rows are exactly the user's rows |
| LoginHistory.GetUserLoginHistory | src/models/LoginHistory.model.js:11-17 | min(limit, that user's row count) rows (limit 10 by default), all of that user, newest first, and none older than one left out |
| LoginHistory.RecordAppendsOnlyToOwner | src/models/LoginHistory.model.js:4-9 | recording a row adds it to its owner's history only and reorders nothing |
| LoginHistory.HistoryTable.RecordLogin | src/models/LoginHistory.model.js:4-9 | appends exactly one row with success stored as 1 or 0; earlier rows are unchanged |
| Auth.LoginAttempt | src/services/auth.service.js:32-50 | locked: refused, row unchanged; wrong password at any counter: counter old + 1, locked with "Account locked due to too many failed attempts" exactly when old + 1 ≥ 5, otherwise "Invalid credentials"; right password: counter 0, last login now; identity and password fields never change; the lockout invariant is kept |
| Auth.WrongPasswordsLockOnTheFifth | src/services/auth.service.js:37-46 | from a fresh account, n wrong passwords leave the counter at min(n, 5), and the account is locked exactly when n ≥ 5 |
| Auth.WrongPasswordErrors | src/services/auth.service.js:32-46 | wrong passwords 1–4 fail with "Invalid credentials", the 5th with the lockout error, later ones with "Account is locked", even with the right password |
| Auth.ResetPasswordAsWritten | src/services/auth.service.js:77-86 | as written: fails with "Invalid or expired token" exactly when no usable token exists; otherwise fails with the TypeError of the missing `updatePassword` |
| Auth.ResetAsWrittenRefusesAValidToken | src/services/auth.service.js:78-86 | a fresh, unused token within its hour is found, yet the reset as written still fails |
| Auth.AuthService.ResetPasswordAsWrittenOnTables | src/services/auth.service.js:77-86 | as written, over the tables: "Invalid or expired token" exactly when no usable token exists, otherwise the TypeError of the missing `updatePassword`; either way the users, reset-token and session tables are unchanged |
| Auth.AuthService.Register | src/services/auth.service.js:11-23 | appends one user row whose hash column holds `hash(password, salt)` and whose salt column holds the salt; returns the next AUTO_INCREMENT id, which no earlier row has |
| Auth.AuthService.Login | src/services/auth.service.js:25-62 | unknown email: one failed null-user history row and "Invalid credentials"; locked: nothing written and "Account is locked"; otherwise the row becomes `LoginAttempt`'s, one history row is added, and a success alone creates one session ending now + 604800000 ms, which its fresh token finds until then, and returns the credential signed over {id, sessionToken}; no user row is created |
| Auth.AuthService.RecordWrongPassword | src/services/auth.service.js:37-47 | the counter becomes old + 1, one failed history row is added, and the account is locked with the lockout error once the counter reaches 5 |
| Auth.AuthService.CompleteLogin | src/services/auth.service.js:49-61 | counter 0 and last login now, one success history row, one active session of seven days that its fresh token finds exactly until it expires, a credential signed over the user id and session token |
| Auth.AuthService.Logout | src/services/auth.service.js:64-66 | deactivates only that session; afterwards it is never found and every other session is found as before |
| Auth.AuthService.GeneratePasswordResetToken | src/services/auth.service.js:68-75 | unknown email: no token and no row; otherwise one unused token whose lookup yields that user's new row for the next 3600000 ms and nothing afterwards |
| Auth.AuthService.ResetPassword | src/services/auth.service.js:77-89 | no usable token: the error and no change; otherwise the owner's hash and salt change, the token is never usable again, and no lookup yields a session of the owner; no row is created |
| Auth.AuthService.GenerateCsrfToken | src/services/auth.service.js:91-95 | one token that validates for that user alone, for the next 3600000 ms |
| Auth.AuthService.ValidateCsrfToken | src/services/auth.service.js:97-99 | true exactly when an unexpired row binds the token to that user; changes nothing |
| Middleware.Split | src/middlewares/auth.middleware.js:12 | `split(' ')`: at least one piece, none containing the separator |
| Middleware.JoinSplit | src/middlewares/auth.middleware.js:12 | joining the pieces with the separator gives back the split string |
| Middleware.SplitAtFirstSeparator | src/middlewares/auth.middleware.js:12 | a string cut at its first separator splits into the part before it followed by the pieces of the rest |
| Middleware.SplitWithoutSeparator | src/middlewares/auth.middleware.js:12 | a string without the separator is a single piece |
| Middleware.SelectToken | src/middlewares/auth.middleware.js:10-21 | the header's second piece when it is truthy, else the cookie when truthy, else nothing; the token is never empty |
| Middleware.BearerHeaderWins | src/middlewares/auth.middleware.js:11-13 | a header "Bearer t" (t non-empty, no space) yields exactly t, whatever the cookie |
| Middleware.HeaderWithoutTokenFallsBack | src/middlewares/auth.middleware.js:11-18 | a header not starting with "Bearer", or without a space, is ignored in favour of the cookie |
| Middleware.Authenticate | src/middlewares/auth.middleware.js:6-42 | no token, a failed verification, or no active unexpired session: 401 with the source's message and `req.user` untouched; otherwise `req.user` is {id, sessionToken} from the claims and `next` is called |
| Middleware.ValidateCsrf | src/middlewares/auth.middleware.js:45-64 | missing header or invalid token: 403 and no row deleted; no `req.user`: the error goes to `next`; a valid token is deleted, so it validates for nobody, before `next` |
| Middleware.CsrfTokenIsSingleUse | src/middlewares/auth.middleware.js:52-60 | when a request passes with a CSRF token, a second request with the same token gets 403 "Invalid CSRF token" |
| Validation.Trim | src/validations/auth.validation.js:5 | the slice of the input left after cutting JavaScript whitespace at both ends; it starts and ends with non-whitespace; empty exactly when the input is all whitespace |
| Validation.TrimIdempotent | src/validations/auth.validation.js:5 | trimming twice equals trimming once |
| Validation.TrimUnchanged | src/validations/auth.validation.js:5 | a value with no whitespace at either end is its own trim |
| Validation.PatternIsPolicy | src/validations/auth.validation.js:18 | the regex, lookaheads included, accepts exactly the passwords of eight or more allowed characters with one of each class |
| Validation.UsernameErrors | src/validations/auth.validation.js:4-7 | no error exactly when the trimmed username has 3 to 20 characters; an empty one gets both messages |
| Validation.EmailErrors | src/validations/auth.validation.js:9-12 | no error exactly when the trimmed email is non-empty and of email form |
| Validation.StrongPasswordErrors | src/validations/auth.validation.js:14-19 | no error exactly when the trimmed password meets the policy; all errors name the field |
| Validation.ValidateRegister | src/validations/auth.validation.js:3-20 | no error exactly when the username, email and password rules all hold |
| Validation.ValidateLogin | src/validations/auth.validation.js:22-31 | no error exactly when the email rule holds and the trimmed password is non-empty |
| Validation.ValidatePasswordReset | src/validations/auth.validation.js:33-44 | no error exactly when the trimmed token is non-empty and the trimmed new password meets the registration policy |
| Validation.RegisterPasswordPassesLoginAndReset | src/validations/auth.validation.js:14-43 | a password registration accepts is accepted by login and as a reset password |
| Validation.ForeignCharacterRejected | src/validations/auth.validation.js:18 | a character outside letters, digits and @$!%*?& in the trimmed password makes registration fail |

## Left out

- bcrypt `genSalt`, `hash` and `compare` are parameters. Cost factors and timing are not modelled.
- `jwt.sign` and `jwt.verify` are parameters. The token's expiry (`JWT_EXPIRES_IN`) lives inside `verify`.
- `crypto.randomBytes` is a parameter. Its 32 bytes are taken to be fresh: every method that mints a token requires that no row of its table already carries the hex rendering of those bytes. Collisions of 256-bit random values are therefore not modelled. `Tokens.HexInjective` shows that bytes never drawn before give a token never seen before.
- The clock is the parameter `now`, in milliseconds. MySQL's DATETIME rounding to seconds is not modelled, nor time zones between `Date` and `NOW()`.
- `isEmail` is a parameter.
- Auth.AuthService.Login and every other service method (`Register`, `Logout`, `GeneratePasswordResetToken`, `ResetPassword`, `GenerateCsrfToken`, `ValidateCsrfToken`): the service invariant `AuthService.Valid()` is a precondition of all of them. It requires every account whose counter has reached 5 to be locked, and each method keeps it. So no service operation is modelled on an unlocked row with a counter of 5 or more, which a manual unlock that keeps the counter would leave behind, and so would the header-less login described next. Neither is part of this model. The source would accept that row and lock it again on the next failure.
- Auth.AuthService.Login: the user agent is a string here, so a login whose request has no User-Agent header is not modelled. The controller (`auth.controller.js:30`) then passes `undefined`, which the MySQL driver refuses as a bind value. The effects would be as follows:
  - Unknown email: `recordLogin` fails, so the login fails with that driver error instead of "Invalid credentials".
  - Wrong password: `updateLoginAttempts` has already committed old + 1 when `recordLogin` fails, so `lockAccount` never runs. Repeated header-less wrong passwords leave the counter at 5 or more on an unlocked account. That breaks the lockout invariant above, and the account locks only after a failed login that does carry the header.
- Concurrency and asynchrony are not modelled; each operation runs to completion alone. This misses the stale read-then-write of the failed-attempt counter, the non-atomic three-step reset, and database errors surfacing mid-operation.
- The MySQL schema is not part of the model. The column defaults the INSERTs rely on are taken as 0 attempts, unlocked, unused, active, a NULL last login, and a `login_history.created_at` equal to the insertion time, which `RecordLogin` stores as `now`. No UNIQUE constraint on email is assumed: `findByEmail` takes the first row.
- Users.FindByEmail, Sessions.FindByToken, ResetTokens.FindByToken and CsrfTokens.IsValid compare text columns with exact, case-sensitive equality, as under a binary collation. The source does not name a collation. Under MySQL's default case-insensitive (`_ci`) collations, the model departs from the source in three ways:
  - "Alice@X.com" would find the row "alice@x.com". `login` would then check the password, and `generatePasswordResetToken` would issue a token. Here both treat the email as unknown.
  - An upper-cased hex token would find its session, reset row or CSRF row.
  - The same goes for the `WHERE token = ?` and `WHERE session_token = ?` clauses of the UPDATE and DELETE statements.
- Rows come back in table order: `rows[0]` is the first match. `ORDER BY created_at DESC` keeps table order among equal timestamps, which is one of the orders MySQL may return.
- Middleware.Authenticate: a failure of the session lookup itself (a database error), which the source also answers with 401 "Not authorized, token failed", is not modelled; neither is a decoded payload lacking `id` or `sessionToken`.
- Validation.UsernameErrors and Validation.StrongPasswordErrors: the length checks (3 to 20 for a username, at least 8 for a password) count every code point. validator.js's `isLength` counts a surrogate pair as one character, as Dafny does. Some validator.js versions also skip the presentation selectors U+FE0E and U+FE0F, and that is not modelled: "ab" followed by U+FE0F has length 3 here but 2 there. A password such as "Abc1@xy" followed by U+FE0F is rejected either way, by the character-class rule, but there it also gets the too-short message. A password that is accepted has only ASCII characters, so its length is the same under both.
- Validation: error entries keep only the field and message. express-validator's `type`, `value` and `location` are left out, as are non-string bodies. A missing field is the empty string.
- The trimmed values that the sanitizers hand on to the controller are not modelled. The controller (`auth.controller.js`) is not part of this model.
- Routes, the rate limiter, the error handler, the logger and the server start-up are not part of this model.

## Findings

| source | as written | input that shows it | evidently intended | confidence | as-written member | corrected member |
|---|---|---|---|---|---|---|
| src/services/auth.service.js:86 | `resetPassword` calls `User.updatePassword`, which `User.model.js` does not define. Once a usable token is found, the call throws a TypeError before any write, so the password is never changed, the token is not marked used and no session is revoked. | a reset-token row for user 7 with token "ab", unused, expiring at 3600000; reset at time 0 | set that user's password hash and salt, then mark the token used and deactivate the user's sessions | high, not executed | Auth.ResetPasswordAsWritten, Auth.AuthService.ResetPasswordAsWrittenOnTables, Auth.ResetAsWrittenRefusesAValidToken | Auth.AuthService.ResetPassword (with Users.UserTable.UpdatePassword) |
