/** The request-authentication decisions of `auth.middleware.js`:
    `authenticate` picks the credential from the Authorization header or the
    `authToken` cookie and admits the request only through an active,
    unexpired session; `validateCsrf` admits a request once per CSRF token.
    `jwt.verify` is a parameter that yields the claims or fails. */
module Middleware {
  import opened Common
  import Sessions
  import CsrfTokens

  /** JavaScript's `s.split(sep)` for a one-character separator: the pieces
      between separators, always at least one. */
  function Split(s: string, sep: char): (pieces: seq<string>)
    ensures |pieces| >= 1
    ensures forall i :: 0 <= i < |pieces| ==> sep !in pieces[i]
  {
    if |s| == 0 then [[]]
    else
      var rest := Split(s[1..], sep);
      if s[0] == sep then [[]] + rest
      else [[s[0]] + rest[0]] + rest[1..]
  }

  /** `pieces.join(sep)`. */
  function Join(pieces: seq<string>, sep: char): string
    requires |pieces| >= 1
  {
    if |pieces| == 1 then pieces[0] else pieces[0] + [sep] + Join(pieces[1..], sep)
  }

  /** Joining the pieces back gives the header that was split. */
  lemma {:induction false} JoinSplit(s: string, sep: char)
    ensures Join(Split(s, sep), sep) == s
  {
    if |s| > 0 {
      var rest := Split(s[1..], sep);
      JoinSplit(s[1..], sep);
      if s[0] != sep {
        var pieces := [[s[0]] + rest[0]] + rest[1..];
        assert pieces[1..] == rest[1..];
        if |rest| == 1 {
          assert Join(pieces, sep) == [s[0]] + rest[0];
        } else {
          assert Join(pieces, sep) == [s[0]] + (rest[0] + [sep] + Join(rest[1..], sep));
        }
        assert s == [s[0]] + s[1..];
      }
    }
  }

  /** `s + [sep] + t` splits at the separator when `s` holds none. */
  lemma {:induction false} SplitAtFirstSeparator(s: string, t: string, sep: char)
    requires sep !in s
    ensures Split(s + [sep] + t, sep) == [s] + Split(t, sep)
  {
    if |s| == 0 {
      assert s + [sep] + t == [sep] + t;
      assert ([sep] + t)[1..] == t;
    } else {
      assert (s + [sep] + t)[0] == s[0];
      assert (s + [sep] + t)[1..] == s[1..] + [sep] + t;
      SplitAtFirstSeparator(s[1..], t, sep);
      assert [s[0]] + s[1..] == s;
    }
  }

  /** A string without the separator is a single piece. */
  lemma {:induction false} SplitWithoutSeparator(s: string, sep: char)
    requires sep !in s
    ensures Split(s, sep) == [s]
  {
    if |s| > 0 {
      SplitWithoutSeparator(s[1..], sep);
      assert [s[0]] + s[1..] == s;
    }
  }

  predicate StartsWith(s: string, prefix: string) {
    |prefix| <= |s| && s[..|prefix|] == prefix
  }

  /** `req.headers.authorization.split(' ')[1]` when the header is present and
      starts with "Bearer"; `undefined` when that piece does not exist. */
  function HeaderToken(authorization: Option<string>): Option<string> {
    if authorization.Some? && authorization.value != "" && StartsWith(authorization.value, "Bearer") then
      var pieces := Split(authorization.value, ' ');
      if |pieces| >= 2 then Some(pieces[1]) else None
    else None
  }

  /** A JavaScript value that is truthy: a string that is present and not empty. */
  predicate Truthy(v: Option<string>) {
    v.Some? && v.value != ""
  }

  /** The token `authenticate` works with: the header's, unless that is missing
      or empty, in which case the cookie's; none when neither is truthy. */
  function SelectToken(authorization: Option<string>, authTokenCookie: Option<string>): (token: Option<string>)
    ensures token.None? <==> !Truthy(HeaderToken(authorization)) && !Truthy(authTokenCookie)
    ensures token.Some? ==> token.value != ""
    ensures Truthy(HeaderToken(authorization)) ==> token == HeaderToken(authorization)
    ensures !Truthy(HeaderToken(authorization)) ==> token.Some? ==> token == authTokenCookie
  {
    var fromHeader := HeaderToken(authorization);
    if Truthy(fromHeader) then fromHeader
    else if Truthy(authTokenCookie) then authTokenCookie
    else None
  }

  /** A well-formed `Bearer <token>` header yields exactly that token, whatever
      the cookie holds. */
  lemma BearerHeaderWins(t: string, authTokenCookie: Option<string>)
    requires t != "" && ' ' !in t
    ensures SelectToken(Some("Bearer " + t), authTokenCookie) == Some(t)
  {
    SplitWithoutSeparator(t, ' ');
    SplitAtFirstSeparator("Bearer", t, ' ');
    assert "Bearer " + t == "Bearer" + [' '] + t;
    assert ("Bearer " + t)[..6] == "Bearer";
  }

  /** A header that does not start with "Bearer" is ignored, and so is a bare
      "Bearer" with no second piece: the cookie decides. */
  lemma HeaderWithoutTokenFallsBack(authorization: string, authTokenCookie: Option<string>)
    requires !StartsWith(authorization, "Bearer") || ' ' !in authorization
    ensures SelectToken(Some(authorization), authTokenCookie) == SelectToken(None, authTokenCookie)
  {
    if ' ' !in authorization {
      SplitWithoutSeparator(authorization, ' ');
    }
  }

  /** What `authenticate` puts into `req.user`. */
  datatype RequestUser = RequestUser(id: nat, sessionToken: string)

  /** How a middleware ends: `next()`, `next(err)`, or a response. */
  datatype Outcome = Next | NextWithError | Respond(status: nat, message: string)

  /** The parts of an Express request the middleware reads, and `req.user`,
      which `authenticate` sets. */
  class Request {
    const authorization: Option<string>
    const authTokenCookie: Option<string>
    const csrfHeader: Option<string>
    var user: Option<RequestUser>

    constructor (authorization: Option<string>, authTokenCookie: Option<string>,
                 csrfHeader: Option<string>, user: Option<RequestUser>)
      ensures this.authorization == authorization && this.authTokenCookie == authTokenCookie
      ensures this.csrfHeader == csrfHeader && this.user == user
    {
      this.authorization := authorization;
      this.authTokenCookie := authTokenCookie;
      this.csrfHeader := csrfHeader;
      this.user := user;
    }
  }

  /** `authenticate`. No token: 401 and `next` is not called. A token that does
      not verify: 401. A verified token whose session is not active and
      unexpired: 401. Otherwise `req.user` is set to the id and session token
      of the verified claims and `next` is called. `req.user` changes only on
      success. */
  method Authenticate(req: Request, sessions: Sessions.SessionTable, verify: string -> Option<Claims>, now: int)
    returns (out: Outcome)
    modifies req
    ensures var token := SelectToken(req.authorization, req.authTokenCookie);
      token.None? ==> out == Respond(401, "Not authorized, no token")
    ensures var token := SelectToken(req.authorization, req.authTokenCookie);
      token.Some? && verify(token.value).None? ==> out == Respond(401, "Not authorized, token failed")
    ensures var token := SelectToken(req.authorization, req.authTokenCookie);
      token.Some? && verify(token.value).Some? ==>
        var claims := verify(token.value).value;
        if Sessions.FindByToken(sessions.rows, claims.sessionToken, now).None?
        then out == Respond(401, "Session expired or invalid")
        else out == Next && req.user == Some(RequestUser(claims.id, claims.sessionToken))
    ensures out != Next ==> req.user == old(req.user)
  {
    var token := SelectToken(req.authorization, req.authTokenCookie);
    if token.None? {
      return Respond(401, "Not authorized, no token");
    }
    var decoded := verify(token.value);
    if decoded.None? {
      return Respond(401, "Not authorized, token failed");
    }
    var session := Sessions.FindByToken(sessions.rows, decoded.value.sessionToken, now);
    if session.None? {
      return Respond(401, "Session expired or invalid");
    }
    req.user := Some(RequestUser(decoded.value.id, decoded.value.sessionToken));
    out := Next;
  }

  /** `validateCsrf`. A missing header: 403. No `req.user`: the property read
      throws and the error goes to `next`. A token that does not validate for
      `req.user.id`: 403, and no row is deleted. Otherwise the token is deleted,
      so it validates for nobody afterwards, and `next` is called. */
  method ValidateCsrf(req: Request, csrfTokens: CsrfTokens.CsrfTokenTable, now: int) returns (out: Outcome)
    requires csrfTokens.Valid()
    modifies csrfTokens
    ensures csrfTokens.Valid() && csrfTokens.nextId == old(csrfTokens.nextId)
    ensures !Truthy(req.csrfHeader) ==>
      out == Respond(403, "CSRF token missing") && csrfTokens.rows == old(csrfTokens.rows)
    ensures Truthy(req.csrfHeader) && req.user.None? ==>
      out == NextWithError && csrfTokens.rows == old(csrfTokens.rows)
    ensures Truthy(req.csrfHeader) && req.user.Some? ==>
      var token := req.csrfHeader.value;
      if !CsrfTokens.IsValid(old(csrfTokens.rows), req.user.value.id, token, now)
      then out == Respond(403, "Invalid CSRF token") && csrfTokens.rows == old(csrfTokens.rows)
      else
        && out == Next
        && csrfTokens.rows == CsrfTokens.WithoutToken(old(csrfTokens.rows), token)
        && forall u, t :: !CsrfTokens.IsValid(csrfTokens.rows, u, token, t)
  {
    if !Truthy(req.csrfHeader) {
      return Respond(403, "CSRF token missing");
    }
    var csrfToken := req.csrfHeader.value;
    if req.user.None? {
      return NextWithError;
    }
    var isValid := CsrfTokens.IsValid(csrfTokens.rows, req.user.value.id, csrfToken, now);
    if !isValid {
      return Respond(403, "Invalid CSRF token");
    }
    csrfTokens.Delete(csrfToken);
    out := Next;
  }

  /** Two requests carrying the same CSRF token for the same user: if the first
      gets through, the second is refused with 403, however soon after. */
  method CsrfTokenIsSingleUse(first: Request, second: Request, csrfTokens: CsrfTokens.CsrfTokenTable,
                              now: int, later: int)
    returns (out1: Outcome, out2: Outcome)
    requires csrfTokens.Valid()
    requires Truthy(first.csrfHeader) && first.csrfHeader == second.csrfHeader
    requires first.user.Some? && first.user == second.user
    modifies csrfTokens
    ensures out1 == Next ==> out2 == Respond(403, "Invalid CSRF token")
  {
    out1 := ValidateCsrf(first, csrfTokens, now);
    out2 := ValidateCsrf(second, csrfTokens, later);
  }
}
