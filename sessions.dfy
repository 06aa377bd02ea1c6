/** The `sessions` table and the statements `Session.model.js` runs on it. */
module Sessions {
  import opened Common
  import opened Tokens

  /** One row of `sessions`; a new row is active (the column default). */
  datatype SessionRow = SessionRow(
    id: nat,
    userId: nat,
    sessionToken: string,
    ipAddress: string,
    userAgent: string,
    expiresAt: int,
    isActive: Bit)

  /** The filter of `findByToken`: `session_token = ? AND is_active = 1 AND expires_at > NOW()`. */
  predicate Usable(s: SessionRow, token: string, now: int) {
    s.sessionToken == token && s.isActive == 1 && s.expiresAt > now
  }

  /** `findByToken`: the first active, unexpired row with that token. A row that
      exists but is inactive or expired is treated exactly as a missing one. */
  function FindByToken(rows: seq<SessionRow>, token: string, now: int): (r: Option<SessionRow>)
    ensures r.Some? ==> r.value in rows && r.value.sessionToken == token
                        && r.value.isActive == 1 && r.value.expiresAt > now
    ensures r.None? <==> forall i :: 0 <= i < |rows| ==> !Usable(rows[i], token, now)
    ensures r.Some? ==> exists i :: 0 <= i < |rows| && rows[i] == r.value && Usable(rows[i], token, now)
                                    && forall j :: 0 <= j < i ==> !Usable(rows[j], token, now)
  {
    FirstMatch(rows, (s: SessionRow) => Usable(s, token, now))
  }

  /** A token no earlier row carries finds the row just inserted with it, and
      only until its expiry: from then on it is found nowhere. */
  lemma FreshTokenFindsNewRow(rows: seq<SessionRow>, s: SessionRow, now: int)
    requires forall i :: 0 <= i < |rows| ==> rows[i].sessionToken != s.sessionToken
    requires s.isActive == 1
    ensures FindByToken(rows + [s], s.sessionToken, now) == if now < s.expiresAt then Some(s) else None
  {
    var all := rows + [s];
    var r := FindByToken(all, s.sessionToken, now);
    assert all[|rows|] == s;
    if r.Some? {
      assert r.value !in rows;
    }
  }

  /** `UPDATE sessions SET is_active = 0 WHERE session_token = ?` */
  function Deactivated(rows: seq<SessionRow>, token: string): seq<SessionRow> {
    UpdateWhere(rows, (s: SessionRow) => s.sessionToken == token, (s: SessionRow) => s.(isActive := 0))
  }

  /** `UPDATE sessions SET is_active = 0 WHERE user_id = ?` */
  function DeactivatedForUser(rows: seq<SessionRow>, userId: nat): seq<SessionRow> {
    UpdateWhere(rows, (s: SessionRow) => s.userId == userId, (s: SessionRow) => s.(isActive := 0))
  }

  /** After `invalidate(token)` no lookup of that token succeeds, at any time,
      while every other token is looked up exactly as before. */
  lemma InvalidateRevokes(rows: seq<SessionRow>, token: string)
    ensures forall now :: FindByToken(Deactivated(rows, token), token, now).None?
    ensures forall t, now :: t != token ==>
      FindByToken(Deactivated(rows, token), t, now) == FindByToken(rows, t, now)
  {
    var after := Deactivated(rows, token);
    forall t, now | t != token
      ensures FindByToken(after, t, now) == FindByToken(rows, t, now)
    {
      FirstMatchAgrees(after, rows, (s: SessionRow) => Usable(s, t, now));
    }
  }

  /** `invalidate` is idempotent. */
  lemma InvalidateIdempotent(rows: seq<SessionRow>, token: string)
    ensures Deactivated(Deactivated(rows, token), token) == Deactivated(rows, token)
  {
    UpdateWhereIdempotent(rows, (s: SessionRow) => s.sessionToken == token, (s: SessionRow) => s.(isActive := 0));
  }

  /** After `invalidateAllForUser(userId)` no lookup yields a session of that
      user, and every session of another user is looked up exactly as before. */
  lemma InvalidateAllRevokesUser(rows: seq<SessionRow>, userId: nat)
    ensures forall t, now :: FindByToken(DeactivatedForUser(rows, userId), t, now).Some? ==>
      FindByToken(DeactivatedForUser(rows, userId), t, now).value.userId != userId
    ensures forall t, now :: FindByToken(rows, t, now).Some? && FindByToken(rows, t, now).value.userId != userId ==>
      FindByToken(DeactivatedForUser(rows, userId), t, now) == FindByToken(rows, t, now)
  {
    var after := DeactivatedForUser(rows, userId);
    forall t, now | FindByToken(rows, t, now).Some? && FindByToken(rows, t, now).value.userId != userId
      ensures FindByToken(after, t, now) == FindByToken(rows, t, now)
    {
      var s := FindByToken(rows, t, now).value;
      var k :| 0 <= k < |rows| && rows[k] == s && Usable(rows[k], t, now)
               && forall j :: 0 <= j < k ==> !Usable(rows[j], t, now);
      assert forall j :: 0 <= j < k ==> !Usable(after[j], t, now);
      assert after[k] == s && Usable(after[k], t, now);
      var r := FindByToken(after, t, now);
      var k' :| 0 <= k' < |after| && after[k'] == r.value && Usable(after[k'], t, now)
                && forall j :: 0 <= j < k' ==> !Usable(after[j], t, now);
      assert k' == k;
    }
  }

  /** The `sessions` table: its rows in insertion order and the next AUTO_INCREMENT id. */
  class SessionTable {
    var rows: seq<SessionRow>
    var nextId: nat

    ghost predicate Valid()
      reads this
    {
      IdsIncreasing(rows, (s: SessionRow) => s.id, nextId)
    }

    constructor ()
      ensures Valid() && rows == [] && nextId == 1
    {
      rows := [];
      nextId := 1;
    }

    /** `create`: stores one active row whose token is the hex rendering of the
        32 random bytes, and returns its id and token. */
    method Create(userId: nat, ipAddress: string, userAgent: string, expiresAt: int, randomBytes: seq<Byte>)
      returns (id: nat, sessionToken: string)
      requires Valid()
      requires |randomBytes| == TokenBytes
      requires forall i :: 0 <= i < |rows| ==> rows[i].sessionToken != TokenFromBytes(randomBytes)
      modifies this
      ensures Valid()
      ensures id == old(nextId) && nextId == id + 1
      ensures sessionToken == TokenFromBytes(randomBytes) && |sessionToken| == 64
      ensures rows == old(rows) + [SessionRow(id, userId, sessionToken, ipAddress, userAgent, expiresAt, 1)]
      ensures forall now :: FindByToken(rows, sessionToken, now) ==
                (if now < expiresAt then Some(SessionRow(id, userId, sessionToken, ipAddress, userAgent, expiresAt, 1)) else None)
    {
      sessionToken := TokenFromBytes(randomBytes);
      id := nextId;
      var row := SessionRow(id, userId, sessionToken, ipAddress, userAgent, expiresAt, 1);
      forall now ensures FindByToken(rows + [row], sessionToken, now) == if now < expiresAt then Some(row) else None {
        FreshTokenFindsNewRow(rows, row, now);
      }
      rows := rows + [row];
      nextId := nextId + 1;
    }

    /** `invalidate`: deactivates the rows with that token and no others. */
    method Invalidate(token: string)
      requires Valid()
      modifies this
      ensures Valid() && nextId == old(nextId)
      ensures rows == Deactivated(old(rows), token)
      ensures |rows| == |old(rows)|
      ensures forall i :: 0 <= i < |rows| ==>
        rows[i] == if old(rows)[i].sessionToken == token then old(rows)[i].(isActive := 0) else old(rows)[i]
      ensures forall now :: FindByToken(rows, token, now).None?
      ensures forall t, now :: t != token ==> FindByToken(rows, t, now) == old(FindByToken(rows, t, now))
    {
      InvalidateRevokes(rows, token);
      rows := Deactivated(rows, token);
    }

    /** `invalidateAllForUser`: deactivates every session of that user, and only those. */
    method InvalidateAllForUser(userId: nat)
      requires Valid()
      modifies this
      ensures Valid() && nextId == old(nextId)
      ensures rows == DeactivatedForUser(old(rows), userId)
      ensures forall i :: 0 <= i < |rows| && rows[i].userId == userId ==> rows[i].isActive == 0
      ensures forall i :: 0 <= i < |rows| && rows[i].userId != userId ==> rows[i] == old(rows)[i]
      ensures forall t, now :: FindByToken(rows, t, now).Some? ==> FindByToken(rows, t, now).value.userId != userId
    {
      InvalidateAllRevokesUser(rows, userId);
      rows := DeactivatedForUser(rows, userId);
    }
  }
}
