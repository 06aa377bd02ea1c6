/** The `password_reset_tokens` table and the statements
    `PasswordResetToken.model.js` runs on it. */
module ResetTokens {
  import opened Common
  import opened Tokens

  /** One row of `password_reset_tokens`; a new row is unused (the column default). */
  datatype ResetTokenRow = ResetTokenRow(id: nat, userId: nat, token: string, expiresAt: int, isUsed: Bit)

  /** The filter of `findByToken`: `token = ? AND is_used = 0 AND expires_at > NOW()`. */
  predicate Usable(r: ResetTokenRow, token: string, now: int) {
    r.token == token && r.isUsed == 0 && r.expiresAt > now
  }

  /** `findByToken`: the first unused, unexpired row with that token. */
  function FindByToken(rows: seq<ResetTokenRow>, token: string, now: int): (r: Option<ResetTokenRow>)
    ensures r.Some? ==> r.value in rows && r.value.token == token
                        && r.value.isUsed == 0 && r.value.expiresAt > now
    ensures r.None? <==> forall i :: 0 <= i < |rows| ==> !Usable(rows[i], token, now)
  {
    FirstMatch(rows, (r: ResetTokenRow) => Usable(r, token, now))
  }

  /** A token no earlier row carries finds the row just inserted with it, and
      only until its expiry: from then on it is found nowhere. */
  lemma FreshTokenFindsNewRow(rows: seq<ResetTokenRow>, r: ResetTokenRow, now: int)
    requires forall i :: 0 <= i < |rows| ==> rows[i].token != r.token
    requires r.isUsed == 0
    ensures FindByToken(rows + [r], r.token, now) == if now < r.expiresAt then Some(r) else None
  {
    var all := rows + [r];
    var found := FindByToken(all, r.token, now);
    assert all[|rows|] == r;
    if found.Some? {
      assert found.value !in rows;
    }
  }

  /** `UPDATE password_reset_tokens SET is_used = 1 WHERE token = ?` */
  function MarkedUsed(rows: seq<ResetTokenRow>, token: string): seq<ResetTokenRow> {
    UpdateWhere(rows, (r: ResetTokenRow) => r.token == token, (r: ResetTokenRow) => r.(isUsed := 1))
  }

  /** A token marked used is never found again, even before it expires, while
      every other token is looked up exactly as before; marking twice is
      marking once. */
  lemma MarkUsedRevokes(rows: seq<ResetTokenRow>, token: string)
    ensures forall now :: FindByToken(MarkedUsed(rows, token), token, now).None?
    ensures forall t, now :: t != token ==>
      FindByToken(MarkedUsed(rows, token), t, now) == FindByToken(rows, t, now)
    ensures MarkedUsed(MarkedUsed(rows, token), token) == MarkedUsed(rows, token)
  {
    UpdateWhereIdempotent(rows, (r: ResetTokenRow) => r.token == token, (r: ResetTokenRow) => r.(isUsed := 1));
    var after := MarkedUsed(rows, token);
    forall t, now | t != token
      ensures FindByToken(after, t, now) == FindByToken(rows, t, now)
    {
      FirstMatchAgrees(after, rows, (r: ResetTokenRow) => Usable(r, t, now));
    }
  }

  /** The `password_reset_tokens` table: rows in insertion order and the next id. */
  class ResetTokenTable {
    var rows: seq<ResetTokenRow>
    var nextId: nat

    ghost predicate Valid()
      reads this
    {
      IdsIncreasing(rows, (r: ResetTokenRow) => r.id, nextId)
    }

    constructor ()
      ensures Valid() && rows == [] && nextId == 1
    {
      rows := [];
      nextId := 1;
    }

    /** `create`: inserts one unused row for the user with the given expiry and
        a token rendered from 32 random bytes; returns its id and token. */
    method Create(userId: nat, expiresAt: int, randomBytes: seq<Byte>) returns (id: nat, token: string)
      requires Valid()
      requires |randomBytes| == TokenBytes
      requires forall i :: 0 <= i < |rows| ==> rows[i].token != TokenFromBytes(randomBytes)
      modifies this
      ensures Valid()
      ensures id == old(nextId) && nextId == id + 1
      ensures token == TokenFromBytes(randomBytes) && |token| == 64
      ensures rows == old(rows) + [ResetTokenRow(id, userId, token, expiresAt, 0)]
      ensures forall now :: FindByToken(rows, token, now) ==
                (if now < expiresAt then Some(ResetTokenRow(id, userId, token, expiresAt, 0)) else None)
    {
      token := TokenFromBytes(randomBytes);
      id := nextId;
      var row := ResetTokenRow(id, userId, token, expiresAt, 0);
      forall now ensures FindByToken(rows + [row], token, now) == if now < expiresAt then Some(row) else None {
        FreshTokenFindsNewRow(rows, row, now);
      }
      rows := rows + [row];
      nextId := nextId + 1;
    }

    /** `markAsUsed`: sets is_used on the rows with that token and no others. */
    method MarkAsUsed(token: string)
      requires Valid()
      modifies this
      ensures Valid() && nextId == old(nextId)
      ensures rows == MarkedUsed(old(rows), token)
      ensures |rows| == |old(rows)|
      ensures forall i :: 0 <= i < |rows| ==>
        rows[i] == if old(rows)[i].token == token then old(rows)[i].(isUsed := 1) else old(rows)[i]
      ensures forall now :: FindByToken(rows, token, now).None?
      ensures forall t, now :: t != token ==> FindByToken(rows, t, now) == old(FindByToken(rows, t, now))
    {
      MarkUsedRevokes(rows, token);
      rows := MarkedUsed(rows, token);
    }
  }
}
