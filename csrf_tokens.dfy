/** The `csrf_tokens` table and the statements `CsrfToken.model.js` runs on it. */
module CsrfTokens {
  import opened Common
  import opened Tokens

  datatype CsrfRow = CsrfRow(id: nat, userId: nat, token: string, expiresAt: int)

  /** The filter of `validate`: `user_id = ? AND token = ? AND expires_at > NOW()`. */
  predicate Matches(r: CsrfRow, userId: nat, token: string, now: int) {
    r.userId == userId && r.token == token && r.expiresAt > now
  }

  /** `validate`: true exactly when some unexpired row binds that token to that
      user; a token held by another user, or an expired one, does not validate. */
  function IsValid(rows: seq<CsrfRow>, userId: nat, token: string, now: int): (valid: bool)
    ensures valid <==> exists i :: 0 <= i < |rows| && Matches(rows[i], userId, token, now)
  {
    var found := Filter(rows, (r: CsrfRow) => Matches(r, userId, token, now));
    assert found != [] ==> found[0] in found;
    assert (exists i :: 0 <= i < |rows| && Matches(rows[i], userId, token, now)) ==> found != [] by {
      if exists i :: 0 <= i < |rows| && Matches(rows[i], userId, token, now) {
        var i :| 0 <= i < |rows| && Matches(rows[i], userId, token, now);
        assert rows[i] in found;
      }
    }
    |found| > 0
  }

  /** A token no earlier row carries, once inserted for a user, validates for
      that user alone, and only until its expiry. */
  lemma FreshTokenValidatesOnlyForOwner(rows: seq<CsrfRow>, r: CsrfRow, userId: nat, now: int)
    requires forall i :: 0 <= i < |rows| ==> rows[i].token != r.token
    ensures IsValid(rows + [r], userId, r.token, now) <==> userId == r.userId && now < r.expiresAt
  {
    var all := rows + [r];
    assert all[|rows|] == r;
    if IsValid(all, userId, r.token, now) {
      var i :| 0 <= i < |all| && Matches(all[i], userId, r.token, now);
      assert i == |rows|;
    }
  }

  /** `DELETE FROM csrf_tokens WHERE token = ?` */
  function WithoutToken(rows: seq<CsrfRow>, token: string): (r: seq<CsrfRow>)
    ensures forall x :: x in r <==> x in rows && x.token != token
  {
    Filter(rows, (r: CsrfRow) => r.token != token)
  }

  /** `DELETE FROM csrf_tokens WHERE expires_at <= NOW()` */
  function Unexpired(rows: seq<CsrfRow>, now: int): (r: seq<CsrfRow>)
    ensures forall x :: x in r <==> x in rows && x.expiresAt > now
  {
    Filter(rows, (r: CsrfRow) => r.expiresAt > now)
  }

  /** After `delete(token)` that token validates for nobody, at any time, while
      every other token validates exactly as before. */
  lemma DeleteRevokes(rows: seq<CsrfRow>, token: string)
    ensures forall u, now :: !IsValid(WithoutToken(rows, token), u, token, now)
    ensures forall u, t, now :: t != token ==>
      IsValid(WithoutToken(rows, token), u, t, now) == IsValid(rows, u, t, now)
  {
    var after := WithoutToken(rows, token);
    forall u, t, now | t != token && IsValid(rows, u, t, now)
      ensures IsValid(after, u, t, now)
    {
      var i :| 0 <= i < |rows| && Matches(rows[i], u, t, now);
      assert rows[i] in after;
    }
  }

  /** Sweeping the rows expired at `now` changes no `validate` result at `now`
      or later. */
  lemma SweepPreservesValidity(rows: seq<CsrfRow>, now: int)
    ensures forall u, t, later :: now <= later ==>
      IsValid(Unexpired(rows, now), u, t, later) == IsValid(rows, u, t, later)
  {
    var after := Unexpired(rows, now);
    forall u, t, later | now <= later && IsValid(rows, u, t, later)
      ensures IsValid(after, u, t, later)
    {
      var i :| 0 <= i < |rows| && Matches(rows[i], u, t, later);
      assert rows[i] in after;
    }
  }

  /** The `csrf_tokens` table: rows in insertion order and the next id. */
  class CsrfTokenTable {
    var rows: seq<CsrfRow>
    var nextId: nat

    ghost predicate Valid()
      reads this
    {
      IdsIncreasing(rows, (r: CsrfRow) => r.id, nextId)
    }

    constructor ()
      ensures Valid() && rows == [] && nextId == 1
    {
      rows := [];
      nextId := 1;
    }

    /** `create`: inserts one row binding a token rendered from 32 random bytes
        to the user, with the given expiry; returns its id and token. */
    method Create(userId: nat, expiresAt: int, randomBytes: seq<Byte>) returns (id: nat, token: string)
      requires Valid()
      requires |randomBytes| == TokenBytes
      requires forall i :: 0 <= i < |rows| ==> rows[i].token != TokenFromBytes(randomBytes)
      modifies this
      ensures Valid()
      ensures id == old(nextId) && nextId == id + 1
      ensures token == TokenFromBytes(randomBytes) && |token| == 64
      ensures rows == old(rows) + [CsrfRow(id, userId, token, expiresAt)]
      ensures forall u, now :: IsValid(rows, u, token, now) <==> u == userId && now < expiresAt
    {
      token := TokenFromBytes(randomBytes);
      id := nextId;
      var row := CsrfRow(id, userId, token, expiresAt);
      forall u, now ensures IsValid(rows + [row], u, token, now) <==> u == userId && now < expiresAt {
        FreshTokenValidatesOnlyForOwner(rows, row, u, now);
      }
      rows := rows + [row];
      nextId := nextId + 1;
    }

    /** `delete`: removes every row with that token, keeps all others in order. */
    method Delete(token: string)
      requires Valid()
      modifies this
      ensures Valid() && nextId == old(nextId)
      ensures rows == WithoutToken(old(rows), token)
      ensures forall x :: multiset(rows)[x] == if x.token != token then multiset(old(rows))[x] else 0
      ensures forall u, now :: !IsValid(rows, u, token, now)
      ensures forall u, t, now :: t != token ==> IsValid(rows, u, t, now) == old(IsValid(rows, u, t, now))
    {
      DeleteRevokes(rows, token);
      FilterKeepsIncreasing(rows, (r: CsrfRow) => r.token != token, (r: CsrfRow) => r.id);
      rows := WithoutToken(rows, token);
    }

    /** `deleteExpired`: removes exactly the rows with expires_at <= now, keeps all
        others in order, and changes no `validate` result from now on. */
    method DeleteExpired(now: int)
      requires Valid()
      modifies this
      ensures Valid() && nextId == old(nextId)
      ensures rows == Unexpired(old(rows), now)
      ensures forall x :: multiset(rows)[x] == if x.expiresAt > now then multiset(old(rows))[x] else 0
      ensures forall u, t, later :: now <= later ==> IsValid(rows, u, t, later) == old(IsValid(rows, u, t, later))
    {
      SweepPreservesValidity(rows, now);
      FilterKeepsIncreasing(rows, (r: CsrfRow) => r.expiresAt > now, (r: CsrfRow) => r.id);
      rows := Unexpired(rows, now);
    }
  }
}
