/** The `users` table and the statements `User.model.js` runs on it. */
module Users {
  import opened Common

  /** One row of `users`. A new row has no failed attempts, is not locked and has
      never logged in (the column defaults the INSERT relies on). */
  datatype UserRow = UserRow(
    id: nat,
    username: string,
    email: string,
    passwordHash: string,
    salt: string,
    failedLoginAttempts: nat,
    isLocked: Bit,
    lastLogin: Option<int>)

  /** `findByEmail`: the first row with that email, or none (`undefined`). */
  function FindByEmail(rows: seq<UserRow>, email: string): (r: Option<UserRow>)
    ensures r.None? <==> forall i :: 0 <= i < |rows| ==> rows[i].email != email
    ensures r.Some? ==>
      exists i :: 0 <= i < |rows| && rows[i] == r.value && rows[i].email == email
                  && forall j :: 0 <= j < i ==> rows[j].email != email
  {
    FirstMatch(rows, (u: UserRow) => u.email == email)
  }

  /** `findById`: the first row with that id, or none (`undefined`). */
  function FindById(rows: seq<UserRow>, id: nat): (r: Option<UserRow>)
    ensures r.None? <==> forall i :: 0 <= i < |rows| ==> rows[i].id != id
    ensures r.Some? ==> r.value in rows && r.value.id == id
  {
    FirstMatch(rows, (u: UserRow) => u.id == id)
  }

  /** With distinct ids, a row of the table is the only row carrying its id. */
  lemma OnlyRowWithItsId(rows: seq<UserRow>, nextId: nat, u: UserRow)
    requires IdsIncreasing(rows, (u: UserRow) => u.id, nextId)
    requires u in rows
    ensures forall i :: 0 <= i < |rows| && rows[i].id == u.id ==> rows[i] == u
  {
    var k :| 0 <= k < |rows| && rows[k] == u;
    forall i | 0 <= i < |rows| && rows[i].id == u.id ensures rows[i] == u {
      assert i == k;
    }
  }

  /** `UPDATE users SET failed_login_attempts = ? WHERE id = ?` */
  function WithFailedAttempts(rows: seq<UserRow>, id: nat, attempts: nat): seq<UserRow> {
    UpdateWhere(rows, (u: UserRow) => u.id == id, (u: UserRow) => u.(failedLoginAttempts := attempts))
  }

  /** `UPDATE users SET last_login = NOW(), failed_login_attempts = 0 WHERE id = ?` */
  function WithLastLogin(rows: seq<UserRow>, id: nat, now: int): seq<UserRow> {
    UpdateWhere(rows, (u: UserRow) => u.id == id,
                (u: UserRow) => u.(lastLogin := Some(now), failedLoginAttempts := 0))
  }

  /** `UPDATE users SET is_locked = 1 WHERE id = ?` */
  function WithLock(rows: seq<UserRow>, id: nat): seq<UserRow> {
    UpdateWhere(rows, (u: UserRow) => u.id == id, (u: UserRow) => u.(isLocked := 1))
  }

  /** Setting the password hash and salt of one user (the effect of the
      `updatePassword` the service calls). */
  function WithPassword(rows: seq<UserRow>, id: nat, passwordHash: string, salt: string): seq<UserRow> {
    UpdateWhere(rows, (u: UserRow) => u.id == id, (u: UserRow) => u.(passwordHash := passwordHash, salt := salt))
  }

  /** Every row carrying `id` replaced by `v`. */
  function ReplaceById(rows: seq<UserRow>, id: nat, v: UserRow): seq<UserRow> {
    UpdateWhere(rows, (u: UserRow) => u.id == id, (u: UserRow) => v)
  }

  /** Locking twice is locking once, and locking a locked account changes nothing. */
  lemma LockIdempotent(rows: seq<UserRow>, id: nat)
    ensures WithLock(WithLock(rows, id), id) == WithLock(rows, id)
    ensures (forall i :: 0 <= i < |rows| && rows[i].id == id ==> rows[i].isLocked == 1) ==>
            WithLock(rows, id) == rows
  {
    var p, f := (u: UserRow) => u.id == id, (u: UserRow) => u.(isLocked := 1);
    UpdateWhereIdempotent(rows, p, f);
    if forall i :: 0 <= i < |rows| && rows[i].id == id ==> rows[i].isLocked == 1 {
      UpdateWhereUnchanged(rows, p, f);
    }
  }

  /** With distinct ids, each single-user UPDATE replaces the one row of that
      user by that row with the new column values. */
  lemma UpdatesReplaceTheRow(rows: seq<UserRow>, nextId: nat, u: UserRow, attempts: nat, now: int)
    requires IdsIncreasing(rows, (u: UserRow) => u.id, nextId)
    requires u in rows
    ensures WithFailedAttempts(rows, u.id, attempts) == ReplaceById(rows, u.id, u.(failedLoginAttempts := attempts))
    ensures WithLock(WithFailedAttempts(rows, u.id, attempts), u.id)
            == ReplaceById(rows, u.id, u.(failedLoginAttempts := attempts, isLocked := 1))
    ensures WithLastLogin(rows, u.id, now)
            == ReplaceById(rows, u.id, u.(lastLogin := Some(now), failedLoginAttempts := 0))
    ensures rows == ReplaceById(rows, u.id, u)
  {
    OnlyRowWithItsId(rows, nextId, u);
  }

  /** The `users` table: its rows in insertion order and the next AUTO_INCREMENT id. */
  class UserTable {
    var rows: seq<UserRow>
    var nextId: nat

    ghost predicate Valid()
      reads this
    {
      IdsIncreasing(rows, (u: UserRow) => u.id, nextId)
    }

    constructor ()
      ensures Valid() && rows == [] && nextId == 1
    {
      rows := [];
      nextId := 1;
    }

    /** `create`: inserts one row and returns its new id. */
    method Create(username: string, email: string, passwordHash: string, salt: string) returns (id: nat)
      requires Valid()
      modifies this
      ensures Valid()
      ensures id == old(nextId) && nextId == id + 1
      ensures forall i :: 0 <= i < |old(rows)| ==> old(rows)[i].id != id
      ensures rows == old(rows) + [UserRow(id, username, email, passwordHash, salt, 0, 0, None)]
    {
      id := nextId;
      rows := rows + [UserRow(id, username, email, passwordHash, salt, 0, 0, None)];
      nextId := nextId + 1;
    }

    /** `updateLoginAttempts`: sets the counter of that user; nothing else changes. */
    method UpdateLoginAttempts(userId: nat, attempts: nat)
      requires Valid()
      modifies this
      ensures Valid() && nextId == old(nextId)
      ensures rows == WithFailedAttempts(old(rows), userId, attempts)
      ensures |rows| == |old(rows)|
      ensures forall i :: 0 <= i < |rows| ==>
        rows[i] == if old(rows)[i].id == userId then old(rows)[i].(failedLoginAttempts := attempts) else old(rows)[i]
    {
      rows := WithFailedAttempts(rows, userId, attempts);
    }

    /** `updateLastLogin`: stamps last_login with now and resets the counter, for
        that user only. */
    method UpdateLastLogin(userId: nat, now: int)
      requires Valid()
      modifies this
      ensures Valid() && nextId == old(nextId)
      ensures rows == WithLastLogin(old(rows), userId, now)
      ensures |rows| == |old(rows)|
      ensures forall i :: 0 <= i < |rows| ==>
        rows[i] == if old(rows)[i].id == userId
                   then old(rows)[i].(lastLogin := Some(now), failedLoginAttempts := 0)
                   else old(rows)[i]
    {
      rows := WithLastLogin(rows, userId, now);
    }

    /** `lockAccount`: sets is_locked of that user; idempotent; nothing else changes. */
    method LockAccount(userId: nat)
      requires Valid()
      modifies this
      ensures Valid() && nextId == old(nextId)
      ensures rows == WithLock(old(rows), userId)
      ensures |rows| == |old(rows)|
      ensures forall i :: 0 <= i < |rows| ==>
        rows[i] == if old(rows)[i].id == userId then old(rows)[i].(isLocked := 1) else old(rows)[i]
      ensures (forall i :: 0 <= i < |old(rows)| && old(rows)[i].id == userId ==> old(rows)[i].isLocked == 1)
              ==> rows == old(rows)
    {
      LockIdempotent(rows, userId);
      rows := WithLock(rows, userId);
    }

    /** The `updatePassword` the service calls: sets the hash and salt of that user. */
    method UpdatePassword(userId: nat, passwordHash: string, salt: string)
      requires Valid()
      modifies this
      ensures Valid() && nextId == old(nextId)
      ensures rows == WithPassword(old(rows), userId, passwordHash, salt)
      ensures |rows| == |old(rows)|
      ensures forall i :: 0 <= i < |rows| ==>
        rows[i] == if old(rows)[i].id == userId
                   then old(rows)[i].(passwordHash := passwordHash, salt := salt)
                   else old(rows)[i]
    {
      rows := WithPassword(rows, userId, passwordHash, salt);
    }
  }
}
