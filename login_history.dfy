/** The append-only `login_history` table and the statements
    `LoginHistory.model.js` runs on it. */
module LoginHistory {
  import opened Common

  /** One row of `login_history`; `userId` is NULL for an unknown email, and
      `createdAt` is the insertion time (the column default). */
  datatype HistoryRow = HistoryRow(
    userId: Option<nat>,
    ipAddress: string,
    userAgent: string,
    success: Bit,
    createdAt: int)

  /** The `LIMIT` of `getUserLoginHistory` when the caller gives none. */
  const DefaultHistoryLimit: nat := 10

  /** `created_at DESC`: newest first. */
  ghost predicate NewestFirst(s: seq<HistoryRow>) {
    forall i, j :: 0 <= i < j < |s| ==> s[i].createdAt >= s[j].createdAt
  }

  /** `WHERE user_id = ?` with a user id: NULL rows never match. */
  function RowsOf(rows: seq<HistoryRow>, userId: nat): (r: seq<HistoryRow>)
    ensures forall x :: x in r <==> x in rows && x.userId == Some(userId)
  {
    Filter(rows, (h: HistoryRow) => h.userId == Some(userId))
  }

  /** Places `h` ahead of the first row that is not newer than it. */
  function InsertNewestFirst(h: HistoryRow, s: seq<HistoryRow>): (r: seq<HistoryRow>)
    requires NewestFirst(s)
    ensures |r| == |s| + 1
    ensures forall x :: x in r <==> x == h || x in s
    ensures multiset(r) == multiset(s) + multiset{h}
    ensures NewestFirst(r)
  {
    if |s| == 0 || h.createdAt >= s[0].createdAt then
      [h] + s
    else
      var rest := InsertNewestFirst(h, s[1..]);
      assert s == [s[0]] + s[1..];
      assert forall x :: x in rest ==> x.createdAt <= s[0].createdAt;
      [s[0]] + rest
  }

  /** `ORDER BY created_at DESC`. Rows with equal timestamps keep table order;
      MySQL leaves their order unspecified. */
  function SortNewestFirst(s: seq<HistoryRow>): (r: seq<HistoryRow>)
    ensures |r| == |s|
    ensures NewestFirst(r)
    ensures multiset(r) == multiset(s)
  {
    if |s| == 0 then []
    else
      assert s == [s[0]] + s[1..];
      InsertNewestFirst(s[0], SortNewestFirst(s[1..]))
  }

  /** The first `k` rows of a newest-first list are newest first, are drawn from
      the list, and are at least as new as every row left out. */
  lemma TakeNewest(sorted: seq<HistoryRow>, k: nat)
    requires NewestFirst(sorted) && k <= |sorted|
    ensures NewestFirst(sorted[..k])
    ensures multiset(sorted[..k]) <= multiset(sorted)
    ensures forall h :: h in sorted && h !in sorted[..k] ==>
              forall i :: 0 <= i < k ==> sorted[..k][i].createdAt >= h.createdAt
  {
    var r := sorted[..k];
    assert sorted == r + sorted[k..];
    assert multiset(sorted) == multiset(r) + multiset(sorted[k..]);
    forall h | h in sorted && h !in r
      ensures forall i :: 0 <= i < k ==> r[i].createdAt >= h.createdAt
    {
      var j :| 0 <= j < |sorted| && sorted[j] == h;
      assert j >= k;
    }
  }

  /** `getUserLoginHistory(userId, limit = 10)`:
      `SELECT * ... WHERE user_id = ? ORDER BY created_at DESC LIMIT ?`.
      It returns the `limit` newest rows of that user (all of them when there
      are fewer), newest first. */
  function GetUserLoginHistory(rows: seq<HistoryRow>, userId: nat, limit: nat := DefaultHistoryLimit)
    : (r: seq<HistoryRow>)
    ensures |r| == Min(limit, |RowsOf(rows, userId)|)
    ensures forall i :: 0 <= i < |r| ==> r[i] in rows && r[i].userId == Some(userId)
    ensures NewestFirst(r)
    ensures multiset(r) <= multiset(RowsOf(rows, userId))
    ensures forall h :: h in rows && h.userId == Some(userId) && h !in r ==>
              forall i :: 0 <= i < |r| ==> r[i].createdAt >= h.createdAt
  {
    var mine := RowsOf(rows, userId);
    var sorted := SortNewestFirst(mine);
    var k := Min(limit, |sorted|);
    TakeNewest(sorted, k);
    InSortedMeansMine(rows, userId, sorted, k);
    sorted[..k]
  }

  lemma InSortedMeansMine(rows: seq<HistoryRow>, userId: nat, sorted: seq<HistoryRow>, k: nat)
    requires multiset(sorted) == multiset(RowsOf(rows, userId)) && k <= |sorted|
    ensures forall i :: 0 <= i < k ==> sorted[i] in rows && sorted[i].userId == Some(userId)
    ensures forall h :: h in rows && h.userId == Some(userId) ==> h in sorted
  {
    forall i | 0 <= i < k ensures sorted[i] in rows && sorted[i].userId == Some(userId) {
      assert sorted[i] in multiset(sorted);
    }
    forall h | h in rows && h.userId == Some(userId) ensures h in sorted {
      assert h in multiset(RowsOf(rows, userId));
    }
  }

  /** Recording keeps every earlier row and never reorders them, so the history
      of a user only gains the newly recorded row. */
  lemma RecordAppendsOnlyToOwner(rows: seq<HistoryRow>, h: HistoryRow, userId: nat)
    ensures RowsOf(rows + [h], userId) == if h.userId == Some(userId) then RowsOf(rows, userId) + [h]
                                          else RowsOf(rows, userId)
  {
    FilterAppend(rows, h, (x: HistoryRow) => x.userId == Some(userId));
  }

  lemma {:induction false} FilterAppend<T(!new)>(s: seq<T>, x: T, p: T -> bool)
    ensures Filter(s + [x], p) == if p(x) then Filter(s, p) + [x] else Filter(s, p)
  {
    if |s| == 0 {
      assert Filter([x], p) == if p(x) then [x] + Filter([], p) else Filter([], p);
    } else {
      assert (s + [x])[0] == s[0];
      assert (s + [x])[1..] == s[1..] + [x];
      FilterAppend(s[1..], x, p);
    }
  }

  /** The `login_history` table: an append-only log in insertion order. */
  class HistoryTable {
    var rows: seq<HistoryRow>

    constructor ()
      ensures rows == []
    {
      rows := [];
    }

    /** `recordLogin`: appends exactly one row, storing success as 1 or 0;
        earlier rows are untouched. */
    method RecordLogin(userId: Option<nat>, ipAddress: string, userAgent: string, success: bool, now: int)
      modifies this
      ensures rows == old(rows) + [HistoryRow(userId, ipAddress, userAgent, if success then 1 else 0, now)]
      ensures rows[..|old(rows)|] == old(rows)
    {
      rows := rows + [HistoryRow(userId, ipAddress, userAgent, if success then 1 else 0, now)];
    }
  }
}
