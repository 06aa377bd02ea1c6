/** Building blocks shared by the table models: optional values, the 0/1 flag
    columns, the payload of the signed session credential, and the three shapes
    the SQL statements of the models take on a table held in insertion order
    (first matching row, filtered rows, rows updated in place). */
module Common {

  datatype Option<+T> = None | Some(value: T)

  /** A TINYINT(1) column: `is_locked`, `is_active`, `is_used`, `success`. */
  type Bit = b: int | 0 <= b <= 1

  /** The payload the service signs into the session credential and the
      middleware gets back from verifying it: `{ id, sessionToken }`. */
  datatype Claims = Claims(id: nat, sessionToken: string)

  function Min(a: int, b: int): int { if a <= b then a else b }

  /** AUTO_INCREMENT ids, read by `id`: positive, below the next id to hand
      out, and strictly increasing in table order (so no two rows share one). */
  ghost predicate IdsIncreasing<T>(rows: seq<T>, id: T -> int, nextId: nat) {
    && 0 < nextId
    && (forall i :: 0 <= i < |rows| ==> 0 < id(rows[i]) < nextId)
    && (forall i, j :: 0 <= i < j < |rows| ==> id(rows[i]) < id(rows[j]))
  }

  /** The first element of `s` that satisfies `p`: what `rows[0]` of a
      `SELECT * ... WHERE p` yields when the rows come back in table order. */
  function FirstMatch<T>(s: seq<T>, p: T -> bool): (r: Option<T>)
    ensures r.None? <==> forall i :: 0 <= i < |s| ==> !p(s[i])
    ensures r.Some? ==>
      exists i :: 0 <= i < |s| && s[i] == r.value && p(s[i]) && forall j :: 0 <= j < i ==> !p(s[j])
  {
    if |s| == 0 then None
    else if p(s[0]) then Some(s[0])
    else
      var r := FirstMatch(s[1..], p);
      assert r.Some? ==>
        exists i :: 1 <= i < |s| && s[i] == r.value && p(s[i]) && forall j :: 0 <= j < i ==> !p(s[j])
      by {
        if r.Some? {
          var k :| 0 <= k < |s[1..]| && s[1..][k] == r.value && p(s[1..][k])
                   && forall j :: 0 <= j < k ==> !p(s[1..][j]);
          assert s[k + 1] == r.value;
          forall j | 0 <= j < k + 1 ensures !p(s[j]) {
            if j > 0 { assert s[j] == s[1..][j - 1]; }
          }
        }
      }
      r
  }

  /** Two tables that agree on which rows match `p`, and agree on the matching
      rows themselves, give the same first match. */
  lemma {:induction false} FirstMatchAgrees<T>(s: seq<T>, t: seq<T>, p: T -> bool)
    requires |s| == |t|
    requires forall i :: 0 <= i < |s| ==> (p(s[i]) <==> p(t[i]))
    requires forall i :: 0 <= i < |s| && p(s[i]) ==> s[i] == t[i]
    ensures FirstMatch(s, p) == FirstMatch(t, p)
  {
    if |s| > 0 {
      assert p(s[0]) <==> p(t[0]);
      if !p(s[0]) {
        assert forall i :: 0 <= i < |s[1..]| ==> s[1..][i] == s[i + 1] && t[1..][i] == t[i + 1];
        FirstMatchAgrees(s[1..], t[1..], p);
      }
    }
  }

  /** The rows of `s` that satisfy `p`, in table order: what a `DELETE ... WHERE !p`
      leaves behind. */
  function Filter<T(!new)>(s: seq<T>, p: T -> bool): (r: seq<T>)
    ensures |r| <= |s|
    ensures forall x :: multiset(r)[x] == if p(x) then multiset(s)[x] else 0
    ensures forall x :: x in r <==> x in s && p(x)
  {
    if |s| == 0 then []
    else
      assert s == [s[0]] + s[1..];
      if p(s[0]) then [s[0]] + Filter(s[1..], p) else Filter(s[1..], p)
  }

  /** Filtering keeps only rows of `s`, so a lower bound on the key of every
      row of `s` bounds every row that is kept. */
  lemma {:induction false} FilterKeysAbove<T(!new)>(s: seq<T>, p: T -> bool, key: T -> int, bound: int)
    requires forall i :: 0 <= i < |s| ==> bound < key(s[i])
    ensures forall i :: 0 <= i < |Filter(s, p)| ==> bound < key(Filter(s, p)[i])
  {
    if |s| > 0 {
      FilterKeysAbove(s[1..], p, key, bound);
    }
  }

  /** Filtering keeps the rows in table order, so a strictly increasing key
      (an AUTO_INCREMENT id) stays strictly increasing. */
  lemma {:induction false} FilterKeepsIncreasing<T(!new)>(s: seq<T>, p: T -> bool, key: T -> int)
    requires forall i, j :: 0 <= i < j < |s| ==> key(s[i]) < key(s[j])
    ensures forall i, j :: 0 <= i < j < |Filter(s, p)| ==> key(Filter(s, p)[i]) < key(Filter(s, p)[j])
  {
    if |s| > 0 {
      var tail := s[1..];
      var rest := Filter(tail, p);
      FilterKeepsIncreasing(tail, p, key);
      if p(s[0]) {
        FilterKeysAbove(tail, p, key, key(s[0]));
        var r := [s[0]] + rest;
        forall i, j | 0 <= i < j < |r| ensures key(r[i]) < key(r[j]) {
          assert r[j] == rest[j - 1];
          if i > 0 {
            assert r[i] == rest[i - 1];
          }
        }
      }
    }
  }

  /** The rows of `s` with `f` applied to those that satisfy `p`, in place: what
      an `UPDATE ... SET f WHERE p` leaves behind. */
  function UpdateWhere<T>(s: seq<T>, p: T -> bool, f: T -> T): seq<T> {
    seq(|s|, i requires 0 <= i < |s| => if p(s[i]) then f(s[i]) else s[i])
  }

  /** An UPDATE whose new values still satisfy its WHERE clause and are left
      alone by a second application of the SET (as `SET is_active = 0` or
      `SET is_used = 1` are) has no further effect when run again. */
  lemma UpdateWhereIdempotent<T>(s: seq<T>, p: T -> bool, f: T -> T)
    requires forall x :: p(x) ==> p(f(x)) && f(f(x)) == f(x)
    ensures UpdateWhere(UpdateWhere(s, p, f), p, f) == UpdateWhere(s, p, f)
  {
    var once := UpdateWhere(s, p, f);
    forall i | 0 <= i < |s|
      ensures UpdateWhere(once, p, f)[i] == once[i]
    {
      if p(s[i]) {
        assert once[i] == f(s[i]);
      }
    }
  }

  /** An UPDATE whose WHERE clause matches no row, or whose SET leaves every
      matching row as it was, leaves the table unchanged. */
  lemma UpdateWhereUnchanged<T>(s: seq<T>, p: T -> bool, f: T -> T)
    requires forall i :: 0 <= i < |s| && p(s[i]) ==> f(s[i]) == s[i]
    ensures UpdateWhere(s, p, f) == s
  {
    var after := UpdateWhere(s, p, f);
    forall i | 0 <= i < |s| ensures after[i] == s[i] {
    }
  }
}
