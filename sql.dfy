/** The shapes of SELECT the backend issues, over a table held as the
    sequence of its rows in insertion order. */
module Sql {
  import opened Base

  /** `SELECT ... WHERE keep` read as `result.rows[0]`: a matching row, the
      first in table order, or none when no row matches. */
  function FirstWhere<T(==)>(rows: seq<T>, keep: T -> bool): (r: Option<T>)
    ensures r.Some? ==> r.value in rows && keep(r.value)
    ensures r.None? <==> forall i :: 0 <= i < |rows| ==> !keep(rows[i])
  {
    if rows == [] then None
    else if keep(rows[0]) then Some(rows[0])
    else
      var r := FirstWhere(rows[1..], keep);
      assert forall i :: 1 <= i < |rows| ==> rows[i] == rows[1..][i - 1];
      r
  }

  /** `SELECT ... WHERE keep ORDER BY created_at DESC` on a table whose rows
      were inserted in created_at order: every matching row and no other,
      the last inserted first. */
  function NewestFirst<T(==)>(rows: seq<T>, keep: T -> bool): (r: seq<T>)
    ensures |r| <= |rows|
    ensures forall j :: 0 <= j < |r| ==> r[j] in rows && keep(r[j])
    ensures forall i :: 0 <= i < |rows| && keep(rows[i]) ==> rows[i] in r
  {
    if rows == [] then []
    else
      var last := rows[|rows| - 1];
      var older := rows[..|rows| - 1];
      assert rows == older + [last];
      (if keep(last) then [last] else []) + NewestFirst(older, keep)
  }

  /** `... LIMIT n` */
  function Limit<T>(s: seq<T>, n: nat): seq<T> {
    if |s| <= n then s else s[..n]
  }

  /** The keys strictly increase along the table. */
  predicate Ascending<T>(rows: seq<T>, key: T -> int) {
    forall i, j :: 0 <= i < j < |rows| ==> key(rows[i]) < key(rows[j])
  }

  /** The keys strictly decrease along the result. */
  predicate Descending<T>(rows: seq<T>, key: T -> int) {
    forall i, j :: 0 <= i < j < |rows| ==> key(rows[i]) > key(rows[j])
  }

  /** On a table kept in ascending key order, reading it backwards is
      `ORDER BY key DESC`. */
  lemma {:induction false} NewestFirstDescending<T>(rows: seq<T>, keep: T -> bool, key: T -> int)
    requires Ascending(rows, key)
    ensures Descending(NewestFirst(rows, keep), key)
  {
    if rows != [] {
      var last := rows[|rows| - 1];
      var older := rows[..|rows| - 1];
      var rest := NewestFirst(older, keep);
      NewestFirstDescending(older, keep, key);
      if keep(last) {
        forall j | 0 <= j < |rest| ensures key(rest[j]) < key(last) {
          assert rest[j] in older;
          var i :| 0 <= i < |older| && older[i] == rest[j];
          assert rows[i] == older[i];
        }
        assert NewestFirst(rows, keep) == [last] + rest;
      }
    }
  }

  /** A row appended to the table comes first in the newest-first reading
      when it matches, and the older rows follow as before. */
  lemma NewestFirstAppend<T>(rows: seq<T>, x: T, keep: T -> bool)
    ensures NewestFirst(rows + [x], keep) == (if keep(x) then [x] else []) + NewestFirst(rows, keep)
  {
    assert (rows + [x])[..|rows|] == rows;
  }

  /** A prefix of a descending result is descending. */
  lemma LimitDescending<T>(s: seq<T>, key: T -> int, n: nat)
    requires Descending(s, key)
    ensures Descending(Limit(s, n), key)
  {
  }

  /** `LIMIT n` on a newest-first result keeps the `n` newest matching rows:
      a matching row left out is older than every row kept, and is left out
      only when `n` rows are kept. */
  lemma LimitKeepsNewest<T>(rows: seq<T>, keep: T -> bool, key: T -> int, n: nat, y: T)
    requires Ascending(rows, key)
    requires y in rows && keep(y)
    ensures || y in Limit(NewestFirst(rows, keep), n)
            || (&& |Limit(NewestFirst(rows, keep), n)| == n
                && forall j :: 0 <= j < n ==> key(y) < key(Limit(NewestFirst(rows, keep), n)[j]))
  {
    var newest := NewestFirst(rows, keep);
    NewestFirstDescending(rows, keep, key);
    var i :| 0 <= i < |rows| && rows[i] == y;
    assert y in newest;
    var k :| 0 <= k < |newest| && newest[k] == y;
    if k < n {
      assert Limit(newest, n)[k] == y;
    } else {
      assert Limit(newest, n) == newest[..n];
      forall j | 0 <= j < n ensures key(y) < key(newest[..n][j]) {
        assert key(newest[j]) > key(newest[k]);
      }
    }
  }

  /** Appending a row does not change which row a lookup finds, unless no
      older row matched. */
  lemma {:induction false} FirstWhereAppend<T>(rows: seq<T>, x: T, keep: T -> bool)
    ensures FirstWhere(rows + [x], keep) ==
      if FirstWhere(rows, keep).Some? then FirstWhere(rows, keep)
      else if keep(x) then Some(x) else None
  {
    if rows != [] {
      assert (rows + [x])[1..] == rows[1..] + [x];
      FirstWhereAppend(rows[1..], x, keep);
    }
  }

  /** The latest matching row: what `ORDER BY created_at DESC LIMIT 1` reads. */
  function LatestWhere<T(==)>(rows: seq<T>, keep: T -> bool): (r: Option<T>)
    ensures r.Some? ==> r.value in rows && keep(r.value)
    ensures r.None? <==> forall i :: 0 <= i < |rows| ==> !keep(rows[i])
  {
    var newest := NewestFirst(rows, keep);
    assert forall i :: 0 <= i < |rows| && keep(rows[i]) ==> rows[i] in newest;
    if newest == [] then None else Some(newest[0])
  }

  /** On a table in ascending key order the latest matching row has the
      greatest key of all matching rows. */
  lemma LatestWhereIsNewest<T>(rows: seq<T>, keep: T -> bool, key: T -> int, y: T)
    requires Ascending(rows, key)
    requires y in rows && keep(y)
    ensures LatestWhere(rows, keep).Some?
    ensures key(y) <= key(LatestWhere(rows, keep).value)
  {
    var newest := NewestFirst(rows, keep);
    NewestFirstDescending(rows, keep, key);
    assert y in rows;
    var i :| 0 <= i < |rows| && rows[i] == y;
    assert y in newest;
    var k :| 0 <= k < |newest| && newest[k] == y;
    assert k == 0 || key(newest[0]) > key(newest[k]);
  }
}
