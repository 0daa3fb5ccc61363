/**
 * The query vocabulary the handlers use against the database, over in-memory
 * tables: equality filters (`.eq`, `.or`), `.maybeSingle()`, `.order(...)`
 * and `.range(from, to)`.
 */
module Query {

  /** Rows of `rows` that satisfy `keep`, in table order. */
  function Where<T(!new)>(rows: seq<T>, keep: T -> bool): (r: seq<T>)
    ensures |r| <= |rows|
    ensures forall x :: x in r <==> x in rows && keep(x)
    ensures multiset(r) <= multiset(rows)
  {
    if rows == [] then []
    else
      assert rows == [rows[0]] + rows[1..];
      (if keep(rows[0]) then [rows[0]] else []) + Where(rows[1..], keep)
  }

  /** Filtering a table with one more row at the end. */
  lemma {:induction false} WhereAppend<T(!new)>(rows: seq<T>, x: T, keep: T -> bool)
    ensures Where(rows + [x], keep) == Where(rows, keep) + (if keep(x) then [x] else [])
  {
    if rows == [] {
      assert [x][1..] == [];
    } else {
      assert (rows + [x])[1..] == rows[1..] + [x];
      WhereAppend(rows[1..], x, keep);
    }
  }

  /** A filter that every row passes keeps the whole table. */
  lemma {:induction false} WhereAll<T(!new)>(rows: seq<T>, keep: T -> bool)
    requires forall x :: x in rows ==> keep(x)
    ensures Where(rows, keep) == rows
  {
    if rows != [] {
      assert rows[0] in rows;
      WhereAll(rows[1..], keep);
      assert rows == [rows[0]] + rows[1..];
    }
  }

  /** Filtering twice by the same condition is filtering once. */
  lemma WhereIdempotent<T(!new)>(rows: seq<T>, keep: T -> bool)
    ensures Where(Where(rows, keep), keep) == Where(rows, keep)
  {
    WhereAll(Where(rows, keep), keep);
  }

  /** `.eq(column, k)`: the rows whose `key` column equals `k`. */
  function Select<T(!new), K(==)>(rows: seq<T>, key: T -> K, k: K): (r: seq<T>)
    ensures forall x :: x in r <==> x in rows && key(x) == k
  {
    Where(rows, (x: T) => key(x) == k)
  }

  /** A table with one more row at the end selects that row too when its key matches. */
  lemma SelectAppend<T(!new), K>(rows: seq<T>, x: T, key: T -> K, k: K)
    ensures Select(rows + [x], key, k) == Select(rows, key, k) + (if key(x) == k then [x] else [])
  {
    WhereAppend(rows, x, (y: T) => key(y) == k);
  }

  /** No two rows of the table agree on `key` (a primary key or a unique constraint). */
  ghost predicate Unique<T, K>(rows: seq<T>, key: T -> K) {
    forall i, j :: 0 <= i < j < |rows| ==> key(rows[i]) != key(rows[j])
  }

  lemma UniqueTail<T, K>(rows: seq<T>, key: T -> K)
    requires rows != [] && Unique(rows, key)
    ensures Unique(rows[1..], key)
    ensures forall y :: y in rows[1..] ==> key(y) != key(rows[0])
  {
    var tail := rows[1..];
    forall i, j | 0 <= i < j < |tail| ensures key(tail[i]) != key(tail[j]) {
      assert tail[i] == rows[i + 1] && tail[j] == rows[j + 1];
    }
    forall y | y in tail ensures key(y) != key(rows[0]) {
      var m :| 0 <= m < |tail| && tail[m] == y;
      assert rows[m + 1] == y;
    }
  }

  lemma UniqueCons<T, K>(x: T, rows: seq<T>, key: T -> K)
    requires Unique(rows, key)
    requires forall y :: y in rows ==> key(y) != key(x)
    ensures Unique([x] + rows, key)
  {
    var r := [x] + rows;
    forall i, j | 0 <= i < j < |r| ensures key(r[i]) != key(r[j]) {
      assert r[j] == rows[j - 1];
      if i == 0 {
        assert rows[j - 1] in rows;
      } else {
        assert r[i] == rows[i - 1];
      }
    }
  }

  lemma {:induction false} NoneSelected<T(!new), K>(rows: seq<T>, key: T -> K, k: K)
    requires forall y :: y in rows ==> key(y) != k
    ensures Select(rows, key, k) == []
  {
    if rows != [] {
      assert rows[0] in rows;
      NoneSelected(rows[1..], key, k);
      assert Select(rows, key, k) == Select(rows[1..], key, k);
    }
  }

  /** A unique key selects at most one row. */
  lemma {:induction false} SelectAtMostOne<T(!new), K>(rows: seq<T>, key: T -> K, k: K)
    requires Unique(rows, key)
    ensures |Select(rows, key, k)| <= 1
  {
    if rows != [] {
      var tail := rows[1..];
      UniqueTail(rows, key);
      SelectAtMostOne(tail, key, k);
      assert Select(rows, key, k) == (if key(rows[0]) == k then [rows[0]] else []) + Select(tail, key, k);
      if key(rows[0]) == k {
        NoneSelected(tail, key, k);
      }
    }
  }

  /** Filtering keeps a unique key unique. */
  lemma {:induction false} WhereKeepsUnique<T(!new), K>(rows: seq<T>, keep: T -> bool, key: T -> K)
    requires Unique(rows, key)
    ensures Unique(Where(rows, keep), key)
  {
    if rows != [] {
      var tail := rows[1..];
      UniqueTail(rows, key);
      WhereKeepsUnique(tail, keep, key);
      var w := Where(tail, keep);
      if keep(rows[0]) {
        assert Where(rows, keep) == [rows[0]] + w;
        UniqueCons(rows[0], w, key);
      } else {
        assert Where(rows, keep) == w;
      }
    }
  }

  /** Selecting keeps a unique key unique. */
  lemma SelectKeepsUnique<T(!new), K, K2>(rows: seq<T>, key: T -> K, k: K, unique: T -> K2)
    requires Unique(rows, unique)
    ensures Unique(Select(rows, key, k), unique)
  {
    WhereKeepsUnique(rows, (x: T) => key(x) == k, unique);
  }

  /** Appending a row whose key is not yet taken keeps the key unique. */
  lemma UniqueAppend<T, K>(rows: seq<T>, x: T, key: T -> K)
    requires Unique(rows, key)
    requires forall y :: y in rows ==> key(y) != key(x)
    ensures Unique(rows + [x], key)
  {
    var r := rows + [x];
    forall i, j | 0 <= i < j < |r| ensures key(r[i]) != key(r[j]) {
      assert r[i] == rows[i];
      if j < |rows| {
        assert r[j] == rows[j];
      } else {
        assert rows[i] in rows;
      }
    }
  }

  /** The distinct values of `key` in a table. */
  ghost function Keys<T, K>(rows: seq<T>, key: T -> K): set<K> {
    set x | x in rows :: key(x)
  }

  /** A table whose key is unique has as many distinct keys as rows. */
  lemma {:induction false} UniqueKeysCount<T, K>(rows: seq<T>, key: T -> K)
    requires Unique(rows, key)
    ensures |Keys(rows, key)| == |rows|
  {
    if rows != [] {
      UniqueTail(rows, key);
      UniqueKeysCount(rows[1..], key);
      var rest := Keys(rows[1..], key);
      assert key(rows[0]) !in rest;
      assert Keys(rows, key) == {key(rows[0])} + rest by {
        assert rows == [rows[0]] + rows[1..];
      }
    }
  }

  /** An update that leaves the key column of every row alone keeps the key unique. */
  lemma SameKeysUnique<T, K>(rows: seq<T>, updated: seq<T>, key: T -> K)
    requires Unique(rows, key)
    requires |updated| == |rows|
    requires forall i :: 0 <= i < |rows| ==> key(updated[i]) == key(rows[i])
    ensures Unique(updated, key)
  {
  }

  /** `.delete().eq(column, k)`: the rows that remain, in table order. */
  function Reject<T(!new), K(==)>(rows: seq<T>, key: T -> K, k: K): (r: seq<T>)
    ensures forall x :: x in r <==> x in rows && key(x) != k
  {
    Where(rows, (x: T) => key(x) != k)
  }

  /** Every row is either selected by `k` or left by deleting `k`, never both. */
  lemma {:induction false} SelectRejectSplit<T(!new), K>(rows: seq<T>, key: T -> K, k: K)
    ensures |Select(rows, key, k)| + |Reject(rows, key, k)| == |rows|
  {
    if rows != [] {
      SelectRejectSplit(rows[1..], key, k);
      assert Select(rows, key, k) == (if key(rows[0]) == k then [rows[0]] else []) + Select(rows[1..], key, k);
      assert Reject(rows, key, k) == (if key(rows[0]) != k then [rows[0]] else []) + Reject(rows[1..], key, k);
    }
  }

  /** Deleting by a unique key that is present removes exactly one row. */
  lemma RejectRemovesOne<T(!new), K>(rows: seq<T>, key: T -> K, k: K)
    requires Unique(rows, key)
    requires exists x :: x in rows && key(x) == k
    ensures |Reject(rows, key, k)| == |rows| - 1
  {
    SelectRejectSplit(rows, key, k);
    LookupByUniqueKey(rows, key, k);
  }

  /** Deleting rows keeps a unique key unique. */
  lemma RejectKeepsUnique<T(!new), K, K2>(rows: seq<T>, key: T -> K, k: K, unique: T -> K2)
    requires Unique(rows, unique)
    ensures Unique(Reject(rows, key, k), unique)
  {
    WhereKeepsUnique(rows, (x: T) => key(x) != k, unique);
  }

  /** What `.maybeSingle()` yields: no row, the one row, or the error raised for several rows. */
  datatype Lookup<+T> = NoRow | Found(row: T) | TooMany

  function MaybeSingle<T>(rows: seq<T>): (r: Lookup<T>)
    ensures r.NoRow? <==> |rows| == 0
    ensures r.TooMany? <==> |rows| > 1
    ensures r.Found? ==> |rows| == 1 && r.row == rows[0] && r.row in rows
  {
    if |rows| == 0 then NoRow
    else if |rows| == 1 then Found(rows[0])
    else TooMany
  }

  /**
   * Looking a row up by a unique key never raises the several-rows error: it finds
   * exactly the row that carries the key, or nothing when no row does.
   */
  lemma LookupByUniqueKey<T(!new), K>(rows: seq<T>, key: T -> K, k: K)
    requires Unique(rows, key)
    ensures MaybeSingle(Select(rows, key, k)) != TooMany
    ensures MaybeSingle(Select(rows, key, k)).Found? <==> exists x :: x in rows && key(x) == k
    ensures forall x :: x in rows && key(x) == k ==> MaybeSingle(Select(rows, key, k)) == Found(x)
  {
    SelectAtMostOne(rows, key, k);
    var s := Select(rows, key, k);
    if s != [] {
      assert s[0] in s;
    }
    forall x | x in rows && key(x) == k ensures MaybeSingle(s) == Found(x) {
      assert x in s;
    }
  }

  /** Two tables holding the same rows, in any order, have the same members. */
  lemma SameMembers<T>(a: seq<T>, b: seq<T>)
    requires multiset(a) == multiset(b)
    ensures forall x :: x in a <==> x in b
  {
    forall x ensures x in a <==> x in b {
      assert x in a <==> x in multiset(a);
      assert x in b <==> x in multiset(b);
    }
  }

  /** Rows in ascending order of `key`. */
  ghost predicate Ascending<T>(rows: seq<T>, key: T -> int) {
    forall i, j :: 0 <= i < j < |rows| ==> key(rows[i]) <= key(rows[j])
  }

  /** Rows in descending order of `key`. */
  ghost predicate Descending<T>(rows: seq<T>, key: T -> int) {
    forall i, j :: 0 <= i < j < |rows| ==> key(rows[i]) >= key(rows[j])
  }

  lemma AscendingCons<T>(h: T, rows: seq<T>, key: T -> int)
    requires Ascending(rows, key)
    requires forall y :: y in rows ==> key(h) <= key(y)
    ensures Ascending([h] + rows, key)
  {
    var r := [h] + rows;
    forall i, j | 0 <= i < j < |r| ensures key(r[i]) <= key(r[j]) {
      assert r[j] == rows[j - 1];
      if i == 0 {
        assert rows[j - 1] in rows;
      } else {
        assert r[i] == rows[i - 1];
      }
    }
  }

  function InsertAscending<T>(x: T, rows: seq<T>, key: T -> int): (r: seq<T>)
    requires Ascending(rows, key)
    ensures Ascending(r, key)
    ensures multiset(r) == multiset(rows) + multiset{x}
  {
    if rows == [] || key(x) <= key(rows[0]) then
      assert forall y :: y in rows ==> key(x) <= key(y) by {
        forall y | y in rows ensures key(x) <= key(y) {
          var m :| 0 <= m < |rows| && rows[m] == y;
        }
      }
      AscendingCons(x, rows, key);
      [x] + rows
    else
      var tail := rows[1..];
      assert rows == [rows[0]] + tail;
      assert Ascending(tail, key) by {
        forall i, j | 0 <= i < j < |tail| ensures key(tail[i]) <= key(tail[j]) {
          assert tail[i] == rows[i + 1] && tail[j] == rows[j + 1];
        }
      }
      var rest := InsertAscending(x, tail, key);
      assert forall y :: y in rest ==> key(rows[0]) <= key(y) by {
        forall y | y in rest ensures key(rows[0]) <= key(y) {
          assert y in multiset(rest);
          if y != x {
            assert y in multiset(tail);
            var m :| 0 <= m < |tail| && tail[m] == y;
            assert rows[m + 1] == y;
          }
        }
      }
      AscendingCons(rows[0], rest, key);
      [rows[0]] + rest
  }

  /** `.order(key, { ascending: true })`: the same rows, ascending by `key`. */
  function SortAscending<T>(rows: seq<T>, key: T -> int): (r: seq<T>)
    ensures Ascending(r, key)
    ensures multiset(r) == multiset(rows)
  {
    if rows == [] then []
    else
      assert rows == [rows[0]] + rows[1..];
      InsertAscending(rows[0], SortAscending(rows[1..], key), key)
  }

  /** `.order(key, { ascending: false })`: the same rows, descending by `key`. */
  function SortDescending<T>(rows: seq<T>, key: T -> int): (r: seq<T>)
    ensures Descending(r, key)
    ensures multiset(r) == multiset(rows)
  {
    var negated := (x: T) => -key(x);
    var r := SortAscending(rows, negated);
    assert forall i, j :: 0 <= i < j < |r| ==> negated(r[i]) <= negated(r[j]);
    r
  }

  /** `.range(from, to)`: the rows at positions `from` to `to` inclusive that exist. */
  function Range<T>(rows: seq<T>, from: nat, to: int): (r: seq<T>)
    requires from <= to + 1
    ensures |r| <= to + 1 - from
    ensures forall i :: 0 <= i < |r| ==> from + i < |rows| && r[i] == rows[from + i]
    ensures |r| < to + 1 - from ==> from + |r| >= |rows|
  {
    if from >= |rows| then []
    else rows[from .. if to + 1 < |rows| then to + 1 else |rows|]
  }
}
