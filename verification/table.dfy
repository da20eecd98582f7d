/**
 * A database table as the ORM client sees it: its rows, in table order.
 * The functions here are the generic halves of findMany, findFirst/findUnique
 * and update; each repository supplies the where clause.
 */
module Table {
  import opened Wrappers

  /** No two rows of the table share a key (a primary key or a unique column). */
  ghost predicate UniqueKeys<T, K>(rows: seq<T>, key: T -> K) {
    forall i, j :: 0 <= i < j < |rows| ==> key(rows[i]) != key(rows[j])
  }

  /** findMany: the rows that satisfy the where clause, in table order. */
  function Filter<T(!new)>(rows: seq<T>, p: T -> bool): (r: seq<T>)
    ensures |r| <= |rows|
    ensures forall x :: x in r <==> x in rows && p(x)
  {
    if rows == [] then []
    else
      assert rows == [rows[0]] + rows[1..];
      if p(rows[0]) then [rows[0]] + Filter(rows[1..], p) else Filter(rows[1..], p)
  }

  /** findFirst (and findUnique on a unique column): the first row in table order that satisfies the where clause. */
  function FindFirst<T(!new)>(rows: seq<T>, p: T -> bool): (r: Option<T>)
    ensures r.None? <==> forall x :: x in rows ==> !p(x)
    ensures r.Some? ==> exists i :: 0 <= i < |rows| && rows[i] == r.value && p(rows[i]) &&
                                   forall j :: 0 <= j < i ==> !p(rows[j])
  {
    if rows == [] then None
    else if p(rows[0]) then Some(rows[0])
    else
      assert rows == [rows[0]] + rows[1..];
      var r := FindFirst(rows[1..], p);
      assert r.Some? ==> exists i :: 0 <= i < |rows| && rows[i] == r.value && p(rows[i]) &&
                                     forall j :: 0 <= j < i ==> !p(rows[j]) by {
        if r.Some? {
          var i :| 0 <= i < |rows[1..]| && rows[1..][i] == r.value && p(rows[1..][i]) &&
                   forall j :: 0 <= j < i ==> !p(rows[1..][j]);
          assert rows[i + 1] == r.value;
          forall j | 0 <= j < i + 1 ensures !p(rows[j]) {
            if j > 0 { assert rows[j] == rows[1..][j - 1]; }
          }
        }
      }
      r
  }

  /** update: every row that satisfies the where clause is replaced by f of it; every other row stays where it was. */
  function Update<T>(rows: seq<T>, p: T -> bool, f: T -> T): (r: seq<T>)
    ensures |r| == |rows|
    ensures forall i :: 0 <= i < |rows| && p(rows[i]) ==> r[i] == f(rows[i])
    ensures forall i :: 0 <= i < |rows| && !p(rows[i]) ==> r[i] == rows[i]
  {
    seq(|rows|, i requires 0 <= i < |rows| => if p(rows[i]) then f(rows[i]) else rows[i])
  }

  /** Two rows of a table with a unique key that agree on the key are the same row. */
  lemma SameKeySameRow<T, K>(rows: seq<T>, key: T -> K, x: T, y: T)
    requires UniqueKeys(rows, key)
    requires x in rows && y in rows && key(x) == key(y)
    ensures x == y
  {
    var i :| 0 <= i < |rows| && rows[i] == x;
    var j :| 0 <= j < |rows| && rows[j] == y;
    assert i == j;
  }

  /** Deleting rows keeps a unique key unique. */
  lemma {:induction false} FilterKeepsUniqueKeys<T(!new), K>(rows: seq<T>, p: T -> bool, key: T -> K)
    requires UniqueKeys(rows, key)
    ensures UniqueKeys(Filter(rows, p), key)
  {
    if rows != [] {
      var tail := rows[1..];
      assert UniqueKeys(tail, key) by {
        forall i, j | 0 <= i < j < |tail| ensures key(tail[i]) != key(tail[j]) {
          assert tail[i] == rows[i + 1] && tail[j] == rows[j + 1];
        }
      }
      FilterKeepsUniqueKeys(tail, p, key);
      var ft := Filter(tail, p);
      if p(rows[0]) {
        var r := [rows[0]] + ft;
        forall i, j | 0 <= i < j < |r| ensures key(r[i]) != key(r[j]) {
          if i == 0 {
            assert r[j] == ft[j - 1] && ft[j - 1] in tail;
            var k :| 0 <= k < |tail| && tail[k] == ft[j - 1];
            assert rows[k + 1] == r[j];
          } else {
            assert r[i] == ft[i - 1] && r[j] == ft[j - 1];
          }
        }
      }
    }
  }

  /** An update that leaves the key of every row alone keeps a unique key unique. */
  lemma UpdateKeepsUniqueKeys<T, K>(rows: seq<T>, p: T -> bool, f: T -> T, key: T -> K)
    requires UniqueKeys(rows, key)
    requires forall x :: key(f(x)) == key(x)
    ensures UniqueKeys(Update(rows, p, f), key)
  {
    var r := Update(rows, p, f);
    forall i, j | 0 <= i < j < |r| ensures key(r[i]) != key(r[j]) {
      assert key(r[i]) == key(rows[i]) && key(r[j]) == key(rows[j]);
    }
  }

  /** Inserting a row whose key no row has yet keeps the key unique. */
  lemma AppendKeepsUniqueKeys<T, K>(rows: seq<T>, x: T, key: T -> K)
    requires UniqueKeys(rows, key)
    requires forall y :: y in rows ==> key(y) != key(x)
    ensures UniqueKeys(rows + [x], key)
  {
    var r := rows + [x];
    forall i, j | 0 <= i < j < |r| ensures key(r[i]) != key(r[j]) {
      if j == |rows| {
        assert r[i] in rows;
      } else {
        assert r[i] == rows[i] && r[j] == rows[j];
      }
    }
  }

  /** findMany with a clause every row satisfies keeps the whole table. */
  lemma {:induction false} FilterKeepsAll<T(!new)>(rows: seq<T>, p: T -> bool)
    requires forall x :: x in rows ==> p(x)
    ensures Filter(rows, p) == rows
  {
    if rows != [] {
      assert rows == [rows[0]] + rows[1..];
      assert forall x :: x in rows[1..] ==> x in rows;
      FilterKeepsAll(rows[1..], p);
    }
  }

  /** findMany over a table with one more row at the end. */
  lemma {:induction false} FilterAppend<T(!new)>(rows: seq<T>, x: T, p: T -> bool)
    ensures Filter(rows + [x], p) == Filter(rows, p) + (if p(x) then [x] else [])
  {
    if rows == [] {
      assert [x][1..] == [];
    } else {
      assert (rows + [x])[0] == rows[0];
      assert (rows + [x])[1..] == rows[1..] + [x];
      FilterAppend(rows[1..], x, p);
    }
  }

  /** Deleting what was just inserted, with a clause that keeps every other row, restores the table. */
  lemma DeleteUndoesInsert<T(!new)>(rows: seq<T>, x: T, p: T -> bool)
    requires !p(x) && forall y :: y in rows ==> p(y)
    ensures Filter(rows + [x], p) == rows
  {
    FilterAppend(rows, x, p);
    FilterKeepsAll(rows, p);
  }
}
