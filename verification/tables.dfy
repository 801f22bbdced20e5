/** Abstract database tables: a table is the sequence of its rows in the
    store's natural order, and a statement `... WHERE key = k` touches exactly
    the rows whose key equals `k`. */
module Tables {

  /** The rows a `SELECT ... WHERE key = k` returns, or a
      `DELETE ... WHERE key = k RETURNING *` removes, in store order. */
  function Where<R(==)>(rows: seq<R>, key: R -> int, k: int): (r: seq<R>)
    ensures |r| <= |rows|
    ensures forall x :: x in r ==> x in rows && key(x) == k
    ensures forall x :: x in rows && key(x) == k ==> x in r
    decreases |rows|
  {
    if rows == [] then []
    else if key(rows[0]) == k then [rows[0]] + Where(rows[1..], key, k)
    else Where(rows[1..], key, k)
  }

  /** The rows a `DELETE ... WHERE key = k` leaves in the table, in store order. */
  function WhereNot<R(==)>(rows: seq<R>, key: R -> int, k: int): (r: seq<R>)
    ensures |r| <= |rows|
    ensures forall x :: x in r ==> x in rows && key(x) != k
    ensures forall x :: x in rows && key(x) != k ==> x in r
    decreases |rows|
  {
    if rows == [] then []
    else if key(rows[0]) == k then WhereNot(rows[1..], key, k)
    else [rows[0]] + WhereNot(rows[1..], key, k)
  }

  /** `rows.map(field)`: one output per row, in row order. */
  function Project<R, F>(rows: seq<R>, field: R -> F): (out: seq<F>)
    ensures |out| == |rows|
    ensures forall i :: 0 <= i < |rows| ==> out[i] == field(rows[i])
    decreases |rows|
  {
    if rows == [] then [] else [field(rows[0])] + Project(rows[1..], field)
  }

  /** A DELETE splits the table: the removed rows and the rows left behind
      together are exactly the rows before, with multiplicity. */
  lemma {:induction false} Partition<R>(rows: seq<R>, key: R -> int, k: int)
    ensures multiset(Where(rows, key, k)) + multiset(WhereNot(rows, key, k)) == multiset(rows)
    decreases |rows|
  {
    if rows != [] {
      Partition(rows[1..], key, k);
      assert rows == [rows[0]] + rows[1..];
    }
  }

  /** Rows with any other key keep their number of occurrences: a DELETE
      by key changes nothing else. */
  lemma OthersUntouched<R>(rows: seq<R>, key: R -> int, k: int, x: R)
    requires key(x) != k
    ensures multiset(WhereNot(rows, key, k))[x] == multiset(rows)[x]
  {
    Partition(rows, key, k);
    assert x !in Where(rows, key, k);
  }

  /** When no row has key `k`, a DELETE leaves the table exactly as it was. */
  lemma {:induction false} NoMatchKeepsAll<R>(rows: seq<R>, key: R -> int, k: int)
    requires Where(rows, key, k) == []
    ensures WhereNot(rows, key, k) == rows
    decreases |rows|
  {
    if rows != [] {
      assert rows[0] in rows;
      NoMatchKeepsAll(rows[1..], key, k);
      assert rows == [rows[0]] + rows[1..];
    }
  }

  /** The first row a SELECT returns is the earliest row of the table with
      that key. */
  lemma {:induction false} FirstMatch<R>(rows: seq<R>, key: R -> int, k: int)
    requires Where(rows, key, k) != []
    ensures exists i :: 0 <= i < |rows| && rows[i] == Where(rows, key, k)[0] && key(rows[i]) == k
                     && forall j :: 0 <= j < i ==> key(rows[j]) != k
    decreases |rows|
  {
    if key(rows[0]) == k {
      assert rows[0] == Where(rows, key, k)[0];
    } else {
      FirstMatch(rows[1..], key, k);
      var i :| 0 <= i < |rows[1..]| && rows[1..][i] == Where(rows[1..], key, k)[0] && key(rows[1..][i]) == k
               && forall j :: 0 <= j < i ==> key(rows[1..][j]) != k;
      assert rows[i + 1] == Where(rows, key, k)[0];
      assert forall j :: 0 <= j < i + 1 ==> key(rows[j]) != k by {
        forall j | 0 <= j < i + 1 ensures key(rows[j]) != k {
          if j > 0 { assert rows[j] == rows[1..][j - 1]; }
        }
      }
    }
  }
}
