/** Row-level building blocks for the in-memory tables of the store: finding
    the first row a WHERE clause matches, keeping the rows a DELETE spares, and
    the shape of a SERIAL id column. */
module Seqs {

  import opened Lib

  /** The index of the first row satisfying `p` (what `fetch_one` returns when
      the table is scanned in storage order), or `None` for zero rows. */
  function First<T>(rows: seq<T>, p: T -> bool): (r: Option<nat>)
    ensures r.Some? ==> r.value < |rows| && p(rows[r.value])
    ensures r.Some? ==> forall j :: 0 <= j < r.value ==> !p(rows[j])
    ensures r.None? <==> forall j :: 0 <= j < |rows| ==> !p(rows[j])
  {
    if rows == [] then None
    else if p(rows[0]) then Some(0)
    else match First(rows[1..], p)
      case None => None
      case Some(k) => Some(k + 1)
  }

  /** The rows that `keep` accepts, in their original order. */
  function Filter<T(!new)>(rows: seq<T>, keep: T -> bool): (r: seq<T>)
    ensures |r| <= |rows|
    ensures forall x :: x in r <==> x in rows && keep(x)
  {
    if rows == [] then []
    else (if keep(rows[0]) then [rows[0]] else []) + Filter(rows[1..], keep)
  }

  /** The id of the row at index `i`. */
  function IdAt<T>(rows: seq<T>, id: T -> int, i: int): int
    requires 0 <= i < |rows|
  {
    id(rows[i])
  }

  /** A SERIAL id column: every id was drawn from the sequence (so lies in
      [1, next)), and ids grow in storage order because rows are appended as
      their ids are drawn. `next` may be one past i32's maximum: the sequence
      is then exhausted. */
  ghost predicate Serial<T>(rows: seq<T>, id: T -> int, next: int) {
    && 1 <= next <= I32_MAX as int + 1
    && (forall i :: 0 <= i < |rows| ==> 1 <= id(rows[i]) < next)
    && (forall i, j :: 0 <= i < j < |rows| ==> IdAt(rows, id, i) < IdAt(rows, id, j))
  }

  /** Deleting rows keeps a SERIAL column SERIAL. */
  lemma {:induction false} FilterKeepsSerial<T(!new)>(rows: seq<T>, keep: T -> bool, id: T -> int, next: int)
    requires Serial(rows, id, next)
    ensures Serial(Filter(rows, keep), id, next)
  {
    if rows != [] {
      var tail := rows[1..];
      TailKeepsSerial(rows, id, next);
      FilterKeepsSerial(tail, keep, id, next);
      var rest := Filter(tail, keep);
      forall x | x in rest ensures id(rows[0]) < id(x) {
        var k :| 0 <= k < |tail| && tail[k] == x;
        assert x == rows[k + 1];
        assert IdAt(rows, id, 0) < IdAt(rows, id, k + 1);
      }
      if keep(rows[0]) {
        PrependKeepsSerial(rows[0], rest, id, next);
        assert Filter(rows, keep) == [rows[0]] + rest;
      } else {
        assert Filter(rows, keep) == rest;
      }
    }
  }

  lemma TailKeepsSerial<T>(rows: seq<T>, id: T -> int, next: int)
    requires Serial(rows, id, next) && rows != []
    ensures Serial(rows[1..], id, next)
  {
    var tail := rows[1..];
    forall i, j | 0 <= i < j < |tail| ensures IdAt(tail, id, i) < IdAt(tail, id, j) {
      assert IdAt(tail, id, i) == IdAt(rows, id, i + 1);
      assert IdAt(tail, id, j) == IdAt(rows, id, j + 1);
    }
  }

  lemma PrependKeepsSerial<T>(head: T, rest: seq<T>, id: T -> int, next: int)
    requires Serial(rest, id, next) && 1 <= id(head) < next
    requires forall x :: x in rest ==> id(head) < id(x)
    ensures Serial([head] + rest, id, next)
  {
    var r := [head] + rest;
    forall i, j | 0 <= i < j < |r| ensures IdAt(r, id, i) < IdAt(r, id, j) {
      assert r[j] == rest[j - 1];
      if i == 0 {
        assert rest[j - 1] in rest;
      } else {
        assert IdAt(r, id, i) == IdAt(rest, id, i - 1);
        assert IdAt(r, id, j) == IdAt(rest, id, j - 1);
      }
    }
  }

  /** Appending a row whose id is the sequence's next value keeps the column SERIAL. */
  lemma AppendKeepsSerial<T>(rows: seq<T>, row: T, id: T -> int, next: int)
    requires Serial(rows, id, next) && id(row) == next && next <= I32_MAX
    ensures Serial(rows + [row], id, next + 1)
  {
    var r := rows + [row];
    forall i, j | 0 <= i < j < |r| ensures IdAt(r, id, i) < IdAt(r, id, j) {
      if j < |rows| {
        assert IdAt(r, id, i) == IdAt(rows, id, i);
        assert IdAt(r, id, j) == IdAt(rows, id, j);
      } else {
        assert r[i] == rows[i];
      }
    }
  }

  /** Rewriting columns other than the id keeps the column SERIAL. */
  lemma SameIdsKeepSerial<T>(before: seq<T>, after: seq<T>, id: T -> int, next: int)
    requires Serial(before, id, next) && |after| == |before|
    requires forall i :: 0 <= i < |before| ==> id(after[i]) == id(before[i])
    ensures Serial(after, id, next)
  {
    forall i, j | 0 <= i < j < |after| ensures IdAt(after, id, i) < IdAt(after, id, j) {
      assert IdAt(before, id, i) < IdAt(before, id, j);
    }
  }

  /** In a SERIAL column an id names exactly one row. */
  lemma SerialIdNamesOneRow<T>(rows: seq<T>, id: T -> int, next: int, i: int)
    requires Serial(rows, id, next) && 0 <= i < |rows|
    ensures forall j :: 0 <= j < |rows| && j != i ==> id(rows[j]) != id(rows[i])
  {
    forall j | 0 <= j < |rows| && j != i ensures id(rows[j]) != id(rows[i]) {
      if j < i {
        assert IdAt(rows, id, j) < IdAt(rows, id, i);
      } else {
        assert IdAt(rows, id, i) < IdAt(rows, id, j);
      }
    }
  }
}
