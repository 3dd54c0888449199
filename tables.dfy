/**
 * What the store's SQL does to a table of rows: SELECT ... WHERE, UPDATE ...
 * SET ... WHERE, and the serial order of rows.
 */
module Tables {
  import opened Records

  /** The rows a `SELECT ... WHERE p` returns, in table order. */
  function Select<T>(rows: seq<Row<T>>, p: Row<T> -> bool): (r: seq<Row<T>>)
    ensures |r| <= |rows|
    ensures forall x :: x in r ==> x in rows && p(x)
    ensures forall i :: 0 <= i < |rows| && p(rows[i]) ==> rows[i] in r
    ensures |r| > 0 ==> exists i :: 0 <= i < |rows| && p(rows[i]) && r[0] == rows[i] &&
                                    forall j :: 0 <= j < i ==> !p(rows[j])
  {
    if |rows| == 0 then []
    else
      var rest := Select(rows[1..], p);
      SelectStep(rows, p, rest);
      if p(rows[0]) then [rows[0]] + rest else rest
  }

  /** The step of `Select` past the first row keeps its membership facts. */
  lemma SelectStep<T>(rows: seq<Row<T>>, p: Row<T> -> bool, rest: seq<Row<T>>)
    requires |rows| > 0
    requires forall x :: x in rest ==> x in rows[1..] && p(x)
    requires forall i :: 0 <= i < |rows[1..]| && p(rows[1..][i]) ==> rows[1..][i] in rest
    requires |rest| > 0 ==> exists i :: 0 <= i < |rows[1..]| && p(rows[1..][i]) && rest[0] == rows[1..][i] &&
                                        forall j :: 0 <= j < i ==> !p(rows[1..][j])
    ensures forall x :: x in (if p(rows[0]) then [rows[0]] + rest else rest) ==> x in rows && p(x)
    ensures forall i :: 0 <= i < |rows| && p(rows[i]) ==> rows[i] in (if p(rows[0]) then [rows[0]] + rest else rest)
    ensures !p(rows[0]) && |rest| > 0 ==>
      exists i :: 0 <= i < |rows| && p(rows[i]) && rest[0] == rows[i] && forall j :: 0 <= j < i ==> !p(rows[j])
  {
    var r := if p(rows[0]) then [rows[0]] + rest else rest;
    assert forall i :: 1 <= i < |rows| ==> rows[i] == rows[1..][i - 1];
    assert forall x :: x in rest ==> x in r;
    if !p(rows[0]) && |rest| > 0 {
      var i :| 0 <= i < |rows[1..]| && p(rows[1..][i]) && rest[0] == rows[1..][i] &&
               forall j :: 0 <= j < i ==> !p(rows[1..][j]);
      assert forall j :: 0 <= j < i + 1 ==> !p(rows[j]);
    }
  }

  /** When no two rows satisfy `p`, `Select` returns at most one row. */
  lemma {:induction false} SelectAtMostOne<T>(rows: seq<Row<T>>, p: Row<T> -> bool)
    requires forall i, j :: 0 <= i < |rows| && 0 <= j < |rows| && p(rows[i]) && p(rows[j]) ==> i == j
    ensures |Select(rows, p)| <= 1
  {
    if |rows| > 0 {
      var rest := rows[1..];
      assert forall k :: 0 <= k < |rest| ==> rest[k] == rows[k + 1];
      if p(rows[0]) {
        assert forall k :: 0 <= k < |rest| ==> !p(rest[k]);
      } else {
        SelectAtMostOne(rest, p);
      }
    }
  }

  /** When two distinct rows satisfy `p`, `Select` returns at least two rows. */
  lemma {:induction false} SelectTwo<T>(rows: seq<Row<T>>, p: Row<T> -> bool, i: nat, j: nat)
    requires i < j < |rows| && p(rows[i]) && p(rows[j])
    ensures |Select(rows, p)| >= 2
  {
    var rest := rows[1..];
    assert rest[j - 1] == rows[j];
    if i == 0 {
      assert |Select(rest, p)| > 0;
    } else {
      assert rest[i - 1] == rows[i];
      SelectTwo(rest, p, i - 1, j - 1);
    }
  }

  /** `UPDATE ... SET data = f(data) WHERE p`: the serial and validity of every row stay. */
  function Update<T>(rows: seq<Row<T>>, p: Row<T> -> bool, f: T -> T): (r: seq<Row<T>>)
    ensures |r| == |rows|
    ensures forall i :: 0 <= i < |rows| ==>
      r[i].serial == rows[i].serial && r[i].isValid == rows[i].isValid &&
      r[i].data == (if p(rows[i]) then f(rows[i].data) else rows[i].data)
  {
    seq(|rows|, i requires 0 <= i < |rows| =>
      if p(rows[i]) then rows[i].(data := f(rows[i].data)) else rows[i])
  }

  /** Every serial in the table is below the sequence's next value. */
  ghost predicate SerialsBelow<T>(rows: seq<Row<T>>, next: nat) {
    forall i :: 0 <= i < |rows| ==> rows[i].serial < next
  }

  /** An UPDATE draws no serial: every serial stays below the sequence's next value. */
  lemma UpdateKeepsSerialsBelow<T>(rows: seq<Row<T>>, p: Row<T> -> bool, f: T -> T, next: nat)
    requires SerialsBelow(rows, next)
    ensures SerialsBelow(Update(rows, p, f), next)
  {
  }

  /** No row of the table, valid or not, has serial `s`. */
  ghost predicate FreshSerial<T>(rows: seq<Row<T>>, s: nat) {
    forall i :: 0 <= i < |rows| ==> rows[i].serial != s
  }
}
