/**
 * The few query shapes the handlers use, as operations on a table held as a sequence of rows
 * in table order: `SELECT … WHERE p LIMIT 1`, `DELETE … WHERE p` and `UPDATE … WHERE p`.
 */
module Tables {
  import opened Records

  /** Index of the first row satisfying `p`: the row a `LIMIT 1` query (or `rows[0]`) yields. */
  function FirstWhere<T>(rows: seq<T>, p: T -> bool): (r: Option<nat>)
    ensures r.Some? ==> r.value < |rows| && p(rows[r.value])
    ensures r.Some? ==> forall j :: 0 <= j < r.value ==> !p(rows[j])
    ensures r.None? <==> forall j :: 0 <= j < |rows| ==> !p(rows[j])
  {
    if rows == [] then None
    else if p(rows[0]) then Some(0)
    else match FirstWhere(rows[1..], p)
      case None => None
      case Some(k) => Some(k + 1)
  }

  /** The rows a `DELETE … WHERE p` leaves behind, in their original order. */
  function Remove<T>(rows: seq<T>, p: T -> bool): (r: seq<T>)
    ensures |r| <= |rows|
  {
    if rows == [] then []
    else if p(rows[0]) then Remove(rows[1..], p)
    else [rows[0]] + Remove(rows[1..], p)
  }

  /** A row survives the delete exactly when it fails the filter. */
  lemma {:induction false} RemoveMembers<T>(rows: seq<T>, p: T -> bool)
    ensures forall i :: 0 <= i < |Remove(rows, p)| ==> Remove(rows, p)[i] in rows && !p(Remove(rows, p)[i])
    ensures forall j :: 0 <= j < |rows| && !p(rows[j]) ==> rows[j] in Remove(rows, p)
  {
    if rows != [] {
      var tail := rows[1..];
      RemoveMembers(tail, p);
      var r := Remove(rows, p);
      var rest := Remove(tail, p);
      forall i | 0 <= i < |r| ensures r[i] in rows && !p(r[i]) {
        if p(rows[0]) {
          assert r[i] == rest[i] && rest[i] in tail;
        } else if i > 0 {
          assert r[i] == rest[i - 1] && rest[i - 1] in tail;
        }
      }
      forall j | 0 <= j < |rows| && !p(rows[j]) ensures rows[j] in r {
        if j > 0 {
          assert rows[j] == tail[j - 1] && tail[j - 1] in rest;
        }
      }
    }
  }

  /** Every row that fails the filter survives as often as it occurred; no matching row survives. */
  lemma {:induction false} RemoveCounts<T>(rows: seq<T>, p: T -> bool)
    ensures forall x :: multiset(Remove(rows, p))[x] == if p(x) then 0 else multiset(rows)[x]
  {
    if rows != [] {
      var tail := rows[1..];
      RemoveCounts(tail, p);
      assert rows == [rows[0]] + tail;
      if !p(rows[0]) {
        assert Remove(rows, p) == [rows[0]] + Remove(tail, p);
      }
    }
  }

  /** The delete leaves the table as it was exactly when no row matches, and then only. */
  lemma {:induction false} RemoveNoneMatch<T>(rows: seq<T>, p: T -> bool)
    ensures (forall j :: 0 <= j < |rows| ==> !p(rows[j])) ==> Remove(rows, p) == rows
    ensures (exists j :: 0 <= j < |rows| && p(rows[j])) ==> |Remove(rows, p)| < |rows|
  {
    if rows != [] {
      var tail := rows[1..];
      RemoveNoneMatch(tail, p);
      if forall j :: 0 <= j < |rows| ==> !p(rows[j]) {
        assert forall j :: 0 <= j < |tail| ==> !p(tail[j]) by {
          forall j | 0 <= j < |tail| ensures !p(tail[j]) { assert tail[j] == rows[j + 1]; }
        }
        assert rows == [rows[0]] + tail;
      }
      if !p(rows[0]) && exists j :: 0 <= j < |rows| && p(rows[j]) {
        var j :| 0 <= j < |rows| && p(rows[j]);
        assert tail[j - 1] == rows[j];
      }
    }
  }

  /** The rows after an `UPDATE … SET f WHERE p`. */
  function UpdateWhere<T>(rows: seq<T>, p: T -> bool, f: T -> T): (r: seq<T>)
    ensures |r| == |rows|
    ensures forall j :: 0 <= j < |rows| && !p(rows[j]) ==> r[j] == rows[j]
    ensures forall j :: 0 <= j < |rows| && p(rows[j]) ==> r[j] == f(rows[j])
  {
    seq(|rows|, j requires 0 <= j < |rows| => if p(rows[j]) then f(rows[j]) else rows[j])
  }

  /** An update whose filter matches no row changes nothing. */
  lemma UpdateWhereNone<T>(rows: seq<T>, p: T -> bool, f: T -> T)
    requires forall j :: 0 <= j < |rows| ==> !p(rows[j])
    ensures UpdateWhere(rows, p, f) == rows
  {
  }

  /** When exactly the row at `i` satisfies `p`, the update rewrites that row and no other. */
  lemma UpdateWhereSingle<T>(rows: seq<T>, p: T -> bool, f: T -> T, i: nat)
    requires i < |rows| && p(rows[i])
    requires forall j :: 0 <= j < |rows| && j != i ==> !p(rows[j])
    ensures UpdateWhere(rows, p, f) == rows[i := f(rows[i])]
  {
  }

  /** When exactly the row at `i` satisfies `p`, the delete takes out that row and no other. */
  lemma {:induction false} RemoveSingle<T>(rows: seq<T>, p: T -> bool, i: nat)
    requires i < |rows| && p(rows[i])
    requires forall j :: 0 <= j < |rows| && j != i ==> !p(rows[j])
    ensures Remove(rows, p) == rows[..i] + rows[i + 1..]
  {
    var tail := rows[1..];
    if i == 0 {
      assert forall j :: 0 <= j < |tail| ==> !p(tail[j]) by {
        forall j | 0 <= j < |tail| ensures !p(tail[j]) { assert tail[j] == rows[j + 1]; }
      }
      RemoveNoneMatch(tail, p);
      assert Remove(rows, p) == Remove(tail, p) == tail;
    } else {
      assert !p(rows[0]);
      forall j | 0 <= j < |tail| && j != i - 1 ensures !p(tail[j]) { assert tail[j] == rows[j + 1]; }
      RemoveSingle(tail, p, i - 1);
      assert tail[..i - 1] == rows[1..i];
      assert tail[i..] == rows[i + 1..];
      assert [rows[0]] + rows[1..i] == rows[..i];
      calc {
        Remove(rows, p);
        [rows[0]] + Remove(tail, p);
        [rows[0]] + (rows[1..i] + rows[i + 1..]);
        ([rows[0]] + rows[1..i]) + rows[i + 1..];
        rows[..i] + rows[i + 1..];
      }
    }
  }
}
