/**
 * A database table as a sequence of rows in primary-key order, and the four
 * statement shapes the handlers issue against it: SELECT ... WHERE (the first
 * matching row, which is `rows[0]` of the result set), SELECT COUNT(*) ... WHERE,
 * UPDATE ... WHERE and DELETE ... WHERE. A WHERE clause is a predicate on rows.
 */
module Table {

  datatype Option<+T> = None | Some(value: T)

  /** Index of the first row satisfying `p`, if any. */
  function Find<T>(rows: seq<T>, p: T -> bool): (r: Option<nat>)
    ensures r.Some? ==> r.value < |rows| && p(rows[r.value])
    ensures r.Some? ==> forall j :: 0 <= j < r.value ==> !p(rows[j])
    ensures r.None? ==> forall j :: 0 <= j < |rows| ==> !p(rows[j])
  {
    if |rows| == 0 then None
    else if p(rows[0]) then Some(0)
    else match Find(rows[1..], p)
      case None => None
      case Some(k) => Some(k + 1)
  }

  /** Number of rows satisfying `p`. */
  function Count<T>(rows: seq<T>, p: T -> bool): (n: nat)
    ensures n <= |rows|
  {
    if |rows| == 0 then 0
    else (if p(rows[0]) then 1 else 0) + Count(rows[1..], p)
  }

  /** True when some row satisfies `p`. */
  predicate Any<T>(rows: seq<T>, p: T -> bool)
  {
    exists i :: 0 <= i < |rows| && p(rows[i])
  }

  /** Every row satisfying `p` is replaced by `f` of it; the others stay. */
  function UpdateWhere<T>(rows: seq<T>, p: T -> bool, f: T -> T): (r: seq<T>)
    ensures |r| == |rows|
    ensures forall i :: 0 <= i < |rows| ==> r[i] == if p(rows[i]) then f(rows[i]) else rows[i]
  {
    if |rows| == 0 then []
    else [if p(rows[0]) then f(rows[0]) else rows[0]] + UpdateWhere(rows[1..], p, f)
  }

  /** The rows not satisfying `p`, in their original order. */
  function DeleteWhere<T>(rows: seq<T>, p: T -> bool): (r: seq<T>)
    ensures |r| == |rows| - Count(rows, p)
    ensures forall i :: 0 <= i < |r| ==> r[i] in rows && !p(r[i])
    ensures forall i :: 0 <= i < |rows| && !p(rows[i]) ==> rows[i] in r
  {
    if |rows| == 0 then []
    else if p(rows[0]) then DeleteWhere(rows[1..], p)
    else [rows[0]] + DeleteWhere(rows[1..], p)
  }

  /** A count is positive exactly when some row matches. */
  lemma {:induction false} CountPositive<T>(rows: seq<T>, p: T -> bool)
    ensures Count(rows, p) > 0 <==> Any(rows, p)
  {
    if |rows| > 0 {
      CountPositive(rows[1..], p);
      if Any(rows[1..], p) {
        var i :| 0 <= i < |rows[1..]| && p(rows[1..][i]);
        assert p(rows[i + 1]);
      }
      if Any(rows, p) && !p(rows[0]) {
        var i :| 0 <= i < |rows| && p(rows[i]);
        assert p(rows[1..][i - 1]);
      }
    }
  }

  /** Find succeeds exactly when some row matches. */
  lemma FindSome<T>(rows: seq<T>, p: T -> bool)
    ensures Find(rows, p).Some? <==> Any(rows, p)
  {
  }

  /** Appending a row adds one to the count when it matches, else nothing. */
  lemma {:induction false} CountAppend<T>(rows: seq<T>, x: T, p: T -> bool)
    ensures Count(rows + [x], p) == Count(rows, p) + (if p(x) then 1 else 0)
  {
    if |rows| == 0 {
      assert rows + [x] == [x];
    } else {
      assert (rows + [x])[1..] == rows[1..] + [x];
      CountAppend(rows[1..], x, p);
    }
  }

  /** Two tables that agree on which rows match have the same count. */
  lemma {:induction false} CountSameMatches<T>(a: seq<T>, b: seq<T>, p: T -> bool, q: T -> bool)
    requires |a| == |b|
    requires forall i :: 0 <= i < |a| ==> (p(a[i]) <==> q(b[i]))
    ensures Count(a, p) == Count(b, q)
  {
    if |a| > 0 {
      CountSameMatches(a[1..], b[1..], p, q);
    }
  }

  /** Two tables whose rows match at the same places have the same first match. */
  lemma {:induction false} FindSameMatches<T>(a: seq<T>, b: seq<T>, p: T -> bool)
    requires |a| == |b|
    requires forall j :: 0 <= j < |a| ==> p(a[j]) == p(b[j])
    ensures Find(a, p) == Find(b, p)
  {
    if |a| > 0 {
      FindSameMatches(a[1..], b[1..], p);
    }
  }

  /** Two distinct matching rows make a count of at least two. */
  lemma {:induction false} CountAtLeastTwo<T>(rows: seq<T>, i: nat, j: nat, p: T -> bool)
    requires i < |rows| && j < |rows| && i != j && p(rows[i]) && p(rows[j])
    ensures Count(rows, p) >= 2
  {
    if i == 0 || j == 0 {
      var other := if i == 0 then j else i;
      assert p(rows[1..][other - 1]);
      CountPositive(rows[1..], p);
    } else {
      CountAtLeastTwo(rows[1..], i - 1, j - 1, p);
    }
  }

  /** A count of rows that no row matches is zero. */
  lemma {:induction false} CountNone<T>(rows: seq<T>, p: T -> bool)
    requires forall i :: 0 <= i < |rows| ==> !p(rows[i])
    ensures Count(rows, p) == 0
  {
    if |rows| > 0 {
      CountNone(rows[1..], p);
    }
  }

  /**
   * Changing one row moves a count by at most the change at that row:
   * the count over the new table is the old count, minus one if the old row
   * matched, plus one if the new row matches.
   */
  lemma {:induction false} CountReplace<T>(rows: seq<T>, k: nat, x: T, p: T -> bool)
    requires k < |rows|
    ensures Count(rows[k := x], p)
         == Count(rows, p) - (if p(rows[k]) then 1 else 0) + (if p(x) then 1 else 0)
  {
    if k == 0 {
      assert rows[k := x][1..] == rows[1..];
    } else {
      assert rows[k := x][1..] == rows[1..][k - 1 := x];
      CountReplace(rows[1..], k - 1, x, p);
    }
  }

  /**
   * An UPDATE that never makes a row match `q` when it did not match before
   * does not raise the count of `q`.
   */
  lemma {:induction false} CountUpdateWhere<T>(rows: seq<T>, p: T -> bool, f: T -> T, q: T -> bool)
    requires forall i :: 0 <= i < |rows| && p(rows[i]) && q(f(rows[i])) ==> q(rows[i])
    ensures Count(UpdateWhere(rows, p, f), q) <= Count(rows, q)
  {
    if |rows| > 0 {
      CountUpdateWhere(rows[1..], p, f, q);
      assert UpdateWhere(rows, p, f)[1..] == UpdateWhere(rows[1..], p, f);
    }
  }

  /** A DELETE does not raise any count. */
  lemma {:induction false} CountDeleteWhere<T>(rows: seq<T>, p: T -> bool, q: T -> bool)
    ensures Count(DeleteWhere(rows, p), q) <= Count(rows, q)
  {
    if |rows| > 0 {
      CountDeleteWhere(rows[1..], p, q);
      if !p(rows[0]) {
        assert DeleteWhere(rows, p)[1..] == DeleteWhere(rows[1..], p);
      }
    }
  }

  /** Deleting nothing leaves the table as it was. */
  lemma {:induction false} DeleteNothing<T>(rows: seq<T>, p: T -> bool)
    requires forall i :: 0 <= i < |rows| ==> !p(rows[i])
    ensures DeleteWhere(rows, p) == rows
  {
    if |rows| > 0 {
      DeleteNothing(rows[1..], p);
      assert [rows[0]] + rows[1..] == rows;
    }
  }

  /** Updating no row leaves the table as it was. */
  lemma UpdateNothing<T>(rows: seq<T>, p: T -> bool, f: T -> T)
    requires forall i :: 0 <= i < |rows| ==> !p(rows[i])
    ensures UpdateWhere(rows, p, f) == rows
  {
  }

  /**
   * A DELETE goes row by row: on two tables one after the other it gives
   * the two DELETEs one after the other, so the rows that stay keep their
   * order.
   */
  lemma {:induction false} DeleteWhereAppend<T>(a: seq<T>, b: seq<T>, p: T -> bool)
    ensures DeleteWhere(a + b, p) == DeleteWhere(a, p) + DeleteWhere(b, p)
  {
    if |a| > 0 {
      var rest := DeleteWhere(a[1..] + b, p);
      assert (a + b)[0] == a[0] && (a + b)[1..] == a[1..] + b;
      assert DeleteWhere(a + b, p) == if p(a[0]) then rest else [a[0]] + rest;
      DeleteWhereAppend(a[1..], b, p);
      assert DeleteWhere(a, p) == if p(a[0]) then DeleteWhere(a[1..], p) else [a[0]] + DeleteWhere(a[1..], p);
    } else {
      assert a + b == b;
    }
  }

  /** A single row goes exactly when it matches. */
  lemma DeleteWhereOne<T>(x: T, p: T -> bool)
    ensures DeleteWhere([x], p) == if p(x) then [] else [x]
  {
    assert [x][1..] == [];
  }

  lemma CountOne<T>(x: T, p: T -> bool)
    ensures Count([x], p) == if p(x) then 1 else 0
  {
    assert [x][1..] == [];
  }

  lemma FindSecond<T>(x: T, y: T, p: T -> bool)
    requires !p(x) && p(y)
    ensures Find([x, y], p) == Some(1)
  {
    assert [x, y][1..] == [y];
  }
}
