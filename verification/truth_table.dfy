/**
 Truth tables of hw3.py. The assignments to x0, ..., x(n-1) are enumerated as
 itertools.product([True, False], repeat=n) does: lexicographically, True
 before False. `generateTable` appends f's value to each assignment.
 */
module TruthTable {
  function Pow2(n: nat): (r: nat)
    ensures r >= 1
  {
    if n == 0 then 1 else 2 * Pow2(n - 1)
  }

  /** The assignment that sets all n variables to the same value b. */
  function Constant(n: nat, b: bool): (r: seq<bool>)
    ensures |r| == n && forall i :: 0 <= i < n ==> r[i] == b
  {
    seq(n, i => b)
  }

  /** a comes before b in the enumeration order: at the first difference a holds True and b holds False. */
  predicate TfBefore(a: seq<bool>, b: seq<bool>)
    requires |a| == |b|
  {
    |a| > 0 && ((a[0] && !b[0]) || (a[0] == b[0] && TfBefore(a[1..], b[1..])))
  }

  /**
   The rows of itertools.product([True, False], repeat=n): every assignment
   with x0 = True first, each followed by its continuations, then the same
   with x0 = False.
   */
  function Assignments(n: nat): (r: seq<seq<bool>>)
    ensures |r| == Pow2(n)
    ensures forall k :: 0 <= k < |r| ==> |r[k]| == n
  {
    if n == 0 then [[]]
    else
      var prev := Assignments(n - 1);
      seq(|prev|, k requires 0 <= k < |prev| => [true] + prev[k])
        + seq(|prev|, k requires 0 <= k < |prev| => [false] + prev[k])
  }

  /** Every assignment of length n is enumerated. */
  lemma {:induction false} AssignmentsComplete(n: nat, xs: seq<bool>)
    requires |xs| == n
    ensures xs in Assignments(n)
  {
    if n > 0 {
      var prev := Assignments(n - 1);
      AssignmentsComplete(n - 1, xs[1..]);
      var k :| 0 <= k < |prev| && prev[k] == xs[1..];
      assert xs == [xs[0]] + xs[1..];
      if xs[0] {
        assert Assignments(n)[k] == xs;
      } else {
        assert Assignments(n)[|prev| + k] == xs;
      }
    }
  }

  /** Each assignment is enumerated strictly before every later one. */
  lemma {:induction false} AssignmentsOrdered(n: nat)
    ensures forall k, l :: 0 <= k < l < |Assignments(n)| ==> TfBefore(Assignments(n)[k], Assignments(n)[l])
  {
    if n > 0 {
      var prev := Assignments(n - 1);
      var A := Assignments(n);
      AssignmentsOrdered(n - 1);
      forall k, l | 0 <= k < l < |A|
        ensures TfBefore(A[k], A[l])
      {
        if l < |prev| {
          assert A[k][1..] == prev[k] && A[l][1..] == prev[l];
        } else if k >= |prev| {
          assert A[k][1..] == prev[k - |prev|] && A[l][1..] == prev[l - |prev|];
        }
      }
    }
  }

  /** The first row sets every variable True and the last sets every variable False. */
  lemma {:induction false} AssignmentsEnds(n: nat)
    ensures Assignments(n)[0] == Constant(n, true)
    ensures Assignments(n)[|Assignments(n)| - 1] == Constant(n, false)
  {
    if n > 0 {
      var prev := Assignments(n - 1);
      AssignmentsEnds(n - 1);
      assert Assignments(n)[0] == [true] + prev[0];
      assert Assignments(n)[|Assignments(n)| - 1] == [false] + prev[|prev| - 1];
    }
  }

  /** The table as generateTable defines it: each assignment followed by f's value on it. */
  function TableOf(n: nat, f: seq<bool> --> bool): (t: seq<seq<bool>>)
    requires forall xs: seq<bool> :: |xs| == n ==> f.requires(xs)
    ensures |t| == Pow2(n)
  {
    var A := Assignments(n);
    seq(|A|, k requires 0 <= k < |A| => A[k] + [f(A[k])])
  }

  /** Every row has the n variables followed by f's value on them. */
  lemma TableRows(n: nat, f: seq<bool> --> bool)
    requires forall xs: seq<bool> :: |xs| == n ==> f.requires(xs)
    ensures forall k :: 0 <= k < |TableOf(n, f)| ==>
              |TableOf(n, f)[k]| == n + 1 && TableOf(n, f)[k][..n] == Assignments(n)[k]
              && TableOf(n, f)[k][n] == f(TableOf(n, f)[k][..n])
  {
    var A := Assignments(n);
    forall k | 0 <= k < |TableOf(n, f)|
      ensures TableOf(n, f)[k][..n] == A[k]
    {
      assert TableOf(n, f)[k] == A[k] + [f(A[k])];
    }
  }

  /** The rows follow the enumeration order, from all True to all False, and miss no assignment. */
  lemma TableOrder(n: nat, f: seq<bool> --> bool)
    requires forall xs: seq<bool> :: |xs| == n ==> f.requires(xs)
    ensures forall k, l :: 0 <= k < l < |TableOf(n, f)| ==> TfBefore(TableOf(n, f)[k][..n], TableOf(n, f)[l][..n])
    ensures TableOf(n, f)[0][..n] == Constant(n, true)
    ensures TableOf(n, f)[|TableOf(n, f)| - 1][..n] == Constant(n, false)
    ensures forall xs: seq<bool> :: |xs| == n ==> exists k :: 0 <= k < |TableOf(n, f)| && TableOf(n, f)[k][..n] == xs
  {
    var t := TableOf(n, f);
    var A := Assignments(n);
    TableRows(n, f);
    AssignmentsOrdered(n);
    AssignmentsEnds(n);
    forall xs: seq<bool> | |xs| == n
      ensures exists k :: 0 <= k < |t| && t[k][..n] == xs
    {
      AssignmentsComplete(n, xs);
      var j :| 0 <= j < |A| && A[j] == xs;
      assert t[j][..n] == xs;
    }
  }

  /**
   generateTable(n, f): 2^n rows of length n + 1 in enumeration order, the
   last entry of each row f applied to its first n entries; the first row is
   all True, the last all False, and every assignment has a row.
   */
  method GenerateTable(n: nat, f: seq<bool> --> bool) returns (table: seq<seq<bool>>)
    requires forall xs: seq<bool> :: |xs| == n ==> f.requires(xs)
    ensures table == TableOf(n, f)
    ensures |table| == Pow2(n)
    ensures forall k :: 0 <= k < |table| ==> |table[k]| == n + 1 && table[k][n] == f(table[k][..n])
    ensures forall k, l :: 0 <= k < l < |table| ==> TfBefore(table[k][..n], table[l][..n])
    ensures table[0][..n] == Constant(n, true) && table[|table| - 1][..n] == Constant(n, false)
    ensures forall xs: seq<bool> :: |xs| == n ==> exists k :: 0 <= k < |table| && table[k][..n] == xs
  {
    var truths := Assignments(n);
    table := [];
    var k := 0;
    while k < |truths|
      invariant 0 <= k <= |truths|
      invariant |table| == k
      invariant forall j :: 0 <= j < k ==> table[j] == truths[j] + [f(truths[j])]
    {
      var truth := truths[k];
      var result := f(truth);
      table := table + [truth + [result]];
      k := k + 1;
    }
    assert table == TableOf(n, f);
    TableRows(n, f);
    TableOrder(n, f);
  }

  /** f_test: x0 or not x1. */
  function FTest(xs: seq<bool>): bool
    requires |xs| >= 2
  {
    xs[0] || !xs[1]
  }

  /** The four assignments to two variables, in enumeration order. */
  lemma AssignmentsOfTwo()
    ensures Assignments(2) == [[true, true], [true, false], [false, true], [false, false]]
  {
    var A0 := Assignments(0);
    var A1 := Assignments(1);
    var A2 := Assignments(2);
    assert A0 == [[]];
    assert |A1| == 2 && A1[0] == [true] + A0[0] && A1[1] == [false] + A0[0];
    assert A1[0] == [true] && A1[1] == [false];
    assert |A2| == 4 && A2[0] == [true] + A1[0] && A2[1] == [true] + A1[1];
    assert A2[2] == [false] + A1[0] && A2[3] == [false] + A1[1];
    assert A2[0] == [true, true] && A2[1] == [true, false] && A2[2] == [false, true] && A2[3] == [false, false];
  }

  /** The table of f_test over two variables, row by row. */
  lemma FTestTableRows()
    ensures TableOf(2, FTest) == [[true, true, true], [true, false, true], [false, true, false], [false, false, true]]
  {
    AssignmentsOfTwo();
    var A := Assignments(2);
    var t := TableOf(2, FTest);
    assert t[0] == A[0] + [FTest(A[0])] == [true, true, true];
    assert t[1] == A[1] + [FTest(A[1])] == [true, false, true];
    assert t[2] == A[2] + [FTest(A[2])] == [false, true, false];
    assert t[3] == A[3] + [FTest(A[3])] == [false, false, true];
  }

  /** generateTable(2, f_test) is the table in the documentation of generateTable. */
  method FTestTable() returns (table: seq<seq<bool>>)
    ensures table == [[true, true, true], [true, false, true], [false, true, false], [false, false, true]]
  {
    table := GenerateTable(2, FTest);
    FTestTableRows();
  }
}
