/**
 `convertToDNF` of hw3.py: one parenthesised conjunction per true row of a
 truth table, in table order, joined by " v ". A conjunction lists x0, ...,
 x(n-1) in index order, separated by " ^ ", each with the prefix n when the
 row sets that variable False. The text is built with trailing separators
 that the slice [:-3] cuts off again.
 */
module Dnf {
  import opened TruthTable

  const DigitChars: string := "0123456789"

  /** str(i): the decimal numeral of i, without leading zeros. */
  function NatStr(i: nat): (s: string)
    ensures |s| >= 1
    ensures forall k :: 0 <= k < |s| ==> s[k] in DigitChars
    ensures i >= 10 ==> s[0] != '0'
  {
    if i < 10 then [DigitChars[i]] else NatStr(i / 10) + [DigitChars[i % 10]]
  }

  function DigitValue(c: char): nat {
    if '0' <= c <= '9' then (c as int - '0' as int) as nat else 0
  }

  /** The number a string of decimal digits denotes. */
  function NumeralValue(s: string): nat {
    if s == [] then 0 else 10 * NumeralValue(s[..|s| - 1]) + DigitValue(s[|s| - 1])
  }

  /** Reading back the numeral gives the number. */
  lemma {:induction false} NatStrValue(i: nat)
    ensures NumeralValue(NatStr(i)) == i
  {
    if i >= 10 {
      NatStrValue(i / 10);
      var s := NatStr(i);
      assert s[..|s| - 1] == NatStr(i / 10);
    }
  }

  /** The elements of xs with sep between neighbours. */
  function Join(sep: string, xs: seq<string>): string {
    if xs == [] then ""
    else if |xs| == 1 then xs[0]
    else Join(sep, xs[..|xs| - 1]) + sep + xs[|xs| - 1]
  }

  /** The elements of xs each followed by sep: what the loops of convertToDNF accumulate. */
  function Terminated(xs: seq<string>, sep: string): string {
    if xs == [] then "" else Terminated(xs[..|xs| - 1], sep) + xs[|xs| - 1] + sep
  }

  /** Python's s[:-3]: s without its last three characters, empty when s is shorter. */
  function DropLast3(s: string): (r: string)
    ensures |s| >= 3 ==> s == r + s[|s| - 3..]
    ensures |s| < 3 ==> r == ""
  {
    if |s| >= 3 then s[..|s| - 3] else ""
  }

  /** A non-empty list with a separator after every element is the joined list plus one separator. */
  lemma {:induction false} TerminatedIsJoin(xs: seq<string>, sep: string)
    requires xs != []
    ensures Terminated(xs, sep) == Join(sep, xs) + sep
  {
    if |xs| > 1 {
      TerminatedIsJoin(xs[..|xs| - 1], sep);
    } else {
      assert xs[..0] == [];
    }
  }

  /** Cutting the last three characters removes a three-character suffix. */
  lemma DropSuffix(s: string, t: string)
    requires |t| == 3
    ensures DropLast3(s + t) == s
  {
    assert (s + t)[..|s|] == s;
  }

  /** The literal for variable i: xi when the row sets it True, nxi when False. */
  function Literal(i: nat, value: bool): string {
    (if value then "" else "n") + "x" + NatStr(i)
  }

  /** The literals for x0, ..., x(j-1) under the values in row. */
  function Literals(row: seq<bool>, j: nat): (r: seq<string>)
    requires j <= |row|
    ensures |r| == j && forall i :: 0 <= i < j ==> r[i] == Literal(i, row[i])
  {
    seq(j, i requires 0 <= i < j => Literal(i, row[i]))
  }

  /** The conjunction for one assignment: its literals in index order inside parentheses. */
  function Conj(t: seq<bool>): string {
    "(" + Join(" ^ ", Literals(t, |t|)) + ")"
  }

  /** Every row holds n variable values followed by the function value, as generateTable builds it. */
  predicate TableRowsHaveWidth(n: nat, table: seq<seq<bool>>) {
    forall k :: 0 <= k < |table| ==> |table[k]| == n + 1
  }

  /** The assignments of the true rows, in table order. */
  function Terms(n: nat, table: seq<seq<bool>>): seq<seq<bool>>
    requires TableRowsHaveWidth(n, table)
  {
    if table == [] then []
    else
      var row := table[|table| - 1];
      Terms(n, table[..|table| - 1]) + (if row[n] then [row[..n]] else [])
  }

  /** The conjunction text of each term. */
  function ConjStrs(terms: seq<seq<bool>>): (r: seq<string>)
    ensures |r| == |terms|
  {
    if terms == [] then [] else ConjStrs(terms[..|terms| - 1]) + [Conj(terms[|terms| - 1])]
  }

  /** The formula for a list of terms: their conjunctions joined by " v ". */
  function Render(terms: seq<seq<bool>>): string {
    Join(" v ", ConjStrs(terms))
  }

  /** The literals of the first n entries of a row are those of the row itself. */
  lemma LiteralsOfPrefix(row: seq<bool>, n: nat)
    requires n <= |row|
    ensures Literals(row[..n], n) == Literals(row, n)
  {
  }

  /** One step of the inner loop: a further literal and separator. */
  lemma LiteralsStep(row: seq<bool>, j: nat)
    requires j < |row|
    ensures Terminated(Literals(row, j + 1), " ^ ") == Terminated(Literals(row, j), " ^ ") + (Literal(j, row[j]) + " ^ ")
  {
    assert Literals(row, j + 1)[..j] == Literals(row, j);
  }

  /** One step of the outer loop over the table. */
  lemma TermsStep(n: nat, table: seq<seq<bool>>, k: nat)
    requires TableRowsHaveWidth(n, table)
    requires k < |table|
    ensures table[k][n] ==> ConjStrs(Terms(n, table[..k + 1])) == ConjStrs(Terms(n, table[..k])) + [Conj(table[k][..n])]
    ensures !table[k][n] ==> Terms(n, table[..k + 1]) == Terms(n, table[..k])
  {
    assert table[..k + 1][..k] == table[..k];
    if table[k][n] {
      var ts := Terms(n, table[..k + 1]);
      assert ts[..|ts| - 1] == Terms(n, table[..k]);
    }
  }

  /**
   The body of convertToDNF for one true row: "(", then each literal followed
   by " ^ ", then the last separator cut off and ") v " appended.
   */
  method AppendConj(res: string, row: seq<bool>, n: nat) returns (out: string)
    requires |row| == n + 1
    ensures n >= 1 ==> out == res + Conj(row[..n]) + " v "
  {
    ghost var head := res + "(";
    out := res + "(";
    var i := 0;
    while i < n
      invariant 0 <= i <= n
      invariant out == head + Terminated(Literals(row, i), " ^ ")
    {
      ghost var prev := out;
      LiteralsStep(row, i);
      if !row[i] {
        out := out + "n";
      }
      out := out + "x" + NatStr(i) + " ^ ";
      StepText(prev, row[i], i);
      Assoc(head, Terminated(Literals(row, i), " ^ "), Literal(i, row[i]) + " ^ ");
      i := i + 1;
    }
    if n >= 1 {
      CloseConj(res, row, n, out);
    }
    out := DropLast3(out) + ") v ";
  }

  lemma Assoc(a: string, b: string, c: string)
    ensures a + (b + c) == a + b + c
  {
  }

  /** The text one pass of the inner loop appends is the literal and its separator. */
  lemma StepText(prev: string, b: bool, i: nat)
    ensures (if !b then prev + "n" else prev) + "x" + NatStr(i) + " ^ " == prev + (Literal(i, b) + " ^ ")
  {
  }

  /** Cutting the last " ^ " and appending ") v " completes the conjunction of the row. */
  lemma CloseConj(res: string, row: seq<bool>, n: nat, out: string)
    requires 1 <= n < |row|
    requires out == res + "(" + Terminated(Literals(row, n), " ^ ")
    ensures DropLast3(out) + ") v " == res + Conj(row[..n]) + " v "
  {
    var body := Join(" ^ ", Literals(row, n));
    TerminatedIsJoin(Literals(row, n), " ^ ");
    assert out == (res + "(" + body) + " ^ ";
    LiteralsOfPrefix(row, n);
    DropSuffix(res + "(" + body, " ^ ");
  }

  /**
   convertToDNF(n, table). For n >= 1 the result is the conjunctions of the
   true rows joined by " v "; with no true row it is the empty string.
   */
  method ConvertToDNF(n: nat, table: seq<seq<bool>>) returns (res: string)
    requires TableRowsHaveWidth(n, table)
    ensures n >= 1 ==> res == Render(Terms(n, table))
    ensures Terms(n, table) == [] ==> res == ""
  {
    res := "";
    var k := 0;
    while k < |table|
      invariant 0 <= k <= |table|
      invariant n >= 1 ==> res == Terminated(ConjStrs(Terms(n, table[..k])), " v ")
      invariant Terms(n, table[..k]) == [] ==> res == ""
    {
      var row := table[k];
      var result := row[n];
      TermsStep(n, table, k);
      if result {
        res := AppendConj(res, row, n);
      }
      k := k + 1;
    }
    assert table[..k] == table;
    if n >= 1 && Terms(n, table) != [] {
      TerminatedIsJoin(ConjStrs(Terms(n, table)), " v ");
      DropSuffix(Render(Terms(n, table)), " v ");
    }
    res := DropLast3(res);
  }

  /** An assignment x satisfies the conjunction for t when each variable has the value t gives it. */
  predicate SatConj(t: seq<bool>, x: seq<bool>) {
    |x| == |t| && forall i :: 0 <= i < |t| ==> (if t[i] then x[i] else !x[i])
  }

  /** An assignment satisfies the formula when it satisfies one of its conjunctions. */
  predicate SatDnf(terms: seq<seq<bool>>, x: seq<bool>) {
    exists k :: 0 <= k < |terms| && SatConj(terms[k], x)
  }

  /** The terms are exactly the assignments of the true rows. */
  lemma {:induction false} TermsMembers(n: nat, table: seq<seq<bool>>, t: seq<bool>)
    requires TableRowsHaveWidth(n, table)
    ensures t in Terms(n, table) <==> exists k :: 0 <= k < |table| && table[k][n] && table[k][..n] == t
  {
    if table != [] {
      var prefix := table[..|table| - 1];
      TermsMembers(n, prefix, t);
      if t in Terms(n, prefix) {
        var k :| 0 <= k < |prefix| && prefix[k][n] && prefix[k][..n] == t;
        assert table[k] == prefix[k];
      }
      if exists k :: 0 <= k < |table| && table[k][n] && table[k][..n] == t {
        var k :| 0 <= k < |table| && table[k][n] && table[k][..n] == t;
        if k < |table| - 1 {
          assert prefix[k] == table[k];
        }
      }
    }
  }

  /** Every assignment that satisfies the formula of a table is a true row of it. */
  lemma SatisfiedMeansTrueRow(n: nat, table: seq<seq<bool>>, x: seq<bool>)
    requires TableRowsHaveWidth(n, table)
    requires SatDnf(Terms(n, table), x)
    ensures exists m :: 0 <= m < |table| && table[m][n] && table[m][..n] == x
  {
    var terms := Terms(n, table);
    var k :| 0 <= k < |terms| && SatConj(terms[k], x);
    TermsMembers(n, table, terms[k]);
    var m :| 0 <= m < |table| && table[m][n] && table[m][..n] == terms[k];
    assert x == terms[k];
  }

  /** Every true row of a table satisfies its formula. */
  lemma TrueRowSatisfies(n: nat, table: seq<seq<bool>>, m: nat)
    requires TableRowsHaveWidth(n, table)
    requires m < |table| && table[m][n]
    ensures SatDnf(Terms(n, table), table[m][..n])
  {
    var x := table[m][..n];
    TermsMembers(n, table, x);
    var terms := Terms(n, table);
    var k :| 0 <= k < |terms| && terms[k] == x;
    assert SatConj(terms[k], x);
  }

  /**
   The formula is equivalent to the function it was built from: an
   assignment satisfies the DNF of generateTable(n, f) exactly when f holds on it.
   */
  lemma DnfMatchesFunction(n: nat, f: seq<bool> --> bool, x: seq<bool>)
    requires forall xs: seq<bool> :: |xs| == n ==> f.requires(xs)
    requires |x| == n
    ensures TableRowsHaveWidth(n, TableOf(n, f))
    ensures SatDnf(Terms(n, TableOf(n, f)), x) <==> f(x)
  {
    var table := TableOf(n, f);
    TableRows(n, f);
    TableOrder(n, f);
    var m :| 0 <= m < |table| && table[m][..n] == x;
    assert table[m][n] == f(x);
    if SatDnf(Terms(n, table), x) {
      SatisfiedMeansTrueRow(n, table, x);
    }
    if f(x) {
      TrueRowSatisfies(n, table, m);
    }
  }

  /** convertToDNF(2, generateTable(2, f_test)) is the formula given in its documentation. */
  method FTestDnf() returns (s: string)
    ensures s == "(x0 ^ x1) v (x0 ^ nx1) v (nx0 ^ nx1)"
  {
    var table := FTestTable();
    s := ConvertToDNF(2, table);
    ExampleTerms(table);
    ExampleRender();
  }

  lemma ExampleTerms(table: seq<seq<bool>>)
    requires table == [[true, true, true], [true, false, true], [false, true, false], [false, false, true]]
    ensures Terms(2, table) == [[true, true], [true, false], [false, false]]
  {
    assert table[..1][..0] == [] && table[..2][..1] == table[..1];
    assert table[..3][..2] == table[..2] && table[..3] == table[..|table| - 1];
    assert table[..1][0] == table[0] && table[..2][1] == table[1] && table[..3][2] == table[2];
    assert Terms(2, table[..1]) == [table[0][..2]];
    assert Terms(2, table[..2]) == [table[0][..2], table[1][..2]];
    assert Terms(2, table[..3]) == [table[0][..2], table[1][..2]];
    assert Terms(2, table) == [table[0][..2], table[1][..2], table[3][..2]];
    assert table[0][..2] == [true, true] && table[1][..2] == [true, false] && table[3][..2] == [false, false];
  }

  /** The conjunction of a two-variable assignment. */
  lemma ConjOfTwo(t: seq<bool>)
    requires |t| == 2
    ensures Conj(t) == "(" + Literal(0, t[0]) + " ^ " + Literal(1, t[1]) + ")"
  {
    var lits := Literals(t, 2);
    assert lits[..1] == [Literal(0, t[0])];
    assert Join(" ^ ", lits) == Literal(0, t[0]) + " ^ " + Literal(1, t[1]);
  }

  lemma JoinOfThree(sep: string, a: string, b: string, c: string)
    ensures Join(sep, [a, b, c]) == a + sep + b + sep + c
  {
    assert [a, b, c][..2] == [a, b] && [a, b][..1] == [a];
    assert Join(sep, [a]) == a;
    assert Join(sep, [a, b]) == a + sep + b;
  }

  lemma ConjStrsOfThree(t0: seq<bool>, t1: seq<bool>, t2: seq<bool>)
    ensures ConjStrs([t0, t1, t2]) == [Conj(t0), Conj(t1), Conj(t2)]
  {
    var terms := [t0, t1, t2];
    assert terms[..2] == [t0, t1] && terms[..2][..1] == [t0] && terms[..2][..1][..0] == [];
    assert ConjStrs([t0]) == [Conj(t0)];
    assert ConjStrs([t0, t1]) == [Conj(t0), Conj(t1)];
  }

  lemma ExampleLiterals()
    ensures Literal(0, true) == "x0" && Literal(1, true) == "x1"
    ensures Literal(0, false) == "nx0" && Literal(1, false) == "nx1"
  {
    assert NatStr(0) == "0" && NatStr(1) == "1";
  }

  lemma ExampleConjs()
    ensures Conj([true, true]) == "(x0 ^ x1)"
    ensures Conj([true, false]) == "(x0 ^ nx1)"
    ensures Conj([false, false]) == "(nx0 ^ nx1)"
  {
    ExampleLiterals();
    ConjOfTwo([true, true]);
    ConjOfTwo([true, false]);
    ConjOfTwo([false, false]);
  }

  lemma ExampleRender()
    ensures Render([[true, true], [true, false], [false, false]]) == "(x0 ^ x1) v (x0 ^ nx1) v (nx0 ^ nx1)"
  {
    ExampleConjs();
    ConjStrsOfThree([true, true], [true, false], [false, false]);
    JoinOfThree(" v ", "(x0 ^ x1)", "(x0 ^ nx1)", "(nx0 ^ nx1)");
  }
}
