/**
 The graph representations of hw6.py. A graph is a vertex list V = [0, ..., n-1]
 and an edge list E of two-element vertex sets; the converters turn the edge
 list into an adjacency list, a 0/1 adjacency matrix and a degree list.

 An edge {a, b} is written as the pair UEdge(a, b) that unpacking the set
 yields. Each converter treats both ends alike (it appends, marks or counts at
 a and at b), so its result does not depend on which of the two orders the
 unpacking produces.
 */
module GraphConvert {
  /** A two-element vertex set {a, b}. */
  datatype UEdge = UEdge(a: nat, b: nat)

  /** The (V, E) pair that the constructors return. */
  datatype Graph = Graph(V: seq<nat>, E: seq<UEdge>)

  /** Every edge has two different ends, both among the n vertices. */
  predicate ValidEdges(n: nat, E: seq<UEdge>) {
    forall k :: 0 <= k < |E| ==> E[k].a < n && E[k].b < n && E[k].a != E[k].b
  }

  /** e is the edge {i, j}. */
  predicate Joins(e: UEdge, i: nat, j: nat) {
    (e.a == i && e.b == j) || (e.a == j && e.b == i)
  }

  /** Some edge of E is {i, j}. */
  predicate Adjacent(E: seq<UEdge>, i: nat, j: nat) {
    exists k :: 0 <= k < |E| && Joins(E[k], i, j)
  }

  /** No two entries of E are the same vertex set: the graph is simple. */
  predicate NoRepeatedEdges(E: seq<UEdge>) {
    forall k, l :: 0 <= k < l < |E| ==> !Joins(E[l], E[k].a, E[k].b)
  }

  /** Strict lexicographic order on pairs. */
  predicate LexLess(e: UEdge, f: UEdge) {
    e.a < f.a || (e.a == f.a && e.b < f.b)
  }

  /** V holds 0, ..., n-1 in order. */
  predicate IsVertexList(V: seq<nat>, n: nat) {
    |V| == n && forall i :: 0 <= i < n ==> V[i] == i
  }

  function VertexList(n: nat): (V: seq<nat>)
    ensures IsVertexList(V, n)
  {
    seq(n, i requires 0 <= i => i)
  }

  /** createEmptyGraph(n): the vertices 0..n-1 and no edges. */
  function CreateEmptyGraph(n: nat): (g: Graph)
    ensures IsVertexList(g.V, n) && g.E == []
    ensures forall i, j :: !Adjacent(g.E, i, j)
  {
    Graph(VertexList(n), [])
  }

  /** The pairs (i, j), (i, j + 1), ..., (i, n - 1). */
  function RowPairs(i: nat, j: nat, n: nat): (r: seq<UEdge>)
    requires j <= n
    ensures |r| == n - j
    ensures forall k :: 0 <= k < |r| ==> r[k] == UEdge(i, j + k)
    decreases n - j
  {
    if j == n then [] else [UEdge(i, j)] + RowPairs(i, j + 1, n)
  }

  /**
   The two-element combinations of i, ..., n-1 in the order itertools emits
   them: lexicographic, each pair with its smaller element first.
   */
  function PairsFrom(i: nat, n: nat): (r: seq<UEdge>)
    requires i <= n
    ensures forall k :: 0 <= k < |r| ==> i <= r[k].a < r[k].b < n
    ensures forall p, q :: i <= p < q < n ==> UEdge(p, q) in r
    ensures forall k, l :: 0 <= k < l < |r| ==> LexLess(r[k], r[l])
    ensures 2 * |r| == (n - i) * (n - i - 1)
    decreases n - i
  {
    if i == n then []
    else
      var row := RowPairs(i, i + 1, n);
      var rest := PairsFrom(i + 1, n);
      assert forall p, q :: i <= p < q < n ==> UEdge(p, q) in row + rest by {
        forall p, q | i <= p < q < n
          ensures UEdge(p, q) in row + rest
        {
          if p == i {
            assert row[q - i - 1] == UEdge(p, q);
          }
        }
      }
      row + rest
  }

  /** Distinct sets only, since the pairs are strictly increasing and each is ordered. */
  lemma LexIncreasingNoRepeats(E: seq<UEdge>)
    requires forall k :: 0 <= k < |E| ==> E[k].a < E[k].b
    requires forall k, l :: 0 <= k < l < |E| ==> LexLess(E[k], E[l])
    ensures NoRepeatedEdges(E)
  {
  }

  /**
   createCompleteGraph(n): the vertices 0..n-1 and every two-element subset of
   them exactly once, n(n-1)/2 edges in all, in lexicographic order.
   */
  function CreateCompleteGraph(n: nat): (g: Graph)
    ensures IsVertexList(g.V, n) && ValidEdges(n, g.E)
    ensures forall k :: 0 <= k < |g.E| ==> g.E[k].a < g.E[k].b
    ensures 2 * |g.E| == n * (n - 1)
    ensures forall i: nat, j: nat :: i < n && j < n && i != j ==> Adjacent(g.E, i, j)
    ensures forall k, l :: 0 <= k < l < |g.E| ==> LexLess(g.E[k], g.E[l])
    ensures NoRepeatedEdges(g.E)
  {
    var E := PairsFrom(0, n);
    forall i: nat, j: nat | i < n && j < n && i != j
      ensures Adjacent(E, i, j)
    {
      var p, q := if i < j then i else j, if i < j then j else i;
      assert UEdge(p, q) in E;
      var k :| 0 <= k < |E| && E[k] == UEdge(p, q);
      assert Joins(E[k], i, j);
    }
    LexIncreasingNoRepeats(E);
    Graph(VertexList(n), E)
  }

  /** createExampleGraph: four vertices and the five edges listed in hw6.py. */
  function CreateExampleGraph(): (g: Graph)
    ensures IsVertexList(g.V, 4) && ValidEdges(4, g.E) && NoRepeatedEdges(g.E)
    ensures |g.E| == 5
  {
    Graph([0, 1, 2, 3], [UEdge(0, 1), UEdge(0, 2), UEdge(0, 3), UEdge(1, 2), UEdge(2, 3)])
  }

  /**
   The adjacency list entry of i built from E: for each edge in order, the
   other end when i is one of its ends (the two appends of the loop body).
   */
  function Incident(E: seq<UEdge>, i: nat): seq<nat> {
    if E == [] then []
    else
      var e := E[|E| - 1];
      Incident(E[..|E| - 1], i) + (if e.a == i then [e.b] else []) + (if e.b == i then [e.a] else [])
  }

  /** The number of edge ends at i: the degree counter after the loop over E. */
  function Degree(E: seq<UEdge>, i: nat): nat {
    if E == [] then 0
    else
      var e := E[|E| - 1];
      Degree(E[..|E| - 1], i) + (if e.a == i then 1 else 0) + (if e.b == i then 1 else 0)
  }

  function Sum(s: seq<int>): int {
    if s == [] then 0 else Sum(s[..|s| - 1]) + s[|s| - 1]
  }

  /**
   getAdjacencyList: one list per vertex, and the fold over E appends b to the
   list of a and a to the list of b.
   */
  method GetAdjacencyList(V: seq<nat>, E: seq<UEdge>) returns (L: seq<seq<nat>>)
    requires ValidEdges(|V|, E)
    ensures |L| == |V|
    ensures forall i :: 0 <= i < |V| ==> L[i] == Incident(E, i)
  {
    L := seq(|V|, i => []);
    var k := 0;
    while k < |E|
      invariant 0 <= k <= |E|
      invariant |L| == |V|
      invariant forall i :: 0 <= i < |V| ==> L[i] == Incident(E[..k], i)
    {
      assert E[..k + 1][..k] == E[..k];
      var a, b := E[k].a, E[k].b;
      L := L[a := L[a] + [b]];
      L := L[b := L[b] + [a]];
      k := k + 1;
    }
    assert E[..k] == E;
  }

  /**
   getAdjacencyMatrix: an n x n matrix of zeros in which both cells of every
   edge are set to 1. A cell is 1 exactly when its two vertices are joined.
   */
  method GetAdjacencyMatrix(V: seq<nat>, E: seq<UEdge>) returns (M: seq<seq<int>>)
    requires ValidEdges(|V|, E)
    ensures |M| == |V| && forall i :: 0 <= i < |V| ==> |M[i]| == |V|
    ensures forall i, j :: 0 <= i < |V| && 0 <= j < |V| ==> M[i][j] == if Adjacent(E, i, j) then 1 else 0
  {
    var n := |V|;
    M := seq(n, i => seq(n, j => 0));
    var k := 0;
    while k < |E|
      invariant 0 <= k <= |E|
      invariant |M| == n && forall i :: 0 <= i < n ==> |M[i]| == n
      invariant forall i, j :: 0 <= i < n && 0 <= j < n ==>
                  M[i][j] == if exists l :: 0 <= l < k && Joins(E[l], i, j) then 1 else 0
    {
      var a, b := E[k].a, E[k].b;
      M := M[a := M[a][b := 1]];
      M := M[b := M[b][a := 1]];
      forall i, j | 0 <= i < n && 0 <= j < n
        ensures M[i][j] == if exists l :: 0 <= l < k + 1 && Joins(E[l], i, j) then 1 else 0
      {
        if Joins(E[k], i, j) {
          assert M[i][j] == 1;
        }
      }
      k := k + 1;
    }
  }

  /** getDegreeList: a counter per vertex, incremented at both ends of every edge. */
  method GetDegreeList(V: seq<nat>, E: seq<UEdge>) returns (D: seq<nat>)
    requires ValidEdges(|V|, E)
    ensures |D| == |V|
    ensures forall i :: 0 <= i < |V| ==> D[i] == Degree(E, i)
  {
    D := seq(|V|, i => 0);
    var k := 0;
    while k < |E|
      invariant 0 <= k <= |E|
      invariant |D| == |V|
      invariant forall i :: 0 <= i < |V| ==> D[i] == Degree(E[..k], i)
    {
      assert E[..k + 1][..k] == E[..k];
      var a, b := E[k].a, E[k].b;
      D := D[a := D[a] + 1];
      D := D[b := D[b] + 1];
      k := k + 1;
    }
    assert E[..k] == E;
  }

  /** The adjacency list of i names exactly the vertices joined to i. */
  lemma {:induction false} IncidentMembers(E: seq<UEdge>, i: nat, x: nat)
    ensures x in Incident(E, i) <==> Adjacent(E, i, x)
  {
    if E != [] {
      var E', e := E[..|E| - 1], E[|E| - 1];
      IncidentMembers(E', i, x);
      if Adjacent(E', i, x) {
        var k :| 0 <= k < |E'| && Joins(E'[k], i, x);
        assert Joins(E[k], i, x);
      }
      if Adjacent(E, i, x) && !Joins(e, i, x) {
        var k :| 0 <= k < |E| && Joins(E[k], i, x);
        assert Joins(E'[k], i, x);
      }
    }
  }

  /** The adjacency list of i is as long as the degree of i. */
  lemma {:induction false} IncidentLength(E: seq<UEdge>, i: nat)
    ensures |Incident(E, i)| == Degree(E, i)
  {
    if E != [] {
      IncidentLength(E[..|E| - 1], i);
    }
  }

  /** In a simple graph the other end of the last edge at i is not already listed for i. */
  lemma LastEdgeNew(n: nat, E: seq<UEdge>, i: nat, x: nat)
    requires ValidEdges(n, E) && NoRepeatedEdges(E) && E != []
    requires Joins(E[|E| - 1], i, x)
    ensures x !in Incident(E[..|E| - 1], i)
  {
    var E', e := E[..|E| - 1], E[|E| - 1];
    forall k | 0 <= k < |E'|
      ensures !Joins(E'[k], i, x)
    {
      assert !Joins(e, E[k].a, E[k].b);
    }
    IncidentMembers(E', i, x);
  }

  /** In a simple graph no vertex appears twice in an adjacency list. */
  lemma {:induction false} IncidentDistinct(n: nat, E: seq<UEdge>, i: nat)
    requires ValidEdges(n, E) && NoRepeatedEdges(E)
    ensures forall p, q :: 0 <= p < q < |Incident(E, i)| ==> Incident(E, i)[p] != Incident(E, i)[q]
  {
    if E != [] {
      var E', e := E[..|E| - 1], E[|E| - 1];
      assert ValidEdges(n, E') && NoRepeatedEdges(E');
      IncidentDistinct(n, E', i);
      if e.a == i || e.b == i {
        var x := if e.a == i then e.b else e.a;
        assert Incident(E, i) == Incident(E', i) + [x];
        LastEdgeNew(n, E, i, x);
      }
    }
  }

  /** The sum of the degree counters over 0..n-1. */
  function DegreeSum(E: seq<UEdge>, n: nat): nat {
    if n == 0 then 0 else DegreeSum(E, n - 1) + Degree(E, n - 1)
  }

  lemma {:induction false} DegreeSumStep(E: seq<UEdge>, n: nat)
    requires E != []
    ensures DegreeSum(E, n) == DegreeSum(E[..|E| - 1], n)
              + (if E[|E| - 1].a < n then 1 else 0) + (if E[|E| - 1].b < n then 1 else 0)
  {
    if n > 0 {
      DegreeSumStep(E, n - 1);
    }
  }

  /** Handshake: the degrees of a graph on n vertices add up to twice the number of edges. */
  lemma {:induction false} Handshake(n: nat, E: seq<UEdge>)
    requires ValidEdges(n, E)
    ensures DegreeSum(E, n) == 2 * |E|
  {
    if E != [] {
      assert E[|E| - 1].a < n && E[|E| - 1].b < n;
      assert ValidEdges(n, E[..|E| - 1]);
      Handshake(n, E[..|E| - 1]);
      DegreeSumStep(E, n);
    } else {
      NoEdgesNoDegree(n);
    }
  }

  lemma {:induction false} NoEdgesNoDegree(n: nat)
    ensures DegreeSum([], n) == 0
  {
    if n > 0 {
      NoEdgesNoDegree(n - 1);
    }
  }

  /** The degree list of a graph sums to twice its number of edges. */
  lemma DegreeListSum(n: nat, E: seq<UEdge>, D: seq<nat>)
    requires ValidEdges(n, E) && |D| == n
    requires forall i :: 0 <= i < n ==> D[i] == Degree(E, i)
    ensures Sum(D) == 2 * |E|
  {
    PrefixSumIsDegreeSum(E, D, n);
    assert D[..n] == D;
    Handshake(n, E);
  }

  lemma {:induction false} PrefixSumIsDegreeSum(E: seq<UEdge>, D: seq<nat>, m: nat)
    requires m <= |D|
    requires forall i :: 0 <= i < |D| ==> D[i] == Degree(E, i)
    ensures Sum(D[..m]) == DegreeSum(E, m)
  {
    if m > 0 {
      assert D[..m][..m - 1] == D[..m - 1];
      PrefixSumIsDegreeSum(E, D, m - 1);
    }
  }

  /** The positions of the 1 cells of a row. */
  function Ones(r: seq<int>): set<nat> {
    set j: nat | j < |r| && r[j] == 1
  }

  /** A row of zeros and ones sums to its number of ones. */
  lemma {:induction false} ZeroOneSum(r: seq<int>)
    requires forall j :: 0 <= j < |r| ==> r[j] == 0 || r[j] == 1
    ensures Sum(r) == |Ones(r)|
  {
    if r != [] {
      var r' := r[..|r| - 1];
      ZeroOneSum(r');
      if r[|r| - 1] == 1 {
        assert Ones(r) == Ones(r') + {|r| - 1};
      } else {
        assert Ones(r) == Ones(r');
      }
    }
  }

  /** The members of a sequence, as a set. */
  function Elems(s: seq<nat>): set<nat> {
    set x | x in s
  }

  /** A sequence without repetitions has as many distinct members as entries. */
  lemma {:induction false} DistinctCard(s: seq<nat>)
    requires forall p, q :: 0 <= p < q < |s| ==> s[p] != s[q]
    ensures |Elems(s)| == |s|
  {
    if s != [] {
      var s' := s[..|s| - 1];
      DistinctCard(s');
      var last := s[|s| - 1];
      assert s == s' + [last];
      assert forall p :: 0 <= p < |s'| ==> s'[p] != last;
      var before := Elems(s');
      assert last !in before;
      assert Elems(s) == before + {last};
      assert |before + {last}| == |before| + 1;
    } else {
      assert Elems(s) == {};
    }
  }

  /**
   In a simple graph the three representations agree: the adjacency list of
   i is as long as the degree of i, and so is the sum of row i of the matrix.
   */
  lemma RepresentationsAgree(n: nat, E: seq<UEdge>, L: seq<seq<nat>>, M: seq<seq<int>>, D: seq<nat>)
    requires ValidEdges(n, E) && NoRepeatedEdges(E)
    requires |L| == n && forall i :: 0 <= i < n ==> L[i] == Incident(E, i)
    requires |M| == n && forall i :: 0 <= i < n ==> |M[i]| == n
    requires forall i, j :: 0 <= i < n && 0 <= j < n ==> M[i][j] == if Adjacent(E, i, j) then 1 else 0
    requires |D| == n && forall i :: 0 <= i < n ==> D[i] == Degree(E, i)
    ensures forall i :: 0 <= i < n ==> |L[i]| == D[i] && Sum(M[i]) == D[i]
  {
    forall i | 0 <= i < n
      ensures |L[i]| == D[i] && Sum(M[i]) == D[i]
    {
      IncidentLength(E, i);
      IncidentDistinct(n, E, i);
      DistinctCard(Incident(E, i));
      ZeroOneSum(M[i]);
      forall x: nat
        ensures x in Ones(M[i]) <==> x in Incident(E, i)
      {
        IncidentMembers(E, i, x);
        if Adjacent(E, i, x) {
          var k :| 0 <= k < |E| && Joins(E[k], i, x);
          assert x < n;
        }
      }
      assert Ones(M[i]) == Elems(Incident(E, i));
    }
  }

  /** The adjacency matrix is symmetric. */
  lemma AdjacentSymmetric(E: seq<UEdge>, i: nat, j: nat)
    ensures Adjacent(E, i, j) <==> Adjacent(E, j, i)
  {
    if Adjacent(E, i, j) {
      var k :| 0 <= k < |E| && Joins(E[k], i, j);
      assert Joins(E[k], j, i);
    }
    if Adjacent(E, j, i) {
      var k :| 0 <= k < |E| && Joins(E[k], j, i);
      assert Joins(E[k], i, j);
    }
  }

  /** The adjacency lists and degrees of the example graph, one edge at a time. */
  lemma ExampleIncidence()
    ensures Incident(CreateExampleGraph().E, 0) == [1, 2, 3]
    ensures Incident(CreateExampleGraph().E, 1) == [0, 2]
    ensures Incident(CreateExampleGraph().E, 2) == [0, 1, 3]
    ensures Incident(CreateExampleGraph().E, 3) == [0, 2]
    ensures Degree(CreateExampleGraph().E, 0) == 3 && Degree(CreateExampleGraph().E, 1) == 2
    ensures Degree(CreateExampleGraph().E, 2) == 3 && Degree(CreateExampleGraph().E, 3) == 2
  {
    var P0: seq<UEdge> := [];
    var P1 := P0 + [UEdge(0, 1)];
    var P2 := P1 + [UEdge(0, 2)];
    var P3 := P2 + [UEdge(0, 3)];
    var P4 := P3 + [UEdge(1, 2)];
    var P5 := P4 + [UEdge(2, 3)];
    assert P5 == CreateExampleGraph().E;
    assert P1[..0] == P0 && P2[..1] == P1 && P3[..2] == P2 && P4[..3] == P3 && P5[..4] == P4;
    assert Incident(P0, 0) == [] && Incident(P0, 1) == [] && Incident(P0, 2) == [] && Incident(P0, 3) == [];
    assert Incident(P1, 0) == [1] && Incident(P1, 1) == [0] && Incident(P1, 2) == [] && Incident(P1, 3) == [];
    assert Incident(P2, 0) == [1, 2] && Incident(P2, 1) == [0] && Incident(P2, 2) == [0] && Incident(P2, 3) == [];
    assert Incident(P3, 0) == [1, 2, 3] && Incident(P3, 1) == [0] && Incident(P3, 2) == [0] && Incident(P3, 3) == [0];
    assert Incident(P4, 0) == [1, 2, 3] && Incident(P4, 1) == [0, 2] && Incident(P4, 2) == [0, 1] && Incident(P4, 3) == [0];
    assert Incident(P5, 0) == [1, 2, 3] && Incident(P5, 1) == [0, 2] && Incident(P5, 2) == [0, 1, 3] && Incident(P5, 3) == [0, 2];
    forall i | 0 <= i < 4
      ensures Degree(P5, i) == |Incident(P5, i)|
    {
      IncidentLength(P5, i);
    }
  }

  /** The three converters on the example graph give the outputs its documentation lists. */
  method ExampleConversions() returns (L: seq<seq<nat>>, M: seq<seq<int>>, D: seq<nat>)
    ensures L == [[1, 2, 3], [0, 2], [0, 1, 3], [0, 2]]
    ensures M == [[0, 1, 1, 1], [1, 0, 1, 0], [1, 1, 0, 1], [1, 0, 1, 0]]
    ensures D == [3, 2, 3, 2]
  {
    var g := CreateExampleGraph();
    var E := g.E;
    L := GetAdjacencyList(g.V, E);
    M := GetAdjacencyMatrix(g.V, E);
    D := GetDegreeList(g.V, E);
    ExampleIncidence();
    assert L[0] == [1, 2, 3] && L[1] == [0, 2] && L[2] == [0, 1, 3] && L[3] == [0, 2];
    assert D[0] == 3 && D[1] == 2 && D[2] == 3 && D[3] == 2;
    assert Joins(E[0], 0, 1) && Joins(E[1], 0, 2) && Joins(E[2], 0, 3) && Joins(E[3], 1, 2) && Joins(E[4], 2, 3);
    assert Joins(E[0], 1, 0) && Joins(E[1], 2, 0) && Joins(E[2], 3, 0) && Joins(E[3], 2, 1) && Joins(E[4], 3, 2);
    assert M[0] == [0, 1, 1, 1];
    assert M[1] == [1, 0, 1, 0];
    assert M[2] == [1, 1, 0, 1];
    assert M[3] == [1, 0, 1, 0];
  }
}
