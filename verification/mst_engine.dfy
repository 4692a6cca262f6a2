/**
 The spanning-tree loop of hw8.py (`findMST`): while the cycle search finds a
 cycle, delete the heaviest edge on it (both matrix cells), then stop early
 when fewer than three cells hold a weight Python counts as true. The model
 proves that the loop keeps the graph symmetric, loop-free and connected, only
 removes edges, removes only edges that are heaviest on some cycle of the
 input, and ends without a cycle when no weight is zero.
 */
module MstEngine {
  import opened Options
  import opened GraphModel
  import opened CycleFinder

  /** The starting value of the running maximum in findMST: minus ten to the ninetieth. */
  const HeavyFloor: int := -1_000000000_000000000_000000000_000000000_000000000_000000000_000000000_000000000_000000000_000000000

  function Weight(M: Matrix, a: nat, b: nat): int
    requires Edge(M, a, b)
  {
    M[a][b].value
  }

  /** The weight of the edge leaving position j of the closed walk c. */
  function CycleWeight(M: Matrix, c: seq<nat>, j: nat): int
    requires ClosedWalk(M, c) && j < |c|
  {
    Weight(M, c[j], Next(c, j))
  }

  /** Every weight in the matrix is above the starting value of the running maximum. */
  predicate AboveFloor(M: Matrix) {
    forall i, j :: 0 <= i < |M| && 0 <= j < |M[i]| && M[i][j].Some? ==> M[i][j].value > HeavyFloor
  }

  /** No edge has weight 0, the one weight Python reads as false. */
  predicate NonzeroWeights(M: Matrix) {
    forall i, j :: 0 <= i < |M| && 0 <= j < |M[i]| && M[i][j].Some? ==> M[i][j].value != 0
  }

  /** The input findMST expects when it has at least three vertices. */
  ghost predicate WellFormed(M: Matrix) {
    Symmetric(M) && NoSelfLoops(M) && Connected(M) && AboveFloor(M)
  }

  /** T has the shape of M and keeps some of M's edges with their weights, adding none. */
  predicate Subgraph(T: Matrix, M: Matrix) {
    && |T| == |M|
    && (forall i :: 0 <= i < |T| ==> |T[i]| == |M[i]|)
    && (forall i, j :: 0 <= i < |T| && 0 <= j < |T[i]| && T[i][j].Some? ==> T[i][j] == M[i][j])
  }

  /** The cells of M that hold a weight, as (row, column) pairs. */
  ghost function EdgeSet(M: Matrix): set<(nat, nat)> {
    set i: nat, j: nat | i < |M| && j < |M[i]| && M[i][j].Some? :: (i, j)
  }

  /** Position k of c carries the first of the heaviest edges of c, and that edge is above the floor. */
  ghost predicate HeaviestAt(M: Matrix, c: seq<nat>, k: nat) {
    && ClosedWalk(M, c)
    && k < |c|
    && CycleWeight(M, c, k) > HeavyFloor
    && (forall j :: 0 <= j < |c| ==> CycleWeight(M, c, j) <= CycleWeight(M, c, k))
    && (forall j :: 0 <= j < k ==> CycleWeight(M, c, j) < CycleWeight(M, c, k))
  }

  /** The edge {a, b} lies on a cycle of M and no edge of that cycle is heavier. */
  ghost predicate HeaviestOnCycle(M: Matrix, a: nat, b: nat) {
    && Edge(M, a, b)
    && exists c, k ::
        && IsCycle(M, c)
        && 0 <= k < |c|
        && ((c[k] == a && Next(c, k) == b) || (c[k] == b && Next(c, k) == a))
        && forall j :: 0 <= j < |c| ==> CycleWeight(M, c, j) <= Weight(M, a, b)
  }

  /** Every edge of M missing from T is heaviest on some cycle of M. */
  ghost predicate RemovedHeaviest(M: Matrix, T: Matrix) {
    forall a: nat, b: nat :: Edge(M, a, b) && !Edge(T, a, b) ==> HeaviestOnCycle(M, a, b)
  }

  /**
   The scan over the cycle in findMST: the running maximum starts at
   HeavyFloor with the pair (-1, -1), each position is compared with its
   circular successor's edge, and only a strictly heavier edge replaces the
   current one. The pair stays (-1, -1) exactly when no edge is above the
   floor; otherwise it is the first heaviest edge.
   */
  method HeaviestEdge(M: Matrix, c: seq<nat>) returns (r: (int, int))
    requires |c| >= 1 && ClosedWalk(M, c)
    ensures r.0 == -1 <==> forall j :: 0 <= j < |c| ==> CycleWeight(M, c, j) <= HeavyFloor
    ensures r.0 == -1 ==> r == (-1, -1)
    ensures r.0 != -1 ==> exists k: nat :: HeaviestAt(M, c, k) && r == (c[k], Next(c, k))
  {
    var heavy := HeavyFloor;
    r := (-1, -1);
    ghost var k := -1;
    var i := 0;
    while i < |c|
      invariant 0 <= i <= |c|
      invariant -1 <= k < i
      invariant k == -1 ==> r == (-1, -1) && heavy == HeavyFloor
      invariant k == -1 ==> forall j :: 0 <= j < i ==> CycleWeight(M, c, j) <= HeavyFloor
      invariant k != -1 ==> r == (c[k], Next(c, k)) && heavy == CycleWeight(M, c, k) > HeavyFloor
      invariant k != -1 ==> forall j :: 0 <= j < i ==> CycleWeight(M, c, j) <= heavy
      invariant k != -1 ==> forall j :: 0 <= j < k ==> CycleWeight(M, c, j) < heavy
    {
      // the last position wraps around to the first vertex, as the index -1 does in Python
      var idx := i;
      if idx == |c| - 1 {
        idx := -1;
      }
      var next := c[idx + 1];
      assert next == Next(c, i);
      if M[c[i]][next].value > heavy {
        heavy := M[c[i]][next].value;
        r := (c[i], next);
        k := i;
      }
      i := i + 1;
    }
    if k != -1 {
      assert HeaviestAt(M, c, k);
    }
  }

  /** The two assignments that delete the edge {a, b}: cell (a, b) and cell (b, a) become None. */
  function DeleteEdge(M: Matrix, a: nat, b: nat): (r: Matrix)
    requires a < |M| && b < |M| && b < |M[a]| && a < |M[b]|
    ensures |r| == |M| && forall i :: 0 <= i < |M| ==> |r[i]| == |M[i]|
    ensures forall i, j :: 0 <= i < |M| && 0 <= j < |M[i]| ==>
              r[i][j] == if (i == a && j == b) || (i == b && j == a) then None else M[i][j]
  {
    var first := M[a := M[a][b := None]];
    first[b := first[b][a := None]]
  }

  /** An edge survives the deletion of {a, b} exactly when it is a different edge. */
  lemma DeleteEdgeEdges(M: Matrix, a: nat, b: nat, x: nat, y: nat)
    requires Square(M) && a < |M| && b < |M|
    ensures Edge(DeleteEdge(M, a, b), x, y) <==>
            Edge(M, x, y) && !((x == a && y == b) || (x == b && y == a))
  {
  }

  /** Deleting an edge keeps the matrix symmetric and loop-free, and the result is a subgraph. */
  lemma DeleteKeepsShape(M: Matrix, a: nat, b: nat)
    requires Symmetric(M) && NoSelfLoops(M) && a < |M| && b < |M|
    ensures Symmetric(DeleteEdge(M, a, b))
    ensures NoSelfLoops(DeleteEdge(M, a, b))
    ensures Subgraph(DeleteEdge(M, a, b), M)
  {
  }

  lemma SubgraphTrans(T: Matrix, U: Matrix, M: Matrix)
    requires Subgraph(T, U) && Subgraph(U, M)
    ensures Subgraph(T, M)
  {
  }

  /** Deleting an existing edge strictly shrinks the set of occupied cells. */
  lemma DeleteShrinksEdges(M: Matrix, a: nat, b: nat)
    requires Square(M) && Edge(M, a, b) && a < |M|
    ensures EdgeSet(DeleteEdge(M, a, b)) < EdgeSet(M)
  {
    var T := DeleteEdge(M, a, b);
    assert (a, b) in EdgeSet(M);
    assert (a, b) !in EdgeSet(T);
    forall e | e in EdgeSet(T)
      ensures e in EdgeSet(M)
    {
      var i, j := e.0, e.1;
      assert T[i][j].Some?;
    }
  }

  /** A cycle of a subgraph is a cycle of the whole graph, with the same edge weights. */
  lemma SubgraphCycle(T: Matrix, M: Matrix, c: seq<nat>)
    requires Subgraph(T, M) && IsCycle(T, c)
    ensures IsCycle(M, c)
    ensures forall j :: 0 <= j < |c| ==> CycleWeight(M, c, j) == CycleWeight(T, c, j)
  {
    forall j | 0 <= j < |c|
      ensures Edge(M, c[j], Next(c, j)) && M[c[j]][Next(c, j)] == T[c[j]][Next(c, j)]
    {
      assert Edge(T, c[j], Next(c, j));
    }
  }

  /**
   Every edge of a cycle other than the one at position k survives the
   deletion of the edge at position k: the vertices are distinct and there are
   at least three of them, so no other position joins the same two vertices.
   */
  lemma OtherCycleEdgeSurvives(T: Matrix, c: seq<nat>, k: nat, j: nat)
    requires Square(T) && IsCycle(T, c) && k < |c| && j < |c| && j != k
    ensures c[k] < |T| && Next(c, k) < |T|
    ensures Edge(DeleteEdge(T, c[k], Next(c, k)), c[j], Next(c, j))
  {
    assert Edge(T, c[k], Next(c, k));
    assert Edge(T, c[j], Next(c, j));
    DeleteEdgeEdges(T, c[k], Next(c, k), c[j], Next(c, j));
    assert c[j] != c[k];
    if k + 1 < |c| {
      if j == k + 1 {
        if j + 1 < |c| {
          assert Next(c, j) == c[k + 2] != c[k];
        } else {
          assert Next(c, j) == c[0] != c[k];
        }
      }
    } else {
      if j == 0 {
        assert Next(c, j) == c[1] != c[k];
      }
    }
  }

  /** With the edge at position k deleted, its two ends are still joined the long way round the cycle. */
  lemma DetourAroundCycle(T: Matrix, c: seq<nat>, k: nat)
    requires Square(T) && IsCycle(T, c) && k < |c|
    ensures c[k] < |T| && Next(c, k) < |T|
    ensures Reachable(DeleteEdge(T, c[k], Next(c, k)), Next(c, k), c[k])
  {
    assert Edge(T, c[k], Next(c, k));
    var U := DeleteEdge(T, c[k], Next(c, k));
    var y := Next(c, k);
    ReachRefl(U, y);
    if k + 1 < |c| {
      // forward from c[k + 1] to the last vertex, then across the closing edge to c[0]
      var j := k + 1;
      while j < |c| - 1
        invariant k + 1 <= j <= |c| - 1
        invariant Reachable(U, y, c[j])
      {
        OtherCycleEdgeSurvives(T, c, k, j);
        ReachAppend(U, y, c[j], c[j + 1]);
        j := j + 1;
      }
      OtherCycleEdgeSurvives(T, c, k, |c| - 1);
      ReachAppend(U, y, c[|c| - 1], c[0]);
    }
    // forward from c[0] to c[k]
    var j := 0;
    while j < k
      invariant 0 <= j <= k
      invariant Reachable(U, y, c[j])
    {
      OtherCycleEdgeSurvives(T, c, k, j);
      ReachAppend(U, y, c[j], c[j + 1]);
      j := j + 1;
    }
  }

  /** Deleting an edge that lies on a cycle keeps a connected graph connected. */
  lemma DeleteCycleEdgeKeepsConnected(T: Matrix, c: seq<nat>, k: nat)
    requires Symmetric(T) && NoSelfLoops(T) && Connected(T) && IsCycle(T, c) && k < |c|
    ensures c[k] < |T| && Next(c, k) < |T|
    ensures Connected(DeleteEdge(T, c[k], Next(c, k)))
  {
    assert Edge(T, c[k], Next(c, k));
    var x, y := c[k], Next(c, k);
    var U := DeleteEdge(T, x, y);
    DeleteKeepsShape(T, x, y);
    DetourAroundCycle(T, c, k);
    ReachSym(U, y, x);
    forall z: nat | z < |U|
      ensures Reachable(U, 0, z)
    {
      assert Reachable(T, 0, z);
      var w :| IsWalk(T, w) && w[0] == 0 && w[|w| - 1] == z;
      ReachRefl(U, 0);
      var j := 0;
      while j < |w| - 1
        invariant 0 <= j < |w|
        invariant Reachable(U, 0, w[j])
      {
        DeleteEdgeEdges(T, x, y, w[j], w[j + 1]);
        if Edge(U, w[j], w[j + 1]) {
          ReachAppend(U, 0, w[j], w[j + 1]);
        } else if w[j] == x {
          ReachTrans(U, 0, x, y);
        } else {
          ReachTrans(U, 0, y, x);
        }
        j := j + 1;
      }
    }
  }

  /** Python's `if j:` on a cell: a weight other than 0. None and 0 are false. */
  predicate Truthy(o: Option<int>) {
    o.Some? && o.value != 0
  }

  /** The number of true cells in a row. */
  function RowTruthy(row: seq<Option<int>>): nat {
    if row == [] then 0
    else RowTruthy(row[..|row| - 1]) + (if Truthy(row[|row| - 1]) then 1 else 0)
  }

  /** The number of true cells in a matrix: the value of nn after the counting loops of findMST. */
  function TruthyCount(M: Matrix): nat {
    if M == [] then 0
    else TruthyCount(M[..|M| - 1]) + RowTruthy(M[|M| - 1])
  }

  /** The nested counting loop of findMST: nn is the number of true cells. */
  method CountTruthy(M: Matrix) returns (nn: nat)
    ensures nn == TruthyCount(M)
  {
    nn := 0;
    var i := 0;
    while i < |M|
      invariant 0 <= i <= |M|
      invariant nn == TruthyCount(M[..i])
    {
      var row := M[i];
      var j := 0;
      while j < |row|
        invariant 0 <= j <= |row|
        invariant nn == TruthyCount(M[..i]) + RowTruthy(row[..j])
      {
        assert row[..j + 1][..j] == row[..j];
        if Truthy(row[j]) {
          nn := nn + 1;
        }
        j := j + 1;
      }
      assert row[..j] == row;
      assert M[..i + 1][..i] == M[..i];
      i := i + 1;
    }
    assert M[..i] == M;
  }

  lemma {:induction false} RowWithTruthyCell(row: seq<Option<int>>, j: nat)
    requires j < |row| && Truthy(row[j])
    ensures RowTruthy(row) >= 1
  {
    if j < |row| - 1 {
      RowWithTruthyCell(row[..|row| - 1], j);
    }
  }

  /** A set of rows that each hold a true cell is no larger than the count of true cells. */
  lemma {:induction false} TruthyRowsBound(M: Matrix, S: set<nat>)
    requires forall i :: i in S ==> i < |M| && RowTruthy(M[i]) >= 1
    ensures TruthyCount(M) >= |S|
  {
    if M != [] {
      var last := |M| - 1;
      var S' := S - {last};
      assert forall i :: i in S' ==> M[..last][i] == M[i];
      TruthyRowsBound(M[..last], S');
      if last in S {
        assert S == S' + {last};
      } else {
        assert S == S';
      }
    } else {
      assert S == {};
    }
  }

  /** A cycle without zero weights puts a true cell in each of at least three distinct rows. */
  lemma CycleNeedsTruthy(M: Matrix, c: seq<nat>)
    requires NonzeroWeights(M) && |c| >= 3 && Distinct(c) && ClosedWalk(M, c)
    ensures TruthyCount(M) >= 3
  {
    forall j | 0 <= j < 3
      ensures c[j] < |M| && RowTruthy(M[c[j]]) >= 1
    {
      assert Edge(M, c[j], Next(c, j));
      RowWithTruthyCell(M[c[j]], Next(c, j));
    }
    var S := {c[0], c[1], c[2]};
    assert |S| == 3;
    TruthyRowsBound(M, S);
  }

  /** Without zero weights, fewer than three true cells leave no room for a cycle. */
  lemma FewTruthyNoCycle(M: Matrix)
    requires NonzeroWeights(M) && TruthyCount(M) < 3
    ensures NoCycle(M)
  {
    forall c
      ensures !IsCycle(M, c)
    {
      if |c| >= 3 && ClosedWalk(M, c) {
        NotDistinctUnderBound(M, c);
      }
    }
  }

  lemma NotDistinctUnderBound(M: Matrix, c: seq<nat>)
    requires NonzeroWeights(M) && TruthyCount(M) < 3 && |c| >= 3 && ClosedWalk(M, c)
    ensures !Distinct(c)
  {
    if Distinct(c) {
      CycleNeedsTruthy(M, c);
    }
  }

  /** Deleting the edge at a heaviest position of a cycle of T keeps every removed edge heaviest on a cycle of M. */
  lemma DeleteKeepsRemovedHeaviest(M: Matrix, T: Matrix, c: seq<nat>, k: nat)
    requires Symmetric(M) && Square(T) && Subgraph(T, M) && RemovedHeaviest(M, T)
    requires IsCycle(T, c) && HeaviestAt(T, c, k)
    ensures c[k] < |T| && Next(c, k) < |T|
    ensures RemovedHeaviest(M, DeleteEdge(T, c[k], Next(c, k)))
  {
    assert Edge(T, c[k], Next(c, k));
    var x, y := c[k], Next(c, k);
    var U := DeleteEdge(T, x, y);
    SubgraphCycle(T, M, c);
    assert Edge(M, x, y) && Weight(M, x, y) == CycleWeight(T, c, k);
    assert HeaviestOnCycle(M, x, y);
    assert HeaviestOnCycle(M, y, x) by {
      assert Weight(M, y, x) == Weight(M, x, y);
    }
    forall a: nat, b: nat | Edge(M, a, b) && !Edge(U, a, b)
      ensures HeaviestOnCycle(M, a, b)
    {
      DeleteEdgeEdges(T, x, y, a, b);
    }
  }

  /**
   The loop body of findMST up to the count: scan the cycle for its first
   heaviest edge and delete both of its cells. Exactly that edge goes, so
   the set of edges strictly shrinks.
   */
  method RemoveHeaviest(T: Matrix, c: seq<nat>) returns (U: Matrix)
    requires Square(T) && AboveFloor(T) && IsCycle(T, c)
    ensures exists k: nat :: HeaviestAt(T, c, k) && c[k] < |T| && Next(c, k) < |T| && U == DeleteEdge(T, c[k], Next(c, k))
    ensures EdgeSet(U) < EdgeSet(T)
  {
    var r := HeaviestEdge(T, c);
    assert Edge(T, c[0], Next(c, 0));
    assert CycleWeight(T, c, 0) > HeavyFloor;
    ghost var k: nat :| HeaviestAt(T, c, k) && r == (c[k], Next(c, k));
    assert Edge(T, c[k], Next(c, k));
    var a: nat, b: nat := r.0, r.1;
    U := DeleteEdge(T, a, b);
    DeleteShrinksEdges(T, a, b);
  }

  /**
   One round of the loop of findMST on the loop's invariant: the graph stays
   symmetric, loop-free, connected and a subgraph of M, every edge removed so
   far is heaviest on a cycle of M, and the set of edges strictly shrinks.
   */
  method DeleteHeaviest(M: Matrix, T: Matrix, c: seq<nat>) returns (U: Matrix)
    requires Symmetric(M) && AboveFloor(M)
    requires Symmetric(T) && NoSelfLoops(T) && Connected(T) && Subgraph(T, M)
    requires RemovedHeaviest(M, T) && IsCycle(T, c)
    ensures Symmetric(U) && NoSelfLoops(U) && Connected(U) && Subgraph(U, M)
    ensures RemovedHeaviest(M, U)
    ensures EdgeSet(U) < EdgeSet(T)
  {
    U := RemoveHeaviest(T, c);
    ghost var k: nat :| HeaviestAt(T, c, k) && c[k] < |T| && Next(c, k) < |T| && U == DeleteEdge(T, c[k], Next(c, k));
    DeleteKeepsShape(T, c[k], Next(c, k));
    SubgraphTrans(U, T, M);
    DeleteCycleEdgeKeepsConnected(T, c, k);
    DeleteKeepsRemovedHeaviest(M, T, c, k);
  }

  lemma SubgraphNonzero(T: Matrix, M: Matrix)
    requires Subgraph(T, M) && NonzeroWeights(M)
    ensures NonzeroWeights(T)
  {
  }

  /**
   findMST. Fewer than three vertices: the input is returned. Otherwise the
   result is a connected, symmetric, loop-free subgraph of M whose removed
   edges were each heaviest on a cycle of M; it has no cycle, unless the loop
   stopped on the count of true cells, and that count cannot stop it while a
   cycle remains when no weight is zero.
   */
  method FindMST(M: Matrix) returns (T: Matrix)
    requires |M| >= 3 ==> WellFormed(M)
    ensures |M| < 3 ==> T == M
    ensures |M| >= 3 ==> Symmetric(T) && NoSelfLoops(T) && Connected(T) && Subgraph(T, M)
    ensures |M| >= 3 ==> RemovedHeaviest(M, T)
    ensures |M| >= 3 ==> NoCycle(T) || TruthyCount(T) < 3
    ensures |M| >= 3 && NonzeroWeights(M) ==> NoCycle(T)
  {
    if |M| < 3 {
      return M;
    }
    T := M;
    var circle := FindCycle(T);
    while circle.Some?
      invariant Symmetric(T) && NoSelfLoops(T) && Connected(T) && Subgraph(T, M)
      invariant RemovedHeaviest(M, T)
      invariant circle.Some? ==> IsCycle(T, circle.value)
      invariant circle.None? ==> NoCycle(T)
      decreases EdgeSet(T)
    {
      T := DeleteHeaviest(M, T, circle.value);
      var nn := CountTruthy(T);
      if nn < 3 {
        if NonzeroWeights(M) {
          SubgraphNonzero(T, M);
          FewTruthyNoCycle(T);
        }
        return;
      }
      circle := FindCycle(T);
    }
  }
}
