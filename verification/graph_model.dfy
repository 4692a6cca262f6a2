/**
 A weighted undirected graph on the vertices 0..n-1, stored as an n x n weight
 matrix whose cells hold the weight of an edge or None when there is no edge
 (hw8.py). This module holds the shape predicates, the `isSymmetric` and
 `neighbors` operations, and the graph vocabulary (walks, reachability,
 cycles) that the cycle search and the spanning-tree loop are specified in.
 */
module GraphModel {
  import opened Options

  type Matrix = seq<seq<Option<int>>>

  /** Every row has one cell per vertex. */
  predicate Square(M: Matrix) {
    forall i :: 0 <= i < |M| ==> |M[i]| == |M|
  }

  /** Square, and the weight of {i,j} does not depend on the direction it is read in. */
  predicate Symmetric(M: Matrix) {
    Square(M) && forall i, j :: 0 <= i < |M| && 0 <= j < |M| ==> M[i][j] == M[j][i]
  }

  /** No vertex is joined to itself: the diagonal is empty. */
  predicate NoSelfLoops(M: Matrix) {
    forall i :: 0 <= i < |M| && i < |M[i]| ==> M[i][i].None?
  }

  /** There is an edge from a to b: the cell M[a][b] exists and holds a weight. */
  predicate Edge(M: Matrix, a: nat, b: nat) {
    a < |M| && b < |M[a]| && M[a][b].Some?
  }

  /**
   isSymmetric: first checks that every row has length n, then compares the
   cells above the diagonal with their mirror images, stopping at the first
   mismatch. The answer is full symmetry of a square matrix.
   */
  method IsSymmetric(M: Matrix) returns (b: bool)
    ensures b <==> Symmetric(M)
  {
    var n := |M|;
    var i := 0;
    while i < n
      invariant 0 <= i <= n
      invariant forall k :: 0 <= k < i ==> |M[k]| == n
    {
      if |M[i]| != n {
        return false;
      }
      i := i + 1;
    }
    i := 0;
    while i < n
      invariant 0 <= i <= n
      invariant forall a, c :: 0 <= a < i && a < c < n ==> M[a][c] == M[c][a]
    {
      var j := i + 1;
      while j < n
        invariant i + 1 <= j <= n
        invariant forall c :: i < c < j ==> M[i][c] == M[c][i]
      {
        if M[i][j] != M[j][i] {
          return false;
        }
        j := j + 1;
      }
      i := i + 1;
    }
    return true;
  }

  /** The indices k <= v < |row| whose cell holds a weight, in ascending order. */
  function NeighborsFrom(row: seq<Option<int>>, k: nat): (r: seq<nat>)
    requires k <= |row|
    ensures forall x :: 0 <= x < |r| ==> k <= r[x] < |row| && row[r[x]].Some?
    ensures forall v :: k <= v < |row| && row[v].Some? ==> v in r
    ensures forall x, y :: 0 <= x < y < |r| ==> r[x] < r[y]
    decreases |row| - k
  {
    if k == |row| then []
    else if row[k].Some? then [k] + NeighborsFrom(row, k + 1)
    else NeighborsFrom(row, k + 1)
  }

  /** neighbors(u, M): exactly the vertices v with an edge u -> v, in strictly ascending order. */
  function Neighbors(u: nat, M: Matrix): (r: seq<nat>)
    requires u < |M|
    ensures forall x :: 0 <= x < |r| ==> Edge(M, u, r[x])
    ensures forall v: nat :: Edge(M, u, v) ==> v in r
    ensures forall x, y :: 0 <= x < y < |r| ==> r[x] < r[y]
  {
    NeighborsFrom(M[u], 0)
  }

  /** No vertex occurs twice. */
  predicate Distinct(s: seq<nat>) {
    forall i, j :: 0 <= i < j < |s| ==> s[i] != s[j]
  }

  /** A non-empty vertex sequence whose consecutive vertices are joined by edges. */
  ghost predicate IsWalk(M: Matrix, w: seq<nat>) {
    |w| >= 1 && forall k :: 0 <= k < |w| - 1 ==> Edge(M, w[k], w[k + 1])
  }

  ghost predicate Reachable(M: Matrix, x: nat, y: nat) {
    exists w :: IsWalk(M, w) && w[0] == x && w[|w| - 1] == y
  }

  /** Every vertex can be reached from vertex 0. */
  ghost predicate Connected(M: Matrix) {
    forall y: nat :: y < |M| ==> Reachable(M, 0, y)
  }

  /** The successor of position k when c is read circularly. */
  function Next(c: seq<nat>, k: nat): nat
    requires k < |c|
  {
    if k + 1 < |c| then c[k + 1] else c[0]
  }

  /** Each vertex of c is joined to its circular successor. */
  ghost predicate ClosedWalk(M: Matrix, c: seq<nat>) {
    forall k {:trigger Next(c, k)} :: 0 <= k < |c| ==> Edge(M, c[k], Next(c, k))
  }

  /**
   A cycle: at least three distinct vertices, each joined to its circular
   successor. Two vertices never form a cycle: going along an edge and back
   along the same edge is not one.
   */
  ghost predicate IsCycle(M: Matrix, c: seq<nat>) {
    |c| >= 3 && Distinct(c) && ClosedWalk(M, c)
  }

  ghost predicate NoCycle(M: Matrix) {
    forall c :: !IsCycle(M, c)
  }

  lemma ReachRefl(M: Matrix, x: nat)
    ensures Reachable(M, x, x)
  {
    assert IsWalk(M, [x]);
  }

  lemma ReachPrepend(M: Matrix, x: nat, y: nat, z: nat)
    requires Edge(M, x, y) && Reachable(M, y, z)
    ensures Reachable(M, x, z)
  {
    var w :| IsWalk(M, w) && w[0] == y && w[|w| - 1] == z;
    var w' := [x] + w;
    assert forall k :: 1 <= k < |w'| - 1 ==> w'[k] == w[k - 1] && w'[k + 1] == w[k];
    assert IsWalk(M, w');
  }

  lemma ReachAppend(M: Matrix, x: nat, y: nat, z: nat)
    requires Reachable(M, x, y) && Edge(M, y, z)
    ensures Reachable(M, x, z)
  {
    var w :| IsWalk(M, w) && w[0] == x && w[|w| - 1] == y;
    var w' := w + [z];
    assert IsWalk(M, w');
  }

  lemma ReachTrans(M: Matrix, x: nat, y: nat, z: nat)
    requires Reachable(M, x, y) && Reachable(M, y, z)
    ensures Reachable(M, x, z)
  {
    var w :| IsWalk(M, w) && w[0] == y && w[|w| - 1] == z;
    // walk forward from y to z, extending the walk from x one edge at a time
    var j := 0;
    while j < |w| - 1
      invariant 0 <= j < |w|
      invariant Reachable(M, x, w[j])
    {
      ReachAppend(M, x, w[j], w[j + 1]);
      j := j + 1;
    }
  }

  lemma ReachSym(M: Matrix, x: nat, y: nat)
    requires Symmetric(M) && Reachable(M, x, y)
    ensures Reachable(M, y, x)
  {
    var w :| IsWalk(M, w) && w[0] == x && w[|w| - 1] == y;
    var r := seq(|w|, k requires 0 <= k < |w| => w[|w| - 1 - k]);
    forall k | 0 <= k < |r| - 1
      ensures Edge(M, r[k], r[k + 1])
    {
      assert Edge(M, w[|w| - 2 - k], w[|w| - 1 - k]);
    }
    assert IsWalk(M, r);
  }

  /** A vertex set closed under edges contains everything reachable from its members. */
  lemma ClosedContainsReachable(M: Matrix, S: set<nat>, x: nat, y: nat)
    requires forall a, b :: a in S && Edge(M, a, b) ==> b in S
    requires x in S && Reachable(M, x, y)
    ensures y in S
  {
    var w :| IsWalk(M, w) && w[0] == x && w[|w| - 1] == y;
    var j := 0;
    while j < |w| - 1
      invariant 0 <= j < |w|
      invariant w[j] in S
    {
      j := j + 1;
    }
  }
}
