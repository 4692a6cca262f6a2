/**
 The depth-first cycle search of hw8.py: `findCycleFrom` (a recursive DFS
 that keeps a path stack and a permanent visited set), `findCycle` (which
 restarts it from every unvisited vertex) and `isConnected` (one search from
 vertex 0).

 Besides the source's own state, the search carries a ghost DFS forest: the
 vertex each visited vertex was entered from (`parent`) and its depth in the
 search tree (`depth`). It is what proves that a search returning no cycle
 has looked at every edge and found the graph acyclic.
 */
module CycleFinder {
  import opened Options
  import opened GraphModel

  /** The vertices 0..n-1. */
  function Range(n: nat): (r: set<nat>)
    ensures forall x: nat :: x in r <==> x < n
    ensures |r| == n
  {
    if n == 0 then {} else Range(n - 1) + {n - 1}
  }

  /** Position of the first occurrence of x in s (Python's list.index). */
  function IndexOf(s: seq<nat>, x: nat): (r: nat)
    requires x in s
    ensures r < |s| && s[r] == x
    ensures forall j :: 0 <= j < r ==> s[j] != x
  {
    if s[0] == x then 0 else 1 + IndexOf(s[1..], x)
  }

  /** m2 agrees with m1 on all of m1's keys. */
  ghost predicate Extends(m1: map<nat, nat>, m2: map<nat, nat>) {
    forall x :: x in m1 ==> x in m2 && m2[x] == m1[x]
  }

  /** The ghost search forest: every parent pointer is an edge one level up. */
  ghost predicate Forest(M: Matrix, visited: set<nat>, parent: map<nat, nat>, depth: map<nat, nat>) {
    && depth.Keys == visited
    && parent.Keys <= visited
    && forall x :: x in parent ==>
         parent[x] in visited && Edge(M, parent[x], x) && depth[parent[x]] + 1 == depth[x]
  }

  /** The path is the chain of parent pointers from a search root, position k at depth k. */
  ghost predicate PathOnForest(path: seq<nat>, parent: map<nat, nat>, depth: map<nat, nat>)
  {
    && (forall k :: 0 <= k < |path| ==> path[k] in depth && depth[path[k]] == k)
    && (forall k :: 1 <= k < |path| ==> path[k] in parent && parent[path[k]] == path[k - 1])
  }

  /** A finished vertex (visited and no longer on the path) has all its neighbours visited. */
  ghost predicate Closed(M: Matrix, path: seq<nat>, visited: set<nat>) {
    forall x, y :: x in visited && x !in path && Edge(M, x, y) ==> y in visited
  }

  /** The state the search keeps between calls. */
  ghost predicate DfsState(M: Matrix, path: seq<nat>, visited: set<nat>,
                           parent: map<nat, nat>, depth: map<nat, nat>)
  {
    && Square(M)
    && (forall k :: 0 <= k < |path| ==> path[k] in visited)
    && (forall x :: x in visited ==> x < |M|)
    && Forest(M, visited, parent, depth)
    && PathOnForest(path, parent, depth)
    && Closed(M, path, visited)
  }

  predicate TreeEdge(parent: map<nat, nat>, x: nat, y: nat) {
    (x in parent && parent[x] == y) || (y in parent && parent[y] == x)
  }

  /** Every edge from a finished vertex to a visited vertex is a parent pointer. */
  ghost predicate TreeEdges(M: Matrix, path: seq<nat>, visited: set<nat>, parent: map<nat, nat>) {
    forall x, y :: x in visited && x !in path && y in visited && Edge(M, x, y) ==> TreeEdge(parent, x, y)
  }

  /**
   c is a suffix of some simple walk that extends the search path p: the
   search only ever reports a tail of its own stack.
   */
  ghost predicate CycleOnDfsPath(M: Matrix, c: seq<nat>, p: seq<nat>) {
    exists ext: seq<nat> ::
      && IsWalk(M, p + ext)
      && Distinct(p + ext)
      && |c| <= |p + ext|
      && c == (p + ext)[|p + ext| - |c|..]
  }

  /** The search path is a simple walk. */
  lemma PathIsSimpleWalk(M: Matrix, path: seq<nat>, visited: set<nat>,
                         parent: map<nat, nat>, depth: map<nat, nat>)
    requires DfsState(M, path, visited, parent, depth)
    ensures Distinct(path)
    ensures forall k :: 0 <= k < |path| - 1 ==> Edge(M, path[k], path[k + 1])
  {
    forall i, j | 0 <= i < j < |path|
      ensures path[i] != path[j]
    {
      assert depth[path[i]] == i && depth[path[j]] == j;
    }
    forall k | 0 <= k < |path| - 1
      ensures Edge(M, path[k], path[k + 1])
    {
      assert parent[path[k + 1]] == path[k];
    }
  }

  /** Entering v: push it, mark it visited, and hang it under the top of the path. */
  lemma PushState(M: Matrix, path: seq<nat>, visited: set<nat>,
                  parent: map<nat, nat>, depth: map<nat, nat>, v: nat)
    requires DfsState(M, path, visited, parent, depth)
    requires v < |M| && v !in visited
    requires |path| > 0 ==> Edge(M, path[|path| - 1], v)
    ensures var parent' := if |path| > 0 then parent[v := path[|path| - 1]] else parent;
            && DfsState(M, path + [v], visited + {v}, parent', depth[v := |path|])
            && Extends(parent, parent')
            && (TreeEdges(M, path, visited, parent) ==> TreeEdges(M, path + [v], visited + {v}, parent'))
  {
    var parent' := if |path| > 0 then parent[v := path[|path| - 1]] else parent;
    var depth' := depth[v := |path|];
    var p := path + [v];
    var V := visited + {v};
    forall x | x in parent'
      ensures parent'[x] in V && Edge(M, parent'[x], x) && depth'[parent'[x]] + 1 == depth'[x]
    {
      if x == v {
        assert parent'[x] == path[|path| - 1];
        assert depth[path[|path| - 1]] == |path| - 1;
      } else {
        assert parent'[x] == parent[x] && parent[x] != v;
      }
    }
    assert Forest(M, V, parent', depth');
    assert PathOnForest(p, parent', depth');
    assert Closed(M, p, V);
    if TreeEdges(M, path, visited, parent) {
      forall x, y | x in V && x !in p && y in V && Edge(M, x, y)
        ensures TreeEdge(parent', x, y)
      {
        assert x in visited && x !in path;
        assert y in visited;
        assert TreeEdge(parent, x, y);
      }
    }
  }

  /**
   Leaving v with every neighbour scanned: the path shrinks back and v is
   finished. When no cycle was recorded, v's edges are all parent pointers.
   */
  lemma PopState(M: Matrix, path: seq<nat>, visited: set<nat>,
                 parent: map<nat, nat>, depth: map<nat, nat>, v: nat)
    requires DfsState(M, path + [v], visited, parent, depth)
    requires v < |M| && NoSelfLoops(M)
    requires forall y: nat :: Edge(M, v, y) ==> y in visited
    ensures DfsState(M, path, visited, parent, depth)
    ensures Symmetric(M) && TreeEdges(M, path + [v], visited, parent)
            && (forall y: nat :: Edge(M, v, y) && y in path ==> y == path[|path| - 1])
            ==> TreeEdges(M, path, visited, parent)
  {
    var p := path + [v];
    assert forall k :: 0 <= k < |path| ==> path[k] == p[k];
    PathIsSimpleWalk(M, p, visited, parent, depth);
    assert v !in path by {
      assert forall k :: 0 <= k < |path| ==> p[k] != p[|path|];
    }
    assert PathOnForest(path, parent, depth);
    assert Closed(M, path, visited);
    if Symmetric(M) && TreeEdges(M, p, visited, parent)
       && (forall y: nat :: Edge(M, v, y) && y in path ==> y == path[|path| - 1])
    {
      forall x, y | x in visited && x !in path && y in visited && Edge(M, x, y)
        ensures TreeEdge(parent, x, y)
      {
        if x == v {
          if y in path {
            assert y == path[|path| - 1];
            assert parent[p[|path|]] == p[|path| - 1];
          } else {
            assert y != v;
            assert Edge(M, y, x);
          }
        }
      }
    }
  }

  /** The tail p[i..] of a simple walk p, closed by an edge from its last vertex back to p[i]. */
  lemma TailCycle(M: Matrix, p: seq<nat>, i: nat)
    requires Distinct(p) && forall k :: 0 <= k < |p| - 1 ==> Edge(M, p[k], p[k + 1])
    requires i + 2 < |p| && Edge(M, p[|p| - 1], p[i])
    ensures IsCycle(M, p[i..])
  {
    var c := p[i..];
    assert Distinct(c) by {
      forall a, b | 0 <= a < b < |c|
        ensures c[a] != c[b]
      {
        assert c[a] == p[i + a] && c[b] == p[i + b];
      }
    }
    forall k | 0 <= k < |c|
      ensures Edge(M, c[k], Next(c, k))
    {
      if k + 1 < |c| {
        assert c[k] == p[i + k] && c[k + 1] == p[i + k + 1];
      } else {
        assert c[k] == p[|p| - 1] && c[0] == p[i];
      }
    }
  }

  /** Any tail of a simple walk p lies on a simple walk extending p (p itself). */
  lemma TailOnDfsPath(M: Matrix, p: seq<nat>, i: nat)
    requires Distinct(p) && forall k :: 0 <= k < |p| - 1 ==> Edge(M, p[k], p[k + 1])
    requires i < |p|
    ensures CycleOnDfsPath(M, p[i..], p)
  {
    var ext: seq<nat> := [];
    assert p + ext == p;
    assert IsWalk(M, p + ext);
  }

  /** A back edge from the top of the path to an earlier vertex u other than its parent closes a cycle. */
  lemma BackEdgeCycle(M: Matrix, p: seq<nat>, visited: set<nat>,
                      parent: map<nat, nat>, depth: map<nat, nat>, u: nat)
    requires DfsState(M, p, visited, parent, depth) && NoSelfLoops(M)
    requires |p| >= 2 && u in p && u != p[|p| - 2] && Edge(M, p[|p| - 1], u)
    ensures IsCycle(M, p[IndexOf(p, u)..]) && CycleOnDfsPath(M, p[IndexOf(p, u)..], p)
  {
    PathIsSimpleWalk(M, p, visited, parent, depth);
    var i := IndexOf(p, u);
    assert u != p[|p| - 1];
    TailCycle(M, p, i);
    TailOnDfsPath(M, p, i);
  }

  lemma CycleOnLongerPath(M: Matrix, c: seq<nat>, p: seq<nat>, u: nat)
    requires CycleOnDfsPath(M, c, p + [u])
    ensures CycleOnDfsPath(M, c, p)
  {
    var ext :| IsWalk(M, p + [u] + ext) && Distinct(p + [u] + ext)
               && |c| <= |p + [u] + ext| && c == (p + [u] + ext)[|p + [u] + ext| - |c|..];
    assert p + [u] + ext == p + ([u] + ext);
  }

  /**
   What holds while v's neighbours are scanned: v is pushed onto the entry
   path, everything visited since entry is reachable from v, a recorded cycle
   is a genuine one taken from the search stack, and, unless a cycle has been
   recorded, every edge out of a finished vertex is a parent pointer.
   */
  ghost predicate ScanState(M: Matrix, v: nat, path: seq<nat>, visited: set<nat>, parent: map<nat, nat>,
                            p: seq<nat>, vis: set<nat>, par: map<nat, nat>, dep: map<nat, nat>,
                            cycle: Option<seq<nat>>)
  {
    && p == path + [v]
    && visited + {v} <= vis
    && DfsState(M, p, vis, par, dep)
    && Extends(parent, par)
    && (forall x :: x in vis - visited ==> Reachable(M, v, x))
    && (cycle.Some? ==> IsCycle(M, cycle.value) && CycleOnDfsPath(M, cycle.value, p))
    && (Symmetric(M) && TreeEdges(M, path, visited, parent) ==> cycle.Some? || TreeEdges(M, p, vis, par))
  }

  /**
   The first k neighbours have been scanned: each is visited, and each that
   lies on the entry path other than at its top has made a cycle be recorded.
   */
  ghost predicate Scanned(nbrs: seq<nat>, k: nat, path: seq<nat>, vis: set<nat>, cycle: Option<seq<nat>>)
    requires k <= |nbrs|
  {
    && (forall j :: 0 <= j < k ==> nbrs[j] in vis)
    && (forall j :: 0 <= j < k && nbrs[j] in path && nbrs[j] != path[|path| - 1] ==> cycle.Some?)
  }

  /** Scanning neighbour k, which only grows the visited set and never loses a cycle, extends the scanned prefix. */
  lemma ScannedStep(nbrs: seq<nat>, k: nat, path: seq<nat>, vis: set<nat>, cycle: Option<seq<nat>>,
                    vis': set<nat>, cycle': Option<seq<nat>>)
    requires k < |nbrs| && Scanned(nbrs, k, path, vis, cycle)
    requires vis <= vis' && nbrs[k] in vis'
    requires cycle.Some? ==> cycle'.Some?
    requires nbrs[k] in path && nbrs[k] != path[|path| - 1] ==> cycle'.Some?
    ensures Scanned(nbrs, k + 1, path, vis', cycle')
  {
  }

  /** Pushing v onto the entry path starts the scan of its neighbours with no cycle recorded. */
  lemma EnterScan(M: Matrix, v: nat, path: seq<nat>, visited: set<nat>,
                  parent: map<nat, nat>, depth: map<nat, nat>)
    requires DfsState(M, path, visited, parent, depth)
    requires v < |M| && v !in visited
    requires |path| > 0 ==> Edge(M, path[|path| - 1], v)
    ensures ScanState(M, v, path, visited, parent, path + [v], visited + {v},
                      if |path| > 0 then parent[v := path[|path| - 1]] else parent,
                      depth[v := |path|], None)
  {
    PushState(M, path, visited, parent, depth, v);
    ReachRefl(M, v);
  }

  /** Once every neighbour of v has been scanned, popping v restores the search state on the entry path. */
  lemma LeaveScan(M: Matrix, v: nat, path: seq<nat>, visited: set<nat>, parent: map<nat, nat>,
                  p: seq<nat>, vis: set<nat>, par: map<nat, nat>, dep: map<nat, nat>,
                  cycle: Option<seq<nat>>, nbrs: seq<nat>)
    requires NoSelfLoops(M) && v < |M| && nbrs == Neighbors(v, M)
    requires ScanState(M, v, path, visited, parent, p, vis, par, dep, cycle)
    requires Scanned(nbrs, |nbrs|, path, vis, cycle)
    ensures p[|p| - 1] == v && p[..|p| - 1] == path
    ensures DfsState(M, path, vis, par, dep)
    ensures Symmetric(M) && TreeEdges(M, path, visited, parent) && cycle.None? ==> TreeEdges(M, path, vis, par)
  {
    assert forall y: nat :: Edge(M, v, y) ==> y in vis;
    PopState(M, path, vis, par, dep, v);
  }

  /**
   findCycleFrom(v, M, path, visited). The source mutates `path` and
   `visited` in place; here they are passed in and handed back. v is pushed
   and marked visited, its neighbours are scanned in ascending order (see
   ScanNeighbor), v is popped, and the last cycle recorded is returned.
   */
  method FindCycleFrom(v: nat, M: Matrix, path: seq<nat>, visited: set<nat>,
                       ghost parent: map<nat, nat>, ghost depth: map<nat, nat>)
    returns (cycle: Option<seq<nat>>, pathOut: seq<nat>, visitedOut: set<nat>,
             ghost parentOut: map<nat, nat>, ghost depthOut: map<nat, nat>)
    requires NoSelfLoops(M)
    requires v < |M| && v !in path && v !in visited
    requires |path| > 0 ==> Edge(M, path[|path| - 1], v)
    requires DfsState(M, path, visited, parent, depth)
    ensures pathOut == path
    ensures visited + {v} <= visitedOut
    ensures DfsState(M, path, visitedOut, parentOut, depthOut)
    ensures Extends(parent, parentOut)
    ensures forall x :: x in visitedOut - visited ==> Reachable(M, v, x)
    ensures cycle.Some? ==> IsCycle(M, cycle.value) && CycleOnDfsPath(M, cycle.value, path + [v])
    ensures Symmetric(M) && TreeEdges(M, path, visited, parent) && cycle.None?
            ==> TreeEdges(M, path, visitedOut, parentOut)
    decreases Range(|M|) - visited, 0
  {
    visitedOut := visited + {v};
    var p := path + [v];
    parentOut := if |path| > 0 then parent[v := path[|path| - 1]] else parent;
    depthOut := depth[v := |path|];
    cycle := None;
    EnterScan(M, v, path, visited, parent, depth);
    var nbrs := Neighbors(v, M);
    var k := 0;
    while k < |nbrs|
      invariant 0 <= k <= |nbrs|
      invariant ScanState(M, v, path, visited, parent, p, visitedOut, parentOut, depthOut, cycle)
      invariant Scanned(nbrs, k, path, visitedOut, cycle)
    {
      assert v in Range(|M|) - visited && v !in Range(|M|) - visitedOut;
      ghost var vis, cyc := visitedOut, cycle;
      cycle, p, visitedOut, parentOut, depthOut :=
        ScanNeighbor(nbrs[k], v, M, path, visited, parent, p, visitedOut, parentOut, depthOut, cycle);
      ScannedStep(nbrs, k, path, vis, cyc, visitedOut, cycle);
      k := k + 1;
    }
    LeaveScan(M, v, path, visited, parent, p, visitedOut, parentOut, depthOut, cycle, nbrs);
    p := p[..|p| - 1];
    pathOut := p;
  }

  /**
   One turn of findCycleFrom's loop over the neighbours of v, for neighbour u:
   a u on the path other than the vertex just below v (path[-2] once v is
   pushed) closes the cycle path[i:] with path[i] == u; a visited u is
   skipped; an unvisited u is searched recursively and a cycle it reports
   replaces the current one.
   */
  method ScanNeighbor(u: nat, v: nat, M: Matrix, ghost path: seq<nat>, ghost visited: set<nat>,
                      ghost parent: map<nat, nat>, p: seq<nat>, vis: set<nat>,
                      ghost par: map<nat, nat>, ghost dep: map<nat, nat>, cycle: Option<seq<nat>>)
    returns (cycle': Option<seq<nat>>, p': seq<nat>, vis': set<nat>,
             ghost par': map<nat, nat>, ghost dep': map<nat, nat>)
    requires NoSelfLoops(M) && v < |M| && Edge(M, v, u)
    requires ScanState(M, v, path, visited, parent, p, vis, par, dep, cycle)
    ensures ScanState(M, v, path, visited, parent, p', vis', par', dep', cycle')
    ensures vis <= vis' && u in vis'
    ensures cycle.Some? ==> cycle'.Some?
    ensures u in path && u != path[|path| - 1] ==> cycle'.Some?
    decreases Range(|M|) - vis, 1
  {
    assert u != v;
    cycle', p', vis', par', dep' := cycle, p, vis, par, dep;
    if u in p && p[|p| - 2] != u {
      assert u in vis;
      BackEdgeCycle(M, p, vis, par, dep, u);
      var i := IndexOf(p, u);
      cycle' := Some(p[i..]);
    } else if u in vis {
    } else {
      var newCycle;
      newCycle, p', vis', par', dep' := FindCycleFrom(u, M, p, vis, par, dep);
      forall x | x in vis' - visited
        ensures Reachable(M, v, x)
      {
        if x !in vis {
          ReachPrepend(M, v, u, x);
        }
      }
      if newCycle.Some? {
        CycleOnLongerPath(M, newCycle.value, p, u);
        cycle' := newCycle;
      }
    }
  }

  /** The vertex of c that lies deepest in the search forest. */
  lemma DeepestOnCycle(c: seq<nat>, depth: map<nat, nat>) returns (k: nat)
    requires |c| > 0 && forall j :: 0 <= j < |c| ==> c[j] in depth
    ensures k < |c| && forall j :: 0 <= j < |c| ==> depth[c[j]] <= depth[c[k]]
  {
    k := 0;
    var i := 1;
    while i < |c|
      invariant 1 <= i <= |c| && k < i
      invariant forall j :: 0 <= j < i ==> depth[c[j]] <= depth[c[k]]
    {
      if depth[c[i]] > depth[c[k]] {
        k := i;
      }
      i := i + 1;
    }
  }

  /**
   A closed walk of length at least three whose every edge is a parent
   pointer of a forest repeats a vertex: its deepest vertex needs both of
   its walk neighbours as its parent, and they sit at different positions.
   */
  lemma ForestWalkRepeats(M: Matrix, parent: map<nat, nat>, depth: map<nat, nat>, c: seq<nat>)
    requires |c| >= 3 && ClosedWalk(M, c)
    requires forall x: nat :: x < |M| ==> x in depth
    requires forall x {:trigger parent[x]} :: x in parent ==> parent[x] in depth && x in depth && depth[parent[x]] + 1 == depth[x]
    requires forall x: nat, y: nat :: Edge(M, x, y) ==> TreeEdge(parent, x, y)
    ensures !Distinct(c)
  {
    var L := |c|;
    forall j | 0 <= j < L
      ensures c[j] in depth
    {
      assert Edge(M, c[j], Next(c, j));
    }
    var k := DeepestOnCycle(c, depth);
    var pk := if k == 0 then L - 1 else k - 1;
    var nk := if k + 1 < L then k + 1 else 0;
    assert Next(c, pk) == c[k];
    assert Next(c, k) == c[nk];
    assert TreeEdge(parent, c[k], c[nk]) && TreeEdge(parent, c[pk], c[k]);
    // the other orientation of either edge would put a vertex below c[k]
    assert c[k] in parent && parent[c[k]] == c[nk];
    assert c[k] in parent && parent[c[k]] == c[pk];
    assert pk != nk && c[pk] == c[nk];
  }

  /**
   findCycle: searches from every vertex not yet visited and returns the
   first cycle reported. The result is None exactly when the graph has no
   cycle; a returned cycle is a genuine one.
   */
  method FindCycle(M: Matrix) returns (cycle: Option<seq<nat>>)
    requires |M| >= 1 && Symmetric(M) && NoSelfLoops(M) && Connected(M)
    ensures cycle.Some? ==> IsCycle(M, cycle.value)
    ensures cycle.None? ==> NoCycle(M)
  {
    var n := |M|;
    var visited: set<nat> := {};
    var path: seq<nat> := [];
    ghost var parent: map<nat, nat> := map[];
    ghost var depth: map<nat, nat> := map[];
    cycle := None;
    var v := 0;
    while v < n
      invariant 0 <= v <= n
      invariant path == [] && cycle.None?
      invariant DfsState(M, [], visited, parent, depth)
      invariant TreeEdges(M, [], visited, parent)
      invariant forall x: nat :: x < v ==> x in visited
    {
      if v !in visited {
        cycle, visited, parent, depth := SearchRoot(v, M, visited, parent, depth);
        if cycle.Some? {
          return;
        }
      }
      v := v + 1;
    }
    SearchForestAcyclic(M, visited, parent, depth);
  }

  /** One root of findCycle's outer loop: a search from v on the empty path. */
  method SearchRoot(v: nat, M: Matrix, visited: set<nat>, ghost parent: map<nat, nat>, ghost depth: map<nat, nat>)
    returns (cycle: Option<seq<nat>>, visitedOut: set<nat>,
             ghost parentOut: map<nat, nat>, ghost depthOut: map<nat, nat>)
    requires Symmetric(M) && NoSelfLoops(M) && v < |M| && v !in visited
    requires DfsState(M, [], visited, parent, depth) && TreeEdges(M, [], visited, parent)
    ensures cycle.Some? ==> IsCycle(M, cycle.value)
    ensures cycle.None? ==> DfsState(M, [], visitedOut, parentOut, depthOut) && TreeEdges(M, [], visitedOut, parentOut)
    ensures visited + {v} <= visitedOut
  {
    var path;
    cycle, path, visitedOut, parentOut, depthOut := FindCycleFrom(v, M, [], visited, parent, depth);
  }

  /** When every vertex has been searched and every edge is a tree edge, M has no cycle. */
  lemma SearchForestAcyclic(M: Matrix, visited: set<nat>, parent: map<nat, nat>, depth: map<nat, nat>)
    requires DfsState(M, [], visited, parent, depth) && TreeEdges(M, [], visited, parent)
    requires forall x: nat :: x < |M| ==> x in visited
    ensures NoCycle(M)
  {
    forall c
      ensures !IsCycle(M, c)
    {
      if |c| >= 3 && ClosedWalk(M, c) {
        ForestWalkRepeats(M, parent, depth, c);
      }
    }
  }

  /** A subset at least as large as its superset is the whole superset. */
  lemma SubsetOfSameSize(A: set<nat>, B: set<nat>)
    requires A <= B && |A| >= |B|
    ensures A == B
  {
    assert B == A + (B - A);
    assert |B - A| == 0;
  }

  /**
   A vertex set that holds 0, holds only vertices of M, is reachable from 0
   and is closed under edges has n members exactly when M is connected.
   */
  lemma CountDecidesConnected(M: Matrix, visited: set<nat>)
    requires forall x :: x in visited ==> x < |M|
    requires forall x :: x in visited ==> Reachable(M, 0, x)
    requires forall a, b :: a in visited && Edge(M, a, b) ==> b in visited
    requires 0 in visited
    ensures |visited| == |M| <==> Connected(M)
  {
    var n := |M|;
    assert visited <= Range(n);
    if |visited| == n {
      SubsetOfSameSize(visited, Range(n));
      forall y: nat | y < n
        ensures Reachable(M, 0, y)
      {
        assert y in Range(n);
      }
    }
    if Connected(M) {
      forall y: nat | y < n
        ensures y in visited
      {
        ClosedContainsReachable(M, visited, 0, y);
      }
      assert visited == Range(n);
    }
  }

  /**
   isConnected: one search from vertex 0, then a comparison of the visited
   count with n. The answer is whether every vertex is reachable from 0.
   */
  method IsConnected(M: Matrix) returns (b: bool)
    requires |M| >= 1 && Square(M) && NoSelfLoops(M)
    ensures b <==> Connected(M)
  {
    var cycle, path, visited;
    ghost var parent, depth;
    cycle, path, visited, parent, depth := FindCycleFrom(0, M, [], {}, map[], map[]);
    SearchedFromZero(M, visited, parent, depth);
    b := |visited| == |M|;
  }

  lemma SearchedFromZero(M: Matrix, visited: set<nat>, parent: map<nat, nat>, depth: map<nat, nat>)
    requires DfsState(M, [], visited, parent, depth)
    requires 0 in visited
    requires forall x :: x in visited ==> Reachable(M, 0, x)
    ensures |visited| == |M| <==> Connected(M)
  {
    CountDecidesConnected(M, visited);
  }
}
