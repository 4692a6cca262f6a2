/**
 The two graphs of hw8.py: the handout graph of `createExampleGraph`, and
 the weighted triangle the script runs `findMST` on. For the triangle the
 contract of FindMST alone pins the result down: the edge {0, 1} of weight 2
 is the only one heaviest on a cycle, so it is the one removed.
 */
module MstExamples {
  import opened Options
  import opened GraphModel
  import opened MstEngine

  /** createExampleGraph: the handout graph on five vertices. */
  function ExampleGraph(): (M: Matrix)
    ensures |M| == 5 && WellFormed(M) && NonzeroWeights(M)
    ensures forall y :: 1 <= y < 5 ==> Edge(M, 0, y)
  {
    var M := [
      [None, Some(12), Some(-5), Some(3), Some(4)],
      [Some(12), None, None, Some(-8), None],
      [Some(-5), None, None, Some(5), None],
      [Some(3), Some(-8), Some(5), None, Some(11)],
      [Some(4), None, None, Some(11), None]
    ];
    ExampleConnected(M);
    M
  }

  /** A graph in which vertex 0 is adjacent to every other vertex is connected. */
  lemma ExampleConnected(M: Matrix)
    requires forall y :: 1 <= y < |M| ==> Edge(M, 0, y)
    ensures Connected(M)
  {
    forall y: nat | y < |M|
      ensures Reachable(M, 0, y)
    {
      if y == 0 {
        ReachRefl(M, 0);
      } else {
        assert IsWalk(M, [0, y]);
      }
    }
  }

  /** The triangle of the script: weights 2 on {0, 1}, -3 on {0, 2} and -4 on {1, 2}. */
  function Triangle(): (M: Matrix)
    ensures |M| == 3 && WellFormed(M) && NonzeroWeights(M)
  {
    var M := [[None, Some(2), Some(-3)], [Some(2), None, Some(-4)], [Some(-3), Some(-4), None]];
    assert Edge(M, 0, 1) && Edge(M, 0, 2);
    ExampleConnected(M);
    M
  }

  /** On the triangle, the edge {1, 2} is not heaviest on any cycle: every cycle passes through vertex 0. */
  lemma LightestNotHeaviest(c: seq<nat>)
    requires IsCycle(Triangle(), c)
    ensures exists j :: 0 <= j < |c| && CycleWeight(Triangle(), c, j) > -4
  {
    var M := Triangle();
    assert Edge(M, c[0], Next(c, 0)) && Edge(M, c[1], Next(c, 1)) && Edge(M, c[2], Next(c, 2));
    assert Next(c, 0) == c[1];
    assert CycleWeight(M, c, 0) > -4 || CycleWeight(M, c, 1) > -4;
  }

  /** On the triangle, the edge {0, 2} is not heaviest on any cycle: every cycle also uses {0, 1}. */
  lemma MiddleNotHeaviest(c: seq<nat>)
    requires IsCycle(Triangle(), c)
    ensures exists j :: 0 <= j < |c| && CycleWeight(Triangle(), c, j) > -3
  {
    var M := Triangle();
    assert Edge(M, c[0], Next(c, 0)) && Edge(M, c[1], Next(c, 1)) && Edge(M, c[2], Next(c, 2));
    assert Next(c, 0) == c[1] && Next(c, 1) == c[2] && Next(c, 2) != c[1];
    assert CycleWeight(M, c, 0) > -3 || CycleWeight(M, c, 1) > -3 || CycleWeight(M, c, 2) > -3;
  }

  /** Every edge removed from the triangle is heaviest on a cycle, so {1, 2} and {0, 2} stay. */
  lemma TriangleKeepsLighter(T: Matrix)
    requires RemovedHeaviest(Triangle(), T)
    ensures Edge(T, 1, 2) && Edge(T, 0, 2)
  {
    var M := Triangle();
    if !Edge(T, 1, 2) {
      assert HeaviestOnCycle(M, 1, 2);
      var c, k :| IsCycle(M, c) && 0 <= k < |c| && ((c[k] == 1 && Next(c, k) == 2) || (c[k] == 2 && Next(c, k) == 1))
                  && forall j :: 0 <= j < |c| ==> CycleWeight(M, c, j) <= Weight(M, 1, 2);
      LightestNotHeaviest(c);
    }
    if !Edge(T, 0, 2) {
      assert HeaviestOnCycle(M, 0, 2);
      var c, k :| IsCycle(M, c) && 0 <= k < |c| && ((c[k] == 0 && Next(c, k) == 2) || (c[k] == 2 && Next(c, k) == 0))
                  && forall j :: 0 <= j < |c| ==> CycleWeight(M, c, j) <= Weight(M, 0, 2);
      MiddleNotHeaviest(c);
    }
  }

  /** A loop-free subgraph of the triangle without a cycle that keeps {1, 2} and {0, 2} has lost {0, 1}. */
  lemma TriangleDropsHeaviest(T: Matrix)
    requires Square(T) && |T| == 3 && NoCycle(T) && Edge(T, 1, 2) && Edge(T, 0, 2) && Symmetric(T)
    ensures !Edge(T, 0, 1)
  {
    if Edge(T, 0, 1) {
      assert ClosedWalk(T, [0, 1, 2]) by {
        assert Next([0, 1, 2], 0) == 1 && Next([0, 1, 2], 1) == 2 && Next([0, 1, 2], 2) == 0;
      }
      assert IsCycle(T, [0, 1, 2]);
    }
  }

  /** The subgraphs of the triangle are fixed by which of its three edges they keep. */
  lemma TriangleWithoutHeaviest(T: Matrix)
    requires Symmetric(T) && Subgraph(T, Triangle())
    requires !Edge(T, 0, 1) && Edge(T, 1, 2) && Edge(T, 0, 2)
    ensures T == [[None, None, Some(-3)], [None, None, Some(-4)], [Some(-3), Some(-4), None]]
  {
    var M := Triangle();
    assert T[0] == [None, None, Some(-3)] by {
      assert T[0][0] == None && T[0][1] == None && T[0][2] == M[0][2];
    }
    assert T[1] == [None, None, Some(-4)] by {
      assert T[1][0] == None && T[1][1] == None && T[1][2] == M[1][2];
    }
    assert T[2] == [Some(-3), Some(-4), None] by {
      assert T[2][0] == M[2][0] && T[2][1] == M[2][1] && T[2][2] == None;
    }
  }

  /**
   findMST on the triangle of the script deletes the edge {0, 1} and keeps
   the other two.
   */
  method TriangleMST() returns (T: Matrix)
    ensures T == [[None, None, Some(-3)], [None, None, Some(-4)], [Some(-3), Some(-4), None]]
  {
    var M := Triangle();
    T := FindMST(M);
    TriangleKeepsLighter(T);
    TriangleDropsHeaviest(T);
    TriangleWithoutHeaviest(T);
  }
}
