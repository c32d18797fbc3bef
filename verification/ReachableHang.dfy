/** A run of one node whose wait-for graph makes the cycle search follow parents for ever: the outcome `Hangs` is not
    an artefact of arbitrary graphs (DeadlockDetector.cpp, LockTable.cpp). */
module ReachableHang {
  import opened Commons
  import opened Graphs
  import opened LockModel
  import opened NodeModel
  import opened WaitForGraph
  import opened ConcreteRuns
  import D = DetectorModel
  import T = Tangle

  const FIRST := [Lock(4, Shared), Lock(1, Exclusive)]
  const SECOND := [Lock(1, Exclusive), Lock(2, Exclusive), Lock(3, Exclusive), Lock(4, Exclusive)]
  const THIRD := [Lock(4, Shared), Lock(2, Exclusive)]
  const FOURTH := [Lock(3, Exclusive)]

  lemma Statements()
    ensures WellFormed(FIRST) && WellFormed(SECOND) && WellFormed(THIRD) && WellFormed(FOURTH)
  {
  }

  lemma AllBegun() returns (steps: seq<Step>, x: seq<Txn>)
    ensures After(steps, [map[], map[], map[], map[], map[]], [[], [], [], [], []], x)
    ensures |x| == 5 && x[1] == NewTxn(1, 1, FIRST) && x[2] == NewTxn(2, 1, SECOND)
    ensures x[3] == NewTxn(3, 1, THIRD) && x[4] == NewTxn(4, 1, FOURTH)
  {
    hide After, WellFormed;
    var h: seq<Holders>, q: seq<seq<TransactionId>> := [map[], map[], map[], map[], map[]], [[], [], [], [], []];
    x := [NewTxn(0, 1, [])];
    NothingYet(h, q, x);
    Statements();
    steps, x := StartTwo([], h, q, x, FIRST, SECOND);
    steps, x := StartTwo(steps, h, q, x, THIRD, FOURTH);
  }

  /** The first and the third transaction share resource 4. */
  lemma SharedGranted() returns (steps: seq<Step>, h: seq<Holders>, x: seq<Txn>)
    ensures After(steps, h, [[], [], [], [], []], x)
    ensures h == [map[], map[], map[], map[], map[1 := Shared, 3 := Shared]]
    ensures |x| == 5 && Wants(x[1], 1, Exclusive) && x[2] == NewTxn(2, 1, SECOND)
    ensures Wants(x[3], 2, Exclusive) && Wants(x[4], 3, Exclusive)
  {
    var q: seq<seq<TransactionId>> := [[], [], [], [], []];
    steps, x := AllBegun();
    h := [map[], map[], map[], map[], map[]];
    hide After;
    Grant(steps, h, q, x, 1, 4, Shared);
    steps, h, x := steps + [TryExecute(1)], h[4 := h[4][1 := Shared]], x[1 := Advance(x[1], 4, Shared)];
    Grant(steps, h, q, x, 3, 4, Shared);
    steps, h, x := steps + [TryExecute(3)], h[4 := h[4][3 := Shared]], x[3 := Advance(x[3], 4, Shared)];
    assert h == [map[], map[], map[], map[], map[1 := Shared, 3 := Shared]];
  }

  /** Then the second takes resources 1 to 3. */
  lemma AllGranted() returns (steps: seq<Step>, h: seq<Holders>, x: seq<Txn>)
    ensures After(steps, h, [[], [], [], [], []], x)
    ensures |h| == 5 && h[1] == h[2] == h[3] == map[2 := Exclusive] && h[4] == map[1 := Shared, 3 := Shared]
    ensures |x| == 5 && Wants(x[1], 1, Exclusive) && Wants(x[2], 4, Exclusive)
    ensures Wants(x[3], 2, Exclusive) && Wants(x[4], 3, Exclusive)
  {
    var q: seq<seq<TransactionId>> := [[], [], [], [], []];
    steps, h, x := SharedGranted();
    hide After;
    Grant(steps, h, q, x, 2, 1, Exclusive);
    steps, h, x := steps + [TryExecute(2)], h[1 := h[1][2 := Exclusive]], x[2 := Advance(x[2], 1, Exclusive)];
    Grant(steps, h, q, x, 2, 2, Exclusive);
    steps, h, x := steps + [TryExecute(2)], h[2 := h[2][2 := Exclusive]], x[2 := Advance(x[2], 2, Exclusive)];
    Grant(steps, h, q, x, 2, 3, Exclusive);
    steps, h, x := steps + [TryExecute(2)], h[3 := h[3][2 := Exclusive]], x[2 := Advance(x[2], 3, Exclusive)];
  }

  /** After that the second waits for resource 4 and each of the others for one resource of the second. */
  lemma AllWaiting() returns (steps: seq<Step>, h: seq<Holders>, q: seq<seq<TransactionId>>, x: seq<Txn>)
    ensures After(steps, h, q, x) && |x| == 5
    ensures |h| == 5 && h[1] == h[2] == h[3] == map[2 := Exclusive] && h[4] == map[1 := Shared, 3 := Shared]
    ensures |q| == 5 && q[1] == [1] && q[2] == [3] && q[3] == [4] && q[4] == [2]
    ensures x[1].waitingForResourceId == 1 && x[2].waitingForResourceId == 4
    ensures x[3].waitingForResourceId == 2 && x[4].waitingForResourceId == 3
  {
    steps, h, x := AllGranted();
    q := [[], [], [], [], []];
    hide After, Wants;
    assert 2 in h[1] && 2 in h[2] && 2 in h[3] && 1 in h[4];
    Refuse(steps, h, q, x, 2, 4);
    steps, q, x := steps + [TryExecute(2)], q[4 := q[4] + [2]], x[2 := Refused(x[2], 4)];
    Refuse(steps, h, q, x, 1, 1);
    steps, q, x := steps + [TryExecute(1)], q[1 := q[1] + [1]], x[1 := Refused(x[1], 1)];
    Refuse(steps, h, q, x, 3, 2);
    steps, q, x := steps + [TryExecute(3)], q[2 := q[2] + [3]], x[3 := Refused(x[3], 2)];
    Refuse(steps, h, q, x, 4, 3);
    steps, q, x := steps + [TryExecute(4)], q[3 := q[3] + [4]], x[4 := Refused(x[4], 3)];
  }

  lemma TangledWaits(steps: seq<Step>, s: Node, h: seq<Holders>, q: seq<seq<TransactionId>>, x: seq<Txn>)
    requires After(steps, h, q, x) && s == Run(Fresh(1), steps) && |x| == 5
    requires h[1] == h[2] == h[3] == map[2 := Exclusive] && h[4] == map[1 := Shared, 3 := Shared]
    requires q[1] == [1] && q[2] == [3] && q[3] == [4] && q[4] == [2]
    requires x[1].waitingForResourceId == 1 && x[2].waitingForResourceId == 4
    requires x[3].waitingForResourceId == 2 && x[4].waitingForResourceId == 3
    ensures NoAbort(steps) && IsWaitGraph(T.TANGLE, s, None)
  {
    T.TangleIsTidy();
    hide Edge, WaitsFor, Distinct, Run, Fresh;
    forall w, t ensures WaitsFor(s, w, t) <==> Edge(T.TANGLE, w, t) {
      WaitsAt(steps, s, h, q, x, w, t);
      T.TangleEdges(w, t);
    }
  }

  /** An edge, in terms of the tables. */
  lemma WaitsAt(steps: seq<Step>, s: Node, h: seq<Holders>, q: seq<seq<TransactionId>>, x: seq<Txn>,
                w: TransactionId, t: TransactionId)
    requires After(steps, h, q, x) && s == Run(Fresh(1), steps) && |x| == 5
    requires forall u :: 1 <= u <= 4 ==> 1 <= x[u].waitingForResourceId <= 4
    ensures WaitsFor(s, w, t) <==>
      && 1 <= w <= 4 && q[x[w].waitingForResourceId] != [] && q[x[w].waitingForResourceId][0] == w
      && t in h[x[w].waitingForResourceId] && t != w
  {
    hide Run, Fresh, NoAbort;
    if 1 <= w <= 4 {
      var r := x[w].waitingForResourceId;
      assert WaitingFor(s, w) == r && HoldersOf(s.locks, r) == h[r] && QueueOf(s.locks, r) == q[r];
    } else {
      assert WaitingFor(s, w) == 0;
    }
  }

  /** The search of a graph that a node really builds may never return: a run of a fresh node, without an abort, whose
      wait-for graph in some iteration order makes the parent walk run for ever, although the node is deadlocked. */
  lemma HangIsReachable() returns (steps: seq<Step>)
    ensures NoAbort(steps) && IsWaitGraph(T.TANGLE, Run(Fresh(1), steps), None)
    ensures IterationOrder(T.TANGLE, [1, 2, 3, 4]) && 0 !in Vertices(T.TANGLE) && Cyclic(T.TANGLE)
    ensures D.FindCycles(T.TANGLE, [1, 2, 3, 4]).Hangs?
  {
    hide D.FindCycles, Vertices, IsWaitGraph, Run, Fresh, After, IterationOrder, Cyclic;
    var h, q, x;
    steps, h, q, x := AllWaiting();
    TangledWaits(steps, Run(Fresh(1), steps), h, q, x);
    T.TangleHangs();
    TangleIsCyclic();
  }

  lemma TangleIsCyclic()
    ensures Cyclic(T.TANGLE)
  {
    assert ClosedWalk(T.TANGLE, [1, 2]);
  }
}
