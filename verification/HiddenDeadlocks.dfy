/** What rounds of detection leave: the wait-for graph has only the fronts of the queues, so a deadlock behind another
    front waiter is neither reported nor ended (LockTable.cpp, DistributedDBNode.cpp). */
module HiddenDeadlocks {
  import opened Commons
  import opened Graphs
  import opened LockModel
  import opened NodeModel
  import opened WaitForGraph
  import opened BlockedCycles
  import opened ConcreteRuns
  import R = Resolution

  /** Some member waits behind another in its queue, or for itself. */
  ghost predicate Hidden(s: Node, c: seq<TransactionId>) {
    exists i :: 0 <= i < |c| && (!IsFront(s, c[i], WaitingFor(s, c[i])) || Next(c, i) == c[i])
  }

  // ---------- what aborts do to blocked transactions ----------

  lemma AbortKeepsBlocked(s: Node, t: TransactionId, w: TransactionId, h: TransactionId)
    requires Inv(s)
    ensures BlockedOn(Finish(s, t, Aborting(t)), w, h) <==> BlockedOn(s, w, h) && w != t && h != t
  {
    if t in s.txns {
      ReleaseAllEntries(s.locks, t);
      var s' := Finish(s, t, Aborting(t));
      assert forall r :: HoldersOf(s'.locks, r) == HoldersOf(s.locks, r) - {t};
    } else if BlockedOn(s, w, h) {
      HolderIsActive(s, h, s.txns[w].waitingForResourceId);
    }
  }

  /** Aborts touch neither the queues nor what others wait for. */
  ghost predicate SameQueues(s: Node, s': Node) {
    && (forall r :: QueueOf(s'.locks, r) == QueueOf(s.locks, r))
    && forall w :: w in s'.txns ==> WaitingFor(s', w) == WaitingFor(s, w)
  }

  lemma {:induction false} AbortAllKeepsBlocked(s: Node, victims: seq<TransactionId>)
    requires Inv(s)
    ensures SameQueues(s, R.AbortAll(s, victims))
    ensures forall w, h :: BlockedOn(R.AbortAll(s, victims), w, h) <==>
      BlockedOn(s, w, h) && w in R.AbortAll(s, victims).txns && h in R.AbortAll(s, victims).txns
  {
    R.AbortAllRemovesTheirEdges(s, victims);
    if victims == [] {
      forall w, h | BlockedOn(s, w, h) ensures h in s.txns { HolderIsActive(s, h, s.txns[w].waitingForResourceId); }
    } else {
      var n := |victims| - 1;
      var before, s' := R.AbortAll(s, victims[..n]), R.AbortAll(s, victims);
      AbortAllKeepsBlocked(s, victims[..n]);
      R.AbortAllRemovesTheirEdges(s, victims[..n]);
      assert victims == victims[..n] + [victims[n]];
      OneMoreAborted(s, before, s', victims[n]);
    }
  }

  lemma OneMoreAborted(s: Node, before: Node, s': Node, t: TransactionId)
    requires Inv(before) && SameQueues(s, before) && s' == Finish(before, t, Aborting(t))
    requires forall w, h :: BlockedOn(before, w, h) <==> BlockedOn(s, w, h) && w in before.txns && h in before.txns
    ensures SameQueues(s, s')
    ensures forall w, h :: BlockedOn(s', w, h) <==> BlockedOn(s, w, h) && w in s'.txns && h in s'.txns
  {
    assert forall r :: QueueOf(s'.locks, r) == QueueOf(before.locks, r);
    hide Inv, BlockedOn, ReleaseAll;
    forall w, h ensures BlockedOn(s', w, h) <==> BlockedOn(s, w, h) && w in s'.txns && h in s'.txns {
      AbortKeepsBlocked(before, t, w, h);
    }
  }

  // ---------- what is left after rounds ----------

  /** What a number of rounds keeps of the first state. */
  ghost predicate Kept(s: Node, s': Node) {
    && Inv(s') && SameQueues(s, s') && (forall t :: t in s'.txns ==> t in s.txns)
    && (forall w, h :: BlockedOn(s', w, h) <==> BlockedOn(s, w, h) && w in s'.txns && h in s'.txns)
    && (forall w, h :: WaitsFor(s', w, h) ==> WaitsFor(s, w, h))
    && (forall t :: t in s.txns && t !in s'.txns ==> R.OnWaitCycle(s, t))
  }

  lemma RoundKeeps(s: Node, s': Node)
    requires Inv(s) && R.Resolved(s, s')
    ensures Kept(s, s')
  {
    var g, order :| R.ResolvedWith(s, s', g, order);
    R.RoundDestroysReportedCycles(s, s', g, order);
    AbortAllKeepsBlocked(s, R.Chosen(g, order));
    R.AbortAllRemovesTheirEdges(s, R.Chosen(g, order));
  }

  lemma KeptTrans(a: Node, b: Node, c: Node)
    requires Kept(a, b) && Kept(b, c)
    ensures Kept(a, c)
  {
    hide Inv, BlockedOn, WaitsFor, QueueOf, WaitingFor, R.OnWaitCycle;
    forall t | t in a.txns && t !in c.txns ensures R.OnWaitCycle(a, t) {
      if t in b.txns { WaitCycleWasThere(a, b, t); }
    }
  }

  lemma WaitCycleWasThere(s: Node, s': Node, t: TransactionId)
    requires R.OnWaitCycle(s', t) && forall w, h :: WaitsFor(s', w, h) ==> WaitsFor(s, w, h)
    ensures R.OnWaitCycle(s, t)
  {
    hide WaitsFor;
    var c :| WaitCycle(s', c) && t in c;
    assert WaitCycle(s, c);
  }

  lemma {:induction false} RoundsKeep(states: seq<Node>)
    requires R.Rounds(states) && Inv(states[0])
    ensures Kept(states[0], states[|states| - 1])
    decreases |states|
  {
    var n := |states| - 1;
    if n == 0 {
      AbortAllKeepsBlocked(states[0], []);
    } else {
      hide Kept, R.Resolved;
      RoundsKeep(states[..n]);
      assert Inv(states[n - 1]) by { KeptIsValid(states[0], states[n - 1]); }
      assert R.Resolved(states[n - 1], states[n - 1 + 1]);
      RoundKeeps(states[n - 1], states[n]);
      KeptTrans(states[0], states[n - 1], states[n]);
    }
  }

  lemma KeptIsValid(s: Node, s': Node)
    requires Kept(s, s')
    ensures Inv(s')
  {
  }

  /** What is left of the deadlocks of a node when the rounds have done all they can.  A cycle of blocked transactions
      is left if and only if it was there at the start and no round aborted a member.  What is left was hidden from the
      start; and a hidden cycle is left for certain if none of its members was on a wait cycle as well. */
  lemma WhatRoundsLeave(states: seq<Node>, c: seq<TransactionId>)
    requires R.Rounds(states) && Inv(states[0]) && |states| >= |states[0].txns.Keys|
    ensures var first, last := states[0], states[|states| - 1];
      && !R.HasWaitCycle(last)
      && (BlockedCycle(last, c) <==> BlockedCycle(first, c) && forall t :: t in c ==> t in last.txns)
      && (BlockedCycle(last, c) ==> Hidden(first, c))
      && (BlockedCycle(first, c) && (forall t :: t in c ==> !R.OnWaitCycle(first, t)) ==> BlockedCycle(last, c))
  {
    R.RoundsEndWaitCycles(states);
    RoundsKeep(states);
    var first, last := states[0], states[|states| - 1];
    SameBlockedCycles(first, last, c);
    if BlockedCycle(last, c) { LeftIsHidden(first, last, c); }
    if BlockedCycle(first, c) && forall t :: t in c ==> !R.OnWaitCycle(first, t) {
      MembersAreActive(first, c);
      assert forall t :: t in c ==> t in last.txns;
    }
  }

  lemma MembersAreActive(s: Node, c: seq<TransactionId>)
    requires BlockedCycle(s, c)
    ensures forall t :: t in c ==> t in s.txns
  {
    forall i | 0 <= i < |c| ensures c[i] in s.txns { assert BlockedOn(s, c[i], Next(c, i)); }
  }

  lemma SameBlockedCycles(first: Node, last: Node, c: seq<TransactionId>)
    requires Kept(first, last)
    ensures BlockedCycle(last, c) <==> BlockedCycle(first, c) && forall t :: t in c ==> t in last.txns
  {
    if BlockedCycle(last, c) { MembersAreActive(last, c); }
    hide Inv, BlockedOn, WaitsFor, SameQueues, R.OnWaitCycle;
    if BlockedCycle(first, c) && forall t :: t in c ==> t in last.txns {
      forall i | 0 <= i < |c| ensures BlockedOn(last, c[i], Next(c, i)) {
        assert BlockedOn(first, c[i], Next(c, i)) && c[i] in c && Next(c, i) in c;
      }
      assert BlockedOn(last, c[|c| - 1], Next(c, |c| - 1));
      assert forall i :: 0 <= i < |c| - 1 ==> Next(c, i) == c[i + 1];
    }
  }

  lemma LeftIsHidden(first: Node, last: Node, c: seq<TransactionId>)
    requires Inv(first) && Kept(first, last) && BlockedCycle(last, c) && !R.HasWaitCycle(last)
    ensures Hidden(first, c)
  {
    BuilderSeesOnlyFronts(last, c);
    assert !WaitCycle(last, c);
    MembersAreActive(last, c);
    hide Inv, BlockedOn, WaitsFor, R.OnWaitCycle, WaitCycle, BlockedCycle;
    var i :| 0 <= i < |c| && !(IsFront(last, c[i], WaitingFor(last, c[i])) && Next(c, i) != c[i]);
    assert c[i] in c;
    assert !IsFront(first, c[i], WaitingFor(first, c[i])) || Next(c, i) == c[i];
  }

  // ---------- a deadlock that no round sees ----------

  const ONE := [Lock(1, Exclusive), Lock(2, Exclusive)]
  const TWO := [Lock(2, Exclusive), Lock(1, Exclusive)]
  const THREE := [Lock(2, Exclusive)]

  lemma Statements()
    ensures WellFormed(ONE) && WellFormed(TWO) && WellFormed(THREE)
  {
  }

  lemma AllBegun() returns (steps: seq<Step>, x: seq<Txn>)
    ensures After(steps, [map[], map[], map[], map[], map[]], [[], [], [], [], []], x)
    ensures |x| == 4 && x[1] == NewTxn(1, 1, ONE) && x[2] == NewTxn(2, 1, TWO) && x[3] == NewTxn(3, 1, THREE)
  {
    hide After, WellFormed;
    var h: seq<Holders>, q: seq<seq<TransactionId>> := [map[], map[], map[], map[], map[]], [[], [], [], [], []];
    x := [NewTxn(0, 1, [])];
    NothingYet(h, q, x);
    Statements();
    steps, x := StartTwo([], h, q, x, ONE, TWO);
    Start(steps, h, q, x, THREE);
    steps, x := steps + [Begin(THREE)], x + [NewTxn(|x|, 1, THREE)];
  }

  lemma BothGranted() returns (steps: seq<Step>, h: seq<Holders>, x: seq<Txn>)
    ensures After(steps, h, [[], [], [], [], []], x)
    ensures |h| == 5 && h[1] == map[1 := Exclusive] && h[2] == map[2 := Exclusive] && h[3] == map[] && h[4] == map[]
    ensures |x| == 4 && Wants(x[1], 2, Exclusive) && Wants(x[2], 1, Exclusive) && Wants(x[3], 2, Exclusive)
    ensures !x[1].remoteRequestPending && !x[2].remoteRequestPending
  {
    var q: seq<seq<TransactionId>> := [[], [], [], [], []];
    steps, x := AllBegun();
    h := [map[], map[], map[], map[], map[]];
    hide After;
    Grant(steps, h, q, x, 1, 1, Exclusive);
    steps, h, x := steps + [TryExecute(1)], h[1 := h[1][1 := Exclusive]], x[1 := Advance(x[1], 1, Exclusive)];
    Grant(steps, h, q, x, 2, 2, Exclusive);
    steps, h, x := steps + [TryExecute(2)], h[2 := h[2][2 := Exclusive]], x[2 := Advance(x[2], 2, Exclusive)];
  }

  /** The third transaction queues for resource 2 first, then the first behind it, then the second for resource 1. */
  lemma AllWaiting() returns (steps: seq<Step>, h: seq<Holders>, q: seq<seq<TransactionId>>, x: seq<Txn>)
    ensures After(steps, h, q, x) && |x| == 4
    ensures |h| == 5 && h[1] == map[1 := Exclusive] && h[2] == map[2 := Exclusive] && h[3] == map[] && h[4] == map[]
    ensures |q| == 5 && q[1] == [2] && q[2] == [3, 1] && q[3] == [] && q[4] == []
    ensures x[1].status == x[2].status == Blocked && !x[1].remoteRequestPending && !x[2].remoteRequestPending
    ensures x[1].waitingForResourceId == 2 && x[2].waitingForResourceId == 1 && x[3].waitingForResourceId == 2
  {
    steps, h, x := BothGranted();
    q := [[], [], [], [], []];
    hide After, Wants;
    assert 1 in h[1] && 2 in h[2];
    Refuse(steps, h, q, x, 3, 2);
    steps, q, x := steps + [TryExecute(3)], q[2 := q[2] + [3]], x[3 := Refused(x[3], 2)];
    Refuse(steps, h, q, x, 1, 2);
    steps, q, x := steps + [TryExecute(1)], q[2 := q[2] + [1]], x[1 := Refused(x[1], 2)];
    Refuse(steps, h, q, x, 2, 1);
    steps, q, x := steps + [TryExecute(2)], q[1 := q[1] + [2]], x[2 := Refused(x[2], 1)];
  }

  lemma Standoff(steps: seq<Step>, s: Node, h: seq<Holders>, q: seq<seq<TransactionId>>, x: seq<Txn>)
    requires After(steps, h, q, x) && s == Run(Fresh(1), steps) && |x| == 4
    requires h[1] == map[1 := Exclusive] && h[2] == map[2 := Exclusive] && q[1] == [2] && q[2] == [3, 1]
    requires x[1].status == x[2].status == Blocked && !x[1].remoteRequestPending && !x[2].remoteRequestPending
    requires x[1].waitingForResourceId == 2 && x[2].waitingForResourceId == 1 && x[3].waitingForResourceId == 2
    ensures NoAbort(steps) && BlockedCycle(s, [1, 2])
    ensures forall w, t :: WaitsFor(s, w, t) ==> (w == 3 && t == 2) || (w == 2 && t == 1)
  {
    hide Run, Fresh, OwnerNodeId;
    assert HoldersOf(s.locks, 1) == h[1] && HoldersOf(s.locks, 2) == h[2];
    assert QueueOf(s.locks, 1) == [2] && QueueOf(s.locks, 2) == [3, 1];
    assert BlockedOn(s, 1, 2) && BlockedOn(s, 2, 1);
    forall w ensures WaitingFor(s, w) == if 1 <= w <= 3 then x[w].waitingForResourceId else 0 {}
  }

  lemma NoCycleOfTwoEdges(s: Node)
    requires forall w, t :: WaitsFor(s, w, t) ==> (w == 3 && t == 2) || (w == 2 && t == 1)
    ensures !R.HasWaitCycle(s)
  {
    hide WaitsFor;
    hide WaitCycle;
    forall c ensures !WaitCycle(s, c) {
      if WaitCycle(s, c) { FirstEdges(s, c); }
    }
  }

  lemma FirstEdges(s: Node, c: seq<TransactionId>)
    requires WaitCycle(s, c)
    ensures |c| > 0 && WaitsFor(s, c[|c| - 1], c[0])
    ensures |c| > 1 ==> WaitsFor(s, c[0], c[1])
    ensures |c| > 2 ==> WaitsFor(s, c[1], c[2])
  {
    hide WaitsFor;
  }

  /** A run of one node, without an abort, after which two transactions are deadlocked, while the graph of the node has
      no cycle: a third, active transaction stands before one of them in its queue.  No number of rounds changes
      anything. */
  lemma LiveFrontHidesDeadlock() returns (steps: seq<Step>)
    ensures NoAbort(steps) && Inv(Run(Fresh(1), steps))
    ensures BlockedCycle(Run(Fresh(1), steps), [1, 2]) && !R.HasWaitCycle(Run(Fresh(1), steps))
    ensures 3 in Run(Fresh(1), steps).txns && IsFront(Run(Fresh(1), steps), 3, WaitingFor(Run(Fresh(1), steps), 1))
    ensures forall states, i :: R.Rounds(states) && states[0] == Run(Fresh(1), steps) && 0 <= i < |states| ==>
      states[i] == states[0]
  {
    var h, q, x;
    steps, h, q, x := AllWaiting();
    FreshInv(1);
    RunInv(Fresh(1), steps);
    var s := Run(Fresh(1), steps);
    Standoff(steps, s, h, q, x);
    NoCycleOfTwoEdges(s);
    assert 3 in s.txns && WaitingFor(s, 1) == 2 && IsFront(s, 3, 2);
    hide Inv, R.Rounds, R.HasWaitCycle, BlockedCycle, Run, Fresh, After;
    forall states, i: nat | R.Rounds(states) && states[0] == s && i < |states| ensures states[i] == states[0] {
      R.RoundsStopAtOnce(states, i);
    }
  }
}
