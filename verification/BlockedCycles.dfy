/** Cycles of blocked transactions, wherever their members stand in their queues: the deadlocks of a node, of which its
    wait-for graph shows only a part (LockTable.cpp, ResourceManager.cpp). */
module BlockedCycles {
  import opened Commons
  import opened Graphs
  import opened LockModel
  import opened NodeModel
  import opened WaitForGraph

  /** `w` is blocked on a resource of this node that `h` holds; here `h` may be `w` itself. */
  ghost predicate BlockedOn(s: Node, w: TransactionId, h: TransactionId) {
    w in s.txns && LocalWait(s.txns[w]) && h in HoldersOf(s.locks, s.txns[w].waitingForResourceId)
  }

  ghost predicate BlockedCycle(s: Node, c: seq<TransactionId>) {
    && |c| > 0
    && (forall i :: 0 <= i < |c| - 1 ==> BlockedOn(s, c[i], c[i + 1]))
    && BlockedOn(s, c[|c| - 1], c[0])
  }

  lemma WaitsIsBlockedAtFront(s: Node, w: TransactionId, h: TransactionId)
    requires Inv(s)
    ensures WaitsFor(s, w, h) <==> BlockedOn(s, w, h) && IsFront(s, w, WaitingFor(s, w)) && h != w
  {
    if WaitsFor(s, w, h) { WaiterIsBlocked(s, w, WaitingFor(s, w)); }
    if BlockedOn(s, w, h) { assert TxnValid(s, s.txns[w]); }
  }

  /** Every cycle of the wait-for graph is a cycle of blocked transactions; the converse holds exactly when each
      member is first in its queue and waits for somebody else.  So a deadlock behind another front waiter, active
      or aborted, and a transaction that waits for its own shared lock, are seen by probes only. */
  lemma BuilderSeesOnlyFronts(s: Node, c: seq<TransactionId>)
    requires Inv(s) && c != []
    ensures WaitCycle(s, c) <==>
      BlockedCycle(s, c) && forall i :: 0 <= i < |c| ==> IsFront(s, c[i], WaitingFor(s, c[i])) && Next(c, i) != c[i]
  {
    hide WaitsFor, BlockedOn, IsFront, WaitingFor, Inv;
    forall i | 0 <= i < |c|
      ensures WaitsFor(s, c[i], Next(c, i)) <==>
        BlockedOn(s, c[i], Next(c, i)) && IsFront(s, c[i], WaitingFor(s, c[i])) && Next(c, i) != c[i]
    {
      WaitsIsBlockedAtFront(s, c[i], Next(c, i));
    }
  }

  // ---------- every deadlock is stable, shown or not ----------

  lemma BlockedOnSurvives(s: Node, s': Node, w: TransactionId, h: TransactionId)
    requires Inv(s) && Evolves(s, s') && BlockedOn(s, w, h) && w in s'.txns && h in s'.txns
    ensures BlockedOn(s', w, h) && s'.txns[w] == s.txns[w]
  {
  }

  /** A cycle of blocked transactions is there after every run that aborts none of its members, and none of them has
      executed another statement. */
  lemma BlockedCycleIsStable(s: Node, c: seq<TransactionId>, steps: seq<Step>)
    requires Inv(s) && BlockedCycle(s, c)
    requires forall t :: t in c ==> Abort(t) !in steps
    ensures BlockedCycle(Run(s, steps), c)
    ensures forall t :: t in c ==> t in s.txns && t in Run(s, steps).txns && Run(s, steps).txns[t] == s.txns[t]
  {
    RunEvolves(s, steps);
    var s' := Run(s, steps);
    forall i | 0 <= i < |c| ensures c[i] in s.txns && c[i] in s'.txns && BlockedOn(s, c[i], Next(c, i)) {
      var t := c[i];
      assert BlockedOn(s, t, Next(c, i));
      assert t in c;
      AbortedByStep(s, steps, t);
      assert Aborting(t) !in s.history;
    }
    hide Inv, Evolves, Run, BlockedOn;
    forall i | 0 <= i < |c| ensures BlockedOn(s', c[i], Next(c, i)) && s'.txns[c[i]] == s.txns[c[i]] {
      assert BlockedOn(s, c[i], Next(c, i));
      BlockedOnSurvives(s, s', c[i], Next(c, i));
    }
    assert forall i :: 0 <= i < |c| - 1 ==> Next(c, i) == c[i + 1];
    assert BlockedOn(s', c[|c| - 1], Next(c, |c| - 1));
  }

  // ---------- an aborted front waiter blinds the graph ----------

  /** An aborted transaction stays first in its queue for ever, so no edge through that resource is in the wait-for
      relation after any further run. */
  lemma AbortBlindsTheResource(s: Node, t: TransactionId, r: ResourceId, steps: seq<Step>, w: TransactionId,
                               h: TransactionId)
    requires Inv(s) && IsFront(s, t, r)
    ensures var now := Run(Finish(s, t, Aborting(t)), steps); WaitsFor(now, w, h) ==> WaitingFor(now, w) != r
  {
    var s' := Finish(s, t, Aborting(t));
    FinishInv(s, t, Aborting(t));
    FinishEvolves(s, t, Aborting(t));
    RunEvolves(s', steps);
    var now := Run(s', steps);
    assert t in QueueOf(s.locks, r) && QueuedValid(s, r, t);
    assert t !in s'.txns && t < s'.nextId;
    hide Run;
    if WaitsFor(now, w, h) && WaitingFor(now, w) == r {
      assert QueueOf(s.locks, r) <= QueueOf(s'.locks, r) <= QueueOf(now.locks, r);
      WaiterIsBlocked(now, w, r);
    }
  }

  /** Every member of a wait cycle is the front waiter of the resource it waits for, so each victim that is aborted
      takes that resource out of every later graph. */
  lemma VictimsBlindTheirResources(s: Node, c: seq<TransactionId>, t: TransactionId, steps: seq<Step>, w: TransactionId,
                                   h: TransactionId)
    requires Inv(s) && WaitCycle(s, c) && t in c
    ensures IsFront(s, t, WaitingFor(s, t))
    ensures var now := Run(Finish(s, t, Aborting(t)), steps);
      WaitsFor(now, w, h) ==> WaitingFor(now, w) != WaitingFor(s, t)
  {
    var i :| 0 <= i < |c| && c[i] == t;
    assert WaitsFor(s, c[i], if i < |c| - 1 then c[i + 1] else c[0]);
    AbortBlindsTheResource(s, t, WaitingFor(s, t), steps, w, h);
  }
}
