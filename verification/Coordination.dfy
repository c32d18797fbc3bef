/** From collection to abort: what the coordinator of a node finds in the reports that it merged, prunes and searches
    (DistributedDBNode.cpp), while the node went on running since each of them was collected. */
module Coordination {
  import opened Commons
  import opened Graphs
  import opened NodeModel
  import opened WaitForGraph
  import D = DetectorModel
  import P = Reports
  import R = Resolution
  import T = DetectorTheorems

  /** A report of this node: collected while it ran from `start` to `mid`, with any restriction, and encoded in some
      order; since then the node has taken the steps that lead to `s`. */
  ghost predicate OwnReport(pairs: P.Pairs, s: Node, g: Graph, start: Node, mid: Node, only: Option<set<TransactionId>>,
                            keys: seq<int>, steps: seq<Step>) {
    && Inv(mid) && Collected(g, start, mid, only) && s == Run(mid, steps)
    && IterationOrder(g, keys) && pairs == P.MessageFormat(g, keys)
  }

  ghost predicate IsOwn(pairs: P.Pairs, s: Node) {
    exists g, start, mid, only, keys, steps :: OwnReport(pairs, s, g, start, mid, only, keys, steps)
  }

  /** Every report is of this node or has no edge between its transactions. */
  ghost predicate OwnOrForeign(reports: seq<P.Pairs>, s: Node) {
    forall j :: 0 <= j < |reports| ==> IsOwn(reports[j], s) || P.Foreign(reports[j], s.txns.Keys)
  }

  lemma OwnEdgeIsReal(pairs: P.Pairs, s: Node, w: TransactionId, h: TransactionId)
    requires IsOwn(pairs, s) && P.PairsMult(pairs, w, h) > 0 && w in s.txns && h in s.txns
    ensures Inv(s) && WaitsFor(s, w, h)
  {
    var g, start, mid, only, keys, steps :| OwnReport(pairs, s, g, start, mid, only, keys, steps);
    RunEvolves(mid, steps);
    P.MessageMult(g, keys, w, h);
    P.MultIsEdge(g, w, h);
    var n := |start.history|;
    assert n <= |mid.history|;
    SoundSurvives(g, n, mid, s, only);
    EndedIsGone(n, s, w);
    EndedIsGone(n, s, h);
  }

  /** Nothing that survives the prune is stale: every edge between active transactions is in the wait-for relation now,
      although reports were collected read by read and at different times, and whoever was aborted meanwhile. */
  lemma PrunedEdgesAreReal(m: Graph, reports: seq<P.Pairs>, s: Node, w: TransactionId, h: TransactionId)
    requires P.IsSum(m, reports) && OwnOrForeign(reports, s) && Edge(P.Prune(m, s.txns.Keys), w, h)
    ensures Inv(s) && WaitsFor(s, w, h)
  {
    P.PruneIsInduced(m, s.txns.Keys, w, h);
    P.MultIsEdge(m, w, h);
    var k := P.SomeReportHasIt(reports, w, h);
    assert IsOwn(reports[k], s) || P.Foreign(reports[k], s.txns.Keys);
    OwnEdgeIsReal(reports[k], s, w, h);
  }

  /** No deadlock is lost on the way: a wait cycle that was there when one of the reports was begun, and whose members
      are all active now, is a cycle of the pruned graph. */
  lemma WaitCyclesReachTheSearch(m: Graph, reports: seq<P.Pairs>, k: nat, s: Node, g: Graph, start: Node, mid: Node,
                                 only: Option<set<TransactionId>>, keys: seq<int>, steps: seq<Step>,
                                 c: seq<TransactionId>)
    requires P.IsSum(m, reports) && k < |reports| && OwnReport(reports[k], s, g, start, mid, only, keys, steps)
    requires Inv(start) && WaitCycle(start, c) && forall t :: t in c ==> Allowed(only, t) && t in s.txns
    ensures ClosedWalk(P.Prune(m, s.txns.Keys), c)
  {
    RunEvolves(mid, steps);
    var n := |start.history|;
    forall t | t in c ensures !AbortedSince(n, mid, t) {
      EndsStay(n, n, mid, s, t);
      EndedIsGone(n, s, t);
    }
    NoMissedDeadlock(g, start, mid, only, c);
    hide Inv, Evolves, WaitCycle, Collected, AbortedSince, P.Prune;
    forall w, h | Edge(g, w, h) && w in c && h in c ensures Edge(P.Prune(m, s.txns.Keys), w, h) {
      EdgeIsSummed(m, reports, k, g, keys, w, h);
      P.PruneIsInduced(m, s.txns.Keys, w, h);
    }
    CycleCarriesOver(g, P.Prune(m, s.txns.Keys), c);
  }

  lemma EdgeIsSummed(m: Graph, reports: seq<P.Pairs>, k: nat, g: Graph, keys: seq<int>, w: int, h: int)
    requires P.IsSum(m, reports) && k < |reports| && IterationOrder(g, keys) && reports[k] == P.MessageFormat(g, keys)
    requires Edge(g, w, h)
    ensures Edge(m, w, h)
  {
    P.SumRemove(reports, k, w, h);
    P.MessageMult(g, keys, w, h);
    P.MultIsEdge(g, w, h);
    P.MultIsEdge(m, w, h);
  }

  lemma CycleCarriesOver(g: Graph, p: Graph, c: seq<int>)
    requires ClosedWalk(g, c) && forall w, h :: Edge(g, w, h) && w in c && h in c ==> Edge(p, w, h)
    ensures ClosedWalk(p, c)
  {
    hide Edge;
    forall i | 0 <= i < |c| - 1 ensures Edge(p, c[i], c[i + 1]) {}
  }

  /** The search of a pruned graph returns and reports the cycle `c`. */
  ghost predicate Reported(p: Graph, order: seq<int>, c: seq<TransactionId>) {
    && 0 !in Vertices(p) && IterationOrder(p, order) && D.FindCycles(p, order).Returns?
    && exists i :: 0 <= i < |D.FindCycles(p, order).search.cycles| && D.FindCycles(p, order).search.cycles[i] == c
  }

  /** From end to end: a cycle that the search reports in the pruned form of merged reports is a deadlock that lasts
      through every run that aborts none of its members, with no member executing another statement; and then an abort
      ends it exactly when it is the abort of a member. */
  lemma ReportedCyclesAreDeadlocks(m: Graph, reports: seq<P.Pairs>, s: Node, order: seq<int>, c: seq<TransactionId>,
                                   steps: seq<Step>, t: TransactionId)
    requires P.IsSum(m, reports) && OwnOrForeign(reports, s) && Reported(P.Prune(m, s.txns.Keys), order, c)
    requires forall u :: u in c ==> Abort(u) !in steps
    ensures var now := Run(s, steps);
      && WaitCycle(now, c) && (forall u :: u in c ==> u in s.txns && u in now.txns && now.txns[u] == s.txns[u])
      && (WaitCycle(Finish(now, t, Aborting(t)), c) <==> t !in c)
  {
    var p := P.Prune(m, s.txns.Keys);
    R.ReportedCyclesHaveVictims(p, order);
    assert ClosedWalk(p, c);
    hide D.FindCycles, P.Prune, Vertices, OwnOrForeign, P.IsSum;
    PrunedCycleIsReal(m, reports, s, c);
    DeadlockIsStable(s, c, steps);
    RunEvolves(s, steps);
    R.AbortEndsItsCycles(Run(s, steps), c, t);
  }

  lemma PrunedCycleIsReal(m: Graph, reports: seq<P.Pairs>, s: Node, c: seq<TransactionId>)
    requires P.IsSum(m, reports) && OwnOrForeign(reports, s) && ClosedWalk(P.Prune(m, s.txns.Keys), c)
    ensures Inv(s) && WaitCycle(s, c)
  {
    assert c != [];
    ClosedWalkByNext(P.Prune(m, s.txns.Keys), c, 0);
    PrunedEdgesAreReal(m, reports, s, c[0], Next(c, 0));
    WaitCycleByNext(s, c);
    hide P.Prune, OwnOrForeign, P.IsSum, Inv, WaitsFor, WaitCycle, ClosedWalk, Next;
    forall i | 0 <= i < |c| ensures WaitsFor(s, c[i], Next(c, i)) {
      ClosedWalkByNext(P.Prune(m, s.txns.Keys), c, i);
      PrunedEdgesAreReal(m, reports, s, c[i], Next(c, i));
    }
  }

  /** The single report of a zone with one member is a case in point. */
  lemma OneReportIsEnough(pairs: P.Pairs, s: Node)
    requires IsOwn(pairs, s)
    ensures P.IsSum(P.Merge(map[], pairs), [pairs]) && OwnOrForeign([pairs], s)
  {
    P.OneReportIsSum(pairs);
  }

  /** A wait cycle that was there when one of the reports was begun, and whose members are all active now, does not get
      away: whenever the search returns, an edge between two of its members closes a reported cycle. */
  lemma StandingDeadlockIsReported(m: Graph, reports: seq<P.Pairs>, k: nat, s: Node, g: Graph, start: Node, mid: Node,
                                   only: Option<set<TransactionId>>, keys: seq<int>, steps: seq<Step>,
                                   c: seq<TransactionId>, order: seq<int>)
    requires P.IsSum(m, reports) && k < |reports| && OwnReport(reports[k], s, g, start, mid, only, keys, steps)
    requires Inv(start) && WaitCycle(start, c) && forall t :: t in c ==> Allowed(only, t) && t in s.txns
    requires IterationOrder(P.Prune(m, s.txns.Keys), order)
    ensures 0 !in Vertices(P.Prune(m, s.txns.Keys))
    ensures var outcome := D.FindCycles(P.Prune(m, s.txns.Keys), order);
      outcome.Returns? ==> exists x, y :: x in c && y in c && T.ClosedBy(outcome.search.cycles, x, y)
  {
    var p := P.Prune(m, s.txns.Keys);
    WaitCyclesReachTheSearch(m, reports, k, s, g, start, mid, only, keys, steps, c);
    RunEvolves(mid, steps);
    R.PrunedVertices(s, m);
    hide D.FindCycles, P.Prune, Vertices, ClosedWalk, T.ClosedBy;
    if D.FindCycles(p, order).Returns? {
      var i := T.EveryCycleIsCut(p, order, c);
      var x, y := c[i], Next(c, i);
      assert x in c && y in c;
    }
  }
}
