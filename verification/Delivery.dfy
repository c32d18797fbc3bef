/** What the messages of a check say, and what their delivery does (DistributedDBNode.cpp): a check signals the home of
    one victim for every cycle it found, and once its signals are delivered the round of detection is complete. */
module Delivery {
  import opened Commons
  import opened Graphs
  import opened DistributedDBNode
  import M = NodeModel
  import W = WaitForGraph
  import D = DetectorModel
  import T = DetectorTheorems
  import R = Resolution
  import P = Reports

  /** The transactions that the signals among the messages tell `node` to abort, oldest first. */
  function Delivered(node: NodeId, messages: seq<Message>): seq<TransactionId> {
    if messages == [] then []
    else
      var last := messages[|messages| - 1];
      Delivered(node, messages[..|messages| - 1])
        + if last.AbortSignal? && last.to == node then [last.victim] else []
  }

  /** The message tells the home of one member of the cycle to abort it: the member that lies on the most cycles, and
      of several such members the one with the least id. */
  ghost predicate SignalFor(s: M.Node, cycles: P.Cycles, i: nat, m: Message)
    requires i < |cycles|
  {
    && m.AbortSignal? && m.victim in cycles[i] && m.victim in s.txns && m.to == s.txns[m.victim].homeNodeId
    && forall t :: t in cycles[i] ==>
         && T.Containing(cycles, t) <= T.Containing(cycles, m.victim)
         && (T.Containing(cycles, t) == T.Containing(cycles, m.victim) ==> m.victim <= t)
  }

  /** One signal for each cycle, in order, before any other message. */
  ghost predicate Signalled(s: M.Node, cycles: P.Cycles, messages: seq<Message>) {
    && |cycles| <= |messages|
    && (forall i :: 0 <= i < |cycles| ==> SignalFor(s, cycles, i, messages[i]))
    && (forall i :: |cycles| <= i < |messages| ==> !messages[i].AbortSignal?)
  }

  /** Two active transactions wait for each other in the graph. */
  ghost predicate HasActiveEdge(g: Graph, active: set<TransactionId>) {
    exists w, h :: w in active && h in active && Edge(g, w, h)
  }

  lemma PruneIsEmpty(g: Graph, active: set<TransactionId>)
    ensures P.Prune(g, active) != map[] <==> HasActiveEdge(g, active)
  {
    var p := P.Prune(g, active);
    forall w | w in p ensures HasActiveEdge(g, active) {
      P.PruneIsInduced(g, active, w, p[w][0]);
      assert Edge(p, w, p[w][0]);
    }
    forall w, h | w in active && h in active && Edge(g, w, h) ensures w in p { P.PruneIsInduced(g, active, w, h); }
  }

  lemma {:induction false} SignalsAt(home: NodeId, victims: seq<TransactionId>)
    ensures |AbortSignals(home, victims)| == |victims|
    ensures forall i :: 0 <= i < |victims| ==> AbortSignals(home, victims)[i] == AbortSignal(home, victims[i])
  {
    if victims != [] { SignalsAt(home, victims[..|victims| - 1]); }
  }

  lemma {:induction false} SignalsDeliver(home: NodeId, victims: seq<TransactionId>, rest: seq<Message>)
    requires forall i :: 0 <= i < |rest| ==> !rest[i].AbortSignal?
    ensures Delivered(home, AbortSignals(home, victims) + rest) == victims
    decreases |victims| + |rest|
  {
    var all := AbortSignals(home, victims) + rest;
    if rest != [] {
      SignalsDeliver(home, victims, rest[..|rest| - 1]);
      assert all[..|all| - 1] == AbortSignals(home, victims) + rest[..|rest| - 1];
    } else if victims != [] {
      var n := |victims| - 1;
      SignalsDeliver(home, victims[..n], []);
      assert all[..|all| - 1] == AbortSignals(home, victims[..n]) + [];
    }
  }

  lemma ChosenIsActive(s: M.Node, g: Graph, order: seq<int>, i: nat)
    requires M.Inv(s)
    requires var p := P.Prune(g, s.txns.Keys);
      0 !in Vertices(p) && IterationOrder(p, order) && D.FindCycles(p, order).Returns?
    requires i < |R.Chosen(P.Prune(g, s.txns.Keys), order)|
    ensures var t := R.Chosen(P.Prune(g, s.txns.Keys), order)[i];
      t in s.txns && s.txns[t].homeNodeId == s.locks.nodeId
  {
    var p := P.Prune(g, s.txns.Keys);
    R.PrunedVertices(s, g);
    R.ReportedCyclesHaveVictims(p, order);
    var t := R.Chosen(p, order)[i];
    hide P.Prune, D.FindCycles, Vertices, R.AllRanked, ClosedWalk;
    MembersAreVertices(p, D.FindCycles(p, order).search.cycles[i], t);
    assert M.TxnValid(s, s.txns[t]);
  }

  lemma ChosenIsSignalled(s: M.Node, g: Graph, order: seq<int>, i: nat)
    requires M.Inv(s)
    requires var p := P.Prune(g, s.txns.Keys);
      0 !in Vertices(p) && IterationOrder(p, order) && D.FindCycles(p, order).Returns?
    requires i < |R.Chosen(P.Prune(g, s.txns.Keys), order)|
    ensures var p := P.Prune(g, s.txns.Keys);
      SignalFor(s, D.FindCycles(p, order).search.cycles, i, AbortSignal(s.locks.nodeId, R.Chosen(p, order)[i]))
  {
    hide P.Prune, D.FindCycles, Vertices, M.Inv;
    R.VictimsAreMostInvolved(P.Prune(g, s.txns.Keys), order, i);
    ChosenIsActive(s, g, order, i);
  }

  lemma SignalsInOrder(s: M.Node, victims: seq<TransactionId>, cycles: P.Cycles, rest: seq<Message>)
    requires |victims| == |cycles|
    requires forall i :: 0 <= i < |cycles| ==> SignalFor(s, cycles, i, AbortSignal(s.locks.nodeId, victims[i]))
    requires forall i :: 0 <= i < |rest| ==> !rest[i].AbortSignal?
    ensures Signalled(s, cycles, AbortSignals(s.locks.nodeId, victims) + rest)
    ensures Delivered(s.locks.nodeId, AbortSignals(s.locks.nodeId, victims) + rest) == victims
  {
    hide SignalFor, AbortSignals, Delivered;
    SignalsAt(s.locks.nodeId, victims);
    SignalsDeliver(s.locks.nodeId, victims, rest);
  }

  /** The signals that a search of a pruned graph leads to. */
  lemma SearchSignals(s: M.Node, g: Graph, order: seq<int>, rest: seq<Message>)
    requires M.Inv(s)
    requires var p := P.Prune(g, s.txns.Keys);
      0 !in Vertices(p) && IterationOrder(p, order) && D.FindCycles(p, order).Returns?
    requires forall i :: 0 <= i < |rest| ==> !rest[i].AbortSignal?
    ensures var p := P.Prune(g, s.txns.Keys);
      var all := AbortSignals(s.locks.nodeId, R.Chosen(p, order)) + rest;
      && |AbortSignals(s.locks.nodeId, R.Chosen(p, order))| == |D.FindCycles(p, order).search.cycles|
      && Signalled(s, D.FindCycles(p, order).search.cycles, all)
      && Delivered(s.locks.nodeId, all) == R.Chosen(p, order)
  {
    hide P.Prune, D.FindCycles, Vertices, IterationOrder, AbortSignals, Delivered, M.Inv, SignalFor, Signalled;
    var p := P.Prune(g, s.txns.Keys);
    var victims, cycles := R.Chosen(p, order), D.FindCycles(p, order).search.cycles;
    forall i | 0 <= i < |cycles| ensures SignalFor(s, cycles, i, AbortSignal(s.locks.nodeId, victims[i])) {
      ChosenIsSignalled(s, g, order, i);
    }
    SignalsInOrder(s, victims, cycles, rest);
    assert |victims| == |cycles|;
    SignalsAt(s.locks.nodeId, victims);
  }

  // ---------- a check of either kind ----------

  /** What a check that returned adds to the messages: the signals, then `rest`. */
  ghost predicate Sends(s: M.Node, graph: Graph, cycles: P.Cycles, order: seq<int>, rest: seq<Message>,
                        added: seq<Message>) {
    var p := P.Prune(graph, s.txns.Keys);
    if p == map[] then cycles == [] && added == rest
    else Searched(p, order, true, cycles) && added == AbortSignals(s.locks.nodeId, R.Chosen(p, order)) + rest
  }

  lemma SignalsComeFirst(s: M.Node, graph: Graph, cycles: P.Cycles, order: seq<int>, rest: seq<Message>,
                         added: seq<Message>)
    requires M.Inv(s) && Sends(s, graph, cycles, order, rest, added)
    requires forall i :: 0 <= i < |rest| ==> !rest[i].AbortSignal?
    ensures Signalled(s, cycles, added) && added[|cycles|..] == rest
  {
    hide M.Inv, P.Prune, D.FindCycles, Vertices, IterationOrder, AbortSignals, SignalFor;
    if P.Prune(graph, s.txns.Keys) != map[] { SearchSignals(s, graph, order, rest); }
  }

  lemma NothingToSearch()
    ensures D.FindCycles(map[], []).Returns? && D.FindCycles(map[], []).search.cycles == []
  {
    T.SingleSuccessorsReturn(map[], []);
    T.DetectorDecidesCyclicity(map[], []);
  }

  lemma {:induction false} NothingDelivered(node: NodeId, rest: seq<Message>)
    requires forall i :: 0 <= i < |rest| ==> !rest[i].AbortSignal?
    ensures Delivered(node, rest) == []
  {
    SignalsDeliver(node, [], rest);
    assert AbortSignals(node, []) + rest == rest;
  }

  /** With the signals delivered, the check of the node's own graph is a round of detection. */
  lemma SignalsMakeARound(s: M.Node, graph: Graph, cycles: P.Cycles, order: seq<int>, rest: seq<Message>,
                          added: seq<Message>)
    returns (round: seq<int>)
    requires M.Inv(s) && W.IsWaitGraph(graph, s, None) && Sends(s, graph, cycles, order, rest, added)
    requires forall i :: 0 <= i < |rest| ==> !rest[i].AbortSignal?
    ensures R.ResolvedWith(s, R.AbortAll(s, Delivered(s.locks.nodeId, added)), graph, round)
    ensures cycles == D.FindCycles(graph, round).search.cycles
  {
    hide M.Inv, P.Prune, D.FindCycles, AbortSignals, W.IsWaitGraph, Signalled, R.Resolved, Delivered;
    if P.Prune(graph, s.txns.Keys) == map[] {
      round := [];
      NothingToSearch();
      NothingDelivered(s.locks.nodeId, rest);
    } else {
      round := order;
      SearchSignals(s, graph, order, rest);
    }
    R.LocalCheckIsARound(s, graph, round);
  }

  /** Somebody is gone who waits for the members of the cycle and for whom they wait, directly or not. */
  ghost predicate LosesSomebody(g: Graph, s: M.Node, s': M.Node, c: seq<TransactionId>)
    requires c != []
  {
    exists t :: t in s.txns && t !in s'.txns && T.Mutual(g, c[0], t)
  }

  /** Every cycle that the check found was a wait cycle and is gone, and every wait cycle has lost somebody. */
  ghost predicate RoundComplete(s: M.Node, s': M.Node, g: Graph, cycles: P.Cycles) {
    && R.Resolved(s, s')
    && (forall i :: 0 <= i < |cycles| ==> W.WaitCycle(s, cycles[i]) && !W.WaitCycle(s', cycles[i]))
    && (forall c :: W.WaitCycle(s, c) ==> LosesSomebody(g, s, s', c))
  }

  lemma SignalsCompleteTheRound(s: M.Node, graph: Graph, cycles: P.Cycles, order: seq<int>, rest: seq<Message>,
                                added: seq<Message>)
    requires M.Inv(s) && W.IsWaitGraph(graph, s, None) && Sends(s, graph, cycles, order, rest, added)
    requires forall i :: 0 <= i < |rest| ==> !rest[i].AbortSignal?
    ensures RoundComplete(s, R.AbortAll(s, Delivered(s.locks.nodeId, added)), graph, cycles)
  {
    hide M.Inv, D.FindCycles, R.ResolvedWith, W.IsWaitGraph, R.AbortAll, Delivered, W.WaitsFor, Sends;
    var round := SignalsMakeARound(s, graph, cycles, order, rest, added);
    var s' := R.AbortAll(s, Delivered(s.locks.nodeId, added));
    R.RoundDestroysReportedCycles(s, s', graph, round);
    forall c | W.WaitCycle(s, c) ensures LosesSomebody(graph, s, s', c) {
      var t := R.EveryWaitCycleLosesSomebody(s, s', graph, round, c);
    }
  }

  lemma Added(before: seq<Message>, signals: seq<Message>, rest: seq<Message>)
    ensures var after := before + signals + rest;
      before <= after && after[|before|..] == signals + rest && |after| == |before| + |signals| + |rest|
  {
  }

  // ---------- the two checks ----------

  lemma CheckSends(s: M.Node, graph: Graph, before: seq<Message>, after: seq<Message>, cycles: P.Cycles,
                   order: seq<int>) returns (rest: seq<Message>)
    requires M.Inv(s) && Checked(s, graph, before, after, true, cycles, order)
    ensures before <= after && Sends(s, graph, cycles, order, rest, after[|before|..])
    ensures rest == if s.locks.nodeId == CENTRALIZED_NODE_ID && HasActiveEdge(graph, s.txns.Keys)
                    then [ClientReport(cycles, |cycles|)] else []
  {
    hide M.Inv, P.Prune, D.FindCycles, Vertices, IterationOrder, AbortSignals, HasActiveEdge;
    PruneIsEmpty(graph, s.txns.Keys);
    rest := [];
    if HasActiveEdge(graph, s.txns.Keys) {
      rest := ToClient(s.locks.nodeId, cycles);
      Added(before, AbortSignals(s.locks.nodeId, R.Chosen(P.Prune(graph, s.txns.Keys), order)), rest);
    } else {
      assert after[|before|..] == [];
    }
  }

  /** The messages of a check that returned: a signal for each cycle, and on the central node one report to the client
      unless nothing was searched. */
  lemma CheckSignalsEveryCycle(s: M.Node, graph: Graph, before: seq<Message>, after: seq<Message>, cycles: P.Cycles,
                               order: seq<int>)
    requires M.Inv(s) && Checked(s, graph, before, after, true, cycles, order)
    ensures before <= after && Signalled(s, cycles, after[|before|..])
    ensures after[|before|..][|cycles|..] ==
      if s.locks.nodeId == CENTRALIZED_NODE_ID && HasActiveEdge(graph, s.txns.Keys)
      then [ClientReport(cycles, |cycles|)] else []
  {
    hide M.Inv, Sends, Checked, SignalFor, HasActiveEdge;
    var rest := CheckSends(s, graph, before, after, cycles, order);
    SignalsComeFirst(s, graph, cycles, order, rest, after[|before|..]);
  }

  /** Delivery completes the round: when a check of the node's own graph returns, the victims of the signals addressed
      to this node are aborted in the order of sending. */
  lemma DeliveryCompletesTheRound(s: M.Node, graph: Graph, before: seq<Message>, after: seq<Message>,
                                  cycles: P.Cycles, order: seq<int>)
    requires M.Inv(s) && Checked(s, graph, before, after, true, cycles, order) && W.IsWaitGraph(graph, s, None)
    ensures before <= after
    ensures RoundComplete(s, R.AbortAll(s, Delivered(s.locks.nodeId, after[|before|..])), graph, cycles)
  {
    hide M.Inv, Sends, Checked, HasActiveEdge, RoundComplete, R.AbortAll, Delivered, W.IsWaitGraph;
    var rest := CheckSends(s, graph, before, after, cycles, order);
    SignalsCompleteTheRound(s, graph, cycles, order, rest, after[|before|..]);
  }

  /** The report carries the cycles, the subgraph of the active transactions with all its multiplicities, and how many
      cycles there are; nothing sets that number when nothing was searched. */
  ghost predicate Describes(report: P.ZoneReport, graph: Graph, active: set<TransactionId>, cycles: P.Cycles,
                            unset: int) {
    && report.cycles == cycles
    && report.count == (if HasActiveEdge(graph, active) then |cycles| else unset)
    && forall w, h :: P.Mult(P.Merge(map[], report.pairs), w, h)
                      == if w in active && h in active then P.Mult(graph, w, h) else 0
  }

  /** The message of a zone's check to the central node: in the hierarchical mode, unless the zone is the central
      node's own. */
  ghost predicate Reported(s: M.Node, mode: Mode, zoneLeader: NodeId, graph: Graph, unset: int, cycles: P.Cycles,
                           rest: seq<Message>) {
    if mode == Hawk && zoneLeader != CENTRALIZED_NODE_ID then
      && |rest| == 1 && rest[0].CentralReport? && rest[0].to == CENTRALIZED_NODE_ID
      && Describes(rest[0].report, graph, s.txns.Keys, cycles, unset)
    else rest == []
  }

  lemma PrunedReport(graph: Graph, active: set<TransactionId>, keys: seq<int>, w: int, h: int)
    requires IterationOrder(P.Prune(graph, active), keys)
    ensures P.Mult(P.Merge(map[], P.MessageFormat(P.Prune(graph, active), keys)), w, h)
      == if w in active && h in active then P.Mult(graph, w, h) else 0
  {
    hide P.Merge, P.MessageFormat, P.Prune, P.Mult;
    P.EncodingKeepsEdges(P.Prune(graph, active), keys, w, h);
    P.PruneIsInduced(graph, active, w, h);
  }

  lemma ReportDescribes(graph: Graph, active: set<TransactionId>, cycles: P.Cycles, keys: seq<int>, unset: int)
    ensures !HasActiveEdge(graph, active) ==> Describes(P.ZoneReport([], [], unset), graph, active, [], unset)
    ensures HasActiveEdge(graph, active) && IterationOrder(P.Prune(graph, active), keys) ==>
      Describes(P.ZoneReport(P.MessageFormat(P.Prune(graph, active), keys), cycles, |cycles|), graph, active, cycles,
                unset)
  {
    hide P.Prune;
    PruneIsEmpty(graph, active);
    if HasActiveEdge(graph, active) {
      if IterationOrder(P.Prune(graph, active), keys) {
        hide P.Merge, P.MessageFormat, P.Mult, HasActiveEdge;
        forall w, h { PrunedReport(graph, active, keys, w, h); }
      }
    } else {
      forall w, h { PrunedReport(graph, active, [], w, h); }
    }
  }

  lemma ZoneCheckSends(s: M.Node, mode: Mode, zoneLeader: NodeId, graph: Graph, unset: int, before: seq<Message>,
                       after: seq<Message>, cycles: P.Cycles, order: seq<int>, keys: seq<int>)
    returns (rest: seq<Message>)
    requires M.Inv(s) && ZoneChecked(s, mode, zoneLeader, graph, unset, before, after, true, cycles, order, keys)
    ensures before <= after && Sends(s, graph, cycles, order, rest, after[|before|..])
    ensures Reported(s, mode, zoneLeader, graph, unset, cycles, rest)
    ensures forall i :: 0 <= i < |rest| ==> !rest[i].AbortSignal?
  {
    hide M.Inv, P.Prune, D.FindCycles, Vertices, AbortSignals, HasActiveEdge, Describes;
    var p := P.Prune(graph, s.txns.Keys);
    PruneIsEmpty(graph, s.txns.Keys);
    ReportDescribes(graph, s.txns.Keys, cycles, keys, unset);
    if HasActiveEdge(graph, s.txns.Keys) {
      rest := ToCentral(mode, zoneLeader, P.ZoneReport(P.MessageFormat(p, keys), cycles, |cycles|));
      Added(before, AbortSignals(s.locks.nodeId, R.Chosen(p, order)), rest);
    } else {
      rest := ToCentral(mode, zoneLeader, P.ZoneReport([], [], unset));
      assert after[|before|..] == rest;
    }
  }

  /** The messages of a zone's check that returned: a signal for each cycle, and at most one report. */
  lemma ZoneCheckSignalsEveryCycle(s: M.Node, mode: Mode, zoneLeader: NodeId, graph: Graph, unset: int,
                                   before: seq<Message>, after: seq<Message>, cycles: P.Cycles, order: seq<int>,
                                   keys: seq<int>)
    requires M.Inv(s) && ZoneChecked(s, mode, zoneLeader, graph, unset, before, after, true, cycles, order, keys)
    ensures before <= after && Signalled(s, cycles, after[|before|..])
    ensures Reported(s, mode, zoneLeader, graph, unset, cycles, after[|before|..][|cycles|..])
  {
    hide M.Inv, Sends, ZoneChecked, SignalFor, Reported;
    var rest := ZoneCheckSends(s, mode, zoneLeader, graph, unset, before, after, cycles, order, keys);
    SignalsComeFirst(s, graph, cycles, order, rest, after[|before|..]);
  }

  lemma ZoneDeliveryCompletesTheRound(s: M.Node, mode: Mode, zoneLeader: NodeId, graph: Graph, unset: int,
                                      before: seq<Message>, after: seq<Message>, cycles: P.Cycles, order: seq<int>,
                                      keys: seq<int>)
    requires M.Inv(s) && ZoneChecked(s, mode, zoneLeader, graph, unset, before, after, true, cycles, order, keys)
    requires W.IsWaitGraph(graph, s, None)
    ensures before <= after
    ensures RoundComplete(s, R.AbortAll(s, Delivered(s.locks.nodeId, after[|before|..])), graph, cycles)
  {
    hide M.Inv, Sends, ZoneChecked, Reported, RoundComplete, R.AbortAll, Delivered, W.IsWaitGraph;
    var rest := ZoneCheckSends(s, mode, zoneLeader, graph, unset, before, after, cycles, order, keys);
    SignalsCompleteTheRound(s, graph, cycles, order, rest, after[|before|..]);
  }
}
