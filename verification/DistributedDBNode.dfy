/** The handlers of one node that detect and resolve deadlocks, in the form the program gives them
    (DistributedDBNode.cpp).  Messages handed to the network are collected in `sent`. */
module DistributedDBNode {
  import opened Commons
  import opened Graphs
  import opened HashIteration
  import LM = LockModel
  import M = NodeModel
  import W = WaitForGraph
  import D = DetectorModel
  import R = Resolution
  import P = Reports
  import Probes
  import opened DeadlockDetector
  import opened ResourceManager
  import opened TransactionManager
  import opened DetectionZoneManager
  import opened LockTable
  import PAGManager
  import Z = Zones

  datatype Mode = NoDetection | Centralized | Hawk | PathPushing

  datatype Message =
    | AbortSignal(to: NodeId, victim: TransactionId)
    | ClientReport(cycles: P.Cycles, count: int)
    | CentralReport(to: NodeId, report: P.ZoneReport)
    | ZoneWFGReport(to: NodeId, pairs: P.Pairs)
    | Probe(to: NodeId, path: seq<TransactionId>)
    | PAGResponse(to: NodeId, edges: seq<WFDEdge>)
    | TreeAdjustment(zones: seq<seq<NodeId>>, leaders: seq<NodeId>)

  function AbortSignals(home: NodeId, victims: seq<TransactionId>): seq<Message> {
    if victims == [] then []
    else AbortSignals(home, victims[..|victims| - 1]) + [AbortSignal(home, victims[|victims| - 1])]
  }

  /** The search of `g` in the given order either does not return or finds these cycles. */
  ghost predicate Searched(g: Graph, order: seq<int>, returned: bool, cycles: P.Cycles) {
    && 0 !in Vertices(g) && IterationOrder(g, order) && returned == D.FindCycles(g, order).Returns?
    && (returned ==> cycles == D.FindCycles(g, order).search.cycles)
  }

  function ToClient(node: NodeId, cycles: P.Cycles): seq<Message> {
    if node == CENTRALIZED_NODE_ID then [ClientReport(cycles, |cycles|)] else []
  }

  /** What a check of `graph` in state `s` does: nothing when no edge between active transactions is left; otherwise it
      searches the pruned graph, and if the search returns it signals the abort of every chosen victim and, on the
      central node, tells the client. */
  ghost predicate Checked(s: M.Node, graph: Graph, before: seq<Message>, after: seq<Message>, returned: bool,
                          cycles: P.Cycles, order: seq<int>) {
    var p := P.Prune(graph, s.txns.Keys);
    if p == map[] then returned && cycles == [] && after == before
    else
      && Searched(p, order, returned, cycles)
      && (returned ==>
            after == before + AbortSignals(s.locks.nodeId, R.Chosen(p, order)) + ToClient(s.locks.nodeId, cycles))
  }

  /** Only the zones other than the central node's own report to it, and only in the hierarchical mode. */
  predicate ReportsToCentral(mode: Mode, zoneLeader: NodeId) { mode == Hawk && zoneLeader != CENTRALIZED_NODE_ID }

  function ToCentral(mode: Mode, zoneLeader: NodeId, report: P.ZoneReport): seq<Message> {
    if ReportsToCentral(mode, zoneLeader) then [CentralReport(CENTRALIZED_NODE_ID, report)] else []
  }

  /** What the check of a zone does: as above, but it reports to the central node instead of the client.  `unset` is
      the count field of a message to which the program assigns none; `keys` is the order in which the pruned
      graph is encoded. */
  ghost predicate ZoneChecked(s: M.Node, mode: Mode, zoneLeader: NodeId, graph: Graph, unset: int,
                              before: seq<Message>, after: seq<Message>, returned: bool, cycles: P.Cycles,
                              order: seq<int>, keys: seq<int>) {
    var p := P.Prune(graph, s.txns.Keys);
    if p == map[] then
      returned && cycles == [] && after == before + ToCentral(mode, zoneLeader, P.ZoneReport([], [], unset))
    else
      && Searched(p, order, returned, cycles)
      && (returned ==>
            && IterationOrder(p, keys)
            && after == before + AbortSignals(s.locks.nodeId, R.Chosen(p, order))
                 + ToCentral(mode, zoneLeader, P.ZoneReport(P.MessageFormat(p, keys), cycles, |cycles|)))
  }

  /** Copies the successors of one vertex that are active. */
  method PruneSuccessors(p: Graph, w: int, targets: seq<int>, active: set<int>) returns (pruned: Graph)
    requires w !in p
    ensures pruned == P.AddAll(p, w, P.Keep(targets, active))
  {
    pruned := p;
    for i := 0 to |targets|
      invariant pruned == P.AddAll(p, w, P.Keep(targets[..i], active))
    {
      P.KeepOne(targets[..i], targets[i], active);
      assert targets[..i + 1] == targets[..i] + [targets[i]];
      if targets[i] in active {
        P.AddOne(p, w, P.Keep(targets[..i], active), targets[i]);
        pruned := pruned[w := P.Successors(pruned, w) + [targets[i]]];
      }
    }
    assert targets[..|targets|] == targets;
  }

  ghost predicate PrunedSoFar(p: Graph, g: Graph, active: set<int>, keys: seq<int>) {
    && (forall w :: w in p <==> w in keys && w in P.Prune(g, active))
    && (forall w :: w in p && w in P.Prune(g, active) ==> p[w] == P.Prune(g, active)[w])
  }

  method PruneGraph(g: Graph, active: set<int>) returns (pruned: Graph)
    ensures pruned == P.Prune(g, active)
  {
    var keys := KeyOrder(g);
    pruned := map[];
    for k := 0 to |keys|
      invariant PrunedSoFar(pruned, g, active, keys[..k])
    {
      var w := keys[k];
      assert w in keys && keys[..k + 1] == keys[..k] + [w];
      if w in active {
        pruned := PruneSuccessors(pruned, w, g[w], active);
      }
    }
    assert keys[..|keys|] == keys;
    forall w ensures w in pruned <==> w in P.Prune(g, active) { assert w in P.Prune(g, active) ==> w in keys; }
    forall w ensures w in pruned && w in P.Prune(g, active) ==> pruned[w] == P.Prune(g, active)[w] {}
    SameEntries(pruned, P.Prune(g, active));
  }

  method MergeWFG(target: Graph, pairs: P.Pairs) returns (merged: Graph)
    ensures merged == P.Merge(target, pairs)
  {
    merged := target;
    for k := 0 to |pairs|
      invariant merged == P.Merge(target, pairs[..k])
    {
      assert pairs[..k + 1][..k] == pairs[..k];
      var (w, targets) := pairs[k];
      ghost var before := merged;
      for i := 0 to |targets|
        invariant merged == P.AddAll(before, w, targets[..i])
      {
        assert targets[..i + 1] == targets[..i] + [targets[i]];
        P.AddOne(before, w, targets[..i], targets[i]);
        merged := merged[w := P.Successors(merged, w) + [targets[i]]];
      }
      assert targets[..|targets|] == targets;
    }
    assert pairs[..|pairs|] == pairs;
  }

  method ConvertWFGToMessageFormat(g: Graph) returns (pairs: P.Pairs, ghost order: seq<int>)
    ensures IterationOrder(g, order) && pairs == P.MessageFormat(g, order)
    ensures (forall x :: x in g ==> (x, g[x]) in pairs) && (forall p :: p in pairs ==> p.0 in g && p.1 == g[p.0])
  {
    var keys := KeyOrder(g);
    order := keys;
    pairs := [];
    for k := 0 to |keys|
      invariant forall x :: x in keys[..k] ==> x in g
      invariant pairs == P.MessageFormat(g, keys[..k])
    {
      var w := keys[k];
      assert w in keys && keys[..k + 1] == keys[..k] + [w];
      pairs := pairs + [(w, g[w])];
    }
    assert keys[..|keys|] == keys;
    P.MessageEntries(g, keys);
  }

  class DistributedDBNode {
    const nodeId: NodeId
    const numNodes: int
    const mode: Mode
    const resourceManager: ResourceManager
    const transactionManager: TransactionManager
    const lockTable: LockTable
    const detectionZoneManager: DetectionZoneManager

    var aggregatedWfg: Graph
    var wfgReportsReceived: nat
    var wfgReportsExpected: int
    /** The graphs on which detection was run. */
    ghost var detected: seq<Graph>
    var central: P.Central
    var aggregatedPagEdges: seq<WFDEdge>
    var pagResponsesReceived: nat
    var pagResponsesExpected: int
    var sent: seq<Message>

    constructor (id: NodeId, numNodes: int, mode: Mode)
      requires id >= 1
      ensures Valid() && nodeId == id && this.numNodes == numNodes && this.mode == mode
      ensures transactionManager.Model() == M.Fresh(id)
      ensures Aggregate() == P.Aggregate(map[], 0, []) && wfgReportsExpected == 0 && central == P.NOTHING && sent == []
      ensures aggregatedPagEdges == [] && pagResponsesReceived == 0 && pagResponsesExpected == 0
    {
      this.nodeId, this.numNodes, this.mode := id, numNodes, mode;
      var resources := new ResourceManager(id);
      var transactions := new TransactionManager(id, resources);
      resourceManager, transactionManager := resources, transactions;
      lockTable := new LockTable(resources, transactions);
      detectionZoneManager := new DetectionZoneManager(id);
      aggregatedWfg, wfgReportsReceived, wfgReportsExpected, detected := map[], 0, 0, [];
      aggregatedPagEdges, pagResponsesReceived, pagResponsesExpected := [], 0, 0;
      central, sent := P.NOTHING, [];
      new;
      M.FreshInv(id);
    }

    ghost predicate Valid()
      reads transactionManager, transactionManager.resourceManager, transactionManager.activeTransactions.Values
    {
      && transactionManager.nodeId == nodeId && resourceManager == transactionManager.resourceManager
      && lockTable.transactionManager == transactionManager && lockTable.resourceManager == resourceManager
      && transactionManager.Separate() && M.Inv(transactionManager.Model())
    }

    predicate IsCentralizedNode() { nodeId == CENTRALIZED_NODE_ID }

    ghost function Aggregate(): P.Aggregate
      reads this`aggregatedWfg, this`wfgReportsReceived, this`detected
    {
      P.Aggregate(aggregatedWfg, wfgReportsReceived, detected)
    }

    ghost function Active(): set<TransactionId>
      reads transactionManager, transactionManager.resourceManager, transactionManager.activeTransactions.Values
    {
      transactionManager.Model().txns.Keys
    }

    // ---------- detecting and resolving ----------

    /** The victim's home is looked up before the message is sent; for an active transaction it is this node. */
    method SignalAborts(cycles: P.Cycles, frequency: map<TransactionId, int>)
      requires Valid() && R.AllRanked(cycles, frequency)
      requires forall i :: 0 <= i < |cycles| ==> forall t :: t in cycles[i] ==> t in Active()
      modifies this`sent
      ensures sent == old(sent) + AbortSignals(nodeId, R.Victims(cycles, frequency))
    {
      hide M.Inv, R.FirstOf, R.Before, LM.Valid;
      ghost var victims := R.Victims(cycles, frequency);
      for i := 0 to |cycles|
        invariant sent == old(sent) + AbortSignals(nodeId, victims[..i])
      {
        var victim := R.SelectVictim(cycles[i], frequency);
        R.VictimIsMember(cycles[i], frequency);
        HomeIsHere(victim.value);
        var home := transactionManager.GetTransactionHomeNode(victim.value);
        if home != 0 {
          sent := sent + [AbortSignal(home, victim.value)];
        }
        assert victims[..i + 1][..i] == victims[..i];
      }
      assert victims[..|victims|] == victims;
    }

    lemma HomeIsHere(t: TransactionId)
      requires Valid() && t in Active()
      ensures transactionManager.Model().txns[t].homeNodeId == nodeId && nodeId >= 1
    {
      assert M.TxnValid(transactionManager.Model(), transactionManager.Model().txns[t]);
    }

    /** Searches a pruned graph and signals an abort for one victim of every cycle found. */
    method FindAndSignal(p: Graph, ghost g: Graph) returns (returned: bool, cycles: P.Cycles, ghost order: seq<int>)
      requires Valid() && p == P.Prune(g, Active())
      modifies this`sent
      ensures Searched(p, order, returned, cycles)
      ensures returned ==> sent == old(sent) + AbortSignals(nodeId, R.Chosen(p, order))
    {
      R.PrunedVertices(transactionManager.Model(), g);
      var search := new CycleSearch();
      returned, order := search.FindCycles(p);
      cycles := search.cycles;
      if returned {
        R.ReportedCyclesHaveVictims(p, order);
        forall i, t | 0 <= i < |cycles| && t in cycles[i] ensures t in Active() {
          MembersAreVertices(p, cycles[i], t);
        }
        SignalAborts(cycles, search.frequency);
      }
    }

    method CheckAndResolveDeadlocks(graph: Graph) returns (returned: bool, cycles: P.Cycles, ghost order: seq<int>)
      requires Valid()
      modifies this`sent
      ensures Checked(transactionManager.Model(), graph, old(sent), sent, returned, cycles, order)
    {
      hide M.Inv, P.Prune, D.FindCycles, R.Chosen, AbortSignals, Vertices;
      returned, cycles, order := true, [], [];
      var active := transactionManager.GetActiveTransactions();
      var pruned := PruneGraph(graph, active);
      if pruned != map[] {
        returned, cycles, order := FindAndSignal(pruned, graph);
        if returned && IsCentralizedNode() {
          sent := sent + [ClientReport(cycles, |cycles|)];
        }
      }
    }

    method CheckAndResolveDeadlocksForZone(zoneLeader: NodeId, graph: Graph, unset: int)
      returns (returned: bool, cycles: P.Cycles, ghost order: seq<int>, ghost keys: seq<int>)
      requires Valid()
      modifies this`sent
      ensures ZoneChecked(transactionManager.Model(), mode, zoneLeader, graph, unset, old(sent), sent, returned, cycles,
                          order, keys)
    {
      hide M.Inv, P.Prune, D.FindCycles, R.Chosen, AbortSignals, Vertices;
      returned, cycles, order, keys := true, [], [], [];
      var active := transactionManager.GetActiveTransactions();
      var pruned := PruneGraph(graph, active);
      if pruned == map[] {
        if ReportsToCentral(mode, zoneLeader) {
          sent := sent + [CentralReport(CENTRALIZED_NODE_ID, P.ZoneReport([], [], unset))];
        }
      } else {
        returned, cycles, order := FindAndSignal(pruned, graph);
        keys := order;
        if returned && ReportsToCentral(mode, zoneLeader) {
          var pairs;
          pairs, keys := ConvertWFGToMessageFormat(pruned);
          sent := sent + [CentralReport(CENTRALIZED_NODE_ID, P.ZoneReport(pairs, cycles, |cycles|))];
        }
      }
    }

    /** What a node does with an abort signal, and with a resolution message. */
    method HandleAbortTransactionSignal(victims: seq<TransactionId>)
      requires Valid()
      modifies transactionManager, resourceManager, transactionManager.activeTransactions.Values
      ensures Valid() && transactionManager.Model() == R.AbortAll(old(transactionManager.Model()), victims)
    {
      ghost var start := transactionManager.Model();
      for i := 0 to |victims|
        invariant Valid() && transactionManager.Model() == R.AbortAll(start, victims[..i])
        invariant transactionManager.activeTransactions.Values <= old(transactionManager.activeTransactions.Values)
      {
        M.FinishInv(transactionManager.Model(), victims[i], M.Aborting(victims[i]));
        transactionManager.AbortTransaction(victims[i]);
        assert victims[..i + 1][..i] == victims[..i];
      }
      assert victims[..|victims|] == victims;
    }

    // ---------- collecting reports ----------

    /** Counts a report; the graph is searched and dropped once the expected number has come in.  When the search
        does not return, neither does the handler. */
    method HandleWFGReport(wfgData: Graph)
      returns (returned: bool, ghost keys: seq<int>, ghost cycles: P.Cycles, ghost order: seq<int>)
      requires Valid()
      modifies this`aggregatedWfg, this`wfgReportsReceived, this`detected, this`sent
      ensures IterationOrder(wfgData, keys)
      ensures !IsCentralizedNode() ==> returned && Aggregate() == old(Aggregate()) && sent == old(sent)
      ensures IsCentralizedNode() && returned ==>
        Aggregate() == P.Receive(old(Aggregate()), P.MessageFormat(wfgData, keys), wfgReportsExpected)
      ensures IsCentralizedNode() ==>
        if old(wfgReportsReceived) + 1 >= wfgReportsExpected then
          Checked(transactionManager.Model(), P.Merge(old(aggregatedWfg), P.MessageFormat(wfgData, keys)), old(sent),
                  sent, returned, cycles, order)
        else returned && sent == old(sent)
    {
      hide M.Inv, P.Prune, D.FindCycles, R.Chosen, AbortSignals, Searched, P.Merge, P.MessageFormat, Checked;
      returned, cycles, order := true, [], [];
      var pairs;
      pairs, keys := ConvertWFGToMessageFormat(wfgData);
      if IsCentralizedNode() {
        aggregatedWfg := MergeWFG(aggregatedWfg, pairs);
        wfgReportsReceived := wfgReportsReceived + 1;
        if wfgReportsReceived >= wfgReportsExpected {
          detected := detected + [aggregatedWfg];
          returned, cycles, order := CheckAndResolveDeadlocks(aggregatedWfg);
          aggregatedWfg := map[];
          wfgReportsReceived := 0;
        }
      }
    }

    method HandleZoneWFGReport(pairs: P.Pairs, unset: int)
      returns (returned: bool, ghost cycles: P.Cycles, ghost order: seq<int>, ghost keys: seq<int>)
      requires Valid()
      modifies this`aggregatedWfg, this`wfgReportsReceived, this`detected, this`sent
      ensures var leads := detectionZoneManager.nodeId == detectionZoneManager.myZoneLeaderId;
        && (!leads ==> returned && Aggregate() == old(Aggregate()) && sent == old(sent))
        && (leads && returned ==> Aggregate() == P.Receive(old(Aggregate()), pairs, wfgReportsExpected))
        && (leads ==>
              if old(wfgReportsReceived) + 1 >= wfgReportsExpected then
                ZoneChecked(transactionManager.Model(), mode, nodeId, P.Merge(old(aggregatedWfg), pairs), unset,
                            old(sent), sent, returned, cycles, order, keys)
              else returned && sent == old(sent))
    {
      hide M.Inv, P.Prune, D.FindCycles, R.Chosen, AbortSignals, Searched, P.Merge, P.MessageFormat, ZoneChecked;
      returned, cycles, order, keys := true, [], [], [];
      var leads := detectionZoneManager.IsZoneLeader();
      if leads {
        aggregatedWfg := MergeWFG(aggregatedWfg, pairs);
        wfgReportsReceived := wfgReportsReceived + 1;
        if wfgReportsReceived >= wfgReportsExpected {
          detected := detected + [aggregatedWfg];
          returned, cycles, order, keys := CheckAndResolveDeadlocksForZone(nodeId, aggregatedWfg, unset);
          aggregatedWfg := map[];
          wfgReportsReceived := 0;
        }
      }
    }

    /** Answers a zone leader with the graph of this node; other threads follow `script` while it is collected. */
    method HandleZoneDetectionRequest(leader: NodeId, script: seq<seq<M.Step>>)
      returns (ghost lwfg: Graph, ghost keys: seq<int>)
      requires Valid()
      modifies this`sent, transactionManager, resourceManager, transactionManager.activeTransactions.Values
      ensures Valid()
      ensures W.Collected(lwfg, old(transactionManager.Model()), transactionManager.Model(), Some(old(Active())))
      ensures IterationOrder(lwfg, keys) && sent == old(sent) + [ZoneWFGReport(leader, P.MessageFormat(lwfg, keys))]
    {
      hide M.Inv, W.Collected, W.IsWaitGraph, P.MessageFormat;
      var active := transactionManager.GetActiveTransactions();
      var graph := lockTable.BuildAndPruneLocalWaitForGraph(active, script);
      var pairs;
      pairs, keys := ConvertWFGToMessageFormat(graph);
      lwfg := graph;
      sent := sent + [ZoneWFGReport(leader, pairs)];
    }

    /** `found` are the cycles of the merged graph; transaction ids start at 1, so a merged graph has no vertex 0. */
    method HandleCentralWFGReportFromZone(report: P.ZoneReport) returns (returned: bool, found: P.Cycles,
                                          ghost order: seq<int>)
      requires 0 !in Vertices(P.Absorb(central, report).wfg)
      modifies this`central, this`sent
      ensures !IsCentralizedNode() ==> returned && central == old(central) && sent == old(sent)
      ensures IsCentralizedNode() && P.Absorb(old(central), report).received >= numNodes ==>
        Searched(P.Absorb(old(central), report).wfg, order, returned, found)
      ensures IsCentralizedNode() && returned ==>
        var (after, told) := P.CentralReceive(old(central), report, found, numNodes);
        && central == after
        && sent == old(sent) + if told == [] then [] else [ClientReport(told[0].0, told[0].1)]
    {
      hide D.FindCycles, P.Merge, Vertices;
      returned, found, order := true, [], [];
      if !IsCentralizedNode() { return; }
      var merged := MergeWFG(central.wfg, report.pairs);
      central := central.(wfg := merged, received := central.received + 1,
                          fromZones := central.fromZones + report.count, cycles := central.cycles + report.cycles);
      if central.received >= numNodes {
        var search := new CycleSearch();
        returned, order := search.FindCycles(central.wfg);
        found := search.cycles;
        if !returned { return; }
        central := central.(fromCentral := central.fromCentral + |found|, count := central.count + |found|,
                            cycles := central.cycles + found);
        sent := sent + [ClientReport(central.cycles, central.count)];
        central := central.(wfg := map[], received := 0, count := 0, cycles := []);
      }
    }

    // ---------- adjusting the zones ----------

    /** Answers with the sampled waits between nodes, while other threads follow `script`.  There are never any:
        either a lookup throws and nothing is sent, or the answer is empty. */
    method HandlePAGRequest(requester: NodeId, script: seq<seq<M.Step>>) returns (thrown: bool)
      requires Valid()
      modifies this`sent, transactionManager, resourceManager, transactionManager.activeTransactions.Values
      ensures Valid() && sent == old(sent) + if thrown then [] else [PAGResponse(requester, [])]
      ensures script == [] ==> !thrown
    {
      hide M.Inv;
      var edges;
      thrown, edges := lockTable.CollectCrossNodeWFDEdges(script);
      if !thrown { sent := sent + [PAGResponse(requester, edges)]; }
    }

    /** Once every expected answer is in, the sampled waits become a graph, and the graph becomes zones if the clock and
        the ratio of deadlocks ask for it (`adjust`).  As the answers of nodes are empty, so are the zones. */
    method HandlePAGResponse(edges: seq<WFDEdge>, adjust: bool) returns (ghost pag: Graph, ghost keys: seq<NodeId>)
      modifies this`aggregatedPagEdges, this`pagResponsesReceived, this`sent
      ensures !IsCentralizedNode() ==> aggregatedPagEdges == old(aggregatedPagEdges) && sent == old(sent)
      ensures IsCentralizedNode() && old(pagResponsesReceived) + 1 < pagResponsesExpected ==>
        && aggregatedPagEdges == old(aggregatedPagEdges) + edges && sent == old(sent)
        && pagResponsesReceived == old(pagResponsesReceived) + 1
      ensures IsCentralizedNode() && old(pagResponsesReceived) + 1 >= pagResponsesExpected ==>
        && aggregatedPagEdges == [] && pagResponsesReceived == 0
        && PAGManager.IsPAG(pag, old(aggregatedPagEdges) + edges) && IterationOrder(pag, keys)
        && sent == old(sent) + (if adjust then [TreeAdjustment(Z.Singletons(keys), keys)] else [])
        && (old(aggregatedPagEdges) + edges == [] ==> Z.Singletons(keys) == [] && keys == [])
    {
      pag, keys := map[], [];
      if !IsCentralizedNode() { return; }
      aggregatedPagEdges := aggregatedPagEdges + edges;
      pagResponsesReceived := pagResponsesReceived + 1;
      if pagResponsesReceived >= pagResponsesExpected {
        var fullPag := PAGManager.GeneratePAG(aggregatedPagEdges);
        var zones, leaders, order := PAGManager.GreedySCCcut(fullPag, SCC_CUT_THRESHOLD);
        pag, keys := fullPag, order;
        if adjust { sent := sent + [TreeAdjustment(zones, leaders)]; }
        aggregatedPagEdges := [];
        pagResponsesReceived := 0;
      }
    }

    // ---------- path pushing ----------

    ghost function ToVictim(victim: TransactionId): seq<Message>
      reads transactionManager, transactionManager.resourceManager, transactionManager.activeTransactions.Values
    {
      var home := Probes.HomeOf(transactionManager.Model(), victim);
      if home != 0 then [AbortSignal(home, victim)] else []
    }

    /** What is done with a path that repeats; the lookup of a frequency may throw. */
    method ResolveRepeat(cycle: seq<TransactionId>, frequency: map<TransactionId, int>) returns (thrown: bool)
      requires cycle != []
      modifies this`sent
      ensures thrown == !R.Ranked(cycle, frequency)
      ensures sent == old(sent)
        + if thrown then [] else ToVictim(R.Victim(cycle, frequency)) + ToClient(nodeId, [cycle])
      ensures !thrown ==>
        var s, v := transactionManager.Model(), R.Victim(cycle, frequency);
        sent == old(sent)
          + (if v in s.txns && s.txns[v].homeNodeId != 0 then [AbortSignal(s.txns[v].homeNodeId, v)] else [])
          + (if nodeId == CENTRALIZED_NODE_ID then [ClientReport([cycle], 1)] else [])
    {
      var victim := R.SelectVictim(cycle, frequency);
      if victim.None? { return true; }
      thrown := false;
      var home := transactionManager.GetTransactionHomeNode(victim.value);
      if home != 0 {
        sent := sent + [AbortSignal(home, victim.value)];
      }
      if IsCentralizedNode() {
        sent := sent + [ClientReport([cycle], 1)];
      }
    }

    /** `blocking` is the first holder in hash order; `thrown` says that the handler ended in an exception. */
    method HandlePathPushingProbe(path: seq<TransactionId>) returns (thrown: bool, ghost blocking: TransactionId)
      requires Valid()
      modifies this`sent
      ensures var s := transactionManager.Model();
        && (Probes.Blockers(s, path) != map[] ==> blocking in Probes.Blockers(s, path))
        && match Probes.Handle(s, path, blocking)
           case Dropped => !thrown && sent == old(sent)
           case Thrown => thrown && sent == old(sent)
           case Resolves(victim, cycle) => !thrown && sent == old(sent) + ToVictim(victim) + ToClient(nodeId, [cycle])
           case Forwarded(to, longer) => !thrown && sent == old(sent) + [Probe(to, longer)]
    {
      hide M.Inv, LM.HoldersOf;
      thrown, blocking := false, 0;
      if path == [] { return; }
      var last := path[|path| - 1];
      if last !in transactionManager.activeTransactions { return; }
      var trans := transactionManager.activeTransactions[last];
      assert trans.Value() == transactionManager.Model().txns[last];
      if trans.status != M.Blocked { return; }
      if trans.waitingForResourceId == 0 { return; }
      var holders := resourceManager.GetResourceHolders(trans.waitingForResourceId);
      if holders == map[] { return; }
      NonEmpty(holders);
      var h := Pick(holders.Keys);
      blocking := h;
      var home := transactionManager.GetTransactionHomeNode(h);
      var newPath := path + [h];
      if h in path {
        thrown := ResolveRepeat(newPath, Probes.NO_FREQUENCIES);
      } else if home != 0 {
        sent := sent + [Probe(home, newPath)];
      }
    }

    lemma NonEmpty(holders: map<TransactionId, LockMode>)
      ensures holders.Keys == {} ==> holders == map[]
    {
    }

    ghost predicate StartsProbe(path: seq<TransactionId>)
      reads transactionManager, transactionManager.resourceManager, transactionManager.activeTransactions.Values
    {
      |path| == 1 && path[0] in Active() && transactionManager.Model().txns[path[0]].status == M.Blocked
    }

    /** The paths of the probes that the node puts into its own queue: one for every blocked transaction. */
    method InitiatePathPushingProbes() returns (paths: seq<seq<TransactionId>>)
      requires Valid()
      ensures forall path :: path in paths <==> StartsProbe(path)
      ensures forall i, j :: 0 <= i < j < |paths| ==> paths[i] != paths[j]
    {
      paths := [];
      var left := transactionManager.GetActiveTransactions();
      while left != {}
        invariant left <= Active()
        invariant forall path :: path in paths <==> StartsProbe(path) && path[0] !in left
        invariant forall i, j :: 0 <= i < j < |paths| ==> paths[i] != paths[j]
        decreases left
      {
        var t := Pick(left);
        var trans := transactionManager.activeTransactions[t];
        assert trans.Value() == transactionManager.Model().txns[t];
        if trans.status == M.Blocked {
          assert forall path :: StartsProbe(path) && path[0] == t ==> path == [t];
          assert [t] !in paths;
          paths := paths + [[t]];
        }
        left := left - {t};
      }
    }
  }
}
