/** The wait-for graph builder of one node (LockTable.cpp).  It reads the holders, the queue and the waiting
    transaction of each resource under separate locks, so other threads may take steps between any two reads. */
module LockTable {
  import opened Commons
  import opened Graphs
  import LM = LockModel
  import M = NodeModel
  import W = WaitForGraph
  import opened ResourceManager
  import opened TransactionManager

  /** Appends the edges from `w` to the allowed holders other than itself, in hash order. */
  method PushEdges(g: Graph, w: TransactionId, holders: map<TransactionId, LockMode>, only: Option<set<TransactionId>>)
    returns (lwfg: Graph, ghost targets: seq<TransactionId>)
    requires w !in g
    ensures Distinct(targets) && forall h :: h in targets <==> h in holders && h != w && W.Allowed(only, h)
    ensures lwfg == W.WithEdges(g, w, targets)
    ensures forall h :: Edge(lwfg, w, h) <==> h in holders && h != w && W.Allowed(only, h)
    ensures forall x, h :: x != w ==> (Edge(lwfg, x, h) <==> Edge(g, x, h))
  {
    lwfg := g;
    targets := [];
    var left := holders.Keys;
    while left != {}
      invariant left <= holders.Keys
      invariant Distinct(targets)
      invariant forall h :: h in targets ==> h in holders && h !in left && h != w && W.Allowed(only, h)
      invariant forall h :: h in holders && h !in left && h != w && W.Allowed(only, h) ==> h in targets
      invariant lwfg == W.WithEdges(g, w, targets)
      decreases left
    {
      var h := Pick(left);
      left := left - {h};
      if h != w && W.Allowed(only, h) {
        var successors := if w in lwfg then lwfg[w] else [];
        lwfg := lwfg[w := successors + [h]];
        targets := targets + [h];
      }
    }
  }

  class LockTable {
    const resourceManager: ResourceManager
    const transactionManager: TransactionManager

    constructor (resources: ResourceManager, transactions: TransactionManager)
      ensures resourceManager == resources && transactionManager == transactions
    {
      resourceManager, transactionManager := resources, transactions;
    }

    ghost predicate Valid()
      reads transactionManager, transactionManager.resourceManager, transactionManager.activeTransactions.Values
    {
      resourceManager == transactionManager.resourceManager
      && transactionManager.Separate() && M.Inv(transactionManager.Model())
    }

    /** Other threads take the steps that the script has for this moment. */
    method Interfere(script: seq<seq<M.Step>>, moment: nat)
      requires Valid()
      modifies transactionManager, resourceManager, transactionManager.activeTransactions.Values
      ensures Valid() && W.Evolves(old(transactionManager.Model()), transactionManager.Model())
      ensures fresh(transactionManager.activeTransactions.Values - old(transactionManager.activeTransactions.Values))
      ensures script == [] ==> transactionManager.Model() == old(transactionManager.Model())
    {
      var steps := if moment < |script| then script[moment] else [];
      W.RunEvolves(transactionManager.Model(), steps);
      transactionManager.Interfere(steps);
    }

    /** Looks at one resource; `lwfg` gets the edges found there. */
    method Look(g: Graph, r: ResourceId, only: Option<set<TransactionId>>, script: seq<seq<M.Step>>, moment: nat,
                ghost start: M.Node, ghost done: set<ResourceId>)
      returns (lwfg: Graph)
      requires Valid() && W.Collecting(g, start, transactionManager.Model(), only, done)
      requires r !in done && W.IsLocal(start, r)
      modifies transactionManager, resourceManager, transactionManager.activeTransactions.Values
      ensures Valid() && W.Collecting(lwfg, start, transactionManager.Model(), only, done + {r})
      ensures fresh(transactionManager.activeTransactions.Values - old(transactionManager.activeTransactions.Values))
      ensures script == [] ==> transactionManager.Model() == old(transactionManager.Model())
    {
      hide M.Inv, W.Evolves, W.Collecting, W.IsLocal, W.Allowed, W.WaitingFor, OwnerNodeId, LM.HoldersOf, LM.QueueOf;
      lwfg := g;
      Wait(g, only, script, moment, start, done);
      var holders := resourceManager.GetResourceHolders(r);
      ghost var s := transactionManager.Model();
      if holders == map[] {
        W.NothingToCollect(g, start, s, only, done, r);
      } else {
        W.CollectingFacts(g, start, s, only, done);
        W.EvolvesRefl(s);
        lwfg := LookAtQueue(g, r, holders, only, script, moment + 1, start, s, done);
      }
    }

    /** The holders were read in state `a`; next comes the queue. */
    method LookAtQueue(g: Graph, r: ResourceId, holders: map<TransactionId, LockMode>, only: Option<set<TransactionId>>,
                       script: seq<seq<M.Step>>, moment: nat,
                       ghost start: M.Node, ghost a: M.Node, ghost done: set<ResourceId>)
      returns (lwfg: Graph)
      requires Valid() && W.Collecting(g, start, transactionManager.Model(), only, done)
      requires r !in done && W.IsLocal(start, r) && holders == LM.HoldersOf(a.locks, r)
      requires M.Inv(a) && W.Evolves(start, a) && W.Evolves(a, transactionManager.Model())
      modifies transactionManager, resourceManager, transactionManager.activeTransactions.Values
      ensures Valid() && W.Collecting(lwfg, start, transactionManager.Model(), only, done + {r})
      ensures fresh(transactionManager.activeTransactions.Values - old(transactionManager.activeTransactions.Values))
      ensures script == [] ==> transactionManager.Model() == old(transactionManager.Model())
    {
      hide M.Inv, W.Evolves, W.Collecting, W.IsLocal, W.Allowed, W.WaitingFor, OwnerNodeId, LM.HoldersOf, LM.QueueOf;
      lwfg := g;
      Wait(g, only, script, moment, start, done);
      var queue := resourceManager.GetResourceWaitingQueue(r);
      ghost var s := transactionManager.Model();
      if queue == [] {
        W.NothingToCollect(g, start, s, only, done, r);
      } else {
        W.EvolvesTrans(a, old(transactionManager.Model()), s);
        lwfg := LookAtWaiter(g, r, holders, queue[0], only, script, moment + 1, start, a, done);
      }
    }

    /** The queue was not empty; last comes the resource that its front transaction waits for. */
    method LookAtWaiter(g: Graph, r: ResourceId, holders: map<TransactionId, LockMode>, waiting: TransactionId,
                        only: Option<set<TransactionId>>, script: seq<seq<M.Step>>, moment: nat,
                        ghost start: M.Node, ghost a: M.Node, ghost done: set<ResourceId>)
      returns (lwfg: Graph)
      requires Valid() && W.Collecting(g, start, transactionManager.Model(), only, done)
      requires r !in done && W.IsLocal(start, r) && holders == LM.HoldersOf(a.locks, r)
      requires M.Inv(a) && W.Evolves(start, a) && W.Evolves(a, transactionManager.Model())
      requires W.IsFront(transactionManager.Model(), waiting, r)
      modifies transactionManager, resourceManager, transactionManager.activeTransactions.Values
      ensures Valid() && W.Collecting(lwfg, start, transactionManager.Model(), only, done + {r})
      ensures fresh(transactionManager.activeTransactions.Values - old(transactionManager.activeTransactions.Values))
      ensures script == [] ==> transactionManager.Model() == old(transactionManager.Model())
    {
      hide M.Inv, W.Evolves, W.Collecting, W.IsLocal, W.Allowed, W.WaitingFor, OwnerNodeId, LM.HoldersOf, LM.QueueOf;
      lwfg := g;
      Wait(g, only, script, moment, start, done);
      var waitingFor := GetWaitingFor(waiting);
      ghost var s := transactionManager.Model();
      W.FrontStays(old(transactionManager.Model()), s, r);
      if waitingFor != r || !W.Allowed(only, waiting) {
        W.NothingToCollect(g, start, s, only, done, r);
      } else {
        W.EvolvesTrans(a, old(transactionManager.Model()), s);
        W.NotYetThere(g, start, s, only, done, r);
        ghost var targets;
        lwfg, targets := PushEdges(g, waiting, holders, only);
        W.Collect(g, start, a, s, only, done, r, targets);
      }
    }

    method LocalResources() returns (resources: seq<ResourceId>)
      requires Valid()
      ensures Distinct(resources) && forall r :: r in resources <==> W.IsLocal(transactionManager.Model(), r)
    {
      resources := resourceManager.GetLocalResources();
    }

    method GetWaitingFor(t: TransactionId) returns (r: ResourceId)
      ensures r == W.WaitingFor(transactionManager.Model(), t)
    {
      r := transactionManager.GetTransactionWaitingFor(t);
    }

    method Wait(g: Graph, only: Option<set<TransactionId>>, script: seq<seq<M.Step>>, moment: nat,
                ghost start: M.Node, ghost done: set<ResourceId>)
      requires Valid() && W.Collecting(g, start, transactionManager.Model(), only, done)
      modifies transactionManager, resourceManager, transactionManager.activeTransactions.Values
      ensures Valid() && W.Collecting(g, start, transactionManager.Model(), only, done)
      ensures W.Evolves(old(transactionManager.Model()), transactionManager.Model())
      ensures fresh(transactionManager.activeTransactions.Values - old(transactionManager.activeTransactions.Values))
      ensures script == [] ==> transactionManager.Model() == old(transactionManager.Model())
    {
      ghost var before := transactionManager.Model();
      Interfere(script, moment);
      W.CollectingSurvives(g, start, before, transactionManager.Model(), only, done);
    }

    /** Collects the graph, restricted to the transactions of `only` if given, while other threads follow `script`. */
    method BuildGraph(only: Option<set<TransactionId>>, script: seq<seq<M.Step>>) returns (lwfg: Graph)
      requires Valid()
      modifies transactionManager, resourceManager, transactionManager.activeTransactions.Values
      ensures Valid()
      ensures W.Collected(lwfg, old(transactionManager.Model()), transactionManager.Model(), only)
      ensures script == [] ==> transactionManager.Model() == old(transactionManager.Model())
    {
      hide M.Inv, W.Evolves, W.Collecting, W.Collected, W.IsLocal;
      ghost var start := transactionManager.Model();
      lwfg := map[];
      W.EvolvesRefl(start);
      var resources := LocalResources();
      ghost var done: set<ResourceId> := {};
      for k := 0 to |resources|
        invariant Valid() && W.Collecting(lwfg, start, transactionManager.Model(), only, done)
        invariant forall r :: r in done <==> r in resources[..k]
        invariant fresh(transactionManager.activeTransactions.Values
                        - old(transactionManager.activeTransactions.Values))
        invariant script == [] ==> transactionManager.Model() == start
      {
        var r := resources[k];
        assert r in resources;
        assert r !in resources[..k];
        lwfg := Look(lwfg, r, only, script, 3 * k, start, done);
        done := done + {r};
        assert resources[..k + 1] == resources[..k] + [r];
      }
      assert resources[..|resources|] == resources;
      W.AllResourcesDone(lwfg, start, transactionManager.Model(), only, done);
    }

    method BuildLocalWaitForGraph(script: seq<seq<M.Step>>) returns (lwfg: Graph)
      requires Valid()
      modifies transactionManager, resourceManager, transactionManager.activeTransactions.Values
      ensures Valid()
      ensures W.Collected(lwfg, old(transactionManager.Model()), transactionManager.Model(), None)
      ensures script == [] ==> W.IsWaitGraph(lwfg, transactionManager.Model(), None)
    {
      lwfg := BuildGraph(None, script);
      if script == [] { W.AtomicCollectionIsExact(lwfg, transactionManager.Model(), None); }
    }

    method BuildAndPruneLocalWaitForGraph(active: set<TransactionId>, script: seq<seq<M.Step>>) returns (lwfg: Graph)
      requires Valid()
      modifies transactionManager, resourceManager, transactionManager.activeTransactions.Values
      ensures Valid()
      ensures W.Collected(lwfg, old(transactionManager.Model()), transactionManager.Model(), Some(active))
      ensures script == [] ==> W.IsWaitGraph(lwfg, transactionManager.Model(), Some(active))
    {
      lwfg := BuildGraph(Some(active), script);
      if script == [] { W.AtomicCollectionIsExact(lwfg, transactionManager.Model(), Some(active)); }
    }

    // ---------- waits between nodes ----------

    /** The home node read straight from the table of active transactions; the lookup of one that has ended throws. */
    method HomeOf(t: TransactionId) returns (home: Option<NodeId>)
      requires Valid()
      ensures home == if t in transactionManager.Model().txns then Some(transactionManager.nodeId) else None
    {
      if t in transactionManager.activeTransactions {
        ghost var s := transactionManager.Model();
        assert s.txns[t] == transactionManager.activeTransactions[t].Value() && M.TxnValid(s, s.txns[t]);
        home := Some(transactionManager.activeTransactions[t].homeNodeId);
      } else {
        home := None;
      }
    }

    /** One edge, if the home nodes differ. */
    method CrossEdge(waiting: TransactionId, holding: TransactionId, script: seq<seq<M.Step>>, moment: nat)
      returns (thrown: bool, edges: seq<WFDEdge>)
      requires Valid()
      requires script == [] ==> waiting in transactionManager.Model().txns && holding in transactionManager.Model().txns
      modifies transactionManager, resourceManager, transactionManager.activeTransactions.Values
      ensures Valid() && edges == []
      ensures fresh(transactionManager.activeTransactions.Values - old(transactionManager.activeTransactions.Values))
      ensures script == [] ==> !thrown && transactionManager.Model() == old(transactionManager.Model())
    {
      hide M.Inv, W.Evolves, OwnerNodeId, LM.HoldersOf, LM.QueueOf, W.WaitingFor;
      thrown, edges := true, [];
      Interfere(script, moment);
      var waitingNode := HomeOf(waiting);
      if waitingNode.Some? {
        Interfere(script, moment + 1);
        var holdingNode := HomeOf(holding);
        if holdingNode.Some? {
          thrown, edges := false, EdgeBetween(waiting, holding, waitingNode.value, holdingNode.value);
        }
      }
    }

    function EdgeBetween(waiting: TransactionId, holding: TransactionId, waitingNode: NodeId,
                         holdingNode: NodeId): seq<WFDEdge> {
      if waitingNode != holdingNode then [WFDEdge(waiting, holding, waitingNode, holdingNode)] else []
    }

    /** The edges from `waiting` to those of `holders` that have another home node. */
    method CrossEdges(waiting: TransactionId, holders: map<TransactionId, LockMode>, script: seq<seq<M.Step>>,
                      moment: nat)
      returns (thrown: bool, edges: seq<WFDEdge>)
      requires Valid()
      requires script == [] ==>
        waiting in transactionManager.Model().txns && forall h :: h in holders ==> h in transactionManager.Model().txns
      modifies transactionManager, resourceManager, transactionManager.activeTransactions.Values
      ensures Valid() && edges == []
      ensures fresh(transactionManager.activeTransactions.Values - old(transactionManager.activeTransactions.Values))
      ensures script == [] ==> !thrown && transactionManager.Model() == old(transactionManager.Model())
    {
      hide M.Inv, W.Evolves, OwnerNodeId, LM.HoldersOf, LM.QueueOf, W.WaitingFor;
      thrown, edges := false, [];
      ghost var s := transactionManager.Model();
      var left, k := holders.Keys, moment;
      while left != {} && !thrown
        invariant Valid() && edges == [] && left <= holders.Keys
        invariant fresh(transactionManager.activeTransactions.Values
                        - old(transactionManager.activeTransactions.Values))
        invariant script == [] ==> !thrown && transactionManager.Model() == s
        decreases left
      {
        var h := Pick(left);
        left := left - {h};
        var found;
        thrown, found := CrossEdge(waiting, h, script, k);
        edges := edges + found;
        k := k + 2;
      }
    }

    /** One resource: the three reads of the graph builder, then the home nodes. */
    method CrossEdgesOf(r: ResourceId, script: seq<seq<M.Step>>, moment: nat) returns (thrown: bool,
                        edges: seq<WFDEdge>)
      requires Valid() && r >= 1
      modifies transactionManager, resourceManager, transactionManager.activeTransactions.Values
      ensures Valid() && edges == []
      ensures fresh(transactionManager.activeTransactions.Values - old(transactionManager.activeTransactions.Values))
      ensures script == [] ==> !thrown && transactionManager.Model() == old(transactionManager.Model())
    {
      hide M.Inv, W.Evolves, OwnerNodeId, LM.HoldersOf, LM.QueueOf, W.WaitingFor;
      thrown, edges := false, [];
      Interfere(script, moment);
      var holders := resourceManager.GetResourceHolders(r);
      ghost var s := transactionManager.Model();
      AllActive(s, r);
      if holders != map[] { thrown, edges := CrossEdgesFrom(r, holders, script, moment + 1); }
    }

    /** The holders have been read. */
    method CrossEdgesFrom(r: ResourceId, holders: map<TransactionId, LockMode>, script: seq<seq<M.Step>>, moment: nat)
      returns (thrown: bool, edges: seq<WFDEdge>)
      requires Valid() && r >= 1
      requires script == [] ==> forall h :: h in holders ==> h in transactionManager.Model().txns
      modifies transactionManager, resourceManager, transactionManager.activeTransactions.Values
      ensures Valid() && edges == []
      ensures fresh(transactionManager.activeTransactions.Values - old(transactionManager.activeTransactions.Values))
      ensures script == [] ==> !thrown && transactionManager.Model() == old(transactionManager.Model())
    {
      hide M.Inv, W.Evolves, OwnerNodeId, LM.HoldersOf, LM.QueueOf, W.WaitingFor;
      thrown, edges := false, [];
      Interfere(script, moment);
      var queue := resourceManager.GetResourceWaitingQueue(r);
      if queue == [] { return; }
      Interfere(script, moment + 1);
      var waitingFor := GetWaitingFor(queue[0]);
      if waitingFor == r {
        AllActive(transactionManager.Model(), r);
        thrown, edges := CrossEdges(queue[0], holders, script, moment + 2);
      }
    }

    lemma AllActive(s: M.Node, r: ResourceId)
      requires M.Inv(s) && r >= 1
      ensures forall w :: W.WaitingFor(s, w) == r ==> w in s.txns
      ensures forall h :: h in LM.HoldersOf(s.locks, r) ==> h in s.txns
    {
      hide OwnerNodeId;
    }

    /** The sampled waits between nodes: whatever other threads do, either a lookup throws or there are none, because
        every active transaction is at home on the node where it is active. */
    method CollectCrossNodeWFDEdges(script: seq<seq<M.Step>>) returns (thrown: bool, edges: seq<WFDEdge>)
      requires Valid()
      modifies transactionManager, resourceManager, transactionManager.activeTransactions.Values
      ensures Valid() && edges == []
      ensures script == [] ==> !thrown && transactionManager.Model() == old(transactionManager.Model())
    {
      hide M.Inv, W.Evolves, OwnerNodeId, LM.HoldersOf, LM.QueueOf, W.WaitingFor;
      thrown, edges := false, [];
      var resources := LocalResources();
      for k := 0 to |resources|
        invariant Valid() && edges == [] && forall r :: r in resources ==> r >= 1
        invariant fresh(transactionManager.activeTransactions.Values
                        - old(transactionManager.activeTransactions.Values))
        invariant script == [] ==> !thrown && transactionManager.Model() == old(transactionManager.Model())
      {
        var found;
        assert resources[k] in resources;
        thrown, found := CrossEdgesOf(resources[k], script, k);
        edges := edges + found;
        if thrown { return; }
      }
    }
  }
}
