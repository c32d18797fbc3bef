/** The component search, the graph of cross-node waits and the zone cut in the form the program gives them. */
module PAGManager {
  import opened Commons
  import opened Graphs
  import opened HashIteration
  import M = TarjanModel
  import Z = Zones

  /** The structures that the search shares between its activations. */
  class ComponentSearch {
    var disc: map<int, int>
    var low: map<int, int>
    var st: seq<int>
    var onStack: map<int, bool>
    var sccs: seq<seq<int>>
    var time: int

    ghost function Value(): M.Tarjan
      reads this
    {
      M.Tarjan(disc, low, st, onStack, sccs, time)
    }

    constructor ()
      ensures Value() == M.EMPTY
    {
      disc, low, st, onStack, sccs, time := map[], map[], [], map[], [], 0;
    }

    method FindSCCsDFS(g: Graph, u: int)
      requires u in Vertices(g) && (forall x :: x in st ==> x in onStack)
      modifies this
      ensures Value() == M.Dfs(g, u, old(Value())) && (forall x :: x in st ==> x in onStack)
      decreases Vertices(g) - M.Enter(u, Value()).disc.Keys, 2
    {
      ghost var before := Value();
      time := time + 1;
      disc := disc[u := time];
      low := low[u := time];
      st := st + [u];
      onStack := onStack[u := true];
      assert Value() == M.Enter(u, before);
      VisitAll(g, u);
      assert Value() == M.Edges(g, u, 0, M.Enter(u, before));
      assert st[|before.stack|] == u;
      if low[u] == disc[u] { PopComponent(u); }
    }

    method VisitAll(g: Graph, u: int)
      requires u in Vertices(g) && u in low && (forall x :: x in st ==> x in onStack)
      modifies this
      ensures Value() == M.Edges(g, u, 0, old(Value())) && (forall x :: x in st ==> x in onStack)
      decreases Vertices(g) - disc.Keys, 1
    {
      ghost var whole := M.Edges(g, u, 0, Value());
      if u in g {
        for i := 0 to |g[u]|
          invariant u in low && old(disc.Keys) <= disc.Keys && (forall x :: x in st ==> x in onStack)
          invariant whole == M.Edges(g, u, i, Value())
        {
          Visit(g, u, g[u][i]);
        }
      }
    }

    /** The body of the loop over the successors of `u`. */
    method Visit(g: Graph, u: int, v: int)
      requires Edge(g, u, v) && u in low && (forall x :: x in st ==> x in onStack)
      modifies this
      ensures Value() == M.Visit(g, u, v, old(Value())) && (forall x :: x in st ==> x in onStack)
      decreases Vertices(g) - disc.Keys, 0
    {
      EdgeInVertices(g, u, v);
      if v !in disc {
        assert v in Vertices(g) - disc.Keys && v !in Vertices(g) - M.Enter(v, Value()).disc.Keys;
        FindSCCsDFS(g, v);
        low := low[u := M.Min(low[u], low[v])];
      } else if v in onStack && onStack[v] {
        low := low[u := M.Min(low[u], disc[v])];
      }
    }

    /** Pops the stack down to `u`, collecting what it pops, and reports it in stack order. */
    method PopComponent(u: int)
      requires u in st && (forall x :: x in st ==> x in onStack)
      modifies this`st, this`onStack, this`sccs
      ensures Value() == M.Pop(u, old(Value())) && (forall x :: x in st ==> x in onStack)
    {
      ghost var base: nat := M.LastIndex(st, u);
      ghost var stack, marks := st, onStack;
      var scc: seq<int> := [];
      var node := st[|st| - 1];
      while true
        invariant base < |st| && st == stack[..|st|] && onStack.Keys == marks.Keys
        invariant scc == stack[|st|..]
        invariant forall x :: x in marks ==> onStack[x] == (marks[x] && x !in scc)
        invariant sccs == old(sccs)
        decreases |st|
      {
        node := st[|st| - 1];
        assert node in stack;
        st := st[..|st| - 1];
        onStack := onStack[node := false];
        scc := [node] + scc;
        assert node in marks && node in scc;
        assert forall x :: x in marks ==> onStack[x] == (marks[x] && x !in scc);
        if node == u { break; }
      }
      assert |st| == base && scc == stack[base..];
      sccs := sccs + [scc];
      assert onStack == map x | x in marks :: marks[x] && x !in scc;
    }

    /** The search from every key, in hash order, that `disc` marks as not visited with -1. */
    method RunForCut(g: Graph) returns (keys: seq<int>)
      requires Value() == M.EMPTY
      modifies this
      ensures IterationOrder(g, keys)
      ensures sccs == Z.SccsOfCut(g, keys)
    {
      keys := KeyOrder(g);
      Prefill(g, keys);
      ghost var start := Value();
      for k := 0 to |keys|
        invariant (forall x :: x in st ==> x in onStack)
        invariant forall x :: x in g ==> x in disc
        invariant forall x :: x in keys[k..] ==> x in g
        invariant Z.CutRoots(g, keys, start) == Z.CutRoots(g, keys[k..], Value())
      {
        var u := keys[k];
        assert keys[k..][0] == u && keys[k..][1..] == keys[k + 1..] && u in keys[k..];
        if disc[u] == -1 { FindSCCsDFS(g, u); }
      }
    }

    method Prefill(g: Graph, keys: seq<int>)
      requires Value() == M.EMPTY && IterationOrder(g, keys)
      modifies this`disc, this`onStack
      ensures Value() == Z.Prefilled(g)
    {
      for k := 0 to |keys|
        invariant Marked(disc, onStack)
        invariant forall x :: x in disc ==> x in Vertices(g)
        invariant forall j :: 0 <= j < k ==> keys[j] in disc && (keys[j] in g ==> Within(g[keys[j]], disc.Keys))
      {
        var x := keys[k];
        assert x in keys;
        disc := disc[x := -1];
        onStack := onStack[x := false];
        for i := 0 to |g[x]|
          invariant Marked(disc, onStack)
          invariant forall y :: y in disc ==> y in Vertices(g)
          invariant Within(g[x][..i], disc.Keys) && x in disc
          invariant forall j :: 0 <= j < k ==> keys[j] in disc && (keys[j] in g ==> Within(g[keys[j]], disc.Keys))
        {
          var neighbor := g[x][i];
          EdgeInVertices(g, x, neighbor);
          if neighbor !in disc {
            disc := disc[neighbor := -1];
            onStack := onStack[neighbor := false];
          }
          assert g[x][..i + 1] == g[x][..i] + [neighbor];
        }
        assert g[x][..|g[x]|] == g[x];
      }
      AllMarked(g, keys);
    }

    lemma AllMarked(g: Graph, keys: seq<int>)
      requires Marked(disc, onStack) && IterationOrder(g, keys) && forall x :: x in disc ==> x in Vertices(g)
      requires forall j :: 0 <= j < |keys| ==> keys[j] in disc && (keys[j] in g ==> Within(g[keys[j]], disc.Keys))
      ensures disc == Z.Prefilled(g).disc && onStack == Z.Prefilled(g).onStack
    {
      KeysAndTargets(g, keys, disc.Keys);
      var p := Z.Prefilled(g);
      forall x ensures x in disc && x in p.disc ==> disc[x] == p.disc[x] {}
      forall x ensures x in onStack && x in p.onStack ==> onStack[x] == p.onStack[x] {}
      SameEntries(disc, p.disc);
      SameEntries(onStack, p.onStack);
    }

    ghost predicate Marked(disc: map<int, int>, onStack: map<int, bool>) {
      disc.Keys == onStack.Keys && forall x :: x in disc ==> disc[x] == -1 && !onStack[x]
    }
  }

  /** The holding nodes of the sampled edges that leave `node` for another one. */
  function Targets(edges: seq<WFDEdge>, node: NodeId): seq<NodeId> {
    if edges == [] then []
    else
      var e := edges[|edges| - 1];
      Targets(edges[..|edges| - 1], node) + Target(e, node)
  }

  lemma {:induction false} NoSelfTarget(edges: seq<WFDEdge>, node: NodeId)
    ensures node !in Targets(edges, node)
  {
    if edges != [] { NoSelfTarget(edges[..|edges| - 1], node); }
  }

  /** The samples in which `n` waits for another node `m`. */
  ghost function Samples(edges: seq<WFDEdge>, n: NodeId, m: NodeId): set<int> {
    set i | 0 <= i < |edges| && edges[i].waitingNodeId == n && edges[i].holdingNodeId == m && n != m
  }

  /** A node has one edge to another for each sample in which it waits for it. */
  lemma {:induction false} TargetsCount(edges: seq<WFDEdge>, n: NodeId, m: NodeId)
    ensures multiset(Targets(edges, n))[m] == |Samples(edges, n, m)|
  {
    if edges != [] {
      var k := |edges| - 1;
      TargetsCount(edges[..k], n, m);
      SamplesSnoc(edges[..k], edges[k], n, m);
      assert edges == edges[..k] + [edges[k]];
    }
  }

  lemma SamplesSnoc(edges: seq<WFDEdge>, e: WFDEdge, n: NodeId, m: NodeId)
    ensures |Samples(edges + [e], n, m)| == |Samples(edges, n, m)| + multiset(Target(e, n))[m]
  {
    var before, after := Samples(edges, n, m), Samples(edges + [e], n, m);
    if e.waitingNodeId == n && e.holdingNodeId == m && n != m {
      assert after == before + {|edges|};
    } else {
      assert after == before;
    }
  }

  ghost predicate IsPAG(pag: Graph, edges: seq<WFDEdge>) {
    && (forall n :: n in pag <==> Targets(edges, n) != [])
    && (forall n :: n in pag ==> pag[n] == Targets(edges, n))
  }

  lemma PAGGrows(pag: Graph, edges: seq<WFDEdge>, e: WFDEdge)
    requires IsPAG(pag, edges)
    ensures e.waitingNodeId == e.holdingNodeId ==> IsPAG(pag, edges + [e])
    ensures e.waitingNodeId != e.holdingNodeId ==>
      var before := if e.waitingNodeId in pag then pag[e.waitingNodeId] else [];
      IsPAG(pag[e.waitingNodeId := before + [e.holdingNodeId]], edges + [e])
  {
    hide Targets;
    forall n ensures Targets(edges + [e], n) == Targets(edges, n) + Target(e, n) { TargetsSnoc(edges, e, n); }
    var w := e.waitingNodeId;
    if w != e.holdingNodeId {
      var before := if w in pag then pag[w] else [];
      assert before == Targets(edges, w);
      var after := pag[w := before + [e.holdingNodeId]];
      forall n ensures n in after <==> Targets(edges + [e], n) != [] {}
      forall n ensures n in after ==> after[n] == Targets(edges + [e], n) {}
    }
  }

  function Target(e: WFDEdge, n: NodeId): seq<NodeId> {
    if e.waitingNodeId == n && e.holdingNodeId != n then [e.holdingNodeId] else []
  }

  lemma TargetsSnoc(edges: seq<WFDEdge>, e: WFDEdge, n: NodeId)
    ensures Targets(edges + [e], n) == Targets(edges, n) + Target(e, n)
  {
    assert (edges + [e])[..|edges|] == edges;
  }

  /** Every sampled wait between different nodes is one edge of the graph, and nothing else is. */
  method GeneratePAG(edges: seq<WFDEdge>) returns (pag: Graph)
    ensures forall n :: n in pag <==> Targets(edges, n) != []
    ensures forall n :: n in pag ==> pag[n] == Targets(edges, n)
    ensures forall n :: !Edge(pag, n, n)
    ensures edges == [] ==> pag == map[]
  {
    pag := map[];
    for k := 0 to |edges|
      invariant IsPAG(pag, edges[..k])
      invariant k == 0 ==> pag == map[]
    {
      var e := edges[k];
      assert edges[..k + 1] == edges[..k] + [e];
      PAGGrows(pag, edges[..k], e);
      if e.waitingNodeId != e.holdingNodeId {
        var w := e.waitingNodeId;
        pag := pag[w := (if w in pag then pag[w] else []) + [e.holdingNodeId]];
      }
    }
    assert edges[..|edges|] == edges;
    forall n ensures !Edge(pag, n, n) { NoSelfTarget(edges, n); }
  }

  /** Zones and leaders from a list of components: large components are kept, other keys stand alone. */
  method CutZones(g: Graph, sccs: seq<seq<NodeId>>, threshold: int, keys: seq<NodeId>)
    returns (zones: seq<seq<NodeId>>, leaders: seq<NodeId>)
    requires IterationOrder(g, keys) && forall c :: c in sccs ==> c != []
    ensures zones == Z.Cut(sccs, keys, threshold)
    ensures Z.LedByLeast(zones, leaders)
  {
    zones, leaders := KeepLarge(sccs, threshold);
    zones, leaders := AddIsolated(zones, leaders, keys);
  }

  method KeepLarge(sccs: seq<seq<NodeId>>, threshold: int) returns (zones: seq<seq<NodeId>>, leaders: seq<NodeId>)
    requires forall c :: c in sccs ==> c != []
    ensures zones == Z.Kept(sccs, threshold) && Z.LedByLeast(zones, leaders)
  {
    hide Z.SizeAtLeast, Z.Least;
    zones, leaders := [], [];
    for k := 0 to |sccs|
      invariant zones == Z.Kept(sccs[..k], threshold) && Z.LedByLeast(zones, leaders)
    {
      var scc := sccs[k];
      assert sccs[..k + 1][..k] == sccs[..k] && scc in sccs;
      if Z.SizeAtLeast(|scc|, threshold) {
        var leader := LeastOf(scc);
        zones := zones + [scc];
        leaders := leaders + [leader];
      }
    }
    assert sccs[..|sccs|] == sccs;
  }

  method AddIsolated(kept: seq<seq<NodeId>>, keptLeaders: seq<NodeId>, keys: seq<NodeId>)
    returns (zones: seq<seq<NodeId>>, leaders: seq<NodeId>)
    requires Z.LedByLeast(kept, keptLeaders)
    ensures zones == Z.WithIsolated(kept, keys) && Z.LedByLeast(zones, leaders)
  {
    hide Z.Covered;
    zones, leaders := kept, keptLeaders;
    var coveredNodes := MembersOf(zones);
    for k := 0 to |keys|
      invariant zones == Z.WithIsolated(kept, keys[..k]) && Z.LedByLeast(zones, leaders)
      invariant forall x :: x in coveredNodes <==> Z.Covered(zones, x)
    {
      var node := keys[k];
      assert keys[..k + 1][..k] == keys[..k];
      if node !in coveredNodes {
        forall x ensures Z.Covered(zones + [[node]], x) <==> Z.Covered(zones, x) || x == node {
          CoveredSnoc(zones, node, x);
        }
        zones := zones + [[node]];
        leaders := leaders + [node];
        coveredNodes := coveredNodes + {node};
      }
    }
    assert keys[..|keys|] == keys;
  }

  lemma CoveredSnoc(zones: seq<seq<NodeId>>, node: NodeId, x: NodeId)
    ensures Z.Covered(zones + [[node]], x) <==> Z.Covered(zones, x) || x == node
  {
    Z.EmittedSnoc(zones, [node], x);
  }

  method LeastOf(zone: seq<NodeId>) returns (leader: NodeId)
    requires zone != []
    ensures leader == Z.Least(zone)
  {
    leader := zone[0];
    for i := 1 to |zone|
      invariant leader == Z.Least(zone[..i])
    {
      assert zone[..i + 1][..i] == zone[..i];
      if zone[i] < leader { leader := zone[i]; }
    }
    assert zone[..|zone|] == zone;
  }

  method MembersOf(zones: seq<seq<NodeId>>) returns (members: set<NodeId>)
    ensures forall x :: x in members <==> Z.Covered(zones, x)
  {
    members := {};
    for k := 0 to |zones|
      invariant forall x :: x in members <==> Z.Covered(zones[..k], x)
    {
      forall x { Z.EmittedSnoc(zones[..k], zones[k], x); }
      assert zones[..k + 1] == zones[..k] + [zones[k]];
      members := members + set x | x in zones[k];
    }
    assert zones[..|zones|] == zones;
  }

  /** As the program calls it: one zone per key, each its own leader, whatever the graph and the threshold. */
  method GreedySCCcut(pag: Graph, threshold: int)
    returns (zones: seq<seq<NodeId>>, leaders: seq<NodeId>, keys: seq<NodeId>)
    ensures IterationOrder(pag, keys)
    ensures zones == Z.Cut(Z.SccsOfCut(pag, keys), keys, threshold) && Z.LedByLeast(zones, leaders)
    ensures zones == Z.Singletons(keys) && leaders == keys
    ensures pag == map[] ==> zones == [] && leaders == []
  {
    var search := new ComponentSearch();
    keys := search.RunForCut(pag);
    Z.CutAsWritten(pag, keys, threshold);
    forall c | c in search.sccs ensures c != [] {
      var i :| 0 <= i < |search.sccs| && search.sccs[i] == c;
    }
    zones, leaders := CutZones(pag, search.sccs, threshold, keys);
    forall i | 0 <= i < |leaders| ensures leaders[i] == keys[i] { assert leaders[i] in zones[i]; }
  }
}
