/** How a list of components becomes detection zones, and what nodes make of the zones (PAGManager.cpp,
    DetectionZoneManager.cpp). */
module Zones {
  import opened Commons
  import opened Graphs
  import opened TarjanModel
  import opened TarjanTheorems

  /** The program compares an unsigned 64-bit size with a signed threshold. */
  predicate SizeAtLeast(size: nat, threshold: int) {
    size >= if threshold < 0 then threshold + 0x1_0000_0000_0000_0000 else threshold
  }

  function Least(zone: seq<NodeId>): (m: NodeId)
    requires zone != []
    ensures m in zone && forall x :: x in zone ==> m <= x
  {
    var n := |zone| - 1;
    if n == 0 then zone[0] else
    var m := Least(zone[..n]);
    assert zone == zone[..n] + [zone[n]];
    if zone[n] < m then zone[n] else m
  }

  function Kept(sccs: seq<seq<NodeId>>, threshold: int): seq<seq<NodeId>> {
    if sccs == [] then []
    else
      var n := |sccs| - 1;
      Kept(sccs[..n], threshold) + if SizeAtLeast(|sccs[n]|, threshold) then [sccs[n]] else []
  }

  ghost predicate Covered(zones: seq<seq<NodeId>>, x: NodeId) { Emitted(zones, x) }

  /** Appends a zone of its own for every vertex of `order` that no zone contains yet. */
  ghost function WithIsolated(zones: seq<seq<NodeId>>, order: seq<NodeId>): seq<seq<NodeId>> {
    if order == [] then zones
    else
      var n := |order| - 1;
      var before := WithIsolated(zones, order[..n]);
      if Covered(before, order[n]) then before else before + [[order[n]]]
  }

  ghost function Cut(sccs: seq<seq<NodeId>>, order: seq<NodeId>, threshold: int): seq<seq<NodeId>> {
    WithIsolated(Kept(sccs, threshold), order)
  }

  ghost predicate LedByLeast(zones: seq<seq<NodeId>>, leaders: seq<NodeId>) {
    |zones| == |leaders| && forall i :: 0 <= i < |zones| ==> zones[i] != [] && leaders[i] == Least(zones[i])
  }

  // ---------- the zones partition the nodes ----------

  lemma {:induction false} KeptFrom(sccs: seq<seq<NodeId>>, threshold: int)
    ensures forall z :: z in Kept(sccs, threshold) <==> z in sccs && SizeAtLeast(|z|, threshold)
  {
    if sccs != [] {
      var n := |sccs| - 1;
      KeptFrom(sccs[..n], threshold);
      assert sccs == sccs[..n] + [sccs[n]];
    }
  }

  lemma {:induction false} KeptDisjoint(sccs: seq<seq<NodeId>>, threshold: int)
    requires Disjoint(sccs)
    ensures Disjoint(Kept(sccs, threshold))
  {
    if sccs != [] {
      var n := |sccs| - 1;
      KeptDisjoint(sccs[..n], threshold);
      KeptFrom(sccs[..n], threshold);
      var before := Kept(sccs[..n], threshold);
      forall k, x | 0 <= k < |before| && x in before[k] ensures x !in sccs[n] {
        assert before[k] in before;
        var m :| 0 <= m < n && sccs[..n][m] == before[k];
        assert x in sccs[m];
      }
    }
  }

  lemma EmittedSnoc(zones: seq<seq<NodeId>>, z: seq<NodeId>, x: NodeId)
    ensures Emitted(zones + [z], x) <==> Emitted(zones, x) || x in z
  {
    var all := zones + [z];
    if Emitted(zones, x) {
      var k :| 0 <= k < |zones| && x in zones[k];
      assert x in all[k];
    }
    if x in z { assert x in all[|zones|]; }
  }

  lemma {:induction false} IsolatedPartition(zones: seq<seq<NodeId>>, order: seq<NodeId>)
    requires Disjoint(zones)
    ensures Disjoint(WithIsolated(zones, order)) && zones <= WithIsolated(zones, order)
    ensures forall x :: Emitted(WithIsolated(zones, order), x) <==> Emitted(zones, x) || x in order
    ensures forall z :: z in WithIsolated(zones, order) ==> z in zones || exists x :: x in order && z == [x]
  {
    if order != [] {
      var n := |order| - 1;
      IsolatedPartition(zones, order[..n]);
      assert order == order[..n] + [order[n]];
      var before := WithIsolated(zones, order[..n]);
      if !Emitted(before, order[n]) {
        forall x { EmittedSnoc(before, [order[n]], x); }
        forall k, x | 0 <= k < |before| && x in before[k] ensures x != order[n] {}
      }
    }
  }

  /** For any disjoint non-empty components, the zones are disjoint and non-empty, cover every node that waits,
      keep every component that is large enough whole, and add only zones of one node.  A negative threshold, read as an
      unsigned number, is larger than any component. */
  lemma CutPartitions(sccs: seq<seq<NodeId>>, order: seq<NodeId>, threshold: int)
    requires Disjoint(sccs) && forall c :: c in sccs ==> c != []
    ensures var zones := Cut(sccs, order, threshold);
      var large := if threshold >= 0 then threshold else 0x1_0000_0000_0000_0000 + threshold;
      && Disjoint(zones) && (forall z :: z in zones ==> z != [])
      && (forall x :: x in order ==> Covered(zones, x))
      && (forall c :: c in sccs && |c| >= large ==> c in zones)
      && (forall z :: z in zones ==>
            (z in sccs && |z| >= large) || exists x :: x in order && z == [x])
  {
    KeptFrom(sccs, threshold);
    KeptDisjoint(sccs, threshold);
    IsolatedPartition(Kept(sccs, threshold), order);
  }

  // ---------- what the cut returns as it is written ----------

  /** The cut gives every vertex the discovery time -1 beforehand, while the search takes any entry to mean
      "already visited". */
  ghost function Prefilled(g: Graph): Tarjan {
    Tarjan(map x | x in Vertices(g) :: -1, map[], [], map x | x in Vertices(g) :: false, [], 0)
  }

  ghost function CutRoots(g: Graph, roots: seq<int>, s: Tarjan): Tarjan
    requires forall x :: x in roots ==> x in g
    requires forall x :: x in g ==> x in s.disc
    decreases |roots|
  {
    if roots == [] then s
    else
      var u := roots[0];
      assert u in roots;
      CutRoots(g, roots[1..], if s.disc[u] == -1 then Dfs(g, u, s) else s)
  }

  ghost function SccsOfCut(g: Graph, order: seq<int>): seq<seq<int>>
    requires IterationOrder(g, order)
  {
    CutRoots(g, order, Prefilled(g)).sccs
  }

  function Singletons(order: seq<int>): (r: seq<seq<int>>)
    ensures |r| == |order| && forall i :: 0 <= i < |r| ==> r[i] == [order[i]]
  {
    if order == [] then [] else [[order[0]]] + Singletons(order[1..])
  }

  lemma SingletonsSplit(roots: seq<int>)
    ensures roots != [] ==> Singletons(roots) == [[roots[0]]] + Singletons(roots[1..])
    ensures roots == [] ==> Singletons(roots) == []
  {
  }

  /** Between activations: every vertex has an entry and none is on the stack. */
  ghost predicate Idle(g: Graph, s: Tarjan) {
    && s.disc.Keys == s.onStack.Keys == Vertices(g) && s.stack == [] && s.time >= 0
    && forall x :: x in s.onStack ==> !s.onStack[x]
  }

  lemma {:induction false} EdgesIdle(g: Graph, u: int, i: nat, s: Tarjan)
    requires u in Vertices(g) && i <= OutDegree(g, u) && s.disc.Keys == s.onStack.Keys == Vertices(g)
    requires forall x :: x in s.onStack && s.onStack[x] ==> x == u
    requires u in s.low && s.low[u] == s.disc[u]
    ensures Edges(g, u, i, s) == s
    decreases OutDegree(g, u) - i
  {
    hide Vertices, Dfs;
    if i < OutDegree(g, u) {
      var v := g[u][i];
      EdgeInVertices(g, u, v);
      assert s.low[u := s.low[u]] == s.low;
      assert Visit(g, u, v, s) == s;
      hide Visit;
      EdgesIdle(g, u, i + 1, s);
    }
  }

  lemma DfsIdle(g: Graph, u: int, s: Tarjan)
    requires Idle(g, s) && u in g && u in Vertices(g)
    ensures Idle(g, Dfs(g, u, s)) && Dfs(g, u, s).sccs == s.sccs + [[u]]
    ensures Dfs(g, u, s).disc == s.disc[u := s.time + 1]
  {
    hide Vertices, Edges;
    var t := Enter(u, s);
    EdgesIdle(g, u, 0, t);
    assert t.stack == [u];
    assert LastIndex(t.stack, u) == 0;
  }

  lemma {:induction false} RootsIdle(g: Graph, roots: seq<int>, s: Tarjan)
    requires Idle(g, s) && Distinct(roots) && forall x :: x in roots ==> x in g && x in Vertices(g)
    requires forall x :: x in roots && x in s.disc ==> s.disc[x] == -1
    requires forall x :: x in g ==> x in s.disc
    ensures CutRoots(g, roots, s).sccs == s.sccs + Singletons(roots)
    decreases |roots|
  {
    hide Vertices, Dfs, Grows;
    SingletonsSplit(roots);
    hide Singletons;
    if roots != [] {
      var u, rest := roots[0], roots[1..];
      assert u in roots;
      DfsIdle(g, u, s);
      var t := Dfs(g, u, s);
      forall x | x in rest ensures x in roots && x != u {}
      RootsIdle(g, rest, t);
      assert s.sccs + Singletons(roots) == t.sccs + Singletons(rest);
    }
  }

  lemma {:induction false} KeptSingletons(order: seq<int>, threshold: int)
    ensures Kept(Singletons(order), threshold) == if SizeAtLeast(1, threshold) then Singletons(order) else []
  {
    if order != [] {
      var n := |order| - 1;
      SingletonsSnoc(order);
      KeptSingletons(order[..n], threshold);
      hide Singletons, SizeAtLeast;
      assert Singletons(order)[..n] == Singletons(order[..n]);
    }
  }

  lemma {:induction false} IsolatedSingletons(zones: seq<seq<int>>, order: seq<int>)
    requires Distinct(order) && zones == []
    ensures WithIsolated(zones, order) == Singletons(order)
  {
    if order != [] {
      var n := |order| - 1;
      IsolatedSingletons(zones, order[..n]);
      SingletonsSnoc(order);
      NotYetCovered(order[..n], order[n]);
      hide Singletons, Covered;
    }
  }

  lemma {:induction false} SingletonsSnoc(order: seq<int>)
    requires order != []
    ensures Singletons(order) == Singletons(order[..|order| - 1]) + [[order[|order| - 1]]]
  {
    var front, rest := order[..|order| - 1], order[1..];
    SingletonsSplit(order);
    SingletonsSplit(front);
    SingletonsSplit(rest);
    hide Singletons;
    if rest != [] {
      SingletonsSnoc(rest);
      assert front[1..] == rest[..|rest| - 1];
    }
  }

  lemma NotYetCovered(order: seq<int>, x: int)
    requires x !in order
    ensures !Covered(Singletons(order), x)
  {
  }

  lemma {:induction false} NothingIsolated(zones: seq<seq<int>>, order: seq<int>)
    requires forall x :: x in order ==> Covered(zones, x)
    ensures WithIsolated(zones, order) == zones
  {
    if order != [] {
      var n := |order| - 1;
      NothingIsolated(zones, order[..n]);
      assert order[n] in order;
    }
  }

  /** As written the cut never finds a component of two nodes: for every graph, threshold and iteration order
      the zones are one per key, in iteration order. */
  lemma CutAsWritten(g: Graph, order: seq<int>, threshold: int)
    requires IterationOrder(g, order)
    ensures SccsOfCut(g, order) == Singletons(order)
    ensures Cut(SccsOfCut(g, order), order, threshold) == Singletons(order)
  {
    RootsIdle(g, order, Prefilled(g));
    assert SccsOfCut(g, order) == Singletons(order);
    KeptSingletons(order, threshold);
    if SizeAtLeast(1, threshold) {
      forall x | x in order ensures Covered(Singletons(order), x) {
        var i :| 0 <= i < |order| && order[i] == x;
        assert x in Singletons(order)[i];
      }
      NothingIsolated(Singletons(order), order);
    } else {
      IsolatedSingletons([], order);
    }
  }

  // ---------- when that is what the design promises ----------

  ghost predicate SameMembers(c: seq<int>, z: seq<int>) { forall x :: x in c <==> x in z }

  /** The promise: every strongly connected component that reaches the threshold is a zone. */
  ghost predicate LargeComponentsAreZones(g: Graph, zones: seq<seq<int>>, threshold: int) {
    forall c :: Component(g, c) && |c| >= threshold ==> exists z :: z in zones && SameMembers(c, z)
  }

  lemma MutualReachIsCycle(g: Graph, x: int, y: int)
    requires x != y && Reach(g, x, y) && Reach(g, y, x)
    ensures Cyclic(g)
  {
    var p :| PathBetween(g, p, x, y);
    var q :| PathBetween(g, q, y, x);
    var c := p + q[1..|q| - 1];
    forall i | 0 <= i < |c| - 1 ensures Edge(g, c[i], c[i + 1]) {
      if i >= |p| - 1 { assert Edge(g, q[i - |p| + 1], q[i - |p| + 2]); }
    }
    assert Edge(g, q[|q| - 2], q[|q| - 1]);
    assert ClosedWalk(g, c);
  }

  lemma CycleReachesBack(g: Graph, c: seq<int>)
    requires ClosedWalk(g, c)
    ensures Reach(g, c[0], c[|c| - 1]) && Reach(g, c[|c| - 1], c[0])
  {
    assert PathBetween(g, c, c[0], c[|c| - 1]);
    ReachEdge(g, c[|c| - 1], c[0]);
  }

  /** With the threshold in use the cut delivers the promised zones exactly when the graph has no cycle
      (the graphs it is given have no edge from a node to itself). */
  lemma PromiseKeptExactlyWhenAcyclic(g: Graph, order: seq<int>)
    requires IterationOrder(g, order) && forall x :: !Edge(g, x, x)
    ensures LargeComponentsAreZones(g, Cut(SccsOfCut(g, order), order, SCC_CUT_THRESHOLD), SCC_CUT_THRESHOLD)
      <==> !Cyclic(g)
  {
    CutAsWritten(g, order, SCC_CUT_THRESHOLD);
    hide SccsOfCut, Cut, Component, Cyclic;
    if Cyclic(g) {
      var d, x, y := LargeComponent(g, order);
      NoSuchZone(order, d, x, y);
    } else {
      forall c | Component(g, c) ensures |c| < 2 { ComponentsAreSmall(g, c); }
    }
  }

  lemma LargeComponent(g: Graph, order: seq<int>) returns (d: seq<int>, x: int, y: int)
    requires IterationOrder(g, order) && Cyclic(g) && forall x :: !Edge(g, x, x)
    ensures Component(g, d) && |d| >= 2 && x in d && y in d && x != y
  {
    var c :| ClosedWalk(g, c);
    x, y := c[0], c[|c| - 1];
    CycleReachesBack(g, c);
    ComponentsAreExact(g, order);
    EdgeInVertices(g, y, x);
    hide Vertices, Reach, Components;
    var lists := Components(g, order);
    var k :| 0 <= k < |lists| && x in lists[k];
    d := lists[k];
    TwoMembers(d, x, y);
  }

  lemma TwoMembers(d: seq<int>, x: int, y: int)
    requires x in d && y in d && x != y
    ensures |d| >= 2
  {
    var i :| 0 <= i < |d| && d[i] == x;
    var j :| 0 <= j < |d| && d[j] == y;
    assert i != j;
  }

  lemma ComponentsAreSmall(g: Graph, c: seq<int>)
    requires Component(g, c) && !Cyclic(g)
    ensures |c| < 2
  {
    hide Cyclic;
    if |c| >= 2 {
      assert c[0] in c && c[1] in c;
      MutualReachIsCycle(g, c[0], c[1]);
    }
  }

  lemma NoSuchZone(order: seq<int>, c: seq<int>, x: int, y: int)
    requires x in c && y in c && x != y
    ensures forall z :: z in Singletons(order) ==> !SameMembers(c, z)
  {
    forall z | z in Singletons(order) ensures !SameMembers(c, z) {
      assert |z| == 1;
      assert x !in z || y !in z;
    }
  }

  lemma SingletonOf(order: seq<int>, x: int)
    requires x in order
    ensures [x] in Singletons(order)
  {
    var i :| 0 <= i < |order| && order[i] == x;
    assert Singletons(order)[i] == [x];
  }

  const PAIR: Graph := map[1 := [2], 2 := [1]]

  /** Two nodes that wait for each other are a component that reaches the threshold, and the cut separates them. */
  lemma CutSeparatesAPair(order: seq<int>)
    requires IterationOrder(PAIR, order)
    ensures Component(PAIR, [1, 2]) && |[1, 2]| >= SCC_CUT_THRESHOLD
    ensures [1] in Cut(SccsOfCut(PAIR, order), order, SCC_CUT_THRESHOLD)
    ensures [2] in Cut(SccsOfCut(PAIR, order), order, SCC_CUT_THRESHOLD)
    ensures !LargeComponentsAreZones(PAIR, Cut(SccsOfCut(PAIR, order), order, SCC_CUT_THRESHOLD), SCC_CUT_THRESHOLD)
  {
    CutAsWritten(PAIR, order, SCC_CUT_THRESHOLD);
    hide SccsOfCut, Cut;
    PairIsComponent();
    hide Component, SameMembers;
    SingletonOf(order, 1);
    SingletonOf(order, 2);
    NoSuchZone(order, [1, 2], 1, 2);
  }

  lemma PairIsComponent()
    ensures Component(PAIR, [1, 2])
  {
    assert Edge(PAIR, 1, 2) && Edge(PAIR, 2, 1);
    ReachEdge(PAIR, 1, 2);
    ReachEdge(PAIR, 2, 1);
    ReachRefl(PAIR, 1);
    ReachRefl(PAIR, 2);
    forall z | Reach(PAIR, 1, z) || Reach(PAIR, 2, z) ensures z == 1 || z == 2 { PairIsClosed(z); }
    hide Reach;
  }

  lemma PairIsClosed(z: int)
    ensures Reach(PAIR, 1, z) || Reach(PAIR, 2, z) ==> z == 1 || z == 2
  {
    if Reach(PAIR, 1, z) {
      var p :| PathBetween(PAIR, p, 1, z);
      ClosedUnderReach(PAIR, {1, 2}, p);
    }
    if Reach(PAIR, 2, z) {
      var p :| PathBetween(PAIR, p, 2, z);
      ClosedUnderReach(PAIR, {1, 2}, p);
    }
  }

  // ---------- what the nodes make of the zones ----------

  /** The last zone that contains `node`, if any. */
  function MyZone(zones: seq<seq<NodeId>>, node: NodeId): Option<nat> {
    if zones == [] then None
    else
      var n := |zones| - 1;
      if node in zones[n] then Some(n) else MyZone(zones[..n], node)
  }

  /** Whatever the zones are, a node goes by the last one that has it. */
  lemma {:induction false} MyZoneIsTheLast(zones: seq<seq<NodeId>>, node: NodeId, i: nat)
    ensures MyZone(zones, node) == Some(i) <==>
      i < |zones| && node in zones[i] && forall k :: i < k < |zones| ==> node !in zones[k]
  {
    if zones != [] {
      var n := |zones| - 1;
      MyZoneIsTheLast(zones[..n], node, i);
    }
  }

  function LeaderSeenBy(zones: seq<seq<NodeId>>, leaders: seq<NodeId>, node: NodeId): NodeId
    requires |leaders| >= |zones|
  {
    var z := MyZone(zones, node);
    if z.Some? && z.value < |leaders| then leaders[z.value] else 0
  }

  function MembersSeenBy(zones: seq<seq<NodeId>>, node: NodeId): seq<NodeId> {
    var z := MyZone(zones, node);
    if z.Some? && z.value < |zones| then zones[z.value] else []
  }

  /** Once all members of a zone have received disjoint zones led by their least members, they agree on their zone
      and its leader, and exactly one of them considers itself the leader. */
  lemma MembersAgree(zones: seq<seq<NodeId>>, leaders: seq<NodeId>, i: nat)
    requires Disjoint(zones) && LedByLeast(zones, leaders) && i < |zones|
    ensures forall n :: n in zones[i] ==>
      LeaderSeenBy(zones, leaders, n) == leaders[i] && MembersSeenBy(zones, n) == zones[i]
    ensures leaders[i] in zones[i]
    ensures forall n :: n in zones[i] ==> (LeaderSeenBy(zones, leaders, n) == n <==> n == leaders[i])
  {
    forall n | n in zones[i] ensures MyZone(zones, n) == Some(i) {
      MyZoneIsTheLast(zones, n, i);
      forall k | i < k < |zones| ensures n !in zones[k] {}
    }
  }

  /** A node in no zone ends up without a leader. */
  lemma Unassigned(zones: seq<seq<NodeId>>, leaders: seq<NodeId>, node: NodeId)
    requires |leaders| >= |zones| && !Covered(zones, node)
    ensures LeaderSeenBy(zones, leaders, node) == 0 && MembersSeenBy(zones, node) == []
  {
    NoZone(zones, node);
  }

  lemma {:induction false} NoZone(zones: seq<seq<NodeId>>, node: NodeId)
    requires forall k :: 0 <= k < |zones| ==> node !in zones[k]
    ensures MyZone(zones, node).None?
  {
    if zones != [] { NoZone(zones[..|zones| - 1], node); }
  }
}
