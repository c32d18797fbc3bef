/** A graph outside the condition under which the cycle search always returns: whether it returns there depends on the
    order in which a hash map is iterated, so no condition on the graph alone is exact. */
module Tangle {
  import opened Commons
  import opened Graphs
  import opened DetectorModel
  import opened DetectorTheorems

  // ---------- one step of the search on any graph ----------

  /** The loop over a single successor. */
  lemma OneSuccessor(g: Graph, u: int, s: Search, r: Search)
    requires Valid(g, s) && Valid(g, r) && u in Vertices(g) && OutDegree(g, u) == 1 && Edge(g, u, g[u][0])
    requires Visit(g, u, g[u][0], s) == Returns(r)
    ensures Edges(g, u, 0, s) == Returns(r)
  {
    hide Visit, Vertices, Valid;
    assert Edges(g, u, 1, r) == Returns(r);
  }

  /** The loop over two successors. */
  lemma TwoSuccessors(g: Graph, u: int, s: Search, m: Search, r: Search)
    requires Valid(g, s) && Valid(g, m) && Valid(g, r) && u in Vertices(g) && OutDegree(g, u) == 2
    requires Edge(g, u, g[u][0]) && Edge(g, u, g[u][1])
    requires Visit(g, u, g[u][0], s) == Returns(m) && Visit(g, u, g[u][1], m) == Returns(r)
    ensures Edges(g, u, 0, s) == Returns(r)
  {
    hide Visit, Vertices, Valid;
    assert Edges(g, u, 2, r) == Returns(r);
    assert Edges(g, u, 1, m) == Returns(r);
  }

  lemma Activation(g: Graph, u: int, s: Search, r: Search)
    requires Valid(g, s) && u in Vertices(g) && u in s.budget && Valid(g, Enter(u, s)) && u in r.onStack
    requires Edges(g, u, 0, Enter(u, s)) == Returns(r)
    ensures Dfs(g, u, s) == Returns(r.(onStack := r.onStack[u := false]))
  {
    hide Edges, Vertices, Valid;
  }

  // ---------- a graph on which the search may never return ----------

  const TANGLE: Graph := map[1 := [2], 2 := [3, 1], 3 := [2], 4 := [2]]

  lemma TangleEdges(w: int, t: int)
    ensures Edge(TANGLE, w, t) <==>
      (w == 1 && t == 2) || (w == 2 && (t == 1 || t == 3)) || (w == 3 && t == 2) || (w == 4 && t == 2)
  {
  }

  lemma TangleIsTidy()
    ensures forall w :: w in TANGLE ==> Distinct(TANGLE[w]) && TANGLE[w] != []
  {
  }

  lemma TangleVertices()
    ensures Vertices(TANGLE) == {1, 2, 3, 4}
  {
    assert TANGLE[1][0] == 2 && TANGLE[2][0] == 3 && TANGLE[2][1] == 1;
  }

  lemma TangleDegrees()
    ensures InDegree(TANGLE, 1) == 1 && InDegree(TANGLE, 2) == 3
    ensures InDegree(TANGLE, 3) == 1 && InDegree(TANGLE, 4) == 0
  {
    hide Vertices;
    assert (set u, i | u in TANGLE && 0 <= i < |TANGLE[u]| && TANGLE[u][i] == 1 :: (u, i)) == {(2, 1)};
    assert (set u, i | u in TANGLE && 0 <= i < |TANGLE[u]| && TANGLE[u][i] == 2 :: (u, i)) == {(1, 0), (3, 0), (4, 0)};
    assert (set u, i | u in TANGLE && 0 <= i < |TANGLE[u]| && TANGLE[u][i] == 3 :: (u, i)) == {(2, 0)};
    assert (set u, i | u in TANGLE && 0 <= i < |TANGLE[u]| && TANGLE[u][i] == 4 :: (u, i)) == {};
  }

  lemma TangleBudget()
    ensures Initial(TANGLE).budget == map[1 := 1, 2 := 2, 3 := 1, 4 := 2]
  {
    TangleVertices();
    TangleDegrees();
    hide Vertices, InDegree;
  }

  /** Vertex 2 has three edges in and two out, and both 1 and 3 wait for it in a cycle. */
  lemma TangleIsAmbiguous()
    ensures !Unambiguous(TANGLE)
  {
    TangleDegrees();
    hide InDegree, Vertices;
    assert ClosedWalk(TANGLE, [1, 2]);
    assert 2 in [1, 2];
    ReachEdge(TANGLE, 2, 1);
    ReachEdge(TANGLE, 2, 3);
    hide Reach;
    assert Edge(TANGLE, 1, 2) && Edge(TANGLE, 3, 2);
    assert !OnePredecessor(TANGLE, 2);
  }

  /** The second activation of vertex 2 overwrites its `parent` entry while the first is open; the walk
      that should lead from 2 back to 1 then alternates between 2 and 3 for ever. */
  lemma TangleHangs()
    ensures 0 !in Vertices(TANGLE) && IterationOrder(TANGLE, [1, 2, 3, 4])
    ensures FindCycles(TANGLE, [1, 2, 3, 4]).Hangs?
  {
    TangleVertices();
    TangleBudget();
    InitialIsReady();
    hide Vertices, InDegree, Initial, Visit, Edges, Dfs, Valid;
    FirstHangs(Initial(TANGLE));
  }

  lemma ActivationHangs(g: Graph, u: int, s: Search)
    requires Valid(g, s) && u in Vertices(g) && u in s.budget && Valid(g, Enter(u, s))
    requires OutDegree(g, u) >= 1 && Edge(g, u, g[u][0])
    requires Visit(g, u, g[u][0], Enter(u, s)).Hangs?
    ensures Dfs(g, u, s).Hangs?
  {
    hide Visit, Vertices, Valid;
    assert Edges(g, u, 0, Enter(u, s)).Hangs?;
  }

  lemma SecondHangs(g: Graph, u: int, s: Search, m: Search)
    requires Valid(g, s) && u in Vertices(g) && u in s.budget && Valid(g, Enter(u, s)) && Valid(g, m)
    requires OutDegree(g, u) == 2 && Edge(g, u, g[u][0]) && Edge(g, u, g[u][1])
    requires Visit(g, u, g[u][0], Enter(u, s)) == Returns(m) && Visit(g, u, g[u][1], m).Hangs?
    ensures Dfs(g, u, s).Hangs?
  {
    hide Visit, Vertices, Valid;
    assert Edges(g, u, 1, m).Hangs?;
    assert Edges(g, u, 0, Enter(u, s)).Hangs?;
  }

  lemma FirstHangs(s: Search)
    requires Ready(s) && s.budget[1] == 1 && s.budget[2] == 2 && s.budget[3] == 1
    ensures 1 in Vertices(TANGLE) && Dfs(TANGLE, 1, s).Hangs?
  {
    assert Edge(TANGLE, 1, 2) && Edge(TANGLE, 2, 1) && OutDegree(TANGLE, 1) == 1 && TANGLE[1][0] == 2;
    ReadyEnter(s, 1);
    var t := Enter(1, s);
    ReadyFollow(t, 1, 2);
    hide Valid, Vertices, Dfs, Edges, Visit, Edge, OutDegree, ParentsInside;
    Enters(TANGLE, 1, 2, t);
    MiddleHangs(Follow(t, 1, 2));
    ActivationHangs(TANGLE, 1, s);
  }

  lemma MiddleHangs(s: Search)
    requires Ready(s) && s.budget[1] == 0 && s.budget[2] == 2 && s.budget[3] == 1 && s.onStack[1]
    ensures 2 in Vertices(TANGLE) && Dfs(TANGLE, 2, s).Hangs?
  {
    assert Edge(TANGLE, 1, 2) && Edge(TANGLE, 2, 3) && OutDegree(TANGLE, 2) == 2 && TANGLE[2][0] == 3;
    ReadyEnter(s, 2);
    var t := Enter(2, s);
    ReadyFollow(t, 2, 3);
    hide Valid, Vertices, Dfs, Edges, Visit, Edge, OutDegree, ParentsInside;
    Enters(TANGLE, 2, 3, t);
    InnerHangs(Follow(t, 2, 3));
    ActivationHangs(TANGLE, 2, s);
  }

  lemma InnerHangs(s: Search)
    requires Ready(s) && s.budget[1] == 0 && s.budget[2] == 1 && s.budget[3] == 1 && s.onStack[1] && s.parent[3] == 2
    ensures 3 in Vertices(TANGLE) && Dfs(TANGLE, 3, s).Hangs?
  {
    assert Edge(TANGLE, 2, 3) && Edge(TANGLE, 3, 2) && OutDegree(TANGLE, 3) == 1 && TANGLE[3][0] == 2;
    ReadyEnter(s, 3);
    var t := Enter(3, s);
    ReadyFollow(t, 3, 2);
    hide Valid, Vertices, Dfs, Edges, Visit, Edge, OutDegree, ParentsInside;
    Enters(TANGLE, 3, 2, t);
    InnermostHangs(Follow(t, 3, 2));
    ActivationHangs(TANGLE, 3, s);
  }

  lemma InnermostHangs(s: Search)
    requires Ready(s) && s.budget[1] == 0 && s.budget[2] == 1 && s.budget[3] == 0 && s.onStack[1] && s.onStack[3]
    requires s.parent[2] == 3 && s.parent[3] == 2
    ensures 2 in Vertices(TANGLE) && Dfs(TANGLE, 2, s).Hangs?
  {
    assert Edge(TANGLE, 2, 3) && Edge(TANGLE, 2, 1) && Edge(TANGLE, 3, 2) && OutDegree(TANGLE, 2) == 2;
    assert TANGLE[2][0] == 3 && TANGLE[2][1] == 1;
    ReadyEnter(s, 2);
    var t := Enter(2, s);
    ReadyRecord(t, [2, 3]);
    var m := Record(t, [2, 3]);
    ReadyRecord(m, []);
    ReadyFollow(m, 2, 1);
    hide Valid, Vertices, Dfs, Edges, Visit, Reverse, Bump, Edge, OutDegree, ParentWalk, ParentsInside;
    TangledWalk(t.parent);
    Hits(TANGLE, 2, 3, t, [2, 3]);
    WalkNeverEnds(TANGLE, 2, 1, m);
    SecondHangs(TANGLE, 2, s, m);
  }

  lemma TangledWalk(parent: map<int, int>)
    requires ParentsInside(parent) && 2 in parent && 3 in parent && parent[2] == 3 && parent[3] == 2
    ensures ParentWalk(parent, 2, 3, {}) == Some([2, 3])
    ensures ParentWalk(parent, 2, 1, {}).None?
  {
    var none: set<int> := {};
    assert none + {2} == {2} && {2} + {3} == {2, 3};
    assert ParentWalk(parent, 3, 3, {2}) == Some([3]);
    assert [2] + [3] == [2, 3];
    assert ParentWalk(parent, 2, 1, {2, 3}).None?;
    assert ParentWalk(parent, 3, 1, {2}).None?;
  }

  // ---------- another iteration order ----------

  ghost predicate Ready(s: Search) {
    && Valid(TANGLE, s)
    && forall x :: 1 <= x <= 4 ==> x in Vertices(TANGLE) && x in s.budget && x in s.onStack && x in s.parent
  }

  lemma ReadyEnter(s: Search, u: int)
    requires Ready(s) && 1 <= u <= 4
    ensures Ready(Enter(u, s))
  {
    hide Vertices;
  }

  lemma ReadyFollow(s: Search, u: int, v: int)
    requires Ready(s) && Edge(TANGLE, u, v)
    ensures Ready(Follow(s, u, v))
  {
    EdgeInVertices(TANGLE, u, v);
    hide Vertices;
  }

  lemma ReadyRecord(s: Search, walk: seq<int>)
    requires Ready(s)
    ensures Ready(Record(s, walk)) && ParentsInside(s.parent)
  {
    ParentsInRange(TANGLE, s);
    hide Vertices, Reverse;
  }

  lemma ReadyExit(s: Search, u: int)
    requires Ready(s) && 1 <= u <= 4
    ensures Ready(s.(onStack := s.onStack[u := false]))
  {
    hide Vertices;
  }

  lemma WalkOfTwo(parent: map<int, int>, u: int, v: int)
    requires ParentsInside(parent) && u in parent && v in parent && parent[u] == v && u != v
    ensures ParentWalk(parent, u, v, {}) == Some([u, v])
  {
    assert ParentWalk(parent, v, v, {} + {u}) == Some([v]);
    assert [u] + [v] == [u, v];
  }

  /** The activation of 1 from 2 when 2 is open and has no visit left. */
  lemma InnerOne(s: Search) returns (r: Search)
    requires Ready(s) && s.budget[2] <= 0 && s.onStack[2] && s.parent[1] == 2
    ensures 1 in Vertices(TANGLE) && Dfs(TANGLE, 1, s) == Returns(r) && Ready(r)
    ensures r.budget[1] == s.budget[1] - 1 && r.budget[2] == s.budget[2] && r.budget[3] == s.budget[3] && !r.onStack[1]
  {
    assert Edge(TANGLE, 1, 2) && Edge(TANGLE, 2, 1) && OutDegree(TANGLE, 1) == 1 && TANGLE[1][0] == 2;
    ReadyEnter(s, 1);
    var t := Enter(1, s);
    ReadyRecord(t, [1, 2]);
    var m := Record(t, [1, 2]);
    ReadyExit(m, 1);
    hide Valid, Vertices, Dfs, Edges, Visit, Reverse, Bump, Edge, OutDegree, ParentWalk, ParentsInside;
    WalkOfTwo(t.parent, 1, 2);
    Hits(TANGLE, 1, 2, t, [1, 2]);
    OneSuccessor(TANGLE, 1, t, m);
    Activation(TANGLE, 1, s, m);
    r := m.(onStack := m.onStack[1 := false]);
  }

  /** The second activation of 2, from 3. */
  lemma InnerTwo(s: Search) returns (r: Search)
    requires Ready(s) && s.budget[1] == 1 && s.budget[2] == 1 && s.budget[3] == 0 && s.onStack[3]
    requires s.parent[2] == 3 && s.parent[3] == 2
    ensures 2 in Vertices(TANGLE) && Dfs(TANGLE, 2, s) == Returns(r) && Ready(r)
    ensures r.budget[1] == 0 && r.budget[2] == 0 && r.budget[3] == 0 && !r.onStack[1] && !r.onStack[2]
  {
    assert Edge(TANGLE, 2, 3) && Edge(TANGLE, 2, 1) && Edge(TANGLE, 3, 2) && OutDegree(TANGLE, 2) == 2;
    assert TANGLE[2][0] == 3 && TANGLE[2][1] == 1;
    ReadyEnter(s, 2);
    var t := Enter(2, s);
    ReadyRecord(t, [2, 3]);
    var m := Record(t, [2, 3]);
    ReadyRecord(m, []);
    ReadyFollow(m, 2, 1);
    hide Valid, Vertices, Dfs, Edges, Visit, Reverse, Bump, Edge, OutDegree, ParentWalk, ParentsInside;
    WalkOfTwo(t.parent, 2, 3);
    Hits(TANGLE, 2, 3, t, [2, 3]);
    Enters(TANGLE, 2, 1, m);
    var n := InnerOne(Follow(m, 2, 1));
    TwoSuccessors(TANGLE, 2, t, m, n);
    Activation(TANGLE, 2, s, n);
    ReadyExit(n, 2);
    r := n.(onStack := n.onStack[2 := false]);
  }

  /** The activation of 3, from 2. */
  lemma MiddleThree(s: Search) returns (r: Search)
    requires Ready(s) && s.budget[1] == 1 && s.budget[2] == 1 && s.budget[3] == 1 && s.parent[3] == 2
    ensures 3 in Vertices(TANGLE) && Dfs(TANGLE, 3, s) == Returns(r) && Ready(r)
    ensures r.budget[1] == 0 && r.budget[2] == 0 && !r.onStack[1]
  {
    assert Edge(TANGLE, 2, 3) && Edge(TANGLE, 3, 2) && OutDegree(TANGLE, 3) == 1 && TANGLE[3][0] == 2;
    ReadyEnter(s, 3);
    var t := Enter(3, s);
    ReadyFollow(t, 3, 2);
    hide Valid, Vertices, Dfs, Edges, Visit, Reverse, Bump, Edge, OutDegree, ParentWalk, ParentsInside;
    Enters(TANGLE, 3, 2, t);
    var n := InnerTwo(Follow(t, 3, 2));
    OneSuccessor(TANGLE, 3, t, n);
    Activation(TANGLE, 3, s, n);
    ReadyExit(n, 3);
    r := n.(onStack := n.onStack[3 := false]);
  }

  /** The first activation, of 2: afterwards 2 has no visit left and is closed. */
  lemma OuterTwo(s: Search) returns (r: Search)
    requires Ready(s) && s.budget[1] == 1 && s.budget[2] == 2 && s.budget[3] == 1
    ensures 2 in Vertices(TANGLE) && Dfs(TANGLE, 2, s) == Returns(r) && Ready(r)
    ensures r.budget[2] == 0 && !r.onStack[2]
  {
    assert Edge(TANGLE, 2, 3) && Edge(TANGLE, 2, 1) && Edge(TANGLE, 3, 2) && OutDegree(TANGLE, 2) == 2;
    assert TANGLE[2][0] == 3 && TANGLE[2][1] == 1;
    ReadyEnter(s, 2);
    var t := Enter(2, s);
    ReadyFollow(t, 2, 3);
    hide Valid, Vertices, Dfs, Edges, Visit, Reverse, Bump, Edge, OutDegree, ParentWalk, ParentsInside;
    Enters(TANGLE, 2, 3, t);
    var m := MiddleThree(Follow(t, 2, 3));
    Skips(TANGLE, 2, 1, m);
    TwoSuccessors(TANGLE, 2, t, m, m);
    Activation(TANGLE, 2, s, m);
    ReadyExit(m, 2);
    r := m.(onStack := m.onStack[2 := false]);
  }

  /** A later root finds 2 closed and without a visit left. */
  lemma LaterRoot(u: int, s: Search) returns (r: Search)
    requires Ready(s) && u in {1, 3, 4} && s.budget[2] == 0 && !s.onStack[2]
    ensures u in Vertices(TANGLE) && Dfs(TANGLE, u, s) == Returns(r) && Ready(r) && r.budget[2] == 0 && !r.onStack[2]
  {
    assert Edge(TANGLE, u, 2) && OutDegree(TANGLE, u) == 1 && TANGLE[u][0] == 2;
    ReadyEnter(s, u);
    var t := Enter(u, s);
    hide Valid, Vertices, Dfs, Edges, Visit, Edge, OutDegree, ParentsInside;
    Skips(TANGLE, u, 2, t);
    OneSuccessor(TANGLE, u, t, t);
    Activation(TANGLE, u, s, t);
    ReadyExit(t, u);
    r := t.(onStack := t.onStack[u := false]);
  }

  lemma {:induction false} LaterRoots(roots: seq<int>, s: Search)
    requires Ready(s) && s.budget[2] == 0 && !s.onStack[2]
    requires forall x :: x in roots ==> x in TANGLE && (x == 1 || x == 3 || x == 4)
    ensures Roots(TANGLE, roots, s).Returns?
    decreases |roots|
  {
    hide Valid, Vertices, Dfs;
    if roots != [] {
      var u := roots[0];
      assert u in roots;
      var r := LaterRoot(u, s);
      forall x | x in roots[1..] ensures x in roots {}
      LaterRoots(roots[1..], r);
    }
  }

  lemma AllRoots(s: Search)
    requires Ready(s) && s.budget[1] == 1 && s.budget[2] == 2 && s.budget[3] == 1
    ensures Roots(TANGLE, [2, 1, 3, 4], s).Returns?
  {
    hide Valid, Vertices, Dfs;
    var r := OuterTwo(s);
    var rest := [1, 3, 4];
    assert [2, 1, 3, 4][1..] == rest;
    forall x | x in rest ensures x in TANGLE && (x == 1 || x == 3 || x == 4) {}
    LaterRoots(rest, r);
  }

  /** Started from 2 the same search returns. */
  lemma TangleReturns()
    ensures 0 !in Vertices(TANGLE) && IterationOrder(TANGLE, [2, 1, 3, 4])
    ensures FindCycles(TANGLE, [2, 1, 3, 4]).Returns?
  {
    TangleVertices();
    TangleBudget();
    InitialIsReady();
    hide Vertices, Initial, Roots, Valid;
    AllRoots(Initial(TANGLE));
  }

  lemma InitialIsReady()
    ensures Ready(Initial(TANGLE))
  {
    TangleVertices();
    hide InDegree;
  }

  /** The two sides of the condition: outside it, one and the same graph makes the search run for ever in one iteration
      order and lets it return in another. */
  lemma OutsideEitherMayHappen()
    ensures !Unambiguous(TANGLE)
    ensures 0 !in Vertices(TANGLE) && IterationOrder(TANGLE, [1, 2, 3, 4]) && IterationOrder(TANGLE, [2, 1, 3, 4])
    ensures FindCycles(TANGLE, [1, 2, 3, 4]).Hangs? && FindCycles(TANGLE, [2, 1, 3, 4]).Returns?
  {
    hide Unambiguous, Vertices, FindCycles;
    TangleIsAmbiguous();
    TangleHangs();
    TangleReturns();
  }

  const ORDINARY: Graph := map[1 := [2], 2 := [1], 3 := [2]]

  /** The ordinary deadlock, two transactions waiting for each other and a third for one of them, is inside it: the
      search returns and reports it in every iteration order. */
  lemma OrdinaryDeadlockIsFound(order: seq<int>)
    requires IterationOrder(ORDINARY, order)
    ensures 0 !in Vertices(ORDINARY) && FindCycles(ORDINARY, order).Returns?
    ensures FindCycles(ORDINARY, order).search.cycles != []
  {
    assert ClosedWalk(ORDINARY, [1, 2]);
    SingleSuccessorsReturn(ORDINARY, order);
    hide FindCycles;
    DetectorDecidesCyclicity(ORDINARY, order);
  }
}
