/** What the cycle search reports: which cycles, when it reports any, and when it returns at all. */
module DetectorTheorems {
  import opened Commons
  import opened Graphs
  import opened DetectorModel

  // ---------- the parent walk ----------

  lemma {:induction false} WalkShape(parent: map<int, int>, curr: int, target: int, seen: set<int>)
    requires curr in parent.Keys + {0} && ParentsInside(parent) && target !in seen
    requires ParentWalk(parent, curr, target, seen).Some?
    ensures var w := ParentWalk(parent, curr, target, seen).value;
      && |w| >= 1 && w[0] == curr && w[|w| - 1] == target && Distinct(w)
      && (forall i :: 0 <= i < |w| ==> w[i] !in seen)
      && (forall i :: 0 <= i < |w| - 1 ==> w[i + 1] == OrZero(parent, w[i]))
    decreases parent.Keys + {0} - seen
  {
    if curr != target {
      WalkShape(parent, OrZero(parent, curr), target, seen + {curr});
    }
  }

  /** A walk that ends collects a simple directed cycle, closing edge included. */
  lemma WalkIsCycle(g: Graph, s: Search, u: int, v: int)
    requires Valid(g, s) && Edge(g, u, v)
    requires u in s.parent && ParentsInside(s.parent)
    requires ParentWalk(s.parent, u, v, {}).Some?
    ensures var w := ParentWalk(s.parent, u, v, {}).value; SimpleCycle(g, Reverse(w)) && Distinct(w)
  {
    EdgeInVertices(g, u, v);
    WalkShape(s.parent, u, v, {});
    var w := ParentWalk(s.parent, u, v, {}).value;
    var c := Reverse(w);
    assert OrZero(s.parent, 0) == 0;
    assert forall i :: 0 <= i < |w| - 1 ==> w[i] != w[i + 1];
    forall i | 0 <= i < |c| - 1 ensures Edge(g, c[i], c[i + 1]) {
      var j := |w| - 2 - i;
      assert c[i] == w[j + 1] && c[i + 1] == w[j];
      assert w[j + 1] == OrZero(s.parent, w[j]);
      if j + 1 < |w| - 1 { assert w[j + 2] == OrZero(s.parent, w[j + 1]); }
    }
  }

  ghost function Iterate(parent: map<int, int>, x: int, n: nat): int
    decreases n
  {
    if n == 0 then x else Iterate(parent, OrZero(parent, x), n - 1)
  }

  /** Following `parent` from a vertex of `seen` leads to vertices of `seen` or on through `curr`. */
  lemma {:induction false} SeenReturns(parent: map<int, int>, seen: seq<int>, curr: int, target: int, k: nat, n: nat)
    requires forall i :: 0 <= i < |seen| ==> seen[i] != target
    requires forall i :: 0 <= i < |seen| - 1 ==> seen[i + 1] == OrZero(parent, seen[i])
    requires |seen| > 0 && OrZero(parent, seen[|seen| - 1]) == curr && curr in seen && k < |seen|
    ensures Iterate(parent, seen[k], n) != target
    decreases n
  {
    if n > 0 {
      if k + 1 < |seen| {
        SeenReturns(parent, seen, curr, target, k + 1, n - 1);
      } else {
        var j :| 0 <= j < |seen| && seen[j] == curr;
        SeenReturns(parent, seen, curr, target, j, n - 1);
      }
    }
  }

  lemma {:induction false} WalkNone(parent: map<int, int>, curr: int, target: int, path: seq<int>, n: nat)
    requires curr in parent.Keys + {0} && ParentsInside(parent)
    requires forall i :: 0 <= i < |path| ==> path[i] != target
    requires forall i :: 0 <= i < |path| - 1 ==> path[i + 1] == OrZero(parent, path[i])
    requires |path| > 0 ==> OrZero(parent, path[|path| - 1]) == curr
    requires ParentWalk(parent, curr, target, set x | x in path).None?
    ensures Iterate(parent, curr, n) != target
    decreases parent.Keys + {0} - set x | x in path
  {
    if curr in path {
      var k :| 0 <= k < |path| && path[k] == curr;
      SeenReturns(parent, path, curr, target, k, n);
    } else if n > 0 {
      var longer := path + [curr];
      assert (set x | x in longer) == (set x | x in path) + {curr};
      WalkNone(parent, OrZero(parent, curr), target, longer, n - 1);
    }
  }

  lemma {:induction false} WalkSome(parent: map<int, int>, curr: int, target: int, seen: set<int>) returns (n: nat)
    requires curr in parent.Keys + {0} && ParentsInside(parent)
    requires ParentWalk(parent, curr, target, seen).Some?
    ensures Iterate(parent, curr, n) == target
    decreases parent.Keys + {0} - seen
  {
    if curr == target {
      n := 0;
    } else {
      var m := WalkSome(parent, OrZero(parent, curr), target, seen + {curr});
      n := m + 1;
    }
  }

  /** `Hangs` is exact: the walk has no result exactly when following `parent` never meets the target. */
  lemma WalkEndsExactly(parent: map<int, int>, curr: int, target: int)
    requires curr in parent.Keys + {0} && ParentsInside(parent)
    ensures ParentWalk(parent, curr, target, {}).Some? <==> exists n: nat :: Iterate(parent, curr, n) == target
  {
    ghost var none: seq<int> := [];
    assert (set x | x in none) == {};
    if ParentWalk(parent, curr, target, {}).Some? {
      var n := WalkSome(parent, curr, target, {});
    } else {
      forall n: nat ensures Iterate(parent, curr, n) != target {
        WalkNone(parent, curr, target, none, n);
      }
    }
  }

  // ---------- recorded cycles are real, frequencies are exact ----------

  ghost function Containing(cycles: seq<seq<int>>, x: int): nat {
    if cycles == [] then 0
    else Containing(cycles[..|cycles| - 1], x) + if x in cycles[|cycles| - 1] then 1 else 0
  }

  ghost predicate Faithful(g: Graph, s: Search) {
    && (forall c :: c in s.cycles ==> SimpleCycle(g, c))
    && (forall x :: x in s.frequency ==> s.frequency[x] == Containing(s.cycles, x))
  }

  lemma ReverseMembers(p: seq<int>, x: int)
    ensures x in Reverse(p) <==> x in p
  {
    if i :| 0 <= i < |p| && p[i] == x { assert Reverse(p)[|p| - 1 - i] == x; }
  }

  lemma RecordFaithful(g: Graph, s: Search, u: int, v: int)
    requires Valid(g, s) && Faithful(g, s) && Edge(g, u, v) && u in s.parent && ParentsInside(s.parent)
    requires ParentWalk(s.parent, u, v, {}).Some?
    ensures Faithful(g, Record(s, ParentWalk(s.parent, u, v, {}).value))
  {
    WalkIsCycle(g, s, u, v);
    var w := ParentWalk(s.parent, u, v, {}).value;
    var t := Record(s, w);
    assert t.cycles[..|t.cycles| - 1] == s.cycles;
    forall x | x in t.frequency ensures t.frequency[x] == Containing(t.cycles, x) {
      DistinctCount(w, x);
      ReverseMembers(w, x);
    }
  }

  lemma {:induction false} DfsFaithful(g: Graph, u: int, s: Search)
    requires Valid(g, s) && u in Vertices(g) && Faithful(g, s)
    ensures Dfs(g, u, s).Returns? ==> Faithful(g, Dfs(g, u, s).search)
    decreases Tokens(Enter(u, s).budget), 2 * OutDegree(g, u) + 2
  {
    EdgesFaithful(g, u, 0, Enter(u, s));
  }

  lemma {:induction false} EdgesFaithful(g: Graph, u: int, i: nat, s: Search)
    requires Valid(g, s) && u in Vertices(g) && i <= OutDegree(g, u) && Faithful(g, s)
    ensures Edges(g, u, i, s).Returns? ==> Faithful(g, Edges(g, u, i, s).search)
    decreases Tokens(s.budget), 2 * (OutDegree(g, u) - i) + 1
  {
    if i < OutDegree(g, u) {
      var r := Visit(g, u, g[u][i], s);
      VisitFaithful(g, u, g[u][i], s);
      if r.Returns? { EdgesFaithful(g, u, i + 1, r.search); }
    }
  }

  lemma {:induction false} VisitFaithful(g: Graph, u: int, v: int, s: Search)
    requires Valid(g, s) && Edge(g, u, v) && Faithful(g, s)
    ensures Visit(g, u, v, s).Returns? ==> Faithful(g, Visit(g, u, v, s).search)
    decreases Tokens(s.budget), 0
  {
    EdgeInVertices(g, u, v);
    if s.budget[v] > 0 {
      EnterSpends(v, s);
      assert Enter(v, Follow(s, u, v)).budget == Enter(v, s).budget;
      DfsFaithful(g, v, Follow(s, u, v));
    } else if s.onStack[v] {
      ParentsInRange(g, s);
      if ParentWalk(s.parent, u, v, {}).Some? { RecordFaithful(g, s, u, v); }
    }
  }

  lemma {:induction false} RootsFaithful(g: Graph, roots: seq<int>, s: Search)
    requires Valid(g, s) && Faithful(g, s) && forall x :: x in roots ==> x in g
    ensures Roots(g, roots, s).Returns? ==> Faithful(g, Roots(g, roots, s).search)
    decreases |roots|
  {
    if roots != [] {
      DfsFaithful(g, roots[0], s);
      var r := Dfs(g, roots[0], s);
      if r.Returns? { RootsFaithful(g, roots[1..], r.search); }
    }
  }

  /** Every reported cycle is a simple directed cycle of the graph, and the frequency of a vertex is the
      number of reported cycles through it. */
  lemma ReportedCyclesAreReal(g: Graph, order: seq<int>)
    requires 0 !in Vertices(g) && IterationOrder(g, order)
    ensures FindCycles(g, order).Returns? ==> Faithful(g, FindCycles(g, order).search)
  {
    RootsFaithful(g, order, Initial(g));
  }

  // ---------- one visit ----------

  lemma Enters(g: Graph, u: int, v: int, s: Search)
    requires Valid(g, s) && Edge(g, u, v) && v in s.budget && s.budget[v] > 0
    ensures v in Vertices(g) && Valid(g, Follow(s, u, v)) && Visit(g, u, v, s) == Dfs(g, v, Follow(s, u, v))
  {
    EdgeInVertices(g, u, v);
    hide Vertices, Dfs;
  }

  lemma Hits(g: Graph, u: int, v: int, s: Search, walk: seq<int>)
    requires Valid(g, s) && Edge(g, u, v) && v in s.budget && s.budget[v] <= 0 && v in s.onStack && s.onStack[v]
    requires ParentsInside(s.parent) && u in s.parent && ParentWalk(s.parent, u, v, {}) == Some(walk)
    ensures Visit(g, u, v, s) == Returns(Record(s, walk)) && Valid(g, Record(s, walk))
  {
    EdgeInVertices(g, u, v);
    hide Vertices, Dfs, ParentWalk, Reverse, Bump;
  }

  lemma Skips(g: Graph, u: int, v: int, s: Search)
    requires Valid(g, s) && Edge(g, u, v) && v in s.budget && s.budget[v] <= 0 && v in s.onStack && !s.onStack[v]
    ensures Visit(g, u, v, s) == Returns(s)
  {
    EdgeInVertices(g, u, v);
    hide Vertices, Dfs;
  }

  lemma WalkNeverEnds(g: Graph, u: int, v: int, s: Search)
    requires Valid(g, s) && Edge(g, u, v) && v in s.budget && s.budget[v] <= 0 && v in s.onStack && s.onStack[v]
    requires ParentsInside(s.parent) && u in s.parent && ParentWalk(s.parent, u, v, {}).None?
    ensures Visit(g, u, v, s).Hangs?
  {
    EdgeInVertices(g, u, v);
    hide Vertices, Dfs, ParentWalk;
  }

  // ---------- what must be reported: every cycle is cut ----------

  /** Some reported cycle is closed by the edge from `x` to `y`. */
  ghost predicate ClosedBy(cycles: seq<seq<int>>, x: int, y: int) {
    exists k :: 0 <= k < |cycles| && Closes(cycles[k], x, y)
  }

  ghost predicate Closes(c: seq<int>, x: int, y: int) { c != [] && c[|c| - 1] == x && c[0] == y }

  /** A reverse topological order, but for the edges that close reported cycles. */
  ghost predicate OrderedBut(g: Graph, cycles: seq<seq<int>>, order: seq<int>) {
    && Distinct(order)
    && forall i, y :: 0 <= i < |order| && Edge(g, order[i], y) ==> y in order[..i] || ClosedBy(cycles, order[i], y)
  }

  /** `exited` are the vertices in the order of their first exit.  A vertex that may not be entered again but never
      exited is still marked. */
  ghost predicate Exits(g: Graph, s: Search, exited: seq<int>) {
    && OrderedBut(g, s.cycles, exited)
    && forall x :: x in s.budget && s.budget[x] <= 0 && x !in exited ==> x in s.onStack && s.onStack[x]
  }

  ghost predicate Grown(p: seq<int>, q: seq<int>) { forall x :: x in p ==> x in q }

  /** The first n successors of `u` have exited, or a reported cycle is closed by the edge to them. */
  ghost predicate FirstDone(g: Graph, u: int, n: nat, p: seq<int>, cycles: seq<seq<int>>) {
    forall j :: 0 <= j < n && j < OutDegree(g, u) ==> g[u][j] in p || ClosedBy(cycles, u, g[u][j])
  }

  lemma ClosedStays(before: seq<seq<int>>, after: seq<seq<int>>, x: int, y: int)
    requires before <= after
    ensures ClosedBy(before, x, y) ==> ClosedBy(after, x, y)
  {
    if ClosedBy(before, x, y) {
      var k :| 0 <= k < |before| && Closes(before[k], x, y);
      assert after[k] == before[k];
    }
  }

  lemma OrderStays(g: Graph, before: seq<seq<int>>, after: seq<seq<int>>, order: seq<int>)
    requires before <= after && OrderedBut(g, before, order)
    ensures OrderedBut(g, after, order)
  {
    hide ClosedBy;
    forall i, y | 0 <= i < |order| && Edge(g, order[i], y) ensures y in order[..i] || ClosedBy(after, order[i], y) {
      ClosedStays(before, after, order[i], y);
    }
  }

  lemma FirstStays(g: Graph, u: int, n: nat, p: seq<int>, q: seq<int>, before: seq<seq<int>>, after: seq<seq<int>>)
    requires before <= after && Grown(p, q) && FirstDone(g, u, n, p, before)
    ensures FirstDone(g, u, n, q, after)
  {
    hide ClosedBy;
    forall j | 0 <= j < n && j < OutDegree(g, u) ensures g[u][j] in q || ClosedBy(after, u, g[u][j]) {
      ClosedStays(before, after, u, g[u][j]);
    }
  }

  lemma AppendExit(g: Graph, cycles: seq<seq<int>>, order: seq<int>, u: int)
    requires OrderedBut(g, cycles, order) && u !in order
    requires forall y :: Edge(g, u, y) ==> y in order || ClosedBy(cycles, u, y)
    ensures OrderedBut(g, cycles, order + [u])
  {
    hide ClosedBy;
    var longer := order + [u];
    forall i, y | 0 <= i < |longer| && Edge(g, longer[i], y)
      ensures y in longer[..i] || ClosedBy(cycles, longer[i], y)
    {
      if i < |order| { assert longer[..i] == order[..i]; } else { assert longer[..i] == order; }
    }
  }

  /** What a hit records is closed by the edge that was hit. */
  lemma HitCloses(g: Graph, s: Search, u: int, v: int)
    requires Valid(g, s) && Edge(g, u, v) && u in s.parent && ParentsInside(s.parent)
    requires ParentWalk(s.parent, u, v, {}).Some?
    ensures var r := Record(s, ParentWalk(s.parent, u, v, {}).value);
      s.cycles <= r.cycles && ClosedBy(r.cycles, u, v)
  {
    WalkShape(s.parent, u, v, {});
    var w := ParentWalk(s.parent, u, v, {}).value;
    hide ParentWalk, Bump, Valid;
    var r := Record(s, w);
    assert Closes(Reverse(w), u, v);
    assert r.cycles[|s.cycles|] == Reverse(w);
  }

  lemma {:induction false} DfsExits(g: Graph, u: int, s: Search, exited: seq<int>) returns (after: seq<int>)
    requires Valid(g, s) && u in Vertices(g) && Exits(g, s, exited)
    ensures var r := Dfs(g, u, s); r.Returns? ==> Exits(g, r.search, after) && Grown(exited, after) && u in after
    decreases Tokens(Enter(u, s).budget), 2 * OutDegree(g, u) + 2
  {
    after := EdgesExits(g, u, 0, Enter(u, s), exited);
    var r := Edges(g, u, 0, Enter(u, s));
    hide Edges, Vertices, Tokens, OrderedBut;
    if r.Returns? && u !in after {
      AllDone(g, u, after, r.search.cycles);
      AppendExit(g, r.search.cycles, after, u);
      after := after + [u];
    }
  }

  lemma AllDone(g: Graph, u: int, p: seq<int>, cycles: seq<seq<int>>)
    requires FirstDone(g, u, OutDegree(g, u), p, cycles)
    ensures forall y :: Edge(g, u, y) ==> y in p || ClosedBy(cycles, u, y)
  {
    hide ClosedBy;
  }

  lemma {:induction false} EdgesExits(g: Graph, u: int, i: nat, s: Search, exited: seq<int>) returns (after: seq<int>)
    requires Valid(g, s) && u in Vertices(g) && i <= OutDegree(g, u) && Exits(g, s, exited)
    requires FirstDone(g, u, i, exited, s.cycles)
    ensures var r := Edges(g, u, i, s); r.Returns? ==>
      && Exits(g, r.search, after) && Grown(exited, after)
      && FirstDone(g, u, OutDegree(g, u), after, r.search.cycles)
    decreases Tokens(s.budget), 2 * (OutDegree(g, u) - i) + 1
  {
    hide Dfs, Visit, Vertices, Exits, ClosedBy;
    after := exited;
    if i < OutDegree(g, u) {
      var mid := VisitExits(g, u, g[u][i], s, exited);
      var r := Visit(g, u, g[u][i], s);
      if r.Returns? {
        FirstStays(g, u, i, exited, mid, s.cycles, r.search.cycles);
        after := EdgesExits(g, u, i + 1, r.search, mid);
      }
    }
  }

  lemma {:induction false} VisitExits(g: Graph, u: int, v: int, s: Search, exited: seq<int>) returns (after: seq<int>)
    requires Valid(g, s) && Edge(g, u, v) && Exits(g, s, exited)
    ensures var r := Visit(g, u, v, s); r.Returns? ==>
      && Exits(g, r.search, after) && Grown(exited, after)
      && (v in after || ClosedBy(r.search.cycles, u, v))
    decreases Tokens(s.budget), 0
  {
    after := exited;
    EdgeInVertices(g, u, v);
    EnterSpends(v, s);
    ParentsInRange(g, s);
    assert Enter(v, Follow(s, u, v)).budget == Enter(v, s).budget;
    hide Vertices, Tokens, Edge, ParentsInside, Visit, Dfs, ParentWalk, ClosedBy, OrderedBut;
    if s.budget[v] > 0 {
      Enters(g, u, v, s);
      after := DfsExits(g, v, Follow(s, u, v), exited);
    } else if s.onStack[v] {
      var walk := ParentWalk(s.parent, u, v, {});
      if walk.Some? {
        Hits(g, u, v, s, walk.value);
        HitCloses(g, s, u, v);
        OrderStays(g, s.cycles, Record(s, walk.value).cycles, exited);
      } else {
        WalkNeverEnds(g, u, v, s);
      }
    } else {
      Skips(g, u, v, s);
    }
  }

  lemma {:induction false} RootsExits(g: Graph, roots: seq<int>, s: Search, exited: seq<int>) returns (after: seq<int>)
    requires Valid(g, s) && Exits(g, s, exited) && forall x :: x in roots ==> x in g
    ensures var r := Roots(g, roots, s); r.Returns? ==>
      && Exits(g, r.search, after) && Grown(exited, after) && forall x :: x in roots ==> x in after
    decreases |roots|
  {
    hide Dfs, Vertices, Exits;
    after := exited;
    if roots != [] {
      var u := roots[0];
      assert u in roots;
      InVertices(g, u);
      var mid := DfsExits(g, roots[0], s, exited);
      var r := Dfs(g, roots[0], s);
      if r.Returns? {
        after := RootsExits(g, roots[1..], r.search, mid);
        assert roots == [roots[0]] + roots[1..];
      }
    }
  }

  lemma InVertices(g: Graph, x: int)
    requires x in g
    ensures x in Vertices(g)
  {
  }

  lemma InitialExits(g: Graph)
    ensures Exits(g, Initial(g), []) && (0 !in Vertices(g) ==> Valid(g, Initial(g)))
  {
    hide Vertices;
  }

  /** Whenever the search returns, its first-exit order is a reverse topological order of all keys, but for the edges
      that close reported cycles. */
  lemma ExitOrder(g: Graph, order: seq<int>) returns (exited: seq<int>)
    requires 0 !in Vertices(g) && IterationOrder(g, order) && FindCycles(g, order).Returns?
    ensures OrderedBut(g, FindCycles(g, order).search.cycles, exited) && forall x :: x in g ==> x in exited
  {
    InitialExits(g);
    hide Initial, Vertices, OrderedBut, Roots;
    exited := RootsExits(g, order, Initial(g), []);
    assert forall x :: x in g ==> x in order;
  }

  /** In particular, with nothing reported it is a reverse topological order. */
  lemma SilenceGivesOrder(g: Graph, order: seq<int>) returns (exited: seq<int>)
    requires 0 !in Vertices(g) && IterationOrder(g, order)
    requires FindCycles(g, order).Returns? && FindCycles(g, order).search.cycles == []
    ensures ReverseTopological(g, exited) && forall x :: x in g ==> x in exited
  {
    hide FindCycles;
    exited := ExitOrder(g, order);
    assert forall x, y :: !ClosedBy([], x, y);
  }

  /** Along a path whose edges close no reported cycle positions only go down. */
  lemma {:induction false} UncutPathDescends(g: Graph, cycles: seq<seq<int>>, order: seq<int>, p: seq<int>, i: nat)
    returns (j: nat)
    requires OrderedBut(g, cycles, order) && IsPath(g, p) && i < |order| && order[i] == p[0]
    requires forall k :: 0 <= k < |p| - 1 ==> !ClosedBy(cycles, p[k], p[k + 1])
    ensures j <= i && order[j] == p[|p| - 1]
    decreases |p|
  {
    hide ClosedBy;
    if |p| == 1 {
      j := i;
    } else {
      assert Edge(g, order[i], p[1]) && !ClosedBy(cycles, p[0], p[0 + 1]);
      var k :| 0 <= k < i && order[..i][k] == p[1];
      var rest := p[1..];
      forall m | 0 <= m < |rest| - 1 ensures Edge(g, rest[m], rest[m + 1]) && !ClosedBy(cycles, rest[m], rest[m + 1]) {
        assert Edge(g, p[m + 1], p[m + 1 + 1]) && !ClosedBy(cycles, p[m + 1], p[m + 1 + 1]);
      }
      j := UncutPathDescends(g, cycles, order, rest, k);
    }
  }

  /** A closed walk all of whose edges but the last close no reported cycle: the last one does. */
  lemma LastEdgeIsCut(g: Graph, cycles: seq<seq<int>>, order: seq<int>, c: seq<int>)
    requires OrderedBut(g, cycles, order) && ClosedWalk(g, c) && forall x :: x in g ==> x in order
    requires forall k :: 0 <= k < |c| - 1 ==> !ClosedBy(cycles, c[k], c[k + 1])
    ensures ClosedBy(cycles, c[|c| - 1], c[0])
  {
    hide ClosedBy;
    var last := c[|c| - 1];
    assert last in order && c[0] in order by { assert |c| > 1 ==> Edge(g, c[0], c[0 + 1]); }
    var n :| 0 <= n < |order| && order[n] == c[0];
    var j := UncutPathDescends(g, cycles, order, c, n);
    assert Edge(g, order[j], c[0]);
    assert c[0] !in order[..j];
  }

  lemma SomeEdgeIsCut(g: Graph, cycles: seq<seq<int>>, order: seq<int>, c: seq<int>) returns (i: nat)
    requires OrderedBut(g, cycles, order) && ClosedWalk(g, c) && forall x :: x in g ==> x in order
    ensures i < |c| && ClosedBy(cycles, c[i], Next(c, i))
  {
    hide ClosedBy, OrderedBut;
    if forall k :: 0 <= k < |c| - 1 ==> !ClosedBy(cycles, c[k], c[k + 1]) {
      LastEdgeIsCut(g, cycles, order, c);
      i := |c| - 1;
    } else {
      i :| 0 <= i < |c| - 1 && ClosedBy(cycles, c[i], c[i + 1]);
    }
  }

  /** Completeness of the report: whenever the search returns, every cycle of the graph runs through the closing edge of
      some reported cycle - without these edges the graph is acyclic. */
  lemma EveryCycleIsCut(g: Graph, order: seq<int>, c: seq<int>) returns (i: nat)
    requires 0 !in Vertices(g) && IterationOrder(g, order) && FindCycles(g, order).Returns? && ClosedWalk(g, c)
    ensures i < |c| && ClosedBy(FindCycles(g, order).search.cycles, c[i], Next(c, i))
  {
    hide FindCycles, ClosedBy, OrderedBut, Vertices, ClosedWalk;
    var exited := ExitOrder(g, order);
    i := SomeEdgeIsCut(g, FindCycles(g, order).search.cycles, exited, c);
  }

  lemma CycleIsMutual(g: Graph, c: seq<int>, i: nat, j: nat)
    requires ClosedWalk(g, c) && i < |c| && j < |c|
    ensures Reach(g, c[i], c[j])
  {
    var last := |c| - 1;
    if i <= j {
      assert PathBetween(g, c[i..j + 1], c[i], c[j]);
    } else {
      assert PathBetween(g, c[i..], c[i], c[last]);
      ReachEdge(g, c[last], c[0]);
      assert PathBetween(g, c[..j + 1], c[0], c[j]);
      ReachTrans(g, c[i], c[last], c[0]);
      ReachTrans(g, c[i], c[0], c[j]);
    }
  }

  ghost predicate Mutual(g: Graph, x: int, y: int) { Reach(g, x, y) && Reach(g, y, x) }

  /** So every component with a cycle has a reported cycle inside it. */
  lemma EveryComponentIsReported(g: Graph, order: seq<int>, x: int) returns (k: nat)
    requires 0 !in Vertices(g) && IterationOrder(g, order) && FindCycles(g, order).Returns? && OnCycle(g, x)
    ensures k < |FindCycles(g, order).search.cycles|
    ensures forall y :: y in FindCycles(g, order).search.cycles[k] ==> Mutual(g, x, y)
  {
    var c :| ClosedWalk(g, c) && x in c;
    var n :| 0 <= n < |c| && c[n] == x;
    var i := EveryCycleIsCut(g, order, c);
    ReportedCyclesAreReal(g, order);
    var cycles := FindCycles(g, order).search.cycles;
    k :| 0 <= k < |cycles| && Closes(cycles[k], c[i], Next(c, i));
    assert SimpleCycle(g, cycles[k]);
    hide FindCycles, Vertices;
    MeetingCyclesAreMutual(g, c, cycles[k], n, i);
  }

  lemma MeetingCyclesAreMutual(g: Graph, c: seq<int>, d: seq<int>, n: nat, i: nat)
    requires ClosedWalk(g, c) && ClosedWalk(g, d) && n < |c| && i < |c| && d[|d| - 1] == c[i]
    ensures forall y :: y in d ==> Mutual(g, c[n], y)
  {
    hide Reach, ClosedWalk;
    CycleIsMutual(g, c, n, i);
    CycleIsMutual(g, c, i, n);
    forall y | y in d ensures Mutual(g, c[n], y) {
      var m :| 0 <= m < |d| && d[m] == y;
      CycleIsMutual(g, d, |d| - 1, m);
      CycleIsMutual(g, d, m, |d| - 1);
      ReachTrans(g, c[n], c[i], y);
      ReachTrans(g, y, c[i], c[n]);
    }
  }

  /** Whenever the detector returns, it has reported something exactly when the graph has a directed cycle:
      for every graph, every iteration order and the visit budgets the program uses. */
  lemma DetectorDecidesCyclicity(g: Graph, order: seq<int>)
    requires 0 !in Vertices(g) && IterationOrder(g, order)
    requires FindCycles(g, order).Returns?
    ensures FindCycles(g, order).search.cycles != [] <==> Cyclic(g)
  {
    var cycles := FindCycles(g, order).search.cycles;
    ReportedCyclesAreReal(g, order);
    hide FindCycles, Vertices;
    if cycles != [] { assert SimpleCycle(g, cycles[0]); }
    if c :| ClosedWalk(g, c) { var i := EveryCycleIsCut(g, order, c); }
  }

  // ---------- when the detector returns ----------

  /** All edges into `x` that lie on a cycle with it come from one vertex. */
  ghost predicate OnePredecessor(g: Graph, x: int) {
    forall p, q :: Edge(g, p, x) && Edge(g, q, x) && Reach(g, x, p) && Reach(g, x, q) ==> p == q
  }

  /** No vertex on a cycle can be entered from two of its predecessors on cycles: either it may be entered once
      only, because as many edges lead in as out, or it has just one such predecessor. */
  ghost predicate Unambiguous(g: Graph) {
    forall x :: OnCycle(g, x) ==> InDegree(g, x) == OutDegree(g, x) || OnePredecessor(g, x)
  }

  /** On a cycle and with several predecessors there. */
  ghost predicate Contested(g: Graph, x: int) { OnCycle(g, x) && !OnePredecessor(g, x) }

  /** `stack` is the chain of open activations, outermost first.  A vertex may be open more than once, but whoever
      reaches its predecessor in the chain has that predecessor as its parent. */
  ghost predicate Open(g: Graph, s: Search, stack: seq<int>) {
    && (stack == [] || IsPath(g, stack))
    && (forall x :: x in s.onStack && s.onStack[x] ==> x in stack)
    && (forall x :: x in s.budget && Contested(g, x) ==> s.budget[x] <= 1)
    && (forall i :: 0 <= i < |stack| && Contested(g, stack[i]) ==> stack[i] in s.budget && s.budget[stack[i]] <= 0)
    && (forall i :: 1 <= i < |stack| && Reach(g, stack[i], stack[i - 1]) ==>
          stack[i] in s.parent && s.parent[stack[i]] == stack[i - 1])
  }

  lemma {:induction false} WalkFollowsStack(parent: map<int, int>, stack: seq<int>, k: nat, j: nat, seen: set<int>)
    requires ParentsInside(parent) && k <= j < |stack|
    requires forall i :: k <= i <= j ==> stack[i] in parent && stack[i] !in seen
    requires forall i, m :: k <= i < m <= j ==> stack[i] != stack[m]
    requires forall i :: k < i <= j ==> parent[stack[i]] == stack[i - 1]
    ensures ParentWalk(parent, stack[j], stack[k], seen).Some?
    decreases j
  {
    if j > k {
      WalkFollowsStack(parent, stack, k, j - 1, seen + {stack[j]});
    }
  }

  /** Above the last occurrence of stack[k], parents that follow the chain leave no room for a repeat. */
  lemma {:induction false} NoRepeatAbove(parent: map<int, int>, stack: seq<int>, k: nat, i: nat, j: nat)
    requires k <= i < j < |stack|
    requires forall m :: k < m < |stack| ==> stack[m] in parent && parent[stack[m]] == stack[m - 1]
    requires forall m :: k < m < |stack| ==> stack[m] != stack[k]
    ensures stack[i] != stack[j]
  {
    if i > k { NoRepeatAbove(parent, stack, k, i - 1, j - 1); }
  }

  lemma {:induction false} LastOccurrence(stack: seq<int>, v: int) returns (k: nat)
    requires v in stack
    ensures k < |stack| && stack[k] == v && forall m :: k < m < |stack| ==> stack[m] != v
    decreases |stack|
  {
    k := |stack| - 1;
    if stack[k] != v {
      assert stack == stack[..k] + [stack[k]];
      k := LastOccurrence(stack[..k], v);
      assert forall m :: k < m < |stack| - 1 ==> stack[m] == stack[..|stack| - 1][m];
    }
  }

  lemma HitEnds(g: Graph, s: Search, stack: seq<int>, v: int)
    requires Valid(g, s) && stack != [] && Open(g, s, stack) && ParentsInside(s.parent)
    requires v in s.onStack && s.onStack[v] && Edge(g, stack[|stack| - 1], v)
    requires forall i :: 0 <= i < |stack| ==> stack[i] in s.parent
    ensures ParentWalk(s.parent, stack[|stack| - 1], v, {}).Some?
  {
    hide Vertices, Contested, Reach;
    var k := LastOccurrence(stack, v);
    forall m | k < m < |stack| ensures s.parent[stack[m]] == stack[m - 1] {
      PartReachesBack(g, stack, k, m);
    }
    forall i, j | k <= i < j < |stack| ensures stack[i] != stack[j] {
      NoRepeatAbove(s.parent, stack, k, i, j);
    }
    WalkFollowsStack(s.parent, stack, k, |stack| - 1, {});
  }

  /** When the top of the chain has an edge to stack[k], each vertex above stack[k] reaches the one below it. */
  lemma PartReachesBack(g: Graph, stack: seq<int>, k: nat, m: nat)
    requires k < m < |stack| && IsPath(g, stack) && Edge(g, stack[|stack| - 1], stack[k])
    ensures Reach(g, stack[m], stack[m - 1])
  {
    var top := stack[|stack| - 1];
    assert PathBetween(g, stack[m..], stack[m], top);
    ReachEdge(g, top, stack[k]);
    assert PathBetween(g, stack[k..m], stack[k], stack[m - 1]);
    hide Reach;
    ReachTrans(g, stack[m], top, stack[k]);
    ReachTrans(g, stack[m], stack[k], stack[m - 1]);
  }

  /** Entering `v` from the top of the chain leaves the parents of an earlier activation of `v` as they were. */
  lemma FollowKeepsOpen(g: Graph, s: Search, stack: seq<int>, u: int, v: int)
    requires Valid(g, s) && Open(g, s, stack) && stack != [] && stack[|stack| - 1] == u && Edge(g, u, v)
    requires v in s.budget && s.budget[v] > 0
    ensures Open(g, Follow(s, u, v), stack)
  {
    hide Vertices, Reach, Contested;
    forall i | 1 <= i < |stack| && stack[i] == v && Reach(g, v, stack[i - 1]) ensures stack[i - 1] == u {
      assert !Contested(g, stack[i]);
      OpenPredecessor(g, stack, i, u, v);
    }
  }

  lemma OpenPredecessor(g: Graph, stack: seq<int>, i: nat, u: int, v: int)
    requires 1 <= i < |stack| && IsPath(g, stack) && stack[|stack| - 1] == u && Edge(g, u, v) && stack[i] == v
    requires Reach(g, v, stack[i - 1]) && !Contested(g, v)
    ensures stack[i - 1] == u
  {
    var c := stack[i..];
    assert PathBetween(g, c, v, u) && ClosedWalk(g, c) && c[0] == v;
    assert Reach(g, v, u) && OnCycle(g, v);
    assert Edge(g, stack[i - 1], stack[i]);
  }

  lemma OpenEnter(g: Graph, u: int, s: Search, stack: seq<int>)
    requires Valid(g, s) && u in Vertices(g) && Open(g, s, stack)
    requires stack != [] ==> Edge(g, stack[|stack| - 1], u) && s.parent[u] == stack[|stack| - 1]
    ensures Open(g, Enter(u, s), stack + [u])
  {
    hide Vertices, Contested, Edge, Reach;
  }

  lemma OpenExit(g: Graph, u: int, s: Search, stack: seq<int>)
    requires Valid(g, s) && u in Vertices(g) && Open(g, s, stack + [u])
    ensures Open(g, s.(onStack := s.onStack[u := false]), stack)
  {
    hide Vertices, Contested, Reach;
    var longer := stack + [u];
    assert forall i :: 0 <= i < |stack| ==> longer[i] == stack[i];
  }

  lemma {:induction false} DfsReturns(g: Graph, u: int, s: Search, stack: seq<int>)
    requires Valid(g, s) && u in Vertices(g) && Open(g, s, stack)
    requires forall x :: x in stack ==> x in Vertices(g)
    requires stack != [] ==> Edge(g, stack[|stack| - 1], u) && s.parent[u] == stack[|stack| - 1]
    ensures var r := Dfs(g, u, s); r.Returns? && Open(g, r.search, stack)
    decreases Tokens(Enter(u, s).budget), 2 * OutDegree(g, u) + 2
  {
    hide Vertices, Open, Edges;
    OpenEnter(g, u, s, stack);
    EdgesReturns(g, u, 0, Enter(u, s), stack + [u]);
    OpenExit(g, u, Edges(g, u, 0, Enter(u, s)).search, stack);
  }

  lemma {:induction false} EdgesReturns(g: Graph, u: int, i: nat, s: Search, stack: seq<int>)
    requires Valid(g, s) && Open(g, s, stack) && stack != [] && stack[|stack| - 1] == u
    requires i <= OutDegree(g, u) && forall x :: x in stack ==> x in Vertices(g)
    ensures var r := Edges(g, u, i, s); r.Returns? && Open(g, r.search, stack)
    decreases Tokens(s.budget), 2 * (OutDegree(g, u) - i) + 1
  {
    hide Dfs, Visit, Open, Vertices;
    if i < OutDegree(g, u) {
      VisitReturns(g, u, g[u][i], s, stack);
      EdgesReturns(g, u, i + 1, Visit(g, u, g[u][i], s).search, stack);
    }
  }

  lemma {:induction false} VisitReturns(g: Graph, u: int, v: int, s: Search, stack: seq<int>)
    requires Valid(g, s) && Open(g, s, stack) && stack != [] && stack[|stack| - 1] == u && Edge(g, u, v)
    requires forall x :: x in stack ==> x in Vertices(g)
    ensures var r := Visit(g, u, v, s); r.Returns? && Open(g, r.search, stack)
    decreases Tokens(s.budget), 0
  {
    EdgeInVertices(g, u, v);
    EnterSpends(v, s);
    ParentsInRange(g, s);
    var parent := Follow(s, u, v).parent;
    assert parent[v] == u && Enter(v, Follow(s, u, v)).budget == Enter(v, s).budget;
    hide Vertices, Open, Tokens, Edge, ParentsInside, Visit, Dfs, ParentWalk;
    if s.budget[v] > 0 {
      Enters(g, u, v, s);
      FollowKeepsOpen(g, s, stack, u, v);
      DfsReturns(g, v, Follow(s, u, v), stack);
    } else if s.onStack[v] {
      HitEnds(g, s, stack, v);
      Hits(g, u, v, s, ParentWalk(s.parent, u, v, {}).value);
      RecordKeepsOpen(g, s, stack, ParentWalk(s.parent, u, v, {}).value);
    } else {
      Skips(g, u, v, s);
    }
  }

  lemma RecordKeepsOpen(g: Graph, s: Search, stack: seq<int>, walk: seq<int>)
    requires Open(g, s, stack)
    ensures Open(g, Record(s, walk), stack)
  {
    hide Reach, Contested;
  }

  lemma {:induction false} RootsReturn(g: Graph, roots: seq<int>, s: Search)
    requires Valid(g, s) && Open(g, s, []) && forall x :: x in roots ==> x in g
    ensures Roots(g, roots, s).Returns?
    decreases |roots|
  {
    if roots != [] {
      DfsReturns(g, roots[0], s, []);
      RootsReturn(g, roots[1..], Dfs(g, roots[0], s).search);
    }
  }

  /** If each vertex on a cycle has as many incoming as outgoing edges or only one predecessor on cycles with it,
      every parent walk reaches its target and the detector returns, in every iteration order. */
  lemma DetectorReturns(g: Graph, order: seq<int>)
    requires 0 !in Vertices(g) && IterationOrder(g, order) && Unambiguous(g)
    ensures FindCycles(g, order).Returns?
  {
    InitialIsOpen(g);
    hide Initial, Open, Roots, Vertices;
    RootsReturn(g, order, Initial(g));
  }

  lemma InitialIsOpen(g: Graph)
    requires 0 !in Vertices(g) && Unambiguous(g)
    ensures Valid(g, Initial(g)) && Open(g, Initial(g), [])
  {
    hide Vertices, Reach, OnCycle, OnePredecessor;
  }

  /** Where every vertex has at most one successor, a vertex has at most one predecessor on cycles with it. */
  lemma {:induction false} OneWayBack(g: Graph, x: int, p: seq<int>, q: seq<int>)
    requires forall y, a, b :: Edge(g, y, a) && Edge(g, y, b) ==> a == b
    requires IsPath(g, p) && IsPath(g, q) && p[0] == x && q[0] == x
    requires Edge(g, p[|p| - 1], x) && Edge(g, q[|q| - 1], x)
    ensures p[|p| - 1] == q[|q| - 1]
    decreases |p| + |q|, |p|
  {
    if |p| > |q| {
      OneWayBack(g, x, q, p);
    } else {
      SameSteps(g, p, q, |p| - 1);
      if |p| < |q| {
        assert Edge(g, q[|p| - 1], q[|p| - 1 + 1]);
        var rest := q[|p|..];
        forall i | 0 <= i < |rest| - 1 ensures Edge(g, rest[i], rest[i + 1]) {
          assert Edge(g, q[|p| + i], q[|p| + i + 1]);
        }
        assert rest[|rest| - 1] == q[|q| - 1];
        OneWayBack(g, x, p, rest);
      }
    }
  }

  lemma {:induction false} SameSteps(g: Graph, p: seq<int>, q: seq<int>, i: nat)
    requires forall y, a, b :: Edge(g, y, a) && Edge(g, y, b) ==> a == b
    requires IsPath(g, p) && IsPath(g, q) && p[0] == q[0] && i < |p| <= |q|
    ensures p[i] == q[i]
  {
    if i > 0 {
      SameSteps(g, p, q, i - 1);
      assert Edge(g, p[i - 1], p[i - 1 + 1]) && Edge(g, q[i - 1], q[i - 1 + 1]);
    }
  }

  /** In particular the search returns when nobody waits for two others. */
  lemma SingleSuccessorsReturn(g: Graph, order: seq<int>)
    requires 0 !in Vertices(g) && IterationOrder(g, order)
    requires forall y, a, b :: Edge(g, y, a) && Edge(g, y, b) ==> a == b
    ensures Unambiguous(g) && FindCycles(g, order).Returns?
  {
    forall x, p, q | Edge(g, p, x) && Edge(g, q, x) && Reach(g, x, p) && Reach(g, x, q) ensures p == q {
      var a :| PathBetween(g, a, x, p);
      var b :| PathBetween(g, b, x, q);
      OneWayBack(g, x, a, b);
    }
    assert forall x :: OnePredecessor(g, x);
    DetectorReturns(g, order);
  }

  // ---------- how much work the detector does ----------

  lemma {:induction false} DfsCalls(g: Graph, u: int, s: Search)
    requires Valid(g, s) && u in Vertices(g)
    ensures var r := Dfs(g, u, s); r.Returns? ==>
      r.search.calls + |Tokens(r.search.budget)| <= s.calls + 1 + |Tokens(Enter(u, s).budget)|
    decreases Tokens(Enter(u, s).budget), 2 * OutDegree(g, u) + 2
  {
    EdgesCalls(g, u, 0, Enter(u, s));
  }

  lemma {:induction false} EdgesCalls(g: Graph, u: int, i: nat, s: Search)
    requires Valid(g, s) && u in Vertices(g) && i <= OutDegree(g, u)
    ensures var r := Edges(g, u, i, s); r.Returns? ==>
      r.search.calls + |Tokens(r.search.budget)| <= s.calls + |Tokens(s.budget)|
    decreases Tokens(s.budget), 2 * (OutDegree(g, u) - i) + 1
  {
    hide Dfs, Visit, Vertices, Tokens;
    if i < OutDegree(g, u) {
      var r := Visit(g, u, g[u][i], s);
      VisitCalls(g, u, g[u][i], s);
      if r.Returns? { EdgesCalls(g, u, i + 1, r.search); }
    }
  }

  lemma {:induction false} VisitCalls(g: Graph, u: int, v: int, s: Search)
    requires Valid(g, s) && Edge(g, u, v)
    ensures var r := Visit(g, u, v, s); r.Returns? ==>
      r.search.calls + |Tokens(r.search.budget)| <= s.calls + |Tokens(s.budget)|
    decreases Tokens(s.budget), 0
  {
    EdgeInVertices(g, u, v);
    if s.budget[v] > 0 {
      EnterSpends(v, s);
      assert Enter(v, Follow(s, u, v)).budget == Enter(v, s).budget;
      DfsCalls(g, v, Follow(s, u, v));
    }
  }

  lemma SubsetSize<T>(a: set<T>, b: set<T>)
    requires a <= b
    ensures |a| <= |b|
  {
    assert b == a + (b - a);
  }

  lemma {:induction false} RootsCalls(g: Graph, roots: seq<int>, s: Search)
    requires Valid(g, s) && forall x :: x in roots ==> x in g
    ensures var r := Roots(g, roots, s); r.Returns? ==> r.search.calls <= s.calls + |roots| + |Tokens(s.budget)|
    decreases |roots|
  {
    if roots != [] {
      DfsCalls(g, roots[0], s);
      EnterSpends(roots[0], s);
      SubsetSize(Tokens(Enter(roots[0], s).budget), Tokens(s.budget));
      var r := Dfs(g, roots[0], s);
      if r.Returns? { RootsCalls(g, roots[1..], r.search); }
    }
  }

  /** The sum of the budgets of the listed vertices. */
  ghost function BudgetSum(budget: map<int, int>, vertices: seq<int>): int
    requires forall x :: x in vertices ==> x in budget
  {
    if vertices == [] then 0
    else
      var last := vertices[|vertices| - 1];
      assert last in vertices;
      BudgetSum(budget, vertices[..|vertices| - 1]) + budget[last]
  }

  /** The tokens of the vertices of a list. */
  ghost function TokensOf(budget: map<int, int>, vertices: seq<int>): set<(int, int)> {
    set x, k | x in budget && x in vertices && 1 <= k <= budget[x] :: (x, k)
  }

  lemma {:induction false} TokensAreSum(budget: map<int, int>, vertices: seq<int>)
    requires Distinct(vertices) && forall x :: x in vertices ==> x in budget && budget[x] >= 0
    ensures |TokensOf(budget, vertices)| == BudgetSum(budget, vertices)
  {
    if vertices != [] {
      var n := |vertices| - 1;
      var last := vertices[n];
      assert last in vertices && vertices == vertices[..n] + [last];
      TokensAreSum(budget, vertices[..n]);
      var before, own := TokensOf(budget, vertices[..n]), Column(last, budget[last]);
      forall t ensures t in TokensOf(budget, vertices) <==> t in before + own {}
      SameElements(TokensOf(budget, vertices), before + own);
      assert last !in vertices[..n];
      assert before !! own;
      ColumnSize(last, budget[last]);
    }
  }

  ghost function Column(x: int, n: int): set<(int, int)> { set k | 1 <= k <= n :: (x, k) }

  lemma {:induction false} ColumnSize(x: int, n: nat)
    ensures |Column(x, n)| == n
  {
    if n > 0 {
      ColumnSize(x, n - 1);
      assert Column(x, n) == Column(x, n - 1) + {(x, n)};
    }
  }

  /** The edges of the graph, each as the position of its entry, parallel edges apart. */
  ghost function EdgeSet(g: Graph): set<(int, int)> { set u, i | u in g && 0 <= i < |g[u]| :: (u, i) }

  ghost function EdgesFrom(g: Graph, x: int): set<(int, int)> {
    set u, i | u == x && u in g && 0 <= i < |g[u]| :: (u, i)
  }

  ghost function EdgesInto(g: Graph, x: int): set<(int, int)> {
    set u, i | u in g && 0 <= i < |g[u]| && g[u][i] == x :: (u, i)
  }

  ghost function AllFrom(g: Graph, vertices: seq<int>): set<(int, int)> {
    set u, i | u in g && 0 <= i < |g[u]| && u in vertices :: (u, i)
  }

  ghost function AllInto(g: Graph, vertices: seq<int>): set<(int, int)> {
    set u, i | u in g && 0 <= i < |g[u]| && g[u][i] in vertices :: (u, i)
  }

  lemma {:induction false} ListOfEdges(u: int, n: nat)
    ensures |set i | 0 <= i < n :: (u, i)| == n
  {
    if n > 0 {
      ListOfEdges(u, n - 1);
      assert (set i | 0 <= i < n :: (u, i)) == (set i | 0 <= i < n - 1 :: (u, i)) + {(u, n - 1)};
    }
  }

  lemma OutDegreeCounts(g: Graph, x: int)
    ensures |EdgesFrom(g, x)| == OutDegree(g, x)
  {
    if x in g {
      ListOfEdges(x, |g[x]|);
      assert EdgesFrom(g, x) == set i | 0 <= i < |g[x]| :: (x, i);
    } else {
      assert EdgesFrom(g, x) == {};
    }
  }

  lemma DisjointSizes<T>(a: set<T>, b: set<T>, c: set<T>)
    requires a !! b && (forall x :: x in c <==> x in a + b)
    ensures |c| == |a| + |b|
  {
    SameElements(c, a + b);
  }

  lemma AllFromSnoc(g: Graph, vertices: seq<int>, x: int)
    requires x !in vertices
    ensures |AllFrom(g, vertices + [x])| == |AllFrom(g, vertices)| + OutDegree(g, x)
  {
    OutDegreeCounts(g, x);
    DisjointSizes(AllFrom(g, vertices), EdgesFrom(g, x), AllFrom(g, vertices + [x]));
  }

  lemma AllIntoSnoc(g: Graph, vertices: seq<int>, x: int)
    requires x !in vertices
    ensures |AllInto(g, vertices + [x])| == |AllInto(g, vertices)| + InDegree(g, x)
  {
    assert EdgesInto(g, x) == set u, i | u in g && 0 <= i < |g[u]| && g[u][i] == x :: (u, i);
    DisjointSizes(AllInto(g, vertices), EdgesInto(g, x), AllInto(g, vertices + [x]));
  }

  /** Each edge leaves one vertex and leads into one, so the budgets together are at most the vertices and twice the
      edges. */
  lemma {:induction false} BudgetsBelowEdges(g: Graph, budget: map<int, int>, vertices: seq<int>)
    requires Distinct(vertices) && forall x :: x in vertices ==> x in budget && budget[x] == InitialBudget(g, x)
    ensures BudgetSum(budget, vertices) <= |vertices| + |AllFrom(g, vertices)| + |AllInto(g, vertices)|
  {
    if vertices != [] {
      var n := |vertices| - 1;
      var last := vertices[n];
      assert last in vertices && vertices == vertices[..n] + [last] && last !in vertices[..n];
      BudgetsBelowEdges(g, budget, vertices[..n]);
      hide InDegree, OutDegree, AllFrom, AllInto;
      AllFromSnoc(g, vertices[..n], last);
      AllIntoSnoc(g, vertices[..n], last);
    }
  }

  lemma InitialTokens(g: Graph)
    ensures |Tokens(Initial(g).budget)| <= |Vertices(g)| + 2 * |EdgeSet(g)|
  {
    var vertices := Listed(Vertices(g));
    var budget := Initial(g).budget;
    assert budget.Keys == Vertices(g);
    InitialBudgets(g);
    hide Vertices, Initial, InitialBudget;
    assert forall x :: x in vertices ==> x in budget;
    TokensAreSum(budget, vertices);
    forall t ensures t in Tokens(budget) <==> t in TokensOf(budget, vertices) {}
    SameElements(Tokens(budget), TokensOf(budget, vertices));
    BudgetsBelowEdges(g, budget, vertices);
    SubsetSize(AllFrom(g, vertices), EdgeSet(g));
    SubsetSize(AllInto(g, vertices), EdgeSet(g));
  }

  /** The search is linear in the graph: when it returns, it has made at most as many activations as there are keys,
      vertices and, twice, edges. */
  lemma DetectorWork(g: Graph, order: seq<int>)
    requires 0 !in Vertices(g) && IterationOrder(g, order) && FindCycles(g, order).Returns?
    ensures FindCycles(g, order).search.calls <= |order| + |Vertices(g)| + 2 * |EdgeSet(g)|
  {
    InitialTokens(g);
    hide EdgeSet, Tokens, InitialBudget;
    RootsCalls(g, order, Initial(g));
  }

  /** Some list of the elements. */
  lemma {:induction false} Listed(s: set<int>) returns (list: seq<int>)
    ensures Distinct(list) && |list| == |s| && forall x :: x in list <==> x in s
  {
    list := [];
    if s != {} {
      var x := SomeElement(s);
      list := Listed(s - {x});
      list := list + [x];
    }
  }

  lemma InitialBudgets(g: Graph)
    ensures Initial(g).calls == 0
    ensures forall x :: x in Initial(g).budget ==> Initial(g).budget[x] == InitialBudget(g, x) >= 1
  {
    hide Vertices;
  }

  /** What was recorded and called meanwhile: with at most `d` successors looked at in each of the activations and `k`
      besides, each of them is at most one cycle or one activation more. */
  ghost predicate Looked(s: Search, s': Search, d: nat, k: int) {
    s.calls <= s'.calls && |s'.cycles| - |s.cycles| + s'.calls - s.calls <= d * (s'.calls - s.calls) + k
  }

  lemma LookedTwice(a: Search, b: Search, c: Search, d: nat, k: int, m: int)
    requires Looked(a, b, d, k) && Looked(b, c, d, m)
    ensures Looked(a, c, d, k + m)
  {
    var x, y := b.calls - a.calls, c.calls - b.calls;
    assert d * (x + y) == d * x + d * y;
  }

  /** No more than `d` successors, and the activation itself. */
  lemma LookedFrom(s: Search, u: int, s': Search, d: nat, k: int, onStack: map<int, bool>)
    requires u in s.budget && Looked(Enter(u, s), s', d, k) && k <= d
    ensures Looked(s, s'.(onStack := onStack), d, 1)
  {
    var x := s'.calls - s.calls;
    assert d * x == d * (x - 1) + d;
  }

  lemma LookedAtOne(s: Search, u: int, v: int, s': Search, walk: seq<int>, d: nat)
    ensures Looked(s, s, d, 0) && Looked(s, s, d, 1) && Looked(s, Record(s, walk), d, 1)
    ensures Looked(Follow(s, u, v), s', d, 1) ==> Looked(s, s', d, 1)
  {
  }

  ghost predicate AtMost(g: Graph, d: nat) { forall x :: OutDegree(g, x) <= d }

  lemma {:induction false} DfsLooks(g: Graph, u: int, s: Search, d: nat)
    requires Valid(g, s) && u in Vertices(g) && AtMost(g, d)
    ensures var r := Dfs(g, u, s); r.Returns? ==> Looked(s, r.search, d, 1)
    decreases Tokens(Enter(u, s).budget), 2 * OutDegree(g, u) + 2
  {
    EdgesLook(g, u, 0, Enter(u, s), d);
    hide Looked, Vertices, Tokens, Edges, Visit;
    var r := Edges(g, u, 0, Enter(u, s));
    if r.Returns? { LookedFrom(s, u, r.search, d, OutDegree(g, u), r.search.onStack[u := false]); }
  }

  lemma {:induction false} EdgesLook(g: Graph, u: int, i: nat, s: Search, d: nat)
    requires Valid(g, s) && u in Vertices(g) && i <= OutDegree(g, u) && AtMost(g, d)
    ensures var r := Edges(g, u, i, s); r.Returns? ==> Looked(s, r.search, d, OutDegree(g, u) - i)
    decreases Tokens(s.budget), 2 * (OutDegree(g, u) - i) + 1
  {
    hide Looked, Dfs, Visit, Vertices, Tokens;
    if i == OutDegree(g, u) {
      LookedAtOne(s, u, u, s, [], d);
    } else {
      var r := Visit(g, u, g[u][i], s);
      VisitLooks(g, u, g[u][i], s, d);
      if r.Returns? {
        EdgesLook(g, u, i + 1, r.search, d);
        hide Valid, OutDegree, AtMost;
        var q := Edges(g, u, i + 1, r.search);
        if q.Returns? { LookedTwice(s, r.search, q.search, d, 1, OutDegree(g, u) - (i + 1)); }
      }
    }
  }

  lemma {:induction false} VisitLooks(g: Graph, u: int, v: int, s: Search, d: nat)
    requires Valid(g, s) && Edge(g, u, v) && AtMost(g, d)
    ensures var r := Visit(g, u, v, s); r.Returns? ==> Looked(s, r.search, d, 1)
    decreases Tokens(s.budget), 0
  {
    hide Looked, Vertices, Tokens, Dfs;
    EdgeInVertices(g, u, v);
    if s.budget[v] > 0 {
      EnterSpends(v, s);
      assert Enter(v, Follow(s, u, v)).budget == Enter(v, s).budget;
      DfsLooks(g, v, Follow(s, u, v), d);
      var r := Dfs(g, v, Follow(s, u, v));
      if r.Returns? { LookedAtOne(s, u, v, r.search, [], d); }
    } else {
      ParentsInRange(g, s);
      var walk := ParentWalk(s.parent, u, v, {});
      LookedAtOne(s, u, v, s, if walk.Some? then walk.value else [], d);
    }
  }

  lemma KeyIsVertex(g: Graph, u: int)
    requires u in g
    ensures u in Vertices(g)
  {
  }

  lemma LookedFromStart(s: Search, s': Search, d: nat, k: int)
    requires Looked(s, s', d, k) && s.calls == 0 && s.cycles == []
    ensures |s'.cycles| + s'.calls <= d * s'.calls + k
  {
  }

  lemma {:induction false} RootsLook(g: Graph, roots: seq<int>, s: Search, d: nat)
    requires Valid(g, s) && (forall x :: x in roots ==> x in g) && AtMost(g, d)
    ensures var r := Roots(g, roots, s); r.Returns? ==> Looked(s, r.search, d, |roots|)
    decreases |roots|
  {
    hide Looked, Dfs, Vertices, Valid;
    LookedAtOne(s, 0, 0, s, [], d);
    if roots != [] {
      var u := roots[0];
      assert u in roots;
      KeyIsVertex(g, u);
      DfsLooks(g, u, s, d);
      var r := Dfs(g, u, s);
      if r.Returns? {
        RootsLook(g, roots[1..], r.search, d);
        var q := Roots(g, roots[1..], r.search);
        if q.Returns? { LookedTwice(s, r.search, q.search, d, 1, |roots| - 1); }
      }
    }
  }

  /** How often the same cycle may be reported is bounded: with no more than `d` successors to any vertex, a search that
      returns reports at most one cycle for each key and d - 1 for each activation.  So when no vertex has two
      successors, it reports no more cycles than there are keys. */
  lemma ReportsAreBounded(g: Graph, order: seq<int>, d: nat)
    requires 0 !in Vertices(g) && IterationOrder(g, order) && FindCycles(g, order).Returns?
    requires forall x :: x in g ==> |g[x]| <= d
    ensures var found := FindCycles(g, order).search;
      |found.cycles| + found.calls <= d * found.calls + |order|
  {
    hide Looked, Roots, InitialBudget;
    assert AtMost(g, d);
    RootsLook(g, order, Initial(g), d);
    hide Vertices, AtMost, Valid;
    LookedFromStart(Initial(g), FindCycles(g, order).search, d, |order|);
  }
}
