/** What the strongly-connected-component search computes, as functions on values (PAGManager.cpp). */
module TarjanModel {
  import opened Graphs

  /** The structures that the search updates in place. */
  datatype Tarjan = Tarjan(
    disc: map<int, int>,
    low: map<int, int>,
    stack: seq<int>,
    onStack: map<int, bool>,
    sccs: seq<seq<int>>,
    time: int)

  const EMPTY := Tarjan(map[], map[], [], map[], [], 0)

  function Min(a: int, b: int): int { if b < a then b else a }

  function Enter(u: int, s: Tarjan): Tarjan {
    Tarjan(s.disc[u := s.time + 1], s.low[u := s.time + 1], s.stack + [u], s.onStack[u := true], s.sccs, s.time + 1)
  }

  function LowerTo(s: Tarjan, u: int, n: int): Tarjan
    requires u in s.low
  {
    s.(low := s.low[u := Min(s.low[u], n)])
  }

  /** The position of the last occurrence of `u`. */
  function LastIndex(stack: seq<int>, u: int): (i: nat)
    requires u in stack
    ensures i < |stack| && stack[i] == u && forall j :: i < j < |stack| ==> stack[j] != u
  {
    if stack[|stack| - 1] == u then |stack| - 1 else LastIndex(stack[..|stack| - 1], u)
  }

  /** Takes everything from `u` upwards off the stack and reports it, bottom first, as one component. */
  function Pop(u: int, s: Tarjan): Tarjan
    requires u in s.stack
  {
    var i := LastIndex(s.stack, u);
    s.(stack := s.stack[..i],
       onStack := map x | x in s.onStack :: s.onStack[x] && x !in s.stack[i..],
       sccs := s.sccs + [s.stack[i..]])
  }

  function Exit(u: int, s: Tarjan): Tarjan
    requires u in s.stack && u in s.low && u in s.disc
  {
    if s.low[u] == s.disc[u] then Pop(u, s) else s
  }

  ghost predicate Grows(s: Tarjan, r: Tarjan) {
    && s.disc.Keys <= r.disc.Keys
    && s.low.Keys <= r.low.Keys
    && s.stack <= r.stack
    && s.sccs <= r.sccs
    && s.time <= r.time
    && forall x :: x in s.disc ==> r.disc[x] == s.disc[x]
  }

  /** A vertex counts as unvisited when `disc` has no entry for it; a first activation may find one. */
  ghost function Dfs(g: Graph, u: int, s: Tarjan): (r: Tarjan)
    requires u in Vertices(g)
    ensures Grows(s.(disc := Enter(u, s).disc), r) && u in r.low
    decreases Vertices(g) - Enter(u, s).disc.Keys, 2 * OutDegree(g, u) + 2
  {
    var r := Edges(g, u, 0, Enter(u, s));
    assert r.stack[|s.stack|] == u;
    Exit(u, r)
  }

  /** The loop over the successors of `u`, from the i-th on. */
  ghost function Edges(g: Graph, u: int, i: nat, s: Tarjan): (r: Tarjan)
    requires u in Vertices(g) && i <= OutDegree(g, u) && u in s.low
    ensures Grows(s, r)
    decreases Vertices(g) - s.disc.Keys, 2 * (OutDegree(g, u) - i) + 1
  {
    if i == OutDegree(g, u) then s
    else Edges(g, u, i + 1, Visit(g, u, g[u][i], s))
  }

  /** What the loop does with one successor `v` of `u`. */
  ghost function Visit(g: Graph, u: int, v: int, s: Tarjan): (r: Tarjan)
    requires Edge(g, u, v) && u in s.low
    ensures Grows(s, r)
    decreases Vertices(g) - s.disc.Keys, 0
  {
    EdgeInVertices(g, u, v);
    if v !in s.disc then
      assert v in Vertices(g) - s.disc.Keys && v !in Vertices(g) - Enter(v, s).disc.Keys;
      var r := Dfs(g, v, s);
      LowerTo(r, u, r.low[v])
    else if v in s.onStack && s.onStack[v] then LowerTo(s, u, s.disc[v])
    else s
  }

  /** The search started from every vertex of `roots` that has no `disc` entry yet. */
  ghost function Roots(g: Graph, roots: seq<int>, s: Tarjan): Tarjan
    requires forall x :: x in roots ==> x in g
    decreases |roots|
  {
    if roots == [] then s
    else Roots(g, roots[1..], if roots[0] in s.disc then s else Dfs(g, roots[0], s))
  }

  ghost predicate StronglyConnected(g: Graph, c: seq<int>) {
    forall x, y :: x in c && y in c ==> Reach(g, x, y)
  }

  /** A non-empty list of distinct vertices that reach each other and that no further vertex joins. */
  ghost predicate Component(g: Graph, c: seq<int>) {
    && c != [] && Distinct(c)
    && StronglyConnected(g, c)
    && forall x, z :: x in c && Reach(g, x, z) && Reach(g, z, x) ==> z in c
  }

  ghost predicate Emitted(sccs: seq<seq<int>>, x: int) {
    exists k :: 0 <= k < |sccs| && x in sccs[k]
  }

  ghost predicate Disjoint(sccs: seq<seq<int>>) {
    forall k, m, x :: 0 <= k < m < |sccs| && x in sccs[k] ==> x !in sccs[m]
  }

  /** Edges lead into the same list or an earlier one. */
  ghost predicate ListsReverseTopological(g: Graph, sccs: seq<seq<int>>) {
    forall k, x, y :: 0 <= k < |sccs| && x in sccs[k] && Edge(g, x, y) ==> Emitted(sccs[..k + 1], y)
  }
}
