/** Directed multigraphs as the program stores them: a map from a vertex to the list of its successors. */
module Graphs {
  import opened Commons

  type Graph = map<int, seq<int>>

  predicate Edge(g: Graph, x: int, y: int) { x in g && y in g[x] }

  ghost function Vertices(g: Graph): set<int> {
    g.Keys + set x, i | x in g && 0 <= i < |g[x]| :: g[x][i]
  }

  lemma EdgeInVertices(g: Graph, x: int, y: int)
    requires Edge(g, x, y)
    ensures x in Vertices(g) && y in Vertices(g)
  {
    var i :| 0 <= i < |g[x]| && g[x][i] == y;
  }

  lemma MembersAreVertices(g: Graph, c: seq<int>, t: int)
    requires ClosedWalk(g, c) && t in c
    ensures t in Vertices(g)
  {
    var i :| 0 <= i < |c| && c[i] == t;
    EdgeInVertices(g, c[i], if i < |c| - 1 then c[i + 1] else c[0]);
  }

  ghost function OutDegree(g: Graph, x: int): nat { if x in g then |g[x]| else 0 }

  predicate Distinct(p: seq<int>) {
    forall i, j :: 0 <= i < j < |p| ==> p[i] != p[j]
  }

  lemma {:induction false} DistinctCount(p: seq<int>, x: int)
    requires Distinct(p)
    ensures multiset(p)[x] == if x in p then 1 else 0
  {
    if p != [] {
      assert p == [p[0]] + p[1..];
      DistinctCount(p[1..], x);
    }
  }

  /** `order` is the order in which the hash map of the graph is iterated. */
  ghost predicate IterationOrder(g: Graph, order: seq<int>) {
    Distinct(order) && forall x :: x in order <==> x in g
  }

  ghost predicate IsPath(g: Graph, p: seq<int>) {
    |p| >= 1 && forall i :: 0 <= i < |p| - 1 ==> Edge(g, p[i], p[i + 1])
  }

  ghost predicate Within(xs: seq<int>, s: set<int>) { forall x :: x in xs ==> x in s }

  /** All keys, all their successors and nothing else: all vertices. */
  lemma KeysAndTargets(g: Graph, keys: seq<int>, s: set<int>)
    requires IterationOrder(g, keys) && Within(keys, s) && forall x :: x in s ==> x in Vertices(g)
    requires forall j :: 0 <= j < |keys| && keys[j] in g ==> Within(g[keys[j]], s)
    ensures s == Vertices(g)
  {
    forall y ensures y in s <==> y in Vertices(g) {
      if y in g {
        assert y in keys;
      } else if y in Vertices(g) {
        var x, i :| x in g && 0 <= i < |g[x]| && g[x][i] == y;
        assert x in keys;
        var j :| 0 <= j < |keys| && keys[j] == x;
        assert Within(g[keys[j]], s) && y in g[keys[j]];
      }
    }
    SameElements(s, Vertices(g));
  }

  /** A path whose last vertex has an edge back to its first. */
  ghost predicate ClosedWalk(g: Graph, c: seq<int>) {
    IsPath(g, c) && Edge(g, c[|c| - 1], c[0])
  }

  /** The vertex after position i of a closed walk. */
  function Next(c: seq<int>, i: nat): int
    requires i < |c|
  {
    if i < |c| - 1 then c[i + 1] else c[0]
  }

  lemma ClosedWalkByNext(g: Graph, c: seq<int>, i: nat)
    requires ClosedWalk(g, c) && i < |c|
    ensures Edge(g, c[i], Next(c, i)) && Next(c, i) in c
  {
  }

  ghost predicate SimpleCycle(g: Graph, c: seq<int>) { ClosedWalk(g, c) && Distinct(c) }

  ghost predicate Cyclic(g: Graph) { exists c :: ClosedWalk(g, c) }

  ghost predicate OnCycle(g: Graph, x: int) { exists c :: ClosedWalk(g, c) && x in c }

  ghost predicate PathBetween(g: Graph, p: seq<int>, x: int, y: int) {
    IsPath(g, p) && p[0] == x && p[|p| - 1] == y
  }

  ghost predicate Reach(g: Graph, x: int, y: int) { exists p :: PathBetween(g, p, x, y) }

  lemma ReachRefl(g: Graph, x: int)
    ensures Reach(g, x, x)
  {
    assert PathBetween(g, [x], x, x);
  }

  lemma ReachEdge(g: Graph, x: int, y: int)
    requires Edge(g, x, y)
    ensures Reach(g, x, y)
  {
    assert PathBetween(g, [x, y], x, y);
  }

  lemma ReachTrans(g: Graph, x: int, y: int, z: int)
    requires Reach(g, x, y) && Reach(g, y, z)
    ensures Reach(g, x, z)
  {
    var p :| PathBetween(g, p, x, y);
    var q :| PathBetween(g, q, y, z);
    assert PathBetween(g, p + q[1..], x, z);
  }

  /** A set that no edge leaves is not left by any path. */
  lemma {:induction false} ClosedUnderReach(g: Graph, s: set<int>, p: seq<int>)
    requires IsPath(g, p) && p[0] in s
    requires forall x, y :: x in s && Edge(g, x, y) ==> y in s
    ensures forall i :: 0 <= i < |p| ==> p[i] in s
  {
    if |p| > 1 {
      assert Edge(g, p[0], p[1]);
      assert forall i :: 0 <= i < |p| - 1 ==> p[1..][i] == p[i + 1];
      ClosedUnderReach(g, s, p[1..]);
      assert forall i :: 1 <= i < |p| ==> p[i] == p[1..][i - 1];
    }
  }

  /** Every edge leads to an earlier entry of `order`: the list is a reverse topological order. */
  ghost predicate ReverseTopological(g: Graph, order: seq<int>) {
    && Distinct(order)
    && forall i, y :: 0 <= i < |order| && Edge(g, order[i], y) ==> y in order[..i]
  }

  /** Along a path inside a reverse topological order positions only go down. */
  lemma {:induction false} PathDescends(g: Graph, order: seq<int>, p: seq<int>, i: nat) returns (j: nat)
    requires ReverseTopological(g, order) && IsPath(g, p)
    requires i < |order| && order[i] == p[0]
    ensures j <= i && order[j] == p[|p| - 1]
    decreases |p|
  {
    if |p| == 1 {
      j := i;
    } else {
      assert Edge(g, order[i], p[1]);
      var k :| 0 <= k < i && order[..i][k] == p[1];
      assert forall m :: 0 <= m < |p| - 1 ==> p[1..][m] == p[m + 1];
      j := PathDescends(g, order, p[1..], k);
    }
  }

  lemma TopologicalIsAcyclic(g: Graph, order: seq<int>)
    requires ReverseTopological(g, order)
    requires forall x :: x in g && g[x] != [] ==> x in order
    ensures !Cyclic(g)
  {
    if c :| ClosedWalk(g, c) {
      assert c[|c| - 1] in order;
      var i :| 0 <= i < |order| && order[i] == c[|c| - 1];
      assert c[0] in order[..i];
      var k :| 0 <= k < i && order[..i][k] == c[0];
      var j := PathDescends(g, order, c, k);
      assert order[j] == order[i];
    }
  }
}
