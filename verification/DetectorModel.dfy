/** What the depth-first cycle search computes, as functions on values (DeadlockDetector.cpp).

    A vertex may be entered through an edge as often as its visit budget allows, so it can be entered
    again while it is still open and its `parent` entry is then overwritten.  The walk that follows `parent`
    to collect a cycle may therefore run for ever; the outcome `Hangs` stands for that. */
module DetectorModel {
  import opened Commons
  import opened Graphs

  /** The maps that the search updates in place.  `calls` counts activations of the search; it is a
      history variable that the program does not have. */
  datatype Search = Search(
    budget: map<int, int>,
    onStack: map<int, bool>,
    parent: map<int, int>,
    cycles: seq<seq<int>>,
    frequency: map<int, int>,
    calls: nat)

  datatype Outcome = Hangs | Returns(search: Search)

  ghost predicate Valid(g: Graph, s: Search) {
    && 0 !in Vertices(g)
    && s.budget.Keys == s.onStack.Keys == s.parent.Keys == s.frequency.Keys == Vertices(g)
    && forall x :: x in s.parent ==> s.parent[x] == 0 || Edge(g, s.parent[x], x)
  }

  /** One token for every visit that is still allowed; the measure that shows the search ends. */
  ghost function Tokens(budget: map<int, int>): set<(int, int)> {
    set x, k | x in budget && 1 <= k <= budget[x] :: (x, k)
  }

  function OrZero(m: map<int, int>, x: int): int { if x in m then m[x] else 0 }

  function Reverse(p: seq<int>): (r: seq<int>)
    ensures |r| == |p| && forall i :: 0 <= i < |p| ==> r[i] == p[|p| - 1 - i]
  {
    if p == [] then [] else Reverse(p[1..]) + [p[0]]
  }

  ghost predicate ParentsInside(parent: map<int, int>) {
    forall x :: x in parent ==> parent[x] in parent.Keys + {0}
  }

  /** The vertices met when `parent` is followed from `curr` up to and including `target`, or None when
      `target` is never met.  `seen` holds the vertices already passed: meeting one again means the walk repeats
      itself for ever. */
  function ParentWalk(parent: map<int, int>, curr: int, target: int, seen: set<int>): (r: Option<seq<int>>)
    requires curr in parent.Keys + {0} && ParentsInside(parent)
    decreases parent.Keys + {0} - seen
  {
    if curr == target then Some([target])
    else if curr in seen then None
    else
      var rest := ParentWalk(parent, OrZero(parent, curr), target, seen + {curr});
      if rest.None? then None else Some([curr] + rest.value)
  }

  function Bump(frequency: map<int, int>, cycle: seq<int>): map<int, int> {
    map x | x in frequency :: frequency[x] + multiset(cycle)[x]
  }

  function Enter(u: int, s: Search): Search
    requires u in s.budget
  {
    s.(budget := s.budget[u := s.budget[u] - 1], onStack := s.onStack[u := true], calls := s.calls + 1)
  }

  function Follow(s: Search, u: int, v: int): Search { s.(parent := s.parent[v := u]) }

  function Record(s: Search, walk: seq<int>): Search {
    s.(cycles := s.cycles + [Reverse(walk)], frequency := Bump(s.frequency, walk))
  }

  lemma EnterSpends(u: int, s: Search)
    requires u in s.budget
    ensures Tokens(Enter(u, s).budget) <= Tokens(s.budget)
    ensures s.budget[u] > 0 ==> Tokens(Enter(u, s).budget) == Tokens(s.budget) - {(u, s.budget[u])}
    ensures s.budget[u] > 0 ==> (u, s.budget[u]) in Tokens(s.budget)
  {
  }

  lemma ParentsInRange(g: Graph, s: Search)
    requires Valid(g, s)
    ensures ParentsInside(s.parent)
  {
    forall x | x in s.parent ensures s.parent[x] in s.parent.Keys + {0} {
      if s.parent[x] != 0 { EdgeInVertices(g, s.parent[x], x); }
    }
  }

  ghost function Dfs(g: Graph, u: int, s: Search): (r: Outcome)
    requires Valid(g, s) && u in Vertices(g)
    ensures r.Returns? ==> Valid(g, r.search) && Tokens(r.search.budget) <= Tokens(Enter(u, s).budget)
    ensures r.Returns? ==> s.cycles <= r.search.cycles
    decreases Tokens(Enter(u, s).budget), 2 * OutDegree(g, u) + 2
  {
    var r := Edges(g, u, 0, Enter(u, s));
    if r.Hangs? then Hangs else Returns(r.search.(onStack := r.search.onStack[u := false]))
  }

  /** The loop over the successors of `u`, from the i-th on. */
  ghost function Edges(g: Graph, u: int, i: nat, s: Search): (r: Outcome)
    requires Valid(g, s) && u in Vertices(g) && i <= OutDegree(g, u)
    ensures r.Returns? ==> Valid(g, r.search) && Tokens(r.search.budget) <= Tokens(s.budget)
    ensures r.Returns? ==> s.cycles <= r.search.cycles
    decreases Tokens(s.budget), 2 * (OutDegree(g, u) - i) + 1
  {
    if i == OutDegree(g, u) then Returns(s)
    else
      var r := Visit(g, u, g[u][i], s);
      if r.Hangs? then Hangs else Edges(g, u, i + 1, r.search)
  }

  /** What the loop does with one successor `v` of `u`. */
  ghost function Visit(g: Graph, u: int, v: int, s: Search): (r: Outcome)
    requires Valid(g, s) && Edge(g, u, v)
    ensures r.Returns? ==> Valid(g, r.search) && Tokens(r.search.budget) <= Tokens(s.budget)
    ensures r.Returns? ==> s.cycles <= r.search.cycles
    decreases Tokens(s.budget), 0
  {
    EdgeInVertices(g, u, v);
    if s.budget[v] > 0 then
      EnterSpends(v, s);
      assert Enter(v, Follow(s, u, v)).budget == Enter(v, s).budget;
      Dfs(g, v, Follow(s, u, v))
    else if s.onStack[v] then
      ParentsInRange(g, s);
      var walk := ParentWalk(s.parent, u, v, {});
      if walk.None? then Hangs else Returns(Record(s, walk.value))
    else Returns(s)
  }

  /** Counts parallel edges separately. */
  ghost function InDegree(g: Graph, x: int): nat {
    |set u, i | u in g && 0 <= i < |g[u]| && g[u][i] == x :: (u, i)|
  }

  ghost function InitialBudget(g: Graph, x: int): int {
    var d := OutDegree(g, x) - InDegree(g, x);
    (if d < 0 then -d else d) + 1
  }

  ghost function Initial(g: Graph): Search {
    Search(
      map x | x in Vertices(g) :: InitialBudget(g, x),
      map x | x in Vertices(g) :: false,
      map x | x in Vertices(g) :: 0,
      [],
      map x | x in Vertices(g) :: 0,
      0)
  }

  /** The searches started from the vertices of `roots` in turn. */
  ghost function Roots(g: Graph, roots: seq<int>, s: Search): (r: Outcome)
    requires Valid(g, s) && forall x :: x in roots ==> x in g
    ensures r.Returns? ==> Valid(g, r.search) && s.cycles <= r.search.cycles
    decreases |roots|
  {
    if roots == [] then Returns(s)
    else
      var r := Dfs(g, roots[0], s);
      if r.Hangs? then Hangs else Roots(g, roots[1..], r.search)
  }

  ghost function FindCycles(g: Graph, order: seq<int>): (r: Outcome)
    requires 0 !in Vertices(g) && IterationOrder(g, order)
    ensures r.Returns? ==> Valid(g, r.search)
  {
    Roots(g, order, Initial(g))
  }
}
