/** The cycle search in the form the program gives it: maps and lists updated in place while the recursion runs.
    Every method is tied to the function of DetectorModel that says what it computes. */
module DeadlockDetector {
  import opened Commons
  import opened Graphs
  import M = DetectorModel
  import opened HashIteration

  /** The pairs counted into the in-degree of `x` once the keys order[..k] and the first m successors of
      order[k] have been seen. */
  ghost function Counted(g: Graph, order: seq<int>, k: nat, m: nat, x: int): set<(int, int)>
    requires k <= |order| && forall y :: y in order ==> y in g
  {
    set u, i | u in g && 0 <= i < |g[u]| && g[u][i] == x
      && (u in order[..k] || (k < |order| && u == order[k] && i < m)) :: (u, i)
  }

  lemma CountedStep(g: Graph, order: seq<int>, k: nat, m: nat, x: int)
    requires IterationOrder(g, order) && k < |order| && order[k] in g && m < |g[order[k]]|
    ensures |Counted(g, order, k, m + 1, x)| == |Counted(g, order, k, m, x)| + if g[order[k]][m] == x then 1 else 0
  {
    var before := Counted(g, order, k, m, x);
    var after := Counted(g, order, k, m + 1, x);
    assert order[k] !in order[..k];
    var extra := if g[order[k]][m] == x then {(order[k], m)} else {};
    assert (order[k], m) !in before;
    forall u, i ensures (u, i) in after <==> (u, i) in before + extra {}
    assert after == before + extra;
  }

  lemma CountedNext(g: Graph, order: seq<int>, k: nat, x: int)
    requires IterationOrder(g, order) && k < |order| && order[k] in g
    ensures Counted(g, order, k, |g[order[k]]|, x) == Counted(g, order, k + 1, 0, x)
  {
    assert order[..k + 1] == order[..k] + [order[k]];
  }

  lemma CountedAll(g: Graph, order: seq<int>, x: int)
    requires IterationOrder(g, order)
    ensures |Counted(g, order, |order|, 0, x)| == M.InDegree(g, x)
  {
    assert order[..|order|] == order;
    assert Counted(g, order, |order|, 0, x) == set u, i | u in g && 0 <= i < |g[u]| && g[u][i] == x :: (u, i);
  }

  /** What remains of the walk from `u` when its prefix `walk` has been passed. */
  ghost predicate Following(parent: map<int, int>, frequency0: map<int, int>, u: int, v: int,
                            curr: int, passed: set<int>, walk: seq<int>, frequency: map<int, int>)
    requires u in parent && M.ParentsInside(parent)
  {
    && curr in parent.Keys + {0}
    && var whole, rest := M.ParentWalk(parent, u, v, {}), M.ParentWalk(parent, curr, v, passed);
    && whole.Some? == rest.Some?
    && (whole.Some? ==> whole.value == walk + rest.value && frequency == M.Bump(frequency0, walk))
  }

  lemma FollowStep(parent: map<int, int>, frequency0: map<int, int>, u: int, v: int,
                   curr: int, passed: set<int>, walk: seq<int>, frequency: map<int, int>)
    requires parent.Keys == frequency0.Keys && u in parent && v in parent && 0 !in parent && M.ParentsInside(parent)
    requires Following(parent, frequency0, u, v, curr, passed, walk, frequency) && curr != v && curr !in passed
    ensures Following(parent, frequency0, u, v, M.OrZero(parent, curr), passed + {curr}, walk + [curr],
                      frequency[curr := M.OrZero(frequency, curr) + 1])
  {
    WalkStep(parent, curr, v, passed, walk);
    if M.ParentWalk(parent, u, v, {}).Some? { BumpStep(frequency0, walk, curr); }
  }

  /** Follows `parent` from `u` to `v`, counting every vertex met; `returned` is false when the loop would not end. */
  method FollowParents(parent: map<int, int>, u: int, v: int, frequency0: map<int, int>)
    returns (returned: bool, walk: seq<int>, frequency: map<int, int>)
    requires parent.Keys == frequency0.Keys && u in parent && v in parent && 0 !in parent && M.ParentsInside(parent)
    ensures returned == M.ParentWalk(parent, u, v, {}).Some?
    ensures returned ==> walk == M.ParentWalk(parent, u, v, {}).value && frequency == M.Bump(frequency0, walk)
  {
    walk, frequency := [], frequency0;
    var curr := u;
    var passed: set<int> := {};
    while curr != v
      invariant Following(parent, frequency0, u, v, curr, passed, walk, frequency)
      decreases parent.Keys + {0} - passed
    {
      if curr in passed {
        return false, walk, frequency;
      }
      FollowStep(parent, frequency0, u, v, curr, passed, walk, frequency);
      frequency := frequency[curr := M.OrZero(frequency, curr) + 1];
      passed := passed + {curr};
      walk := walk + [curr];
      curr := M.OrZero(parent, curr);
    }
    BumpStep(frequency0, walk, v);
    walk := walk + [v];
    frequency := frequency[v := M.OrZero(frequency, v) + 1];
    returned := true;
  }

  lemma WalkStep(parent: map<int, int>, curr: int, v: int, passed: set<int>, walk: seq<int>)
    requires M.ParentsInside(parent) && 0 !in parent && v in parent
    requires curr in parent.Keys + {0} && curr != v && curr !in passed
    ensures var here := M.ParentWalk(parent, curr, v, passed);
      var next := M.ParentWalk(parent, M.OrZero(parent, curr), v, passed + {curr});
      && here.Some? == next.Some?
      && (here.Some? ==> curr in parent && walk + here.value == (walk + [curr]) + next.value)
  {
    if curr == 0 { ZeroHangs(parent, v, passed); }
    var next := M.ParentWalk(parent, M.OrZero(parent, curr), v, passed + {curr});
    if next.Some? { assert walk + ([curr] + next.value) == (walk + [curr]) + next.value; }
  }

  lemma BumpStep(frequency: map<int, int>, walk: seq<int>, x: int)
    requires x in frequency
    ensures M.Bump(frequency, walk + [x]) == M.Bump(frequency, walk)[x := M.Bump(frequency, walk)[x] + 1]
  {
  }

  lemma ZeroHangs(parent: map<int, int>, target: int, passed: set<int>)
    requires M.ParentsInside(parent) && 0 !in parent && target in parent
    ensures M.ParentWalk(parent, 0, target, passed).None?
  {
  }

  /** Counts the edges into and out of every vertex; a vertex never written counts as zero. */
  method Degrees(g: Graph, keys: seq<int>) returns (inDegree: map<int, int>, outDegree: map<int, int>)
    requires IterationOrder(g, keys)
    ensures forall x :: M.OrZero(inDegree, x) == M.InDegree(g, x)
    ensures forall x :: M.OrZero(outDegree, x) == OutDegree(g, x)
  {
    inDegree, outDegree := map[], map[];
    for k := 0 to |keys|
      invariant forall x :: M.OrZero(inDegree, x) == |Counted(g, keys, k, 0, x)|
      invariant forall x :: x in outDegree <==> x in keys[..k]
      invariant forall x :: x in outDegree ==> x in g && outDegree[x] == |g[x]|
    {
      outDegree := outDegree[keys[k] := |g[keys[k]]|];
      for m := 0 to |g[keys[k]]|
        invariant forall x :: M.OrZero(inDegree, x) == |Counted(g, keys, k, m, x)|
      {
        ghost var before := inDegree;
        var v := g[keys[k]][m];
        inDegree := inDegree[v := M.OrZero(inDegree, v) + 1];
        forall x ensures M.OrZero(inDegree, x) == |Counted(g, keys, k, m + 1, x)| {
          CountedStep(g, keys, k, m, x);
          assert M.OrZero(before, x) == |Counted(g, keys, k, m, x)|;
        }
      }
      forall x ensures M.OrZero(inDegree, x) == |Counted(g, keys, k + 1, 0, x)| {
        CountedNext(g, keys, k, x);
        assert M.OrZero(inDegree, x) == |Counted(g, keys, k, |g[keys[k]]|, x)|;
      }
    }
    forall x ensures M.OrZero(inDegree, x) == M.InDegree(g, x) {
      CountedAll(g, keys, x);
      assert M.OrZero(inDegree, x) == |Counted(g, keys, |keys|, 0, x)|;
    }
    assert keys[..|keys|] == keys;
  }

  class CycleSearch {
    var visitedCount: map<int, int>
    var recursionStack: map<int, bool>
    var parent: map<int, int>
    var cycles: seq<seq<int>>
    var frequency: map<int, int>
    ghost var calls: nat

    ghost function Value(): M.Search
      reads this
    {
      M.Search(visitedCount, recursionStack, parent, cycles, frequency, calls)
    }

    constructor ()
      ensures Value() == M.Search(map[], map[], map[], [], map[], 0)
    {
      visitedCount, recursionStack, parent, cycles, frequency, calls := map[], map[], map[], [], map[], 0;
    }

    method Dfs(g: Graph, u: int) returns (returned: bool)
      requires M.Valid(g, Value()) && u in Vertices(g)
      modifies this
      ensures returned == M.Dfs(g, u, old(Value())).Returns?
      ensures returned ==> Value() == M.Dfs(g, u, old(Value())).search
      decreases M.Tokens(M.Enter(u, Value()).budget), 2
    {
      ghost var before := Value();
      DfsSteps(g, u, before);
      hide M.Valid, M.Dfs, M.Edges, M.Tokens, M.Enter, Vertices;
      Open(u);
      returned := VisitAll(g, u);
      recursionStack := recursionStack[u := false];
    }

    /** What an activation does before its loop. */
    method Open(u: int)
      requires u in visitedCount
      modifies this`visitedCount, this`recursionStack, this`calls
      ensures Value() == M.Enter(u, old(Value()))
    {
      visitedCount := visitedCount[u := visitedCount[u] - 1];
      recursionStack := recursionStack[u := true];
      calls := calls + 1;
    }

    lemma DfsSteps(g: Graph, u: int, s: M.Search)
      requires M.Valid(g, s) && u in Vertices(g)
      ensures u in s.budget && u in s.onStack && M.Valid(g, M.Enter(u, s))
      ensures var r := M.Edges(g, u, 0, M.Enter(u, s));
        M.Dfs(g, u, s) ==
          if r.Hangs? then M.Hangs else M.Returns(r.search.(onStack := r.search.onStack[u := false]))
    {
      hide Vertices, M.Edges;
    }

    method VisitAll(g: Graph, u: int) returns (returned: bool)
      requires M.Valid(g, Value()) && u in Vertices(g)
      modifies this
      ensures returned == M.Edges(g, u, 0, old(Value())).Returns?
      ensures returned ==> Value() == M.Edges(g, u, 0, old(Value())).search
      decreases M.Tokens(visitedCount), 1
    {
      ghost var whole := M.Edges(g, u, 0, Value());
      if u in g {
        for i := 0 to |g[u]|
          invariant M.Valid(g, Value())
          invariant M.Tokens(visitedCount) <= M.Tokens(old(visitedCount))
          invariant whole == M.Edges(g, u, i, Value())
        {
          returned := Visit(g, u, g[u][i]);
          if !returned { return; }
        }
      }
      returned := true;
    }

    /** The body of the loop over the successors of `u`. */
    method Visit(g: Graph, u: int, v: int) returns (returned: bool)
      requires M.Valid(g, Value()) && Edge(g, u, v)
      modifies this
      ensures returned == M.Visit(g, u, v, old(Value())).Returns?
      ensures returned ==> Value() == M.Visit(g, u, v, old(Value())).search
      decreases M.Tokens(visitedCount), 0
    {
      VisitCases(g, u, v, Value());
      hide Vertices, M.Visit, M.Dfs, M.Tokens, M.ParentWalk, M.Record, M.Valid, M.ParentsInside, Edge;
      returned := true;
      if visitedCount[v] > 0 {
        parent := parent[v := u];
        returned := Dfs(g, v);
      } else if recursionStack[v] {
        returned := RecordCycle(u, v);
      }
    }

    /** A hit: the parents from `u` back to `v` are a cycle. */
    method RecordCycle(u: int, v: int) returns (returned: bool)
      requires parent.Keys == frequency.Keys && u in parent && v in parent && 0 !in parent && M.ParentsInside(parent)
      modifies this`cycles, this`frequency
      ensures var walk := M.ParentWalk(parent, u, v, {});
        returned == walk.Some? && (returned ==> Value() == M.Record(old(Value()), walk.value))
    {
      hide M.ParentWalk, M.Bump, M.Reverse, M.ParentsInside;
      var walk;
      returned, walk, frequency := FollowParents(parent, u, v, frequency);
      cycles := cycles + [M.Reverse(walk)];
    }

    lemma VisitCases(g: Graph, u: int, v: int, s: M.Search)
      requires M.Valid(g, s) && Edge(g, u, v)
      ensures u in Vertices(g) && v in Vertices(g) && u in s.parent && v in s.parent && v in s.budget && v in s.onStack
      ensures s.parent.Keys == s.frequency.Keys && 0 !in s.parent
      ensures M.ParentsInside(s.parent) && M.Valid(g, M.Follow(s, u, v))
      ensures s.budget[v] > 0 ==>
        && M.Visit(g, u, v, s) == M.Dfs(g, v, M.Follow(s, u, v))
        && M.Tokens(M.Enter(v, M.Follow(s, u, v)).budget) < M.Tokens(s.budget)
      ensures s.budget[v] <= 0 && s.onStack[v] ==>
        var walk := M.ParentWalk(s.parent, u, v, {});
        M.Visit(g, u, v, s) == if walk.None? then M.Hangs else M.Returns(M.Record(s, walk.value))
      ensures s.budget[v] <= 0 && !s.onStack[v] ==> M.Visit(g, u, v, s) == M.Returns(s)
    {
      EdgeInVertices(g, u, v);
      M.ParentsInRange(g, s);
      M.EnterSpends(v, s);
      assert M.Enter(v, M.Follow(s, u, v)).budget == M.Enter(v, s).budget;
    }

    /** The cycles found and their frequencies are left in the fields. */
    method FindCycles(g: Graph) returns (returned: bool, ghost order: seq<int>)
      requires 0 !in Vertices(g)
      modifies this
      ensures IterationOrder(g, order)
      ensures returned == M.FindCycles(g, order).Returns?
      ensures returned ==> Value() == M.FindCycles(g, order).search
    {
      var keys := KeyOrder(g);
      order := keys;
      Initialise(g, keys);
      for k := 0 to |keys|
        invariant M.Valid(g, Value())
        invariant M.Roots(g, keys, M.Initial(g)) == M.Roots(g, keys[k..], Value())
      {
        assert keys[k..][0] == keys[k] && keys[k..][1..] == keys[k + 1..];
        returned := Dfs(g, keys[k]);
        if !returned { return; }
      }
      returned := true;
    }

    method Initialise(g: Graph, keys: seq<int>)
      requires 0 !in Vertices(g) && IterationOrder(g, keys)
      modifies this
      ensures Value() == M.Initial(g)
    {
      var inDegree, outDegree := Degrees(g, keys);
      ghost var budgets := M.Initial(g).budget;
      StartDefaults(inDegree, outDegree, budgets, g);
      visitedCount, recursionStack, parent, frequency := map[], map[], map[], map[];
      cycles, calls := [], 0;
      forall x | x in keys ensures x in Vertices(g) {}
      StartAll(keys, inDegree, outDegree, budgets);
      StartTargets(g, keys, inDegree, outDegree, budgets);
      KeysAndTargets(g, keys, visitedCount.Keys);
      StartedIsInitial(g);
    }

    lemma StartDefaults(inDegree: map<int, int>, outDegree: map<int, int>, budgets: map<int, int>, g: Graph)
      requires forall x :: M.OrZero(inDegree, x) == M.InDegree(g, x)
      requires forall x :: M.OrZero(outDegree, x) == OutDegree(g, x)
      requires budgets == M.Initial(g).budget
      ensures Budgeted(inDegree, outDegree, budgets)
    {
      forall x | x in budgets ensures budgets[x] == BudgetFrom(inDegree, outDegree, x) {
        assert budgets[x] == M.InitialBudget(g, x);
      }
    }

    lemma StartedIsInitial(g: Graph)
      requires Started(M.Initial(g).budget) && visitedCount.Keys == Vertices(g)
      ensures Value() == M.Initial(g)
    {
      var initial := M.Initial(g);
      assert visitedCount == initial.budget;
      assert recursionStack == initial.onStack;
      assert parent == initial.parent;
      assert frequency == initial.frequency;
    }

    function BudgetFrom(inDegree: map<int, int>, outDegree: map<int, int>, x: int): int {
      var d := M.OrZero(outDegree, x) - M.OrZero(inDegree, x);
      (if d < 0 then -d else d) + 1
    }

    ghost predicate Budgeted(inDegree: map<int, int>, outDegree: map<int, int>, budgets: map<int, int>) {
      forall x :: x in budgets ==> budgets[x] == BudgetFrom(inDegree, outDegree, x)
    }

    /** Every vertex that has entries has its initial ones, and nothing is reported yet. */
    ghost predicate Started(budgets: map<int, int>)
      reads this
    {
      && visitedCount.Keys == recursionStack.Keys == parent.Keys == frequency.Keys
      && (forall x :: x in visitedCount ==> x in budgets && visitedCount[x] == budgets[x])
      && (forall x :: x in visitedCount ==> !recursionStack[x] && parent[x] == 0 && frequency[x] == 0)
      && cycles == [] && calls == 0
    }

    method StartTargets(g: Graph, keys: seq<int>, inDegree: map<int, int>, outDegree: map<int, int>,
                        ghost budgets: map<int, int>)
      requires Started(budgets) && Within(keys, visitedCount.Keys) && Budgeted(inDegree, outDegree, budgets)
      requires IterationOrder(g, keys) && budgets.Keys == Vertices(g)
      modifies this
      ensures Started(budgets) && Within(keys, visitedCount.Keys)
      ensures forall j :: 0 <= j < |keys| && keys[j] in g ==> Within(g[keys[j]], visitedCount.Keys)
    {
      for k := 0 to |keys|
        invariant Started(budgets) && Within(keys, visitedCount.Keys)
        invariant forall j :: 0 <= j < k && keys[j] in g ==> Within(g[keys[j]], visitedCount.Keys)
      {
        var x := keys[k];
        assert x in keys;
        forall y | y in g[x] ensures y in Vertices(g) { EdgeInVertices(g, x, y); }
        StartAll(g[x], inDegree, outDegree, budgets);
      }
    }

    method StartOne(x: int, inDegree: map<int, int>, outDegree: map<int, int>, ghost budgets: map<int, int>)
      requires Started(budgets) && x in budgets && Budgeted(inDegree, outDegree, budgets)
      modifies this
      ensures Started(budgets) && visitedCount.Keys == old(visitedCount.Keys) + {x}
    {
      visitedCount := visitedCount[x := BudgetFrom(inDegree, outDegree, x)];
      recursionStack := recursionStack[x := false];
      parent := parent[x := 0];
      frequency := frequency[x := 0];
    }

    /** Gives every vertex of `xs` that has no entry yet its initial entries. */
    method StartAll(xs: seq<int>, inDegree: map<int, int>, outDegree: map<int, int>, ghost budgets: map<int, int>)
      requires Started(budgets) && Within(xs, budgets.Keys) && Budgeted(inDegree, outDegree, budgets)
      modifies this
      ensures Started(budgets)
      ensures forall x :: x in visitedCount <==> x in old(visitedCount) || x in xs
    {
      for i := 0 to |xs|
        invariant Started(budgets)
        invariant forall x :: x in visitedCount <==> x in old(visitedCount) || x in xs[..i]
      {
        var x := xs[i];
        assert x in xs;
        if x !in visitedCount { StartOne(x, inDegree, outDegree, budgets); }
        assert xs[..i + 1] == xs[..i] + [x];
      }
    }
  }
}
