/** The component search is correct when "unvisited" means "no `disc` entry": it emits exactly the strongly
    connected components, each vertex once, in reverse topological order. */
module TarjanTheorems {
  import opened Graphs
  import opened TarjanModel

  // ---------- the invariant ----------

  ghost predicate Books(g: Graph, s: Tarjan) {
    && s.low.Keys == s.disc.Keys == s.onStack.Keys && s.disc.Keys <= Vertices(g)
    && Distinct(s.stack)
    && (forall x :: x in s.onStack && s.onStack[x] <==> x in s.stack)
    && (forall x :: x in s.disc <==> x in s.stack || Emitted(s.sccs, x))
    && (forall x :: x in s.stack ==> !Emitted(s.sccs, x))
    && Disjoint(s.sccs)
  }

  ghost predicate Times(s: Tarjan) {
    && s.time >= 0
    && (forall x :: x in s.disc ==> 1 <= s.disc[x] <= s.time)
    && (forall i, j :: 0 <= i < j < |s.stack| && s.stack[i] in s.disc && s.stack[j] in s.disc ==>
          s.disc[s.stack[i]] < s.disc[s.stack[j]])
  }

  /** `gray` holds the open activations.  An open vertex reaches all that lies above it on the stack, and all that
      is on the stack reaches an open vertex below. */
  ghost predicate Links(g: Graph, s: Tarjan, gray: set<int>) {
    && (forall x :: x in gray ==> x in s.stack)
    && (forall i, j :: 0 <= i <= j < |s.stack| && s.stack[i] in gray ==> Reach(g, s.stack[i], s.stack[j]))
    && (forall j :: 0 <= j < |s.stack| ==> HasAnchor(g, s.stack, j, gray))
  }

  ghost predicate HasAnchor(g: Graph, stack: seq<int>, j: nat, gray: set<int>)
    requires j < |stack|
  {
    exists i :: 0 <= i <= j && stack[i] in gray && Reach(g, stack[j], stack[i])
  }

  ghost predicate Settled(g: Graph, s: Tarjan, gray: set<int>) {
    forall x, y :: x in s.disc && x !in gray && Edge(g, x, y) ==> y in s.disc
  }

  ghost predicate Lists(g: Graph, sccs: seq<seq<int>>) {
    && (forall k :: 0 <= k < |sccs| ==> Component(g, sccs[k]))
    && ListsReverseTopological(g, sccs)
  }

  ghost predicate Inv(g: Graph, s: Tarjan, gray: set<int>) {
    Books(g, s) && Times(s) && Links(g, s, gray) && Settled(g, s, gray) && Lists(g, s.sccs)
  }

  /** `low[u]` is its own discovery time or that of a vertex that `u` reaches among the first `base` of the stack. */
  ghost predicate LowSound(g: Graph, s: Tarjan, u: int, base: nat) {
    && u in s.low && u in s.disc && base <= |s.stack| && s.low[u] <= s.disc[u]
    && (s.low[u] < s.disc[u] ==>
          exists y :: y in s.stack[..base] && y in s.disc && s.disc[y] == s.low[u] && Reach(g, u, y))
  }

  /** No edge from x into the first `base` of the stack goes below n. */
  ghost predicate Bound(g: Graph, s: Tarjan, base: nat, x: int, n: int)
    requires base <= |s.stack|
  {
    forall y :: Edge(g, x, y) && y in s.stack[..base] && y in s.disc ==> n <= s.disc[y]
  }

  ghost predicate LowBound(g: Graph, s: Tarjan, base: nat, from: nat, n: int)
    requires base <= from <= |s.stack|
  {
    forall i :: from <= i < |s.stack| ==> Bound(g, s, base, s.stack[i], n)
  }

  ghost predicate OldLowsKept(s: Tarjan, r: Tarjan) {
    forall x :: x in s.low ==> x in r.low && r.low[x] == s.low[x]
  }

  /** What an activation of `u` that found `s` leaves behind in `r`. */
  ghost predicate Done(g: Graph, u: int, s: Tarjan, r: Tarjan, gray: set<int>) {
    && Inv(g, r, gray) && Grows(s, r) && OldLowsKept(s, r)
    && u in r.disc && u in r.low && u !in gray && r.disc[u] == s.time + 1
    && LowSound(g, r, u, |s.stack|)
    && (r.low[u] == r.disc[u] ==> r.stack == s.stack)
    && LowBound(g, r, |s.stack|, |s.stack|, r.low[u])
  }

  /** The state `t` of an open activation of `u` that found `s`, after its first i successors. */
  ghost predicate Working(g: Graph, u: int, i: nat, s: Tarjan, t: Tarjan, gray: set<int>) {
    && Inv(g, t, gray + {u}) && Grows(s, t) && OldLowsKept(s, t)
    && u !in gray && u !in s.low && |s.stack| < |t.stack| && t.stack[|s.stack|] == u
    && u in t.disc && t.disc[u] == s.time + 1
    && (forall x :: x in gray ==> x in s.stack)
    && LowSound(g, t, u, |s.stack|)
    && LowBound(g, t, |s.stack|, |s.stack| + 1, t.low[u])
    && SeenBound(g, u, i, s, t)
  }

  ghost predicate SeenBound(g: Graph, u: int, i: nat, s: Tarjan, t: Tarjan)
    requires u in t.low
  {
    forall k :: 0 <= k < i && k < OutDegree(g, u) ==>
      g[u][k] in t.disc && (g[u][k] in s.stack ==> t.low[u] <= t.disc[g[u][k]])
  }

  // ---------- entering ----------

  lemma EnterLinks(g: Graph, u: int, s: Tarjan, gray: set<int>)
    requires Books(g, s) && Links(g, s, gray) && u !in s.disc
    requires forall x :: x in gray ==> Reach(g, x, u)
    ensures Links(g, Enter(u, s), gray + {u})
  {
    var t := Enter(u, s);
    ReachRefl(g, u);
    forall j | 0 <= j < |t.stack| ensures HasAnchor(g, t.stack, j, gray + {u}) {
      if j < |s.stack| {
        assert HasAnchor(g, s.stack, j, gray);
        var i :| 0 <= i <= j && s.stack[i] in gray && Reach(g, s.stack[j], s.stack[i]);
        assert t.stack[i] in gray + {u} && Reach(g, t.stack[j], t.stack[i]);
      } else {
        assert t.stack[j] == u;
      }
    }
  }

  lemma EnterWorking(g: Graph, u: int, s: Tarjan, gray: set<int>)
    requires Inv(g, s, gray) && u in Vertices(g) && u !in s.disc
    requires forall x :: x in gray ==> Reach(g, x, u)
    ensures Working(g, u, 0, s, Enter(u, s), gray)
  {
    EnterLinks(g, u, s, gray);
    EnterTimes(g, u, s);
    hide Links, Lists, Vertices, Times;
    var t := Enter(u, s);
    assert Settled(g, t, gray + {u});
    assert LowBound(g, t, |s.stack|, |s.stack| + 1, t.low[u]);
    assert SeenBound(g, u, 0, s, t);
    hide LowBound, SeenBound, Settled;
  }

  lemma EnterTimes(g: Graph, u: int, s: Tarjan)
    requires Books(g, s) && Times(s) && u !in s.disc
    ensures Times(Enter(u, s)) && Lists(g, Enter(u, s).sccs) == Lists(g, s.sccs)
  {
    var t := Enter(u, s);
    forall i, j | 0 <= i < j < |t.stack|
      ensures t.stack[i] in t.disc && t.stack[j] in t.disc && t.disc[t.stack[i]] < t.disc[t.stack[j]]
    {
      var x := s.stack[i];
      assert x in s.stack && x in s.disc;
      if j < |s.stack| {
        var y := s.stack[j];
        assert y in s.stack && y in s.disc;
      }
    }
  }

  // ---------- one successor ----------

  lemma GrayReaches(g: Graph, u: int, v: int, i: nat, s: Tarjan, t: Tarjan, gray: set<int>)
    requires Working(g, u, i, s, t, gray) && Edge(g, u, v)
    ensures forall x :: x in gray + {u} ==> Reach(g, x, v)
  {
    forall x | x in gray + {u} ensures Reach(g, x, v) {
      ReachEdge(g, u, v);
      if x != u {
        var j :| 0 <= j < |s.stack| && s.stack[j] == x;
        assert t.stack[j] == x;
        assert Reach(g, t.stack[j], t.stack[|s.stack|]);
        ReachTrans(g, x, u, v);
      }
    }
  }

  lemma VisitOnStack(g: Graph, u: int, i: nat, s: Tarjan, t: Tarjan, gray: set<int>)
    requires Working(g, u, i, s, t, gray) && i < OutDegree(g, u)
    requires g[u][i] in t.disc && g[u][i] in t.stack
    ensures Working(g, u, i + 1, s, LowerTo(t, u, t.disc[g[u][i]]), gray)
  {
    hide Links, Lists, Settled, Books, Vertices, SeenBound, Emitted;
    var v := g[u][i];
    var r := LowerTo(t, u, t.disc[v]);
    var base := |s.stack|;
    StackLowSound(g, u, v, base, t);
    LowerBound(g, t, base, t.low[u], r.low[u]);
    SeenMore(g, u, i, s, t);
    hide LowSound;
    LowerKeeps(g, t, u, t.disc[v], gray + {u}, base, r.low[u]);
    hide LowBound, Times;
  }

  lemma StackLowSound(g: Graph, u: int, v: int, base: nat, t: Tarjan)
    requires Times(t) && base < |t.stack| && t.stack[base] == u && LowSound(g, t, u, base)
    requires Edge(g, u, v) && v in t.disc && v in t.stack
    ensures LowSound(g, LowerTo(t, u, t.disc[v]), u, base)
  {
    ReachEdge(g, u, v);
    if t.disc[v] < t.low[u] { BelowOnStack(t, base, v); }
  }

  lemma LowerBound(g: Graph, t: Tarjan, base: nat, n: int, m: int)
    requires base < |t.stack| && m <= n && LowBound(g, t, base, base + 1, n)
    ensures LowBound(g, t, base, base + 1, m)
  {
    forall i | base + 1 <= i < |t.stack| ensures Bound(g, t, base, t.stack[i], m) {
      assert Bound(g, t, base, t.stack[i], n);
    }
  }

  lemma SeenMore(g: Graph, u: int, i: nat, s: Tarjan, t: Tarjan)
    requires i < OutDegree(g, u) && u in t.low && SeenBound(g, u, i, s, t) && g[u][i] in t.disc
    ensures SeenBound(g, u, i + 1, s, LowerTo(t, u, t.disc[g[u][i]]))
  {
    var r := LowerTo(t, u, t.disc[g[u][i]]);
    forall k | 0 <= k < i + 1
      ensures g[u][k] in r.disc && (g[u][k] in s.stack ==> r.low[u] <= r.disc[g[u][k]])
    {
      var y := g[u][k];
      assert k < i ==> y in t.disc && (y in s.stack ==> t.low[u] <= t.disc[y]);
    }
  }

  lemma VisitOffStack(g: Graph, u: int, i: nat, s: Tarjan, t: Tarjan, gray: set<int>)
    requires Working(g, u, i, s, t, gray) && i < OutDegree(g, u)
    requires g[u][i] in t.disc && g[u][i] !in t.stack
    ensures Working(g, u, i + 1, s, t, gray)
  {
  }

  /** A vertex on the stack that was discovered before `u` lies below it. */
  lemma BelowOnStack(s: Tarjan, base: nat, y: int)
    requires Times(s) && base < |s.stack| && s.stack[base] in s.disc
    requires y in s.stack && y in s.disc && s.disc[y] < s.disc[s.stack[base]]
    ensures y in s.stack[..base]
  {
    var j :| 0 <= j < |s.stack| && s.stack[j] == y;
    assert j < base;
    assert s.stack[..base][j] == y;
  }

  lemma ChildLowSound(g: Graph, u: int, v: int, base: nat, t: Tarjan, r: Tarjan)
    requires Times(r) && Edge(g, u, v) && v != u && Grows(t, r) && OldLowsKept(t, r)
    requires base < |t.stack| && t.stack[base] == u
    requires LowSound(g, t, u, base) && LowSound(g, r, v, |t.stack|)
    requires r.disc[v] > r.disc[u]
    ensures LowSound(g, LowerTo(r, u, r.low[v]), u, base)
  {
    ReachEdge(g, u, v);
    assert r.stack[base] == u && r.stack[base] in r.stack;
    assert r.stack[..base] == t.stack[..base];
    if r.low[v] < r.low[u] {
      var y :| y in r.stack[..|t.stack|] && y in r.disc && r.disc[y] == r.low[v] && Reach(g, v, y);
      BelowOnStack(r, base, y);
      ReachTrans(g, u, v, y);
    } else if r.low[u] < r.disc[u] {
      var y :| y in t.stack[..base] && y in t.disc && t.disc[y] == t.low[u] && Reach(g, u, y);
    }
  }

  lemma ChildLowBound(g: Graph, base: nat, from: nat, t: Tarjan, r: Tarjan, n: int, m: int)
    requires base <= from <= |t.stack| && Grows(t, r)
    requires forall x :: x in t.stack ==> x in t.disc
    requires LowBound(g, t, base, from, n) && LowBound(g, r, |t.stack|, |t.stack|, m)
    ensures LowBound(g, r, base, from, Min(n, m))
  {
    assert r.stack[..base] == t.stack[..base];
    forall i | from <= i < |r.stack| ensures Bound(g, r, base, r.stack[i], Min(n, m)) {
      forall y | Edge(g, r.stack[i], y) && y in r.stack[..base] ensures y in t.stack && y in r.stack[..|t.stack|] {
        assert r.stack[..|t.stack|] == t.stack;
      }
      if i < |t.stack| {
        assert Bound(g, t, base, t.stack[i], n);
      } else {
        assert Bound(g, r, |t.stack|, r.stack[i], m);
      }
    }
  }

  lemma ChildSeenBound(g: Graph, u: int, i: nat, s: Tarjan, t: Tarjan, r: Tarjan)
    requires i < OutDegree(g, u) && u in t.low && Grows(t, r) && OldLowsKept(t, r)
    requires SeenBound(g, u, i, s, t) && g[u][i] !in t.disc && g[u][i] in r.disc && g[u][i] in r.low
    requires forall x :: x in s.stack ==> x in t.disc
    ensures SeenBound(g, u, i + 1, s, LowerTo(r, u, r.low[g[u][i]]))
  {
    var w := LowerTo(r, u, r.low[g[u][i]]);
    forall k | 0 <= k < i + 1
      ensures g[u][k] in w.disc && (g[u][k] in s.stack ==> w.low[u] <= w.disc[g[u][k]])
    {
      var y := g[u][k];
      if k < i {
        assert y in t.disc && (y in s.stack ==> t.low[u] <= t.disc[y]);
      } else {
        assert y !in s.stack;
      }
    }
  }

  /** Changing one low value leaves everything but the claims about low values as it is. */
  lemma LowerKeeps(g: Graph, r: Tarjan, u: int, n: int, gray: set<int>, base: nat, m: int)
    requires Inv(g, r, gray) && u in r.low && base < |r.stack| && LowBound(g, r, base, base + 1, m)
    ensures Inv(g, LowerTo(r, u, n), gray)
    ensures LowBound(g, LowerTo(r, u, n), base, base + 1, m)
  {
    hide Component, ListsReverseTopological, Emitted, Vertices, Reach, Disjoint;
  }

  lemma ChildGrows(s: Tarjan, t: Tarjan, r: Tarjan, u: int, n: int)
    requires Grows(s, t) && OldLowsKept(s, t) && Grows(t, r) && OldLowsKept(t, r) && u in t.low && u !in s.low
    ensures Grows(s, LowerTo(r, u, n)) && OldLowsKept(s, LowerTo(r, u, n))
    ensures r.low[u] == t.low[u]
  {
  }

  lemma ChildIsLater(g: Graph, u: int, v: int, t: Tarjan, r: Tarjan, gray: set<int>)
    requires Times(t) && u in t.disc && Grows(t, r) && v in r.disc && r.disc[v] == t.time + 1
    ensures r.disc[v] > r.disc[u]
  {
  }

  lemma VisitChild(g: Graph, u: int, i: nat, s: Tarjan, t: Tarjan, r: Tarjan, gray: set<int>)
    requires Working(g, u, i, s, t, gray) && i < OutDegree(g, u)
    requires g[u][i] !in t.disc && Done(g, g[u][i], t, r, gray + {u})
    ensures Working(g, u, i + 1, s, LowerTo(r, u, r.low[g[u][i]]), gray)
  {
    hide Links, Lists, Settled, LowSound, LowBound, Vertices, SeenBound, Times;
    var v := g[u][i];
    var w := LowerTo(r, u, r.low[v]);
    var base := |s.stack|;
    assert v != u;
    ChildIsLater(g, u, v, t, r, gray);
    ChildGrows(s, t, r, u, r.low[v]);
    ChildLowSound(g, u, v, base, t, r);
    ChildLowBound(g, base, base + 1, t, r, t.low[u], r.low[v]);
    ChildSeenBound(g, u, i, s, t, r);
    LowerKeeps(g, r, u, r.low[v], gray + {u}, base, w.low[u]);
    hide Books, Grows;
  }

  // ---------- leaving ----------

  /** After all successors, the edges of `u` lead to visited vertices and, below `u`, not under low[u]. */
  lemma AllSeen(g: Graph, u: int, s: Tarjan, t: Tarjan, y: int)
    requires u in t.low && SeenBound(g, u, OutDegree(g, u), s, t) && Edge(g, u, y)
    ensures y in t.disc && (y in s.stack ==> t.low[u] <= t.disc[y])
  {
    var k :| 0 <= k < |g[u]| && g[u][k] == y;
  }

  lemma StayLinks(g: Graph, u: int, s: Tarjan, t: Tarjan, gray: set<int>)
    requires Links(g, t, gray + {u}) && Distinct(t.stack) && s.stack <= t.stack && |s.stack| < |t.stack|
    requires t.stack[|s.stack|] == u && u !in gray && LowSound(g, t, u, |s.stack|) && t.low[u] != t.disc[u]
    ensures Links(g, t, gray)
  {
    hide Reach;
    var base := |s.stack|;
    var y :| y in t.stack[..base] && y in t.disc && t.disc[y] == t.low[u] && Reach(g, u, y);
    var k :| 0 <= k < base && t.stack[..base][k] == y;
    assert HasAnchor(g, t.stack, k, gray + {u});
    var m :| 0 <= m <= k && t.stack[m] in gray + {u} && Reach(g, t.stack[k], t.stack[m]);
    forall j | 0 <= j < |t.stack| ensures HasAnchor(g, t.stack, j, gray) {
      MoveAnchor(g, t.stack, j, base, u, y, m, gray);
    }
  }

  /** An anchor at `u` can be replaced by one below it that `u` reaches through `y`. */
  lemma MoveAnchor(g: Graph, stack: seq<int>, j: nat, base: nat, u: int, y: int, m: nat, gray: set<int>)
    requires j < |stack| && base < |stack| && stack[base] == u && Distinct(stack) && HasAnchor(g, stack, j, gray + {u})
    requires m < base && stack[m] in gray + {u} && Reach(g, u, y) && Reach(g, y, stack[m])
    ensures HasAnchor(g, stack, j, gray)
  {
    hide Reach;
    var i :| 0 <= i <= j && stack[i] in gray + {u} && Reach(g, stack[j], stack[i]);
    if stack[i] == u {
      ReachTrans(g, stack[j], u, y);
      ReachTrans(g, stack[j], y, stack[m]);
    }
  }

  lemma StayDone(g: Graph, u: int, s: Tarjan, t: Tarjan, gray: set<int>)
    requires Working(g, u, OutDegree(g, u), s, t, gray) && t.low[u] != t.disc[u]
    ensures Done(g, u, s, t, gray)
  {
    hide Lists, Times, Vertices, Reach, Emitted, Disjoint;
    StayLinks(g, u, s, t, gray);
    hide Links, HasAnchor;
    forall x, y | x in t.disc && x !in gray && Edge(g, x, y) ensures y in t.disc {
      if x == u { AllSeen(g, u, s, t, y); }
    }
    var base := |s.stack|;
    assert t.stack[..base] == s.stack;
    forall i | base <= i < |t.stack| ensures Bound(g, t, base, t.stack[i], t.low[u]) {
      if i == base {
        forall y | Edge(g, u, y) && y in t.stack[..base] ensures t.low[u] <= t.disc[y] { AllSeen(g, u, s, t, y); }
      }
    }
  }

  lemma PopBase(u: int, s: Tarjan, t: Tarjan)
    requires Distinct(t.stack) && s.stack <= t.stack && |s.stack| < |t.stack| && t.stack[|s.stack|] == u
    ensures u in t.stack && LastIndex(t.stack, u) == |s.stack| && t.stack[..|s.stack|] == s.stack
  {
    assert t.stack[|s.stack|] == u;
  }

  lemma PopBooks(g: Graph, u: int, s: Tarjan, t: Tarjan)
    requires Books(g, t) && s.stack <= t.stack && |s.stack| < |t.stack| && t.stack[|s.stack|] == u
    ensures u in t.stack && Books(g, Pop(u, t))
    ensures forall x :: Emitted(Pop(u, t).sccs, x) <==> Emitted(t.sccs, x) || x in t.stack[|s.stack|..]
  {
    hide Vertices;
    PopBase(u, s, t);
    var base := |s.stack|;
    var r := Pop(u, t);
    var top := t.stack[base..];
    assert t.stack == s.stack + top;
    forall x ensures Emitted(r.sccs, x) <==> Emitted(t.sccs, x) || x in top {
      if Emitted(t.sccs, x) {
        var k :| 0 <= k < |t.sccs| && x in t.sccs[k];
        assert r.sccs[k] == t.sccs[k];
      }
      if x in top { assert r.sccs[|t.sccs|] == top; }
      if Emitted(r.sccs, x) {
        var k :| 0 <= k < |r.sccs| && x in r.sccs[k];
        assert k < |t.sccs| ==> x in t.sccs[k];
      }
    }
    forall x | x in s.stack ensures x !in top {
      var i :| 0 <= i < |s.stack| && s.stack[i] == x;
      assert t.stack[i] == x;
    }
    PopDisjoint(t, top);
  }

  lemma PopDisjoint(t: Tarjan, top: seq<int>)
    requires Disjoint(t.sccs) && forall x :: x in top ==> !Emitted(t.sccs, x)
    ensures Disjoint(t.sccs + [top])
  {
    var all := t.sccs + [top];
    forall k, m, x | 0 <= k < m < |all| && x in all[k] ensures x !in all[m] {
      if m == |t.sccs| { assert x in t.sccs[k]; }
    }
  }

  /** With low[u] at its own discovery time, no edge leaves what lies from `u` upwards except to emitted vertices. */
  lemma TopIsClosed(g: Graph, u: int, s: Tarjan, t: Tarjan, gray: set<int>, x: int, y: int)
    requires Working(g, u, OutDegree(g, u), s, t, gray) && t.low[u] == t.disc[u]
    requires x in t.stack[|s.stack|..] && Edge(g, x, y)
    ensures Emitted(t.sccs, y) || y in t.stack[|s.stack|..]
  {
    hide Links, Lists, Vertices, Disjoint, LowSound, Emitted;
    var base := |s.stack|;
    assert y in t.disc && (y in s.stack ==> t.low[u] <= t.disc[y]) by {
      if x == u { AllSeen(g, u, s, t, y); } else { TopIsBlack(s, t, gray, x); TopBound(g, u, s, t, x, y); }
    }
    BelowIsEarlier(s, t, u, y);
    assert t.stack == t.stack[..base] + t.stack[base..];
  }

  lemma TopBound(g: Graph, u: int, s: Tarjan, t: Tarjan, x: int, y: int)
    requires s.stack <= t.stack && |s.stack| < |t.stack| && u in t.low && t.stack[|s.stack|] == u
    requires LowBound(g, t, |s.stack|, |s.stack| + 1, t.low[u])
    requires x in t.stack[|s.stack|..] && x != u && Edge(g, x, y) && y in t.disc
    ensures y in s.stack ==> t.low[u] <= t.disc[y]
  {
    var base := |s.stack|;
    var j :| 0 <= j < |t.stack[base..]| && t.stack[base..][j] == x;
    assert Bound(g, t, base, t.stack[base + j], t.low[u]);
    assert t.stack[..base] == s.stack;
  }

  lemma TopIsBlack(s: Tarjan, t: Tarjan, gray: set<int>, x: int)
    requires Distinct(t.stack) && s.stack <= t.stack && x in t.stack[|s.stack|..]
    requires forall z :: z in gray ==> z in s.stack
    ensures x !in gray
  {
    var j :| 0 <= j < |t.stack[|s.stack|..]| && t.stack[|s.stack|..][j] == x;
    assert t.stack[|s.stack| + j] == x;
    GrayBelow(s, t, gray, |s.stack| + j);
  }

  lemma BelowIsEarlier(s: Tarjan, t: Tarjan, u: int, y: int)
    requires Times(t) && s.stack <= t.stack && |s.stack| < |t.stack| && t.stack[|s.stack|] == u
    requires u in t.disc && y in t.disc
    ensures y in s.stack ==> t.disc[y] < t.disc[u]
  {
    if i :| 0 <= i < |s.stack| && s.stack[i] == y {
      assert t.stack[i] == y;
      assert t.disc[t.stack[i]] < t.disc[t.stack[|s.stack|]];
    }
  }

  lemma TopIsComponent(g: Graph, u: int, s: Tarjan, t: Tarjan, gray: set<int>)
    requires Working(g, u, OutDegree(g, u), s, t, gray) && t.low[u] == t.disc[u]
    ensures Component(g, t.stack[|s.stack|..])
  {
    hide Reach, Inv, LowSound, LowBound, SeenBound, Settled, Times, Vertices, Lists, Component;
    var base := |s.stack|;
    var top := t.stack[base..];
    assert top[0] == u;
    assert Distinct(t.stack) by { StackIsDistinct(g, t, gray + {u}); }
    forall x | x in top ensures Reach(g, u, x) && Reach(g, x, u) {
      var j :| 0 <= j < |top| && top[j] == x;
      TopReaches(g, u, s, t, gray, base + j);
    }
    TopDistinct(t.stack, base);
    forall x, z | x in top && Reach(g, x, z) && Reach(g, z, x) ensures z in top {
      TopIsMaximal(g, u, s, t, gray, x, z);
    }
    hide Working;
    AroundOneVertex(g, top, u);
  }

  lemma StackIsDistinct(g: Graph, t: Tarjan, gray: set<int>)
    requires Inv(g, t, gray)
    ensures Distinct(t.stack)
  {
    hide Lists, Links, Times, Settled, Vertices, Disjoint, Emitted;
  }

  lemma AroundOneVertex(g: Graph, c: seq<int>, u: int)
    requires Distinct(c) && u in c && forall x :: x in c ==> Reach(g, u, x) && Reach(g, x, u)
    requires forall x, z :: x in c && Reach(g, x, z) && Reach(g, z, x) ==> z in c
    ensures Component(g, c)
  {
    hide Reach;
    forall x, y | x in c && y in c ensures Reach(g, x, y) { ReachTrans(g, x, u, y); }
  }

  /** Everything from `u` upwards on the stack reaches `u` and is reached from it. */
  lemma TopReaches(g: Graph, u: int, s: Tarjan, t: Tarjan, gray: set<int>, j: nat)
    requires Working(g, u, OutDegree(g, u), s, t, gray) && |s.stack| <= j < |t.stack|
    ensures Reach(g, u, t.stack[j]) && Reach(g, t.stack[j], u)
  {
    hide LowSound, LowBound, SeenBound, Settled, Times, Vertices, Reach;
    var base := |s.stack|;
    assert Reach(g, t.stack[base], t.stack[j]);
    assert HasAnchor(g, t.stack, j, gray + {u});
    var i :| 0 <= i <= j && t.stack[i] in gray + {u} && Reach(g, t.stack[j], t.stack[i]);
    if i <= base {
      assert Reach(g, t.stack[i], t.stack[base]);
      ReachTrans(g, t.stack[j], t.stack[i], u);
    } else {
      GrayBelow(s, t, gray, i);
    }
  }

  lemma TopDistinct(stack: seq<int>, base: nat)
    requires Distinct(stack) && base <= |stack|
    ensures Distinct(stack[base..])
  {
  }

  lemma GrayBelow(s: Tarjan, t: Tarjan, gray: set<int>, i: nat)
    requires Distinct(t.stack) && s.stack <= t.stack && i < |t.stack|
    requires forall x :: x in gray ==> x in s.stack
    ensures t.stack[i] in gray ==> i < |s.stack|
  {
    var x := t.stack[i];
    if x in gray {
      assert x in s.stack;
      var k :| 0 <= k < |s.stack| && s.stack[k] == x;
      assert t.stack[k] == x;
    }
  }

  lemma EmittedIsClosed(g: Graph, sccs: seq<seq<int>>, x: int, y: int)
    requires ListsReverseTopological(g, sccs) && Emitted(sccs, x) && Edge(g, x, y)
    ensures Emitted(sccs, y)
  {
    var k :| 0 <= k < |sccs| && x in sccs[k];
    assert Emitted(sccs[..k + 1], y);
    var m :| 0 <= m < |sccs[..k + 1]| && y in sccs[..k + 1][m];
    assert y in sccs[m];
  }

  lemma TopIsMaximal(g: Graph, u: int, s: Tarjan, t: Tarjan, gray: set<int>, x: int, z: int)
    requires Working(g, u, OutDegree(g, u), s, t, gray) && t.low[u] == t.disc[u]
    requires x in t.stack[|s.stack|..] && Reach(g, x, z) && Reach(g, z, x)
    ensures z in t.stack[|s.stack|..]
  {
    var top := t.stack[|s.stack|..];
    var emitted := set y | y in t.disc && Emitted(t.sccs, y);
    var closed := emitted + set y | y in top;
    assert x in t.stack && x !in emitted;
    forall a, b | a in emitted && Edge(g, a, b) ensures b in emitted {
      EmittedIsClosed(g, t.sccs, a, b);
    }
    forall a, b | a in closed && Edge(g, a, b) ensures b in closed {
      if a in top { TopIsClosed(g, u, s, t, gray, a, b); }
    }
    ClosedBothWays(g, emitted, closed, x, z);
  }

  lemma ClosedBothWays(g: Graph, small: set<int>, large: set<int>, x: int, z: int)
    requires forall a, b :: a in small && Edge(g, a, b) ==> b in small
    requires forall a, b :: a in large && Edge(g, a, b) ==> b in large
    requires x in large && x !in small && Reach(g, x, z) && Reach(g, z, x)
    ensures z in large - small
  {
    var p :| PathBetween(g, p, x, z);
    ClosedUnderReach(g, large, p);
    if z in small {
      var q :| PathBetween(g, q, z, x);
      ClosedUnderReach(g, small, q);
    }
  }

  lemma PopLists(g: Graph, sccs: seq<seq<int>>, top: seq<int>)
    requires Lists(g, sccs) && Component(g, top)
    requires forall x, y :: x in top && Edge(g, x, y) ==> Emitted(sccs, y) || y in top
    ensures Lists(g, sccs + [top])
  {
    hide Component;
    var all := sccs + [top];
    forall k, x, y | 0 <= k < |all| && x in all[k] && Edge(g, x, y) ensures Emitted(all[..k + 1], y) {
      if k < |sccs| {
        assert all[..k + 1] == sccs[..k + 1];
        assert x in sccs[k];
      } else {
        assert all[..k + 1] == all;
        if y in top {
          assert y in all[|sccs|];
        } else {
          var m :| 0 <= m < |sccs| && y in sccs[m];
          assert y in all[m];
        }
      }
    }
  }

  lemma PopLinks(g: Graph, u: int, s: Tarjan, t: Tarjan, gray: set<int>)
    requires Links(g, t, gray + {u}) && Distinct(t.stack) && s.stack <= t.stack
    requires |s.stack| < |t.stack| && t.stack[|s.stack|] == u && u !in gray
    requires forall x :: x in gray ==> x in s.stack
    ensures Links(g, s, gray)
  {
    forall i, j | 0 <= i <= j < |s.stack| && s.stack[i] in gray ensures Reach(g, s.stack[i], s.stack[j]) {
      assert t.stack[i] in gray + {u} && Reach(g, t.stack[i], t.stack[j]);
    }
    forall j | 0 <= j < |s.stack| ensures HasAnchor(g, s.stack, j, gray) {
      assert HasAnchor(g, t.stack, j, gray + {u});
      var i :| 0 <= i <= j && t.stack[i] in gray + {u} && Reach(g, t.stack[j], t.stack[i]);
      assert s.stack[i] in gray;
    }
  }

  lemma PopSettles(g: Graph, u: int, s: Tarjan, t: Tarjan, gray: set<int>)
    requires Working(g, u, OutDegree(g, u), s, t, gray)
    ensures Settled(g, t, gray)
  {
    hide Books, Times, Links, Lists, LowBound, Vertices, Reach;
    forall x, y | x in t.disc && x !in gray && Edge(g, x, y) ensures y in t.disc {
      if x == u { AllSeen(g, u, s, t, y); }
    }
  }

  lemma PopEmits(g: Graph, u: int, s: Tarjan, t: Tarjan, gray: set<int>)
    requires Working(g, u, OutDegree(g, u), s, t, gray) && t.low[u] == t.disc[u]
    ensures Lists(g, t.sccs + [t.stack[|s.stack|..]])
  {
    var top := t.stack[|s.stack|..];
    TopIsComponent(g, u, s, t, gray);
    forall x, y | x in top && Edge(g, x, y) ensures Emitted(t.sccs, y) || y in top {
      TopIsClosed(g, u, s, t, gray, x, y);
    }
    hide Component, ListsReverseTopological, Books, Times, Links, LowSound, LowBound, SeenBound, Settled, Emitted;
    PopLists(g, t.sccs, top);
  }

  lemma PopKeeps(g: Graph, s: Tarjan, t: Tarjan, r: Tarjan, gray: set<int>)
    requires Times(t) && Settled(g, t, gray) && Links(g, s, gray)
    requires r.stack == s.stack && r.stack <= t.stack && r.disc == t.disc && r.time == t.time
    ensures Times(r) && Settled(g, r, gray) && Links(g, r, gray)
  {
    hide Reach, HasAnchor;
    forall j | 0 <= j < |r.stack| ensures HasAnchor(g, r.stack, j, gray) { assert HasAnchor(g, s.stack, j, gray); }
  }

  lemma PopDone(g: Graph, u: int, s: Tarjan, t: Tarjan, gray: set<int>)
    requires Working(g, u, OutDegree(g, u), s, t, gray) && t.low[u] == t.disc[u]
    ensures u in t.stack && Done(g, u, s, Pop(u, t), gray)
  {
    hide Component, ListsReverseTopological, Vertices, HasAnchor, Emitted, Disjoint, Bound, Reach, Lists;
    PopBase(u, s, t);
    PopBooks(g, u, s, t);
    PopLinks(g, u, s, t, gray);
    PopEmits(g, u, s, t, gray);
    PopSettles(g, u, s, t, gray);
    PopKeeps(g, s, t, Pop(u, t), gray);
    hide Books, Links, SeenBound, Times, Settled;
  }

  // ---------- the recursion ----------

  lemma {:induction false} DfsDone(g: Graph, u: int, s: Tarjan, gray: set<int>)
    requires Inv(g, s, gray) && u in Vertices(g) && u !in s.disc
    requires forall x :: x in gray ==> Reach(g, x, u)
    ensures Done(g, u, s, Dfs(g, u, s), gray)
    decreases Vertices(g) - Enter(u, s).disc.Keys, 2 * OutDegree(g, u) + 2
  {
    EnterWorking(g, u, s, gray);
    EdgesDone(g, u, 0, s, Enter(u, s), gray);
    var t := Edges(g, u, 0, Enter(u, s));
    if t.low[u] == t.disc[u] { PopDone(g, u, s, t, gray); } else { StayDone(g, u, s, t, gray); }
    hide Done, Working, Edges;
  }

  lemma {:induction false} EdgesDone(g: Graph, u: int, i: nat, s: Tarjan, t: Tarjan, gray: set<int>)
    requires i <= OutDegree(g, u) && u in Vertices(g) && u in t.low && Working(g, u, i, s, t, gray)
    ensures Working(g, u, OutDegree(g, u), s, Edges(g, u, i, t), gray)
    decreases Vertices(g) - t.disc.Keys, 2 * (OutDegree(g, u) - i) + 1
  {
    hide Working, Dfs, Visit, Vertices;
    if i < OutDegree(g, u) {
      VisitDone(g, u, i, s, t, gray);
      EdgesDone(g, u, i + 1, s, Visit(g, u, g[u][i], t), gray);
    }
  }

  lemma {:induction false} VisitDone(g: Graph, u: int, i: nat, s: Tarjan, t: Tarjan, gray: set<int>)
    requires i < OutDegree(g, u) && Working(g, u, i, s, t, gray)
    ensures Working(g, u, i + 1, s, Visit(g, u, g[u][i], t), gray)
    decreases Vertices(g) - t.disc.Keys, 0
  {
    var v := g[u][i];
    EdgeInVertices(g, u, v);
    hide Dfs, Done, Inv;
    if v !in t.disc {
      assert v in Vertices(g) - t.disc.Keys && v !in Vertices(g) - Enter(v, t).disc.Keys;
      GrayReaches(g, u, v, i, s, t, gray);
      DfsDone(g, v, t, gray + {u});
      VisitChild(g, u, i, s, t, Dfs(g, v, t), gray);
    } else {
      OnStackIsStack(g, t, v, gray + {u});
      if v in t.stack { VisitOnStack(g, u, i, s, t, gray); } else { VisitOffStack(g, u, i, s, t, gray); }
    }
  }

  lemma OnStackIsStack(g: Graph, t: Tarjan, v: int, gray: set<int>)
    requires Inv(g, t, gray)
    ensures v in t.onStack && t.onStack[v] <==> v in t.stack
  {
    hide Lists, Links, Times, Settled, Vertices, Disjoint;
  }

  lemma {:induction false} RootsDone(g: Graph, roots: seq<int>, s: Tarjan)
    requires Inv(g, s, {}) && forall x :: x in roots ==> x in g
    ensures Inv(g, Roots(g, roots, s), {})
    ensures forall x :: x in roots || x in s.disc ==> x in Roots(g, roots, s).disc
    decreases |roots|
  {
    if roots != [] {
      if roots[0] !in s.disc { DfsDone(g, roots[0], s, {}); }
      var t := if roots[0] in s.disc then s else Dfs(g, roots[0], s);
      assert Inv(g, t, {}) && forall x :: x in s.disc || x == roots[0] ==> x in t.disc;
      hide Inv, Dfs;
      RootsDone(g, roots[1..], t);
    }
  }

  /** The lists emitted when the search is started from every key, in any order, with nothing visited. */
  ghost function Components(g: Graph, order: seq<int>): seq<seq<int>>
    requires forall x :: x in order ==> x in g
  {
    Roots(g, order, EMPTY).sccs
  }

  /** Every vertex of the graph is in exactly one list, once; each list is a maximal strongly connected set; and
      every edge leads into its own list or an earlier one. */
  lemma ComponentsAreExact(g: Graph, order: seq<int>)
    requires forall x :: x in order <==> x in g
    ensures Lists(g, Components(g, order)) && Disjoint(Components(g, order))
    ensures forall x :: Emitted(Components(g, order), x) <==> x in Vertices(g)
  {
    RootsDone(g, order, EMPTY);
    var r := Roots(g, order, EMPTY);
    assert |r.stack| > 0 ==> HasAnchor(g, r.stack, 0, {});
    assert r.stack == [];
    forall x | x in Vertices(g) ensures x in r.disc {
      if x !in g {
        var y, i :| y in g && 0 <= i < |g[y]| && g[y][i] == x;
        assert Edge(g, y, x);
      }
    }
  }
}
