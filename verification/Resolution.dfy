/** Choosing and aborting victims (DistributedDBNode.cpp, DeadlockDetector.cpp): each round of detection destroys
    every cycle it reported, and repeated rounds end every cycle of the wait-for relation of a node.  That relation has
    only the waiters at the fronts of their queues; HiddenDeadlocks says what is left besides. */
module Resolution {
  import opened Commons
  import opened Graphs
  import opened LockModel
  import opened NodeModel
  import opened WaitForGraph
  import D = DetectorModel
  import T = DetectorTheorems
  import P = Reports

  // ---------- choosing a victim ----------

  /** Who is in more of the cycles comes first, and of equals the one that began first. */
  predicate Before(frequency: map<TransactionId, int>, a: TransactionId, b: TransactionId)
    requires a in frequency && b in frequency
  {
    if frequency[a] != frequency[b] then frequency[a] > frequency[b] else a < b
  }

  predicate Ranked(cycle: seq<TransactionId>, frequency: map<TransactionId, int>) {
    forall t :: t in cycle ==> t in frequency
  }

  /** `v` is the member in the most cycles, and of several such members the one with the least id. */
  ghost predicate FirstOf(v: TransactionId, cycle: seq<TransactionId>, frequency: map<TransactionId, int>) {
    && v in cycle && v in frequency
    && forall t :: t in cycle && t in frequency ==>
         frequency[t] <= frequency[v] && (frequency[t] == frequency[v] ==> v <= t)
  }

  /** The candidate that sorting by priority puts first. */
  function Victim(cycle: seq<TransactionId>, frequency: map<TransactionId, int>): (v: TransactionId)
    requires cycle != [] && Ranked(cycle, frequency)
    ensures FirstOf(v, cycle, frequency)
  {
    var n := |cycle| - 1;
    if n == 0 then cycle[0]
    else
      assert cycle == cycle[..n] + [cycle[n]];
      var v := Victim(cycle[..n], frequency);
      if Before(frequency, cycle[n], v) then cycle[n] else v
  }

  lemma VictimIsMember(cycle: seq<TransactionId>, frequency: map<TransactionId, int>)
    requires cycle != [] && Ranked(cycle, frequency)
    ensures Victim(cycle, frequency) in cycle
  {
  }

  /** The choice is determined by the members of the cycle and their frequencies: neither the rotation in which the
      cycle was reported nor the order in which equal elements are sorted matters. */
  lemma VictimIsDetermined(cycle: seq<TransactionId>, frequency: map<TransactionId, int>, v: TransactionId)
    requires cycle != [] && Ranked(cycle, frequency)
    ensures v == Victim(cycle, frequency) <==>
      && v in cycle
      && forall t :: t in cycle ==> frequency[t] <= frequency[v] && (frequency[t] == frequency[v] ==> v <= t)
  {
    var u := Victim(cycle, frequency);
    assert u in cycle && FirstOf(u, cycle, frequency);
  }

  /** The lookup of a frequency throws when the map has no entry, and then there is no victim.  Otherwise it is the
      member in the most cycles, and of several such members the one with the least id. */
  method SelectVictim(cycle: seq<TransactionId>, frequency: map<TransactionId, int>)
    returns (victim: Option<TransactionId>)
    requires cycle != []
    ensures victim == if Ranked(cycle, frequency) then Some(Victim(cycle, frequency)) else None
    ensures victim.None? <==> exists t :: t in cycle && t !in frequency
    ensures victim.Some? ==> victim.value in cycle && forall t :: t in cycle ==>
      && frequency[t] <= frequency[victim.value]
      && (frequency[t] == frequency[victim.value] ==> victim.value <= t)
  {
    var first := cycle[0];
    assert first in cycle;
    if first !in frequency { return None; }
    for i := 1 to |cycle|
      invariant Ranked(cycle[..i], frequency) && first == Victim(cycle[..i], frequency)
    {
      assert cycle[..i + 1] == cycle[..i] + [cycle[i]] && cycle[..i + 1][..i] == cycle[..i];
      var t := cycle[i];
      assert t in cycle;
      if t !in frequency { return None; }
      if Before(frequency, t, first) { first := t; }
    }
    assert cycle[..|cycle|] == cycle;
    victim := Some(first);
    assert FirstOf(first, cycle, frequency);
  }

  predicate AllRanked(cycles: seq<seq<TransactionId>>, frequency: map<TransactionId, int>) {
    forall i :: 0 <= i < |cycles| ==> cycles[i] != [] && Ranked(cycles[i], frequency)
  }

  /** One victim for every reported cycle. */
  function Victims(cycles: seq<seq<TransactionId>>, frequency: map<TransactionId, int>): (victims: seq<TransactionId>)
    requires AllRanked(cycles, frequency)
    ensures |victims| == |cycles| && forall i :: 0 <= i < |cycles| ==> victims[i] == Victim(cycles[i], frequency)
  {
    if cycles == [] then [] else Victims(cycles[..|cycles| - 1], frequency) + [Victim(cycles[|cycles| - 1], frequency)]
  }

  // ---------- aborting ----------

  function AbortAll(s: Node, victims: seq<TransactionId>): Node {
    if victims == [] then s
    else
      var n := |victims| - 1;
      Finish(AbortAll(s, victims[..n]), victims[n], Aborting(victims[n]))
  }

  /** An abort removes from the wait-for relation exactly the edges that touch the transaction. */
  lemma AbortRemovesItsEdges(s: Node, t: TransactionId, w: TransactionId, h: TransactionId)
    requires Inv(s)
    ensures WaitsFor(Finish(s, t, Aborting(t)), w, h) <==> WaitsFor(s, w, h) && w != t && h != t
  {
    if t in s.txns {
      ReleaseAllEntries(s.locks, t);
      var s' := Finish(s, t, Aborting(t));
      var r := WaitingFor(s, w);
      assert HoldersOf(s'.locks, r) == HoldersOf(s.locks, r) - {t};
    } else if WaitsFor(s, w, h) {
      EndsAreActive(s, w, h);
    }
  }

  lemma {:induction false} AbortAllRemovesTheirEdges(s: Node, victims: seq<TransactionId>)
    requires Inv(s)
    ensures var s' := AbortAll(s, victims);
      && Inv(s')
      && (forall t :: t in s'.txns <==> t in s.txns && t !in victims)
      && (forall w, h :: WaitsFor(s', w, h) <==> WaitsFor(s, w, h) && w !in victims && h !in victims)
  {
    if victims != [] {
      var n := |victims| - 1;
      var before := AbortAll(s, victims[..n]);
      AbortAllRemovesTheirEdges(s, victims[..n]);
      assert victims == victims[..n] + [victims[n]];
      FinishInv(before, victims[n], Aborting(victims[n]));
      var s' := AbortAll(s, victims);
      hide WaitsFor, Inv;
      forall w, h ensures WaitsFor(s', w, h) <==> WaitsFor(s, w, h) && w !in victims && h !in victims {
        AbortRemovesItsEdges(before, victims[n], w, h);
      }
    }
  }

  // ---------- one round ----------

  /** Front waiters wait for each other in a cycle: the deadlocks that the graph of the node shows. */
  ghost predicate HasWaitCycle(s: Node) { exists c :: WaitCycle(s, c) }

  ghost predicate OnWaitCycle(s: Node, t: TransactionId) { exists c :: WaitCycle(s, c) && t in c }

  lemma WaitCycleIsClosedWalk(g: Graph, s: Node, c: seq<TransactionId>)
    requires IsWaitGraph(g, s, None)
    ensures ClosedWalk(g, c) <==> WaitCycle(s, c)
  {
    hide WaitsFor, Edge;
    assert forall w, h :: Edge(g, w, h) <==> WaitsFor(s, w, h);
  }

  lemma WaitCyclesAreCycles(g: Graph, s: Node)
    requires IsWaitGraph(g, s, None)
    ensures Cyclic(g) <==> HasWaitCycle(s)
  {
    hide ClosedWalk, WaitCycle, IsWaitGraph;
    if c :| ClosedWalk(g, c) { WaitCycleIsClosedWalk(g, s, c); }
    if c :| WaitCycle(s, c) { WaitCycleIsClosedWalk(g, s, c); }
  }

  lemma WaitGraphVertices(g: Graph, s: Node)
    requires Inv(s) && IsWaitGraph(g, s, None)
    ensures forall t :: t in Vertices(g) ==> t in s.txns && t >= 1
  {
    forall t | t in Vertices(g) ensures t in s.txns && t >= 1 {
      if t in g {
        var h := g[t][0];
        assert Edge(g, t, h);
        EndsAreActive(s, t, h);
      } else {
        var w, i :| w in g && 0 <= i < |g[w]| && g[w][i] == t;
        assert Edge(g, w, t);
        EndsAreActive(s, w, t);
      }
      assert TxnValid(s, s.txns[t]);
    }
  }

  /** Every reported cycle has a victim: its members all have a frequency. */
  lemma ReportedCyclesHaveVictims(g: Graph, order: seq<int>)
    requires 0 !in Vertices(g) && IterationOrder(g, order) && D.FindCycles(g, order).Returns?
    ensures var found := D.FindCycles(g, order).search;
      && AllRanked(found.cycles, found.frequency)
      && (forall i :: 0 <= i < |found.cycles| ==> ClosedWalk(g, found.cycles[i]))
  {
    T.ReportedCyclesAreReal(g, order);
    var found := D.FindCycles(g, order).search;
    hide D.FindCycles;
    forall i | 0 <= i < |found.cycles|
      ensures ClosedWalk(g, found.cycles[i]) && found.cycles[i] != [] && Ranked(found.cycles[i], found.frequency)
    {
      var c := found.cycles[i];
      assert SimpleCycle(g, c);
      forall k | 0 <= k < |c| ensures c[k] in Vertices(g) {
        EdgeInVertices(g, c[k], if k < |c| - 1 then c[k + 1] else c[0]);
      }
    }
  }

  /** The victims of the search, one for each reported cycle. */
  ghost function Chosen(g: Graph, order: seq<int>): (victims: seq<TransactionId>)
    requires 0 !in Vertices(g) && IterationOrder(g, order) && D.FindCycles(g, order).Returns?
    ensures |victims| == |D.FindCycles(g, order).search.cycles|
    ensures forall i :: 0 <= i < |victims| ==> victims[i] in D.FindCycles(g, order).search.cycles[i]
  {
    ReportedCyclesHaveVictims(g, order);
    var found := D.FindCycles(g, order).search;
    Victims(found.cycles, found.frequency)
  }

  /** Of each reported cycle the victim is the member that lies on the most reported cycles, and of several such members
      the one that began first. */
  lemma VictimsAreMostInvolved(g: Graph, order: seq<int>, i: nat)
    requires 0 !in Vertices(g) && IterationOrder(g, order) && D.FindCycles(g, order).Returns?
    requires i < |D.FindCycles(g, order).search.cycles|
    ensures var cycles, v := D.FindCycles(g, order).search.cycles, Chosen(g, order)[i];
      && v in cycles[i]
      && forall t :: t in cycles[i] ==>
           && T.Containing(cycles, t) <= T.Containing(cycles, v)
           && (T.Containing(cycles, t) == T.Containing(cycles, v) ==> v <= t)
  {
    ReportedCyclesHaveVictims(g, order);
    T.ReportedCyclesAreReal(g, order);
    var found := D.FindCycles(g, order).search;
    var v := Chosen(g, order)[i];
    assert Ranked(found.cycles[i], found.frequency) && FirstOf(v, found.cycles[i], found.frequency);
  }

  /** The state after the graph of `s` was searched and the victim of each reported cycle was aborted. */
  ghost predicate Resolved(s: Node, s': Node) {
    exists g, order :: ResolvedWith(s, s', g, order)
  }

  ghost predicate ResolvedWith(s: Node, s': Node, g: Graph, order: seq<int>) {
    && IsWaitGraph(g, s, None) && IterationOrder(g, order) && 0 !in Vertices(g)
    && D.FindCycles(g, order).Returns? && s' == AbortAll(s, Chosen(g, order))
  }

  /** A round ends every wait cycle that it reported, aborts somebody exactly when there was a wait cycle, and adds no
      edge to the wait-for relation.  Everybody it aborts was on a wait cycle. */
  lemma RoundDestroysReportedCycles(s: Node, s': Node, g: Graph, order: seq<int>)
    requires Inv(s) && ResolvedWith(s, s', g, order)
    ensures Inv(s') && forall w, h :: WaitsFor(s', w, h) ==> WaitsFor(s, w, h)
    ensures forall i :: 0 <= i < |D.FindCycles(g, order).search.cycles| ==>
      WaitCycle(s, D.FindCycles(g, order).search.cycles[i]) && !WaitCycle(s', D.FindCycles(g, order).search.cycles[i])
    ensures s'.txns.Keys <= s.txns.Keys && (s'.txns.Keys != s.txns.Keys <==> HasWaitCycle(s))
    ensures forall t :: t in s.txns && t !in s'.txns ==> OnWaitCycle(s, t)
  {
    var found := D.FindCycles(g, order).search;
    var victims := Chosen(g, order);
    AbortAllRemovesTheirEdges(s, victims);
    ReportedCyclesHaveVictims(g, order);
    T.DetectorDecidesCyclicity(g, order);
    WaitCyclesAreCycles(g, s);
    hide D.FindCycles, Inv, IsWaitGraph, WaitsFor, AbortAll, HasWaitCycle, ClosedWalk, AllRanked, Vertices, Cyclic;
    forall i | 0 <= i < |found.cycles|
      ensures WaitCycle(s, found.cycles[i]) && !WaitCycle(s', found.cycles[i]) && victims[i] in s.txns
    {
      CycleBroken(s, s', g, found.cycles[i], victims[i], victims);
    }
    VictimsWereActive(s, s', victims);
    forall t | t in s.txns && t !in s'.txns ensures OnWaitCycle(s, t) {
      var i :| 0 <= i < |victims| && victims[i] == t;
      assert WaitCycle(s, found.cycles[i]) && t in found.cycles[i];
    }
  }

  /** No wait cycle gets away: somebody is aborted among the transactions that wait for its members and for whom they
      wait, directly or not. */
  lemma EveryWaitCycleLosesSomebody(s: Node, s': Node, g: Graph, order: seq<int>, c: seq<TransactionId>)
    returns (t: TransactionId)
    requires Inv(s) && ResolvedWith(s, s', g, order) && WaitCycle(s, c)
    ensures t in s.txns && t !in s'.txns && T.Mutual(g, c[0], t)
  {
    WaitCycleIsClosedWalk(g, s, c);
    assert c[0] in c && OnCycle(g, c[0]);
    var k := T.EveryComponentIsReported(g, order, c[0]);
    RoundDestroysReportedCycles(s, s', g, order);
    VictimsAreMostInvolved(g, order, k);
    t := Chosen(g, order)[k];
    AbortAllRemovesTheirEdges(s, Chosen(g, order));
    var d := D.FindCycles(g, order).search.cycles[k];
    assert WaitCycle(s, d);
    hide D.FindCycles, Inv, IsWaitGraph, WaitsFor, T.Mutual, Vertices;
    assert t in d && t in Chosen(g, order);
    MemberIsActive(s, d, t);
  }

  lemma MemberIsActive(s: Node, c: seq<TransactionId>, t: TransactionId)
    requires Inv(s) && WaitCycle(s, c) && t in c
    ensures t in s.txns
  {
    var i :| 0 <= i < |c| && c[i] == t;
    EndsAreActive(s, t, if i < |c| - 1 then c[i + 1] else c[0]);
  }

  lemma VictimsWereActive(s: Node, s': Node, victims: seq<TransactionId>)
    requires forall t :: t in s'.txns <==> t in s.txns && t !in victims
    requires forall i :: 0 <= i < |victims| ==> victims[i] in s.txns
    ensures s'.txns.Keys <= s.txns.Keys && (s'.txns.Keys != s.txns.Keys <==> victims != [])
  {
    forall t | t in s'.txns.Keys ensures t in s.txns.Keys { assert t in s'.txns; }
    if victims == [] {
      forall t ensures t in s.txns.Keys <==> t in s'.txns.Keys { assert t in s.txns <==> t in s'.txns; }
      SameElements(s.txns.Keys, s'.txns.Keys);
    } else {
      var v := victims[0];
      assert v in victims && v in s.txns && v !in s'.txns;
      assert v in s.txns.Keys && v !in s'.txns.Keys;
    }
  }

  lemma CycleBroken(s: Node, s': Node, g: Graph, c: seq<TransactionId>, v: TransactionId, victims: seq<TransactionId>)
    requires Inv(s) && IsWaitGraph(g, s, None) && ClosedWalk(g, c) && v in c && v in victims
    requires forall w, h :: WaitsFor(s', w, h) <==> WaitsFor(s, w, h) && w !in victims && h !in victims
    ensures WaitCycle(s, c) && !WaitCycle(s', c) && v in s.txns
  {
    WaitCycleIsClosedWalk(g, s, c);
    var i :| 0 <= i < |c| && c[i] == v;
    var next := if i < |c| - 1 then c[i + 1] else c[0];
    assert WaitsFor(s, v, next);
    EndsAreActive(s, v, next);
    assert !WaitsFor(s', v, next);
  }

  /** Pruning the graph of a node to its active transactions before the search changes nothing, and with every
      chosen victim aborted the check is one round. */
  lemma LocalCheckIsARound(s: Node, g: Graph, order: seq<int>)
    requires Inv(s) && IsWaitGraph(g, s, None)
    requires IterationOrder(P.Prune(g, s.txns.Keys), order)
    ensures P.Prune(g, s.txns.Keys) == g && 0 !in Vertices(g)
    ensures D.FindCycles(g, order).Returns? ==> Resolved(s, AbortAll(s, Chosen(g, order)))
    ensures P.Prune(g, s.txns.Keys) == map[] ==> !HasWaitCycle(s)
  {
    WaitGraphVertices(g, s);
    forall w, h | Edge(g, w, h) ensures w in s.txns.Keys && h in s.txns.Keys { EndsAreActive(s, w, h); }
    P.PruneOfPruned(g, s.txns.Keys);
    WaitCyclesAreCycles(g, s);
    hide IsWaitGraph, Inv;
    if D.FindCycles(g, order).Returns? { assert ResolvedWith(s, AbortAll(s, Chosen(g, order)), g, order); }
    if g == map[] { assert forall c :: !ClosedWalk(g, c); }
  }

  lemma PrunedVertices(s: Node, g: Graph)
    requires Inv(s)
    ensures 0 !in Vertices(P.Prune(g, s.txns.Keys))
    ensures forall t :: t in Vertices(P.Prune(g, s.txns.Keys)) ==> t in s.txns
  {
    var p := P.Prune(g, s.txns.Keys);
    forall t | t in Vertices(p) ensures t in s.txns && t >= 1 {
      if t in p {
        P.PruneIsInduced(g, s.txns.Keys, t, p[t][0]);
      } else {
        var w, i :| w in p && 0 <= i < |p[w]| && p[w][i] == t;
        P.PruneIsInduced(g, s.txns.Keys, w, t);
      }
      assert TxnValid(s, s.txns[t]);
    }
  }

  lemma AbortEndsItsCycles(s: Node, c: seq<TransactionId>, t: TransactionId)
    requires Inv(s) && WaitCycle(s, c)
    ensures WaitCycle(Finish(s, t, Aborting(t)), c) <==> t !in c
  {
    var s' := Finish(s, t, Aborting(t));
    hide WaitsFor, Finish, Inv;
    forall w, h ensures WaitsFor(s', w, h) <==> WaitsFor(s, w, h) && w != t && h != t {
      AbortRemovesItsEdges(s, t, w, h);
    }
    if t in c {
      var i :| 0 <= i < |c| && c[i] == t;
      assert !WaitsFor(s', c[i], if i < |c| - 1 then c[i + 1] else c[0]);
    }
  }

  /** As long as nobody waits for a shared lock, the search of the node's graph returns in every iteration order, and it
      reports something exactly when there is a wait cycle. */
  lemma ExclusiveWaitsAreFound(s: Node, g: Graph, order: seq<int>)
    requires Inv(s) && IsWaitGraph(g, s, None) && IterationOrder(g, order)
    requires forall w, h :: WaitsFor(s, w, h) ==> HoldersOf(s.locks, WaitingFor(s, w))[h] == Exclusive
    ensures 0 !in Vertices(g) && D.FindCycles(g, order).Returns?
    ensures D.FindCycles(g, order).search.cycles != [] <==> HasWaitCycle(s)
  {
    WaitGraphVertices(g, s);
    forall y, a, b | Edge(g, y, a) && Edge(g, y, b) ensures a == b {
      assert WaitsFor(s, y, a) && WaitsFor(s, y, b);
      assert Compatible(HoldersOf(s.locks, WaitingFor(s, y)));
    }
    hide D.FindCycles, Inv, IsWaitGraph, WaitsFor, HasWaitCycle, Vertices, Cyclic;
    T.SingleSuccessorsReturn(g, order);
    T.DetectorDecidesCyclicity(g, order);
    WaitCyclesAreCycles(g, s);
  }

  // ---------- repeated rounds ----------

  /** Each state is the outcome of a round in the one before. */
  ghost predicate Rounds(states: seq<Node>) {
    |states| > 0 && forall i :: 0 <= i < |states| - 1 ==> Resolved(states[i], states[i + 1])
  }

  /** Where there is no wait cycle, rounds change nothing. */
  lemma {:induction false} RoundsStopAtOnce(states: seq<Node>, i: nat)
    requires Rounds(states) && Inv(states[0]) && !HasWaitCycle(states[0]) && i < |states|
    ensures states[i] == states[0]
  {
    hide Resolved, Inv, HasWaitCycle;
    if i > 0 {
      RoundsStopAtOnce(states, i - 1);
      assert Resolved(states[i - 1], states[i - 1 + 1]);
      IdleRound(states[i - 1], states[i]);
    }
  }

  lemma IdleRound(s: Node, s': Node)
    requires Inv(s) && Resolved(s, s') && !HasWaitCycle(s)
    ensures s' == s
  {
    var g, order :| ResolvedWith(s, s', g, order);
    T.DetectorDecidesCyclicity(g, order);
    WaitCyclesAreCycles(g, s);
    hide D.FindCycles, Inv, IsWaitGraph, HasWaitCycle, Vertices, Cyclic;
    assert Chosen(g, order) == [];
  }

  lemma FewerStaysFree(s: Node, s': Node)
    requires !HasWaitCycle(s) && forall w, h :: WaitsFor(s', w, h) ==> WaitsFor(s, w, h)
    ensures !HasWaitCycle(s')
  {
    hide WaitsFor;
    forall c ensures WaitCycle(s', c) ==> WaitCycle(s, c) {}
  }

  lemma OneRound(s: Node, s': Node)
    requires Inv(s) && Resolved(s, s')
    ensures Inv(s') && (HasWaitCycle(s') ==> HasWaitCycle(s) && |s'.txns.Keys| < |s.txns.Keys|)
  {
    hide Inv, HasWaitCycle, ResolvedWith, WaitsFor;
    var g, order :| ResolvedWith(s, s', g, order);
    RoundDestroysReportedCycles(s, s', g, order);
    if HasWaitCycle(s) { StrictlySmaller(s'.txns.Keys, s.txns.Keys); } else { FewerStaysFree(s, s'); }
  }

  lemma {:induction false} RoundsShrink(states: seq<Node>)
    requires Rounds(states) && Inv(states[0])
    ensures var last := states[|states| - 1];
      Inv(last) && (HasWaitCycle(last) ==> |last.txns.Keys| + |states| - 1 <= |states[0].txns.Keys|)
    decreases |states|
  {
    hide Inv, HasWaitCycle, Resolved;
    if |states| > 1 {
      var n := |states| - 1;
      RoundsShrink(states[..n]);
      assert Resolved(states[n - 1], states[n - 1 + 1]);
      OneRound(states[n - 1], states[n]);
    }
  }

  lemma StrictlySmaller(a: set<int>, b: set<int>)
    requires a <= b && a != b
    ensures |a| < |b|
  {
    assert b == a + (b - a);
    assert b - a != {};
  }

  lemma WaitCycleNeedsTwo(s: Node)
    requires Inv(s) && HasWaitCycle(s)
    ensures |s.txns.Keys| >= 2
  {
    var c :| WaitCycle(s, c);
    var w, h := c[0], if |c| > 1 then c[1] else c[0];
    assert WaitsFor(s, w, h);
    EndsAreActive(s, w, h);
    T.SubsetSize({w, h}, s.txns.Keys);
  }

  /** Rounds make progress: with n active transactions at the start, no wait cycle is left after n - 1 rounds in which
      the search returned. */
  lemma RoundsEndWaitCycles(states: seq<Node>)
    requires Rounds(states) && Inv(states[0]) && |states| >= |states[0].txns.Keys|
    ensures !HasWaitCycle(states[|states| - 1])
  {
    RoundsShrink(states);
    if HasWaitCycle(states[|states| - 1]) { WaitCycleNeedsTwo(states[|states| - 1]); }
  }
}
