/** The wait-for relation of a node, and what of it survives the steps of a run (LockTable.cpp). */
module WaitForGraph {
  import opened Commons
  import opened Graphs
  import opened LockModel
  import opened NodeModel
  import P = Reports

  function WaitingFor(s: Node, t: TransactionId): ResourceId {
    if t in s.txns then s.txns[t].waitingForResourceId else 0
  }

  predicate IsLocal(s: Node, r: ResourceId) { OwnerNodeId(r) == s.locks.nodeId && r >= 1 }

  predicate IsFront(s: Node, w: TransactionId, r: ResourceId) {
    QueueOf(s.locks, r) != [] && QueueOf(s.locks, r)[0] == w
  }

  /** `w` is first in the queue of the local resource it waits for, and `h` is another holder of it. */
  predicate WaitsFor(s: Node, w: TransactionId, h: TransactionId) {
    var r := WaitingFor(s, w);
    IsLocal(s, r) && IsFront(s, w, r) && h in HoldersOf(s.locks, r) && h != w
  }

  ghost predicate WaitCycle(s: Node, c: seq<TransactionId>) {
    && |c| > 0
    && (forall i :: 0 <= i < |c| - 1 ==> WaitsFor(s, c[i], c[i + 1]))
    && WaitsFor(s, c[|c| - 1], c[0])
  }

  lemma WaiterIsBlocked(s: Node, w: TransactionId, r: ResourceId)
    requires Inv(s) && WaitingFor(s, w) == r && IsLocal(s, r)
    ensures w in s.txns && LocalWait(s.txns[w]) && w in QueueOf(s.locks, r) && w < s.nextId
  {
    assert TxnValid(s, s.txns[w]);
  }

  lemma HolderIsActive(s: Node, h: TransactionId, r: ResourceId)
    requires Inv(s) && h in HoldersOf(s.locks, r)
    ensures h in s.txns && h < s.nextId
  {
    assert h in s.txns;
    assert TxnValid(s, s.txns[h]);
  }

  // ---------- what survives a step ----------

  /** The log has an end of `t` at position n or later. */
  ghost predicate EndedSince(n: nat, s: Node, t: TransactionId) {
    exists i :: n <= i < |s.history| && s.history[i].t == t && !s.history[i].Granted?
  }

  ghost predicate AbortedSince(n: nat, s: Node, t: TransactionId) {
    exists i :: n <= i < |s.history| && s.history[i] == Aborting(t)
  }

  ghost predicate Evolves(s: Node, s': Node) {
    && s'.locks.nodeId == s.locks.nodeId && s.nextId <= s'.nextId && s.history <= s'.history
    && (forall t :: t in s'.txns && t < s.nextId ==> t in s.txns)
    && (forall r :: QueueOf(s.locks, r) <= QueueOf(s'.locks, r))
    && (forall r, h :: h in HoldersOf(s.locks, r) && h in s'.txns ==> h in HoldersOf(s'.locks, r))
    && (forall t :: t in s.txns && t !in s'.txns ==> EndedSince(|s.history|, s', t))
    && (forall w :: w in s.txns && LocalWait(s.txns[w]) ==>
          if w in s'.txns then s'.txns[w] == s.txns[w] else AbortedSince(|s.history|, s', w))
  }

  lemma EndedIsGone(n: nat, s: Node, t: TransactionId)
    requires Inv(s)
    ensures AbortedSince(n, s, t) ==> EndedSince(n, s, t)
    ensures EndedSince(n, s, t) ==> t !in s.txns
  {
    if EndedSince(n, s, t) {
      var i :| n <= i < |s.history| && s.history[i].t == t && !s.history[i].Granted?;
      assert s.history[i] in s.history;
    }
  }

  /** An end stays in the log, and may be looked for from further back. */
  lemma EndsStay(m: nat, n: nat, s: Node, s': Node, t: TransactionId)
    requires s.history <= s'.history && m <= n
    ensures EndedSince(n, s, t) ==> EndedSince(m, s', t)
    ensures AbortedSince(n, s, t) ==> AbortedSince(m, s', t)
  {
    if EndedSince(n, s, t) {
      var i :| n <= i < |s.history| && s.history[i].t == t && !s.history[i].Granted?;
      assert s'.history[i] == s.history[i];
    }
    if AbortedSince(n, s, t) {
      var i :| n <= i < |s.history| && s.history[i] == Aborting(t);
      assert s'.history[i] == s.history[i];
    }
  }

  lemma EvolvesTrans(a: Node, b: Node, c: Node)
    requires Evolves(a, b) && Evolves(b, c) && Inv(a)
    ensures Evolves(a, c)
  {
    hide EndedSince, AbortedSince;
    forall r, h | h in HoldersOf(a.locks, r) && h in c.txns ensures h in HoldersOf(c.locks, r) {
      HolderIsActive(a, h, r);
      assert h in b.txns;
    }
    forall t | t in a.txns && t !in c.txns ensures EndedSince(|a.history|, c, t) {
      EndsStay(|a.history|, |a.history|, b, c, t);
      EndsStay(|a.history|, |b.history|, c, c, t);
    }
    forall w | w in a.txns && LocalWait(a.txns[w])
      ensures if w in c.txns then c.txns[w] == a.txns[w] else AbortedSince(|a.history|, c, w)
    {
      assert TxnValid(a, a.txns[w]);
      EndsStay(|a.history|, |a.history|, b, c, w);
      EndsStay(|a.history|, |b.history|, c, c, w);
    }
  }

  lemma BeginEvolves(s: Node, statements: seq<SQLStatement>)
    requires Inv(s) && WellFormed(statements)
    ensures Evolves(s, BeginTxn(s, statements))
  {
    assert s.nextId !in s.txns by { assert s.nextId in s.txns ==> TxnValid(s, s.txns[s.nextId]); }
  }

  lemma FinishEvolves(s: Node, t: TransactionId, e: Event)
    requires Inv(s) && (e == Aborting(t) || (e == Committing(t) && (t in s.txns ==> !LocalWait(s.txns[t]))))
    ensures Evolves(s, Finish(s, t, e))
  {
    if t in s.txns {
      ReleaseAllEntries(s.locks, t);
      var s' := Finish(s, t, e);
      assert forall r :: QueueOf(s'.locks, r) == QueueOf(s.locks, r);
      hide ReleaseAll, Inv;
      assert s'.history[|s.history|] == e && EndedSince(|s.history|, s', t);
    }
  }

  lemma ExecuteEvolves(s: Node, t: TransactionId)
    requires Inv(s) && (t in s.txns ==> WellFormed(s.txns[t].statements))
    ensures Evolves(s, Execute(s, t).0)
  {
    if t in s.txns && s.txns[t].status != Blocked {
      var x := s.txns[t];
      if x.currentSQLIndex >= |x.statements| {
        FinishEvolves(s, t, Committing(t));
      } else {
        hide Inv, OwnerNodeId, Conflict;
      }
    }
  }

  lemma ResumeEvolves(s: Node, t: TransactionId, granted: bool)
    requires Inv(s) && Enabled(s, Response(t, granted))
    ensures Evolves(s, Resume(s, t, granted))
  {
  }

  lemma ApplyEvolves(s: Node, step: Step)
    requires Inv(s) && Enabled(s, step)
    ensures Evolves(s, Apply(s, step))
  {
    match step
    case Begin(statements) => BeginEvolves(s, statements);
    case TryExecute(t) => ExecuteEvolves(s, t);
    case Response(t, granted) =>
      ResumeInv(s, t, granted);
      ResumeEvolves(s, t, granted);
      if granted {
        ExecuteEvolves(Resume(s, t, granted), t);
        EvolvesTrans(s, Resume(s, t, granted), Apply(s, step));
      }
    case Abort(t) => FinishEvolves(s, t, Aborting(t));
  }

  lemma {:induction false} RunEvolves(s: Node, steps: seq<Step>)
    requires Inv(s)
    ensures Inv(Run(s, steps)) && Evolves(s, Run(s, steps))
    decreases |steps|
  {
    RunInv(s, steps);
    if steps != [] {
      var next := if Enabled(s, steps[0]) then Apply(s, steps[0]) else s;
      if Enabled(s, steps[0]) {
        ApplyInv(s, steps[0]);
        ApplyEvolves(s, steps[0]);
      }
      RunEvolves(next, steps[1..]);
      EvolvesTrans(s, next, Run(s, steps));
    }
  }

  // ---------- deadlock is stable ----------

  lemma EdgeSurvives(s: Node, s': Node, w: TransactionId, h: TransactionId)
    requires Inv(s) && Evolves(s, s') && WaitsFor(s, w, h) && w in s'.txns && h in s'.txns
    ensures WaitsFor(s', w, h) && s'.txns[w] == s.txns[w]
  {
    WaiterIsBlocked(s, w, WaitingFor(s, w));
    assert QueueOf(s.locks, WaitingFor(s, w)) <= QueueOf(s'.locks, WaitingFor(s, w));
  }

  /** An abort is logged only when the run contains it. */
  lemma {:induction false} AbortedByStep(s: Node, steps: seq<Step>, t: TransactionId)
    ensures Aborting(t) in Run(s, steps).history ==> Aborting(t) in s.history || Abort(t) in steps
    decreases |steps|
  {
    if steps != [] {
      var next := if Enabled(s, steps[0]) then Apply(s, steps[0]) else s;
      AbortedByStep(next, steps[1..], t);
      if Abort(t) in steps[1..] {
        var i :| 0 <= i < |steps[1..]| && steps[1..][i] == Abort(t);
        assert steps[i + 1] == Abort(t);
      }
    }
  }

  /** Once transactions wait for each other in a cycle, no run that aborts none of them changes that: the same
      cycle is there afterwards and none of its members has executed another statement. */
  lemma DeadlockIsStable(s: Node, c: seq<TransactionId>, steps: seq<Step>)
    requires Inv(s) && WaitCycle(s, c)
    requires forall t :: t in c ==> Abort(t) !in steps
    ensures WaitCycle(Run(s, steps), c)
    ensures forall t :: t in c ==> t in s.txns && t in Run(s, steps).txns && Run(s, steps).txns[t] == s.txns[t]
  {
    RunEvolves(s, steps);
    var s' := Run(s, steps);
    forall i | 0 <= i < |c| ensures c[i] in s.txns && c[i] in s'.txns {
      var t := c[i];
      assert WaitsFor(s, t, if i < |c| - 1 then c[i + 1] else c[0]);
      WaiterIsBlocked(s, t, WaitingFor(s, t));
      assert t in c;
      AbortedByStep(s, steps, t);
      assert Aborting(t) !in s.history;
    }
    CycleSurvives(s, s', c);
  }

  lemma CycleSurvives(s: Node, s': Node, c: seq<TransactionId>)
    requires Inv(s) && Evolves(s, s') && WaitCycle(s, c)
    requires forall i :: 0 <= i < |c| ==> c[i] in s'.txns
    ensures WaitCycle(s', c) && forall t :: t in c ==> t in s.txns && t in s'.txns && s'.txns[t] == s.txns[t]
  {
    forall i | 0 <= i < |c|
      ensures WaitsFor(s', c[i], if i < |c| - 1 then c[i + 1] else c[0])
      ensures c[i] in s.txns && s'.txns[c[i]] == s.txns[c[i]]
    {
      var next := if i < |c| - 1 then c[i + 1] else c[0];
      assert WaitsFor(s, c[i], next);
      WaiterIsBlocked(s, c[i], WaitingFor(s, c[i]));
      EdgeSurvives(s, s', c[i], next);
    }
  }

  // ---------- collecting the graph while the node runs ----------

  /** The collection may be restricted to a set of transactions. */
  predicate Allowed(only: Option<set<TransactionId>>, t: TransactionId) { only.None? || t in only.value }

  /** The graph has exactly the allowed edges of the wait-for relation, each once, and no vertex without successors. */
  ghost predicate IsWaitGraph(g: Graph, s: Node, only: Option<set<TransactionId>>) {
    && (forall w, h :: Edge(g, w, h) <==> WaitsFor(s, w, h) && Allowed(only, w) && Allowed(only, h))
    && TidyGraph(g)
  }

  ghost predicate TidyGraph(g: Graph) { forall w :: w in g ==> Distinct(g[w]) && g[w] != [] }

  /** Every edge is real unless its waiter was aborted or its holder ended since the log had n entries. */
  ghost predicate Sound(g: Graph, n: nat, s: Node, only: Option<set<TransactionId>>) {
    && (forall w, h :: Edge(g, w, h) ==>
          && Allowed(only, w) && Allowed(only, h)
          && (WaitsFor(s, w, h) || AbortedSince(n, s, w) || EndedSince(n, s, h)))
    && (forall w :: w in g ==> if w in s.txns then LocalWait(s.txns[w]) else AbortedSince(n, s, w))
  }

  /** Every edge that `start` had through one of the resources of `done` is there if both its ends are still active. */
  ghost predicate Complete(g: Graph, start: Node, s: Node, only: Option<set<TransactionId>>, done: set<ResourceId>) {
    forall w, h ::
      (WaitsFor(start, w, h) && WaitingFor(start, w) in done && w in s.txns && h in s.txns
       && Allowed(only, w) && Allowed(only, h)) ==> Edge(g, w, h)
  }

  /** What is known of the graph collected up to state `s` when the resources of `done` have been looked at. */
  ghost predicate Collecting(g: Graph, start: Node, s: Node, only: Option<set<TransactionId>>, done: set<ResourceId>) {
    && Inv(start) && Inv(s) && Evolves(start, s) && TidyGraph(g)
    && Sound(g, |start.history|, s, only) && Complete(g, start, s, only, done)
    && (forall w :: w in g && w in s.txns ==> WaitingFor(s, w) in done)
  }

  lemma CollectingSurvives(g: Graph, start: Node, s: Node, s': Node, only: Option<set<TransactionId>>,
                           done: set<ResourceId>)
    requires Collecting(g, start, s, only, done) && Inv(s') && Evolves(s, s')
    ensures Collecting(g, start, s', only, done)
  {
    EvolvesTrans(start, s, s');
    var n := |start.history|;
    assert n <= |s.history|;
    SoundSurvives(g, n, s, s', only);
    forall w, h | WaitsFor(start, w, h) && WaitingFor(start, w) in done && w in s'.txns && h in s'.txns
      && Allowed(only, w) && Allowed(only, h)
      ensures Edge(g, w, h)
    {
      WaiterIsBlocked(start, w, WaitingFor(start, w));
      HolderIsActive(start, h, WaitingFor(start, w));
      assert w in s.txns && h in s.txns;
    }
    forall w | w in g && w in s'.txns ensures WaitingFor(s', w) in done {
      if w !in s.txns { AbortedIsGone(n, s, s', w); }
    }
  }

  lemma AbortedIsGone(n: nat, s: Node, s': Node, t: TransactionId)
    requires Inv(s') && s.history <= s'.history && AbortedSince(n, s, t)
    ensures t !in s'.txns
  {
    EndsStay(n, n, s, s', t);
    EndedIsGone(n, s', t);
  }

  lemma SoundSurvives(g: Graph, n: nat, s: Node, s': Node, only: Option<set<TransactionId>>)
    requires Sound(g, n, s, only) && Inv(s) && Evolves(s, s') && n <= |s.history|
    ensures Sound(g, n, s', only)
  {
    forall w, h | Edge(g, w, h)
      ensures WaitsFor(s', w, h) || AbortedSince(n, s', w) || EndedSince(n, s', h)
    {
      EndsStay(n, n, s, s', w);
      EndsStay(n, n, s, s', h);
      EndsStay(n, |s.history|, s', s', w);
      EndsStay(n, |s.history|, s', s', h);
      if WaitsFor(s, w, h) {
        WaiterIsBlocked(s, w, WaitingFor(s, w));
        HolderIsActive(s, h, WaitingFor(s, w));
        if w in s'.txns && h in s'.txns { EdgeSurvives(s, s', w, h); }
      }
    }
    forall w | w in g ensures if w in s'.txns then LocalWait(s'.txns[w]) else AbortedSince(n, s', w) {
      EndsStay(n, n, s, s', w);
      EndsStay(n, |s.history|, s', s', w);
      if w !in s.txns { EndedWasGone(n, s, s', w); }
    }
  }

  lemma EndedWasGone(n: nat, s: Node, s': Node, w: TransactionId)
    requires Inv(s) && Evolves(s, s') && AbortedSince(n, s, w)
    ensures w !in s'.txns
  {
    EndedIsGone(n, s, w);
    var i :| n <= i < |s.history| && s.history[i] == Aborting(w);
    assert s.history[i] in s.history;
  }

  // The possible outcomes of looking at one resource.

  /** No holder, no waiter, or a front waiter that is no longer waiting: there is nothing to collect. */
  lemma NothingToCollect(g: Graph, start: Node, s: Node, only: Option<set<TransactionId>>, done: set<ResourceId>,
                         r: ResourceId)
    requires Collecting(g, start, s, only, done)
    requires HoldersOf(s.locks, r) == map[] || QueueOf(s.locks, r) == []
      || WaitingFor(s, QueueOf(s.locks, r)[0]) != r || !Allowed(only, QueueOf(s.locks, r)[0])
    ensures Collecting(g, start, s, only, done + {r})
  {
    forall w, h | WaitsFor(start, w, h) && WaitingFor(start, w) in done + {r} && w in s.txns && h in s.txns
      && Allowed(only, w) && Allowed(only, h)
      ensures Edge(g, w, h)
    {
      WaiterIsBlocked(start, w, WaitingFor(start, w));
      if WaitingFor(start, w) == r { EdgeSurvives(start, s, w, h); }
    }
  }

  /** The front waiter waits: the edges to the holders that were read before in state `a` are collected. */
  lemma Collect(g: Graph, start: Node, a: Node, s: Node, only: Option<set<TransactionId>>, done: set<ResourceId>,
                r: ResourceId, targets: seq<TransactionId>)
    requires Collecting(g, start, s, only, done) && r !in done && IsLocal(start, r)
    requires Inv(a) && Evolves(start, a) && Evolves(a, s)
    requires QueueOf(s.locks, r) != [] && WaitingFor(s, QueueOf(s.locks, r)[0]) == r
    requires Allowed(only, QueueOf(s.locks, r)[0])
    requires Distinct(targets)
    requires forall h :: h in targets <==>
      h in HoldersOf(a.locks, r) && h != QueueOf(s.locks, r)[0] && Allowed(only, h)
    ensures QueueOf(s.locks, r)[0] !in g
    ensures Collecting(WithEdges(g, QueueOf(s.locks, r)[0], targets), start, s, only, done + {r})
  {
    var w := QueueOf(s.locks, r)[0];
    var n := |start.history|;
    WaiterIsBlocked(s, w, r);
    assert w !in g;
    var g' := WithEdges(g, w, targets);
    forall h | h in targets ensures h in a.txns && (WaitsFor(s, w, h) || EndedSince(n, s, h)) {
      HolderIsActive(a, h, r);
      EndsStay(n, |a.history|, s, s, h);
    }
    CollectSound(g, n, s, only, w, targets);
    CollectComplete(g, start, a, s, only, done, r, targets);
    hide Inv, Evolves, Sound, Complete;
  }

  function WithEdges(g: Graph, w: int, targets: seq<int>): Graph { if targets == [] then g else g[w := targets] }

  lemma CollectSound(g: Graph, n: nat, s: Node, only: Option<set<TransactionId>>, w: TransactionId,
                     targets: seq<TransactionId>)
    requires Sound(g, n, s, only) && w !in g && w in s.txns && LocalWait(s.txns[w]) && Allowed(only, w)
    requires forall h :: h in targets ==> Allowed(only, h) && (WaitsFor(s, w, h) || EndedSince(n, s, h))
    ensures Sound(WithEdges(g, w, targets), n, s, only)
  {
    hide WaitsFor, EndedSince, AbortedSince, Allowed;
    var g' := WithEdges(g, w, targets);
    forall x, h | Edge(g', x, h)
      ensures Allowed(only, x) && Allowed(only, h)
      ensures WaitsFor(s, x, h) || AbortedSince(n, s, x) || EndedSince(n, s, h)
    {
      if x == w { assert h in targets; } else { assert Edge(g, x, h); }
    }
  }

  lemma CollectComplete(g: Graph, start: Node, a: Node, s: Node, only: Option<set<TransactionId>>,
                        done: set<ResourceId>,
                        r: ResourceId, targets: seq<TransactionId>)
    requires Inv(start) && Evolves(start, s) && Complete(g, start, s, only, done)
    requires Inv(a) && Evolves(start, a) && Evolves(a, s)
    requires QueueOf(s.locks, r) != [] && QueueOf(s.locks, r)[0] !in g
    requires forall h :: h in targets <==>
      h in HoldersOf(a.locks, r) && h != QueueOf(s.locks, r)[0] && Allowed(only, h)
    ensures Complete(WithEdges(g, QueueOf(s.locks, r)[0], targets), start, s, only, done + {r})
  {
    hide OwnerNodeId, AbortedSince, EndedSince;
    var g' := WithEdges(g, QueueOf(s.locks, r)[0], targets);
    forall x, h | WaitsFor(start, x, h) && WaitingFor(start, x) in done + {r} && x in s.txns && h in s.txns
      && Allowed(only, x) && Allowed(only, h)
      ensures Edge(g', x, h)
    {
      WaiterIsBlocked(start, x, WaitingFor(start, x));
      HolderIsActive(start, h, WaitingFor(start, x));
      if WaitingFor(start, x) == r {
        EdgeSurvives(start, s, x, h);
        assert h in a.txns && h in HoldersOf(a.locks, r);
        assert h in targets;
      } else {
        assert Edge(g, x, h);
      }
    }
  }

  lemma CollectingFacts(g: Graph, start: Node, s: Node, only: Option<set<TransactionId>>, done: set<ResourceId>)
    requires Collecting(g, start, s, only, done)
    ensures Inv(start) && Inv(s) && Evolves(start, s)
    ensures forall r :: IsLocal(start, r) == IsLocal(s, r)
  {
  }

  lemma NotYetThere(g: Graph, start: Node, s: Node, only: Option<set<TransactionId>>, done: set<ResourceId>,
                    r: ResourceId)
    requires Collecting(g, start, s, only, done) && r !in done && IsLocal(start, r)
    requires QueueOf(s.locks, r) != [] && WaitingFor(s, QueueOf(s.locks, r)[0]) == r
    ensures QueueOf(s.locks, r)[0] !in g
  {
    WaiterIsBlocked(s, QueueOf(s.locks, r)[0], r);
  }

  lemma FrontStays(s: Node, s': Node, r: ResourceId)
    requires Evolves(s, s') && QueueOf(s.locks, r) != []
    ensures QueueOf(s'.locks, r) != [] && QueueOf(s'.locks, r)[0] == QueueOf(s.locks, r)[0]
    ensures IsLocal(s, r) == IsLocal(s', r)
  {
    assert QueueOf(s.locks, r) <= QueueOf(s'.locks, r);
  }

  lemma EvolvesRefl(s: Node)
    requires Inv(s)
    ensures Evolves(s, s) && forall only :: Collecting(map[], s, s, only, {})
  {
  }

  lemma AllResourcesDone(g: Graph, start: Node, s: Node, only: Option<set<TransactionId>>, done: set<ResourceId>)
    requires Collecting(g, start, s, only, done)
    requires forall r :: r in done <==> IsLocal(start, r)
    ensures Collected(g, start, s, only)
  {
    hide Inv, Evolves, Sound, TidyGraph;
    forall w, h | WaitsFor(start, w, h) ensures WaitingFor(start, w) in done {}
  }

  // ---------- what a collected graph says ----------

  /** What a collection that began in `start` and ended in `s` guarantees. */
  ghost predicate Collected(g: Graph, start: Node, s: Node, only: Option<set<TransactionId>>) {
    && Evolves(start, s) && Sound(g, |start.history|, s, only) && TidyGraph(g)
    && forall w, h :: (WaitsFor(start, w, h) && w in s.txns && h in s.txns && Allowed(only, w) && Allowed(only, h)) ==>
         Edge(g, w, h)
  }

  /** Without any step in between, the collected graph is the wait-for relation. */
  lemma AtomicCollectionIsExact(g: Graph, s: Node, only: Option<set<TransactionId>>)
    requires Inv(s) && Collected(g, s, s, only)
    ensures IsWaitGraph(g, s, only)
  {
    forall w, h ensures Edge(g, w, h) <==> WaitsFor(s, w, h) && Allowed(only, w) && Allowed(only, h) {
      if WaitsFor(s, w, h) {
        WaiterIsBlocked(s, w, WaitingFor(s, w));
        HolderIsActive(s, h, WaitingFor(s, w));
      }
    }
  }

  /** No phantom deadlock: a cycle of a graph that was collected one read at a time, while transactions began,
      executed, were answered, committed and aborted, is a cycle of transactions that wait for each other at the end
      of the collection exactly when none of its members was aborted during the collection. */
  lemma NoPhantomDeadlock(g: Graph, start: Node, s: Node, only: Option<set<TransactionId>>, c: seq<TransactionId>)
    requires Inv(s) && Collected(g, start, s, only) && ClosedWalk(g, c)
    ensures WaitCycle(s, c) <==> forall t :: t in c ==> !AbortedSince(|start.history|, s, t)
  {
    assert c != [];
    hide WaitsFor, WaitCycle, ClosedWalk, Next, Evolves, TidyGraph, AbortedSince, EndedSince, Inv, Allowed;
    var n := |start.history|;
    WaitCycleByNext(s, c);
    forall t | t in c ensures t in g {
      var i :| 0 <= i < |c| && c[i] == t;
      ClosedWalkByNext(g, c, i);
    }
    if forall t :: t in c ==> !AbortedSince(n, s, t) {
      forall i | 0 <= i < |c| ensures WaitsFor(s, c[i], Next(c, i)) {
        var w, h := c[i], Next(c, i);
        ClosedWalkByNext(g, c, i);
        assert w in c && h in c && Edge(g, w, h);
        EndedIsGone(n, s, h);
      }
    }
    if WaitCycle(s, c) {
      forall t | t in c ensures !AbortedSince(n, s, t) {
        var i :| 0 <= i < |c| && c[i] == t;
        EndsAreActive(s, c[i], Next(c, i));
        EndedIsGone(n, s, t);
      }
    }
  }

  lemma WaitCycleByNext(s: Node, c: seq<TransactionId>)
    ensures WaitCycle(s, c) <==> c != [] && forall i :: 0 <= i < |c| ==> WaitsFor(s, c[i], Next(c, i))
  {
    hide WaitsFor;
    if c != [] && forall i :: 0 <= i < |c| ==> WaitsFor(s, c[i], Next(c, i)) {
      assert forall i :: 0 <= i < |c| - 1 ==> Next(c, i) == c[i + 1];
      assert WaitsFor(s, c[|c| - 1], Next(c, |c| - 1));
    }
  }

  /** No missed deadlock: a cycle that existed when the collection began and of which nobody was aborted until its
      end is a cycle of the collected graph. */
  lemma NoMissedDeadlock(g: Graph, start: Node, s: Node, only: Option<set<TransactionId>>, c: seq<TransactionId>)
    requires Inv(start) && Collected(g, start, s, only) && WaitCycle(start, c)
    requires forall t :: t in c ==> Allowed(only, t) && !AbortedSince(|start.history|, s, t)
    ensures ClosedWalk(g, c)
  {
    forall i | 0 <= i < |c| ensures c[i] in s.txns {
      assert WaitsFor(start, c[i], if i < |c| - 1 then c[i + 1] else c[0]);
      WaiterIsBlocked(start, c[i], WaitingFor(start, c[i]));
      assert c[i] in c;
    }
  }

  // ---------- pruning ----------

  lemma EndsAreActive(s: Node, w: TransactionId, h: TransactionId)
    requires Inv(s) && WaitsFor(s, w, h)
    ensures w in s.txns && h in s.txns
  {
    HolderIsActive(s, h, WaitingFor(s, w));
  }

  /** Pruning while building gives the same edges, each as often, as the prune that the coordinator applies to the full
      graph; and for the active transactions of a reachable state neither removes anything. */
  lemma PruningOrderIsIrrelevant(g: Graph, p: Graph, s: Node, active: set<TransactionId>, w: TransactionId,
                                 h: TransactionId)
    requires Inv(s) && IsWaitGraph(g, s, None) && IsWaitGraph(p, s, Some(active))
    ensures P.Mult(p, w, h) == P.Mult(P.Prune(g, active), w, h)
    ensures active == s.txns.Keys ==> P.Mult(p, w, h) == P.Mult(g, w, h) && P.Prune(g, active) == g
  {
    EachEdgeOnce(g, w, h);
    EachEdgeOnce(p, w, h);
    P.PruneIsInduced(g, active, w, h);
    P.MultIsEdge(g, w, h);
    P.MultIsEdge(p, w, h);
    if active == s.txns.Keys {
      forall x, y | Edge(g, x, y) ensures x in active && y in active { EndsAreActive(s, x, y); }
      P.PruneOfPruned(g, active);
    }
  }

  lemma EachEdgeOnce(g: Graph, w: int, h: int)
    requires TidyGraph(g)
    ensures P.Mult(g, w, h) <= 1
  {
    if w in g { DistinctCount(g[w], h); }
  }
}
