/** Strict two-phase locking: every run of a node is conflict-serializable in commit order
    (TransactionManager.cpp, ResourceManager.cpp). */
module Serializability {
  import opened Commons
  import opened Graphs
  import opened LockModel
  import opened NodeModel

  type Log = seq<Event>

  /** `t` ends at a position of the log strictly between i and j. */
  ghost predicate EndsBetween(log: Log, t: TransactionId, i: int, j: int) {
    exists k :: i < k < j && 0 <= k < |log| && log[k].t == t && !log[k].Granted?
  }

  /** Two transactions are granted the same resource, i before j, and not both shared. */
  ghost predicate Conflicting(log: Log, i: int, j: int) {
    && 0 <= i < j < |log| && log[i].Granted? && log[j].Granted?
    && log[i].r == log[j].r && log[i].t != log[j].t && (log[i].mode == Exclusive || log[j].mode == Exclusive)
  }

  /** The earlier of two conflicting transactions ends before the later grant. */
  ghost predicate Separated(log: Log) {
    forall i, j :: Conflicting(log, i, j) ==> EndsBetween(log, log[i].t, i, j)
  }

  /** Nothing happens to a transaction after its end. */
  ghost predicate EndsAreFinal(log: Log) {
    forall i, j :: 0 <= i < j < |log| && !log[i].Granted? ==> log[j].t != log[i].t
  }

  /** A lock is held in the mode in which it was granted until its transaction ends. */
  ghost predicate HeldUntilEnd(s: Node, i: int)
    requires 0 <= i < |s.history| && s.history[i].Granted?
  {
    var e := s.history[i];
    || EndsBetween(s.history, e.t, i, |s.history|)
    || (e.t in HoldersOf(s.locks, e.r) && HoldersOf(s.locks, e.r)[e.t] == e.mode)
  }

  ghost predicate LogInv(s: Node) {
    && Separated(s.history) && EndsAreFinal(s.history)
    && forall i :: 0 <= i < |s.history| && s.history[i].Granted? ==> HeldUntilEnd(s, i)
  }

  // ---------- every step keeps it ----------

  /** Appending to a log keeps what was between two of its positions. */
  lemma LogGrows(log: Log, e: Event, t: TransactionId, i: int, j: int)
    ensures j <= |log| ==> EndsBetween(log + [e], t, i, j) == EndsBetween(log, t, i, j)
    ensures EndsBetween(log, t, i, |log|) ==> EndsBetween(log + [e], t, i, |log| + 1)
    ensures -1 <= i < |log| && e.t == t && !e.Granted? ==> EndsBetween(log + [e], t, i, |log| + 1)
  {
    var longer := log + [e];
    assert longer[|log|] == e;
    if EndsBetween(log, t, i, j) {
      var k :| i < k < j && 0 <= k < |log| && log[k].t == t && !log[k].Granted?;
      assert longer[k] == log[k];
    }
    if EndsBetween(log, t, i, |log|) {
      var k :| i < k < |log| && 0 <= k < |log| && log[k].t == t && !log[k].Granted?;
      assert longer[k] == log[k];
    }
  }

  /** No end of an active transaction is in the log. */
  lemma ActiveHasNoEnd(s: Node, t: TransactionId)
    requires HistoryValid(s) && t in s.txns
    ensures forall i :: 0 <= i < |s.history| && !s.history[i].Granted? ==> s.history[i].t != t
  {
    forall i | 0 <= i < |s.history| && !s.history[i].Granted? ensures s.history[i].t != t {
      assert s.history[i] in s.history;
    }
  }

  lemma AppendKeepsFinal(s: Node, e: Event)
    requires HistoryValid(s) && EndsAreFinal(s.history) && e.t in s.txns
    ensures EndsAreFinal(s.history + [e])
  {
    ActiveHasNoEnd(s, e.t);
  }

  lemma FinishLog(s: Node, t: TransactionId, e: Event)
    requires Inv(s) && LogInv(s) && e.t == t && !e.Granted?
    ensures LogInv(Finish(s, t, e))
  {
    if t in s.txns {
      var s' := Finish(s, t, e);
      ReleaseAllEntries(s.locks, t);
      AppendKeepsFinal(s, e);
      hide ReleaseAll, Inv, EndsBetween, EndsAreFinal;
      forall i, j | Conflicting(s'.history, i, j) ensures EndsBetween(s'.history, s'.history[i].t, i, j) {
        assert Conflicting(s.history, i, j);
        LogGrows(s.history, e, s.history[i].t, i, j);
      }
      forall i | 0 <= i < |s'.history| && s'.history[i].Granted? ensures HeldUntilEnd(s', i) {
        assert HeldUntilEnd(s, i);
        LogGrows(s.history, e, s.history[i].t, i, i);
      }
    }
  }

  /** Two-phase locking at work: whoever was granted the resource in a conflicting mode no longer holds it. */
  lemma GrantLog(s: Node, t: TransactionId, r: ResourceId, mode: LockMode, s': Node)
    requires Inv(s) && LogInv(s) && t in s.txns && Acquire(s.locks, t, r, mode).1
    requires s'.history == s.history + [Granted(t, r, mode)] && s'.locks == Acquire(s.locks, t, r, mode).0
    ensures LogInv(s')
  {
    var e := Granted(t, r, mode);
    GrantIsCompatible(s.locks, t, r, mode);
    assert HoldersOf(s'.locks, r) == HoldersOf(s.locks, r)[t := mode];
    assert forall q :: q != r ==> HoldersOf(s'.locks, q) == HoldersOf(s.locks, q);
    AppendKeepsFinal(s, e);
    hide Inv, Acquire, HoldersOf, EndsBetween, EndsAreFinal;
    forall i, j | Conflicting(s'.history, i, j) ensures EndsBetween(s'.history, s'.history[i].t, i, j) {
      LogGrows(s.history, e, s.history[i].t, i, j);
      assert HeldUntilEnd(s, i);
      assert j < |s.history| ==> Conflicting(s.history, i, j);
    }
    forall i | 0 <= i < |s'.history| && s'.history[i].Granted? ensures HeldUntilEnd(s', i) {
      if i < |s.history| {
        assert HeldUntilEnd(s, i);
        LogGrows(s.history, e, s.history[i].t, i, i);
      }
    }
  }

  lemma ExecuteLog(s: Node, t: TransactionId)
    requires Inv(s) && LogInv(s) && (t in s.txns ==> WellFormed(s.txns[t].statements))
    ensures LogInv(Execute(s, t).0)
  {
    if t in s.txns && s.txns[t].status != Blocked {
      var x := s.txns[t];
      if x.currentSQLIndex >= |x.statements| {
        FinishLog(s, t, Committing(t));
      } else if OwnerNodeId(Wanted(x)) == s.locks.nodeId && Acquire(s.locks, t, Wanted(x), WantedMode(x)).1 {
        GrantLog(s, t, Wanted(x), WantedMode(x), Execute(s, t).0);
      } else {
        LogStays(s, Execute(s, t).0);
      }
    }
  }

  lemma LogStays(s: Node, s': Node)
    requires LogInv(s) && s'.history == s.history && s'.locks.holders == s.locks.holders
    ensures LogInv(s')
  {
    hide EndsBetween;
    forall i | 0 <= i < |s'.history| && s'.history[i].Granted? ensures HeldUntilEnd(s', i) {
      assert HeldUntilEnd(s, i);
    }
  }

  lemma ApplyLog(s: Node, step: Step)
    requires Inv(s) && LogInv(s) && Enabled(s, step)
    ensures LogInv(Apply(s, step))
  {
    hide Inv, LogInv, Execute, Finish;
    match step
    case Begin(statements) => LogStays(s, BeginTxn(s, statements));
    case TryExecute(t) => ExecuteLog(s, t);
    case Response(t, granted) =>
      ResumeInv(s, t, granted);
      LogStays(s, Resume(s, t, granted));
      if granted { ResumedLog(s, t); }
    case Abort(t) => FinishLog(s, t, Aborting(t));
  }

  lemma ResumedLog(s: Node, t: TransactionId)
    requires Enabled(s, Response(t, true)) && Inv(Resume(s, t, true)) && LogInv(Resume(s, t, true))
    ensures LogInv(Execute(Resume(s, t, true), t).0)
  {
    ExecuteLog(Resume(s, t, true), t);
  }

  lemma {:induction false} RunLog(s: Node, steps: seq<Step>)
    requires Inv(s) && LogInv(s)
    ensures LogInv(Run(s, steps))
    decreases |steps|
  {
    if steps != [] {
      if Enabled(s, steps[0]) {
        ApplyInv(s, steps[0]);
        ApplyLog(s, steps[0]);
      }
      RunLog(if Enabled(s, steps[0]) then Apply(s, steps[0]) else s, steps[1..]);
    }
  }

  // ---------- what it means ----------

  /** `later` was granted a resource after `earlier`, in conflicting modes. */
  ghost predicate Follows(log: Log, later: TransactionId, earlier: TransactionId) {
    exists i, j :: Conflicting(log, i, j) && log[i].t == earlier && log[j].t == later
  }

  /** The committed transactions in the order in which they committed. */
  function CommitOrder(log: Log): seq<TransactionId> {
    if log == [] then []
    else
      var n := |log| - 1;
      CommitOrder(log[..n]) + if log[n].Committing? then [log[n].t] else []
  }

  lemma {:induction false} CommittedIsInOrder(log: Log, t: TransactionId)
    ensures t in CommitOrder(log) <==> Committing(t) in log
  {
    if log != [] {
      var n := |log| - 1;
      assert log == log[..n] + [log[n]];
      CommittedIsInOrder(log[..n], t);
    }
  }

  /** Whose commit comes first in the log comes first in the order. */
  lemma {:induction false} OrderOfCommits(log: Log, i: nat, j: nat) returns (a: nat, b: nat)
    requires i < j < |log| && log[i].Committing? && log[j].Committing?
    ensures a < b < |CommitOrder(log)| && CommitOrder(log)[a] == log[i].t && CommitOrder(log)[b] == log[j].t
  {
    var n := |log| - 1;
    var order := CommitOrder(log[..n]);
    assert log == log[..n] + [log[n]];
    if j < n {
      a, b := OrderOfCommits(log[..n], i, j);
    } else {
      assert log[..n][i] == Committing(log[i].t);
      assert Committing(log[i].t) in log[..n];
      CommittedIsInOrder(log[..n], log[i].t);
      a :| 0 <= a < |order| && order[a] == log[i].t;
      b := |order|;
    }
  }

  lemma {:induction false} CommitOrderDistinct(log: Log)
    requires EndsAreFinal(log)
    ensures Distinct(CommitOrder(log))
  {
    if log != [] {
      var n := |log| - 1;
      assert EndsAreFinal(log[..n]);
      CommitOrderDistinct(log[..n]);
      if log[n].Committing? {
        CommittedIsInOrder(log[..n], log[n].t);
        assert Committing(log[n].t) !in log[..n];
      }
    }
  }

  /** A committed transaction that follows another in conflict also follows it in the commit order. */
  lemma ConflictsFollowCommits(log: Log, later: TransactionId, earlier: TransactionId) returns (a: nat, b: nat)
    requires Separated(log) && EndsAreFinal(log) && Follows(log, later, earlier)
    requires Committing(earlier) in log && Committing(later) in log
    ensures a < b < |CommitOrder(log)| && CommitOrder(log)[a] == earlier && CommitOrder(log)[b] == later
  {
    var i, j :| Conflicting(log, i, j) && log[i].t == earlier && log[j].t == later;
    var k :| i < k < j && 0 <= k < |log| && log[k].t == earlier && !log[k].Granted?;
    var c :| 0 <= c < |log| && log[c] == Committing(earlier);
    var d :| 0 <= d < |log| && log[d] == Committing(later);
    assert c == k && j < d;
    a, b := OrderOfCommits(log, c, d);
  }

  ghost function Predecessors(log: Log, u: TransactionId, order: seq<TransactionId>): seq<TransactionId> {
    if order == [] then []
    else
      var n := |order| - 1;
      Predecessors(log, u, order[..n]) + if Follows(log, u, order[n]) then [order[n]] else []
  }

  /** From every committed transaction an edge leads to each committed transaction that it follows in conflict. */
  ghost function ConflictGraph(log: Log): Graph {
    map u | u in CommitOrder(log) :: Predecessors(log, u, CommitOrder(log))
  }

  lemma {:induction false} PredecessorsAre(log: Log, u: TransactionId, order: seq<TransactionId>)
    ensures forall t :: t in Predecessors(log, u, order) <==> t in order && Follows(log, u, t)
  {
    hide Follows;
    if order != [] {
      var n := |order| - 1;
      assert order == order[..n] + [order[n]];
      PredecessorsAre(log, u, order[..n]);
    }
  }

  lemma ConflictGraphEdges(log: Log, u: TransactionId, t: TransactionId)
    ensures Edge(ConflictGraph(log), u, t) <==>
      Committing(u) in log && Committing(t) in log && Follows(log, u, t)
  {
    CommittedIsInOrder(log, u);
    CommittedIsInOrder(log, t);
    PredecessorsAre(log, u, CommitOrder(log));
  }

  /** Conflict serializability: in every run of a node the committed transactions, in the order of their commits,
      are a serial order that agrees with every pair of conflicting grants, so the conflict graph is acyclic. */
  lemma RunsAreSerializable(node: NodeId, steps: seq<Step>)
    requires node >= 1
    ensures var log := Run(Fresh(node), steps).history;
      ReverseTopological(ConflictGraph(log), CommitOrder(log)) && !Cyclic(ConflictGraph(log))
  {
    FreshInv(node);
    RunLog(Fresh(node), steps);
    LogIsSerializable(Run(Fresh(node), steps).history);
  }

  lemma LogIsSerializable(log: Log)
    requires Separated(log) && EndsAreFinal(log)
    ensures ReverseTopological(ConflictGraph(log), CommitOrder(log)) && !Cyclic(ConflictGraph(log))
  {
    var g, order := ConflictGraph(log), CommitOrder(log);
    CommitOrderDistinct(log);
    assert forall u :: u in g ==> u in order;
    hide CommitOrder, ConflictGraph, Follows, Separated, EndsAreFinal;
    forall i, t | 0 <= i < |order| && Edge(g, order[i], t) ensures t in order[..i] {
      ConflictGraphEdges(log, order[i], t);
      var a, b := ConflictsFollowCommits(log, order[i], t);
      assert b == i && order[..i][a] == t;
    }
    TopologicalIsAcyclic(g, order);
  }

  /** Locks are kept to the end: of two conflicting grants in a run, the first transaction has ended in between. */
  lemma ConflictingGrantsAreSeparated(node: NodeId, steps: seq<Step>, i: nat, j: nat)
    requires node >= 1 && Conflicting(Run(Fresh(node), steps).history, i, j)
    ensures EndsBetween(Run(Fresh(node), steps).history, Run(Fresh(node), steps).history[i].t, i, j)
  {
    FreshInv(node);
    RunLog(Fresh(node), steps);
  }
}
