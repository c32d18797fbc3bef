/** Locks of other nodes: over whole runs, a transaction has exactly as many of them as were granted to it by an answer
    (TransactionManager.cpp). */
module RemoteLocks {
  import opened Commons
  import opened LockModel
  import opened NodeModel
  import opened WaitForGraph

  /** How many of the first n statements lock a resource that `node` does not own. */
  ghost function ForeignCount(node: NodeId, statements: seq<SQLStatement>, n: nat): nat
    requires n <= |statements| && WellFormed(statements)
  {
    if n == 0 then 0
    else ForeignCount(node, statements, n - 1) + if OwnerNodeId(statements[n - 1].resources[0]) != node then 1 else 0
  }

  /** The executed statements of `t` that locked a resource of another node; none if it is not active. */
  ghost function Foreign(s: Node, t: TransactionId): nat
    requires Inv(s)
  {
    if t !in s.txns then 0
    else
      assert TxnValid(s, s.txns[t]);
      ForeignCount(s.locks.nodeId, s.txns[t].statements, s.txns[t].currentSQLIndex)
  }

  /** The answers in the run that grant `t` the lock it asked for. */
  ghost function AnsweredGrants(s: Node, steps: seq<Step>, t: TransactionId): nat
    decreases |steps|
  {
    if steps == [] then 0
    else
      var step := steps[0];
      (if Enabled(s, step) && step == Response(t, true) then 1 else 0)
        + AnsweredGrants(if Enabled(s, step) then Apply(s, step) else s, steps[1..], t)
  }

  /** Executing leaves others alone, and has at most one statement more behind it, on a resource of this node. */
  lemma ExecuteAdvances(s: Node, u: TransactionId, t: TransactionId)
    requires u in s.txns ==> WellFormed(s.txns[u].statements)
    ensures var s' := Execute(s, u).0;
      && s'.locks.nodeId == s.locks.nodeId
      && (t in s'.txns ==>
            && t in s.txns && s'.txns[t].statements == s.txns[t].statements
            && var (n, n') := (s.txns[t].currentSQLIndex, s'.txns[t].currentSQLIndex);
               || n' == n
               || (&& t == u && n' == n + 1 && n < |s.txns[t].statements|
                   && OwnerNodeId(Wanted(s.txns[t])) == s.locks.nodeId))
  {
    hide Conflict, OwnerNodeId;
  }

  lemma ExecuteTakesNone(s: Node, u: TransactionId, t: TransactionId)
    requires Inv(s) && (u in s.txns ==> WellFormed(s.txns[u].statements))
    ensures Inv(Execute(s, u).0)
    ensures t in Execute(s, u).0.txns ==> Foreign(Execute(s, u).0, t) == Foreign(s, t)
  {
    ExecuteInv(s, u);
    ExecuteAdvances(s, u, t);
    var s' := Execute(s, u).0;
    if t in s'.txns { assert TxnValid(s, s.txns[t]) && TxnValid(s', s'.txns[t]); }
    hide Inv, OwnerNodeId, Execute;
  }

  lemma AnswerTakesOne(s: Node, u: TransactionId, granted: bool, t: TransactionId)
    requires Inv(s) && Enabled(s, Response(u, granted))
    ensures var s' := Resume(s, u, granted);
      Inv(s') && Foreign(s', t) == Foreign(s, t) + if u == t && granted then 1 else 0
  {
    ResumeInv(s, u, granted);
    assert TxnValid(s, s.txns[u]);
    hide Inv, OwnerNodeId;
  }

  /** Only an answer gives a transaction a lock of another node. */
  lemma StepTakesForeign(s: Node, step: Step, t: TransactionId)
    requires Inv(s) && Enabled(s, step)
    ensures Inv(Apply(s, step))
    ensures t in Apply(s, step).txns ==>
      Foreign(Apply(s, step), t) == Foreign(s, t) + if step == Response(t, true) then 1 else 0
  {
    ApplyInv(s, step);
    match step
    case Begin(statements) => assert s.nextId in s.txns ==> TxnValid(s, s.txns[s.nextId]);
    case TryExecute(u) => ExecuteTakesNone(s, u, t);
    case Response(u, granted) =>
      ResumeInv(s, u, granted);
      AnswerTakesOne(s, u, granted, t);
      if granted { ExecuteTakesNone(Resume(s, u, granted), u, t); }
    case Abort(u) =>
  }

  /** Whoever is active at the end of a run has executed as many statements on resources of other nodes as at its start
      and as answers granted it meanwhile. */
  lemma {:induction false} RunTakesForeign(s: Node, steps: seq<Step>, t: TransactionId)
    requires Inv(s)
    ensures Inv(Run(s, steps))
    ensures t in Run(s, steps).txns ==> Foreign(Run(s, steps), t) == Foreign(s, t) + AnsweredGrants(s, steps, t)
    decreases |steps|
  {
    if steps != [] {
      var step := steps[0];
      var next := if Enabled(s, step) then Apply(s, step) else s;
      if Enabled(s, step) {
        StepTakesForeign(s, step, t);
        ApplyEvolves(s, step);
      }
      RunTakesForeign(next, steps[1..], t);
      RunEvolves(next, steps[1..]);
      NotYetBegun(s, t);
    }
  }

  lemma NotYetBegun(s: Node, t: TransactionId)
    requires Inv(s)
    ensures t in s.txns ==> t < s.nextId
  {
    if t in s.txns { assert TxnValid(s, s.txns[t]); }
  }

  lemma {:induction false} GrantsAreInTheRun(s: Node, steps: seq<Step>, t: TransactionId)
    ensures AnsweredGrants(s, steps, t) <= multiset(steps)[Response(t, true)]
    decreases |steps|
  {
    if steps != [] {
      assert steps == [steps[0]] + steps[1..];
      GrantsAreInTheRun(if Enabled(s, steps[0]) then Apply(s, steps[0]) else s, steps[1..], t);
    }
  }

  /** A recorded lock is the lock of an executed statement. */
  lemma {:induction false} LocksCount(node: NodeId, statements: seq<SQLStatement>, n: nat, r: ResourceId)
    requires n <= |statements| && WellFormed(statements)
    requires r in LocksAfter(statements, n) && OwnerNodeId(r) != node
    ensures ForeignCount(node, statements, n) > 0
  {
    hide OwnerNodeId;
    if n > 0 && statements[n - 1].resources[0] != r { LocksCount(node, statements, n - 1, r); }
  }

  /** No lock of another node without its consent: in every run, the statements that an active transaction has executed
      on resources of other nodes are exactly as many as the answers that granted it one, so at most as many as there
      are such answers in the run, and it records such a lock only if there was one. */
  lemma ForeignLocksWereGranted(node: NodeId, steps: seq<Step>, t: TransactionId)
    requires node >= 1 && t in Run(Fresh(node), steps).txns
    ensures var s := Run(Fresh(node), steps);
      && Inv(s) && Foreign(s, t) == AnsweredGrants(Fresh(node), steps, t) <= multiset(steps)[Response(t, true)]
      && forall r :: r in s.txns[t].acquiredLocks && OwnerNodeId(r) != node ==> Response(t, true) in steps
  {
    FreshInv(node);
    RunEvolves(Fresh(node), steps);
    RunTakesForeign(Fresh(node), steps, t);
    GrantsAreInTheRun(Fresh(node), steps, t);
    var s := Run(Fresh(node), steps);
    assert TxnValid(s, s.txns[t]);
    hide Run, Inv, OwnerNodeId;
    forall r | r in s.txns[t].acquiredLocks && OwnerNodeId(r) != node ensures Response(t, true) in steps {
      LocksCount(node, s.txns[t].statements, s.txns[t].currentSQLIndex, r);
    }
  }
}
