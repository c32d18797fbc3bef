/** What each step of the transaction manager does, field by field (TransactionManager.cpp), and what no step ever does:
    resume a transaction that is blocked without a request on its way. */
module Steps {
  import opened Commons
  import opened LockModel
  import opened NodeModel
  import opened WaitForGraph

  /** The same transactions are active, and no other than `t` has changed. */
  ghost predicate OnlyOne(s: Node, s': Node, t: TransactionId) {
    && s'.nextId == s.nextId && s'.txns.Keys == s.txns.Keys
    && forall u :: u in s.txns && u in s'.txns && u != t ==> s'.txns[u] == s.txns[u]
  }

  ghost predicate SameHolders(s: Node, s': Node, r: ResourceId) {
    HoldersOf(s'.locks, r) == HoldersOf(s.locks, r)
  }

  ghost predicate SameQueue(s: Node, s': Node, r: ResourceId) { QueueOf(s'.locks, r) == QueueOf(s.locks, r) }

  ghost predicate SameProgram(x: Txn, x': Txn) {
    x'.id == x.id && x'.homeNodeId == x.homeNodeId && x'.statements == x.statements
  }

  /** The transaction runs and has a statement left, whose resource is `r`. */
  ghost predicate About(s: Node, t: TransactionId, r: ResourceId, mode: LockMode) {
    && t in s.txns && s.txns[t].status == Running && s.txns[t].currentSQLIndex < |s.txns[t].statements|
    && var next := s.txns[t].statements[s.txns[t].currentSQLIndex];
       |next.resources| > 0 && next.resources[0] == r && next.lockMode == mode
  }

  /** A transaction that is unknown or blocked does nothing. */
  lemma IdleStep(s: Node, t: TransactionId)
    requires Inv(s) && (t in s.txns ==> s.txns[t].status == Blocked && WellFormed(s.txns[t].statements))
    ensures Execute(s, t) == (s, false)
  {
  }

  /** A resource of another node is asked for and not taken: the transaction waits for the answer. */
  lemma RemoteStep(s: Node, t: TransactionId, r: ResourceId, mode: LockMode)
    requires Inv(s) && About(s, t, r, mode) && OwnerNodeId(r) != s.locks.nodeId && WellFormed(s.txns[t].statements)
    ensures var (s', progressed) := Execute(s, t);
      && !progressed && s'.locks == s.locks && s'.history == s.history && OnlyOne(s, s', t) && t in s'.txns
      && var (x, x') := (s.txns[t], s'.txns[t]);
         && SameProgram(x, x') && x'.currentSQLIndex == x.currentSQLIndex && x'.acquiredLocks == x.acquiredLocks
         && x'.status == Blocked && x'.remoteRequestPending && x'.waitingForResourceId == r
         && x'.remoteRequestSuccess == x.remoteRequestSuccess
  {
  }

  /** The request goes to the owner exactly when the transaction begins to wait for an answer, and names the resource
      that it then waits for and the mode that it wants. */
  lemma RequestsAreWaits(s: Node, t: TransactionId)
    requires Inv(s) && (t in s.txns ==> WellFormed(s.txns[t].statements))
    ensures var s' := Execute(s, t).0;
      && (Requests(s, t) != [] <==>
            t in s.txns && t in s'.txns && !s.txns[t].remoteRequestPending && s'.txns[t].remoteRequestPending)
      && forall request :: request in Requests(s, t) ==>
           && t in s.txns && t in s'.txns && About(s, t, request.r, request.mode) && request.t == t
           && request.r == s'.txns[t].waitingForResourceId && request.to == OwnerNodeId(request.r)
           && request.to != s.locks.nodeId
  {
    if t in s.txns { assert TxnValid(s, s.txns[t]); }
  }

  /** A lock of the own node is granted exactly when nobody holds it, or nobody waits and all share it. */
  ghost predicate Free(s: Node, r: ResourceId, mode: LockMode) {
    || HoldersOf(s.locks, r) == map[]
    || (&& QueueOf(s.locks, r) == [] && mode == Shared
        && forall h :: h in HoldersOf(s.locks, r) ==> HoldersOf(s.locks, r)[h] == Shared)
  }

  lemma GrantStep(s: Node, t: TransactionId, r: ResourceId, mode: LockMode)
    requires Inv(s) && About(s, t, r, mode) && OwnerNodeId(r) == s.locks.nodeId && WellFormed(s.txns[t].statements)
    requires Free(s, r, mode)
    ensures var (s', progressed) := Execute(s, t);
      && progressed && s'.history == s.history + [Granted(t, r, mode)] && OnlyOne(s, s', t) && t in s'.txns
      && HoldersOf(s'.locks, r) == HoldersOf(s.locks, r)[t := mode]
      && (forall q :: q != r ==> SameHolders(s, s', q)) && (forall q :: SameQueue(s, s', q))
      && var (x, x') := (s.txns[t], s'.txns[t]);
         && SameProgram(x, x') && x'.currentSQLIndex == x.currentSQLIndex + 1 && x'.status == Running
         && x'.acquiredLocks == x.acquiredLocks[r := mode]
         && x'.waitingForResourceId == 0 && !x'.remoteRequestPending
  {
    assert TxnValid(s, s.txns[t]);
    hide OwnerNodeId, Inv;
  }

  lemma RefuseStep(s: Node, t: TransactionId, r: ResourceId, mode: LockMode)
    requires Inv(s) && About(s, t, r, mode) && OwnerNodeId(r) == s.locks.nodeId && WellFormed(s.txns[t].statements)
    requires !Free(s, r, mode)
    ensures var (s', progressed) := Execute(s, t);
      && !progressed && s'.history == s.history && OnlyOne(s, s', t) && t in s'.txns
      && QueueOf(s'.locks, r) == QueueOf(s.locks, r) + [t]
      && (forall q :: q != r ==> SameQueue(s, s', q)) && (forall q :: SameHolders(s, s', q))
      && var (x, x') := (s.txns[t], s'.txns[t]);
         && SameProgram(x, x') && x'.currentSQLIndex == x.currentSQLIndex && x'.acquiredLocks == x.acquiredLocks
         && x'.status == Blocked && !x'.remoteRequestPending && x'.waitingForResourceId == r
  {
    assert TxnValid(s, s.txns[t]);
    assert Conflict(s.locks, r, mode) by { HoldsExclusively(s, r); }
    hide OwnerNodeId, Inv, Conflict, Free;
  }

  lemma HoldsExclusively(s: Node, r: ResourceId)
    ensures (forall h :: h in HoldersOf(s.locks, r) ==> HoldersOf(s.locks, r)[h] == Shared)
      || exists h :: h in HoldersOf(s.locks, r) && HoldersOf(s.locks, r)[h] == Exclusive
  {
  }

  /** Who ends, by an abort or after the last statement, gives every lock back; the queues keep it. */
  ghost predicate Ended(s: Node, s': Node, t: TransactionId, e: Event) {
    && t !in s'.txns && s'.txns.Keys == s.txns.Keys - {t} && s'.nextId == s.nextId && s'.history == s.history + [e]
    && (forall u :: u in s.txns && u in s'.txns ==> s'.txns[u] == s.txns[u])
    && (forall r :: HoldersOf(s'.locks, r) == HoldersOf(s.locks, r) - {t}) && (forall r :: SameQueue(s, s', r))
  }

  lemma CommitStep(s: Node, t: TransactionId)
    requires Inv(s) && t in s.txns && s.txns[t].status == Running && WellFormed(s.txns[t].statements)
    requires s.txns[t].currentSQLIndex >= |s.txns[t].statements|
    ensures Execute(s, t).1 && Ended(s, Execute(s, t).0, t, Committing(t))
  {
    ReleaseAllEntries(s.locks, t);
    hide Inv, Valid, OwnerNodeId, ReleaseAll;
  }

  lemma AbortStep(s: Node, t: TransactionId)
    requires Inv(s)
    ensures t in s.txns ==> Ended(s, Apply(s, Abort(t)), t, Aborting(t))
    ensures t !in s.txns ==> Apply(s, Abort(t)) == s
  {
    ReleaseAllEntries(s.locks, t);
    hide Inv, Valid, OwnerNodeId, ReleaseAll;
  }

  lemma BeginStep(s: Node, statements: seq<SQLStatement>)
    requires Inv(s) && WellFormed(statements)
    ensures var s' := Apply(s, Begin(statements));
      && s.nextId !in s.txns && s'.txns.Keys == s.txns.Keys + {s.nextId} && s'.nextId == s.nextId + 1
      && s'.locks == s.locks && s'.history == s.history
      && (forall u :: u in s.txns && u in s'.txns ==> s'.txns[u] == s.txns[u])
      && var x := s'.txns[s.nextId];
         && x.id == s.nextId && x.homeNodeId == s.locks.nodeId && x.statements == statements && x.status == Running
         && x.acquiredLocks == map[] && x.currentSQLIndex == 0 && x.waitingForResourceId == 0
         && !x.remoteRequestPending
  {
    assert s.nextId in s.txns ==> TxnValid(s, s.txns[s.nextId]);
  }

  /** An answer ends the wait.  If the lock was granted, the transaction records it in the mode of the statement, has
      that statement behind it and goes on at once; if not, it stays blocked, on nothing. */
  lemma AnswerStep(s: Node, t: TransactionId, granted: bool)
    requires Inv(s) && Enabled(s, Response(t, granted))
    ensures var between := Resume(s, t, granted);
      && between.locks == s.locks && between.history == s.history && OnlyOne(s, between, t) && t in between.txns
      && var (x, x') := (s.txns[t], between.txns[t]);
         && SameProgram(x, x') && !x'.remoteRequestPending && x'.remoteRequestSuccess == granted
         && x'.waitingForResourceId == 0
         && (granted ==>
               && x'.status == Running && x'.currentSQLIndex == x.currentSQLIndex + 1
               && x'.acquiredLocks == x.acquiredLocks[x.waitingForResourceId := WantedMode(x)]
               && Apply(s, Response(t, granted)) == Execute(between, t).0)
         && (!granted ==>
               && x'.status == Blocked && x'.currentSQLIndex == x.currentSQLIndex
               && x'.acquiredLocks == x.acquiredLocks && Apply(s, Response(t, granted)) == between)
  {
  }

  // ---------- who is blocked without a request ----------

  /** Blocked on a lock of this node, or after a refusal by another one. */
  ghost predicate Stuck(s: Node, t: TransactionId) {
    t in s.txns && s.txns[t].status == Blocked && !s.txns[t].remoteRequestPending
  }

  lemma StuckStep(s: Node, step: Step, t: TransactionId)
    requires Inv(s) && Enabled(s, step) && Stuck(s, t)
    ensures var s' := Apply(s, step);
      if step == Abort(t) then t !in s'.txns && t < s'.nextId else t in s'.txns && s'.txns[t] == s.txns[t]
  {
    assert TxnValid(s, s.txns[t]);
    hide Inv;
    match step
    case Begin(statements) =>
    case TryExecute(u) => OthersKeep(s, u, t);
    case Response(u, granted) =>
      if granted { OthersKeep(Resume(s, u, granted), u, t); }
    case Abort(u) =>
  }

  lemma OthersKeep(s: Node, u: TransactionId, t: TransactionId)
    requires (u in s.txns ==> WellFormed(s.txns[u].statements)) && t in s.txns
    requires u == t ==> s.txns[t].status == Blocked
    ensures var s' := Execute(s, u).0; t in s'.txns && s'.txns[t] == s.txns[t]
  {
    hide OwnerNodeId, Conflict, ReleaseAll;
  }

  /** Nothing but its own abort ever ends such a wait: in every run, it is active at the end exactly when the run does
      not abort it, and then nothing about it has changed. */
  lemma {:induction false} StuckForGood(s: Node, steps: seq<Step>, t: TransactionId)
    requires Inv(s) && Stuck(s, t)
    ensures var s' := Run(s, steps);
      (t in s'.txns <==> Abort(t) !in steps) && (t in s'.txns ==> s'.txns[t] == s.txns[t])
    decreases |steps|
  {
    if steps != [] {
      var step := steps[0];
      var next := if Enabled(s, step) then Apply(s, step) else s;
      assert steps == [step] + steps[1..];
      if Enabled(s, step) {
        ApplyInv(s, step);
        StuckStep(s, step, t);
      }
      if step == Abort(t) {
        RunEvolves(next, steps[1..]);
        hide Inv;
        assert Evolves(next, Run(next, steps[1..]));
      } else {
        StuckForGood(next, steps[1..], t);
      }
    }
  }
}
