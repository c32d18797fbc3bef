/** One node as a state machine: its lock tables, its active transactions and the steps that change them
    (TransactionManager.cpp).  Each public method of the transaction manager is one step. */
module NodeModel {
  import opened Commons
  import opened LockModel

  datatype Status = Running | Blocked | Committed | Aborted

  datatype Txn = Txn(
    id: TransactionId,
    homeNodeId: NodeId,
    statements: seq<SQLStatement>,
    status: Status,
    acquiredLocks: map<ResourceId, LockMode>,
    currentSQLIndex: nat,
    remoteRequestPending: bool,
    remoteRequestSuccess: bool,
    waitingForResourceId: ResourceId)

  /** What happened, oldest first: a history variable that the program does not have. */
  datatype Event =
    | Granted(t: TransactionId, r: ResourceId, mode: LockMode)
    | Committing(t: TransactionId)
    | Aborting(t: TransactionId)

  datatype Node = Node(
    locks: Locks,
    txns: map<TransactionId, Txn>,
    nextId: TransactionId,
    history: seq<Event>)

  datatype Step =
    | Begin(statements: seq<SQLStatement>)
    | TryExecute(t: TransactionId)
    | Response(t: TransactionId, granted: bool)
    | Abort(t: TransactionId)

  /** A statement names the resource it locks first, and resource ids start at 1. */
  predicate WellFormed(statements: seq<SQLStatement>) {
    forall i :: 0 <= i < |statements| ==> |statements[i].resources| > 0 && statements[i].resources[0] >= 1
  }

  function Wanted(x: Txn): ResourceId
    requires WellFormed(x.statements) && x.currentSQLIndex < |x.statements|
  {
    x.statements[x.currentSQLIndex].resources[0]
  }

  function WantedMode(x: Txn): LockMode
    requires x.currentSQLIndex < |x.statements|
  {
    x.statements[x.currentSQLIndex].lockMode
  }

  function NewTxn(id: TransactionId, home: NodeId, statements: seq<SQLStatement>): Txn {
    Txn(id, home, statements, Running, map[], 0, false, false, 0)
  }

  function BeginTxn(s: Node, statements: seq<SQLStatement>): Node {
    s.(txns := s.txns[s.nextId := NewTxn(s.nextId, s.locks.nodeId, statements)], nextId := s.nextId + 1)
  }

  function Finish(s: Node, t: TransactionId, e: Event): Node {
    if t !in s.txns then s
    else s.(locks := ReleaseAll(s.locks, t), txns := s.txns - {t}, history := s.history + [e])
  }

  function Advance(x: Txn, r: ResourceId, mode: LockMode): Txn {
    x.(currentSQLIndex := x.currentSQLIndex + 1, acquiredLocks := x.acquiredLocks[r := mode])
  }

  function Execute(s: Node, t: TransactionId): (Node, bool)
    requires t in s.txns ==> WellFormed(s.txns[t].statements)
  {
    if t !in s.txns || s.txns[t].status == Blocked then (s, false)
    else
      var x := s.txns[t];
      if x.currentSQLIndex >= |x.statements| then (Finish(s, t, Committing(t)), true)
      else
        var r, mode := Wanted(x), WantedMode(x);
        if OwnerNodeId(r) == s.locks.nodeId then
          var (locks, granted) := Acquire(s.locks, t, r, mode);
          if granted then
            (s.(locks := locks, txns := s.txns[t := Advance(x, r, mode)], history := s.history + [Granted(t, r, mode)]),
             true)
          else
            (s.(locks := locks, txns := s.txns[t := x.(status := Blocked, waitingForResourceId := r)]), false)
        else
          (s.(txns := s.txns[t := x.(remoteRequestPending := true, status := Blocked, waitingForResourceId := r)]),
           false)
  }

  /** What is asked of another node: the lock `r` for `t`. */
  datatype LockRequest = LockRequest(to: NodeId, t: TransactionId, r: ResourceId, mode: LockMode)

  /** The requests that executing the next statement sends. */
  function Requests(s: Node, t: TransactionId): seq<LockRequest>
    requires t in s.txns ==> WellFormed(s.txns[t].statements)
  {
    if t !in s.txns || s.txns[t].status == Blocked || s.txns[t].currentSQLIndex >= |s.txns[t].statements| then []
    else
      var x := s.txns[t];
      var r := Wanted(x);
      if OwnerNodeId(r) == s.locks.nodeId then [] else [LockRequest(OwnerNodeId(r), t, r, WantedMode(x))]
  }

  /** A lock response for the resource that `t` asked another node for. */
  function Respond(s: Node, t: TransactionId, granted: bool): Node
    requires t in s.txns ==> WellFormed(s.txns[t].statements)
    requires t in s.txns ==> s.txns[t].currentSQLIndex < |s.txns[t].statements|
  {
    if t !in s.txns then s
    else
      var x := s.txns[t];
      var answered := x.(remoteRequestPending := false, remoteRequestSuccess := granted, waitingForResourceId := 0);
      if granted then
        var resumed := Advance(answered, x.waitingForResourceId, WantedMode(x)).(status := Running);
        Execute(s.(txns := s.txns[t := resumed]), t).0
      else s.(txns := s.txns[t := answered.(status := Blocked)])
  }

  predicate Enabled(s: Node, step: Step) {
    match step
    case Begin(statements) => WellFormed(statements)
    case TryExecute(t) => t in s.txns ==> WellFormed(s.txns[t].statements)
    case Response(t, granted) =>
      && t in s.txns && s.txns[t].remoteRequestPending && WellFormed(s.txns[t].statements)
      && s.txns[t].currentSQLIndex < |s.txns[t].statements|
    case Abort(t) => true
  }

  function Apply(s: Node, step: Step): Node
    requires Enabled(s, step)
  {
    match step
    case Begin(statements) => BeginTxn(s, statements)
    case TryExecute(t) => Execute(s, t).0
    case Response(t, granted) => Respond(s, t, granted)
    case Abort(t) => Finish(s, t, Aborting(t))
  }

  /** A run performs the steps in turn; a step that is not enabled cannot happen and is passed over. */
  function Run(s: Node, steps: seq<Step>): Node
    decreases |steps|
  {
    if steps == [] then s
    else Run(if Enabled(s, steps[0]) then Apply(s, steps[0]) else s, steps[1..])
  }

  ghost predicate NoAbort(script: seq<Step>) { forall step :: step in script ==> !step.Abort? }

  function Fresh(node: NodeId): Node { Node(Locks(node, map[], map[]), map[], 1, []) }

  // ---------- the invariant of all runs ----------

  /** The locks that a transaction has after its first n statements. */
  function LocksAfter(statements: seq<SQLStatement>, n: nat): map<ResourceId, LockMode>
    requires n <= |statements| && WellFormed(statements)
  {
    if n == 0 then map[]
    else LocksAfter(statements, n - 1)[statements[n - 1].resources[0] := statements[n - 1].lockMode]
  }

  ghost predicate LocalWait(x: Txn) {
    x.status == Blocked && !x.remoteRequestPending && x.waitingForResourceId != 0
  }

  ghost predicate TxnValid(s: Node, x: Txn) {
    && 1 <= x.id < s.nextId && x.homeNodeId == s.locks.nodeId && WellFormed(x.statements)
    && x.currentSQLIndex <= |x.statements|
    && x.acquiredLocks == LocksAfter(x.statements, x.currentSQLIndex)
    && (x.status == Running || x.status == Blocked)
    && (x.status == Running ==> x.waitingForResourceId == 0 && !x.remoteRequestPending)
    && (x.remoteRequestPending || LocalWait(x) ==>
          x.currentSQLIndex < |x.statements| && x.waitingForResourceId == Wanted(x))
    && (x.remoteRequestPending ==> OwnerNodeId(x.waitingForResourceId) != s.locks.nodeId)
    && (LocalWait(x) ==> x.id in QueueOf(s.locks, x.waitingForResourceId))
  }

  ghost predicate TxnsValid(s: Node) {
    forall t :: t in s.txns ==> s.txns[t].id == t && TxnValid(s, s.txns[t])
  }

  /** A lock that this node owns is in its holder table exactly when the active transaction records it, in that mode. */
  ghost predicate ViewsAgree(s: Node) {
    && (forall r, t :: t in HoldersOf(s.locks, r) ==>
          t in s.txns && r in s.txns[t].acquiredLocks && s.txns[t].acquiredLocks[r] == HoldersOf(s.locks, r)[t])
    && (forall r, t :: t in s.txns && OwnerNodeId(r) == s.locks.nodeId && r in s.txns[t].acquiredLocks ==>
          t in HoldersOf(s.locks, r))
  }

  /** Who is in a queue was once refused there; as long as it is active it waits for that resource. */
  ghost predicate QueuesValid(s: Node) {
    forall r, t :: t in QueueOf(s.locks, r) ==> QueuedValid(s, r, t)
  }

  ghost predicate QueuedValid(s: Node, r: ResourceId, t: TransactionId) {
    1 <= t < s.nextId && (t in s.txns ==> LocalWait(s.txns[t]) && s.txns[t].waitingForResourceId == r)
  }

  /** The log names transactions that began, and who ended is not active again. */
  ghost predicate HistoryValid(s: Node) {
    forall e :: e in s.history ==> e.t < s.nextId && (e.Granted? || e.t !in s.txns)
  }

  ghost predicate Inv(s: Node) {
    && s.locks.nodeId >= 1 && s.nextId >= 1
    && Valid(s.locks) && TxnsValid(s) && ViewsAgree(s) && QueuesValid(s) && HistoryValid(s)
  }

  lemma FreshInv(node: NodeId)
    requires node >= 1
    ensures Inv(Fresh(node))
  {
  }

  /** Steps that change one transaction, but neither its locks nor any table, keep both views in agreement. */
  lemma OneTxnChanged(s: Node, s': Node, t: TransactionId, x: Txn)
    requires ViewsAgree(s) && QueuesValid(s) && s'.locks == s.locks && s.nextId <= s'.nextId
    requires s'.txns == s.txns[t := x]
    requires t in s.txns ==> x.acquiredLocks == s.txns[t].acquiredLocks
    requires t !in s.txns ==> x.acquiredLocks == map[] && t >= s.nextId
    requires forall r :: t !in QueueOf(s.locks, r)
    ensures ViewsAgree(s') && QueuesValid(s')
  {
    hide OwnerNodeId;
    forall r, u | u in QueueOf(s'.locks, r) ensures QueuedValid(s', r, u) {
      assert u in QueueOf(s.locks, r) && QueuedValid(s, r, u);
    }
  }

  lemma NotQueued(s: Node, t: TransactionId)
    requires QueuesValid(s) && (t in s.txns ==> !LocalWait(s.txns[t])) && (t !in s.txns ==> t >= s.nextId)
    ensures forall r :: t !in QueueOf(s.locks, r)
  {
  }

  lemma BeginInv(s: Node, statements: seq<SQLStatement>)
    requires Inv(s) && WellFormed(statements)
    ensures Inv(BeginTxn(s, statements))
  {
    var s' := BeginTxn(s, statements);
    forall t | t in s'.txns ensures TxnValid(s', s'.txns[t]) {
      if t != s.nextId { assert TxnValid(s, s.txns[t]); }
    }
    assert s.nextId !in s.txns by { assert s.nextId in s.txns ==> TxnValid(s, s.txns[s.nextId]); }
    NotQueued(s, s.nextId);
    OneTxnChanged(s, s', s.nextId, s'.txns[s.nextId]);
  }

  lemma FinishInv(s: Node, t: TransactionId, e: Event)
    requires Inv(s) && e.t == t
    ensures Inv(Finish(s, t, e))
  {
    if t in s.txns {
      var s' := Finish(s, t, e);
      ReleaseAllEntries(s.locks, t);
      assert s'.locks.queues == s.locks.queues && s'.locks.nodeId == s.locks.nodeId;
      FinishViews(s, s', t);
      assert HistoryValid(s') by { assert TxnValid(s, s.txns[t]); }
      hide ReleaseAll, Valid;
      forall u | u in s'.txns ensures TxnValid(s', s'.txns[u]) {
        assert TxnValid(s, s.txns[u]);
      }
    }
  }

  lemma FinishViews(s: Node, s': Node, t: TransactionId)
    requires ViewsAgree(s) && QueuesValid(s)
    requires s'.txns == s.txns - {t} && s'.nextId == s.nextId && s'.locks.nodeId == s.locks.nodeId
    requires s'.locks.queues == s.locks.queues
    requires forall r :: HoldersOf(s'.locks, r) == HoldersOf(s.locks, r) - {t}
    ensures ViewsAgree(s') && QueuesValid(s')
  {
    hide OwnerNodeId;
    forall r, u | u in s'.txns && OwnerNodeId(r) == s'.locks.nodeId && r in s'.txns[u].acquiredLocks
      ensures u in HoldersOf(s'.locks, r)
    {
      assert u in HoldersOf(s.locks, r);
    }
    forall r, u | u in QueueOf(s'.locks, r) ensures QueuedValid(s', r, u) {
      assert u in QueueOf(s.locks, r) && QueuedValid(s, r, u);
    }
  }

  lemma GrantInv(s: Node, t: TransactionId)
    requires Inv(s) && t in s.txns && s.txns[t].status == Running && s.txns[t].currentSQLIndex < |s.txns[t].statements|
    requires OwnerNodeId(Wanted(s.txns[t])) == s.locks.nodeId
    requires Acquire(s.locks, t, Wanted(s.txns[t]), WantedMode(s.txns[t])).1
    ensures Inv(Execute(s, t).0)
  {
    var x := s.txns[t];
    var r, mode := Wanted(x), WantedMode(x);
    var s' := Execute(s, t).0;
    AcquireValid(s.locks, t, r, mode);
    assert HoldersOf(s'.locks, r) == HoldersOf(s.locks, r)[t := mode];
    assert forall q :: q != r ==> HoldersOf(s'.locks, q) == HoldersOf(s.locks, q);
    assert s'.locks.queues == s.locks.queues && s'.locks.nodeId == s.locks.nodeId;
    hide Acquire, Valid, OwnerNodeId, Execute;
    GrantViews(s, s', t, r, mode);
    hide ViewsAgree, QueuesValid;
    forall u | u in s'.txns ensures TxnValid(s', s'.txns[u]) {
      assert TxnValid(s, s.txns[u]);
    }
  }

  lemma GrantViews(s: Node, s': Node, t: TransactionId, r: ResourceId, mode: LockMode)
    requires ViewsAgree(s) && QueuesValid(s) && t in s.txns && !LocalWait(s.txns[t])
    requires s'.txns == s.txns[t := Advance(s.txns[t], r, mode)] && s'.nextId == s.nextId
    requires HoldersOf(s'.locks, r) == HoldersOf(s.locks, r)[t := mode]
    requires forall q :: q != r ==> HoldersOf(s'.locks, q) == HoldersOf(s.locks, q)
    requires s'.locks.queues == s.locks.queues && s'.locks.nodeId == s.locks.nodeId
    ensures ViewsAgree(s') && QueuesValid(s')
  {
    hide OwnerNodeId, HoldersOf;
    NotQueued(s, t);
    forall q, u | u in QueueOf(s'.locks, q) ensures QueuedValid(s', q, u) {
      assert u in QueueOf(s.locks, q) && QueuedValid(s, q, u);
    }
  }

  lemma RefuseInv(s: Node, t: TransactionId)
    requires Inv(s) && t in s.txns && s.txns[t].status == Running && s.txns[t].currentSQLIndex < |s.txns[t].statements|
    requires OwnerNodeId(Wanted(s.txns[t])) == s.locks.nodeId
    requires !Acquire(s.locks, t, Wanted(s.txns[t]), WantedMode(s.txns[t])).1
    ensures Inv(Execute(s, t).0)
  {
    var x := s.txns[t];
    var r := Wanted(x);
    var s' := Execute(s, t).0;
    AcquireValid(s.locks, t, r, WantedMode(x));
    assert forall q :: HoldersOf(s'.locks, q) == HoldersOf(s.locks, q);
    assert QueueOf(s'.locks, r) == QueueOf(s.locks, r) + [t];
    assert forall q :: q != r ==> QueueOf(s'.locks, q) == QueueOf(s.locks, q);
    hide Acquire, Valid, OwnerNodeId, Execute, HoldersOf, QueueOf;
    RefuseViews(s, s', t, r);
    hide ViewsAgree, QueuesValid;
    forall u | u in s'.txns ensures TxnValid(s', s'.txns[u]) {
      assert TxnValid(s, s.txns[u]);
    }
  }

  lemma RefuseViews(s: Node, s': Node, t: TransactionId, r: ResourceId)
    requires ViewsAgree(s) && QueuesValid(s) && t in s.txns && 1 <= t < s.nextId && !LocalWait(s.txns[t])
    requires s'.txns == s.txns[t := s.txns[t].(status := Blocked, waitingForResourceId := r)] && s'.nextId == s.nextId
    requires !s.txns[t].remoteRequestPending && r >= 1
    requires forall q :: HoldersOf(s'.locks, q) == HoldersOf(s.locks, q)
    requires QueueOf(s'.locks, r) == QueueOf(s.locks, r) + [t] && s'.locks.nodeId == s.locks.nodeId
    requires forall q :: q != r ==> QueueOf(s'.locks, q) == QueueOf(s.locks, q)
    ensures ViewsAgree(s') && QueuesValid(s')
  {
    hide OwnerNodeId, HoldersOf, QueueOf;
    forall q, u | u in QueueOf(s'.locks, q) ensures QueuedValid(s', q, u) {
      if u != t { assert QueuedValid(s, q, u); }
      NotQueued(s, t);
    }
  }

  lemma RemoteInv(s: Node, t: TransactionId)
    requires Inv(s) && t in s.txns && s.txns[t].status == Running && s.txns[t].currentSQLIndex < |s.txns[t].statements|
    requires OwnerNodeId(Wanted(s.txns[t])) != s.locks.nodeId
    ensures Inv(Execute(s, t).0)
  {
    var s' := Execute(s, t).0;
    forall u | u in s'.txns ensures TxnValid(s', s'.txns[u]) {
      assert TxnValid(s, s.txns[u]);
    }
    NotQueued(s, t);
    OneTxnChanged(s, s', t, s'.txns[t]);
  }

  lemma ExecuteInv(s: Node, t: TransactionId)
    requires Inv(s) && (t in s.txns ==> WellFormed(s.txns[t].statements))
    ensures Inv(Execute(s, t).0)
  {
    if t in s.txns && s.txns[t].status != Blocked {
      var x := s.txns[t];
      assert TxnValid(s, x);
      if x.currentSQLIndex >= |x.statements| {
        FinishInv(s, t, Committing(t));
      } else if OwnerNodeId(Wanted(x)) != s.locks.nodeId {
        RemoteInv(s, t);
      } else if Acquire(s.locks, t, Wanted(x), WantedMode(x)).1 {
        GrantInv(s, t);
      } else {
        RefuseInv(s, t);
      }
    }
  }

  /** The state in which a granted response lets the transaction go on. */
  function Resume(s: Node, t: TransactionId, granted: bool): Node
    requires t in s.txns && s.txns[t].currentSQLIndex < |s.txns[t].statements|
  {
    var x := s.txns[t];
    var answered := x.(remoteRequestPending := false, remoteRequestSuccess := granted, waitingForResourceId := 0);
    var next := if granted then Advance(answered, x.waitingForResourceId, WantedMode(x)).(status := Running)
                else answered.(status := Blocked);
    s.(txns := s.txns[t := next])
  }

  lemma ResumeInv(s: Node, t: TransactionId, granted: bool)
    requires Inv(s) && Enabled(s, Response(t, granted))
    ensures Inv(Resume(s, t, granted))
    ensures Respond(s, t, granted) == if granted then Execute(Resume(s, t, granted), t).0 else Resume(s, t, granted)
  {
    var s' := Resume(s, t, granted);
    assert TxnValid(s, s.txns[t]);
    forall u | u in s'.txns ensures TxnValid(s', s'.txns[u]) {
      assert TxnValid(s, s.txns[u]);
    }
    NotQueued(s, t);
    ResumeViews(s, s', t);
  }

  lemma ResumeViews(s: Node, s': Node, t: TransactionId)
    requires ViewsAgree(s) && QueuesValid(s) && t in s.txns && t in s'.txns
    requires s'.locks == s.locks && s.nextId == s'.nextId && s'.txns == s.txns[t := s'.txns[t]]
    requires OwnerNodeId(s.txns[t].waitingForResourceId) != s.locks.nodeId
    requires forall r :: r != s.txns[t].waitingForResourceId ==>
      (r in s'.txns[t].acquiredLocks <==> r in s.txns[t].acquiredLocks)
      && (r in s.txns[t].acquiredLocks && r in s'.txns[t].acquiredLocks ==>
            s'.txns[t].acquiredLocks[r] == s.txns[t].acquiredLocks[r])
    requires Valid(s.locks) && forall r :: t !in QueueOf(s.locks, r)
    ensures ViewsAgree(s') && QueuesValid(s')
  {
    hide OwnerNodeId;
    forall r, u | u in HoldersOf(s'.locks, r)
      ensures u in s'.txns && r in s'.txns[u].acquiredLocks
        && s'.txns[u].acquiredLocks[r] == HoldersOf(s'.locks, r)[u]
    {
      assert OwnerNodeId(r) == s.locks.nodeId;
    }
    forall r, u | u in QueueOf(s'.locks, r) ensures QueuedValid(s', r, u) {
      assert u in QueueOf(s.locks, r) && QueuedValid(s, r, u);
    }
  }

  lemma ApplyInv(s: Node, step: Step)
    requires Inv(s) && Enabled(s, step)
    ensures Inv(Apply(s, step))
  {
    match step
    case Begin(statements) => BeginInv(s, statements);
    case TryExecute(t) => ExecuteInv(s, t);
    case Response(t, granted) =>
      ResumeInv(s, t, granted);
      if granted { ExecuteInv(Resume(s, t, granted), t); }
    case Abort(t) => FinishInv(s, t, Aborting(t));
  }

  /** In every run both records of a lock agree, locks are compatible, and queues hold past requests. */
  lemma {:induction false} RunInv(s: Node, steps: seq<Step>)
    requires Inv(s)
    ensures Inv(Run(s, steps))
    decreases |steps|
  {
    if steps != [] {
      if Enabled(s, steps[0]) { ApplyInv(s, steps[0]); }
      RunInv(if Enabled(s, steps[0]) then Apply(s, steps[0]) else s, steps[1..]);
    }
  }

  /** Lock safety over all runs: every resource with an entry is owned by the node and has holders, all of them shared
      or just one; a lock is in the holder table in some mode exactly when the node owns the resource and the
      active transaction records it in that mode; and what a transaction records are the locks of the statements it
      has executed, each in the mode of the last statement that named the resource. */
  lemma LocksAgreeInEveryRun(node: NodeId, steps: seq<Step>)
    requires node >= 1
    ensures var s := Run(Fresh(node), steps);
      && (forall r :: r in s.locks.holders ==>
            OwnerNodeId(r) == s.locks.nodeId && s.locks.holders[r] != map[] && Compatible(s.locks.holders[r]))
      && (forall r, t, m :: (t in HoldersOf(s.locks, r) && HoldersOf(s.locks, r)[t] == m) <==> HasLock(s, r, t, m))
      && (forall t :: t in s.txns ==> RecordsItsStatements(s.txns[t]))
  {
    FreshInv(node);
    RunInv(Fresh(node), steps);
    var s := Run(Fresh(node), steps);
    hide Run, Fresh;
    forall t | t in s.txns ensures RecordsItsStatements(s.txns[t]) { assert TxnValid(s, s.txns[t]); }
  }

  ghost predicate HasLock(s: Node, r: ResourceId, t: TransactionId, m: LockMode) {
    && OwnerNodeId(r) == s.locks.nodeId && t in s.txns
    && r in s.txns[t].acquiredLocks && s.txns[t].acquiredLocks[r] == m
  }

  ghost predicate RecordsItsStatements(x: Txn) {
    && WellFormed(x.statements) && x.currentSQLIndex <= |x.statements|
    && x.acquiredLocks == LocksAfter(x.statements, x.currentSQLIndex)
  }
}
