/** The transaction manager of one node in the form the program gives it (TransactionManager.cpp). */
module TransactionManager {
  import opened Commons
  import LM = LockModel
  import M = NodeModel
  import opened ResourceManager

  class Transaction {
    const id: TransactionId
    const homeNodeId: NodeId
    const statements: seq<SQLStatement>
    var status: M.Status
    var acquiredLocks: map<ResourceId, LockMode>
    var currentSQLIndex: nat
    var remoteRequestPending: bool
    var remoteRequestSuccess: bool
    var waitingForResourceId: ResourceId

    ghost function Value(): M.Txn
      reads this
    {
      M.Txn(id, homeNodeId, statements, status, acquiredLocks, currentSQLIndex,
            remoteRequestPending, remoteRequestSuccess, waitingForResourceId)
    }

    constructor (id: TransactionId, home: NodeId, statements: seq<SQLStatement>)
      ensures Value() == M.NewTxn(id, home, statements)
    {
      this.id, this.homeNodeId, this.statements := id, home, statements;
      status, acquiredLocks, currentSQLIndex := M.Running, map[], 0;
      remoteRequestPending, remoteRequestSuccess, waitingForResourceId := false, false, 0;
    }
  }

  class TransactionManager {
    const nodeId: NodeId
    const resourceManager: ResourceManager
    var nextTransactionId: TransactionId
    var activeTransactions: map<TransactionId, Transaction>
    /** The lock requests handed to the network. */
    var requests: seq<M.LockRequest>
    ghost var history: seq<M.Event>

    /** Every active transaction is an object of its own. */
    ghost predicate Separate()
      reads this
    {
      && resourceManager.nodeId == nodeId
      && forall t, u :: t in activeTransactions && u in activeTransactions && t != u ==>
           activeTransactions[t] != activeTransactions[u]
    }

    ghost function Model(): M.Node
      reads this, resourceManager, activeTransactions.Values
    {
      M.Node(resourceManager.Model(), map t | t in activeTransactions :: activeTransactions[t].Value(),
             nextTransactionId, history)
    }

    constructor (node: NodeId, resources: ResourceManager)
      requires resources.Model() == LM.Locks(node, map[], map[])
      ensures nodeId == node && resourceManager == resources && Separate() && Model() == M.Fresh(node)
      ensures activeTransactions == map[] && requests == []
    {
      nodeId, resourceManager := node, resources;
      nextTransactionId, activeTransactions, requests, history := 1, map[], [], [];
    }

    method GetNextTransactionId() returns (id: TransactionId)
      modifies this`nextTransactionId
      ensures id == old(nextTransactionId) && nextTransactionId == id + 1
    {
      id := nextTransactionId;
      nextTransactionId := nextTransactionId + 1;
    }

    method BeginControlledTransaction(statements: seq<SQLStatement>) returns (trans: Transaction)
      requires Separate() && M.Inv(Model())
      modifies this
      ensures Separate() && Model() == M.BeginTxn(old(Model()), statements) && requests == old(requests)
      ensures fresh(trans) && activeTransactions == old(activeTransactions)[old(nextTransactionId) := trans]
    {
      ghost var before := Model();
      var id := GetNextTransactionId();
      trans := new Transaction(id, nodeId, statements);
      activeTransactions := activeTransactions[id := trans];
      assert Model().txns == before.txns[id := M.NewTxn(id, nodeId, statements)];
    }

    /** One transaction object changed and nothing else: the model changes at that one entry. */
    twostate lemma OneChanged(t: TransactionId)
      requires old(Separate()) && Separate() && t in activeTransactions
      requires activeTransactions == old(activeTransactions)
      requires forall u :: u in activeTransactions && u != t ==> unchanged(activeTransactions[u])
      ensures Model().txns == old(Model()).txns[t := activeTransactions[t].Value()]
    {
      var expected := old(Model()).txns[t := activeTransactions[t].Value()];
      forall u ensures u in Model().txns && u in expected ==> Model().txns[u] == expected[u] {}
      SameEntries(Model().txns, expected);
    }

    /** One transaction was taken out, and no other object changed. */
    twostate lemma OneRemoved(t: TransactionId)
      requires old(Separate()) && Separate() && old(t in activeTransactions)
      requires activeTransactions == old(activeTransactions) - {t}
      requires forall u :: u in activeTransactions ==> unchanged(activeTransactions[u])
      ensures Model().txns == old(Model()).txns - {t}
    {
      var expected := old(Model()).txns - {t};
      forall u ensures u in Model().txns && u in expected ==> Model().txns[u] == expected[u] {}
      SameEntries(Model().txns, expected);
    }

    method TryExecuteNextSQLStatement(t: TransactionId) returns (progressed: bool)
      requires Separate() && M.Inv(Model()) && (t in Model().txns ==> M.WellFormed(Model().txns[t].statements))
      modifies this, resourceManager, activeTransactions.Values
      ensures Separate() && (Model(), progressed) == M.Execute(old(Model()), t)
      ensures requests == old(requests) + M.Requests(old(Model()), t)
      ensures activeTransactions.Values <= old(activeTransactions.Values)
    {
      hide M.Inv, LM.Acquire, M.Finish, OwnerNodeId;
      if t !in activeTransactions { return false; }
      var trans := activeTransactions[t];
      assert trans.Value() == Model().txns[t];
      if trans.status == M.Blocked { return false; }
      if trans.currentSQLIndex >= |trans.statements| {
        CommitTransaction(t);
        return true;
      }
      var sql := trans.statements[trans.currentSQLIndex];
      var r := sql.resources[0];
      if OwnerNodeId(r) == nodeId {
        var granted := resourceManager.AcquireLock(t, r, sql.lockMode);
        if granted {
          trans.currentSQLIndex := trans.currentSQLIndex + 1;
          trans.acquiredLocks := trans.acquiredLocks[r := sql.lockMode];
          history := history + [M.Granted(t, r, sql.lockMode)];
          OneChanged(t);
          return true;
        } else {
          trans.status := M.Blocked;
          trans.waitingForResourceId := r;
          OneChanged(t);
          return false;
        }
      } else {
        trans.remoteRequestPending := true;
        trans.waitingForResourceId := r;
        requests := requests + [M.LockRequest(OwnerNodeId(r), t, r, sql.lockMode)];
        trans.status := M.Blocked;
        OneChanged(t);
        return false;
      }
    }

    method HandleSQLResponse(t: TransactionId, granted: bool, r: ResourceId)
      requires Separate() && M.Inv(Model())
      requires t in Model().txns ==>
        M.Enabled(Model(), M.Response(t, granted)) && Model().txns[t].waitingForResourceId == r
      modifies this, resourceManager, activeTransactions.Values
      ensures Separate() && Model() == M.Respond(old(Model()), t, granted)
      ensures requests == old(requests)
        + if granted && t in old(Model()).txns then M.Requests(M.Resume(old(Model()), t, granted), t) else []
      ensures activeTransactions.Values <= old(activeTransactions.Values)
    {
      if t !in activeTransactions { return; }
      assert activeTransactions[t].Value() == Model().txns[t];
      M.ResumeInv(Model(), t, granted);
      hide M.Inv, M.Execute, M.Respond, M.WellFormed, M.Apply, OwnerNodeId;
      RecordResponse(t, granted, r);
      if granted {
        var _ := TryExecuteNextSQLStatement(t);
      }
    }

    /** What the answer changes in the transaction before it goes on. */
    method RecordResponse(t: TransactionId, granted: bool, r: ResourceId)
      requires Separate() && t in activeTransactions
      requires activeTransactions[t].currentSQLIndex < |activeTransactions[t].statements|
      requires activeTransactions[t].waitingForResourceId == r
      modifies activeTransactions[t]
      ensures Separate() && t in old(Model()).txns && old(Model()).txns[t] == old(activeTransactions[t].Value())
      ensures Model() == M.Resume(old(Model()), t, granted)
    {
      var trans := activeTransactions[t];
      trans.remoteRequestPending := false;
      trans.remoteRequestSuccess := granted;
      trans.waitingForResourceId := 0;
      if granted {
        trans.currentSQLIndex := trans.currentSQLIndex + 1;
        trans.acquiredLocks := trans.acquiredLocks[r := trans.statements[trans.currentSQLIndex - 1].lockMode];
        trans.status := M.Running;
      } else {
        trans.status := M.Blocked;
      }
      OneChanged(t);
    }

    method AbortTransaction(t: TransactionId)
      requires Separate() && M.Inv(Model())
      modifies this, resourceManager, activeTransactions.Values
      ensures Separate() && Model() == M.Finish(old(Model()), t, M.Aborting(t)) && requests == old(requests)
      ensures activeTransactions.Values <= old(activeTransactions.Values)
    {
      if t !in activeTransactions { return; }
      var trans := activeTransactions[t];
      var _ := resourceManager.ReleaseAllLocks(t);
      trans.status := M.Aborted;
      Remove(t, M.Aborting(t));
      OneRemoved(t);
    }

    method CommitTransaction(t: TransactionId)
      requires Separate() && M.Inv(Model())
      modifies this, resourceManager, activeTransactions.Values
      ensures Separate() && Model() == M.Finish(old(Model()), t, M.Committing(t)) && requests == old(requests)
      ensures activeTransactions.Values <= old(activeTransactions.Values)
    {
      if t !in activeTransactions { return; }
      var trans := activeTransactions[t];
      var _ := resourceManager.ReleaseAllLocks(t);
      trans.status := M.Committed;
      Remove(t, M.Committing(t));
      OneRemoved(t);
    }

    method Remove(t: TransactionId, ghost e: M.Event)
      requires Separate() && t in activeTransactions
      modifies this`activeTransactions, this`history
      ensures activeTransactions == old(activeTransactions) - {t} && history == old(history) + [e]
      ensures Separate() && activeTransactions.Values <= old(activeTransactions.Values)
    {
      activeTransactions := activeTransactions - {t};
      history := history + [e];
    }

    method GetActiveTransactions() returns (ids: set<TransactionId>)
      ensures ids == Model().txns.Keys
    {
      ids := {};
      var left := activeTransactions.Keys;
      while left != {}
        invariant left <= activeTransactions.Keys && ids == activeTransactions.Keys - left
        decreases left
      {
        var t := Pick(left);
        ids, left := ids + {t}, left - {t};
      }
    }

    method GetTransactionWaitingFor(t: TransactionId) returns (r: ResourceId)
      ensures r == if t in Model().txns then Model().txns[t].waitingForResourceId else 0
    {
      r := if t in activeTransactions then activeTransactions[t].waitingForResourceId else 0;
    }

    method GetTransactionHomeNode(t: TransactionId) returns (home: NodeId)
      ensures home == if t in Model().txns then Model().txns[t].homeNodeId else 0
    {
      home := if t in activeTransactions then activeTransactions[t].homeNodeId else 0;
    }

    /** Whatever other threads do meanwhile: an arbitrary sequence of steps. */
    method Interfere(steps: seq<M.Step>)
      requires Separate() && M.Inv(Model())
      modifies this, resourceManager, activeTransactions.Values
      ensures Separate() && M.Inv(Model()) && Model() == M.Run(old(Model()), steps)
      ensures fresh(activeTransactions.Values - old(activeTransactions.Values))
    {
      ghost var start := Model();
      for i := 0 to |steps|
        invariant Separate() && M.Inv(Model())
        invariant M.Run(start, steps) == M.Run(Model(), steps[i..])
        invariant fresh(activeTransactions.Values - old(activeTransactions.Values))
      {
        assert steps[i..][0] == steps[i] && steps[i..][1..] == steps[i + 1..];
        Perform(steps[i]);
      }
    }

    method Perform(step: M.Step)
      requires Separate() && M.Inv(Model())
      modifies this, resourceManager, activeTransactions.Values
      ensures Separate() && M.Inv(Model())
      ensures Model() == if M.Enabled(old(Model()), step) then M.Apply(old(Model()), step) else old(Model())
      ensures fresh(activeTransactions.Values - old(activeTransactions.Values))
    {
      ghost var before := Model();
      if M.Enabled(Model(), step) { M.ApplyInv(Model(), step); }
      match step
      case Begin(statements) =>
        if M.WellFormed(statements) { var _ := BeginControlledTransaction(statements); }
      case TryExecute(t) =>
        AlwaysWellFormed(before, t);
        var _ := TryExecuteNextSQLStatement(t);
      case Response(t, granted) =>
        AlwaysWellFormed(before, t);
        if t in activeTransactions {
          var trans := activeTransactions[t];
          assert trans.Value() == Model().txns[t];
          if trans.remoteRequestPending { HandleSQLResponse(t, granted, trans.waitingForResourceId); }
        }
      case Abort(t) =>
        AbortTransaction(t);
    }

    lemma AlwaysWellFormed(s: M.Node, t: TransactionId)
      requires M.Inv(s)
      ensures t in s.txns ==> M.WellFormed(s.txns[t].statements)
      ensures t in s.txns && s.txns[t].remoteRequestPending ==> s.txns[t].currentSQLIndex < |s.txns[t].statements|
    {
      if t in s.txns { assert M.TxnValid(s, s.txns[t]); }
    }
  }
}
