/** The lock manager of one node in the form the program gives it (ResourceManager.cpp). */
module ResourceManager {
  import opened Commons
  import M = LockModel

  class ResourceManager {
    const nodeId: NodeId
    var resourceHolders: map<ResourceId, map<TransactionId, LockMode>>
    var resourceWaitingQueues: map<ResourceId, seq<TransactionId>>
    /** The calls of the retry callback, oldest first. */
    ghost var notified: seq<M.Note>

    ghost function Model(): M.Locks
      reads this
    {
      M.Locks(nodeId, resourceHolders, resourceWaitingQueues)
    }

    constructor (node: NodeId)
      ensures nodeId == node && Model() == M.Locks(node, map[], map[]) && M.Valid(Model()) && notified == []
    {
      nodeId := node;
      resourceHolders, resourceWaitingQueues, notified := map[], map[], [];
    }

    method CheckConflict(r: ResourceId, mode: LockMode) returns (conflict: bool)
      ensures conflict == M.Conflict(Model(), r, mode)
    {
      if r !in resourceHolders || resourceHolders[r] == map[] { return false; }
      if r in resourceWaitingQueues && resourceWaitingQueues[r] != [] { return true; }
      var holders := resourceHolders[r];
      var left := holders.Keys;
      while left != {}
        invariant left <= holders.Keys
        invariant left != holders.Keys ==> mode == Shared
        invariant forall t :: t in holders && t !in left ==> holders[t] == Shared
        decreases left
      {
        var t := Pick(left);
        if mode == Shared {
          if holders[t] == Exclusive {
            assert t in M.HoldersOf(Model(), r) && M.HoldersOf(Model(), r)[t] == Exclusive;
            return true;
          }
        } else {
          return true;
        }
        left := left - {t};
      }
      NonEmptyHolders(holders);
      conflict := false;
    }

    lemma NonEmptyHolders(h: map<TransactionId, LockMode>)
      ensures h.Keys == {} ==> h == map[]
    {
    }

    method AcquireLock(t: TransactionId, r: ResourceId, mode: LockMode) returns (granted: bool)
      modifies this
      ensures (Model(), granted) == M.Acquire(old(Model()), t, r, mode)
      ensures notified == old(notified)
    {
      if OwnerNodeId(r) != nodeId { return false; }
      var conflict := CheckConflict(r, mode);
      if conflict {
        var queue := if r in resourceWaitingQueues then resourceWaitingQueues[r] else [];
        resourceWaitingQueues := resourceWaitingQueues[r := queue + [t]];
        granted := false;
      } else {
        var holders := if r in resourceHolders then resourceHolders[r] else map[];
        resourceHolders := resourceHolders[r := holders[t := mode]];
        granted := true;
      }
    }

    method ReleaseLock(t: TransactionId, r: ResourceId)
      modifies this
      ensures Model() == M.Release(old(Model()), t, r)
      ensures notified == old(notified) + M.ReleaseNotes(old(Model()), t, r)
      ensures notified == old(notified) +
        if OwnerNodeId(r) == nodeId && M.Holds(old(Model()), t, r) && M.QueueOf(old(Model()), r) != []
        then [(M.QueueOf(old(Model()), r)[0], r)] else []
    {
      if OwnerNodeId(r) != nodeId { return; }
      if r in resourceHolders && t in resourceHolders[r] {
        resourceHolders := resourceHolders[r := resourceHolders[r] - {t}];
        NotifyFront(r);
        if resourceHolders[r] == map[] {
          resourceHolders := resourceHolders - {r};
        }
      }
    }

    method NotifyFront(r: ResourceId)
      modifies this`notified
      ensures notified == old(notified) + M.FrontNote(Model(), r)
    {
      if r in resourceWaitingQueues && resourceWaitingQueues[r] != [] {
        notified := notified + [(resourceWaitingQueues[r][0], r)];
      }
    }

    /** Takes `t` out of every holder map, then notifies the front waiter of each resource it released: one note for
        each resource that `t` held and somebody waits for, and no other. */
    method ReleaseAllLocks(t: TransactionId) returns (ghost released: seq<ResourceId>)
      requires M.Valid(Model())
      modifies this
      ensures Model() == M.ReleaseAll(old(Model()), t)
      ensures M.HeldInOrder(old(Model()), t, released)
      ensures notified == old(notified) + M.FrontNotes(old(Model()), released)
      ensures forall i, j :: |old(notified)| <= i < j < |notified| ==> notified[i] != notified[j]
      ensures forall n :: n in notified[|old(notified)|..] <==>
        && M.Holds(old(Model()), t, n.1)
        && M.QueueOf(old(Model()), n.1) != [] && n.0 == M.QueueOf(old(Model()), n.1)[0]
    {
      var releasedResources := RemoveFromHolders(t);
      released := releasedResources;
      NotifyFronts(releasedResources);
      M.NotesOfQueues(Model(), old(Model()), released);
      M.FrontWaitersAreTold(old(Model()), t, released);
      assert notified[|old(notified)|..] == M.FrontNotes(old(Model()), released);
    }

    method NotifyFronts(resources: seq<ResourceId>)
      modifies this`notified
      ensures notified == old(notified) + M.FrontNotes(Model(), resources)
    {
      for i := 0 to |resources|
        invariant notified == old(notified) + M.FrontNotes(Model(), resources[..i])
      {
        assert resources[..i + 1] == resources[..i] + [resources[i]];
        M.NotesSnoc(Model(), resources[..i], resources[i]);
        NotifyFront(resources[i]);
      }
      assert resources[..|resources|] == resources;
    }

    /** What the first loop of the batch release has achieved when `left` is still to be looked at. */
    ghost predicate Removing(before: M.Locks, t: TransactionId, left: set<ResourceId>, released: seq<ResourceId>)
      reads this
    {
      && nodeId == before.nodeId && resourceWaitingQueues == before.queues
      && M.Tidy(Model()) && left <= before.holders.Keys
      && (forall r :: r in left ==> r in resourceHolders && M.HoldersOf(Model(), r) == M.HoldersOf(before, r))
      && (forall r :: r !in left ==> M.HoldersOf(Model(), r) == M.HoldersOf(before, r) - {t})
      && (forall i, j :: 0 <= i < j < |released| ==> released[i] != released[j])
      && (forall r :: r in released <==> r !in left && M.Holds(before, t, r))
    }

    method RemoveFromHolders(t: TransactionId) returns (released: seq<ResourceId>)
      requires M.Valid(Model())
      modifies this`resourceHolders
      ensures Model() == M.ReleaseAll(old(Model()), t)
      ensures M.HeldInOrder(old(Model()), t, released)
    {
      ghost var before := Model();
      released := [];
      var left := resourceHolders.Keys;
      while left != {}
        invariant Removing(before, t, left, released)
        decreases left
      {
        var r := Pick(left);
        released := RemoveFrom(t, r, before, left, released);
        left := left - {r};
      }
      AllReleased(before, t);
    }

    /** The body of the loop over the held resources. */
    method RemoveFrom(t: TransactionId, r: ResourceId, ghost before: M.Locks, ghost left: set<ResourceId>,
                      released: seq<ResourceId>)
      returns (longer: seq<ResourceId>)
      requires Removing(before, t, left, released) && r in left
      modifies this`resourceHolders
      ensures Removing(before, t, left - {r}, longer)
    {
      longer := released;
      if t in resourceHolders[r] {
        resourceHolders := resourceHolders[r := resourceHolders[r] - {t}];
        longer := released + [r];
        if resourceHolders[r] == map[] {
          resourceHolders := resourceHolders - {r};
        }
      } else {
        assert resourceHolders[r] - {t} == resourceHolders[r];
      }
    }

    lemma AllReleased(before: M.Locks, t: TransactionId)
      requires M.Valid(before) && M.Tidy(Model())
      requires resourceWaitingQueues == before.queues && nodeId == before.nodeId
      requires forall r :: M.HoldersOf(Model(), r) == M.HoldersOf(before, r) - {t}
      ensures Model() == M.ReleaseAll(before, t)
    {
      M.ReleaseAllEntries(before, t);
      M.SameHolders(Model(), M.ReleaseAll(before, t));
    }

    method GetResourceHolders(r: ResourceId) returns (holders: map<TransactionId, LockMode>)
      ensures holders == M.HoldersOf(Model(), r)
    {
      holders := if r in resourceHolders then resourceHolders[r] else map[];
    }

    method GetResourceWaitingQueue(r: ResourceId) returns (queue: seq<TransactionId>)
      ensures queue == M.QueueOf(Model(), r)
    {
      queue := if r in resourceWaitingQueues then resourceWaitingQueues[r] else [];
    }

    /** Exactly the positive resource ids that this node owns, in ascending order. */
    method GetLocalResources() returns (resources: seq<ResourceId>)
      requires nodeId >= 1
      ensures forall i :: 0 <= i < |resources| ==> resources[i] == FirstLocal(nodeId) + i
      ensures forall r :: r in resources <==> OwnerNodeId(r) == nodeId && r >= 1
    {
      resources := [];
      for r := FirstLocal(nodeId) to LastLocal(nodeId) + 1
        invariant |resources| == r - FirstLocal(nodeId)
        invariant forall i :: 0 <= i < |resources| ==> resources[i] == FirstLocal(nodeId) + i
      {
        resources := resources + [r];
      }
      forall r ensures r in resources <==> OwnerNodeId(r) == nodeId && r >= 1 {
        LocalRangeIsOwnership(nodeId, r);
        if FirstLocal(nodeId) <= r <= LastLocal(nodeId) {
          assert resources[r - FirstLocal(nodeId)] == r;
        }
      }
    }

    /** Rebuilds the queue without `t`. */
    method RemoveTransactionFromWaitingQueue(t: TransactionId, r: ResourceId) returns (found: bool)
      modifies this
      ensures (Model(), found) == M.RemoveWaiter(old(Model()), t, r)
      ensures found <==> t in M.QueueOf(old(Model()), r)
      ensures multiset(M.QueueOf(Model(), r)) == multiset(M.QueueOf(old(Model()), r))[t := 0]
      ensures forall q :: q != r ==> M.QueueOf(Model(), q) == M.QueueOf(old(Model()), q)
      ensures forall i, j :: 0 <= i < j < |M.QueueOf(Model(), r)| ==>
        M.BeforeIn(M.QueueOf(old(Model()), r), M.QueueOf(Model(), r)[i], M.QueueOf(Model(), r)[j])
      ensures notified == old(notified)
    {
      found := false;
      M.WaiterIsRemoved(Model(), t, r);
      hide M.BeforeIn, M.Without;
      if r in resourceWaitingQueues && resourceWaitingQueues[r] != [] {
        var kept;
        kept, found := Rebuild(resourceWaitingQueues[r], t);
        resourceWaitingQueues := resourceWaitingQueues[r := kept];
      }
    }

    method Rebuild(queue: seq<TransactionId>, t: TransactionId) returns (kept: seq<TransactionId>, found: bool)
      ensures kept == M.Without(queue, t) && (found <==> t in queue)
    {
      kept, found := [], false;
      for i := 0 to |queue|
        invariant kept == M.Without(queue[..i], t)
        invariant found <==> t in queue[..i]
      {
        assert queue[..i + 1][..i] == queue[..i];
        if queue[i] == t {
          found := true;
        } else {
          kept := kept + [queue[i]];
        }
      }
      assert queue[..|queue|] == queue;
    }
  }
}
