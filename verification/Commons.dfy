/** Identifiers, constants and record types shared by every component (commons.h). */
module Commons {

  type NodeId = int
  type TransactionId = int
  type ResourceId = int

  const RESOURCES_PER_NODE := 1000
  const SCC_CUT_THRESHOLD := 2
  const CENTRALIZED_NODE_ID: NodeId := 1

  datatype Option<+T> = None | Some(value: T)

  /** An arbitrary element, as the first step of iterating over a hash container. */
  method Pick<T(==)>(s: set<T>) returns (x: T)
    requires s != {}
    ensures x in s
  {
    x :| x in s;
  }

  lemma SomeElement<T>(s: set<T>) returns (x: T)
    requires s != {}
    ensures x in s
  {
    x :| x in s;
  }

  lemma SameElements<T>(a: set<T>, b: set<T>)
    requires forall x :: x in a <==> x in b
    ensures a == b
  {
  }

  lemma SameEntries<K, V>(a: map<K, V>, b: map<K, V>)
    requires forall x :: x in a <==> x in b
    requires forall x :: x in a && x in b ==> a[x] == b[x]
    ensures a == b
  {
  }

  datatype LockMode = Shared | Exclusive

  datatype SQLStatement = SQLStatement(
    transId: TransactionId,
    homeNodeId: NodeId,
    resources: seq<ResourceId>,
    lockMode: LockMode)

  datatype WFDEdge = WFDEdge(
    waitingTransId: TransactionId,
    holdingTransId: TransactionId,
    waitingNodeId: NodeId,
    holdingNodeId: NodeId)

  /** Integer division rounding toward zero. */
  function TruncatedDiv(a: int, b: int): int
    requires b > 0
  {
    if a >= 0 then a / b else -((-a) / b)
  }

  function OwnerNodeId(r: ResourceId): NodeId {
    TruncatedDiv(r - 1, RESOURCES_PER_NODE) + 1
  }

  function FirstLocal(node: NodeId): ResourceId { (node - 1) * RESOURCES_PER_NODE + 1 }

  function LastLocal(node: NodeId): ResourceId { node * RESOURCES_PER_NODE }

  /** The id range a node enumerates as its own holds exactly the positive ids whose owner it is.
      (Truncation also gives node 1 the non-positive ids from -998 to 0, which it never enumerates.) */
  lemma LocalRangeIsOwnership(node: NodeId, r: ResourceId)
    requires node >= 1
    ensures FirstLocal(node) <= r <= LastLocal(node) <==> OwnerNodeId(r) == node && r >= 1
  {
    if r >= 1 {
      var q := (r - 1) / RESOURCES_PER_NODE;
      assert q * RESOURCES_PER_NODE <= r - 1 < (q + 1) * RESOURCES_PER_NODE;
    }
  }
}
