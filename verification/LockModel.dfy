/** The lock tables of one node as values, and what each lock operation does to them (ResourceManager.cpp). */
module LockModel {
  import opened Commons

  type Holders = map<TransactionId, LockMode>

  datatype Locks = Locks(
    nodeId: NodeId,
    holders: map<ResourceId, Holders>,
    queues: map<ResourceId, seq<TransactionId>>)

  /** A retry notification: the waiter that is told and the resource it waits for. */
  type Note = (TransactionId, ResourceId)

  function HoldersOf(l: Locks, r: ResourceId): Holders {
    if r in l.holders then l.holders[r] else map[]
  }

  function QueueOf(l: Locks, r: ResourceId): seq<TransactionId> {
    if r in l.queues then l.queues[r] else []
  }

  ghost predicate Holds(l: Locks, t: TransactionId, r: ResourceId) { t in HoldersOf(l, r) }

  /** A free resource is never refused; a held one is refused to everybody as long as somebody waits for it. */
  predicate Conflict(l: Locks, r: ResourceId, mode: LockMode) {
    && HoldersOf(l, r) != map[]
    && (QueueOf(l, r) != [] || mode == Exclusive
        || exists t :: t in HoldersOf(l, r) && HoldersOf(l, r)[t] == Exclusive)
  }

  function Acquire(l: Locks, t: TransactionId, r: ResourceId, mode: LockMode): (Locks, bool) {
    if OwnerNodeId(r) != l.nodeId then (l, false)
    else if Conflict(l, r, mode) then (l.(queues := l.queues[r := QueueOf(l, r) + [t]]), false)
    else (l.(holders := l.holders[r := HoldersOf(l, r)[t := mode]]), true)
  }

  function WithHolders(l: Locks, r: ResourceId, h: Holders): Locks {
    l.(holders := if h == map[] then l.holders - {r} else l.holders[r := h])
  }

  function Release(l: Locks, t: TransactionId, r: ResourceId): Locks {
    if OwnerNodeId(r) == l.nodeId && t in HoldersOf(l, r) then WithHolders(l, r, HoldersOf(l, r) - {t}) else l
  }

  function FrontNote(l: Locks, r: ResourceId): seq<Note> {
    if QueueOf(l, r) != [] then [(QueueOf(l, r)[0], r)] else []
  }

  function ReleaseNotes(l: Locks, t: TransactionId, r: ResourceId): seq<Note> {
    if OwnerNodeId(r) == l.nodeId && t in HoldersOf(l, r) then FrontNote(l, r) else []
  }

  function ReleaseAll(l: Locks, t: TransactionId): Locks {
    l.(holders := map r | r in l.holders && (t in l.holders[r] ==> l.holders[r] - {t} != map[]) :: l.holders[r] - {t})
  }

  /** The notifications for the released resources, in the order in which they were released. */
  function FrontNotes(l: Locks, released: seq<ResourceId>): seq<Note> {
    if released == [] then [] else FrontNotes(l, released[..|released| - 1]) + FrontNote(l, released[|released| - 1])
  }

  /** `order` lists the resources that `t` holds, each once. */
  ghost predicate HeldInOrder(l: Locks, t: TransactionId, order: seq<ResourceId>) {
    && (forall i, j :: 0 <= i < j < |order| ==> order[i] != order[j])
    && forall r :: r in order <==> Holds(l, t, r)
  }

  function RemoveWaiter(l: Locks, t: TransactionId, r: ResourceId): (Locks, bool) {
    if QueueOf(l, r) == [] then (l, false)
    else (l.(queues := l.queues[r := Without(l.queues[r], t)]), t in l.queues[r])
  }

  function Without(q: seq<TransactionId>, t: TransactionId): seq<TransactionId> {
    if q == [] then []
    else Without(q[..|q| - 1], t) + if q[|q| - 1] == t then [] else [q[|q| - 1]]
  }

  lemma {:induction false} WithoutCounts(q: seq<TransactionId>, t: TransactionId)
    ensures multiset(Without(q, t)) == multiset(q)[t := 0]
  {
    if q != [] {
      var n := |q| - 1;
      assert q == q[..n] + [q[n]];
      WithoutCounts(q[..n], t);
    }
  }

  ghost predicate BeforeIn(q: seq<TransactionId>, x: TransactionId, y: TransactionId) {
    exists a, b :: 0 <= a < b < |q| && q[a] == x && q[b] == y
  }

  lemma BeforeGrows(front: seq<TransactionId>, last: TransactionId, x: TransactionId, y: TransactionId)
    ensures BeforeIn(front, x, y) || (x in front && y == last) ==> BeforeIn(front + [last], x, y)
  {
    var q := front + [last];
    if BeforeIn(front, x, y) {
      var a, b :| 0 <= a < b < |front| && front[a] == x && front[b] == y;
      assert q[a] == x && q[b] == y;
    } else if x in front && y == last {
      var a :| 0 <= a < |front| && front[a] == x;
      assert q[a] == x && q[|front|] == y;
    }
  }

  /** Whoever was before another in the queue stays before it. */
  lemma {:induction false} WithoutKeepsOrder(q: seq<TransactionId>, t: TransactionId, i: nat, j: nat)
    requires i < j < |Without(q, t)|
    ensures BeforeIn(q, Without(q, t)[i], Without(q, t)[j])
  {
    hide BeforeIn;
    var n := |q| - 1;
    var front, last := q[..n], q[n];
    var w := Without(front, t);
    assert q == front + [last];
    WithoutCounts(front, t);
    assert w[i] in multiset(w);
    BeforeGrows(front, last, Without(q, t)[i], Without(q, t)[j]);
    if j < |w| { WithoutKeepsOrder(front, t, i, j); }
  }

  /** Taking a waiter out removes exactly its entries from that one queue, says whether there were any, and keeps the
      order of the others. */
  lemma WaiterIsRemoved(l: Locks, t: TransactionId, r: ResourceId)
    ensures var (l', found) := RemoveWaiter(l, t, r);
      && (found <==> t in QueueOf(l, r)) && l'.holders == l.holders
      && multiset(QueueOf(l', r)) == multiset(QueueOf(l, r))[t := 0]
      && (forall i, j :: 0 <= i < j < |QueueOf(l', r)| ==>
            BeforeIn(QueueOf(l, r), QueueOf(l', r)[i], QueueOf(l', r)[j]))
      && (forall q :: q != r ==> QueueOf(l', q) == QueueOf(l, q))
  {
    var q := QueueOf(l, r);
    WithoutCounts(q, t);
    forall i, j | 0 <= i < j < |Without(q, t)| ensures BeforeIn(q, Without(q, t)[i], Without(q, t)[j]) {
      WithoutKeepsOrder(q, t, i, j);
    }
  }

  // ---------- the lock invariant ----------

  /** Only shared holders, or exactly one holder. */
  ghost predicate Compatible(h: Holders) {
    forall t, u :: t in h && u in h && h[t] == Exclusive ==> u == t
  }

  ghost predicate Valid(l: Locks) {
    && (forall r :: r in l.holders ==> OwnerNodeId(r) == l.nodeId && l.holders[r] != map[] && Compatible(l.holders[r]))
    && (forall r :: r in l.queues ==> OwnerNodeId(r) == l.nodeId && l.queues[r] != [])
  }

  lemma AcquireValid(l: Locks, t: TransactionId, r: ResourceId, mode: LockMode)
    requires Valid(l)
    ensures Valid(Acquire(l, t, r, mode).0)
  {
    var (l', granted) := Acquire(l, t, r, mode);
    if granted {
      var h := HoldersOf(l, r);
      assert Compatible(h[t := mode]) by {
        if h != map[] { assert mode == Shared; } else { assert h[t := mode].Keys == {t}; }
      }
      assert h[t := mode] != map[] by { assert t in h[t := mode]; }
    }
  }

  /** When a request is granted: the node owns the resource, and either nobody holds it, or nobody waits for it and the
      request and all holders are shared. */
  lemma GrantedExactly(l: Locks, t: TransactionId, r: ResourceId, mode: LockMode)
    ensures Acquire(l, t, r, mode).1 <==>
      && OwnerNodeId(r) == l.nodeId
      && (HoldersOf(l, r) == map[]
          || (&& QueueOf(l, r) == [] && mode == Shared
              && forall u :: u in HoldersOf(l, r) ==> HoldersOf(l, r)[u] == Shared))
    ensures !Acquire(l, t, r, mode).1 ==>
      var l' := Acquire(l, t, r, mode).0;
      && (forall q :: HoldersOf(l', q) == HoldersOf(l, q)) && (forall q :: q != r ==> QueueOf(l', q) == QueueOf(l, q))
      && QueueOf(l', r) == if OwnerNodeId(r) == l.nodeId then QueueOf(l, r) + [t] else QueueOf(l, r)
  {
    hide OwnerNodeId;
    var h := HoldersOf(l, r);
    if h != map[] && QueueOf(l, r) == [] && mode == Shared {
      assert (exists u :: u in h && h[u] == Exclusive) <==> !(forall u :: u in h ==> h[u] == Shared);
    }
  }

  /** A grant while somebody waits means that nobody held the resource: the grantee is its only holder.  And
      a lock is never granted next to another holder's lock in a conflicting mode. */
  lemma GrantIsCompatible(l: Locks, t: TransactionId, r: ResourceId, mode: LockMode)
    requires Valid(l) && Acquire(l, t, r, mode).1
    ensures QueueOf(l, r) != [] || mode == Exclusive ==> HoldersOf(Acquire(l, t, r, mode).0, r) == map[t := mode]
    ensures forall u :: u in HoldersOf(l, r) ==> mode == Shared && HoldersOf(l, r)[u] == Shared
  {
    if HoldersOf(l, r) == map[] {
      assert map[][t := mode] == map[t := mode];
    }
  }

  lemma ReleaseAllEntries(l: Locks, t: TransactionId)
    requires Valid(l)
    ensures Valid(ReleaseAll(l, t))
    ensures forall r :: HoldersOf(ReleaseAll(l, t), r) == HoldersOf(l, r) - {t}
  {
    forall r ensures HoldersOf(ReleaseAll(l, t), r) == HoldersOf(l, r) - {t} {}
  }

  // ---------- releasing everything at once is releasing one by one ----------

  ghost function ReleaseEach(l: Locks, t: TransactionId, order: seq<ResourceId>): Locks {
    if order == [] then l else Release(ReleaseEach(l, t, order[..|order| - 1]), t, order[|order| - 1])
  }

  ghost function ReleaseEachNotes(l: Locks, t: TransactionId, order: seq<ResourceId>): seq<Note> {
    if order == [] then []
    else
      var n := |order| - 1;
      ReleaseEachNotes(l, t, order[..n]) + ReleaseNotes(ReleaseEach(l, t, order[..n]), t, order[n])
  }

  ghost predicate Tidy(l: Locks) {
    forall r :: r in l.holders ==> OwnerNodeId(r) == l.nodeId && l.holders[r] != map[]
  }

  lemma ReleaseEntry(l: Locks, t: TransactionId, r: ResourceId)
    requires Tidy(l) && Holds(l, t, r)
    ensures var l' := Release(l, t, r);
      && Tidy(l') && l'.nodeId == l.nodeId && l'.queues == l.queues
      && (forall q :: q != r ==> HoldersOf(l', q) == HoldersOf(l, q))
      && HoldersOf(l', r) == HoldersOf(l, r) - {t}
  {
  }

  lemma {:induction false} ReleaseEachEntries(l: Locks, t: TransactionId, order: seq<ResourceId>)
    requires Tidy(l)
    requires forall i, j :: 0 <= i < j < |order| ==> order[i] != order[j]
    requires forall r :: r in order ==> Holds(l, t, r)
    ensures var l' := ReleaseEach(l, t, order);
      && Tidy(l') && l'.nodeId == l.nodeId && l'.queues == l.queues
      && (forall r :: HoldersOf(l', r) == if r in order then HoldersOf(l, r) - {t} else HoldersOf(l, r))
    ensures ReleaseEachNotes(l, t, order) == FrontNotes(l, order)
  {
    if order != [] {
      var n := |order| - 1;
      var r, front := order[n], order[..n];
      assert order == front + [r];
      forall q | q in front ensures q in order && q != r {}
      ReleaseEachEntries(l, t, front);
      var before := ReleaseEach(l, t, front);
      assert r in order && HoldersOf(before, r) == HoldersOf(l, r);
      ReleaseEntry(before, t, r);
      assert ReleaseNotes(before, t, r) == FrontNote(l, r) by {
        assert OwnerNodeId(r) == before.nodeId;
      }
      var after := Release(before, t, r);
      hide Release, HoldersOf, Tidy;
      forall q ensures HoldersOf(after, q) == if q in order then HoldersOf(l, q) - {t} else HoldersOf(l, q) {
        assert q in order <==> q == r || q in front;
      }
    }
  }

  /** The batch release gives the same tables as releasing the held resources one at a time, in any order, and
      the same notifications up to the order in which they are sent. */
  lemma ReleaseAllIsReleaseEach(l: Locks, t: TransactionId, order: seq<ResourceId>, released: seq<ResourceId>)
    requires Valid(l) && HeldInOrder(l, t, order) && HeldInOrder(l, t, released)
    ensures ReleaseEach(l, t, order) == ReleaseAll(l, t)
    ensures multiset(ReleaseEachNotes(l, t, order)) == multiset(FrontNotes(l, released))
  {
    ReleaseEachEntries(l, t, order);
    ReleaseAllEntries(l, t);
    var a, b := ReleaseEach(l, t, order), ReleaseAll(l, t);
    hide ReleaseEach, ReleaseAll;
    forall r ensures HoldersOf(a, r) == HoldersOf(b, r) {
      if r !in order { assert HoldersOf(l, r) - {t} == HoldersOf(l, r); }
    }
    SameHolders(a, b);
    NotesPermute(l, order, released);
  }

  lemma SameHolders(a: Locks, b: Locks)
    requires Tidy(a) && Tidy(b) && forall r :: HoldersOf(a, r) == HoldersOf(b, r)
    ensures a.holders == b.holders
  {
    forall r ensures r in a.holders <==> r in b.holders {
      assert HoldersOf(a, r) == HoldersOf(b, r);
    }
    forall r ensures r in a.holders && r in b.holders ==> a.holders[r] == b.holders[r] {
      assert HoldersOf(a, r) == HoldersOf(b, r);
    }
    SameEntries(a.holders, b.holders);
  }

  lemma {:induction false} NotesPermute(l: Locks, a: seq<ResourceId>, b: seq<ResourceId>)
    requires forall i, j :: 0 <= i < j < |a| ==> a[i] != a[j]
    requires forall i, j :: 0 <= i < j < |b| ==> b[i] != b[j]
    requires forall r :: r in a <==> r in b
    ensures multiset(FrontNotes(l, a)) == multiset(FrontNotes(l, b))
    decreases |a|
  {
    if a == [] {
      BothEmpty(a, b);
      assert b == [];
    } else {
      var n := |a| - 1;
      var r := a[n];
      assert r in a && r in b;
      var k :| 0 <= k < |b| && b[k] == r;
      WithoutIndex(a, n);
      WithoutIndex(b, k);
      assert a[..n] + a[n + 1..] == a[..n] && a == a[..n] + [r];
      NotesSnoc(l, a[..n], r);
      hide FrontNotes, FrontNote;
      NotesPermute(l, a[..n], b[..k] + b[k + 1..]);
      NotesRemove(l, b, k);
    }
  }

  lemma WithoutIndex(b: seq<ResourceId>, k: nat)
    requires k < |b| && forall i, j :: 0 <= i < j < |b| ==> b[i] != b[j]
    ensures var rest := b[..k] + b[k + 1..];
      && (forall i, j :: 0 <= i < j < |rest| ==> rest[i] != rest[j])
      && (forall r :: r in rest <==> r in b && r != b[k])
  {
    var rest := b[..k] + b[k + 1..];
    forall i | 0 <= i < |rest| ensures rest[i] == b[if i < k then i else i + 1] {}
    forall r | r in b && r != b[k] ensures r in rest {
      var i :| 0 <= i < |b| && b[i] == r;
      assert rest[if i < k then i else i - 1] == r;
    }
  }

  lemma BothEmpty(a: seq<ResourceId>, b: seq<ResourceId>)
    requires forall r :: r in a <==> r in b
    ensures a == [] ==> b == []
  {
    if |b| > 0 {
      var r := b[0];
      assert r in b && r in a;
    }
  }

  /** Whom a batch release tells: for every resource that the transaction holds and somebody waits for, the first waiter
      in its queue, once. */
  lemma {:induction false} FrontWaitersAreTold(l: Locks, t: TransactionId, released: seq<ResourceId>)
    requires forall i, j :: 0 <= i < j < |released| ==> released[i] != released[j]
    ensures forall i, j :: 0 <= i < j < |FrontNotes(l, released)| ==>
      FrontNotes(l, released)[i] != FrontNotes(l, released)[j]
    ensures forall n :: n in FrontNotes(l, released) <==>
      n.1 in released && QueueOf(l, n.1) != [] && n.0 == QueueOf(l, n.1)[0]
  {
    if released != [] {
      var k := |released| - 1;
      var front, last := released[..k], released[k];
      assert released == front + [last];
      FrontWaitersAreTold(l, t, front);
      assert last !in front;
      hide QueueOf;
      forall i | 0 <= i < |FrontNotes(l, front)| ensures FrontNotes(l, front)[i].1 != last {
        var n := FrontNotes(l, front)[i];
        assert n in FrontNotes(l, front) && n.1 in front;
      }
    }
  }

  lemma NotesSnoc(l: Locks, q: seq<ResourceId>, r: ResourceId)
    ensures FrontNotes(l, q + [r]) == FrontNotes(l, q) + FrontNote(l, r)
  {
    assert (q + [r])[..|q|] == q;
  }

  lemma {:induction false} NotesOfQueues(a: Locks, b: Locks, q: seq<ResourceId>)
    requires a.queues == b.queues
    ensures FrontNotes(a, q) == FrontNotes(b, q)
  {
    if q != [] { NotesOfQueues(a, b, q[..|q| - 1]); }
  }

  lemma {:induction false} NotesRemove(l: Locks, b: seq<ResourceId>, k: nat)
    requires k < |b|
    ensures multiset(FrontNotes(l, b)) == multiset(FrontNotes(l, b[..k] + b[k + 1..])) + multiset(FrontNote(l, b[k]))
    decreases |b|
  {
    hide FrontNotes, FrontNote;
    var n := |b| - 1;
    var front, last := b[..n], b[n];
    var rest := b[..k] + b[k + 1..];
    assert b == front + [last];
    NotesSnoc(l, front, last);
    if k == n {
      assert rest == front;
    } else {
      var frontRest := front[..k] + front[k + 1..];
      assert rest == frontRest + [last];
      NotesSnoc(l, frontRest, last);
      NotesRemove(l, front, k);
      Shuffle(FrontNotes(l, front), FrontNotes(l, frontRest), FrontNote(l, last), FrontNote(l, front[k]));
    }
  }

  lemma Shuffle(a: seq<Note>, b: seq<Note>, c: seq<Note>, d: seq<Note>)
    requires multiset(a) == multiset(b) + multiset(d)
    ensures multiset(a + c) == multiset(b + c) + multiset(d)
  {
  }
}
