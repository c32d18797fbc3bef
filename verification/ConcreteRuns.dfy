/** Runs of node 1 written out step by step, with the tables of resources 1 to 4. */
module ConcreteRuns {
  import opened Commons
  import opened LockModel
  import opened NodeModel

  function Lock(r: ResourceId, mode: LockMode): SQLStatement { SQLStatement(0, 1, [r], mode) }

  /** The tables of resources 1 to 4 and the transactions begun so far; entry 0 of each list is not used. */
  ghost predicate At(s: Node, h: seq<Holders>, q: seq<seq<TransactionId>>, x: seq<Txn>) {
    && s.locks.nodeId == 1 && |h| == |q| == 5 && s.nextId == |x| >= 1
    && (forall r :: HoldersOf(s.locks, r) == if 1 <= r <= 4 then h[r] else map[])
    && (forall r :: QueueOf(s.locks, r) == if 1 <= r <= 4 then q[r] else [])
    && (forall t :: t in s.txns <==> 1 <= t < |x|)
    && (forall t :: 1 <= t < |x| ==> s.txns[t] == x[t])
  }

  function Refused(x: Txn, r: ResourceId): Txn { x.(status := Blocked, waitingForResourceId := r) }

  ghost predicate Wants(x: Txn, r: ResourceId, mode: LockMode) {
    && x.status == Running && WellFormed(x.statements) && x.currentSQLIndex < |x.statements|
    && Wanted(x) == r && WantedMode(x) == mode
  }

  lemma Started(s: Node, h: seq<Holders>, q: seq<seq<TransactionId>>, x: seq<Txn>, statements: seq<SQLStatement>)
    requires At(s, h, q, x) && WellFormed(statements)
    ensures At(Apply(s, Begin(statements)), h, q, x + [NewTxn(|x|, 1, statements)])
  {
  }

  lemma Granting(s: Node, h: seq<Holders>, q: seq<seq<TransactionId>>, x: seq<Txn>, t: nat, r: nat, mode: LockMode)
    requires At(s, h, q, x) && 1 <= t < |x| && 1 <= r <= 4 && Wants(x[t], r, mode)
    requires h[r] == map[] || (q[r] == [] && mode == Shared && forall u :: u in h[r] ==> h[r][u] == Shared)
    ensures Enabled(s, TryExecute(t))
    ensures At(Apply(s, TryExecute(t)), h[r := h[r][t := mode]], q, x[t := Advance(x[t], r, mode)])
  {
    assert OwnerNodeId(r) == 1 && HoldersOf(s.locks, r) == h[r] && QueueOf(s.locks, r) == q[r];
    assert !Conflict(s.locks, r, mode);
    var s' := Apply(s, TryExecute(t));
    assert s' == s.(locks := s'.locks, txns := s.txns[t := Advance(x[t], r, mode)], history := s'.history);
    assert s'.locks == s.locks.(holders := s.locks.holders[r := h[r][t := mode]]);
    hide Conflict, OwnerNodeId, Execute, Wanted, WantedMode;
    assert HoldersOf(s'.locks, r) == h[r][t := mode];
    assert forall p :: p != r ==> HoldersOf(s'.locks, p) == HoldersOf(s.locks, p);
    assert forall p :: QueueOf(s'.locks, p) == QueueOf(s.locks, p);
  }

  lemma Refusing(s: Node, h: seq<Holders>, q: seq<seq<TransactionId>>, x: seq<Txn>, t: nat, r: nat)
    requires At(s, h, q, x) && 1 <= t < |x| && 1 <= r <= 4 && Wants(x[t], r, Exclusive) && h[r] != map[]
    ensures Enabled(s, TryExecute(t))
    ensures At(Apply(s, TryExecute(t)), h, q[r := q[r] + [t]], x[t := Refused(x[t], r)])
  {
    assert OwnerNodeId(r) == 1 && HoldersOf(s.locks, r) == h[r] && QueueOf(s.locks, r) == q[r];
    assert Conflict(s.locks, r, Exclusive);
    var s' := Apply(s, TryExecute(t));
    assert s' == s.(locks := s'.locks, txns := s.txns[t := x[t].(status := Blocked, waitingForResourceId := r)]);
    assert s'.locks == s.locks.(queues := s.locks.queues[r := q[r] + [t]]);
    hide Conflict, OwnerNodeId, Execute, Wanted, WantedMode;
    assert QueueOf(s'.locks, r) == q[r] + [t];
    assert forall p :: p != r ==> QueueOf(s'.locks, p) == QueueOf(s.locks, p);
    assert forall p :: HoldersOf(s'.locks, p) == HoldersOf(s.locks, p);
  }

  lemma {:induction false} RunOneMore(s: Node, steps: seq<Step>, step: Step)
    requires Enabled(Run(s, steps), step)
    ensures Run(s, steps + [step]) == Apply(Run(s, steps), step)
    decreases |steps|
  {
    hide Enabled, Apply;
    if steps == [] {
      assert ([] + [step])[1..] == [] && Run(Apply(s, step), []) == Apply(s, step);
    } else {
      var next := if Enabled(s, steps[0]) then Apply(s, steps[0]) else s;
      assert (steps + [step])[1..] == steps[1..] + [step];
      RunOneMore(next, steps[1..], step);
    }
  }

  // The same steps at the end of a run of node 1 without aborts.

  ghost predicate After(steps: seq<Step>, h: seq<Holders>, q: seq<seq<TransactionId>>, x: seq<Txn>) {
    At(Run(Fresh(1), steps), h, q, x) && NoAbort(steps)
  }

  lemma Start(steps: seq<Step>, h: seq<Holders>, q: seq<seq<TransactionId>>, x: seq<Txn>, statements: seq<SQLStatement>)
    requires After(steps, h, q, x) && WellFormed(statements)
    ensures After(steps + [Begin(statements)], h, q, x + [NewTxn(|x|, 1, statements)])
  {
    Started(Run(Fresh(1), steps), h, q, x, statements);
    RunOneMore(Fresh(1), steps, Begin(statements));
  }

  lemma Grant(steps: seq<Step>, h: seq<Holders>, q: seq<seq<TransactionId>>, x: seq<Txn>, t: nat, r: nat,
              mode: LockMode)
    requires After(steps, h, q, x) && 1 <= t < |x| && 1 <= r <= 4 && |h| == |q| == 5 && Wants(x[t], r, mode)
    requires h[r] == map[] || (q[r] == [] && mode == Shared && forall u :: u in h[r] ==> h[r][u] == Shared)
    ensures After(steps + [TryExecute(t)], h[r := h[r][t := mode]], q, x[t := Advance(x[t], r, mode)])
  {
    Granting(Run(Fresh(1), steps), h, q, x, t, r, mode);
    RunOneMore(Fresh(1), steps, TryExecute(t));
  }

  lemma Refuse(steps: seq<Step>, h: seq<Holders>, q: seq<seq<TransactionId>>, x: seq<Txn>, t: nat, r: nat)
    requires After(steps, h, q, x) && 1 <= t < |x| && 1 <= r <= 4 && |h| == |q| == 5 && Wants(x[t], r, Exclusive)
    requires h[r] != map[]
    ensures After(steps + [TryExecute(t)], h, q[r := q[r] + [t]],
                  x[t := Refused(x[t], r)])
  {
    Refusing(Run(Fresh(1), steps), h, q, x, t, r);
    RunOneMore(Fresh(1), steps, TryExecute(t));
  }

  lemma NothingYet(h: seq<Holders>, q: seq<seq<TransactionId>>, x: seq<Txn>)
    requires h == [map[], map[], map[], map[], map[]] && q == [[], [], [], [], []] && |x| == 1
    ensures After([], h, q, x)
  {
  }

  lemma StartTwo(before: seq<Step>, h: seq<Holders>, q: seq<seq<TransactionId>>, y: seq<Txn>,
                 a: seq<SQLStatement>, b: seq<SQLStatement>) returns (steps: seq<Step>, x: seq<Txn>)
    requires After(before, h, q, y) && WellFormed(a) && WellFormed(b)
    ensures After(steps, h, q, x) && x == y + [NewTxn(|y|, 1, a), NewTxn(|y| + 1, 1, b)]
  {
    hide After, WellFormed;
    Start(before, h, q, y, a);
    Start(before + [Begin(a)], h, q, y + [NewTxn(|y|, 1, a)], b);
    steps := before + [Begin(a)] + [Begin(b)];
    x := y + [NewTxn(|y|, 1, a)] + [NewTxn(|y| + 1, 1, b)];
    assert x == y + [NewTxn(|y|, 1, a), NewTxn(|y| + 1, 1, b)];
  }
}
