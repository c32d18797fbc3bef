/** Path pushing (DistributedDBNode.cpp): a probe follows blocked transactions from holder to holder while the node
    goes on running, and reads every edge of its path at a different time. */
module Probes {
  import opened Commons
  import opened Graphs
  import opened LockModel
  import opened NodeModel
  import opened WaitForGraph
  import opened BlockedCycles
  import R = Resolution

  datatype Handling =
    | Dropped
    | Thrown
    | Resolves(victim: TransactionId, path: seq<TransactionId>)
    | Forwarded(to: NodeId, path: seq<TransactionId>)

  /** The frequencies with which a repeat asks for a victim: none. */
  const NO_FREQUENCIES: map<TransactionId, int> := map[]

  /** The holders of the resource that the last transaction of the path is blocked on. */
  function Blockers(s: Node, path: seq<TransactionId>): Holders {
    if path == [] then map[]
    else
      var t := path[|path| - 1];
      if t in s.txns && s.txns[t].status == Blocked && s.txns[t].waitingForResourceId != 0
      then HoldersOf(s.locks, s.txns[t].waitingForResourceId)
      else map[]
  }

  function HomeOf(s: Node, t: TransactionId): NodeId { if t in s.txns then s.txns[t].homeNodeId else 0 }

  /** The probe has come back to a transaction that is already in its path. */
  predicate Repeats(s: Node, path: seq<TransactionId>, h: TransactionId) { h in Blockers(s, path) && h in path }

  /** What is done with a probe when `h` is the first holder in hash order.  The lookup of a frequency that is not there
      throws, which ends the handler. */
  function Handle(s: Node, path: seq<TransactionId>, h: TransactionId): Handling {
    if h !in Blockers(s, path) then Dropped
    else if h in path then
      if !R.Ranked(path + [h], NO_FREQUENCIES) then Thrown
      else Resolves(R.Victim(path + [h], NO_FREQUENCIES), path + [h])
    else if HomeOf(s, h) != 0 then Forwarded(HomeOf(s, h), path + [h])
    else Dropped
  }

  function StateAfter(s: Node, scripts: seq<seq<Step>>): Node {
    if scripts == [] then s else Run(StateAfter(s, scripts[..|scripts| - 1]), scripts[|scripts| - 1])
  }

  /** A probe started in state `s` for path[0] and was forwarded once after each of the scripts, which other threads
      follow between two handlings. */
  ghost predicate Travelled(s: Node, scripts: seq<seq<Step>>, path: seq<TransactionId>) {
    && |path| == |scripts| + 1 && path[0] in s.txns && s.txns[path[0]].status == Blocked
    && forall i :: 0 <= i < |scripts| ==> Hop(s, scripts, path, i)
  }

  /** The i-th handling appended path[i + 1]. */
  ghost predicate Hop(s: Node, scripts: seq<seq<Step>>, path: seq<TransactionId>, i: nat)
    requires i < |scripts| < |path|
  {
    Handle(StateAfter(s, scripts[..i + 1]), path[..i + 1], path[i + 1]).Forwarded?
  }

  lemma BlockerIsActive(s: Node, path: seq<TransactionId>, h: TransactionId)
    requires Inv(s) && h in Blockers(s, path)
    ensures h in s.txns && BlockedOn(s, path[|path| - 1], h) && HomeOf(s, h) == s.locks.nodeId
  {
    var t := path[|path| - 1];
    HolderIsActive(s, h, s.txns[t].waitingForResourceId);
    assert TxnValid(s, s.txns[t]) && TxnValid(s, s.txns[h]);
  }

  /** The blockers are exactly the holders for whom the last transaction of the path is blocked. */
  lemma BlockersAreExact(s: Node, path: seq<TransactionId>, h: TransactionId)
    requires Inv(s)
    ensures h in Blockers(s, path) <==> path != [] && BlockedOn(s, path[|path| - 1], h)
  {
    if h in Blockers(s, path) { BlockerIsActive(s, path, h); }
  }

  /** The handler never resolves anything: it drops the probe, forwards it to its own node, or, when the path repeats,
      ends in the exception of a lookup in an empty frequency map. */
  lemma ProbesStayAndNeverResolve(s: Node, path: seq<TransactionId>, h: TransactionId)
    requires Inv(s)
    ensures Handle(s, path, h) ==
      if h !in Blockers(s, path) then Dropped
      else if Repeats(s, path, h) then Thrown
      else Forwarded(s.locks.nodeId, path + [h])
  {
    if h in Blockers(s, path) {
      BlockerIsActive(s, path, h);
      assert (path + [h])[|path|] == h && h in path + [h];
    }
  }

  lemma {:induction false} StatesEvolve(s: Node, scripts: seq<seq<Step>>)
    requires Inv(s)
    ensures Inv(StateAfter(s, scripts)) && Evolves(s, StateAfter(s, scripts))
  {
    if scripts == [] {
      EvolvesRefl(s);
    } else {
      var n := |scripts| - 1;
      StatesEvolve(s, scripts[..n]);
      RunEvolves(StateAfter(s, scripts[..n]), scripts[n]);
      hide Evolves, Inv, Run;
      EvolvesTrans(s, StateAfter(s, scripts[..n]), StateAfter(s, scripts));
    }
  }

  lemma TravelledPrefix(s: Node, scripts: seq<seq<Step>>, path: seq<TransactionId>)
    requires Travelled(s, scripts, path) && scripts != []
    ensures Travelled(s, scripts[..|scripts| - 1], path[..|path| - 1])
    ensures Handle(StateAfter(s, scripts), path[..|path| - 1], path[|path| - 1]).Forwarded?
  {
    hide Handle;
    var n := |scripts| - 1;
    assert scripts[..n + 1] == scripts;
    assert Hop(s, scripts, path, n);
    var earlier, front := scripts[..n], path[..n + 1];
    forall i | 0 <= i < n ensures Hop(s, earlier, front, i) {
      assert Hop(s, scripts, path, i);
      assert earlier[..i + 1] == scripts[..i + 1] && front[..i + 1] == path[..i + 1];
    }
  }

  // ---------- forwarding is finite ----------

  lemma {:induction false} PathsHaveNoRepeats(s: Node, scripts: seq<seq<Step>>, path: seq<TransactionId>)
    requires Travelled(s, scripts, path)
    ensures Distinct(path)
    decreases |scripts|
  {
    if scripts != [] {
      var n := |path| - 1;
      TravelledPrefix(s, scripts, path);
      PathsHaveNoRepeats(s, scripts[..|scripts| - 1], path[..n]);
      assert path[n] !in path[..n];
      forall i, j | 0 <= i < j < |path| ensures path[i] != path[j] {
        assert path[..n][i] == path[i];
        if j < n { assert path[..n][j] == path[j]; }
      }
    }
  }

  ghost predicate NoBegin(script: seq<Step>) { forall step :: step in script ==> !step.Begin? }

  lemma {:induction false} NobodyNew(s: Node, steps: seq<Step>)
    requires NoBegin(steps)
    ensures Run(s, steps).nextId == s.nextId
    decreases |steps|
  {
    if steps != [] {
      var first := steps[0];
      assert first in steps;
      forall step | step in steps[1..] ensures step in steps {}
      NobodyNew(if Enabled(s, first) then Apply(s, first) else s, steps[1..]);
    }
  }

  lemma {:induction false} NobodyNewAll(s: Node, scripts: seq<seq<Step>>)
    requires forall i :: 0 <= i < |scripts| ==> NoBegin(scripts[i])
    ensures StateAfter(s, scripts).nextId == s.nextId
  {
    if scripts != [] {
      var n := |scripts| - 1;
      NobodyNewAll(s, scripts[..n]);
      NobodyNew(StateAfter(s, scripts[..n]), scripts[n]);
    }
  }

  lemma {:induction false} MembersWereActive(s: Node, scripts: seq<seq<Step>>, path: seq<TransactionId>)
    requires Inv(s) && Travelled(s, scripts, path)
    requires forall i :: 0 <= i < |scripts| ==> NoBegin(scripts[i])
    ensures forall t :: t in path ==> t in s.txns
    decreases |scripts|
  {
    if scripts != [] {
      var n := |path| - 1;
      TravelledPrefix(s, scripts, path);
      MembersWereActive(s, scripts[..|scripts| - 1], path[..n]);
      StatesEvolve(s, scripts);
      NobodyNewAll(s, scripts);
      var now := StateAfter(s, scripts);
      BlockerIsActive(now, path[..n], path[n]);
      assert path[n] in s.txns by { assert TxnValid(now, now.txns[path[n]]); }
      hide Travelled, StateAfter, Inv;
      forall t | t in path ensures t in s.txns { assert path == path[..n] + [path[n]]; }
    }
  }

  lemma {:induction false} DistinctSize(p: seq<int>, s: set<int>)
    requires Distinct(p) && forall x :: x in p ==> x in s
    ensures |p| <= |s|
  {
    if p != [] {
      var n := |p| - 1;
      var last := p[n];
      assert last in p && p == p[..n] + [last];
      forall x | x in p[..n] ensures x in s - {last} { assert x in p; }
      DistinctSize(p[..n], s - {last});
    }
  }

  /** When no transaction begins, a probe is forwarded fewer times than there are active transactions. */
  lemma ForwardingIsFinite(s: Node, scripts: seq<seq<Step>>, path: seq<TransactionId>)
    requires Inv(s) && Travelled(s, scripts, path)
    requires forall i :: 0 <= i < |scripts| ==> NoBegin(scripts[i])
    ensures |scripts| < |s.txns.Keys|
  {
    PathsHaveNoRepeats(s, scripts, path);
    MembersWereActive(s, scripts, path);
    forall t | t in path ensures t in s.txns.Keys { assert t in s.txns; }
    DistinctSize(path, s.txns.Keys);
  }

  // ---------- a repeat is a deadlock ----------

  /** An edge of a path holds unless its waiter was aborted or its holder ended since the log had n entries. */
  ghost predicate Holding(n: nat, s: Node, w: TransactionId, h: TransactionId) {
    BlockedOn(s, w, h) || AbortedSince(n, s, w) || EndedSince(n, s, h)
  }

  ghost predicate PathHolds(n: nat, s: Node, path: seq<TransactionId>) {
    forall i :: 0 <= i < |path| - 1 ==> Holding(n, s, path[i], path[i + 1])
  }

  lemma HoldingSurvives(n: nat, s: Node, s': Node, w: TransactionId, h: TransactionId)
    requires Inv(s) && Evolves(s, s') && n <= |s.history| && Holding(n, s, w, h)
    ensures Holding(n, s', w, h)
  {
    EndsStay(n, n, s, s', w);
    EndsStay(n, n, s, s', h);
    EndsStay(n, |s.history|, s', s', w);
    EndsStay(n, |s.history|, s', s', h);
    if BlockedOn(s, w, h) { HolderIsActive(s, h, s.txns[w].waitingForResourceId); }
  }

  lemma PathSurvives(n: nat, s: Node, s': Node, path: seq<TransactionId>)
    requires Inv(s) && Evolves(s, s') && n <= |s.history| && PathHolds(n, s, path)
    ensures PathHolds(n, s', path)
  {
    hide Inv, Evolves, Holding;
    forall i | 0 <= i < |path| - 1 ensures Holding(n, s', path[i], path[i + 1]) {
      HoldingSurvives(n, s, s', path[i], path[i + 1]);
    }
  }

  lemma {:induction false} TravelledPathHolds(s: Node, scripts: seq<seq<Step>>, path: seq<TransactionId>)
    requires Inv(s) && Travelled(s, scripts, path)
    ensures PathHolds(|s.history|, StateAfter(s, scripts), path)
    decreases |scripts|
  {
    if scripts != [] {
      var n := |path| - 1;
      var before, now := StateAfter(s, scripts[..|scripts| - 1]), StateAfter(s, scripts);
      hide BlockedOn, Holding;
      TravelledPrefix(s, scripts, path);
      TravelledPathHolds(s, scripts[..|scripts| - 1], path[..n]);
      StatesEvolve(s, scripts[..|scripts| - 1]);
      RunEvolves(before, scripts[|scripts| - 1]);
      hide Inv, Evolves, Run;
      PathSurvives(|s.history|, before, now, path[..n]);
      BlockerIsActive(now, path[..n], path[n]);
      PathExtended(|s.history|, now, path);
    }
  }

  lemma PathExtended(n: nat, s: Node, path: seq<TransactionId>)
    requires |path| >= 2 && PathHolds(n, s, path[..|path| - 1]) && BlockedOn(s, path[|path| - 2], path[|path| - 1])
    ensures PathHolds(n, s, path)
  {
    hide BlockedOn, AbortedSince, EndedSince;
    var front := path[..|path| - 1];
    forall i | 0 <= i < |path| - 1 ensures Holding(n, s, path[i], path[i + 1]) {
      assert i < |path| - 2 ==> Holding(n, s, front[i], front[i + 1]);
    }
  }

  /** When a probe meets a transaction that is already in its path, the part of the path from there on is a cycle of
      transactions blocked on each other now - although its edges were read at different times - exactly when
      none of them was aborted since the probe started. */
  lemma RepeatIsDeadlock(s: Node, scripts: seq<seq<Step>>, path: seq<TransactionId>, more: seq<Step>, h: TransactionId)
    returns (k: nat)
    requires Inv(s) && Travelled(s, scripts, path)
    requires Repeats(Run(StateAfter(s, scripts), more), path, h)
    ensures k < |path| && path[k] == h
    ensures var now := Run(StateAfter(s, scripts), more);
      BlockedCycle(now, path[k..]) <==> forall t :: t in path[k..] ==> !AbortedSince(|s.history|, now, t)
  {
    var before, now, n := StateAfter(s, scripts), Run(StateAfter(s, scripts), more), |s.history|;
    StatesEvolve(s, scripts);
    RunEvolves(before, more);
    TravelledPathHolds(s, scripts, path);
    PathSurvives(n, before, now, path);
    BlockerIsActive(now, path, h);
    k :| 0 <= k < |path| && path[k] == h;
    CycleOfPath(n, now, path, k);
  }

  lemma CycleOfPath(n: nat, s: Node, path: seq<TransactionId>, k: nat)
    requires Inv(s) && PathHolds(n, s, path) && k < |path| && BlockedOn(s, path[|path| - 1], path[k])
    ensures BlockedCycle(s, path[k..]) <==> forall t :: t in path[k..] ==> !AbortedSince(n, s, t)
  {
    var c := path[k..];
    assert c[0] == path[k] && c[|c| - 1] == path[|path| - 1];
    if forall t :: t in c ==> !AbortedSince(n, s, t) {
      forall i | 0 <= i < |c| - 1 ensures BlockedOn(s, c[i], c[i + 1]) { EdgeOfPath(n, s, path, k, i); }
    }
    if BlockedCycle(s, c) {
      forall t | t in c ensures !AbortedSince(n, s, t) {
        var i :| 0 <= i < |c| && c[i] == t;
        assert t in s.txns by { if i < |c| - 1 { assert BlockedOn(s, c[i], c[i + 1]); } }
        EndedIsGone(n, s, t);
      }
    }
  }

  /** Going back from its end, which is blocked now, the path loses no edge: who is blocked cannot have committed. */
  lemma {:induction false} EdgeOfPath(n: nat, s: Node, path: seq<TransactionId>, k: nat, i: nat)
    requires Inv(s) && PathHolds(n, s, path) && k < |path| && path[|path| - 1] in s.txns
    requires forall t :: t in path[k..] ==> !AbortedSince(n, s, t)
    requires i < |path[k..]| - 1
    ensures BlockedOn(s, path[k..][i], path[k..][i + 1])
    decreases |path| - i
  {
    var w, h := path[k + i], path[k + i + 1];
    assert path[k..][i] == w && path[k..][i + 1] == h && w in path[k..];
    if i < |path[k..]| - 2 { EdgeOfPath(n, s, path, k, i + 1); }
    assert Holding(n, s, path[k + i], path[k + i + 1]);
    EndedIsGone(n, s, h);
  }

  lemma QuietStep(s: Node, step: Step, t: TransactionId)
    requires Enabled(s, step) && !step.Abort?
    ensures !AbortedSince(|s.history|, Apply(s, step), t)
  {
    hide Acquire, ReleaseAll, WellFormed;
  }

  lemma AbortedInPart(m: nat, n: nat, s: Node, s': Node, t: TransactionId)
    requires s.history <= s'.history && n == |s.history|
    ensures AbortedSince(m, s', t) ==> AbortedSince(m, s, t) || AbortedSince(n, s', t)
  {
    if AbortedSince(m, s', t) {
      var i :| m <= i < |s'.history| && s'.history[i] == Aborting(t);
      if i < n { assert s.history[i] == Aborting(t); }
    }
  }

  lemma {:induction false} QuietRun(s: Node, steps: seq<Step>, t: TransactionId)
    requires Inv(s) && NoAbort(steps)
    ensures !AbortedSince(|s.history|, Run(s, steps), t)
    decreases |steps|
  {
    if steps != [] {
      var first := steps[0];
      assert first in steps;
      forall step | step in steps[1..] ensures step in steps {}
      var next := if Enabled(s, first) then Apply(s, first) else s;
      if Enabled(s, first) {
        ApplyInv(s, first);
        QuietStep(s, first, t);
      }
      QuietRun(next, steps[1..], t);
      RunEvolves(next, steps[1..]);
      hide Inv, Apply, Enabled, AbortedSince;
      AbortedInPart(|s.history|, |next.history|, next, Run(s, steps), t);
    }
  }

  lemma {:induction false} QuietStates(s: Node, scripts: seq<seq<Step>>, t: TransactionId)
    requires Inv(s) && forall i :: 0 <= i < |scripts| ==> NoAbort(scripts[i])
    ensures !AbortedSince(|s.history|, StateAfter(s, scripts), t)
  {
    if scripts != [] {
      var n := |scripts| - 1;
      var before := StateAfter(s, scripts[..n]);
      QuietStates(s, scripts[..n], t);
      StatesEvolve(s, scripts[..n]);
      RunEvolves(before, scripts[n]);
      QuietRun(before, scripts[n], t);
      hide Inv, Run, AbortedSince;
      AbortedInPart(|s.history|, |before.history|, before, StateAfter(s, scripts), t);
    }
  }

  /** In a run without aborts a repeat is always a deadlock. */
  lemma AbortFreeRepeatIsDeadlock(s: Node, scripts: seq<seq<Step>>, path: seq<TransactionId>, more: seq<Step>,
                                  h: TransactionId)
    returns (k: nat)
    requires Inv(s) && Travelled(s, scripts, path)
    requires Repeats(Run(StateAfter(s, scripts), more), path, h)
    requires NoAbort(more) && forall i :: 0 <= i < |scripts| ==> NoAbort(scripts[i])
    ensures k < |path| && path[k] == h && BlockedCycle(Run(StateAfter(s, scripts), more), path[k..])
  {
    k := RepeatIsDeadlock(s, scripts, path, more, h);
    var all := scripts + [more];
    assert all[..|all| - 1] == scripts && StateAfter(s, all) == Run(StateAfter(s, scripts), more);
    forall t | t in path[k..] ensures !AbortedSince(|s.history|, StateAfter(s, all), t) {
      QuietStates(s, all, t);
    }
  }
}
