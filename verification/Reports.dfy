/** Wait-for-graph reports: how they are encoded, merged, pruned and batched (DistributedDBNode.cpp). */
module Reports {
  import opened Commons
  import opened Graphs

  /** A graph as a message carries it. */
  type Pairs = seq<(TransactionId, seq<TransactionId>)>

  function Successors(g: Graph, w: int): seq<int> { if w in g then g[w] else [] }

  /** How often the edge from `w` to `h` is in the graph. */
  ghost function Mult(g: Graph, w: int, h: int): nat { multiset(Successors(g, w))[h] }

  ghost function PairsMult(pairs: Pairs, w: int, h: int): nat {
    if pairs == [] then 0
    else
      var last := pairs[|pairs| - 1];
      PairsMult(pairs[..|pairs| - 1], w, h) + if last.0 == w then multiset(last.1)[h] else 0
  }

  ghost function SumMult(reports: seq<Pairs>, w: int, h: int): nat {
    if reports == [] then 0
    else SumMult(reports[..|reports| - 1], w, h) + PairsMult(reports[|reports| - 1], w, h)
  }

  // ---------- merging ----------

  /** A report without successors for `w` does not even create an entry. */
  function AddAll(g: Graph, w: int, targets: seq<int>): Graph {
    if targets == [] then g else g[w := Successors(g, w) + targets]
  }

  /** Pushing one more successor. */
  lemma AddOne(g: Graph, w: int, targets: seq<int>, x: int)
    ensures AddAll(g, w, targets)[w := Successors(AddAll(g, w, targets), w) + [x]] == AddAll(g, w, targets + [x])
  {
    if targets == [] {
      assert [] + [x] == [x];
    } else {
      assert (Successors(g, w) + targets) + [x] == Successors(g, w) + (targets + [x]);
    }
  }

  function Merge(g: Graph, pairs: Pairs): Graph {
    if pairs == [] then g
    else
      var last := pairs[|pairs| - 1];
      AddAll(Merge(g, pairs[..|pairs| - 1]), last.0, last.1)
  }

  lemma {:induction false} MergeAdds(g: Graph, pairs: Pairs, w: int, h: int)
    ensures Mult(Merge(g, pairs), w, h) == Mult(g, w, h) + PairsMult(pairs, w, h)
  {
    if pairs != [] {
      MergeAdds(g, pairs[..|pairs| - 1], w, h);
      var before, last := Merge(g, pairs[..|pairs| - 1]), pairs[|pairs| - 1];
      assert multiset(Successors(before, w) + last.1) == multiset(Successors(before, w)) + multiset(last.1);
    }
  }

  /** The pairs of a graph in the order in which the hash map is iterated. */
  function MessageFormat(g: Graph, order: seq<int>): Pairs
    requires forall x :: x in order ==> x in g
  {
    if order == [] then []
    else
      var last := order[|order| - 1];
      assert last in order;
      MessageFormat(g, order[..|order| - 1]) + [(last, g[last])]
  }

  lemma {:induction false} MessageEntries(g: Graph, order: seq<int>)
    requires forall x :: x in order ==> x in g
    ensures forall x :: x in order ==> (x, g[x]) in MessageFormat(g, order)
    ensures forall p :: p in MessageFormat(g, order) ==> p.0 in order && p.1 == g[p.0]
  {
    if order != [] {
      var n := |order| - 1;
      var last := order[n];
      assert last in order && order == order[..n] + [last];
      MessageEntries(g, order[..n]);
    }
  }

  lemma {:induction false} MessageMult(g: Graph, order: seq<int>, w: int, h: int)
    requires Distinct(order) && forall x :: x in order ==> x in g
    ensures PairsMult(MessageFormat(g, order), w, h) == if w in order then Mult(g, w, h) else 0
  {
    if order != [] {
      var n := |order| - 1;
      assert order == order[..n] + [order[n]];
      MessageMult(g, order[..n], w, h);
    }
  }

  /** Encoding and merging into an empty graph gives every edge back as often as it was there. */
  lemma EncodingKeepsEdges(g: Graph, order: seq<int>, w: int, h: int)
    requires IterationOrder(g, order)
    ensures Mult(Merge(map[], MessageFormat(g, order)), w, h) == Mult(g, w, h)
  {
    MergeAdds(map[], MessageFormat(g, order), w, h);
    MessageMult(g, order, w, h);
  }

  /** What the merge of graphs depends on is only how often each report came, not when. */
  lemma {:induction false} SumIgnoresOrder(a: seq<Pairs>, b: seq<Pairs>, w: int, h: int)
    requires multiset(a) == multiset(b)
    ensures SumMult(a, w, h) == SumMult(b, w, h)
  {
    if a != [] {
      var n := |a| - 1;
      var last := a[n];
      assert a == a[..n] + [last];
      assert last in multiset(a);
      assert last in b;
      var k :| 0 <= k < |b| && b[k] == last;
      WithoutOne(b, k);
      SumIgnoresOrder(a[..n], b[..k] + b[k + 1..], w, h);
      SumRemove(b, k, w, h);
    } else {
      assert |multiset(b)| == 0;
      assert b == [];
    }
  }

  lemma WithoutOne(b: seq<Pairs>, k: nat)
    requires k < |b|
    ensures multiset(b[..k] + b[k + 1..]) == multiset(b) - multiset{b[k]}
  {
    assert b == b[..k] + [b[k]] + b[k + 1..];
  }

  lemma SumRemove(b: seq<Pairs>, k: nat, w: int, h: int)
    requires k < |b|
    ensures SumMult(b, w, h) == SumMult(b[..k] + b[k + 1..], w, h) + PairsMult(b[k], w, h)
  {
    assert b == b[..k + 1] + b[k + 1..] && b[..k + 1][..k] == b[..k];
    SumSplit(b[..k + 1], b[k + 1..], w, h);
    SumSplit(b[..k], b[k + 1..], w, h);
  }

  lemma {:induction false} SumSplit(a: seq<Pairs>, b: seq<Pairs>, w: int, h: int)
    ensures SumMult(a + b, w, h) == SumMult(a, w, h) + SumMult(b, w, h)
  {
    if b == [] {
      assert a + b == a;
    } else {
      var n := |b| - 1;
      SumSplit(a, b[..n], w, h);
      assert (a + b)[..|a + b| - 1] == a + b[..n];
    }
  }

  // ---------- pruning ----------

  function Keep(xs: seq<int>, active: set<int>): seq<int> {
    if xs == [] then []
    else Keep(xs[..|xs| - 1], active) + if xs[|xs| - 1] in active then [xs[|xs| - 1]] else []
  }

  lemma KeepOne(xs: seq<int>, x: int, active: set<int>)
    ensures Keep(xs + [x], active) == if x in active then Keep(xs, active) + [x] else Keep(xs, active)
  {
    assert (xs + [x])[..|xs|] == xs;
  }

  function Prune(g: Graph, active: set<int>): Graph {
    map w | w in g && w in active && Keep(g[w], active) != [] :: Keep(g[w], active)
  }

  lemma {:induction false} KeepMult(xs: seq<int>, active: set<int>, h: int)
    ensures multiset(Keep(xs, active))[h] == if h in active then multiset(xs)[h] else 0
  {
    if xs != [] {
      var n := |xs| - 1;
      assert xs == xs[..n] + [xs[n]];
      KeepMult(xs[..n], active, h);
    }
  }

  /** Pruning keeps the subgraph induced by the active transactions, parallel edges included. */
  lemma PruneIsInduced(g: Graph, active: set<int>, w: int, h: int)
    ensures Mult(Prune(g, active), w, h) == if w in active && h in active then Mult(g, w, h) else 0
    ensures Edge(Prune(g, active), w, h) <==> Edge(g, w, h) && w in active && h in active
  {
    if w in g { KeepMult(g[w], active, h); }
    MultIsEdge(g, w, h);
    MultIsEdge(Prune(g, active), w, h);
  }

  lemma MultIsEdge(g: Graph, w: int, h: int)
    ensures Mult(g, w, h) > 0 <==> Edge(g, w, h)
  {
  }

  lemma {:induction false} KeepAll(xs: seq<int>, active: set<int>)
    requires forall x :: x in xs ==> x in active
    ensures Keep(xs, active) == xs
  {
    if xs != [] {
      var n := |xs| - 1;
      var x := xs[n];
      assert x in xs && xs == xs[..n] + [x];
      KeepAll(xs[..n], active);
    }
  }

  lemma PruneOfPruned(g: Graph, active: set<int>)
    requires forall w :: w in g ==> g[w] != []
    requires forall w, h :: Edge(g, w, h) ==> w in active && h in active
    ensures Prune(g, active) == g
  {
    forall w | w in g ensures w in active && Keep(g[w], active) == g[w] {
      assert Edge(g, w, g[w][0]);
      forall x | x in g[w] ensures x in active { assert Edge(g, w, x); }
      KeepAll(g[w], active);
    }
    forall w ensures w in Prune(g, active) <==> w in g {}
    SameEntries(Prune(g, active), g);
  }

  // ---------- batching ----------

  /** The aggregate that a coordinator keeps.  `detected` lists the graphs on which detection was run; it is a
      history variable that the program does not have. */
  datatype Aggregate = Aggregate(wfg: Graph, received: nat, detected: seq<Graph>)

  function Receive(a: Aggregate, report: Pairs, expected: int): Aggregate {
    var merged := Merge(a.wfg, report);
    if a.received + 1 >= expected then Aggregate(map[], 0, a.detected + [merged])
    else Aggregate(merged, a.received + 1, a.detected)
  }

  function ReceiveAll(reports: seq<Pairs>, expected: int): Aggregate {
    if reports == [] then Aggregate(map[], 0, [])
    else Receive(ReceiveAll(reports[..|reports| - 1], expected), reports[|reports| - 1], expected)
  }

  /** Detection runs after each report when none is expected. */
  function BatchSize(expected: int): nat { if expected < 1 then 1 else expected }

  ghost function Batch(reports: seq<Pairs>, size: nat, k: nat): seq<Pairs>
    requires size >= 1
  {
    if k * size + size <= |reports| then reports[k * size..k * size + size] else []
  }

  ghost function Remainder(reports: seq<Pairs>, size: nat): seq<Pairs>
    requires size >= 1
  {
    reports[|reports| - |reports| % size..]
  }

  lemma Division(n: nat, size: nat)
    requires size >= 1
    ensures (n / size) * size == n - n % size
    ensures (n % size) + 1 < size ==> (n + 1) / size == n / size && (n + 1) % size == n % size + 1
    ensures (n % size) + 1 >= size ==> (n + 1) / size == n / size + 1 && (n + 1) % size == 0
  {
    var q, r := n / size, n % size;
    assert n == q * size + r;
    if r + 1 < size {
      Quotient(n + 1, size, q, r + 1);
    } else {
      assert n + 1 == (q + 1) * size + 0;
      Quotient(n + 1, size, q + 1, 0);
    }
  }

  lemma Quotient(n: nat, size: nat, q: nat, r: nat)
    requires size >= 1 && n == q * size + r && r < size
    ensures n / size == q && n % size == r
  {
    var d := n / size - q;
    assert d * size == r - n % size by { assert n == (n / size) * size + n % size; }
    assert d >= 1 ==> d * size >= size;
    assert d <= -1 ==> d * size + size <= 0;
  }

  ghost predicate IsSum(g: Graph, reports: seq<Pairs>) { forall w, h :: Mult(g, w, h) == SumMult(reports, w, h) }

  /** Every detection that has run was given the sum of its batch, and the aggregate holds the rest. */
  ghost predicate Conserved(a: Aggregate, reports: seq<Pairs>, size: nat)
    requires size >= 1
  {
    && |a.detected| == |reports| / size && a.received == |reports| % size
    && IsSum(a.wfg, Remainder(reports, size))
    && forall k :: 0 <= k < |a.detected| ==> IsSum(a.detected[k], Batch(reports, size, k))
  }

  /** After n reports exactly n / E detections have run, each on the sum of its own E consecutive reports, and the
      aggregate holds the sum of the n % E reports since (with E = 1 when no report is expected). */
  lemma {:induction false} BatchesConserveEdges(reports: seq<Pairs>, expected: int)
    ensures Conserved(ReceiveAll(reports, expected), reports, BatchSize(expected))
  {
    var size := BatchSize(expected);
    if reports == [] {
      assert 0 / size == 0 && 0 % size == 0;
    } else {
      var n := |reports| - 1;
      BatchesConserveEdges(reports[..n], expected);
      NextReport(reports, expected, ReceiveAll(reports[..n], expected));
    }
  }

  lemma NextReport(reports: seq<Pairs>, expected: int, before: Aggregate)
    requires reports != [] && Conserved(before, reports[..|reports| - 1], BatchSize(expected))
    ensures Conserved(Receive(before, reports[|reports| - 1], expected), reports, BatchSize(expected))
  {
    hide IsSum, Merge, Batch, Remainder;
    var size, n, last := BatchSize(expected), |reports| - 1, reports[|reports| - 1];
    Division(n, size);
    RemainderGrows(reports, size);
    MergedSum(before.wfg, Remainder(reports[..n], size), last);
    EmptySum();
    forall k | 0 <= k < |before.detected| ensures IsSum(before.detected[k], Batch(reports, size, k)) {
      BatchStays(reports, n, size, k);
    }
  }

  lemma EmptySum()
    ensures IsSum(map[], [])
  {
  }

  lemma MergedSum(g: Graph, reports: seq<Pairs>, last: Pairs)
    requires IsSum(g, reports)
    ensures IsSum(Merge(g, last), reports + [last])
  {
    hide Merge, Mult;
    var all := reports + [last];
    assert all[..|all| - 1] == reports;
    forall w, h ensures Mult(Merge(g, last), w, h) == SumMult(all, w, h) { MergeAdds(g, last, w, h); }
  }

  lemma RemainderGrows(reports: seq<Pairs>, size: nat)
    requires reports != [] && size >= 1
    ensures var n, last := |reports| - 1, reports[|reports| - 1];
      var since := Remainder(reports[..n], size) + [last];
      if n % size + 1 < size then Remainder(reports, size) == since
      else Batch(reports, size, n / size) == since && Remainder(reports, size) == []
  {
    var n := |reports| - 1;
    var start := n - n % size;
    Division(n, size);
    SliceGrows(reports, start);
    if n % size + 1 >= size {
      BatchAt(reports, size, n / size, start);
    }
  }

  lemma SliceGrows(reports: seq<Pairs>, start: nat)
    requires start < |reports|
    ensures reports[..|reports| - 1][start..] + [reports[|reports| - 1]] == reports[start..]
  {
  }

  lemma BatchAt(reports: seq<Pairs>, size: nat, k: nat, start: nat)
    requires size >= 1 && k * size == start && start + size == |reports|
    ensures Batch(reports, size, k) == reports[start..]
  {
  }

  lemma BatchStays(reports: seq<Pairs>, n: nat, size: nat, k: nat)
    requires size >= 1 && n <= |reports| && k < n / size
    ensures Batch(reports[..n], size, k) == Batch(reports, size, k)
  {
    Division(n, size);
    var q := n / size;
    Scale(k + 1, q, size);
    assert k * size + size == (k + 1) * size;
    assert q * size <= n;
    assert reports[..n][k * size..k * size + size] == reports[k * size..k * size + size];
  }

  lemma Scale(a: nat, b: nat, size: nat)
    requires a <= b
    ensures a * size <= b * size
  {
    var d: nat := b - a;
    assert b * size == a * size + d * size;
  }

  /** The order in which the reports of one batch arrive does not matter to its detection. */
  lemma BatchOrderIsIrrelevant(a: seq<Pairs>, b: seq<Pairs>, expected: int, k: nat, w: int, h: int)
    requires |a| == |b| && k < |ReceiveAll(a, expected).detected|
    requires multiset(Batch(a, BatchSize(expected), k)) == multiset(Batch(b, BatchSize(expected), k))
    ensures k < |ReceiveAll(b, expected).detected|
    ensures Mult(ReceiveAll(a, expected).detected[k], w, h) == Mult(ReceiveAll(b, expected).detected[k], w, h)
  {
    BatchesConserveEdges(a, expected);
    BatchesConserveEdges(b, expected);
    assert IsSum(ReceiveAll(a, expected).detected[k], Batch(a, BatchSize(expected), k));
    assert IsSum(ReceiveAll(b, expected).detected[k], Batch(b, BatchSize(expected), k));
    SumIgnoresOrder(Batch(a, BatchSize(expected), k), Batch(b, BatchSize(expected), k), w, h);
  }

  // ---------- what pruning leaves of merged reports ----------

  /** No edge of the report has both ends among the given transactions, as for every report of another node when ids
      are not shared between nodes. */
  ghost predicate Foreign(pairs: Pairs, active: set<int>) {
    forall w, h :: w in active && h in active ==> PairsMult(pairs, w, h) == 0
  }

  ghost predicate AllForeign(reports: seq<Pairs>, active: set<int>) {
    forall j :: 0 <= j < |reports| ==> Foreign(reports[j], active)
  }

  lemma {:induction false} SomeReportHasIt(reports: seq<Pairs>, w: int, h: int) returns (k: nat)
    requires SumMult(reports, w, h) > 0
    ensures k < |reports| && PairsMult(reports[k], w, h) > 0
  {
    k := |reports| - 1;
    if PairsMult(reports[k], w, h) == 0 { k := SomeReportHasIt(reports[..k], w, h); }
  }

  lemma {:induction false} ForeignSum(reports: seq<Pairs>, active: set<int>, w: int, h: int)
    requires w in active && h in active && AllForeign(reports, active)
    ensures SumMult(reports, w, h) == 0
  {
    if reports != [] {
      ForeignSum(reports[..|reports| - 1], active, w, h);
      assert Foreign(reports[|reports| - 1], active);
    }
  }

  /** A coordinator prunes the merged graph with its own active transactions.  When ids are not shared between nodes,
      that leaves nothing but the active part of its own report: no edge, and so no cycle, of another node or across
      nodes. */
  lemma OnlyOwnEdgesSurvive(m: Graph, reports: seq<Pairs>, k: nat, g: Graph, keys: seq<int>, active: set<int>, w: int,
                            h: int)
    requires IsSum(m, reports) && k < |reports| && IterationOrder(g, keys) && reports[k] == MessageFormat(g, keys)
    requires forall j :: 0 <= j < |reports| && j != k ==> Foreign(reports[j], active)
    ensures Mult(Prune(m, active), w, h) == Mult(Prune(g, active), w, h)
  {
    PruneIsInduced(m, active, w, h);
    PruneIsInduced(g, active, w, h);
    assert Mult(m, w, h) == SumMult(reports, w, h);
    hide Mult, SumMult, PairsMult, Prune, Foreign, AllForeign, IsSum, MessageFormat;
    if w in active && h in active {
      SumRemove(reports, k, w, h);
      RestIsForeign(reports, k, active);
      ForeignSum(reports[..k] + reports[k + 1..], active, w, h);
      MessageMult(g, keys, w, h);
      OnlyKeysHaveSuccessors(g, keys, w, h);
    }
  }

  lemma OnlyKeysHaveSuccessors(g: Graph, keys: seq<int>, w: int, h: int)
    requires IterationOrder(g, keys)
    ensures w !in keys ==> Mult(g, w, h) == 0
  {
  }

  lemma RestIsForeign(reports: seq<Pairs>, k: nat, active: set<int>)
    requires k < |reports| && forall j :: 0 <= j < |reports| && j != k ==> Foreign(reports[j], active)
    ensures AllForeign(reports[..k] + reports[k + 1..], active)
  {
    hide Foreign;
    var rest := reports[..k] + reports[k + 1..];
    forall j | 0 <= j < |rest| ensures Foreign(rest[j], active) {
      assert rest[j] == reports[if j < k then j else j + 1];
    }
  }

  lemma OneReportIsSum(pairs: Pairs)
    ensures IsSum(Merge(map[], pairs), [pairs])
  {
    EmptySum();
    MergedSum(map[], [], pairs);
    assert [] + [pairs] == [pairs];
  }

  // ---------- the central node of the zones ----------

  type Cycles = seq<seq<TransactionId>>

  datatype ZoneReport = ZoneReport(pairs: Pairs, cycles: Cycles, count: int)

  datatype Central = Central(
    wfg: Graph,
    received: nat,
    fromZones: int,
    fromCentral: int,
    count: int,
    cycles: Cycles)

  /** What the client is told: the collected cycles and a number of deadlocks. */
  type Told = (Cycles, int)

  const NOTHING := Central(map[], 0, 0, 0, 0, [])

  function Absorb(c: Central, report: ZoneReport): Central {
    c.(wfg := Merge(c.wfg, report.pairs), received := c.received + 1, fromZones := c.fromZones + report.count,
       cycles := c.cycles + report.cycles)
  }

  /** `found` are the cycles of the merged graph, if the report was the last of its round. */
  function CentralReceive(c: Central, report: ZoneReport, found: Cycles, numNodes: int): (Central, seq<Told>) {
    var a := Absorb(c, report);
    if a.received >= numNodes then
      (Central(map[], 0, a.fromZones, a.fromCentral + |found|, 0, []), [(a.cycles + found, a.count + |found|)])
    else (a, [])
  }

  function CentralReceiveAll(inputs: seq<(ZoneReport, Cycles)>, numNodes: int): (Central, seq<Told>) {
    if inputs == [] then (NOTHING, [])
    else
      var n := |inputs| - 1;
      var (before, told) := CentralReceiveAll(inputs[..n], numNodes);
      var (after, more) := CentralReceive(before, inputs[n].0, inputs[n].1, numNodes);
      (after, told + more)
  }

  ghost function ZoneTotal(inputs: seq<(ZoneReport, Cycles)>): int {
    if inputs == [] then 0 else ZoneTotal(inputs[..|inputs| - 1]) + inputs[|inputs| - 1].0.count
  }

  ghost function ToldTotal(told: seq<Told>): int {
    if told == [] then 0 else ToldTotal(told[..|told| - 1]) + told[|told| - 1].1
  }

  ghost function ToldCycles(told: seq<Told>): Cycles {
    if told == [] then [] else ToldCycles(told[..|told| - 1]) + told[|told| - 1].0
  }

  /** The cycles that came in: those of every report, and after the last report of a round those found centrally. */
  ghost function CyclesIn(inputs: seq<(ZoneReport, Cycles)>, numNodes: int): Cycles {
    if inputs == [] then []
    else
      var n := |inputs| - 1;
      CyclesIn(inputs[..n], numNodes) + inputs[n].0.cycles
        + if CentralReceiveAll(inputs, numNodes).0.received == 0 then inputs[n].1 else []
  }

  /** How many cycles were found centrally, in the searches after the last reports of rounds. */
  ghost function FoundTotal(inputs: seq<(ZoneReport, Cycles)>, numNodes: int): int {
    if inputs == [] then 0
    else
      var n := |inputs| - 1;
      FoundTotal(inputs[..n], numNodes)
        + if CentralReceiveAll(inputs, numNodes).0.received == 0 then |inputs[n].1| else 0
  }

  ghost function PairsOf(inputs: seq<(ZoneReport, Cycles)>): seq<Pairs> {
    if inputs == [] then [] else PairsOf(inputs[..|inputs| - 1]) + [inputs[|inputs| - 1].0.pairs]
  }

  /** Nothing is lost or counted twice: the zone total is the sum of the reported counts, the central total is the
      number of cycles found centrally and the sum of the numbers told to the client, every cycle is told or still held,
      in the order of arrival, the client is told once a round, and the graph is aggregated exactly as by a coordinator
      that expects one report from each node. */
  lemma {:induction false} CentralConserves(inputs: seq<(ZoneReport, Cycles)>, numNodes: int)
    ensures var (c, told) := CentralReceiveAll(inputs, numNodes);
      && c.fromZones == ZoneTotal(inputs)
      && c.fromCentral == ToldTotal(told) == FoundTotal(inputs, numNodes) && c.count == 0
      && ToldCycles(told) + c.cycles == CyclesIn(inputs, numNodes)
      && var a := ReceiveAll(PairsOf(inputs), numNodes);
         c.wfg == a.wfg && c.received == a.received && |told| == |a.detected|
  {
    if inputs != [] {
      var n := |inputs| - 1;
      CentralConserves(inputs[..n], numNodes);
      CentralStep(CentralReceiveAll(inputs[..n], numNodes).1, CentralReceiveAll(inputs[..n], numNodes).0,
                  inputs[n].0, inputs[n].1, numNodes);
      assert PairsOf(inputs)[..n] == PairsOf(inputs[..n]) && |PairsOf(inputs)| == n + 1 by { OneEach(inputs); }
    }
  }

  lemma {:induction false} OneEach(inputs: seq<(ZoneReport, Cycles)>)
    ensures |PairsOf(inputs)| == |inputs|
  {
    if inputs != [] { OneEach(inputs[..|inputs| - 1]); }
  }

  lemma CentralStep(told: seq<Told>, c: Central, report: ZoneReport, found: Cycles, numNodes: int)
    requires c.count == 0
    ensures var (after, more) := CentralReceive(c, report, found, numNodes);
      && ToldTotal(told + more) - after.fromCentral == ToldTotal(told) - c.fromCentral
      && ToldCycles(told + more) + after.cycles ==
           ToldCycles(told) + c.cycles + report.cycles + if after.received == 0 then found else []
  {
    var (after, more) := CentralReceive(c, report, found, numNodes);
    if more == [] { assert told + more == told; } else { assert (told + more)[..|told|] == told; }
  }
}
