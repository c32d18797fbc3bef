/** Iterating over a hash map, whose order the program does not control. */
module HashIteration {
  import opened Commons
  import opened Graphs

  /** Some order of the keys: the iteration order of a hash map. */
  method KeyOrder(g: Graph) returns (order: seq<int>)
    ensures IterationOrder(g, order)
  {
    order := [];
    var left := g.Keys;
    while left != {}
      invariant Distinct(order)
      invariant left <= g.Keys
      invariant forall x :: x in order ==> x in g && x !in left
      invariant forall x :: x in g ==> x in left || x in order
      decreases left
    {
      var x := Pick(left);
      order, left := order + [x], left - {x};
    }
  }
}
