/**
 * `Graph<T>`: a list of nodes, each holding a value, a list of neighbours and a
 * parallel list of edge costs (`Neighbors[i]` is reached at cost `Costs[i]`).
 *
 * Costs are single-precision floats in the source; they are only stored and
 * removed, never computed with, and are `real` here.  Nodes are compared by
 * reference, as `Collection<T>.IndexOf` and `Remove` do for a class without an
 * `Equals` override; values are compared with `==`.
 */
module Graphs {
  import opened Wrappers
  import Lists

  /** `GraphNode<T>`: the value, `Neighbors` and `Costs` (both created empty on
   *  first use). */
  class GraphNode<T> {
    var Value: T
    var neighbors: seq<GraphNode<T>>
    var costs: seq<real>

    constructor (value: T)
      ensures Value == value && neighbors == [] && costs == []
    {
      Value := value;
      neighbors := [];
      costs := [];
    }
  }

  /** Every neighbour has its cost. */
  ghost predicate Aligned<T>(n: GraphNode<T>)
    reads n
  {
    |n.neighbors| == |n.costs|
  }

  /** The index of the first node holding `value`, or -1. */
  ghost function FirstWithValue<T>(nodes: seq<GraphNode<T>>, value: T): (i: int)
    reads set n | n in nodes
    ensures -1 <= i < |nodes|
    ensures i == -1 <==> forall k :: 0 <= k < |nodes| ==> nodes[k].Value != value
    ensures 0 <= i ==> nodes[i].Value == value && forall k :: 0 <= k < i ==> nodes[k].Value != value
  {
    if nodes == [] then -1
    else if nodes[0].Value == value then 0
    else
      var j := FirstWithValue(nodes[1..], value);
      if j == -1 then -1 else j + 1
  }

  /** `NodeList.FindByValue(value)`: the first node holding `value`, or null. */
  method FindByValue<T(==)>(nodes: seq<GraphNode<T>>, value: T) returns (r: GraphNode?<T>)
    ensures FirstWithValue(nodes, value) == -1 ==> r == null
    ensures FirstWithValue(nodes, value) != -1 ==> r == nodes[FirstWithValue(nodes, value)]
  {
    var i := 0;
    while i < |nodes|
      invariant 0 <= i <= |nodes|
      invariant forall k :: 0 <= k < i ==> nodes[k].Value != value
    {
      if nodes[i].Value == value {
        return nodes[i];
      }
      i := i + 1;
    }
    return null;
  }

  /** The neighbour and cost lists after the first edge to x is removed from
   *  both at the same index. */
  function Unlink<N(==)>(edges: (seq<N>, seq<real>), x: N): (r: (seq<N>, seq<real>))
    requires |edges.0| == |edges.1|
    ensures |r.0| == |r.1|
  {
    var i := Lists.IndexOf(edges.0, x);
    if i == -1 then edges
    else (Lists.RemoveAt(edges.0, i), Lists.RemoveAt(edges.1, i))
  }

  /** `Unlink` drops the first edge to x and the cost stored beside it; a node
   *  without an edge to x keeps its lists. */
  lemma UnlinkDropsFirstEdge<N>(edges: (seq<N>, seq<real>), x: N)
    requires |edges.0| == |edges.1|
    ensures x !in edges.0 ==> Unlink(edges, x) == edges
    ensures x in edges.0 ==> |Unlink(edges, x).0| == |edges.0| - 1
    ensures multiset(Unlink(edges, x).0) == multiset(edges.0) - multiset{x}
    ensures Unlink(edges, x).0 == Lists.RemoveFirst(edges.0, x)
    ensures x in edges.0 ==> Unlink(edges, x).1 == Lists.RemoveAt(edges.1, Lists.IndexOf(edges.0, x))
  {
    assert Unlink(edges, x).0 == Lists.RemoveFirst(edges.0, x);
  }

  class Graph<T(==)> {
    var nodeSet: seq<GraphNode<T>>

    /** Every node of the graph keeps its neighbour and cost lists aligned. */
    ghost predicate Valid()
      reads this, set n | n in nodeSet
    {
      AlignedMap(EdgeMap(nodeSet))
    }

    /** `new Graph(nodeSet)`: an empty list when given null. */
    constructor (nodes: Option<seq<GraphNode<T>>>)
      ensures nodes.None? ==> nodeSet == []
      ensures nodes.Some? ==> nodeSet == nodes.value
    {
      nodeSet := if nodes.None? then [] else nodes.value;
    }

    function Count(): nat
      reads this
    {
      |nodeSet|
    }

    /** The enumerator: the node values in insertion order. */
    function Values(): (r: seq<T>)
      reads this, set n | n in nodeSet
      ensures |r| == Count()
      ensures forall i :: 0 <= i < |r| ==> r[i] == nodeSet[i].Value
    {
      seq(|nodeSet|, i reads this, set n | n in nodeSet requires 0 <= i < |nodeSet| => nodeSet[i].Value)
    }

    /** `AddNode(GraphNode node)`. */
    method AddNode(node: GraphNode<T>)
      modifies this
      ensures nodeSet == old(nodeSet) + [node]
      ensures Count() == old(Count()) + 1
    {
      nodeSet := nodeSet + [node];
    }

    /** `AddNode(T value)`: a new node without edges. */
    method AddValue(value: T)
      modifies this
      ensures |nodeSet| == old(|nodeSet|) + 1 && nodeSet[..old(|nodeSet|)] == old(nodeSet)
      ensures fresh(nodeSet[|nodeSet| - 1])
      ensures nodeSet[|nodeSet| - 1].neighbors == [] && nodeSet[|nodeSet| - 1].costs == []
      ensures Values() == old(Values()) + [value]
    {
      var node := new GraphNode(value);
      nodeSet := nodeSet + [node];
      assert nodeSet[..|nodeSet| - 1] == old(nodeSet);
    }

    /** `AddDirectedEdge(from, to, cost)`: one neighbour and its cost. */
    method AddDirectedEdge(from: GraphNode<T>, to: GraphNode<T>, cost: real)
      modifies from
      ensures from.neighbors == old(from.neighbors) + [to]
      ensures from.costs == old(from.costs) + [cost]
      ensures from.Value == old(from.Value)
      ensures Aligned(from) <==> old(Aligned(from))
    {
      from.neighbors := from.neighbors + [to];
      from.costs := from.costs + [cost];
    }

    /** `AddUndirectedEdge(from, to, cost)`: the edge both ways, at the same cost.
     *  A loop (from == to) gets the edge twice. */
    method AddUndirectedEdge(from: GraphNode<T>, to: GraphNode<T>, cost: real)
      modifies from, to
      ensures from != to ==> from.neighbors == old(from.neighbors) + [to] && from.costs == old(from.costs) + [cost]
      ensures from != to ==> to.neighbors == old(to.neighbors) + [from] && to.costs == old(to.costs) + [cost]
      ensures from == to ==> from.neighbors == old(from.neighbors) + [from, from] && from.costs == old(from.costs) + [cost, cost]
      ensures old(Aligned(from)) && old(Aligned(to)) ==> Aligned(from) && Aligned(to)
    {
      from.neighbors := from.neighbors + [to];
      from.costs := from.costs + [cost];
      to.neighbors := to.neighbors + [from];
      to.costs := to.costs + [cost];
    }

    /** `Contains(value)`: some node holds the value. */
    method Contains(value: T) returns (b: bool)
      ensures b <==> exists i :: 0 <= i < |nodeSet| && nodeSet[i].Value == value
    {
      var found := FindByValue(nodeSet, value);
      b := found != null;
    }

    /** `Remove(value)`: takes out the first node holding `value`, then, for
     *  each node left in the list in order, drops its first edge to the removed
     *  node together with that edge's cost.  A node listed k times is visited
     *  k times. */
    method Remove(value: T) returns (removed: bool)
      requires Valid()
      modifies this, nodeSet
      ensures removed <==> old(FirstWithValue(nodeSet, value)) != -1
      ensures !removed ==> nodeSet == old(nodeSet)
      ensures !removed ==> forall n :: n in old(nodeSet) ==> n.neighbors == old(n.neighbors) && n.costs == old(n.costs)
      ensures removed ==> var x := old(nodeSet)[old(FirstWithValue(nodeSet, value))];
        nodeSet == Lists.RemoveFirst(old(nodeSet), x) &&
        forall n :: n in old(nodeSet) ==> (n.neighbors, n.costs) == Sweep(old(EdgeMap(nodeSet)), nodeSet, x)[n]
      ensures forall n :: n in old(nodeSet) ==> n.Value == old(n.Value)
      ensures !removed ==> Values() == old(Values())
      ensures removed ==> Values() == Lists.RemoveAt(old(Values()), old(FirstWithValue(nodeSet, value)))
      ensures Valid()
    {
      ghost var i := FirstWithValue(nodeSet, value);
      ghost var vals := Values();
      ghost var listed := nodeSet;
      var x := FindByValue(nodeSet, value);
      if x == null {
        return false;
      }
      FirstIsIndex(nodeSet, value);
      Detach(x);
      removed := true;
      assert nodeSet == Lists.RemoveAt(listed, i);
      forall k | 0 <= k < |nodeSet|
        ensures Values()[k] == Lists.RemoveAt(vals, i)[k]
      {
        assert nodeSet[k] in listed;
      }
    }

    /** The part of `Remove` after the node is found. */
    method Detach(x: GraphNode<T>)
      requires Valid()
      modifies this, nodeSet
      ensures nodeSet == Lists.RemoveFirst(old(nodeSet), x)
      ensures forall n :: n in old(nodeSet) ==> (n.neighbors, n.costs) == Sweep(old(EdgeMap(nodeSet)), nodeSet, x)[n]
      ensures forall n :: n in old(nodeSet) ==> n.Value == old(n.Value)
      ensures Valid()
    {
      ghost var before := EdgeMap(nodeSet);
      nodeSet := Lists.RemoveFirst(nodeSet, x);
      RemoveFirstWithin(old(nodeSet), x);
      UnlinkEach(nodeSet, x, before);
    }
  }

  /** Every node's edges, keyed by node. */
  ghost function EdgeMap<T>(nodes: seq<GraphNode<T>>): (r: map<GraphNode<T>, (seq<GraphNode<T>>, seq<real>)>)
    reads set n | n in nodes
    ensures forall n :: n in nodes ==> n in r
  {
    map n | n in nodes :: (n.neighbors, n.costs)
  }

  /** All edge lists in the map are aligned. */
  ghost predicate AlignedMap<N>(edges: map<N, (seq<N>, seq<real>)>)
  {
    forall n :: n in edges ==> |edges[n].0| == |edges[n].1|
  }

  /** The edges of every node after `Remove`'s loop has visited `nodes` in
   *  order, each visit unlinking x once from the visited node. */
  ghost function Sweep<N>(edges: map<N, (seq<N>, seq<real>)>, nodes: seq<N>, x: N):
    (r: map<N, (seq<N>, seq<real>)>)
    requires AlignedMap(edges)
    ensures AlignedMap(r) && r.Keys == edges.Keys
    decreases |nodes|
  {
    if nodes == [] then edges
    else
      var g := nodes[|nodes| - 1];
      var swept := Sweep(edges, nodes[..|nodes| - 1], x);
      if g in swept then swept[g := Unlink(swept[g], x)] else swept
  }

  /** A node the loop never visits keeps its edges. */
  lemma {:induction false} SweepSkips<N>(edges: map<N, (seq<N>, seq<real>)>, nodes: seq<N>, x: N, n: N)
    requires AlignedMap(edges) && n in edges && n !in nodes
    ensures Sweep(edges, nodes, x)[n] == edges[n]
    decreases |nodes|
  {
    if nodes != [] {
      SweepSkips(edges, nodes[..|nodes| - 1], x, n);
    }
  }

  /** A node the loop visits once loses its first edge to x, with its cost. */
  lemma {:induction false} SweepOnce<N>(edges: map<N, (seq<N>, seq<real>)>, nodes: seq<N>, x: N, n: N)
    requires AlignedMap(edges) && n in edges && multiset(nodes)[n] == 1
    ensures Sweep(edges, nodes, x)[n] == Unlink(edges[n], x)
    decreases |nodes|
  {
    var init := nodes[..|nodes| - 1];
    var last := nodes[|nodes| - 1];
    assert nodes == init + [last];
    if last == n {
      assert n !in init;
      SweepSkips(edges, init, x, n);
    } else {
      SweepOnce(edges, init, x, n);
    }
  }

  /** The first node holding a value is also the first occurrence of that
   *  node, so `Remove` by reference takes out the position `FindByValue` found. */
  lemma FirstIsIndex<T>(nodes: seq<GraphNode<T>>, value: T)
    requires FirstWithValue(nodes, value) != -1
    ensures Lists.IndexOf(nodes, nodes[FirstWithValue(nodes, value)]) == FirstWithValue(nodes, value)
  {
  }

  lemma RemoveFirstWithin<T>(nodes: seq<GraphNode<T>>, x: GraphNode<T>)
    ensures forall n :: n in Lists.RemoveFirst(nodes, x) ==> n in nodes
  {
    var r := Lists.RemoveFirst(nodes, x);
    forall n | n in r
      ensures n in nodes
    {
      assert multiset(r)[n] > 0;
    }
  }

  /** The body of `Remove`'s loop for one node g: its first edge to x goes,
   *  with the cost at the same index. */
  method UnlinkNode<T>(g: GraphNode<T>, x: GraphNode<T>)
    requires Aligned(g)
    modifies g
    ensures (g.neighbors, g.costs) == Unlink((old(g.neighbors), old(g.costs)), x)
    ensures g.Value == old(g.Value)
  {
    var index := Lists.IndexOf(g.neighbors, x);
    if index != -1 {
      g.neighbors := Lists.RemoveAt(g.neighbors, index);
      g.costs := Lists.RemoveAt(g.costs, index);
    }
  }

  /** `Remove`'s loop over the remaining nodes, against `Sweep`; `before`
   *  holds the edges of every node that may be visited. */
  method UnlinkEach<T>(nodes: seq<GraphNode<T>>, x: GraphNode<T>, ghost before: map<GraphNode<T>, (seq<GraphNode<T>>, seq<real>)>)
    requires forall n :: n in nodes ==> n in before
    requires forall n :: n in before ==> before[n] == (n.neighbors, n.costs)
    requires AlignedMap(before)
    modifies nodes
    ensures forall n :: n in before ==> (n.neighbors, n.costs) == Sweep(before, nodes, x)[n]
    ensures forall n :: n in before ==> n.Value == old(n.Value)
  {
    var j := 0;
    while j < |nodes|
      invariant 0 <= j <= |nodes|
      invariant forall n :: n in before ==> (n.neighbors, n.costs) == Sweep(before, nodes[..j], x)[n]
      invariant forall n :: n in before ==> n.Value == old(n.Value)
    {
      var g := nodes[j];
      ghost var swept := Sweep(before, nodes[..j], x);
      SweepNext(before, nodes, j, x);
      UnlinkNode(g, x);
      assert forall n :: n in before && n != g ==> (n.neighbors, n.costs) == swept[n];
      j := j + 1;
    }
    assert nodes[..j] == nodes;
  }

  /** Visiting one more node unlinks x from that node alone. */
  lemma SweepNext<N>(edges: map<N, (seq<N>, seq<real>)>, nodes: seq<N>, j: int, x: N)
    requires AlignedMap(edges) && 0 <= j < |nodes| && nodes[j] in edges
    ensures var swept := Sweep(edges, nodes[..j], x);
      Sweep(edges, nodes[..j + 1], x) == swept[nodes[j] := Unlink(swept[nodes[j]], x)]
  {
    assert nodes[..j + 1][..j] == nodes[..j];
  }

  /** No node is listed twice. */
  ghost predicate Distinct<N>(nodes: seq<N>)
  {
    forall i, j :: 0 <= i < j < |nodes| ==> nodes[i] != nodes[j]
  }

  lemma DistinctCount<N>(nodes: seq<N>, n: N)
    requires Distinct(nodes)
    ensures multiset(nodes)[n] == if n in nodes then 1 else 0
  {
    if nodes != [] {
      assert nodes == [nodes[0]] + nodes[1..];
      DistinctCount(nodes[1..], n);
    }
  }

  /** Taking the first copy of x out of a list without repeats takes x out
   *  altogether and leaves every other listed node listed once. */
  lemma {:induction false} RemoveDistinct<N>(nodes: seq<N>, x: N, n: N)
    requires Distinct(nodes) && x in nodes
    ensures x !in Lists.RemoveFirst(nodes, x)
    ensures n in nodes && n != x ==> multiset(Lists.RemoveFirst(nodes, x))[n] == 1
  {
    DistinctCount(nodes, x);
    DistinctCount(nodes, n);
  }

  /** `Remove` on a graph that lists each node once: the removed node leaves
   *  the list, keeps its own edges, and every other node of the graph loses
   *  exactly its first edge to it, together with that edge's cost. */
  lemma RemoveFromDistinct<N>(edges: map<N, (seq<N>, seq<real>)>, nodes: seq<N>, x: N, n: N)
    requires AlignedMap(edges) && Distinct(nodes) && x in nodes && n in edges
    ensures x !in Lists.RemoveFirst(nodes, x)
    ensures x in edges ==> Sweep(edges, Lists.RemoveFirst(nodes, x), x)[x] == edges[x]
    ensures n in nodes && n != x ==> Sweep(edges, Lists.RemoveFirst(nodes, x), x)[n] == Unlink(edges[n], x)
  {
    var rest := Lists.RemoveFirst(nodes, x);
    RemoveDistinct(nodes, x, n);
    if x in edges {
      SweepSkips(edges, rest, x, x);
    }
    if n in nodes && n != x {
      SweepOnce(edges, rest, x, n);
    }
  }
}
