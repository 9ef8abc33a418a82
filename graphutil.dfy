/**
 * Traversals of a directed acyclic graph given by its `Destinations`
 * (`IDAGNode`): `BFS`, `DFS`, `CanReach` and `GetAccessibleNodes`, and the
 * tree `NTree`, one such graph, with `AddChild`, `Remove`, `PreOrder` and
 * `PostOrder`.
 *
 * None of the traversals keeps a visited set, so a node is met once per path
 * that leads to it: a traversal of a DAG is a traversal of the tree obtained by
 * unfolding it (`Unfold`).  That tree is a rose tree, `RTree`, which also
 * serves as the value of an `NTree`.
 */
module DagTraversal {
  import opened Wrappers
  import Lists

  /** A node and its subtrees, in insertion order. */
  datatype RTree<L> = RNode(item: L, kids: seq<RTree<L>>)

  /** Items in pre-order: a node before its subtrees, children in order. */
  function PreOrder<L>(t: RTree<L>): (r: seq<L>)
    ensures |r| > 0 && r[0] == t.item
  {
    [t.item] + PreOrderAll(t.kids)
  }

  function PreOrderAll<L>(ts: seq<RTree<L>>): seq<L>
  {
    if ts == [] then [] else PreOrder(ts[0]) + PreOrderAll(ts[1..])
  }

  /** Items in post-order: a node after its subtrees, children in order. */
  function PostOrder<L>(t: RTree<L>): (r: seq<L>)
    ensures |r| > 0 && r[|r| - 1] == t.item
  {
    PostOrderAll(t.kids) + [t.item]
  }

  function PostOrderAll<L>(ts: seq<RTree<L>>): seq<L>
  {
    if ts == [] then [] else PostOrder(ts[0]) + PostOrderAll(ts[1..])
  }

  lemma {:induction false} PreOrderAllAppend<L>(a: seq<RTree<L>>, b: seq<RTree<L>>)
    ensures PreOrderAll(a + b) == PreOrderAll(a) + PreOrderAll(b)
  {
    if a == [] {
      assert a + b == b;
    } else {
      calc {
        PreOrderAll(a + b);
        { assert (a + b)[0] == a[0] && (a + b)[1..] == a[1..] + b; }
        PreOrder(a[0]) + PreOrderAll(a[1..] + b);
        { PreOrderAllAppend(a[1..], b); }
        PreOrder(a[0]) + (PreOrderAll(a[1..]) + PreOrderAll(b));
        PreOrderAll(a) + PreOrderAll(b);
      }
    }
  }

  /** Pre-order and post-order visit the same nodes, each once. */
  lemma {:induction false} SameVisits<L>(t: RTree<L>)
    ensures multiset(PreOrder(t)) == multiset(PostOrder(t))
    decreases t, 1
  {
    SameVisitsAll(t.kids);
  }

  lemma {:induction false} SameVisitsAll<L>(ts: seq<RTree<L>>)
    ensures multiset(PreOrderAll(ts)) == multiset(PostOrderAll(ts))
    decreases ts, 0
  {
    if ts != [] {
      SameVisits(ts[0]);
      SameVisitsAll(ts[1..]);
    }
  }

  function Reverse<X>(s: seq<X>): (r: seq<X>)
    ensures |r| == |s|
  {
    seq(|s|, i requires 0 <= i < |s| => s[|s| - 1 - i])
  }

  lemma ReverseSnoc<X>(s: seq<X>, x: X)
    ensures Reverse(s + [x]) == [x] + Reverse(s)
  {
  }

  lemma {:induction false} PreOrderAllReverse<L>(ts: seq<RTree<L>>)
    ensures multiset(PreOrderAll(Reverse(ts))) == multiset(PreOrderAll(ts))
  {
    if ts != [] {
      assert Reverse(ts) == Reverse(ts[1..]) + [ts[0]];
      PreOrderAllAppend(Reverse(ts[1..]), [ts[0]]);
      assert [ts[0]][1..] == [];
      PreOrderAllReverse(ts[1..]);
    }
  }

  /** Dequeueing the front tree and enqueueing its subtrees leaves one item
   *  fewer to come. */
  lemma QueueStep<L>(q: seq<RTree<L>>)
    requires q != []
    ensures multiset(PreOrderAll(q[1..] + q[0].kids)) + multiset{q[0].item} == multiset(PreOrderAll(q))
  {
    PreOrderAllAppend(q[1..], q[0].kids);
  }

  /** Popping the top tree and pushing its subtrees one by one leaves one item
   *  fewer to come. */
  lemma StackStep<L>(s: seq<RTree<L>>)
    requires s != []
    ensures multiset(PreOrderAll(Reverse(s[0].kids) + s[1..])) + multiset{s[0].item} == multiset(PreOrderAll(s))
  {
    PreOrderAllAppend(Reverse(s[0].kids), s[1..]);
    PreOrderAllReverse(s[0].kids);
  }

  /** Items in the order a FIFO queue holding `q` (front first) yields them,
   *  each dequeued node enqueueing its subtrees. */
  function FifoOrder<L>(q: seq<RTree<L>>): (r: seq<L>)
    ensures q != [] ==> |r| > 0 && r[0] == q[0].item
    decreases |PreOrderAll(q)|
  {
    if q == [] then []
    else
      QueueStep(q);
      assert |PreOrderAll(q[1..] + q[0].kids)| < |PreOrderAll(q)| by {
        var a, b := multiset(PreOrderAll(q[1..] + q[0].kids)), multiset(PreOrderAll(q));
        assert |a| + 1 == |b|;
      }
      [q[0].item] + FifoOrder(q[1..] + q[0].kids)
  }

  /** Items in the order a LIFO stack holding `s` (top first) yields them, each
   *  popped node pushing its subtrees in order, so that the last is on top. */
  function LifoOrder<L>(s: seq<RTree<L>>): (r: seq<L>)
    ensures s != [] ==> |r| > 0 && r[0] == s[0].item
    decreases |PreOrderAll(s)|
  {
    if s == [] then []
    else
      StackStep(s);
      assert |PreOrderAll(Reverse(s[0].kids) + s[1..])| < |PreOrderAll(s)| by {
        var a, b := multiset(PreOrderAll(Reverse(s[0].kids) + s[1..])), multiset(PreOrderAll(s));
        assert |a| + 1 == |b|;
      }
      [s[0].item] + LifoOrder(Reverse(s[0].kids) + s[1..])
  }

  /** The queue order yields every item of the forest, as often as it occurs. */
  lemma {:induction false} FifoVisitsAll<L>(q: seq<RTree<L>>)
    ensures multiset(FifoOrder(q)) == multiset(PreOrderAll(q))
    decreases |PreOrderAll(q)|
  {
    if q != [] {
      QueueStep(q);
      var a, b := multiset(PreOrderAll(q[1..] + q[0].kids)), multiset(PreOrderAll(q));
      assert |a| + 1 == |b|;
      FifoVisitsAll(q[1..] + q[0].kids);
    }
  }

  /** So does the stack order. */
  lemma {:induction false} LifoVisitsAll<L>(s: seq<RTree<L>>)
    ensures multiset(LifoOrder(s)) == multiset(PreOrderAll(s))
    decreases |PreOrderAll(s)|
  {
    if s != [] {
      StackStep(s);
      var a, b := multiset(PreOrderAll(Reverse(s[0].kids) + s[1..])), multiset(PreOrderAll(s));
      assert |a| + 1 == |b|;
      LifoVisitsAll(Reverse(s[0].kids) + s[1..]);
    }
  }

  /** The first element that `matches` accepts. */
  function FirstMatch<X>(s: seq<X>, matches: X -> bool): (r: Option<X>)
    ensures r.None? <==> forall i :: 0 <= i < |s| ==> !matches(s[i])
    ensures r.Some? ==> exists i :: 0 <= i < |s| && s[i] == r.value && matches(s[i]) &&
                         forall k :: 0 <= k < i ==> !matches(s[k])
  {
    if s == [] then None
    else if matches(s[0]) then Some(s[0])
    else
      var r := FirstMatch(s[1..], matches);
      assert forall i :: 1 <= i < |s| ==> s[i] == s[1..][i - 1];
      r
  }

  // ---- Graphs given by their destinations ----

  /** `Destinations` of every node, and a rank that every edge decreases: the
   *  graph is acyclic. */
  datatype Dag<!N> = Dag(dests: N -> seq<N>, rank: N -> nat)

  ghost predicate Acyclic<N(!new)>(g: Dag<N>)
  {
    forall n, i :: 0 <= i < |g.dests(n)| ==> g.rank(g.dests(n)[i]) < g.rank(n)
  }

  /** The tree of all paths leaving n. */
  ghost function Unfold<N(!new)>(g: Dag<N>, n: N): RTree<N>
    requires Acyclic(g)
    decreases g.rank(n)
  {
    var ds := g.dests(n);
    RNode(n, seq(|ds|, i requires 0 <= i < |ds| => Unfold(g, ds[i])))
  }

  ghost function UnfoldAll<N(!new)>(g: Dag<N>, ns: seq<N>): (r: seq<RTree<N>>)
    requires Acyclic(g)
    ensures |r| == |ns|
  {
    seq(|ns|, i requires 0 <= i < |ns| => Unfold(g, ns[i]))
  }

  lemma UnfoldKids<N(!new)>(g: Dag<N>, n: N)
    requires Acyclic(g)
    ensures Unfold(g, n).kids == UnfoldAll(g, g.dests(n))
  {
  }

  /** The number of paths from o to x; an independent count, by recursion on
   *  the destinations. */
  ghost function Paths<N(!new)>(g: Dag<N>, o: N, x: N): nat
    requires Acyclic(g)
    decreases g.rank(o), 1, 0
  {
    (if o == x then 1 else 0) + PathsFrom(g, g.dests(o), x, g.rank(o))
  }

  ghost function PathsFrom<N(!new)>(g: Dag<N>, ns: seq<N>, x: N, bound: nat): nat
    requires Acyclic(g)
    requires forall i :: 0 <= i < |ns| ==> g.rank(ns[i]) < bound
    decreases bound, 0, |ns|
  {
    if ns == [] then 0 else Paths(g, ns[0], x) + PathsFrom(g, ns[1..], x, bound)
  }

  /** The unfolded tree holds x once per path from o to x. */
  lemma {:induction false} UnfoldCountsPaths<N(!new)>(g: Dag<N>, o: N, x: N)
    requires Acyclic(g)
    ensures multiset(PreOrder(Unfold(g, o)))[x] == Paths(g, o, x)
    decreases g.rank(o), 1, 0
  {
    UnfoldKids(g, o);
    UnfoldAllCountsPaths(g, g.dests(o), x, g.rank(o));
  }

  lemma {:induction false} UnfoldAllCountsPaths<N(!new)>(g: Dag<N>, ns: seq<N>, x: N, bound: nat)
    requires Acyclic(g)
    requires forall i :: 0 <= i < |ns| ==> g.rank(ns[i]) < bound
    ensures multiset(PreOrderAll(UnfoldAll(g, ns)))[x] == PathsFrom(g, ns, x, bound)
    decreases bound, 0, |ns|
  {
    if ns != [] {
      UnfoldCountsPaths(g, ns[0], x);
      UnfoldAllCountsPaths(g, ns[1..], x, bound);
      assert UnfoldAll(g, ns)[1..] == UnfoldAll(g, ns[1..]);
    }
  }

  lemma FirstMatchCons<X>(x: X, s: seq<X>, matches: X -> bool)
    ensures FirstMatch([x] + s, matches) == if matches(x) then Some(x) else FirstMatch(s, matches)
  {
    assert ([x] + s)[1..] == s;
  }

  /** One turn of the queue loop: the front node is yielded, and what is left to
   *  come is the rest of the queue followed by the node's destinations. */
  lemma FifoTurn<N(!new)>(g: Dag<N>, queue: seq<N>)
    requires Acyclic(g) && queue != []
    ensures FifoOrder(UnfoldAll(g, queue)) == [queue[0]] + FifoOrder(UnfoldAll(g, queue[1..] + g.dests(queue[0])))
    ensures |PreOrderAll(UnfoldAll(g, queue[1..] + g.dests(queue[0])))| < |PreOrderAll(UnfoldAll(g, queue))|
  {
    var q := UnfoldAll(g, queue);
    var next := q[1..] + q[0].kids;
    assert UnfoldAll(g, queue[1..] + g.dests(queue[0])) == next by {
      UnfoldKids(g, queue[0]);
    }
    assert FifoOrder(q) == [queue[0]] + FifoOrder(next);
    assert |PreOrderAll(next)| < |PreOrderAll(q)| by {
      QueueStep(q);
      var a, b := multiset(PreOrderAll(next)), multiset(PreOrderAll(q));
      assert |a| + 1 == |b|;
    }
  }

  /** One turn of the stack loop: the top node is yielded, then its
   *  destinations are pushed in order, the last ending on top. */
  lemma LifoTurn<N(!new)>(g: Dag<N>, stack: seq<N>)
    requires Acyclic(g) && stack != []
    ensures LifoOrder(UnfoldAll(g, stack)) == [stack[0]] + LifoOrder(UnfoldAll(g, Reverse(g.dests(stack[0])) + stack[1..]))
    ensures |PreOrderAll(UnfoldAll(g, Reverse(g.dests(stack[0])) + stack[1..]))| < |PreOrderAll(UnfoldAll(g, stack))|
  {
    var s := UnfoldAll(g, stack);
    var next := Reverse(s[0].kids) + s[1..];
    assert UnfoldAll(g, Reverse(g.dests(stack[0])) + stack[1..]) == next by {
      UnfoldKids(g, stack[0]);
    }
    assert LifoOrder(s) == [stack[0]] + LifoOrder(next);
    assert |PreOrderAll(next)| < |PreOrderAll(s)| by {
      StackStep(s);
      var a, b := multiset(PreOrderAll(next)), multiset(PreOrderAll(s));
      assert |a| + 1 == |b|;
    }
  }

  /** `foreach (var dest in node.Destinations) queue.Enqueue(dest)`. */
  method EnqueueEach<X>(queue: seq<X>, ds: seq<X>) returns (r: seq<X>)
    ensures r == queue + ds
  {
    r := queue;
    var j := 0;
    while j < |ds|
      invariant 0 <= j <= |ds|
      invariant r == queue + ds[..j]
    {
      r := r + [ds[j]];
      assert ds[..j + 1] == ds[..j] + [ds[j]];
      j := j + 1;
    }
    assert ds[..j] == ds;
  }

  /** `foreach (var dest in node.Destinations) stack.Push(dest)`, the top of the
   *  stack first: the last destination ends on top. */
  method PushEach<X>(stack: seq<X>, ds: seq<X>) returns (r: seq<X>)
    ensures r == Reverse(ds) + stack
  {
    r := stack;
    var j := 0;
    while j < |ds|
      invariant 0 <= j <= |ds|
      invariant r == Reverse(ds[..j]) + stack
    {
      r := [ds[j]] + r;
      assert ds[..j + 1] == ds[..j] + [ds[j]];
      ReverseSnoc(ds[..j], ds[j]);
      j := j + 1;
    }
    assert ds[..j] == ds;
  }

  /** `BFS(origin, match)`: the first node in queue order that matches, or none
   *  (null). */
  method BFS<N(!new)>(g: Dag<N>, origin: N, matches: N -> bool) returns (r: Option<N>)
    requires Acyclic(g)
    ensures r == FirstMatch(FifoOrder([Unfold(g, origin)]), matches)
    ensures matches(origin) ==> r == Some(origin)
  {
    var queue := [origin];
    ghost var target := FirstMatch(FifoOrder([Unfold(g, origin)]), matches);
    assert UnfoldAll(g, queue) == [Unfold(g, origin)];
    while |queue| > 0
      invariant FirstMatch(FifoOrder(UnfoldAll(g, queue)), matches) == target
      decreases |PreOrderAll(UnfoldAll(g, queue))|
    {
      var node := queue[0];
      FifoTurn(g, queue);
      FirstMatchCons(node, FifoOrder(UnfoldAll(g, queue[1..] + g.dests(node))), matches);
      queue := queue[1..];
      if matches(node) {
        return Some(node);
      }
      queue := EnqueueEach(queue, g.dests(node));
    }
    r := None;
  }

  /** `DFS(origin, match)`: the same search in stack order. */
  method DFS<N(!new)>(g: Dag<N>, origin: N, matches: N -> bool) returns (r: Option<N>)
    requires Acyclic(g)
    ensures r == FirstMatch(LifoOrder([Unfold(g, origin)]), matches)
    ensures matches(origin) ==> r == Some(origin)
  {
    var stack := [origin];
    ghost var target := FirstMatch(LifoOrder([Unfold(g, origin)]), matches);
    assert UnfoldAll(g, stack) == [Unfold(g, origin)];
    while |stack| > 0
      invariant FirstMatch(LifoOrder(UnfoldAll(g, stack)), matches) == target
      decreases |PreOrderAll(UnfoldAll(g, stack))|
    {
      var node := stack[0];
      LifoTurn(g, stack);
      FirstMatchCons(node, LifoOrder(UnfoldAll(g, Reverse(g.dests(node)) + stack[1..])), matches);
      stack := stack[1..];
      if matches(node) {
        return Some(node);
      }
      stack := PushEach(stack, g.dests(node));
    }
    r := None;
  }

  lemma SingletonForest<L>(t: RTree<L>)
    ensures PreOrderAll([t]) == PreOrder(t)
  {
    assert [t][1..] == [];
  }

  /** `CanReach(origin, dest)`: a breadth-first search for dest. */
  method CanReach<N(==,!new)>(g: Dag<N>, origin: N, dest: N) returns (b: bool)
    requires Acyclic(g)
    ensures b <==> Paths(g, origin, dest) > 0
  {
    var found := BFS(g, origin, n => n == dest);
    b := found.Some?;
    ghost var order := FifoOrder([Unfold(g, origin)]);
    FifoVisitsAll([Unfold(g, origin)]);
    SingletonForest(Unfold(g, origin));
    UnfoldCountsPaths(g, origin, dest);
    assert b <==> dest in multiset(order);
  }

  /** `GetAccessibleNodes()`: the root, then every node below it in queue order,
   *  once per path that leads to it. */
  method GetAccessibleNodes<N(!new)>(g: Dag<N>, root: N) returns (nodes: seq<N>)
    requires Acyclic(g)
    ensures nodes == FifoOrder([Unfold(g, root)])
    ensures |nodes| > 0 && nodes[0] == root
  {
    var queue := [root];
    nodes := [];
    assert UnfoldAll(g, queue) == [Unfold(g, root)];
    while |queue| > 0
      invariant nodes + FifoOrder(UnfoldAll(g, queue)) == FifoOrder([Unfold(g, root)])
      decreases |PreOrderAll(UnfoldAll(g, queue))|
    {
      var node := queue[0];
      FifoTurn(g, queue);
      ghost var remaining := FifoOrder(UnfoldAll(g, queue[1..] + g.dests(node)));
      assert nodes + [node] + remaining == FifoOrder([Unfold(g, root)]);
      queue := queue[1..];
      queue := EnqueueEach(queue, g.dests(node));
      nodes := nodes + [node];
    }
  }

  /** A node is yielded by `GetAccessibleNodes` once per path from the root. */
  lemma AccessibleCountsPaths<N(!new)>(g: Dag<N>, root: N, x: N)
    requires Acyclic(g)
    ensures multiset(FifoOrder([Unfold(g, root)]))[x] == Paths(g, root, x)
  {
    FifoVisitsAll([Unfold(g, root)]);
    SingletonForest(Unfold(g, root));
    UnfoldCountsPaths(g, root, x);
  }

  lemma SameMembersSameVerdict<X>(a: seq<X>, b: seq<X>, matches: X -> bool)
    requires multiset(a) == multiset(b)
    ensures FirstMatch(a, matches).None? <==> FirstMatch(b, matches).None?
  {
    if FirstMatch(a, matches).Some? {
      var x := FirstMatch(a, matches).value;
      assert x in multiset(b);
    }
    if FirstMatch(b, matches).Some? {
      var x := FirstMatch(b, matches).value;
      assert x in multiset(a);
    }
  }

  /** Depth-first search meets the same nodes as breadth-first search, so the
   *  two agree on whether some node matches. */
  lemma SearchesAgree<N(!new)>(g: Dag<N>, origin: N, matches: N -> bool)
    requires Acyclic(g)
    ensures FirstMatch(FifoOrder([Unfold(g, origin)]), matches).None? <==>
            FirstMatch(LifoOrder([Unfold(g, origin)]), matches).None?
  {
    FifoVisitsAll([Unfold(g, origin)]);
    LifoVisitsAll([Unfold(g, origin)]);
    SameMembersSameVerdict(FifoOrder([Unfold(g, origin)]), LifoOrder([Unfold(g, origin)]), matches);
  }

  // ---- NTree ----

  lemma {:induction false} PostOrderAllAppend<L>(a: seq<RTree<L>>, b: seq<RTree<L>>)
    ensures PostOrderAll(a + b) == PostOrderAll(a) + PostOrderAll(b)
  {
    if a == [] {
      assert a + b == b;
    } else {
      var ab := a + b;
      assert ab[0] == a[0] && ab[1..] == a[1..] + b;
      assert PostOrderAll(ab) == PostOrder(a[0]) + PostOrderAll(a[1..] + b);
      PostOrderAllAppend(a[1..], b);
      assert PostOrderAll(a) == PostOrder(a[0]) + PostOrderAll(a[1..]);
    }
  }

  /** Pre-order is the node, then each child's pre-order as one block, the
   *  blocks in child order: every node comes before all its descendants. */
  lemma PreOrderBlock<L>(t: RTree<L>, i: nat)
    requires i < |t.kids|
    ensures PreOrder(t) == [t.item] + PreOrderAll(t.kids[..i]) + PreOrder(t.kids[i]) + PreOrderAll(t.kids[i + 1..])
  {
    var k := t.kids;
    var rest := k[i..];
    assert k == k[..i] + rest;
    PreOrderAllAppend(k[..i], rest);
    assert rest[0] == k[i] && rest[1..] == k[i + 1..];
    assert PreOrderAll(rest) == PreOrder(k[i]) + PreOrderAll(k[i + 1..]);
  }

  /** Post-order is each child's post-order as one block, in child order, then
   *  the node: every node comes after all its descendants. */
  lemma PostOrderBlock<L>(t: RTree<L>, i: nat)
    requires i < |t.kids|
    ensures PostOrder(t) == PostOrderAll(t.kids[..i]) + PostOrder(t.kids[i]) + PostOrderAll(t.kids[i + 1..]) + [t.item]
  {
    var k := t.kids;
    var rest := k[i..];
    assert k == k[..i] + rest;
    PostOrderAllAppend(k[..i], rest);
    assert rest[0] == k[i] && rest[1..] == k[i + 1..];
    assert PostOrderAll(rest) == PostOrder(k[i]) + PostOrderAll(k[i + 1..]);
  }

  /** `NTree<T>`: a value, the list of children and the parent link.  `Repr`
   *  is the set of nodes of the subtree rooted here; `Valid` says the
   *  children links form a tree (no node is its own descendant). */
  class NTree<T> {
    var Parent: NTree?<T>
    var Value: T
    var children: seq<NTree<T>>
    ghost var Repr: set<object>

    ghost predicate Valid()
      reads this, Repr
      decreases Repr
    {
      this in Repr &&
      forall c :: c in children ==>
        c in Repr && c.Repr <= Repr && this !in c.Repr && c.Valid()
    }

    /** The subtree rooted here, as a tree of its nodes. */
    ghost function Shape(): (r: RTree<NTree<T>>)
      requires Valid()
      reads this, Repr
      ensures r.item == this && |r.kids| == |children|
      decreases Repr
    {
      RNode(this, seq(|children|, i requires 0 <= i < |children| && Valid() reads this, Repr => children[i].Shape()))
    }

    lemma KidShape(i: nat)
      requires Valid() && i < |children|
      ensures children[i].Valid() && Shape().kids[i] == children[i].Shape()
    {
    }

    /** `new NTree(data)`: a root without children. */
    constructor (data: T)
      ensures Value == data && Parent == null && children == []
      ensures Valid() && Repr == {this}
    {
      Value := data;
      Parent := null;
      children := [];
      Repr := {this};
    }

    /** The protected constructor that records the parent. */
    constructor WithParent(data: T, parent: NTree<T>)
      ensures Value == data && Parent == parent && children == []
      ensures Valid() && Repr == {this}
    {
      Value := data;
      Parent := parent;
      children := [];
      Repr := {this};
    }

    function Count(): nat
      reads this
    {
      |children|
    }

    predicate IsLeaf()
      reads this
    {
      |children| == 0
    }

    /** `AddChild(data)`: appends a new child whose parent is this node. */
    method AddChild(data: T) returns (child: NTree<T>)
      requires Valid()
      modifies this
      ensures fresh(child)
      ensures child.Value == data && child.Parent == this && child.children == []
      ensures children == old(children) + [child]
      ensures Count() == old(Count()) + 1
      ensures Value == old(Value) && Parent == old(Parent)
      ensures Repr == old(Repr) + {child}
      ensures Valid() && Shape() == RNode(this, old(Shape()).kids + [RNode(child, [])])
    {
      ghost var before := Shape();
      child := new NTree.WithParent(data, this);
      children := children + [child];
      Repr := Repr + {child};
      assert child.Shape() == RNode(child, []);
      assert Valid();
      forall k | 0 <= k < |before.kids|
        ensures Shape().kids[k] == before.kids[k]
      {
        KidShape(k);
      }
      KidShape(|children| - 1);
    }

    /** `Remove()`: takes this node out of its parent's children; its own
     *  `Parent` link stays, and so does the parent's footprint. */
    method Remove()
      modifies Parent
      ensures Parent == old(Parent)
      ensures Parent != null ==> Parent.children == Lists.RemoveFirst(old(Parent.children), this)
      ensures Parent != null && this in old(Parent.children) ==> |Parent.children| == |old(Parent.children)| - 1
      ensures Parent != null ==> Parent.Value == old(Parent.Value) && Parent.Parent == old(Parent.Parent) && Parent.Repr == old(Parent.Repr)
      ensures Parent != null && old(Parent.Valid()) ==> Parent.Valid()
      ensures Parent != null && old(Parent.Valid()) && this !in old(Parent.children) ==> Parent.Shape() == old(Parent.Shape())
      ensures Parent != null && old(Parent.Valid()) && this in old(Parent.children) ==>
        Parent.Shape() == RNode(Parent, Lists.RemoveAt(old(Parent.Shape()).kids, Lists.IndexOf(old(Parent.children), this)))
    {
      if Parent != null {
        var p := Parent;
        ghost var wasValid := p.Valid();
        ghost var kids := p.children;
        ghost var before := if wasValid then p.Shape() else RNode(p, []);
        p.children := Lists.RemoveFirst(p.children, this);
        if wasValid {
          assert p.Valid();
          ghost var i := Lists.IndexOf(kids, this);
          if i == -1 {
            forall k | 0 <= k < |kids|
              ensures p.Shape().kids[k] == before.kids[k]
            {
              p.KidShape(k);
            }
          } else {
            forall k | 0 <= k < |p.children|
              ensures p.Shape().kids[k] == Lists.RemoveAt(before.kids, i)[k]
            {
              p.KidShape(k);
            }
          }
        }
      }
    }

    /** `PreOrder(visit)`: the nodes the visitor is called with, in order. */
    method VisitPreOrder() returns (visited: seq<NTree<T>>)
      requires Valid()
      ensures visited == PreOrder(Shape())
      decreases Repr
    {
      visited := [this];
      var i := 0;
      while i < |children|
        invariant 0 <= i <= |children|
        invariant visited == [this] + PreOrderAll(Shape().kids[..i])
      {
        KidShape(i);
        var sub := children[i].VisitPreOrder();
        PreOrderAllAppend(Shape().kids[..i], [Shape().kids[i]]);
        assert Shape().kids[..i + 1] == Shape().kids[..i] + [Shape().kids[i]];
        visited := visited + sub;
        i := i + 1;
      }
      assert Shape().kids[..i] == Shape().kids;
    }

    /** `PostOrder(visit)`: the nodes the visitor is called with, in order. */
    method VisitPostOrder() returns (visited: seq<NTree<T>>)
      requires Valid()
      ensures visited == PostOrder(Shape())
      decreases Repr
    {
      visited := [];
      var i := 0;
      while i < |children|
        invariant 0 <= i <= |children|
        invariant visited == PostOrderAll(Shape().kids[..i])
      {
        KidShape(i);
        var sub := children[i].VisitPostOrder();
        PostOrderAllAppend(Shape().kids[..i], [Shape().kids[i]]);
        assert Shape().kids[..i + 1] == Shape().kids[..i] + [Shape().kids[i]];
        visited := visited + sub;
        i := i + 1;
      }
      assert Shape().kids[..i] == Shape().kids;
      visited := visited + [this];
    }
  }

  /** Both traversals of an `NTree` call the visitor on the same nodes, each
   *  as often as the other; pre-order starts at the node, post-order ends
   *  there. */
  lemma VisitsAgree<T>(t: NTree<T>)
    requires t.Valid()
    ensures multiset(PreOrder(t.Shape())) == multiset(PostOrder(t.Shape()))
    ensures PreOrder(t.Shape())[0] == t && PostOrder(t.Shape())[|PostOrder(t.Shape())| - 1] == t
  {
    SameVisits(t.Shape());
  }
}
