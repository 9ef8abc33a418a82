/**
 * `BTNode<T>`: a binary tree node with a value, a parent link and a
 * two-element child array, and its three traversals.
 *
 * The node itself (its indexer, `Left`/`Right`, `IsLeaf` and the constructor)
 * is the class `BTNode`.  The traversals walk the tree below a node; they are
 * modelled on the value tree `Tree`, which is what they see of an acyclic,
 * unshared node structure.
 */
module BinaryTrees {
  import opened Wrappers

  class BTNode<T> {
    var Value: T
    var Parent: BTNode?<T>
    const children: array<BTNode?<T>>

    ghost predicate Valid()
      reads this
    {
      children.Length == 2
    }

    /** `new BTNode(value, left, right)`: the children are stored, but their
     *  `Parent` is left as it was. */
    constructor (value: T, left: BTNode?<T>, right: BTNode?<T>)
      ensures Valid() && fresh(children)
      ensures Value == value && Parent == null
      ensures children[0] == left && children[1] == right
    {
      Value := value;
      Parent := null;
      children := new BTNode?<T>[2] [left, right];
    }

    /** The indexer's getter: `_children[i]`, out of range for any i but 0 and 1. */
    function Get(i: int): (r: Result<BTNode?<T>>)
      requires Valid()
      reads this, children
      ensures r.Success? <==> i == 0 || i == 1
      ensures r.Success? ==> r.value == children[i]
      ensures r.Failure? ==> r.error == IndexOutOfRangeException
    {
      if 0 <= i < children.Length then Success(children[i]) else Failure(IndexOutOfRangeException)
    }

    function Left(): (r: BTNode?<T>)
      requires Valid()
      reads this, children
      ensures Get(0) == Success(r)
    {
      children[0]
    }

    function Right(): (r: BTNode?<T>)
      requires Valid()
      reads this, children
      ensures Get(1) == Success(r)
    {
      children[1]
    }

    predicate IsLeaf()
      requires Valid()
      reads this, children
    {
      children[0] == null && children[1] == null
    }

    /** The indexer's setter: stores the child, then makes this node its parent.
     *  A null child is stored before the parent assignment throws. */
    method Set(i: int, value: BTNode?<T>) returns (o: Outcome)
      requires Valid()
      modifies children, value
      ensures Valid()
      ensures !(i == 0 || i == 1) ==> o == Fail(IndexOutOfRangeException) && unchanged(children) && (value != null ==> unchanged(value))
      ensures (i == 0 || i == 1) ==> children[i] == value && children[1 - i] == old(children[1 - i])
      ensures (i == 0 || i == 1) && value == null ==> o == Fail(NullReferenceException)
      ensures (i == 0 || i == 1) && value != null ==> o == Pass && value.Parent == this && value.Value == old(value.Value)
    {
      if !(0 <= i < children.Length) {
        return Fail(IndexOutOfRangeException);
      }
      children[i] := value;
      if value == null {
        return Fail(NullReferenceException);
      }
      value.Parent := this;
      o := Pass;
    }

    /** The `Left` setter. */
    method SetLeft(value: BTNode?<T>) returns (o: Outcome)
      requires Valid()
      modifies children, value
      ensures Valid()
      ensures children[0] == value && children[1] == old(children[1])
      ensures o == Pass <==> value != null
      ensures value != null ==> value.Parent == this
    {
      o := Set(0, value);
    }

    /** The `Right` setter. */
    method SetRight(value: BTNode?<T>) returns (o: Outcome)
      requires Valid()
      modifies children, value
      ensures Valid()
      ensures children[1] == value && children[0] == old(children[0])
      ensures o == Pass <==> value != null
      ensures value != null ==> value.Parent == this
    {
      o := Set(1, value);
    }
  }

  /** A null child is `Nil`; a node is `Node` with its value and children. */
  datatype Tree<T> = Nil | Node(value: T, left: Tree<T>, right: Tree<T>)

  function Size<T>(t: Tree<T>): nat
  {
    if t.Nil? then 0 else 1 + Size(t.left) + Size(t.right)
  }

  /** The values stored in a tree, with multiplicity. */
  ghost function Contents<T>(t: Tree<T>): multiset<T>
  {
    if t.Nil? then multiset{} else multiset{t.value} + Contents(t.left) + Contents(t.right)
  }

  /** `Left == null && Right == null`. */
  predicate IsLeaf<T>(t: Tree<T>)
  {
    t.Node? && t.left.Nil? && t.right.Nil?
  }

  /** Nodes whose two children are both present. */
  function Branching<T>(t: Tree<T>): nat
  {
    if t.Nil? then 0
    else (if t.left.Node? && t.right.Node? then 1 else 0) + Branching(t.left) + Branching(t.right)
  }

  predicate AllNodes<T>(s: seq<Tree<T>>)
  {
    forall i :: 0 <= i < |s| ==> s[i].Node?
  }

  /** The order `DepthFirst` yields: a node, then the whole subtree on its right,
   *  then the one on its left (the right child is pushed last, so it is popped
   *  first). */
  function PreorderRL<T>(t: Tree<T>): (r: seq<Tree<T>>)
    ensures |r| == Size(t)
    ensures t.Node? ==> r[0] == t
  {
    if t.Nil? then [] else [t] + PreorderRL(t.right) + PreorderRL(t.left)
  }

  /** Only nodes are yielded, never a missing child. */
  lemma {:induction false} PreorderNodes<T>(t: Tree<T>)
    ensures AllNodes(PreorderRL(t))
  {
    if t.Node? {
      PreorderNodes(t.left);
      PreorderNodes(t.right);
      assert AllNodes([t] + PreorderRL(t.right));
    }
  }

  /** What is still to come from a stack whose top is its first element. */
  function StackOrder<T>(todo: seq<Tree<T>>): seq<Tree<T>>
  {
    if todo == [] then [] else PreorderRL(todo[0]) + StackOrder(todo[1..])
  }

  lemma StackPush<T>(todo: seq<Tree<T>>, t: Tree<T>)
    ensures StackOrder([t] + todo) == PreorderRL(t) + StackOrder(todo)
  {
    assert ([t] + todo)[1..] == todo;
  }

  /** The children `DepthFirst` pushes after popping a node, top first: the
   *  right child is pushed last, so it is on top. */
  function Pushed<T>(t: Tree<T>): (r: seq<Tree<T>>)
    requires t.Node?
    ensures AllNodes(r)
  {
    (if t.right.Node? then [t.right] else []) + (if t.left.Node? then [t.left] else [])
  }

  /** The stack order of two stacked sequences is the order of the upper one,
   *  then that of the lower one. */
  lemma {:induction false} StackAppend<T>(upper: seq<Tree<T>>, lower: seq<Tree<T>>)
    ensures StackOrder(upper + lower) == StackOrder(upper) + StackOrder(lower)
    decreases |upper|
  {
    if upper == [] {
      assert upper + lower == lower;
    } else {
      assert (upper + lower)[1..] == upper[1..] + lower;
      StackAppend(upper[1..], lower);
    }
  }

  /** The pushed children yield the right subtree, then the left one. */
  lemma PushedChildren<T>(t: Tree<T>)
    requires t.Node?
    ensures StackOrder(Pushed(t)) == PreorderRL(t.right) + PreorderRL(t.left)
  {
    var l := if t.left.Node? then [t.left] else [];
    StackPush([], t.left);
    assert StackOrder(l) == PreorderRL(t.left);
    if t.right.Node? {
      StackPush(l, t.right);
    }
  }

  lemma PushedOrder<T>(rest: seq<Tree<T>>, t: Tree<T>)
    requires t.Node?
    ensures StackOrder(Pushed(t) + rest) == PreorderRL(t.right) + PreorderRL(t.left) + StackOrder(rest)
  {
    StackAppend(Pushed(t), rest);
    PushedChildren(t);
  }

  /** Popping a node and pushing its children yields the node, then the rest of
   *  what the stack held. */
  lemma StackStep<T>(rest: seq<Tree<T>>, t: Tree<T>)
    requires t.Node?
    ensures StackOrder([t] + rest) == [t] + StackOrder(Pushed(t) + rest)
  {
    var R, L, S := PreorderRL(t.right), PreorderRL(t.left), StackOrder(rest);
    calc {
      StackOrder([t] + rest);
      { StackPush(rest, t); }
      PreorderRL(t) + S;
      [t] + R + L + S;
      [t] + (R + L + S);
      { PushedOrder(rest, t); }
      [t] + StackOrder(Pushed(t) + rest);
    }
  }

  /** One turn of `DepthFirst`: popping the top node and pushing its children
   *  keeps the visited nodes followed by the stack order equal to the whole
   *  pre-order. */
  lemma DepthStep<T>(root: Tree<T>, visited: seq<Tree<T>>, todo: seq<Tree<T>>)
    requires |todo| > 0 && AllNodes(todo) && visited + StackOrder(todo) == PreorderRL(root)
    ensures AllNodes(Pushed(todo[0]) + todo[1..])
    ensures visited + [todo[0]] + StackOrder(Pushed(todo[0]) + todo[1..]) == PreorderRL(root)
    ensures |visited| < Size(root)
  {
    var curr, rest := todo[0], todo[1..];
    assert todo == [curr] + rest;
    StackStep(rest, curr);
    PushedNodes(todo);
  }

  lemma PushedNodes<T>(todo: seq<Tree<T>>)
    requires |todo| > 0 && AllNodes(todo)
    ensures AllNodes(Pushed(todo[0]) + todo[1..])
  {
    var p, rest := Pushed(todo[0]), todo[1..];
    assert forall i :: 0 <= i < |p + rest| ==> (p + rest)[i] == if i < |p| then p[i] else rest[i - |p|];
  }

  /** `DepthFirst()` from a node, with the source's stack. */
  method DepthFirst<T>(root: Tree<T>) returns (visited: seq<Tree<T>>)
    requires root.Node?
    ensures visited == PreorderRL(root)
  {
    var todo := [root];
    visited := [];
    StackPush([], root);
    while |todo| > 0
      invariant AllNodes(todo)
      invariant visited + StackOrder(todo) == PreorderRL(root)
      decreases Size(root) - |visited|
    {
      DepthStep(root, visited, todo);
      var curr := todo[0];
      var rest := todo[1..];
      todo := rest;
      visited := visited + [curr];
      if curr.left.Node? {
        todo := [curr.left] + todo;
      }
      if curr.right.Node? {
        todo := [curr.right] + todo;
      }
      assert todo == Pushed(curr) + rest;
    }
  }

  /** The values of a sequence of nodes, in order (a missing child has none). */
  function ValuesOf<T>(s: seq<Tree<T>>): (r: seq<T>)
    ensures AllNodes(s) ==> |r| == |s|
    ensures AllNodes(s) ==> forall i :: 0 <= i < |s| ==> r[i] == s[i].value
  {
    if s == [] then []
    else (if s[0].Node? then [s[0].value] else []) + ValuesOf(s[1..])
  }

  lemma {:induction false} ValuesOfAppend<T>(a: seq<Tree<T>>, b: seq<Tree<T>>)
    ensures ValuesOf(a + b) == ValuesOf(a) + ValuesOf(b)
  {
    if a == [] {
      assert a + b == b;
    } else {
      var h := if a[0].Node? then [a[0].value] else [];
      assert (a + b)[0] == a[0];
      assert (a + b)[1..] == a[1..] + b;
      assert ValuesOf(a + b) == h + ValuesOf(a[1..] + b);
      ValuesOfAppend(a[1..], b);
      assert ValuesOf(a) == h + ValuesOf(a[1..]);
    }
  }

  /** `GetEnumerator()`: the values in depth-first order. */
  function Enumerate<T>(root: Tree<T>): (r: seq<T>)
    requires root.Node?
    ensures |r| == Size(root) && r[0] == root.value
  {
    PreorderNodes(root);
    ValuesOf(PreorderRL(root))
  }

  /** The enumeration yields every stored value exactly once. */
  lemma {:induction false} EnumerateContents<T>(t: Tree<T>)
    ensures multiset(ValuesOf(PreorderRL(t))) == Contents(t)
  {
    if t.Node? {
      EnumerateContents(t.left);
      EnumerateContents(t.right);
      ValuesOfAppend([t], PreorderRL(t.right));
      ValuesOfAppend([t] + PreorderRL(t.right), PreorderRL(t.left));
    }
  }

  /** The leaves among a sequence of nodes, in order. */
  function LeavesOf<T>(s: seq<Tree<T>>): (r: seq<Tree<T>>)
    ensures |r| <= |s|
  {
    if s == [] then [] else (if IsLeaf(s[0]) then [s[0]] else []) + LeavesOf(s[1..])
  }

  /** `LeavesOf` keeps exactly the leaves. */
  lemma {:induction false} LeavesOfMembers<T>(s: seq<Tree<T>>)
    ensures forall x :: x in LeavesOf(s) ==> IsLeaf(x) && x in s
    ensures forall x :: x in s && IsLeaf(x) ==> x in LeavesOf(s)
  {
    if s != [] {
      LeavesOfMembers(s[1..]);
      assert s == [s[0]] + s[1..];
    }
  }

  lemma {:induction false} LeavesOfAppend<T>(a: seq<Tree<T>>, b: seq<Tree<T>>)
    ensures LeavesOf(a + b) == LeavesOf(a) + LeavesOf(b)
  {
    if a == [] {
      assert a + b == b;
    } else {
      var head := if IsLeaf(a[0]) then [a[0]] else [];
      calc {
        LeavesOf(a + b);
        { assert (a + b)[0] == a[0] && (a + b)[1..] == a[1..] + b; }
        head + LeavesOf(a[1..] + b);
        { LeavesOfAppend(a[1..], b); }
        head + (LeavesOf(a[1..]) + LeavesOf(b));
        head + LeavesOf(a[1..]) + LeavesOf(b);
        LeavesOf(a) + LeavesOf(b);
      }
    }
  }

  /** `GetAllLeaves()`: the depth-first nodes without children. */
  function GetAllLeaves<T>(root: Tree<T>): (r: seq<Tree<T>>)
    requires root.Node?
    ensures forall x :: x in r ==> IsLeaf(x) && x in PreorderRL(root)
    ensures forall x :: x in PreorderRL(root) && IsLeaf(x) ==> x in r
  {
    LeavesOfMembers(PreorderRL(root));
    LeavesOf(PreorderRL(root))
  }

  /** A binary tree has one more leaf than it has nodes with two children. */
  lemma {:induction false} LeafCount<T>(t: Tree<T>)
    requires t.Node?
    ensures |GetAllLeaves(t)| == Branching(t) + 1
  {
    LeavesOfAppend([t], PreorderRL(t.right));
    LeavesOfAppend([t] + PreorderRL(t.right), PreorderRL(t.left));
    assert LeavesOf([t]) == (if IsLeaf(t) then [t] else []);
    if t.left.Node? {
      LeafCount(t.left);
    }
    if t.right.Node? {
      LeafCount(t.right);
    }
  }

  // Breadth-first order.  A queue entry carries the depth of its node below the
  // root; the source's queue holds the nodes alone.

  function Weight<T>(q: seq<(Tree<T>, nat)>): nat
  {
    if q == [] then 0 else Size(q[0].0) + Weight(q[1..])
  }

  lemma {:induction false} WeightAppend<T>(a: seq<(Tree<T>, nat)>, b: seq<(Tree<T>, nat)>)
    ensures Weight(a + b) == Weight(a) + Weight(b)
  {
    if a == [] {
      assert a + b == b;
    } else {
      assert (a + b)[1..] == a[1..] + b;
      WeightAppend(a[1..], b);
    }
  }

  predicate NoNil<T>(q: seq<(Tree<T>, nat)>)
  {
    forall i :: 0 <= i < |q| ==> q[i].0.Node?
  }

  /** The children of a queue entry that `BreadthFirst` enqueues, left first. */
  function Kids<T>(e: (Tree<T>, nat)): (r: seq<(Tree<T>, nat)>)
    requires e.0.Node?
    ensures NoNil(r)
    ensures forall i :: 0 <= i < |r| ==> r[i].1 == e.1 + 1
    ensures Weight(r) + 1 == Size(e.0)
  {
    var l := if e.0.left.Node? then [(e.0.left, e.1 + 1)] else [];
    var r := if e.0.right.Node? then [(e.0.right, e.1 + 1)] else [];
    WeightAppend(l, r);
    l + r
  }

  /** What is still to come from a queue whose front is its first element. */
  function Bfs<T>(q: seq<(Tree<T>, nat)>): (r: seq<(Tree<T>, nat)>)
    requires NoNil(q)
    ensures |r| == Weight(q)
    decreases Weight(q)
  {
    if q == [] then []
    else
      WeightAppend(q[1..], Kids(q[0]));
      [q[0]] + Bfs(q[1..] + Kids(q[0]))
  }

  function Trees<T>(q: seq<(Tree<T>, nat)>): seq<Tree<T>>
  {
    seq(|q|, i requires 0 <= i < |q| => q[i].0)
  }

  /** The order `BreadthFirst` yields from a node, with each node's depth. */
  function LevelOrder<T>(root: Tree<T>): (r: seq<(Tree<T>, nat)>)
    requires root.Node?
    ensures |r| == Size(root) && r[0] == (root, 0)
  {
    var q := [(root, 0)];
    assert q[1..] == [];
    assert Weight(q) == Size(root);
    assert Bfs(q) == [q[0]] + Bfs(q[1..] + Kids(q[0]));
    Bfs(q)
  }

  lemma BfsStep<T>(q: seq<(Tree<T>, nat)>)
    requires NoNil(q) && q != []
    ensures NoNil(q[1..] + Kids(q[0]))
    ensures Trees(Bfs(q)) == [q[0].0] + Trees(Bfs(q[1..] + Kids(q[0])))
  {
    var next := q[1..] + Kids(q[0]);
    assert NoNil(next) by {
      forall i | 0 <= i < |next|
        ensures next[i].0.Node?
      {
        if i < |q| - 1 {
          assert next[i] == q[i + 1];
        }
      }
    }
    assert Bfs(q) == [q[0]] + Bfs(next);
    TreesCons(q[0], Bfs(next));
  }

  lemma TreesCons<T>(x: (Tree<T>, nat), s: seq<(Tree<T>, nat)>)
    ensures Trees([x] + s) == [x.0] + Trees(s)
  {
  }

  /** `tagged` pairs each node of `todo` with a depth. */
  ghost predicate Tags<T>(tagged: seq<(Tree<T>, nat)>, todo: seq<Tree<T>>)
  {
    |tagged| == |todo| && forall i :: 0 <= i < |todo| ==> tagged[i].0 == todo[i]
  }

  /** The children `BreadthFirst` enqueues after dequeueing a node: left, then
   *  right. */
  function Enqueued<T>(t: Tree<T>): seq<Tree<T>>
    requires t.Node?
  {
    (if t.left.Node? then [t.left] else []) + (if t.right.Node? then [t.right] else [])
  }

  lemma TagsStep<T>(tagged: seq<(Tree<T>, nat)>, todo: seq<Tree<T>>)
    requires Tags(tagged, todo) && todo != [] && todo[0].Node?
    ensures Tags(tagged[1..] + Kids(tagged[0]), todo[1..] + Enqueued(todo[0]))
  {
    var t := todo[0];
    var k, p := Kids(tagged[0]), Enqueued(t);
    assert |k| == |p| && forall i :: 0 <= i < |p| ==> k[i].0 == p[i];
  }

  /** `BreadthFirst()` from a node, with the source's queue; `tagged` is ghost
   *  bookkeeping beside it that pairs each queued node with its depth. */
  method BreadthFirst<T>(root: Tree<T>) returns (visited: seq<Tree<T>>)
    requires root.Node?
    ensures visited == Trees(LevelOrder(root))
    ensures visited == LevelsFrom(root, 0, Size(root))
  {
    LevelOrderByLevels(root);
    var todo := [root];
    ghost var tagged: seq<(Tree<T>, nat)> := [(root, 0)];
    visited := [];
    while |todo| > 0
      invariant Tags(tagged, todo)
      invariant NoNil(tagged)
      invariant visited + Trees(Bfs(tagged)) == Trees(LevelOrder(root))
      decreases Size(root) - |visited|
    {
      var curr := todo[0];
      var rest := todo[1..];
      ghost var next := tagged[1..] + Kids(tagged[0]);
      BfsStep(tagged);
      TagsStep(tagged, todo);
      assert visited + [curr] + Trees(Bfs(next)) == Trees(LevelOrder(root));
      todo := rest;
      visited := visited + [curr];
      if curr.left.Node? {
        todo := todo + [curr.left];
      }
      if curr.right.Node? {
        todo := todo + [curr.right];
      }
      assert todo == rest + Enqueued(curr);
      tagged := next;
    }
  }

  /** The nodes of the trees in a queue, with multiplicity. */
  ghost function Bag<T>(q: seq<(Tree<T>, nat)>): multiset<Tree<T>>
  {
    if q == [] then multiset{} else multiset(PreorderRL(q[0].0)) + Bag(q[1..])
  }

  lemma {:induction false} BagAppend<T>(a: seq<(Tree<T>, nat)>, b: seq<(Tree<T>, nat)>)
    ensures Bag(a + b) == Bag(a) + Bag(b)
  {
    if a == [] {
      assert a + b == b;
    } else {
      assert (a + b)[1..] == a[1..] + b;
      BagAppend(a[1..], b);
    }
  }

  lemma BagSingle<T>(t: Tree<T>, d: nat)
    ensures Bag([(t, d)]) == multiset(PreorderRL(t))
  {
    assert [(t, d)][1..] == [];
  }

  lemma BagKids<T>(e: (Tree<T>, nat))
    requires e.0.Node?
    ensures Bag(Kids(e)) == multiset(PreorderRL(e.0.left)) + multiset(PreorderRL(e.0.right))
  {
    var t := e.0;
    var l := if t.left.Node? then [(t.left, e.1 + 1)] else [];
    var r := if t.right.Node? then [(t.right, e.1 + 1)] else [];
    assert Kids(e) == l + r;
    BagAppend(l, r);
    if t.left.Node? {
      BagSingle(t.left, e.1 + 1);
    }
    if t.right.Node? {
      BagSingle(t.right, e.1 + 1);
    }
  }

  lemma {:induction false} BfsBag<T>(q: seq<(Tree<T>, nat)>)
    requires NoNil(q)
    ensures multiset(Trees(Bfs(q))) == Bag(q)
    decreases Weight(q)
  {
    if q != [] {
      var t := q[0].0;
      var next := q[1..] + Kids(q[0]);
      WeightAppend(q[1..], Kids(q[0]));
      BfsStep(q);
      BfsBag(next);
      BagAppend(q[1..], Kids(q[0]));
      BagKids(q[0]);
      var L, R := multiset(PreorderRL(t.left)), multiset(PreorderRL(t.right));
      assert multiset(PreorderRL(t)) == multiset{t} + R + L by {
        assert PreorderRL(t) == [t] + PreorderRL(t.right) + PreorderRL(t.left);
      }
      calc {
        multiset(Trees(Bfs(q)));
        multiset([t] + Trees(Bfs(next)));
        multiset{t} + Bag(next);
        multiset{t} + (Bag(q[1..]) + (L + R));
        multiset(PreorderRL(t)) + Bag(q[1..]);
        Bag(q);
      }
    }
  }

  /** `BreadthFirst` yields the same nodes as `DepthFirst`, each once. */
  lemma SameNodes<T>(root: Tree<T>)
    requires root.Node?
    ensures multiset(Trees(LevelOrder(root))) == multiset(PreorderRL(root))
  {
    BfsBag([(root, 0)]);
    assert [(root, 0)][1..] == [];
  }

  /** Depths in the queue never decrease from front to back and span at most
   *  one level. */
  predicate Layered<T>(q: seq<(Tree<T>, nat)>)
  {
    forall i, j :: 0 <= i <= j < |q| ==> q[i].1 <= q[j].1 <= q[i].1 + 1
  }

  predicate DepthSorted<T>(r: seq<(Tree<T>, nat)>)
  {
    forall i, j :: 0 <= i <= j < |r| ==> r[i].1 <= r[j].1
  }

  /** The queue after a dequeue and the enqueueing of the children is still
   *  layered, and its front is no shallower than before. */
  lemma NextLayered<T>(q: seq<(Tree<T>, nat)>)
    requires NoNil(q) && Layered(q) && q != []
    ensures Layered(q[1..] + Kids(q[0]))
    ensures q[1..] + Kids(q[0]) != [] ==> q[0].1 <= (q[1..] + Kids(q[0]))[0].1
  {
    var next := q[1..] + Kids(q[0]);
    forall i, j | 0 <= i <= j < |next|
      ensures next[i].1 <= next[j].1 <= next[i].1 + 1
    {
      if j < |q| - 1 {
        assert next[i] == q[i + 1] && next[j] == q[j + 1];
      } else if i < |q| - 1 {
        assert next[i] == q[i + 1];
        assert q[0].1 <= next[i].1;
      }
    }
    if next != [] && |q| > 1 {
      assert next[0] == q[1];
    }
  }

  lemma ConsSorted<T>(x: (Tree<T>, nat), tail: seq<(Tree<T>, nat)>)
    requires DepthSorted(tail)
    requires forall i :: 0 <= i < |tail| ==> x.1 <= tail[i].1
    ensures DepthSorted([x] + tail)
    ensures forall i :: 0 <= i < |[x] + tail| ==> x.1 <= ([x] + tail)[i].1
  {
    var r := [x] + tail;
    forall i | 0 <= i < |r|
      ensures x.1 <= r[i].1
    {
      if i > 0 {
        assert r[i] == tail[i - 1];
      }
    }
    forall i, j | 0 <= i <= j < |r|
      ensures r[i].1 <= r[j].1
    {
      if 0 < i {
        assert r[i] == tail[i - 1] && r[j] == tail[j - 1];
      } else if 0 < j {
        assert r[j] == tail[j - 1];
      }
    }
  }

  lemma {:induction false} BfsSorted<T>(q: seq<(Tree<T>, nat)>)
    requires NoNil(q) && Layered(q)
    ensures DepthSorted(Bfs(q))
    ensures forall i :: 0 <= i < |Bfs(q)| ==> q[0].1 <= Bfs(q)[i].1
    decreases Weight(q)
  {
    if q != [] {
      var next := q[1..] + Kids(q[0]);
      WeightAppend(q[1..], Kids(q[0]));
      NextLayered(q);
      BfsSorted(next);
      assert Bfs(q) == [q[0]] + Bfs(next);
      ConsSorted(q[0], Bfs(next));
    }
  }

  /** `BreadthFirst` is a level order: no node comes after a deeper one. */
  lemma LevelOrderSorted<T>(root: Tree<T>)
    requires root.Node?
    ensures DepthSorted(LevelOrder(root))
  {
    BfsSorted([(root, 0)]);
  }

  // Levels.  `Level(t, d)` lists the nodes at depth d below t, left to right;
  // breadth-first order is level 0, then level 1, and so on.

  /** The nodes at depth `d` of `t`, from left to right. */
  function Level<T>(t: Tree<T>, d: nat): (r: seq<Tree<T>>)
    ensures AllNodes(r)
  {
    if t.Nil? then []
    else if d == 0 then [t]
    else Level(t.left, d - 1) + Level(t.right, d - 1)
  }

  /** Level d, then level d + 1, ..., n levels in all. */
  function LevelsFrom<T>(t: Tree<T>, d: nat, n: nat): seq<Tree<T>>
    decreases n
  {
    if n == 0 then [] else Level(t, d) + LevelsFrom(t, d + 1, n - 1)
  }

  /** A tree has no nodes deeper than its size. */
  lemma {:induction false} LevelBeyond<T>(t: Tree<T>, d: nat)
    requires Size(t) <= d
    ensures Level(t, d) == []
    decreases t
  {
    if t.Node? {
      LevelBeyond(t.left, d - 1);
      LevelBeyond(t.right, d - 1);
    }
  }

  function SizeF<T>(f: seq<Tree<T>>): nat
  {
    if f == [] then 0 else Size(f[0]) + SizeF(f[1..])
  }

  lemma {:induction false} SizeFAppend<T>(a: seq<Tree<T>>, b: seq<Tree<T>>)
    ensures SizeF(a + b) == SizeF(a) + SizeF(b)
  {
    if a == [] {
      assert a + b == b;
    } else {
      assert (a + b)[1..] == a[1..] + b;
      SizeFAppend(a[1..], b);
    }
  }

  /** The children of a row of nodes, left to right: the next row down. */
  function Below<T>(f: seq<Tree<T>>): (r: seq<Tree<T>>)
    requires AllNodes(f)
    ensures AllNodes(r)
    ensures SizeF(r) + |f| == SizeF(f)
  {
    if f == [] then []
    else
      var e := Enqueued(f[0]);
      assert SizeF(e) + 1 == Size(f[0]) by {
        var l := if f[0].left.Node? then [f[0].left] else [];
        var r := if f[0].right.Node? then [f[0].right] else [];
        SizeFAppend(l, r);
        if f[0].left.Node? { assert l[1..] == []; }
        if f[0].right.Node? { assert r[1..] == []; }
      }
      SizeFAppend(e, Below(f[1..]));
      e + Below(f[1..])
  }

  /** A row, then the row below it, and so on down to the last. */
  function Layers<T>(f: seq<Tree<T>>): seq<Tree<T>>
    requires AllNodes(f)
    decreases SizeF(f)
  {
    if f == [] then [] else f + Layers(Below(f))
  }

  function LevelF<T>(f: seq<Tree<T>>, d: nat): seq<Tree<T>>
  {
    if f == [] then [] else Level(f[0], d) + LevelF(f[1..], d)
  }

  function LevelsF<T>(f: seq<Tree<T>>, d: nat, n: nat): seq<Tree<T>>
    decreases n
  {
    if n == 0 then [] else LevelF(f, d) + LevelsF(f, d + 1, n - 1)
  }

  lemma {:induction false} LevelFAppend<T>(a: seq<Tree<T>>, b: seq<Tree<T>>, d: nat)
    ensures LevelF(a + b, d) == LevelF(a, d) + LevelF(b, d)
  {
    if a == [] {
      assert a + b == b;
    } else {
      assert (a + b)[1..] == a[1..] + b;
      LevelFAppend(a[1..], b, d);
    }
  }

  /** Level 0 of a row of nodes is the row itself. */
  lemma {:induction false} LevelFZero<T>(f: seq<Tree<T>>)
    requires AllNodes(f)
    ensures LevelF(f, 0) == f
  {
    if f != [] {
      LevelFZero(f[1..]);
    }
  }

  /** Depth d below the next row down is depth d + 1 below the row. */
  lemma {:induction false} LevelFBelow<T>(f: seq<Tree<T>>, d: nat)
    requires AllNodes(f)
    ensures LevelF(Below(f), d) == LevelF(f, d + 1)
  {
    if f != [] {
      var t := f[0];
      var l := if t.left.Node? then [t.left] else [];
      var r := if t.right.Node? then [t.right] else [];
      assert LevelF(l, d) == Level(t.left, d) by {
        if t.left.Node? { assert l[1..] == []; }
      }
      assert LevelF(r, d) == Level(t.right, d) by {
        if t.right.Node? { assert r[1..] == []; }
      }
      LevelFAppend(l, r, d);
      LevelFAppend(Enqueued(t), Below(f[1..]), d);
      LevelFBelow(f[1..], d);
    }
  }

  lemma {:induction false} LevelsFBelow<T>(f: seq<Tree<T>>, d: nat, n: nat)
    requires AllNodes(f)
    ensures LevelsF(Below(f), d, n) == LevelsF(f, d + 1, n)
    decreases n
  {
    if n > 0 {
      LevelFBelow(f, d);
      LevelsFBelow(f, d + 1, n - 1);
    }
  }

  lemma {:induction false} LayersAreLevels<T>(f: seq<Tree<T>>, n: nat)
    requires AllNodes(f) && SizeF(f) <= n
    ensures Layers(f) == LevelsF(f, 0, n)
    decreases n
  {
    if f == [] {
      EmptyLevels(f, n, 0);
    } else {
      var g := Below(f);
      assert SizeF(g) <= n - 1;
      assert Layers(f) == f + Layers(g);
      LayersAreLevels(g, n - 1);
      LevelsFBelow(f, 0, n - 1);
      LevelFZero(f);
      assert LevelsF(f, 0, n) == LevelF(f, 0) + LevelsF(f, 1, n - 1);
    }
  }

  lemma {:induction false} EmptyLevels<T>(f: seq<Tree<T>>, n: nat, d: nat)
    requires f == []
    ensures LevelsF(f, d, n) == []
    decreases n
  {
    if n > 0 {
      EmptyLevels(f, n - 1, d + 1);
    }
  }

  /** The children of every entry of a queue, in queue order. */
  function KidsAll<T>(q: seq<(Tree<T>, nat)>): (r: seq<(Tree<T>, nat)>)
    requires NoNil(q)
    ensures NoNil(r)
  {
    if q == [] then [] else Kids(q[0]) + KidsAll(q[1..])
  }

  lemma TreesAppend<T>(a: seq<(Tree<T>, nat)>, b: seq<(Tree<T>, nat)>)
    ensures Trees(a + b) == Trees(a) + Trees(b)
  {
  }

  lemma {:induction false} KidsAllBelow<T>(q: seq<(Tree<T>, nat)>)
    requires NoNil(q)
    ensures AllNodes(Trees(q))
    ensures Trees(KidsAll(q)) == Below(Trees(q))
    ensures Weight(KidsAll(q)) + |q| == Weight(q)
  {
    if q != [] {
      KidsAllBelow(q[1..]);
      assert Trees(q)[1..] == Trees(q[1..]);
      TreesAppend(Kids(q[0]), KidsAll(q[1..]));
      WeightAppend(Kids(q[0]), KidsAll(q[1..]));
      var k := Kids(q[0]);
      assert Trees(k) == Enqueued(q[0].0);
    }
  }

  /** Draining the front part `a` of a queue yields `a`, and leaves the rest
   *  followed by the children of `a`. */
  lemma {:induction false} BfsDrain<T>(a: seq<(Tree<T>, nat)>, c: seq<(Tree<T>, nat)>)
    requires NoNil(a) && NoNil(c)
    ensures NoNil(a + c) && NoNil(c + KidsAll(a))
    ensures Trees(Bfs(a + c)) == Trees(a) + Trees(Bfs(c + KidsAll(a)))
    decreases |a|
  {
    if a == [] {
      assert a + c == c && c + KidsAll(a) == c;
    } else {
      var q := a + c;
      assert NoNil(q) by {
        forall i | 0 <= i < |q| ensures q[i].0.Node? {
          if i >= |a| { assert q[i] == c[i - |a|]; }
        }
      }
      assert q[0] == a[0] && q[1..] == a[1..] + c;
      BfsStep(q);
      var c' := c + Kids(a[0]);
      assert NoNil(c') by {
        forall i | 0 <= i < |c'| ensures c'[i].0.Node? {
          if i >= |c| { assert c'[i] == Kids(a[0])[i - |c|]; }
        }
      }
      assert q[1..] + Kids(q[0]) == a[1..] + c';
      assert Trees(Bfs(q)) == [a[0].0] + Trees(Bfs(a[1..] + c'));
      BfsDrain(a[1..], c');
      assert KidsAll(a) == Kids(a[0]) + KidsAll(a[1..]);
      assert c' + KidsAll(a[1..]) == c + KidsAll(a);
      assert Trees(a) == [a[0].0] + Trees(a[1..]) by {
        TreesCons(a[0], a[1..]);
        assert a == [a[0]] + a[1..];
      }
    }
  }

  lemma {:induction false} BfsLayers<T>(q: seq<(Tree<T>, nat)>)
    requires NoNil(q)
    ensures AllNodes(Trees(q))
    ensures Trees(Bfs(q)) == Layers(Trees(q))
    decreases Weight(q)
  {
    KidsAllBelow(q);
    if q != [] {
      BfsDrain(q, []);
      assert q + [] == q && [] + KidsAll(q) == KidsAll(q);
      BfsLayers(KidsAll(q));
    }
  }

  /** `BreadthFirst` yields level 0, then level 1, and so on: each level whole
   *  and left to right. */
  lemma LevelOrderByLevels<T>(root: Tree<T>)
    requires root.Node?
    ensures Trees(LevelOrder(root)) == LevelsFrom(root, 0, Size(root))
  {
    var q := [(root, 0)];
    BfsLayers(q);
    assert Trees(q) == [root];
    assert SizeF([root]) == Size(root) by {
      assert [root][1..] == [];
    }
    LayersAreLevels([root], Size(root));
    SingleLevels(root, 0, Size(root));
  }

  lemma {:induction false} SingleLevels<T>(t: Tree<T>, d: nat, n: nat)
    ensures LevelsF([t], d, n) == LevelsFrom(t, d, n)
    decreases n
  {
    if n > 0 {
      assert LevelF([t], d) == Level(t, d) by {
        assert [t][1..] == [];
      }
      SingleLevels(t, d + 1, n - 1);
    }
  }
}
