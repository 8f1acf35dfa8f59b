/** The two visit orders the tree offers, on the abstract tree: in-order
    (`Trees.InOrder`, the order of `inOrderTraversal`) and level order, the
    breadth-first order of `levelOrderTraversal`, which keeps a FIFO queue of
    nodes and enqueues a node's left then right child when they are not the
    sentinel. */
module Traversals {
  import opened Trees

  /** The number of nodes in a sequence of subtrees */
  function ForestSize(f: seq<Tree>): nat
  {
    if f == [] then 0 else Size(f[0]) + ForestSize(f[1..])
  }

  lemma {:induction false} ForestSizeAppend(a: seq<Tree>, b: seq<Tree>)
    ensures ForestSize(a + b) == ForestSize(a) + ForestSize(b)
  {
    if a != [] {
      assert (a + b)[0] == a[0] && (a + b)[1..] == a[1..] + b;
      ForestSizeAppend(a[1..], b);
    } else {
      assert a + b == b;
    }
  }

  /** The children of a node that are not the sentinel, left before right */
  function RealChildren(t: Tree): (f: seq<Tree>)
    requires t.Node?
    ensures ForestSize(f) + 1 == Size(t)
    ensures forall c :: c in f ==> c.Node?
  {
    var l := if t.left.Node? then [t.left] else [];
    var r := if t.right.Node? then [t.right] else [];
    ForestSizeAppend(l, r);
    l + r
  }

  /** Every subtree of a forest of nodes holds at least its root */
  lemma {:induction false} ForestSizeCountsRoots(f: seq<Tree>)
    requires forall i :: 0 <= i < |f| ==> f[i].Node?
    ensures |f| <= ForestSize(f)
  {
    if f != [] {
      ForestSizeCountsRoots(f[1..]);
    }
  }

  /** The keys visited when the queue holds the roots of f: take the front,
      visit it, enqueue its real children at the back */
  function Bfs(f: seq<Tree>): seq<string>
    decreases ForestSize(f), |f|
  {
    if f == [] then []
    else if f[0].Leaf? then Bfs(f[1..])
    else
      ForestSizeAppend(f[1..], RealChildren(f[0]));
      [f[0].key] + Bfs(f[1..] + RealChildren(f[0]))
  }

  /** `levelOrderTraversal`: nothing for the empty tree, otherwise a
      breadth-first walk from the root */
  function LevelOrder(t: Tree): seq<string>
  {
    if t.Leaf? then [] else Bfs([t])
  }

  /** Appending the left child, then the right child, when not the sentinel */
  lemma ChildrenInOrder(g: seq<Tree>, t: Tree)
    requires t.Node?
    ensures g + RealChildren(t) ==
      (var g1 := if t.left.Node? then g + [t.left] else g;
       if t.right.Node? then g1 + [t.right] else g1)
  {
    var l := if t.left.Node? then [t.left] else [];
    var r := if t.right.Node? then [t.right] else [];
    assert RealChildren(t) == l + r;
    assert g + (l + r) == (g + l) + r;
  }

  /** Enqueueing c into a queue of cap slots that holds q: the sentinel is
      never enqueued, and a full queue refuses the node */
  function Offer(q: seq<Tree>, c: Tree, cap: nat): (r: seq<Tree>)
    ensures r == q || (c.Node? && r == q + [c])
    ensures c.Node? && |q| < cap ==> r == q + [c]
    ensures ForestSize(r) <= ForestSize(q) + Size(c)
  {
    ForestSizeAppend(q, [c]);
    assert ForestSize([c]) == Size(c) + ForestSize([]);
    if c.Node? && |q| < cap then q + [c] else q
  }

  /** The keys printed when a queue of cap slots holds the roots of f: like
      Bfs, except that a child the full queue refuses is never visited */
  function BoundedBfs(f: seq<Tree>, cap: nat): seq<string>
    decreases ForestSize(f), |f|
  {
    if f == [] then []
    else if f[0].Leaf? then BoundedBfs(f[1..], cap)
    else
      var t := f[0];
      var q1 := Offer(f[1..], t.left, cap);
      var q2 := Offer(q1, t.right, cap);
      [t.key] + BoundedBfs(q2, cap)
  }

  /** The bounded walk visits the front node, then continues with the rest
      and the children the queue accepts */
  lemma BoundedBfsFront(f: seq<Tree>, cap: nat)
    requires f != [] && f[0].Node?
    ensures BoundedBfs(f, cap) ==
      [f[0].key] + BoundedBfs(Offer(Offer(f[1..], f[0].left, cap), f[0].right, cap), cap)
  {
  }

  /** `levelOrderTraversal` with a queue of cap slots: the root is enqueued
      unless it is the sentinel, then the walk runs */
  function BoundedLevelOrder(t: Tree, cap: nat): seq<string>
  {
    BoundedBfs(Offer([], t, cap), cap)
  }

  /** While the nodes still to visit fit in the queue, no child is refused
      and the bounded walk is the breadth-first walk */
  lemma {:induction false} BoundedBfsAgrees(f: seq<Tree>, cap: nat)
    requires forall i :: 0 <= i < |f| ==> f[i].Node?
    requires ForestSize(f) <= cap
    ensures BoundedBfs(f, cap) == Bfs(f)
    decreases ForestSize(f)
  {
    if f != [] {
      var t, rest := f[0], f[1..];
      var q1 := Offer(rest, t.left, cap);
      ForestSizeCountsRoots(rest);
      assert q1 == if t.left.Node? then rest + [t.left] else rest;
      ForestSizeCountsRoots(q1);
      assert Offer(q1, t.right, cap) == if t.right.Node? then q1 + [t.right] else q1;
      ChildrenInOrder(rest, t);
      var g := rest + RealChildren(t);
      ForestSizeAppend(rest, RealChildren(t));
      BoundedBfsAgrees(g, cap);
    }
  }

  /** A tree that fits in the queue is walked in level order */
  lemma BoundedLevelOrderAgrees(t: Tree, cap: nat)
    requires Size(t) <= cap
    ensures BoundedLevelOrder(t, cap) == LevelOrder(t)
  {
    if t.Node? {
      assert Offer([], t, cap) == [t];
      assert ForestSize([t]) == Size(t) + ForestSize([]);
      BoundedBfsAgrees([t], cap);
    }
  }

  /** The keys of a sequence of subtrees, counted with multiplicity */
  function ForestKeys(f: seq<Tree>): multiset<string>
  {
    if f == [] then multiset{} else multiset(InOrder(f[0])) + ForestKeys(f[1..])
  }

  lemma {:induction false} ForestKeysAppend(a: seq<Tree>, b: seq<Tree>)
    ensures ForestKeys(a + b) == ForestKeys(a) + ForestKeys(b)
  {
    if a != [] {
      assert (a + b)[0] == a[0] && (a + b)[1..] == a[1..] + b;
      ForestKeysAppend(a[1..], b);
    } else {
      assert a + b == b;
    }
  }

  /** The keys of a node's real children are those of its two subtrees */
  lemma ChildrenKeys(t: Tree)
    requires t.Node?
    ensures ForestKeys(RealChildren(t)) == multiset(InOrder(t.left)) + multiset(InOrder(t.right))
  {
    var l := if t.left.Node? then [t.left] else [];
    var r := if t.right.Node? then [t.right] else [];
    assert RealChildren(t) == l + r;
    ForestKeysAppend(l, r);
    assert ForestKeys(l) == multiset(InOrder(t.left)) by {
      if t.left.Node? {
        assert ForestKeys(l) == multiset(InOrder(t.left)) + ForestKeys([]);
      }
    }
    assert ForestKeys(r) == multiset(InOrder(t.right)) by {
      if t.right.Node? {
        assert ForestKeys(r) == multiset(InOrder(t.right)) + ForestKeys([]);
      }
    }
  }

  /** The walk from f visits every key of f exactly as often as it occurs */
  lemma {:induction false} BfsVisitsAll(f: seq<Tree>)
    ensures multiset(Bfs(f)) == ForestKeys(f)
    decreases ForestSize(f), |f|
  {
    if f != [] {
      var t := f[0];
      if t.Leaf? {
        BfsVisitsAll(f[1..]);
      } else {
        var c := RealChildren(t);
        ForestSizeAppend(f[1..], c);
        BfsVisitsAll(f[1..] + c);
        ForestKeysAppend(f[1..], c);
        ChildrenKeys(t);
        assert Bfs(f) == [t.key] + Bfs(f[1..] + c);
        assert multiset(InOrder(t)) == multiset(InOrder(t.left)) + multiset{t.key} + multiset(InOrder(t.right));
      }
    }
  }

  /** Level order and in-order visit the same keys, each as often */
  lemma LevelOrderIsPermutation(t: Tree)
    ensures multiset(LevelOrder(t)) == multiset(InOrder(t))
    ensures |LevelOrder(t)| == Size(t)
  {
    if t.Node? {
      BfsVisitsAll([t]);
      assert ForestKeys([t]) == multiset(InOrder(t)) + ForestKeys([]);
    }
    SizeIsLength(t);
    assert |multiset(LevelOrder(t))| == |multiset(InOrder(t))|;
  }

  /** Level order starts at the root */
  lemma LevelOrderStartsAtRoot(t: Tree)
    requires t.Node?
    ensures LevelOrder(t) != [] && LevelOrder(t)[0] == t.key
  {
  }
}
