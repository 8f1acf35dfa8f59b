/** The red-black properties the insert fixup restores, stated on the abstract
    tree: every node is RED or BLACK (any code other than RED counts as black,
    since the Java code only ever tests `getColor() == RED`), the root is
    black, a red node has no red child, and every path from a node down to the
    sentinel passes the same number of black nodes. Also the height bound that
    these properties buy, which is what `height` reports. */
module Balance {
  import opened Nodes
  import opened Trees

  /** Black nodes on the leftmost path; equal to every path's count when balanced */
  function BlackHeight(t: Tree): nat
  {
    if t.Leaf? then 0 else BlackHeight(t.left) + (if IsRed(t) then 0 else 1)
  }

  /** Both subtrees of every node have the same black height */
  predicate BlackBalanced(t: Tree)
  {
    t.Node? ==>
      && BlackBalanced(t.left) && BlackBalanced(t.right)
      && BlackHeight(t.left) == BlackHeight(t.right)
  }

  /** No red node has a red child */
  predicate RedRedFree(t: Tree)
  {
    t.Node? ==>
      && (IsRed(t) ==> !IsRed(t.left) && !IsRed(t.right))
      && RedRedFree(t.left) && RedRedFree(t.right)
  }

  predicate IsRedBlack(t: Tree)
  {
    BlackBalanced(t) && RedRedFree(t) && !IsRed(t)
  }

  // ---------------------------------------------------------------------------
  // Subtrees and replacement

  lemma {:induction false} AtKeepsProperties(t: Tree, q: Path)
    requires ValidPath(t, q)
    ensures BlackBalanced(t) ==> BlackBalanced(At(t, q))
    ensures RedRedFree(t) ==> RedRedFree(At(t, q))
    decreases q
  {
    if q != [] {
      AtKeepsProperties(Child(t, q[0]), q[1..]);
    }
  }

  /** Putting a balanced subtree of the same black height in place of another
      keeps the tree balanced and its black height */
  lemma {:induction false} ReplaceKeepsBalance(t: Tree, q: Path, s: Tree)
    requires ValidPath(t, q) && BlackBalanced(t)
    requires BlackBalanced(s) && BlackHeight(s) == BlackHeight(At(t, q))
    ensures BlackBalanced(Replace(t, q, s))
    ensures BlackHeight(Replace(t, q, s)) == BlackHeight(t)
    decreases q
  {
    if q != [] {
      ReplaceKeepsBalance(Child(t, q[0]), q[1..], s);
    }
  }

  /** Changing the subtree at q from a to b introduces no red-red pair as long
      as b is free of them and b is red only where a was */
  lemma {:induction false} ReplaceKeepsRedRedFree(t: Tree, q: Path, a: Tree, b: Tree)
    requires ValidPath(t, q) && RedRedFree(Replace(t, q, a))
    requires RedRedFree(b) && (IsRed(b) ==> IsRed(a))
    ensures RedRedFree(Replace(t, q, b))
    decreases q
  {
    if q != [] {
      var c := Child(t, q[0]);
      ReplaceKeepsRedRedFree(c, q[1..], a, b);
      if q[1..] != [] {
        ReplaceKeepsRoot(c, q[1..], a);
        ReplaceKeepsRoot(c, q[1..], b);
      }
    }
  }

  // ---------------------------------------------------------------------------
  // Height

  /** The number of nodes on the longest path from t down to the sentinel */
  function Depth(t: Tree): nat
  {
    if t.Leaf? then 0 else 1 + Max(Depth(t.left), Depth(t.right))
  }

  function Max(a: int, b: int): int
  {
    if a < b then b else a
  }

  function Pow2(n: nat): nat
  {
    if n == 0 then 1 else 2 * Pow2(n - 1)
  }

  lemma {:induction false} Pow2Monotone(a: nat, b: nat)
    requires a <= b
    ensures Pow2(a) <= Pow2(b)
    decreases b
  {
    if a < b {
      Pow2Monotone(a, b - 1);
    }
  }

  /** A balanced tree holds at least 2^bh - 1 nodes */
  lemma {:induction false} SizeAtLeastBlackHeight(t: Tree)
    requires BlackBalanced(t)
    ensures Size(t) + 1 >= Pow2(BlackHeight(t))
  {
    if t.Node? {
      SizeAtLeastBlackHeight(t.left);
      SizeAtLeastBlackHeight(t.right);
      var b := BlackHeight(t.left);
      if !IsRed(t) {
        assert Pow2(b + 1) == 2 * Pow2(b);
      }
    }
  }

  /** With no red-red pair, a path holds at most twice as many nodes as black ones,
      and one fewer than that when it starts red */
  lemma {:induction false} DepthAtMostTwiceBlackHeight(t: Tree)
    requires BlackBalanced(t) && RedRedFree(t)
    ensures Depth(t) <= 2 * BlackHeight(t) + (if IsRed(t) then 1 else 0)
  {
    if t.Node? {
      DepthAtMostTwiceBlackHeight(t.left);
      DepthAtMostTwiceBlackHeight(t.right);
    }
  }

  /** The height bound of a red-black tree: depth <= 2 bh and 2^bh <= n + 1,
      that is, depth <= 2 log2(n + 1), which is what makes insert and contains
      logarithmic; the floored form 2^(depth/2) <= n + 1 follows */
  lemma RedBlackDepthBound(t: Tree)
    requires IsRedBlack(t)
    ensures Depth(t) <= 2 * BlackHeight(t)
    ensures Pow2(BlackHeight(t)) <= Size(t) + 1
    ensures Pow2(Depth(t) / 2) <= Size(t) + 1
  {
    DepthAtMostTwiceBlackHeight(t);
    SizeAtLeastBlackHeight(t);
    Pow2Monotone(Depth(t) / 2, BlackHeight(t));
  }
}
