/** The abstract shape of the red-black tree: the tree of nodes reachable from
    `root`, with the shared sentinel `leaf` as `Leaf`. Each node carries the
    arena index (`id`) of the RedBlackNode it stands for, so that the Java
    code's identity tests (`x.getP().getLc() == x`) have a meaning here.
    A `Path` addresses a node (or a sentinel slot) from the root down. */
module Trees {
  import opened JavaStrings
  import opened Nodes
  import opened SortedSeqs

  datatype Dir = L | R

  type Path = seq<Dir>

  datatype Tree = Leaf | Node(color: int, key: string, id: nat, left: Tree, right: Tree)

  /** The arena index a subtree's root stands for; the sentinel is index 0 */
  function IdOf(t: Tree): nat
  {
    if t.Leaf? then 0 else t.id
  }

  /** The colour `getColor` reads; the sentinel is BLACK */
  function ColorOf(t: Tree): int
  {
    if t.Leaf? then BLACK else t.color
  }

  predicate IsRed(t: Tree)
  {
    ColorOf(t) == RED
  }

  function Child(t: Tree, d: Dir): Tree
    requires t.Node?
  {
    if d == L then t.left else t.right
  }

  /** t with its child on side d replaced by c */
  function WithChild(t: Tree, d: Dir, c: Tree): (r: Tree)
    requires t.Node?
    ensures r.Node? && r.color == t.color && r.key == t.key && r.id == t.id
    ensures Child(r, d) == c && Child(r, Other(d)) == Child(t, Other(d))
  {
    if d == L then t.(left := c) else t.(right := c)
  }

  function Other(d: Dir): Dir
  {
    if d == L then R else L
  }

  /** q leads from the root through real nodes to a node or a sentinel slot */
  predicate ValidPath(t: Tree, q: Path)
    decreases q
  {
    q == [] || (t.Node? && ValidPath(Child(t, q[0]), q[1..]))
  }

  /** The subtree at q */
  function At(t: Tree, q: Path): Tree
    requires ValidPath(t, q)
    decreases q
  {
    if q == [] then t else At(Child(t, q[0]), q[1..])
  }

  /** t with the subtree at q replaced by s */
  function Replace(t: Tree, q: Path, s: Tree): Tree
    requires ValidPath(t, q)
    decreases q
  {
    if q == [] then s else WithChild(t, q[0], Replace(Child(t, q[0]), q[1..], s))
  }

  /** The path to the parent of the node at q */
  function Up(q: Path): Path
    requires q != []
  {
    q[..|q| - 1]
  }

  /** The last step of a path */
  function Last(q: Path): Dir
    requires q != []
  {
    q[|q| - 1]
  }

  // ---------------------------------------------------------------------------
  // Paths

  lemma UpLast(q: Path)
    requires q != []
    ensures q == Up(q) + [Last(q)]
  {
  }

  /** The parent of the node at q is a node, and q leads to one of its children */
  lemma ValidUp(t: Tree, q: Path)
    requires ValidPath(t, q) && q != []
    ensures ValidPath(t, Up(q)) && At(t, Up(q)).Node?
    ensures At(t, q) == Child(At(t, Up(q)), Last(q))
  {
    UpLast(q);
    PrefixValid(t, Up(q), [Last(q)]);
    AtSnoc(t, Up(q), Last(q));
  }

  /** Paths of length one */
  lemma OneStep(t: Tree, d: Dir, s: Tree)
    requires t.Node?
    ensures ValidPath(t, [d]) && At(t, [d]) == Child(t, d)
    ensures Replace(t, [d], s) == WithChild(t, d, s)
  {
    assert [d][1..] == [];
  }

  /** Paths of length two */
  lemma TwoSteps(t: Tree, d: Dir, e: Dir, s: Tree)
    requires t.Node? && Child(t, d).Node?
    ensures ValidPath(t, [d, e]) && At(t, [d, e]) == Child(Child(t, d), e)
    ensures Replace(t, [d, e], s) == WithChild(t, d, WithChild(Child(t, d), e, s))
  {
    assert [d, e][1..] == [e];
    OneStep(Child(t, d), e, s);
  }

  /** A path into t ending at a node passes through a node at the root */
  lemma {:induction false} RootOfPath(t: Tree, q: Path)
    requires ValidPath(t, q) && At(t, q).Node?
    ensures t.Node?
  {
  }

  lemma {:induction false} AtAppend(t: Tree, a: Path, b: Path)
    requires ValidPath(t, a)
    ensures ValidPath(t, a + b) <==> ValidPath(At(t, a), b)
    ensures ValidPath(t, a + b) ==> At(t, a + b) == At(At(t, a), b)
    decreases a
  {
    if a == [] {
      assert a + b == b;
    } else {
      assert (a + b)[0] == a[0] && (a + b)[1..] == a[1..] + b;
      AtAppend(Child(t, a[0]), a[1..], b);
    }
  }

  lemma {:induction false} PrefixValid(t: Tree, a: Path, b: Path)
    requires ValidPath(t, a + b)
    ensures ValidPath(t, a)
    decreases a
  {
    if a != [] {
      assert (a + b)[0] == a[0] && (a + b)[1..] == a[1..] + b;
      PrefixValid(Child(t, a[0]), a[1..], b);
    }
  }

  /** One step down from a valid path */
  lemma AtSnoc(t: Tree, a: Path, d: Dir)
    requires ValidPath(t, a)
    ensures ValidPath(t, a + [d]) <==> At(t, a).Node?
    ensures At(t, a).Node? ==> At(t, a + [d]) == Child(At(t, a), d)
  {
    AtAppend(t, a, [d]);
    var s := At(t, a);
    if s.Node? {
      assert ValidPath(s, [d]) by { assert [d][1..] == []; }
      assert At(s, [d]) == Child(s, d) by { assert [d][1..] == []; }
    }
  }

  lemma {:induction false} ReplaceAppend(t: Tree, a: Path, b: Path, s: Tree)
    requires ValidPath(t, a) && ValidPath(At(t, a), b)
    ensures ValidPath(t, a + b)
    ensures Replace(t, a + b, s) == Replace(t, a, Replace(At(t, a), b, s))
    decreases a
  {
    AtAppend(t, a, b);
    if a == [] {
      assert a + b == b;
    } else {
      assert (a + b)[0] == a[0] && (a + b)[1..] == a[1..] + b;
      ReplaceAppend(Child(t, a[0]), a[1..], b, s);
    }
  }

  /** After replacing at q, q leads to the new subtree */
  lemma {:induction false} ReplaceThenAt(t: Tree, q: Path, s: Tree)
    requires ValidPath(t, q)
    ensures ValidPath(Replace(t, q, s), q)
    ensures At(Replace(t, q, s), q) == s
    decreases q
  {
    if q != [] {
      ReplaceThenAt(Child(t, q[0]), q[1..], s);
    }
  }

  /** Replacing a subtree by itself changes nothing */
  lemma {:induction false} ReplaceSame(t: Tree, q: Path)
    requires ValidPath(t, q)
    ensures Replace(t, q, At(t, q)) == t
    decreases q
  {
    if q != [] {
      ReplaceSame(Child(t, q[0]), q[1..]);
    }
  }

  /** The second of two replacements at the same place wins */
  lemma {:induction false} ReplaceTwice(t: Tree, q: Path, a: Tree, b: Tree)
    requires ValidPath(t, q)
    ensures ValidPath(Replace(t, q, a), q)
    ensures Replace(Replace(t, q, a), q, b) == Replace(t, q, b)
    decreases q
  {
    ReplaceThenAt(t, q, a);
    if q != [] {
      ReplaceTwice(Child(t, q[0]), q[1..], a, b);
    }
  }

  /** Working below g inside a tree whose subtree at g is a: the tree-level
      replacement is a replacement inside a */
  lemma ReplaceInside(t: Tree, g: Path, a: Tree, x: Path, s: Tree)
    requires ValidPath(t, g) && ValidPath(a, x)
    ensures ValidPath(Replace(t, g, a), g + x)
    ensures At(Replace(t, g, a), g + x) == At(a, x)
    ensures Replace(Replace(t, g, a), g + x, s) == Replace(t, g, Replace(a, x, s))
  {
    var t1 := Replace(t, g, a);
    ReplaceThenAt(t, g, a);
    AtAppend(t1, g, x);
    ReplaceAppend(t1, g, x, s);
    ReplaceTwice(t, g, a, Replace(a, x, s));
  }

  /** Replacing strictly below the root keeps the root's own fields */
  lemma ReplaceKeepsRoot(t: Tree, q: Path, s: Tree)
    requires ValidPath(t, q) && q != []
    ensures Replace(t, q, s).Node?
    ensures Replace(t, q, s).color == t.color && Replace(t, q, s).key == t.key
    ensures Replace(t, q, s).id == t.id
  {
  }

  // ---------------------------------------------------------------------------
  // Recolouring and rotations, the three primitives of the insert fixup

  /** `setColor(c)` on the node at q */
  function RecolorAt(t: Tree, q: Path, c: int): Tree
    requires ValidPath(t, q) && At(t, q).Node?
  {
    Replace(t, q, At(t, q).(color := c))
  }

  /** A rotation at the root of t that moves t down to side d and the child on
      the other side up: Rotate(t, L) is `leftRotate`, Rotate(t, R) is
      `rightRotate`. When that child is the sentinel nothing happens, as in the
      guard at the top of both Java methods. */
  function Rotate(t: Tree, d: Dir): (r: Tree)
    ensures r.Node? <==> t.Node?
  {
    if t.Node? && Child(t, Other(d)).Node? then
      var c := Child(t, Other(d));
      WithChild(c, d, WithChild(t, Other(d), Child(c, d)))
    else t
  }

  function RotateAt(t: Tree, q: Path, d: Dir): Tree
    requires ValidPath(t, q)
  {
    Replace(t, q, Rotate(At(t, q), d))
  }

  lemma RecolorInside(t: Tree, g: Path, a: Tree, x: Path, c: int)
    requires ValidPath(t, g) && ValidPath(a, x) && At(a, x).Node?
    ensures ValidPath(Replace(t, g, a), g + x) && At(Replace(t, g, a), g + x).Node?
    ensures RecolorAt(Replace(t, g, a), g + x, c) == Replace(t, g, RecolorAt(a, x, c))
  {
    ReplaceInside(t, g, a, x, At(a, x).(color := c));
  }

  lemma RotateInside(t: Tree, g: Path, a: Tree, x: Path, d: Dir)
    requires ValidPath(t, g) && ValidPath(a, x)
    ensures ValidPath(Replace(t, g, a), g + x)
    ensures RotateAt(Replace(t, g, a), g + x, d) == Replace(t, g, RotateAt(a, x, d))
  {
    ReplaceInside(t, g, a, x, Rotate(At(a, x), d));
  }

  // ---------------------------------------------------------------------------
  // Keys in order

  /** The keys in the order `inOrderTraversal` visits their nodes */
  function InOrder(t: Tree): seq<string>
  {
    if t.Leaf? then [] else InOrder(t.left) + [t.key] + InOrder(t.right)
  }

  function Size(t: Tree): nat
  {
    if t.Leaf? then 0 else Size(t.left) + 1 + Size(t.right)
  }

  /** The keys that come before the subtree at q in order */
  function Before(t: Tree, q: Path): seq<string>
    requires ValidPath(t, q)
    decreases q
  {
    if q == [] then []
    else if q[0] == L then Before(t.left, q[1..])
    else InOrder(t.left) + [t.key] + Before(t.right, q[1..])
  }

  /** The keys that come after the subtree at q in order */
  function After(t: Tree, q: Path): seq<string>
    requires ValidPath(t, q)
    decreases q
  {
    if q == [] then []
    else if q[0] == L then After(t.left, q[1..]) + [t.key] + InOrder(t.right)
    else After(t.right, q[1..])
  }

  lemma {:induction false} SizeIsLength(t: Tree)
    ensures Size(t) == |InOrder(t)|
  {
    if t.Node? {
      SizeIsLength(t.left);
      SizeIsLength(t.right);
    }
  }

  /** The in-order sequence is the keys before the subtree at q, the subtree's own, and the keys after */
  lemma {:induction false} InOrderSplit(t: Tree, q: Path, s: Tree)
    requires ValidPath(t, q)
    ensures InOrder(Replace(t, q, s)) == Before(t, q) + InOrder(s) + After(t, q)
    decreases q
  {
    if q != [] {
      InOrderSplit(Child(t, q[0]), q[1..], s);
    }
  }

  lemma InOrderAround(t: Tree, q: Path)
    requires ValidPath(t, q)
    ensures InOrder(t) == Before(t, q) + InOrder(At(t, q)) + After(t, q)
  {
    ReplaceSame(t, q);
    InOrderSplit(t, q, At(t, q));
  }

  /** The keys around a child of the node at p */
  lemma {:induction false} ChildContext(t: Tree, p: Path, d: Dir)
    requires ValidPath(t, p) && At(t, p).Node?
    ensures ValidPath(t, p + [d])
    ensures d == L ==> Before(t, p + [d]) == Before(t, p)
    ensures d == L ==> After(t, p + [d]) == [At(t, p).key] + InOrder(At(t, p).right) + After(t, p)
    ensures d == R ==> Before(t, p + [d]) == Before(t, p) + InOrder(At(t, p).left) + [At(t, p).key]
    ensures d == R ==> After(t, p + [d]) == After(t, p)
    decreases p
  {
    AtSnoc(t, p, d);
    if p == [] {
      assert p + [d] == [d] && [d][1..] == [];
    } else {
      assert (p + [d])[0] == p[0] && (p + [d])[1..] == p[1..] + [d];
      ChildContext(Child(t, p[0]), p[1..], d);
    }
  }

  /** A rotation keeps the in-order sequence */
  lemma RotateKeepsInOrder(s: Tree, d: Dir)
    ensures InOrder(Rotate(s, d)) == InOrder(s)
  {
  }

  /** Replacing a subtree by one with the same in-order keys keeps the whole sequence */
  lemma ReplaceKeepsInOrder(t: Tree, q: Path, s: Tree)
    requires ValidPath(t, q) && InOrder(s) == InOrder(At(t, q))
    ensures InOrder(Replace(t, q, s)) == InOrder(t)
  {
    InOrderSplit(t, q, s);
    InOrderAround(t, q);
  }

  /** Recolouring and rotating keep the in-order sequence and the set of nodes */
  lemma RecolorAtKeeps(t: Tree, q: Path, c: int)
    requires ValidPath(t, q) && At(t, q).Node?
    ensures InOrder(RecolorAt(t, q, c)) == InOrder(t)
    ensures Ids(RecolorAt(t, q, c)) == Ids(t)
    ensures UniqueIds(t) ==> UniqueIds(RecolorAt(t, q, c))
  {
    ReplaceKeepsInOrder(t, q, At(t, q).(color := c));
    AtIds(t, q);
    if UniqueIds(t) {
      ReplaceSameIds(t, q, At(t, q).(color := c));
    } else {
      ReplaceSameIdsAnyway(t, q, At(t, q).(color := c));
    }
  }

  lemma RotateAtKeeps(t: Tree, q: Path, d: Dir)
    requires ValidPath(t, q)
    ensures InOrder(RotateAt(t, q, d)) == InOrder(t)
    ensures Ids(RotateAt(t, q, d)) == Ids(t)
    ensures UniqueIds(t) ==> UniqueIds(RotateAt(t, q, d))
  {
    RotateKeepsInOrder(At(t, q), d);
    ReplaceKeepsInOrder(t, q, Rotate(At(t, q), d));
    RotateKeepsIds(At(t, q), d);
    AtIds(t, q);
    if UniqueIds(t) {
      ReplaceSameIds(t, q, Rotate(At(t, q), d));
    } else {
      ReplaceSameIdsAnyway(t, q, Rotate(At(t, q), d));
    }
  }

  // ---------------------------------------------------------------------------
  // Node identities

  function Ids(t: Tree): set<nat>
  {
    if t.Leaf? then {} else {t.id} + Ids(t.left) + Ids(t.right)
  }

  /** Every node has its own positive index, so index equality is node identity */
  predicate UniqueIds(t: Tree)
  {
    t.Node? ==>
      && t.id > 0
      && t.id !in Ids(t.left) && t.id !in Ids(t.right)
      && Ids(t.left) !! Ids(t.right)
      && UniqueIds(t.left) && UniqueIds(t.right)
  }

  lemma {:induction false} AtIds(t: Tree, q: Path)
    requires ValidPath(t, q)
    ensures Ids(At(t, q)) <= Ids(t)
    ensures UniqueIds(t) ==> UniqueIds(At(t, q))
    decreases q
  {
    if q != [] {
      AtIds(Child(t, q[0]), q[1..]);
    }
  }

  /** Replacing the subtree at q by s whose nodes are new to the rest of the tree */
  lemma {:induction false} ReplaceIds(t: Tree, q: Path, s: Tree)
    requires ValidPath(t, q) && UniqueIds(t) && UniqueIds(s)
    requires Ids(s) !! (Ids(t) - Ids(At(t, q)))
    ensures UniqueIds(Replace(t, q, s))
    ensures Ids(Replace(t, q, s)) == (Ids(t) - Ids(At(t, q))) + Ids(s)
    decreases q
  {
    if q != [] {
      var c := Child(t, q[0]);
      var o := Child(t, Other(q[0]));
      AtIds(c, q[1..]);
      assert Ids(t) == {t.id} + Ids(c) + Ids(o);
      ReplaceIds(c, q[1..], s);
      var c' := Replace(c, q[1..], s);
      assert Replace(t, q, s) == WithChild(t, q[0], c');
      assert t.id !in Ids(c') && Ids(c') !! Ids(o);
      ReplaceIdsSet(t, q, s);
    }
  }

  /** With unique ids, the nodes after a replacement are those outside the old subtree and the new one's */
  lemma {:induction false} ReplaceIdsSet(t: Tree, q: Path, s: Tree)
    requires ValidPath(t, q) && UniqueIds(t)
    ensures Ids(Replace(t, q, s)) == (Ids(t) - Ids(At(t, q))) + Ids(s)
    decreases q
  {
    if q != [] {
      var c := Child(t, q[0]);
      AtIds(c, q[1..]);
      ReplaceIdsSet(c, q[1..], s);
    }
  }

  lemma ReplaceSameIds(t: Tree, q: Path, s: Tree)
    requires ValidPath(t, q) && UniqueIds(t) && UniqueIds(s)
    requires Ids(s) == Ids(At(t, q))
    ensures UniqueIds(Replace(t, q, s)) && Ids(Replace(t, q, s)) == Ids(t)
  {
    AtIds(t, q);
    ReplaceIds(t, q, s);
  }

  /** Replacing a subtree by one with the same nodes keeps the set of nodes */
  lemma {:induction false} ReplaceSameIdsAnyway(t: Tree, q: Path, s: Tree)
    requires ValidPath(t, q) && Ids(s) == Ids(At(t, q))
    ensures Ids(Replace(t, q, s)) == Ids(t)
    decreases q
  {
    if q != [] {
      ReplaceSameIdsAnyway(Child(t, q[0]), q[1..], s);
    }
  }

  lemma RotateKeepsIds(s: Tree, d: Dir)
    ensures Ids(Rotate(s, d)) == Ids(s)
    ensures UniqueIds(s) ==> UniqueIds(Rotate(s, d))
  {
    if UniqueIds(s) && s.Node? && Child(s, Other(d)).Node? {
      var c := Child(s, Other(d));
      assert Ids(c) == {c.id} + Ids(c.left) + Ids(c.right);
      assert UniqueIds(c);
      var s' := WithChild(s, Other(d), Child(c, d));
      assert UniqueIds(Child(c, d));
      assert UniqueIds(s');
      assert Ids(s') == {s.id} + Ids(Child(s, d)) + Ids(Child(c, d));
    }
  }

  /** The two children of a node are told apart by their index */
  lemma SiblingsDiffer(t: Tree, d: Dir)
    requires t.Node? && UniqueIds(t) && Child(t, d).Node?
    ensures IdOf(Child(t, Other(d))) != Child(t, d).id
  {
    var c := Child(t, d);
    assert c.id in Ids(c);
  }

  // ---------------------------------------------------------------------------
  // Order

  /** In-order keys are sorted exactly when each node sits between its subtrees' keys */
  lemma SortedNode(t: Tree)
    requires t.Node?
    ensures Sorted(InOrder(t)) <==>
      && Sorted(InOrder(t.left)) && Sorted(InOrder(t.right))
      && (forall k :: k in InOrder(t.left) ==> LessEq(k, t.key))
      && (forall k :: k in InOrder(t.right) ==> LessEq(t.key, k))
    ensures Sorted(InOrder(t)) ==>
      forall a, b :: a in InOrder(t.left) && b in InOrder(t.right) ==> LessEq(a, b)
  {
    var l, r := InOrder(t.left), InOrder(t.right);
    assert InOrder(t) == l + [t.key] + r;
    if Sorted(InOrder(t)) {
      SortedSplitAt(l, t.key, r);
      forall a, b | a in l && b in r ensures LessEq(a, b) {
        LessEqTransitive(a, t.key, b);
      }
    } else if Sorted(l) && Sorted(r) && (forall k :: k in l ==> LessEq(k, t.key))
              && (forall k :: k in r ==> LessEq(t.key, k)) {
      SortedAround(l, t.key, r);
    }
  }

  /** The search-relevant half of SortedNode */
  lemma SortedSides(t: Tree)
    requires t.Node? && Sorted(InOrder(t))
    ensures Sorted(InOrder(t.left)) && Sorted(InOrder(t.right))
    ensures forall k :: k in InOrder(t.left) ==> LessEq(k, t.key)
    ensures forall k :: k in InOrder(t.right) ==> LessEq(t.key, k)
  {
    SortedNode(t);
  }

  /** The keys of a subtree are keys of the tree */
  lemma KeysAt(t: Tree, q: Path)
    requires ValidPath(t, q)
    ensures forall k :: k in InOrder(At(t, q)) ==> k in InOrder(t)
  {
    InOrderAround(t, q);
  }
}
