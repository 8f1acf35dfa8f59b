/** `insert` on the abstract tree: the descent loop, the link step and the
    fixup. The descent sends a key equal to the node's to the right, the link
    step sends it to the left; when the last node visited holds the inserted
    key the two disagree and the new node overwrites that node's left link.
    `InsertTree` keeps that behaviour; `InsertTreeFixed` links where the
    descent ended. */
module Insertion {
  import opened JavaStrings
  import opened Nodes
  import opened SortedSeqs
  import opened Trees
  import opened Balance
  import opened InsertFixup

  /** The sentinel slot where the descent loop (lines 100-107) stops: left
      while the node's key compares greater than v, right otherwise */
  function DescentPath(t: Tree, v: string): (p: Path)
    ensures ValidPath(t, p) && At(t, p).Leaf?
    ensures p == [] <==> t.Leaf?
  {
    if t.Leaf? then []
    else if CompareTo(t.key, v) > 0 then [L] + DescentPath(t.left, v)
    else [R] + DescentPath(t.right, v)
  }

  /** Where z is linked (lines 108-117): as the root when the descent never
      entered a node, otherwise below y, the last node visited, on the right
      when v compares greater than y's key and on the left otherwise */
  function LinkPath(t: Tree, v: string): (p: Path)
    ensures ValidPath(t, p)
    ensures p == [] <==> t.Leaf?
  {
    var dp := DescentPath(t, v);
    if dp == [] then []
    else
      ValidUp(t, dp);
      var dir := if CompareTo(v, LastVisited(t, v).key) > 0 then R else L;
      AtSnoc(t, Up(dp), dir);
      Up(dp) + [dir]
  }

  /** y in the Java code: the last node the descent visits */
  function LastVisited(t: Tree, v: string): (y: Tree)
    requires t.Node?
    ensures ValidPath(t, Up(DescentPath(t, v))) && y == At(t, Up(DescentPath(t, v)))
    ensures y.Node?
  {
    ValidUp(t, DescentPath(t, v));
    At(t, Up(DescentPath(t, v)))
  }

  /** The node `insert` creates: RED, with both children the sentinel */
  function NewNode(v: string, id: nat): Tree
  {
    Node(RED, v, id, Leaf, Leaf)
  }

  /** `insert(v)` as written, with id the index of the new node; the root
      must be black, which every tree `insert` leaves behind guarantees */
  function InsertTree(t: Tree, v: string, id: nat): (r: Tree)
    requires !IsRed(t)
  {
    var lq := LinkPath(t, v);
    InsertAt(t, lq, v, id)
  }

  /** Link the new node at lq and run the fixup from there */
  function InsertAt(t: Tree, lq: Path, v: string, id: nat): (r: Tree)
    requires ValidPath(t, lq) && !IsRed(t)
  {
    var t1 := Replace(t, lq, NewNode(v, id));
    ReplaceThenAt(t, lq, NewNode(v, id));
    Fixup(t1, lq)
  }

  /** `insert(v)` with the link step taking the descent's own last turn */
  function InsertTreeFixed(t: Tree, v: string, id: nat): (r: Tree)
    requires !IsRed(t)
  {
    InsertAt(t, DescentPath(t, v), v, id)
  }

  // ---------------------------------------------------------------------------
  // Where the descent ends

  /** Every key before the descent's slot is at most v and every key after it is greater */
  lemma {:induction false} DescentSplits(t: Tree, v: string)
    requires Sorted(InOrder(t))
    ensures forall k :: k in Before(t, DescentPath(t, v)) ==> LessEq(k, v)
    ensures forall k :: k in After(t, DescentPath(t, v)) ==> Less(v, k)
  {
    if t.Node? {
      SortedSides(t);
      var dp := DescentPath(t, v);
      assert dp[1..] == DescentPath(Child(t, dp[0]), v);
      CompareToAntisymmetric(t.key, v);
      if CompareTo(t.key, v) > 0 {
        DescentSplits(t.left, v);
        forall k | k in InOrder(t.right) ensures Less(v, k) {
          LessLessEqTransitive(v, t.key, k);
        }
      } else {
        DescentSplits(t.right, v);
        Trichotomy(t.key, v);
        Trichotomy(v, t.key);
        forall k | k in InOrder(t.left) ensures LessEq(k, v) {
          LessEqTransitive(k, t.key, v);
        }
      }
    }
  }

  /** The link step takes the descent's last turn unless the last node visited holds v */
  lemma LinkMatchesDescent(t: Tree, v: string)
    requires t.Node?
    ensures DescentPath(t, v) != [] && ValidPath(t, Up(DescentPath(t, v)))
    ensures At(t, Up(DescentPath(t, v))).Node?
    ensures
      var dp := DescentPath(t, v);
      var y := At(t, Up(dp));
      && (y.key != v ==> LinkPath(t, v) == dp)
      && (y.key == v ==> Last(dp) == R && LinkPath(t, v) == Up(dp) + [L])
  {
    var dp := DescentPath(t, v);
    ValidUp(t, dp);
    var y := At(t, Up(dp));
    var last := Last(dp);
    DescentLastTurn(t, v);
    CompareToAntisymmetric(y.key, v);
    CompareToZero(y.key, v);
    UpLast(dp);
  }

  /** The descent's last turn was decided by comparing with the last node visited */
  lemma {:induction false} DescentLastTurn(t: Tree, v: string)
    requires t.Node?
    ensures DescentPath(t, v) != [] && ValidPath(t, Up(DescentPath(t, v)))
    ensures At(t, Up(DescentPath(t, v))).Node?
    ensures
      var dp := DescentPath(t, v);
      Last(dp) == (if CompareTo(At(t, Up(dp)).key, v) > 0 then L else R)
  {
    var dp := DescentPath(t, v);
    ValidUp(t, dp);
    var c := Child(t, dp[0]);
    assert dp == [dp[0]] + DescentPath(c, v);
    if c.Node? {
      DescentLastTurn(c, v);
      var dc := DescentPath(c, v);
      assert Up(dp) == [dp[0]] + Up(dc);
      assert Last(dp) == Last(dc);
    } else {
      assert Up(dp) == [];
    }
  }

  /** The link slot has black height 0 in a balanced tree: either the
      descent's sentinel slot or the other child of a node whose child there
      is the sentinel */
  lemma LinkSlotHeight(t: Tree, v: string)
    requires BlackBalanced(t)
    ensures BlackHeight(At(t, LinkPath(t, v))) == 0
  {
    if t.Node? {
      var dp := DescentPath(t, v);
      LinkMatchesDescent(t, v);
      var y := At(t, Up(dp));
      AtKeepsProperties(t, Up(dp));
      AtSnoc(t, Up(dp), L);
      AtSnoc(t, Up(dp), R);
      UpLast(dp);
    }
  }

  // ---------------------------------------------------------------------------
  // Red-black properties

  /** After linking the new red node at lq the fixup's invariant holds */
  lemma LinkedReady(t: Tree, lq: Path, v: string, id: nat)
    requires IsRedBlack(t) && ValidPath(t, lq) && BlackHeight(At(t, lq)) == 0
    ensures FixupInvariant(Replace(t, lq, NewNode(v, id)), lq)
  {
    var z := NewNode(v, id);
    var t1 := Replace(t, lq, z);
    ReplaceThenAt(t, lq, z);
    AtKeepsProperties(t, lq);
    ReplaceKeepsBalance(t, lq, z);
    ReplaceTwice(t, lq, z, z.(color := BLACK));
    ReplaceSame(t, lq);
    ReplaceKeepsRedRedFree(t, lq, At(t, lq), z.(color := BLACK));
  }

  /** `insert` leaves a red-black tree for every value, duplicates included:
      black root, no red node with a red child, equal black heights */
  lemma InsertKeepsRedBlack(t: Tree, v: string, id: nat)
    requires IsRedBlack(t)
    ensures IsRedBlack(InsertTree(t, v, id))
  {
    LinkSlotHeight(t, v);
    LinkedReady(t, LinkPath(t, v), v, id);
    FixupRestoresRedBlack(Replace(t, LinkPath(t, v), NewNode(v, id)), LinkPath(t, v));
  }

  lemma InsertFixedKeepsRedBlack(t: Tree, v: string, id: nat)
    requires IsRedBlack(t)
    ensures IsRedBlack(InsertTreeFixed(t, v, id))
  {
    var dp := DescentPath(t, v);
    LinkedReady(t, dp, v, id);
    FixupRestoresRedBlack(Replace(t, dp, NewNode(v, id)), dp);
  }

  // ---------------------------------------------------------------------------
  // Keys

  /** The keys of the tree after linking at lq, before and after the fixup */
  lemma InsertAtKeys(t: Tree, lq: Path, v: string, id: nat)
    requires ValidPath(t, lq) && !IsRed(t)
    ensures InOrder(InsertAt(t, lq, v, id)) == Before(t, lq) + [v] + After(t, lq)
    ensures UniqueIds(t) ==> Ids(InsertAt(t, lq, v, id)) == (Ids(t) - Ids(At(t, lq))) + {id}
    ensures UniqueIds(t) && id > 0 && id !in Ids(t) ==> UniqueIds(InsertAt(t, lq, v, id))
  {
    var z := NewNode(v, id);
    var t1 := Replace(t, lq, z);
    ReplaceThenAt(t, lq, z);
    assert InsertAt(t, lq, v, id) == Fixup(t1, lq);
    FixupKeepsNodes(t1, lq);
    InOrderSplit(t, lq, z);
    assert InOrder(z) == [v];
    if UniqueIds(t) {
      AtIds(t, lq);
      ReplaceIdsSet(t, lq, z);
      assert Ids(z) == {id};
      if id > 0 && id !in Ids(t) {
        ReplaceIds(t, lq, z);
      }
    }
  }

  /** The descent slot splits the sorted keys into those at most v and those greater */
  lemma DescentSides(t: Tree, v: string)
    requires Sorted(InOrder(t))
    ensures InOrder(t) == Before(t, DescentPath(t, v)) + After(t, DescentPath(t, v))
    ensures Sorted(Before(t, DescentPath(t, v))) && Sorted(After(t, DescentPath(t, v)))
    ensures forall k :: k in Before(t, DescentPath(t, v)) ==> LessEq(k, v)
    ensures forall k :: k in After(t, DescentPath(t, v)) ==> Less(v, k)
  {
    var dp := DescentPath(t, v);
    DescentSplits(t, v);
    InOrderAround(t, dp);
    assert InOrder(t) == Before(t, dp) + After(t, dp);
    SortedParts(Before(t, dp), After(t, dp));
  }

  /** When the last node visited holds v, the new node takes that node's left
      place: the keys before it are those before that node, and after it come
      v itself and the keys after the descent's slot */
  lemma DuplicateLink(t: Tree, v: string)
    requires t.Node? && LastVisited(t, v).key == v
    ensures ValidPath(t, Up(DescentPath(t, v)))
    ensures
      var dp, lq := DescentPath(t, v), LinkPath(t, v);
      && Before(t, dp) == Before(t, Up(dp)) + InOrder(LastVisited(t, v).left) + [v]
      && Before(t, lq) == Before(t, Up(dp))
      && After(t, lq) == [v] + After(t, dp)
  {
    var dp, lq := DescentPath(t, v), LinkPath(t, v);
    LinkMatchesDescent(t, v);
    var up := Up(dp);
    var y := LastVisited(t, v);
    UpLast(dp);
    assert dp == up + [R];
    assert lq == up + [L];
    ChildContext(t, up, L);
    ChildContext(t, up, R);
    AtSnoc(t, up, R);
    assert y.right.Leaf?;
    assert After(t, lq) == [y.key] + [] + After(t, up);
  }

  /** The link slot splits the sorted keys too, duplicates included */
  lemma LinkSides(t: Tree, v: string)
    requires Sorted(InOrder(t))
    ensures Sorted(Before(t, LinkPath(t, v))) && Sorted(After(t, LinkPath(t, v)))
    ensures forall k :: k in Before(t, LinkPath(t, v)) ==> LessEq(k, v)
    ensures forall k :: k in After(t, LinkPath(t, v)) ==> LessEq(v, k)
  {
    var dp := DescentPath(t, v);
    if t.Node? && LastVisited(t, v).key == v {
      DuplicateLinkSides(t, v);
    } else {
      DescentSides(t, v);
      if t.Node? {
        LinkMatchesDescent(t, v);
      }
      assert LinkPath(t, v) == dp;
      forall k | k in After(t, dp) ensures LessEq(v, k) {
        Trichotomy(v, k);
      }
    }
  }

  /** LinkSides when the last node visited holds v: the keys before the new
      node are a prefix of those before the descent's slot, and v itself
      leads the keys after it */
  lemma DuplicateLinkSides(t: Tree, v: string)
    requires Sorted(InOrder(t)) && t.Node? && LastVisited(t, v).key == v
    ensures Sorted(Before(t, LinkPath(t, v))) && Sorted(After(t, LinkPath(t, v)))
    ensures forall k :: k in Before(t, LinkPath(t, v)) ==> LessEq(k, v)
    ensures forall k :: k in After(t, LinkPath(t, v)) ==> LessEq(v, k)
  {
    var dp, lq := DescentPath(t, v), LinkPath(t, v);
    DescentSides(t, v);
    DuplicateLink(t, v);
    var b0, mid, a1 := Before(t, Up(dp)), InOrder(LastVisited(t, v).left) + [v], After(t, dp);
    assert Before(t, dp) == b0 + mid;
    SortedParts(b0, mid);
    forall k | k in b0 ensures LessEq(k, v) {
      assert k in Before(t, dp);
    }
    forall k | k in a1 ensures LessEq(v, k) {
      Trichotomy(v, k);
    }
    Trichotomy(v, v);
    SortedAround([], v, a1);
    assert [] + [v] + a1 == After(t, lq);
  }

  /** `insert` keeps the in-order keys sorted, for every value */
  lemma InsertKeepsSorted(t: Tree, v: string, id: nat)
    requires !IsRed(t) && Sorted(InOrder(t))
    ensures Sorted(InOrder(InsertTree(t, v, id)))
  {
    var lq := LinkPath(t, v);
    InsertAtKeys(t, lq, v, id);
    LinkSides(t, v);
    SortedAround(Before(t, lq), v, After(t, lq));
  }

  /** With a value not yet in the tree, the link step takes the descent's slot */
  lemma FreshLinksAtDescent(t: Tree, v: string)
    requires v !in InOrder(t)
    ensures LinkPath(t, v) == DescentPath(t, v)
  {
    if t.Node? {
      LinkMatchesDescent(t, v);
      var y := LastVisited(t, v);
      KeysAt(t, Up(DescentPath(t, v)));
      assert y.key in InOrder(y);
    }
  }

  /** With distinct keys, `insert` puts v into the in-order sequence at its sorted place */
  lemma InsertFreshInOrder(t: Tree, v: string, id: nat)
    requires !IsRed(t) && Sorted(InOrder(t)) && v !in InOrder(t)
    ensures InOrder(InsertTree(t, v, id)) == InsertSorted(InOrder(t), v)
  {
    var dp := DescentPath(t, v);
    FreshLinksAtDescent(t, v);
    InsertAtKeys(t, dp, v, id);
    DescentSides(t, v);
    InsertSortedSplit(Before(t, dp), v, After(t, dp));
  }

  /** With distinct keys, `insert` adds exactly the new node to the tree's nodes */
  lemma InsertFreshNodes(t: Tree, v: string, id: nat)
    requires !IsRed(t) && v !in InOrder(t)
    requires UniqueIds(t) && id > 0 && id !in Ids(t)
    ensures UniqueIds(InsertTree(t, v, id))
    ensures Ids(InsertTree(t, v, id)) == Ids(t) + {id}
  {
    var dp := DescentPath(t, v);
    FreshLinksAtDescent(t, v);
    InsertAtKeys(t, dp, v, id);
  }

  /** For every value, the nodes after `insert` are unique and are the new one
      and some of the old ones */
  lemma InsertKeepsUniqueIds(t: Tree, v: string, id: nat)
    requires !IsRed(t) && UniqueIds(t) && id > 0 && id !in Ids(t)
    ensures UniqueIds(InsertTree(t, v, id))
    ensures id in Ids(InsertTree(t, v, id)) && Ids(InsertTree(t, v, id)) <= Ids(t) + {id}
  {
    InsertAtKeys(t, LinkPath(t, v), v, id);
  }

  // ---------------------------------------------------------------------------
  // The duplicate-key overwrite

  /** Inserting "b", "a", "b" into an empty tree: the third insert links the
      new "b" in place of "a", which is lost */
  lemma DuplicateInsertLosesKey()
    ensures
      var t2 := InsertTree(InsertTree(Leaf, "b", 1), "a", 2);
      && IsRedBlack(t2) && InOrder(t2) == ["a", "b"]
      && InOrder(InsertTree(t2, "b", 3)) == ["b", "b"]
  {
    DuplicateFirstInsert();
    DuplicateSecondInsert();
    var t2 := Node(BLACK, "b", 1, NewNode("a", 2), Leaf);
    assert BlackBalanced(NewNode("a", 2)) && BlackHeight(NewNode("a", 2)) == 0;
    assert RedRedFree(NewNode("a", 2));
    DuplicateThirdInsert();
    assert InOrder(t2) == ["a"] + ["b"] + [];
    assert InOrder(Node(BLACK, "b", 1, NewNode("b", 3), Leaf)) == ["b"] + ["b"] + [];
  }

  /** First step of the duplicate-key run: "b" becomes a black root */
  lemma DuplicateFirstInsert()
    ensures InsertTree(Leaf, "b", 1) == Node(BLACK, "b", 1, Leaf, Leaf)
  {
    assert DescentPath(Leaf, "b") == [];
    var z := NewNode("b", 1);
    assert Replace(Leaf, [], z) == z;
    assert !ParentRed(z, []);
  }

  /** Second step: "a" goes left of the root */
  lemma DuplicateSecondInsert()
    ensures InsertTree(Node(BLACK, "b", 1, Leaf, Leaf), "a", 2)
      == Node(BLACK, "b", 1, NewNode("a", 2), Leaf)
  {
    var t1 := Node(BLACK, "b", 1, Leaf, Leaf);
    assert CompareTo("b", "a") > 0 && CompareTo("a", "b") < 0;
    assert DescentPath(t1, "a") == [L];
    assert Up([L]) == [];
    assert LinkPath(t1, "a") == [] + [L];
    var t' := Replace(t1, [L], NewNode("a", 2));
    assert t' == Node(BLACK, "b", 1, NewNode("a", 2), Leaf);
    assert !ParentRed(t', [L]);
  }

  /** Third step: the second "b" overwrites the left child "a" */
  lemma DuplicateThirdInsert()
    ensures InsertTree(Node(BLACK, "b", 1, NewNode("a", 2), Leaf), "b", 3)
      == Node(BLACK, "b", 1, NewNode("b", 3), Leaf)
  {
    var t2 := Node(BLACK, "b", 1, NewNode("a", 2), Leaf);
    assert CompareTo("b", "b") == 0;
    assert DescentPath(t2, "b") == [R];
    assert Up([R]) == [];
    assert LinkPath(t2, "b") == [] + [L];
    var t' := Replace(t2, [L], NewNode("b", 3));
    assert t' == Node(BLACK, "b", 1, NewNode("b", 3), Leaf);
    assert !ParentRed(t', [L]);
  }

  /** With the link step corrected, `insert` puts v at its sorted place for every value */
  lemma InsertFixedInOrder(t: Tree, v: string, id: nat)
    requires !IsRed(t) && Sorted(InOrder(t))
    ensures InOrder(InsertTreeFixed(t, v, id)) == InsertSorted(InOrder(t), v)
  {
    var dp := DescentPath(t, v);
    InsertAtKeys(t, dp, v, id);
    DescentSides(t, v);
    InsertSortedSplit(Before(t, dp), v, After(t, dp));
  }
}
