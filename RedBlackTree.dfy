/** `RedBlackTree.java`: the tree object itself. Its RedBlackNode objects are
    the records of an arena (`Arena`), `root` is an index into it and index 0
    is the sentinel `leaf`. The ghost field `tree` is the abstract tree the
    records represent; every method is proved against the functions on
    `tree` (`InsertTree`, `Fixup`, `SearchPath`, `InOrder`, `LevelOrder`,
    `Depth`) whose properties the other modules prove. */
module RedBlackTrees {
  import opened Wrappers
  import opened JavaStrings
  import opened Nodes
  import opened SortedSeqs
  import opened Trees
  import opened Balance
  import opened InsertFixup
  import opened Insertion
  import opened Search
  import opened Traversals
  import opened Arena
  import opened Queues

  // ---------------------------------------------------------------------------
  // Facts about the records that the methods read

  /** The record of the node at q and the index of its parent */
  lemma LoopTest(nodes: seq<NodeRecord>, root: int, t: Tree, q: Path)
    requires Represents(nodes, root, t) && FixupReady(t, q)
    ensures 0 < At(t, q).id < |nodes| && InArena(nodes, nodes[At(t, q).id].p)
    ensures nodes[nodes[At(t, q).id].p].color == RED <==> ParentRed(t, q)
  {
    MatchesPath(nodes, t, LEAF, q);
    if q != [] {
      ValidUp(t, q);
      ColorAtIndex(nodes, t, LEAF, Up(q));
    }
  }

  /** What the loop body reads when z's parent is red: the parent and
      grandparent indices, which side the parent is on, the uncle and which
      side z is on */
  lemma BodyLinks(nodes: seq<NodeRecord>, root: int, t: Tree, q: Path)
    requires Represents(nodes, root, t) && FixupReady(t, q) && ParentRed(t, q)
    ensures |q| >= 2 && ValidPath(t, Grand(q) + [Other(Last(Up(q)))]) && InArena(nodes, root)
    ensures ValidPath(t, Up(q)) && At(t, Up(q)).Node? && ValidPath(t, Grand(q)) && At(t, Grand(q)).Node?
    ensures
      var z, p, g := At(t, q).id, At(t, Up(q)).id, At(t, Grand(q)).id;
      var d, e := Last(Up(q)), Last(q);
      var u := IdOf(At(t, Grand(q) + [Other(d)]));
      && 0 < z < |nodes| && nodes[z].p == p
      && 0 < p < |nodes| && nodes[p].p == g
      && 0 < g < |nodes| && (nodes[g].lc == p <==> d == L)
      && Link(nodes[g], Other(d)) == u && InArena(nodes, u)
      && (nodes[u].color == RED <==> IsRed(At(t, Grand(q) + [Other(d)])))
      && (Link(nodes[p], Other(d)) == z <==> e == Other(d))
  {
    StepShape(t, q);
    var pq, gq, d, e := Up(q), Grand(q), Last(Up(q)), Last(q);
    MatchesPath(nodes, t, LEAF, q);
    MatchesPath(nodes, t, LEAF, pq);
    MatchesPath(nodes, t, LEAF, gq);
    ColorAtIndex(nodes, t, LEAF, gq + [Other(d)]);
    AtIds(t, gq);
    AtIds(t, pq);
    UniqueIdsChild(At(t, gq), d);
    UniqueIdsChild(At(t, pq), e);
  }

  /** The red-uncle branch (lines 228-233 and 245-250) on the records: the
      three recolourings give the tree FixupStep gives, and the new z is the
      record of the node at the new cursor */
  lemma RecolorBranch(nodes: seq<NodeRecord>, root: int, t: Tree, q: Path, d: Dir,
                      z: int, p: int, g: int, u: int) returns (t2: Tree, q2: Path)
    requires Represents(nodes, root, t) && FixupReady(t, q) && ParentRed(t, q) && z == At(t, q).id
    requires 0 < z < |nodes| && nodes[z].p == p && 0 < p < |nodes| && nodes[p].p == g && 0 < g < |nodes|
    requires (nodes[g].lc == p <==> d == L) && u == Link(nodes[g], Other(d))
    requires InArena(nodes, u) && nodes[u].color == RED
    ensures t2 == FixupStep(t, q).tree && q2 == FixupStep(t, q).z
    ensures FixupReady(t2, q2) && |q2| < |q| && Fixup(t2, q2) == Fixup(t, q)
    ensures
      var n2 := SetColor(SetColor(nodes, p, BLACK), u, BLACK);
      && n2[n2[z].p].p == g
      && Represents(SetColor(n2, g, RED), root, t2)
      && g == At(t2, q2).id
  {
    t2, q2 := FixupStep(t, q).tree, FixupStep(t, q).z;
    StepShape(t, q);
    BodyLinks(nodes, root, t, q);
    var pq, gq := Up(q), Grand(q);
    assert d == Last(pq);
    RecolorStepsIds(t, gq, d);
    RecolorRefines(nodes, root, t, pq, BLACK);
    var t1 := RecolorAt(t, pq, BLACK);
    var n1 := SetColor(nodes, p, BLACK);
    RecolorRefines(n1, root, t1, gq + [Other(d)], BLACK);
    var t1' := RecolorAt(t1, gq + [Other(d)], BLACK);
    var n2 := SetColor(n1, u, BLACK);
    RecolorRefines(n2, root, t1', gq, RED);
  }

  /** The recolourings and the rotation at the grandparent that end the
      black-uncle branch, on records (n1, r1) that represent the tree after
      the optional rotation at the parent */
  lemma OuterSteps(n1: seq<NodeRecord>, r1: int, t: Tree, g: Path, d: Dir, e: Dir)
    requires ValidPath(t, g) && At(t, g).Node?
    requires Child(At(t, g), d).Node? && Child(Child(At(t, g), d), e).Node?
    requires ValidPath(t, g + [d]) && At(t, g + [d]) == Child(At(t, g), d)
    requires Represents(n1, r1, if e == Other(d) then RotateAt(t, g + [d], d) else t)
    ensures
      var G := At(t, g).id;
      var P := Child(At(t, g), d);
      var x := if e == Other(d) then P.id else Child(P, e).id;
      && 0 < x < |n1| && 0 < n1[x].p < |n1| && n1[n1[x].p].p == G && 0 < G < |n1|
      && var n3 := SetColor(SetColor(n1, n1[x].p, BLACK), G, RED);
      && WellFormed(n3) && InArena(n3, r1)
      && Represents(Rotated(n3, r1, G, Other(d)).0, Rotated(n3, r1, G, Other(d)).1,
                    Replace(t, g, OuterCase(if e == Other(d) then InnerCase(At(t, g), d) else At(t, g), d)))
  {
    RotateSteps(t, g, d, e);
    RotateStepsIds(t, g, d, e);
    var t1 := if e == Other(d) then RotateAt(t, g + [d], d) else t;
    var P := Child(At(t, g), d);
    var x := if e == Other(d) then P.id else Child(P, e).id;
    var G := At(t, g).id;
    assert Up(g + [d] + [d]) == g + [d] && Up(g + [d]) == g;
    MatchesPath(n1, t1, LEAF, g + [d] + [d]);
    MatchesPath(n1, t1, LEAF, g + [d]);
    var p1 := n1[x].p;
    assert p1 == At(t1, g + [d]).id;
    RecolorRefines(n1, r1, t1, g + [d], BLACK);
    var t2 := RecolorAt(t1, g + [d], BLACK);
    var n2 := SetColor(n1, p1, BLACK);
    RecolorRefines(n2, r1, t2, g, RED);
    var t3 := RecolorAt(t2, g, RED);
    var n3 := SetColor(n2, G, RED);
    RotateRefines(n3, r1, t3, g, Other(d));
  }

  /** The black-uncle branch (lines 234-239 and 251-256) on the records: an
      optional rotation at the parent gives (n1, r1); the recolourings and
      the rotation at the grandparent then give the tree FixupStep gives, and
      the new z, the parent when z was the inner child, is the record of the
      node at the new cursor */
  lemma RotateBranch(nodes: seq<NodeRecord>, root: int, t: Tree, q: Path, d: Dir,
                     z: int, p: int, g: int, u: int, n1: seq<NodeRecord>, r1: int)
    returns (t2: Tree, q2: Path)
    requires Represents(nodes, root, t) && FixupReady(t, q) && ParentRed(t, q) && z == At(t, q).id
    requires InArena(nodes, root)
    requires 0 < z < |nodes| && nodes[z].p == p && 0 < p < |nodes| && nodes[p].p == g && 0 < g < |nodes|
    requires (nodes[g].lc == p <==> d == L) && u == Link(nodes[g], Other(d))
    requires InArena(nodes, u) && nodes[u].color != RED
    requires Link(nodes[p], Other(d)) == z ==> (n1, r1) == Rotated(nodes, root, p, d)
    requires Link(nodes[p], Other(d)) != z ==> n1 == nodes && r1 == root
    ensures t2 == FixupStep(t, q).tree && q2 == FixupStep(t, q).z
    ensures FixupReady(t2, q2) && |q2| < |q| && Fixup(t2, q2) == Fixup(t, q)
    ensures
      var x := if Link(nodes[p], Other(d)) == z then p else z;
      && 0 < x < |n1| && 0 < n1[x].p < |n1| && n1[n1[x].p].p == g
      && var n2 := SetColor(n1, n1[x].p, BLACK);
      && n2[n2[x].p].p == g
      && var n3 := SetColor(n2, g, RED);
      && WellFormed(n3) && InArena(n3, r1)
      && Represents(Rotated(n3, r1, g, Other(d)).0, Rotated(n3, r1, g, Other(d)).1, t2)
      && x == At(t2, q2).id
  {
    t2, q2 := FixupStep(t, q).tree, FixupStep(t, q).z;
    StepShape(t, q);
    BodyLinks(nodes, root, t, q);
    var pq, gq, e := Up(q), Grand(q), Last(q);
    assert d == Last(pq);
    RotateSteps(t, gq, d, e);
    RotateStepsIds(t, gq, d, e);
    if e == Other(d) {
      RotateRefines(nodes, root, t, pq, d);
    }
    OuterSteps(n1, r1, t, gq, d, e);
  }

  /** The link step of `insert` (lines 108-119) on the records: the new
      record z, appended with its parent set to the last node visited, is
      hung on the side LinkPath takes */
  function LinkParent(t: Tree, v: string): int
  {
    ParentId(t, LinkPath(t, v), LEAF)
  }

  lemma LinkFacts(nodes: seq<NodeRecord>, root: int, t: Tree, v: string)
    requires Represents(nodes, root, t)
    ensures LinkParent(t, v) == ParentId(t, DescentPath(t, v), LEAF)
    ensures InArena(nodes, LinkParent(t, v)) && (LinkParent(t, v) == LEAF <==> t.Leaf?)
    ensures t.Node? ==> LinkParent(t, v) in Ids(t)
    ensures t.Node? ==>
      (Last(LinkPath(t, v)) == R <==> CompareTo(v, nodes[LinkParent(t, v)].data) > 0)
  {
    MatchesBounds(nodes, t, LEAF);
    if t.Node? {
      var dp := DescentPath(t, v);
      var lq := LinkPath(t, v);
      LinkMatchesDescent(t, v);
      ValidUp(t, dp);
      ValidUp(t, lq);
      UpLast(dp);
      assert Up(lq) == Up(dp);
      MatchesPath(nodes, t, LEAF, Up(dp));
      RootOfPath(t, Up(dp));
      AtIds(t, Up(dp));
    }
  }

  /** The records after the link step, in the order `insert` writes them */
  lemma {:induction false} InsertLinkRefines(nodes: seq<NodeRecord>, root: int, t: Tree, v: string, n4: seq<NodeRecord>, r4: int)
    requires Represents(nodes, root, t) && InArena(nodes, LinkParent(t, v))
    requires
      var z := |nodes|;
      var y := LinkParent(t, v);
      var lq := LinkPath(t, v);
      var n1: seq<NodeRecord> := nodes + [NodeRecord(v, RED, NULL, NULL, NULL).(p := y)];
      var n2: seq<NodeRecord> := if t.Leaf? then n1
                else if Last(lq) == R then n1[y := n1[y].(rc := z)]
                else n1[y := n1[y].(lc := z)];
      var n3: seq<NodeRecord> := n2[z := n2[z].(lc := LEAF)];
      n4 == n3[z := n3[z].(rc := LEAF)]
    requires r4 == if t.Leaf? then |nodes| else root
    ensures Represents(n4, r4, Replace(t, LinkPath(t, v), NewNode(v, |nodes|)))
  {
    LinkFacts(nodes, root, t, v);
    MatchesBounds(nodes, t, LEAF);
    var z := |nodes|;
    var y := LinkParent(t, v);
    var lq := LinkPath(t, v);
    var s := NewNode(v, z);
    var m1: seq<NodeRecord> := nodes + [NodeRecord(v, RED, y, LEAF, LEAF)];
    var m2: seq<NodeRecord> := if t.Leaf? then m1 else m1[y := SetLink(m1[y], Last(lq), z)];
    var n1: seq<NodeRecord> := nodes + [NodeRecord(v, RED, NULL, NULL, NULL).(p := y)];
    var n2: seq<NodeRecord> := if t.Leaf? then n1
              else if Last(lq) == R then n1[y := n1[y].(rc := z)]
              else n1[y := n1[y].(lc := z)];
    var n3: seq<NodeRecord> := n2[z := n2[z].(lc := LEAF)];
    assert n4 == m2 by {
      assert |n4| == |m2|;
      forall i | 0 <= i < |n4|
        ensures n4[i] == m2[i]
      {
      }
    }
    assert Matches(m2, s, y);
    LinkedWellFormed(nodes, y, v, t.Node?, if t.Leaf? then L else Last(lq));
    ReplaceIds(t, lq, s);
    MatchesReplace(nodes, m2, t, LEAF, lq, s);
    if t.Node? {
      ReplaceKeepsRoot(t, lq, s);
    }
  }

  /** A new red record whose parent and children are in the arena, linked
      under its parent when it has one, keeps the arena well formed */
  lemma LinkedWellFormed(nodes: seq<NodeRecord>, y: int, v: string, linked: bool, d: Dir)
    requires WellFormed(nodes) && InArena(nodes, y)
    requires linked ==> y != LEAF
    ensures
      var z := |nodes|;
      var m1 := nodes + [NodeRecord(v, RED, y, LEAF, LEAF)];
      WellFormed(if linked then m1[y := SetLink(m1[y], d, z)] else m1)
  {
    var z := |nodes|;
    var m1 := nodes + [NodeRecord(v, RED, y, LEAF, LEAF)];
    var m2 := if linked then m1[y := SetLink(m1[y], d, z)] else m1;
    assert m2[LEAF] == nodes[LEAF];
    forall i | 0 < i < |m2|
      ensures InArena(m2, m2[i].p) && InArena(m2, m2[i].lc) && InArena(m2, m2[i].rc)
    {
      if i == z {
        assert m2[i] == NodeRecord(v, RED, y, LEAF, LEAF);
      } else if linked && i == y {
        assert m2[i].p == nodes[i].p;
      } else {
        assert m2[i] == nodes[i];
      }
    }
  }

  /** What `insert` hands to the fixup: the new red node at the link slot,
      from which the fixup's result is InsertTree */
  lemma LinkedForFixup(t: Tree, v: string, id: nat)
    requires !IsRed(t)
    ensures FixupReady(Replace(t, LinkPath(t, v), NewNode(v, id)), LinkPath(t, v))
    ensures At(Replace(t, LinkPath(t, v), NewNode(v, id)), LinkPath(t, v)).id == id
    ensures InsertTree(t, v, id) == Fixup(Replace(t, LinkPath(t, v), NewNode(v, id)), LinkPath(t, v))
  {
    var lq := LinkPath(t, v);
    ReplaceThenAt(t, lq, NewNode(v, id));
    if lq != [] {
      ReplaceKeepsRoot(t, lq, NewNode(v, id));
    }
  }

  /** One step of the descent (lines 101-106): the record of the node reached
      holds its key and its child links, and the walk continues on the side
      the comparison picks */
  lemma DescentStep(nodes: seq<NodeRecord>, root: int, t: Tree, v: string, dp: Path)
    requires Represents(nodes, root, t) && ValidPath(t, dp) && At(t, dp).Node?
    requires DescentPath(t, v) == dp + DescentPath(At(t, dp), v)
    ensures
      var a := At(t, dp);
      var dir := if CompareTo(a.key, v) > 0 then L else R;
      && 0 < a.id < |nodes| && nodes[a.id].data == a.key
      && nodes[a.id].lc == IdOf(a.left) && nodes[a.id].rc == IdOf(a.right)
      && ValidPath(t, dp + [dir]) && At(t, dp + [dir]) == Child(a, dir)
      && DescentPath(t, v) == (dp + [dir]) + DescentPath(Child(a, dir), v)
      && ParentId(t, dp + [dir], LEAF) == a.id
  {
    var a := At(t, dp);
    var dir := if CompareTo(a.key, v) > 0 then L else R;
    MatchesPath(nodes, t, LEAF, dp);
    DescentPathStep(t, v, dp);
    assert Up(dp + [dir]) == dp;
  }

  /** DescentStep on the tree alone */
  lemma DescentPathStep(t: Tree, v: string, dp: Path)
    requires ValidPath(t, dp) && At(t, dp).Node?
    requires DescentPath(t, v) == dp + DescentPath(At(t, dp), v)
    ensures
      var a := At(t, dp);
      var dir := if CompareTo(a.key, v) > 0 then L else R;
      && ValidPath(t, dp + [dir]) && At(t, dp + [dir]) == Child(a, dir)
      && DescentPath(t, v) == (dp + [dir]) + DescentPath(Child(a, dir), v)
  {
    var a := At(t, dp);
    AtSnoc(t, dp, if CompareTo(a.key, v) > 0 then L else R);
    DescentSnoc(dp, a, v);
  }

  /** The descent from a node is its first turn followed by the descent
      from the child on that side */
  lemma DescentSnoc(dp: Path, a: Tree, v: string)
    requires a.Node?
    ensures
      var dir := if CompareTo(a.key, v) > 0 then L else R;
      dp + DescentPath(a, v) == (dp + [dir]) + DescentPath(Child(a, dir), v)
  {
    var dir := if CompareTo(a.key, v) > 0 then L else R;
    var rest := DescentPath(Child(a, dir), v);
    assert DescentPath(a, v) == [dir] + rest;
    assert dp + ([dir] + rest) == (dp + [dir]) + rest;
  }

  /** The descent stops at the sentinel exactly at the end of DescentPath */
  lemma DescentEnd(nodes: seq<NodeRecord>, root: int, t: Tree, v: string, dp: Path)
    requires Represents(nodes, root, t) && ValidPath(t, dp) && IdOf(At(t, dp)) == LEAF
    requires DescentPath(t, v) == dp + DescentPath(At(t, dp), v)
    ensures dp == DescentPath(t, v)
  {
    MatchesPath(nodes, t, LEAF, dp);
    assert dp + [] == dp;
  }

  /** A search in a red-black tree of n nodes visits at most 2 log2(n + 1)
      nodes, so `contains` makes at most 2 log2(n + 1) + 1 compares */
  lemma CompareCountBound(t: Tree, v: string)
    requires IsRedBlack(t)
    ensures |SearchPath(t, v)| <= 2 * BlackHeight(t) && Pow2(BlackHeight(t)) <= Size(t) + 1
    ensures Pow2(|SearchPath(t, v)| / 2) <= Size(t) + 1
  {
    RedBlackDepthBound(t);
    Pow2Monotone(|SearchPath(t, v)| / 2, Depth(t) / 2);
  }

  /** Only the empty tree has depth 0 */
  lemma DepthOfNode(t: Tree)
    ensures t.Leaf? <==> Depth(t) == 0
  {
  }

  /** The record of a node: its data and whether each link is the sentinel */
  lemma NodeRecordOf(nodes: seq<NodeRecord>, t: Tree, par: int)
    requires Matches(nodes, t, par) && t.Node?
    ensures 0 < t.id < |nodes| && nodes[t.id].data == t.key
    ensures nodes[t.id].lc == IdOf(t.left) && (nodes[t.id].lc == LEAF <==> t.left.Leaf?)
    ensures nodes[t.id].rc == IdOf(t.right) && (nodes[t.id].rc == LEAF <==> t.right.Leaf?)
    ensures Matches(nodes, t.left, t.id) && Matches(nodes, t.right, t.id)
  {
    if t.left.Node? {
      assert Matches(nodes, t.left, t.id);
    }
    if t.right.Node? {
      assert Matches(nodes, t.right, t.id);
    }
  }

  /** The queue holds the ids of the nodes f, ps giving each one's parent */
  ghost predicate Queued(contents: seq<int>, nodes: seq<NodeRecord>, f: seq<Tree>, ps: seq<int>)
  {
    && |contents| == |f| == |ps|
    && forall i :: 0 <= i < |f| ==> f[i].Node? && contents[i] == f[i].id && Matches(nodes, f[i], ps[i])
  }

  /** Lines 137-142, for one child that is not the sentinel: enqueue it;
      the queue refuses it only when it is full */
  method EnqueueChild(nodeList: Queue<int>, c: int, ghost nodes: seq<NodeRecord>, ghost s: Tree, ghost par: int,
                      ghost f: seq<Tree>, ghost ps: seq<int>)
    returns (ghost f': seq<Tree>, ghost ps': seq<int>)
    requires nodeList.Valid() && nodeList.N == CAPACITY && Queued(nodeList.Contents, nodes, f, ps)
    requires s.Node? && c == s.id && Matches(nodes, s, par)
    modifies nodeList, nodeList.data
    ensures nodeList.Valid() && nodeList.data == old(nodeList.data)
    ensures Queued(nodeList.Contents, nodes, f', ps')
    ensures f' == Offer(f, s, CAPACITY)
  {
    nodeList.EnQueue(c);
    if |f| < CAPACITY {
      f', ps' := f + [s], ps + [par];
    } else {
      f', ps' := f, ps;
    }
  }

  /** The walk visits the front node, then continues with the rest and its children */
  lemma BfsFront(f: seq<Tree>)
    requires f != [] && f[0].Node?
    ensures Bfs(f) == [f[0].key] + Bfs(f[1..] + RealChildren(f[0]))
  {
  }

  /** Lines 133-143, one pass of the loop: dequeue the front node, print its
      data and enqueue its children that are not the sentinel, left first */
  method VisitFront(nodeList: Queue<int>, nodes: seq<NodeRecord>, ghost f: seq<Tree>, ghost ps: seq<int>)
    returns (key: string, ghost f': seq<Tree>, ghost ps': seq<int>)
    requires nodeList.Valid() && nodeList.N == CAPACITY && Queued(nodeList.Contents, nodes, f, ps) && f != []
    modifies nodeList, nodeList.data
    ensures nodeList.Valid() && nodeList.data == old(nodeList.data)
    ensures Queued(nodeList.Contents, nodes, f', ps')
    ensures f[0].Node? && key == f[0].key
    ensures f' == Offer(Offer(f[1..], f[0].left, CAPACITY), f[0].right, CAPACITY)
    ensures ForestSize(f') < ForestSize(f)
  {
    var front := nodeList.DeQueue();
    var node := front.value;
    ghost var t := f[0];
    NodeRecordOf(nodes, t, ps[0]);
    key := nodes[node].data;
    f', ps' := f[1..], ps[1..];
    assert ForestSize(f) == Size(t) + ForestSize(f');
    if nodes[node].lc != LEAF {
      f', ps' := EnqueueChild(nodeList, nodes[node].lc, nodes, t.left, node, f', ps');
    }
    assert f' == Offer(f[1..], t.left, CAPACITY);
    if nodes[node].rc != LEAF {
      f', ps' := EnqueueChild(nodeList, nodes[node].rc, nodes, t.right, node, f', ps');
    }
  }

  /** The test driver (lines 368-390) inserts "1" to "5" in order into a
      new tree: the in-order listing is 1 to 5, the level order 2 1 4 3 5,
      "3" is found after visiting three nodes, and the height is 2. The
      searches `closeBy` makes for "6" and "0" end at "5" and "1". */
  lemma SampleRun()
    ensures
      var t1 := InsertTree(Leaf, "1", 1);
      var t2 := InsertTree(t1, "2", 2);
      var t3 := InsertTree(t2, "3", 3);
      var t4 := InsertTree(t3, "4", 4);
      var t5 := InsertTree(t4, "5", 5);
      && InOrder(t5) == ["1", "2", "3", "4", "5"]
      && LevelOrder(t5) == ["2", "1", "4", "3", "5"]
      && SearchPath(t5, "3") == ["2", "4", "3"]
      && SearchPath(t5, "6") == ["2", "4", "5"] && SearchPath(t5, "0") == ["2", "1"]
      && Depth(t5) - 1 == 2
  {
    SampleInsert1();
    SampleInsert2();
    SampleInsert3();
    SampleInsert4();
    SampleInsert5();
    SampleQueries();
  }

  /** The first insert makes a black root */
  lemma SampleInsert1()
    ensures InsertTree(Leaf, "1", 1) == Node(BLACK, "1", 1, Leaf, Leaf)
  {
    var z := NewNode("1", 1);
    assert LinkPath(Leaf, "1") == [];
    assert Replace(Leaf, [], z) == z;
    assert !ParentRed(z, []);
  }

  /** "2" goes right of the black root and stays red */
  lemma SampleInsert2()
    ensures
      InsertTree(Node(BLACK, "1", 1, Leaf, Leaf), "2", 2) ==
      Node(BLACK, "1", 1, Leaf, NewNode("2", 2))
  {
    var t := Node(BLACK, "1", 1, Leaf, Leaf);
    assert CompareTo("1", "2") < 0 && CompareTo("2", "1") > 0;
    assert DescentPath(t, "2") == [R];
    assert Up([R]) == [];
    assert LinkPath(t, "2") == [] + [R];
    var t1 := Node(BLACK, "1", 1, Leaf, NewNode("2", 2));
    assert Replace(t, [R], NewNode("2", 2)) == t1;
    assert !ParentRed(t1, [R]);
  }

  /** "3" makes a red-red pair on the right spine: black uncle, outer case,
      a left rotation at the root */
  lemma SampleInsert3()
    ensures
      InsertTree(Node(BLACK, "1", 1, Leaf, NewNode("2", 2)), "3", 3) ==
      Node(BLACK, "2", 2, NewNode("1", 1), NewNode("3", 3))
  {
    var t := Node(BLACK, "1", 1, Leaf, NewNode("2", 2));
    assert CompareTo("1", "3") < 0 && CompareTo("2", "3") < 0 && CompareTo("3", "2") > 0;
    assert DescentPath(t, "3") == [R, R];
    assert Up([R, R]) == [R] && Last([R, R]) == R;
    assert LinkPath(t, "3") == [R] + [R];
    var t1 := Node(BLACK, "1", 1, Leaf, Node(RED, "2", 2, Leaf, NewNode("3", 3)));
    assert Replace(t, [R, R], NewNode("3", 3)) == t1;
    assert ParentRed(t1, [R, R]);
    assert Grand([R, R]) == [] && Last(Up([R, R])) == R;
    assert [] + [Other(R)] == [L] && At(t1, [L]) == Leaf;
    var t2 := Node(BLACK, "1", 1, Leaf, Node(BLACK, "2", 2, Leaf, NewNode("3", 3)));
    assert RecolorAt(t1, [R], BLACK) == t2;
    var t3 := t2.(color := RED);
    assert RecolorAt(t2, [], RED) == t3;
    var n3 := Node(BLACK, "2", 2, NewNode("1", 1), NewNode("3", 3));
    assert RotateAt(t3, [], L) == n3;
    assert [] + [R] == [R];
    assert FixupStep(t1, [R, R]) == Cursor(n3, [R]);
    assert !ParentRed(n3, [R]);
  }

  /** "4" finds a red uncle: recolouring, then the root turns black again */
  lemma SampleInsert4()
    ensures
      InsertTree(Node(BLACK, "2", 2, NewNode("1", 1), NewNode("3", 3)), "4", 4) ==
      Node(BLACK, "2", 2, Node(BLACK, "1", 1, Leaf, Leaf), Node(BLACK, "3", 3, Leaf, NewNode("4", 4)))
  {
    var t := Node(BLACK, "2", 2, NewNode("1", 1), NewNode("3", 3));
    assert CompareTo("2", "4") < 0 && CompareTo("3", "4") < 0 && CompareTo("4", "3") > 0;
    assert DescentPath(t, "4") == [R, R];
    assert Up([R, R]) == [R] && Last([R, R]) == R;
    assert LinkPath(t, "4") == [R] + [R];
    var t1 := Node(BLACK, "2", 2, NewNode("1", 1), Node(RED, "3", 3, Leaf, NewNode("4", 4)));
    assert Replace(t, [R, R], NewNode("4", 4)) == t1;
    assert ParentRed(t1, [R, R]);
    assert Grand([R, R]) == [] && Last(Up([R, R])) == R;
    assert [] + [Other(R)] == [L] && IsRed(At(t1, [L]));
    var t2 := Node(BLACK, "2", 2, NewNode("1", 1), Node(BLACK, "3", 3, Leaf, NewNode("4", 4)));
    assert RecolorAt(t1, [R], BLACK) == t2;
    var t3 := Node(BLACK, "2", 2, Node(BLACK, "1", 1, Leaf, Leaf), Node(BLACK, "3", 3, Leaf, NewNode("4", 4)));
    assert RecolorAt(t2, [L], BLACK) == t3;
    var t4 := t3.(color := RED);
    assert RecolorAt(t3, [], RED) == t4;
    assert FixupStep(t1, [R, R]) == Cursor(t4, []);
    assert !ParentRed(t4, []);
  }

  /** "5" finds a black uncle below the root's right child: outer case, a
      left rotation at "3" */
  lemma SampleInsert5()
    ensures
      InsertTree(Node(BLACK, "2", 2, Node(BLACK, "1", 1, Leaf, Leaf), Node(BLACK, "3", 3, Leaf, NewNode("4", 4))), "5", 5) ==
      Node(BLACK, "2", 2, Node(BLACK, "1", 1, Leaf, Leaf), Node(BLACK, "4", 4, NewNode("3", 3), NewNode("5", 5)))
  {
    var b1 := Node(BLACK, "1", 1, Leaf, Leaf);
    var t := Node(BLACK, "2", 2, b1, Node(BLACK, "3", 3, Leaf, NewNode("4", 4)));
    var t1 := Node(BLACK, "2", 2, b1, Node(BLACK, "3", 3, Leaf, Node(RED, "4", 4, Leaf, NewNode("5", 5))));
    var n5 := Node(BLACK, "2", 2, b1, Node(BLACK, "4", 4, NewNode("3", 3), NewNode("5", 5)));
    SampleLink5();
    SampleFixup5();
    assert !ParentRed(n5, [R, R]);
    assert Fixup(t1, [R, R, R]) == n5;
  }

  lemma SampleLink5()
    ensures
      var t := Node(BLACK, "2", 2, Node(BLACK, "1", 1, Leaf, Leaf), Node(BLACK, "3", 3, Leaf, NewNode("4", 4)));
      && LinkPath(t, "5") == [R, R, R]
      && Replace(t, [R, R, R], NewNode("5", 5)) ==
         Node(BLACK, "2", 2, Node(BLACK, "1", 1, Leaf, Leaf), Node(BLACK, "3", 3, Leaf, Node(RED, "4", 4, Leaf, NewNode("5", 5))))
  {
    var b1 := Node(BLACK, "1", 1, Leaf, Leaf);
    var t := Node(BLACK, "2", 2, b1, Node(BLACK, "3", 3, Leaf, NewNode("4", 4)));
    assert CompareTo("2", "5") < 0 && CompareTo("3", "5") < 0 && CompareTo("4", "5") < 0 && CompareTo("5", "4") > 0;
    assert DescentPath(t, "5") == [R, R, R];
    assert Up([R, R, R]) == [R, R] && Last([R, R, R]) == R;
    assert LinkPath(t, "5") == [R, R] + [R];
  }

  lemma SampleFixup5()
    ensures
      var t1 := Node(BLACK, "2", 2, Node(BLACK, "1", 1, Leaf, Leaf), Node(BLACK, "3", 3, Leaf, Node(RED, "4", 4, Leaf, NewNode("5", 5))));
      && FixupReady(t1, [R, R, R]) && ParentRed(t1, [R, R, R])
      && FixupStep(t1, [R, R, R]) ==
         Cursor(Node(BLACK, "2", 2, Node(BLACK, "1", 1, Leaf, Leaf), Node(BLACK, "4", 4, NewNode("3", 3), NewNode("5", 5))), [R, R])
  {
    var b1 := Node(BLACK, "1", 1, Leaf, Leaf);
    var t1 := Node(BLACK, "2", 2, b1, Node(BLACK, "3", 3, Leaf, Node(RED, "4", 4, Leaf, NewNode("5", 5))));
    assert ParentRed(t1, [R, R, R]);
    assert Up([R, R, R]) == [R, R];
    assert Grand([R, R, R]) == [R] && Last(Up([R, R, R])) == R && Last([R, R, R]) == R;
    assert [R] + [Other(R)] == [R, L] && At(t1, [R, L]) == Leaf;
    var t2 := Node(BLACK, "2", 2, b1, Node(BLACK, "3", 3, Leaf, Node(BLACK, "4", 4, Leaf, NewNode("5", 5))));
    assert RecolorAt(t1, [R, R], BLACK) == t2;
    var t3 := Node(BLACK, "2", 2, b1, Node(RED, "3", 3, Leaf, Node(BLACK, "4", 4, Leaf, NewNode("5", 5))));
    assert RecolorAt(t2, [R], RED) == t3;
    var n5 := Node(BLACK, "2", 2, b1, Node(BLACK, "4", 4, NewNode("3", 3), NewNode("5", 5)));
    assert RotateAt(t3, [R], L) == n5;
    assert [R] + [R] == [R, R];
  }

  /** The driver's queries on the tree the five inserts build */
  lemma SampleQueries()
    ensures
      var t5 := Node(BLACK, "2", 2, Node(BLACK, "1", 1, Leaf, Leaf), Node(BLACK, "4", 4, NewNode("3", 3), NewNode("5", 5)));
      && InOrder(t5) == ["1", "2", "3", "4", "5"]
      && LevelOrder(t5) == ["2", "1", "4", "3", "5"]
      && SearchPath(t5, "3") == ["2", "4", "3"]
      && SearchPath(t5, "6") == ["2", "4", "5"] && SearchPath(t5, "0") == ["2", "1"]
      && Depth(t5) - 1 == 2
  {
    var b1, r3, r5 := Node(BLACK, "1", 1, Leaf, Leaf), NewNode("3", 3), NewNode("5", 5);
    var b4 := Node(BLACK, "4", 4, r3, r5);
    var t5 := Node(BLACK, "2", 2, b1, b4);
    SampleSearches();
    SampleLevelOrder();
  }

  lemma SampleSearches()
    ensures
      var t5 := Node(BLACK, "2", 2, Node(BLACK, "1", 1, Leaf, Leaf), Node(BLACK, "4", 4, NewNode("3", 3), NewNode("5", 5)));
      && SearchPath(t5, "3") == ["2", "4", "3"]
      && SearchPath(t5, "6") == ["2", "4", "5"] && SearchPath(t5, "0") == ["2", "1"]
  {
    assert CompareTo("2", "3") < 0 && CompareTo("4", "3") > 0 && CompareTo("3", "3") == 0;
    assert CompareTo("2", "6") < 0 && CompareTo("4", "6") < 0 && CompareTo("5", "6") < 0;
    assert CompareTo("2", "0") > 0 && CompareTo("1", "0") > 0;
  }

  lemma SampleLevelOrder()
    ensures
      var t5 := Node(BLACK, "2", 2, Node(BLACK, "1", 1, Leaf, Leaf), Node(BLACK, "4", 4, NewNode("3", 3), NewNode("5", 5)));
      LevelOrder(t5) == ["2", "1", "4", "3", "5"]
  {
    var b1, r3, r5 := Node(BLACK, "1", 1, Leaf, Leaf), NewNode("3", 3), NewNode("5", 5);
    var b4 := Node(BLACK, "4", 4, r3, r5);
    var t5 := Node(BLACK, "2", 2, b1, b4);
    assert RealChildren(t5) == [b1, b4];
    assert RealChildren(b1) == [];
    assert RealChildren(b4) == [r3, r5];
    assert RealChildren(r3) == [] && RealChildren(r5) == [];
    BfsFront([t5]);
    assert [t5][1..] + [b1, b4] == [b1, b4];
    BfsFront([b1, b4]);
    assert [b1, b4][1..] + [] == [b4];
    BfsFront([b4]);
    assert [b4][1..] + [r3, r5] == [r3, r5];
    BfsFront([r3, r5]);
    assert [r3, r5][1..] + [] == [r5];
    BfsFront([r5]);
    assert [r5][1..] + [] == [];
  }

  class RedBlackTree {
    /** The RedBlackNode objects, index 0 being the sentinel `leaf` */
    var nodes: seq<NodeRecord>
    var root: int
    var recentCompares: int
    var numberOfNodes: int
    /** The tree the records reachable from `root` form */
    ghost var tree: Tree

    /** The records represent a red-black tree whose in-order keys are
        sorted; `numberOfNodes` is never updated after the constructor */
    ghost predicate Valid()
      reads this`nodes, this`root, this`tree, this`numberOfNodes
    {
      && Represents(nodes, root, tree)
      && IsRedBlack(tree)
      && Sorted(InOrder(tree))
      && numberOfNodes == 0
    }

    /** Lines 18-23: the sentinel alone, as root and leaf */
    constructor()
      ensures Valid() && tree == Leaf && |nodes| == 1
      ensures recentCompares == 0 && numberOfNodes == 0
    {
      nodes := [NodeRecord("-1", BLACK, NULL, NULL, NULL)];
      root := LEAF;
      recentCompares := 0;
      numberOfNodes := 0;
      tree := Leaf;
    }

    // -------------------------------------------------------------------------
    // insert

    /** Lines 99-107: walk down from the root, left while the node's key
        compares greater than the value and right otherwise, until the
        sentinel; the result is the last node visited, the sentinel itself
        when the tree is empty */
    method Descend(value: string) returns (y: int)
      requires Represents(nodes, root, tree)
      ensures y == ParentId(tree, DescentPath(tree, value), LEAF)
      ensures InArena(nodes, y) && (y == LEAF <==> tree.Leaf?)
      ensures tree.Node? ==> y == LastVisited(tree, value).id
    {
      y := LEAF;
      var x := root;
      ghost var dp: Path := [];
      while x != LEAF
        invariant ValidPath(tree, dp) && x == IdOf(At(tree, dp))
        invariant DescentPath(tree, value) == dp + DescentPath(At(tree, dp), value)
        invariant y == ParentId(tree, dp, LEAF)
        decreases |DescentPath(tree, value)| - |dp|
      {
        DescentStep(nodes, root, tree, value, dp);
        y := x;
        if CompareTo(nodes[x].data, value) > 0 {
          x := nodes[x].lc;
          dp := dp + [L];
        } else {
          x := nodes[x].rc;
          dp := dp + [R];
        }
      }
      DescentEnd(nodes, root, tree, value, dp);
      LinkFacts(nodes, root, tree, value);
      if tree.Node? {
        LinkMatchesDescent(tree, value);
      }
    }

    /** Lines 95-121: create a red record, find the last node visited on
        the way down, hang the record below it (or make it the root) on the
        side the comparison picks, and run the fixup. The result is
        `InsertTree`, so it keeps the red-black properties and the key order
        for every value (Insertion.InsertKeepsRedBlack, InsertKeepsSorted),
        and adds the value in sorted position when it is new
        (Insertion.InsertFreshInOrder). */
    method Insert(value: string)
      requires Valid()
      modifies this`nodes, this`root, this`tree
      ensures Valid()
      ensures tree == InsertTree(old(tree), value, old(|nodes|))
      ensures |nodes| == old(|nodes|) + 1
    {
      ghost var t := tree;
      var z := |nodes|;
      var zr := NodeRecord(value, RED, NULL, NULL, NULL);
      var y := Descend(value);
      LinkFacts(nodes, root, t, value);
      ghost var lq := LinkPath(t, value);
      ghost var nodes0, root0 := nodes, root;
      zr := zr.(p := y);
      nodes := nodes + [zr];
      assert t.Node? ==> nodes[y] == nodes0[y] && nodes[z].data == value;
      if y == LEAF {
        root := z;
      } else if CompareTo(nodes[z].data, nodes[y].data) > 0 {
        nodes := nodes[y := nodes[y].(rc := z)];
      } else {
        nodes := nodes[y := nodes[y].(lc := z)];
      }
      nodes := nodes[z := nodes[z].(lc := LEAF)];
      nodes := nodes[z := nodes[z].(rc := LEAF)];
      InsertLinkRefines(nodes0, root0, t, value, nodes, root);
      tree := Replace(t, lq, NewNode(value, z));
      LinkedForFixup(t, value, z);
      RBInsertFixup(z, lq);
      InsertKeepsRedBlack(t, value, z);
      InsertKeepsSorted(t, value, z);
    }

    // -------------------------------------------------------------------------
    // Rotations

    /** Lines 154-179 */
    method LeftRotate(x: int)
      requires WellFormed(nodes) && InArena(nodes, root) && 0 < x < |nodes|
      modifies this`nodes, this`root
      ensures (nodes, root) == Rotated(old(nodes), old(root), x, L)
    {
      if nodes[x].rc == LEAF {
        return;
      }
      if nodes[root].p != LEAF {
        return;
      }
      var y := nodes[x].rc;
      nodes := SetChild(nodes, x, R, nodes[y].lc);
      nodes := SetP(nodes, nodes[y].lc, x);
      nodes := SetP(nodes, y, nodes[x].p);
      if nodes[x].p == LEAF {
        root := y;
      } else if nodes[nodes[x].p].lc == x {
        nodes := SetChild(nodes, nodes[x].p, L, y);
      } else {
        nodes := SetChild(nodes, nodes[x].p, R, y);
      }
      nodes := SetChild(nodes, y, L, x);
      nodes := SetP(nodes, x, y);
    }

    /** Lines 188-213 */
    method RightRotate(x: int)
      requires WellFormed(nodes) && InArena(nodes, root) && 0 < x < |nodes|
      modifies this`nodes, this`root
      ensures (nodes, root) == Rotated(old(nodes), old(root), x, R)
    {
      if nodes[x].lc == LEAF {
        return;
      }
      if nodes[root].p != LEAF {
        return;
      }
      var y := nodes[x].lc;
      nodes := SetChild(nodes, x, L, nodes[y].rc);
      nodes := SetP(nodes, nodes[y].rc, x);
      nodes := SetP(nodes, y, nodes[x].p);
      if nodes[x].p == LEAF {
        root := y;
      } else if nodes[nodes[x].p].lc == x {
        nodes := SetChild(nodes, nodes[x].p, L, y);
      } else {
        nodes := SetChild(nodes, nodes[x].p, R, y);
      }
      nodes := SetChild(nodes, y, R, x);
      nodes := SetP(nodes, x, y);
    }

    // -------------------------------------------------------------------------
    // RBInsertFixup

    /** `leftRotate` or `rightRotate` as d says */
    method Rotate(x: int, d: Dir)
      requires WellFormed(nodes) && InArena(nodes, root) && 0 < x < |nodes|
      modifies this`nodes, this`root
      ensures (nodes, root) == Rotated(old(nodes), old(root), x, d)
    {
      if d == L {
        LeftRotate(x);
      } else {
        RightRotate(x);
      }
    }

    /** Lines 228-233, and mirrored 245-250: z's parent is on side d of the
        grandparent and the uncle y is red. The parent and the uncle turn
        black, the grandparent red, and z moves up to the grandparent. */
    method RecolorCase(z: int, y: int, ghost q: Path, ghost d: Dir) returns (z': int, ghost q': Path)
      requires Represents(nodes, root, tree) && FixupReady(tree, q) && ParentRed(tree, q) && z == At(tree, q).id
      requires 0 < z < |nodes| && 0 < nodes[z].p < |nodes| && 0 < nodes[nodes[z].p].p < |nodes|
      requires nodes[nodes[nodes[z].p].p].lc == nodes[z].p <==> d == L
      requires y == Link(nodes[nodes[nodes[z].p].p], Other(d)) && InArena(nodes, y) && nodes[y].color == RED
      modifies this`nodes, this`tree
      ensures Represents(nodes, root, tree) && FixupReady(tree, q') && z' == At(tree, q').id
      ensures |q'| < |q| && Fixup(tree, q') == Fixup(old(tree), q)
      ensures |nodes| == old(|nodes|)
    {
      ghost var t2: Tree;
      t2, q' := RecolorBranch(nodes, root, tree, q, d, z, nodes[z].p, nodes[nodes[z].p].p, y);
      nodes := SetColor(nodes, nodes[z].p, BLACK);
      nodes := SetColor(nodes, y, BLACK);
      nodes := SetColor(nodes, nodes[nodes[z].p].p, RED);
      z' := nodes[nodes[z].p].p;
      tree := t2;
    }

    /** Lines 234-239, and mirrored 251-256: z's parent is on side d of the
        grandparent and the uncle is black. When z is the inner child, z moves
        up to its parent and the parent rotates towards d; then the parent
        turns black, the grandparent red, and the grandparent rotates the
        other way. */
    method RotateCase(z: int, ghost q: Path, d: Dir) returns (z': int, ghost q': Path)
      requires Represents(nodes, root, tree) && FixupReady(tree, q) && ParentRed(tree, q) && z == At(tree, q).id
      requires InArena(nodes, root)
      requires 0 < z < |nodes| && 0 < nodes[z].p < |nodes| && 0 < nodes[nodes[z].p].p < |nodes|
      requires nodes[nodes[nodes[z].p].p].lc == nodes[z].p <==> d == L
      requires InArena(nodes, Link(nodes[nodes[nodes[z].p].p], Other(d)))
      requires nodes[Link(nodes[nodes[nodes[z].p].p], Other(d))].color != RED
      modifies this`nodes, this`root, this`tree
      ensures Represents(nodes, root, tree) && FixupReady(tree, q') && z' == At(tree, q').id
      ensures |q'| < |q| && Fixup(tree, q') == Fixup(old(tree), q)
      ensures |nodes| == old(|nodes|)
    {
      ghost var n0, r0, p, g := nodes, root, nodes[z].p, nodes[nodes[z].p].p;
      ghost var inner := Link(nodes[p], Other(d)) == z;
      z' := z;
      if Link(nodes[nodes[z'].p], Other(d)) == z' {
        z' := nodes[z'].p;
        Rotate(z', d);
      }
      assert z' == if inner then p else z;
      ghost var t2: Tree;
      t2, q' := RotateBranch(n0, r0, tree, q, d, z, p, g, Link(n0[g], Other(d)), nodes, root);
      ghost var r1 := root;
      nodes := SetColor(nodes, nodes[z'].p, BLACK);
      assert nodes[nodes[z'].p].p == g;
      nodes := SetColor(nodes, nodes[nodes[z'].p].p, RED);
      ghost var n3 := nodes;
      assert nodes[nodes[z'].p].p == g;
      Rotate(nodes[nodes[z'].p].p, Other(d));
      assert (nodes, root) == Rotated(n3, r1, g, Other(d));
      tree := t2;
    }

    /** Lines 222-260, with z the node at path q0: while z's parent is red,
        the case for the parent's side and the uncle's colour; then the root
        turns black. On the records this does what `Fixup` does on the tree. */
    method RBInsertFixup(z0: int, ghost q0: Path)
      requires Represents(nodes, root, tree) && FixupReady(tree, q0) && z0 == At(tree, q0).id
      modifies this`nodes, this`root, this`tree
      ensures Represents(nodes, root, tree) && tree == Fixup(old(tree), q0)
      ensures |nodes| == old(|nodes|)
    {
      var z := z0;
      ghost var q := q0;
      LoopTest(nodes, root, tree, q);
      while nodes[nodes[z].p].color == RED
        invariant Represents(nodes, root, tree) && FixupReady(tree, q) && z == At(tree, q).id
        invariant 0 < z < |nodes| && InArena(nodes, nodes[z].p)
        invariant nodes[nodes[z].p].color == RED <==> ParentRed(tree, q)
        invariant Fixup(tree, q) == Fixup(old(tree), q0)
        invariant |nodes| == old(|nodes|)
        decreases |q|
      {
        BodyLinks(nodes, root, tree, q);
        if nodes[nodes[nodes[z].p].p].lc == nodes[z].p {
          var y := nodes[nodes[nodes[z].p].p].rc;
          if nodes[y].color == RED {
            z, q := RecolorCase(z, y, q, L);
          } else {
            z, q := RotateCase(z, q, L);
          }
        } else {
          var y := nodes[nodes[nodes[z].p].p].lc;
          if nodes[y].color == RED {
            z, q := RecolorCase(z, y, q, R);
          } else {
            z, q := RotateCase(z, q, R);
          }
        }
        LoopTest(nodes, root, tree, q);
      }
      RootOfPath(tree, q);
      RecolorRefines(nodes, root, tree, [], BLACK);
      nodes := SetColor(nodes, root, BLACK);
      tree := RecolorAt(tree, [], BLACK);
    }

    // -------------------------------------------------------------------------
    // Queries

    /** Lines 305-323: one comparison is counted per call, the call on the
        sentinel included, so an unsuccessful search counts one more than the
        nodes it visits */
    method CheckForData(node: int, data: string, ghost t: Tree, ghost par: int) returns (found: bool)
      requires Matches(nodes, t, par) && node == IdOf(t)
      modifies this`recentCompares
      ensures found <==> data in SearchPath(t, data)
      ensures recentCompares == old(recentCompares) + |SearchPath(t, data)| + (if found then 0 else 1)
      decreases t
    {
      if node == LEAF {
        recentCompares := recentCompares + 1;
        return false;
      }
      NodeRecordOf(nodes, t, par);
      CompareToZero(t.key, data);
      if CompareTo(nodes[node].data, data) == 0 {
        recentCompares := recentCompares + 1;
        return true;
      } else if CompareTo(nodes[node].data, data) < 0 {
        recentCompares := recentCompares + 1;
        found := CheckForData(nodes[node].rc, data, t.right, node);
      } else {
        recentCompares := recentCompares + 1;
        found := CheckForData(nodes[node].lc, data, t.left, node);
      }
    }

    /** Lines 45-48: whether v is stored in the tree; the comparison counter
        is reset and then counts the nodes the search visits, plus one for the
        sentinel when v is absent */
    method Contains(v: string) returns (found: bool)
      requires Valid()
      modifies this`recentCompares
      ensures Valid()
      ensures found <==> v in InOrder(tree)
      ensures recentCompares == |SearchPath(tree, v)| + (if found then 0 else 1)
      ensures 1 <= recentCompares <= Depth(tree) + 1
    {
      recentCompares := 0;
      found := CheckForData(root, v, tree, LEAF);
      SearchFindsMembers(tree, v);
      assert found ==> SearchPath(tree, v) != [];
    }

    /** Lines 56-58: the counter, as `Contains` leaves it */
    function GetRecentCompares(): (r: int)
      reads this
      ensures r == recentCompares
    {
      recentCompares
    }

    /** Lines 66-68: `numberOfNodes`, which only the constructor writes, so
        the answer is 0 whatever was inserted */
    function GetSize(): (r: int)
      reads this
      requires Valid()
      ensures r == 0
    {
      numberOfNodes
    }

    /** The number of records reachable from `node`, counted by recursion
        over the links */
    function CountFrom(node: int, ghost t: Tree, ghost par: int): (n: nat)
      reads this
      requires Matches(nodes, t, par) && node == IdOf(t)
      ensures n == |InOrder(t)|
      decreases t
    {
      if node == LEAF then 0
      else
        NodeRecordOf(nodes, t, par);
        CountFrom(nodes[node].lc, t.left, node) + 1 + CountFrom(nodes[node].rc, t.right, node)
    }

    /** What `getSize` is documented to return: the number of values stored */
    function CountNodes(): (n: nat)
      reads this
      requires Valid()
      ensures n == |InOrder(tree)| == Size(tree)
    {
      SizeIsLength(tree);
      CountFrom(root, tree, LEAF)
    }

    /** Lines 333-361: None (Java's null) on the sentinel; otherwise the
        node's data when it equals `data` or when the search below it ends
        on the sentinel, else what the search below returns */
    function GetCloseNode(node: int, data: string, ghost t: Tree, ghost par: int): (r: Option<string>)
      reads this
      requires Matches(nodes, t, par) && node == IdOf(t)
      ensures r.None? <==> t.Leaf?
      ensures r.Some? ==> SearchPath(t, data) != [] && r.value == LastKey(SearchPath(t, data))
      decreases t
    {
      if node == LEAF then None
      else
        NodeRecordOf(nodes, t, par);
        if CompareTo(nodes[node].data, data) == 0 then Some(nodes[node].data)
      else if CompareTo(nodes[node].data, data) < 0 then
        var below := GetCloseNode(nodes[node].rc, data, t.right, node);
        if below.None? then Some(nodes[node].data) else below
      else
        var below := GetCloseNode(nodes[node].lc, data, t.left, node);
        if below.None? then Some(nodes[node].data) else below
    }

    /** Lines 33-35: None on an empty tree; otherwise a stored value with no
        stored value strictly between it and v, and v itself when stored */
    function CloseBy(v: string): (r: Option<string>)
      reads this
      requires Valid()
      ensures r.None? <==> tree.Leaf?
      ensures r.Some? ==> r.value in InOrder(tree) && Adjacent(r.value, v, InOrder(tree))
      ensures v in InOrder(tree) ==> r == Some(v)
    {
      SearchFindsMembers(tree, v);
      SearchEndsAtMatch(tree, v);
      if root == LEAF then GetCloseNode(root, v, tree, LEAF)
      else
        SearchEndsNextToValue(tree, v);
        GetCloseNode(root, v, tree, LEAF)
    }

    /** Lines 287-294: 0 on the sentinel and on a node whose two children
        are the sentinel, else one more than the higher child */
    function HeightFrom(node: int, ghost t: Tree, ghost par: int): (h: int)
      reads this
      requires Matches(nodes, t, par) && node == IdOf(t)
      ensures h == if t.Leaf? then 0 else Depth(t) - 1
      decreases t
    {
      if node == LEAF then 0
      else
        NodeRecordOf(nodes, t, par);
        if nodes[node].lc == LEAF && nodes[node].rc == LEAF then 0
        else
          DepthOfNode(t.left);
          DepthOfNode(t.right);
          1 + Max(HeightFrom(nodes[node].lc, t.left, node), HeightFrom(nodes[node].rc, t.right, node))
    }

    /** Lines 76-78: the number of edges on a longest root-to-node path, which
        in a non-empty red-black tree of n nodes is less than 2 log2(n + 1) */
    function Height(): (h: int)
      reads this
      requires Valid()
      ensures h == if tree.Leaf? then 0 else Depth(tree) - 1
      ensures 0 <= h && Pow2((h + 1) / 2) <= Size(tree) + 1
      ensures h < 2 * BlackHeight(tree) + 1 && Pow2(BlackHeight(tree)) <= Size(tree) + 1
      ensures tree.Node? ==> h < 2 * BlackHeight(tree)
    {
      RedBlackDepthBound(tree);
      HeightFrom(root, tree, LEAF)
    }

    /** Lines 269-277: left subtree, node, right subtree, descending only
        into children that are not the sentinel */
    function InOrderFrom(node: int, ghost t: Tree, ghost par: int): (s: seq<string>)
      reads this
      requires Matches(nodes, t, par) && node == IdOf(t) && t.Node?
      ensures s == InOrder(t)
      decreases t
    {
      NodeRecordOf(nodes, t, par);
      (if nodes[node].lc != LEAF then InOrderFrom(nodes[node].lc, t.left, node) else [])
      + [nodes[node].data]
      + (if nodes[node].rc != LEAF then InOrderFrom(nodes[node].rc, t.right, node) else [])
    }

    /** Lines 85-87: the data of the nodes in the order they are printed,
        which is sorted. On an empty tree the Java code dereferences the
        sentinel's null left link; that case is None. */
    function InOrderTraversal(): (s: Option<seq<string>>)
      reads this
      requires Valid()
      ensures s.None? <==> tree.Leaf?
      ensures s.Some? ==> s.value == InOrder(tree) && Sorted(s.value) && |s.value| == Size(tree)
    {
      SizeIsLength(tree);
      if root == LEAF then None else Some(InOrderFrom(root, tree, LEAF))
    }

    /** The in-order listing with the empty tree listing nothing */
    function InOrderKeys(): (s: seq<string>)
      reads this
      requires Valid()
      ensures s == InOrder(tree) && Sorted(s)
      ensures tree.Leaf? ==> s == []
    {
      if root == LEAF then [] else InOrderFrom(root, tree, LEAF)
    }


    /** Lines 126-145: the data of the nodes in the order they are printed.
        The queue holds the nodes still to print, each the root of a subtree
        whose nodes are not yet printed; nothing is printed for an empty
        tree. A child that finds the queue full is dropped with its subtree;
        while the tree has no more nodes than the queue has slots that never
        happens and the order is the breadth-first `LevelOrder`. */
    method LevelOrderTraversal() returns (visited: seq<string>)
      requires Valid()
      ensures visited == BoundedLevelOrder(tree, CAPACITY)
      ensures Size(tree) <= CAPACITY ==> visited == LevelOrder(tree)
    {
      visited := [];
      var nodeList := new Queue<int>(CAPACITY);
      if root == LEAF {
        return;
      }
      nodeList.EnQueue(root);
      ghost var f := [tree];
      ghost var ps := [LEAF];
      assert Offer([], tree, CAPACITY) == f;
      while !nodeList.IsEmpty()
        invariant nodeList.Valid() && nodeList.N == CAPACITY && fresh(nodeList) && fresh(nodeList.data)
        invariant Queued(nodeList.Contents, nodes, f, ps)
        invariant visited + BoundedBfs(f, CAPACITY) == BoundedLevelOrder(tree, CAPACITY)
        decreases ForestSize(f)
      {
        ghost var f0, v0 := f, visited;
        var key;
        key, f, ps := VisitFront(nodeList, nodes, f, ps);
        visited := visited + [key];
        BoundedBfsFront(f0, CAPACITY);
        assert visited + BoundedBfs(f, CAPACITY) == v0 + ([key] + BoundedBfs(f, CAPACITY));
      }
      assert f == [];
      assert visited == visited + BoundedBfs(f, CAPACITY);
      if Size(tree) <= CAPACITY {
        BoundedLevelOrderAgrees(tree, CAPACITY);
      }
    }
  }
}
