/** The RedBlackNode objects of one tree as an arena: a sequence of records
    whose links are indices into the sequence. Index 0 is the shared sentinel
    `leaf`; NULL stands for Java's null, which only the sentinel's links (and,
    before any rotation, its parent) hold. `Matches` ties the records reachable
    from the root to an abstract `Tree` whose node ids are the indices. */
module Arena {
  import opened Nodes
  import opened Trees

  const NULL: int := -1
  const LEAF: int := 0

  /** One RedBlackNode: data, color, parent, left child, right child */
  datatype NodeRecord = NodeRecord(data: string, color: int, p: int, lc: int, rc: int)

  /** The child link on side d (`getLc`/`getRc`) */
  function Link(n: NodeRecord, d: Dir): int
  {
    if d == L then n.lc else n.rc
  }

  /** `setLc`/`setRc` */
  function SetLink(n: NodeRecord, d: Dir, i: int): (r: NodeRecord)
    ensures Link(r, d) == i && Link(r, Other(d)) == Link(n, Other(d))
    ensures r.data == n.data && r.color == n.color && r.p == n.p
  {
    if d == L then n.(lc := i) else n.(rc := i)
  }

  predicate InArena(nodes: seq<NodeRecord>, i: int)
  {
    0 <= i < |nodes|
  }

  /** The sentinel is the black "-1" node with null children; every other
      record links only to records of the arena */
  predicate WellFormed(nodes: seq<NodeRecord>)
  {
    && |nodes| >= 1
    && nodes[LEAF].data == "-1" && nodes[LEAF].color == BLACK
    && nodes[LEAF].lc == NULL && nodes[LEAF].rc == NULL
    && (nodes[LEAF].p == NULL || InArena(nodes, nodes[LEAF].p))
    && forall i :: 0 < i < |nodes| ==>
         InArena(nodes, nodes[i].p) && InArena(nodes, nodes[i].lc) && InArena(nodes, nodes[i].rc)
  }

  /** The records reachable from a subtree's root are the nodes of t, with
      parent the index of the node above t */
  predicate Matches(nodes: seq<NodeRecord>, t: Tree, parent: int)
  {
    t.Node? ==>
      && 0 < t.id < |nodes|
      && nodes[t.id] == NodeRecord(t.key, t.color, parent, IdOf(t.left), IdOf(t.right))
      && Matches(nodes, t.left, t.id) && Matches(nodes, t.right, t.id)
  }

  /** The whole tree: `root` is the index of t's root and t's nodes have distinct indices */
  predicate Represents(nodes: seq<NodeRecord>, root: int, t: Tree)
  {
    WellFormed(nodes) && root == IdOf(t) && Matches(nodes, t, LEAF) && UniqueIds(t)
  }

  /** The index of the parent of the node at q, the root's being par */
  function ParentId(t: Tree, q: Path, par: int): int
    requires ValidPath(t, q)
  {
    if q == [] then par else (ValidUp(t, q); IdOf(At(t, Up(q))))
  }

  /** `node.setColor(c)` on the record at index i */
  function SetColor(nodes: seq<NodeRecord>, i: int, c: int): (r: seq<NodeRecord>)
    requires InArena(nodes, i)
    ensures |r| == |nodes| && r[i].color == c
    ensures forall j :: 0 <= j < |nodes| && j != i ==> r[j] == nodes[j]
    ensures r[i] == nodes[i].(color := c)
  {
    nodes[i := nodes[i].(color := c)]
  }

  // ---------------------------------------------------------------------------
  // Matches: bounds, frames, navigation

  lemma {:induction false} MatchesBounds(nodes: seq<NodeRecord>, t: Tree, par: int)
    requires Matches(nodes, t, par)
    ensures forall i :: i in Ids(t) ==> 0 < i < |nodes|
  {
    if t.Node? {
      MatchesBounds(nodes, t.left, t.id);
      MatchesBounds(nodes, t.right, t.id);
    }
  }

  /** Records of other nodes do not matter */
  lemma {:induction false} MatchesFrame(nodes: seq<NodeRecord>, n2: seq<NodeRecord>, t: Tree, par: int)
    requires Matches(nodes, t, par) && |nodes| <= |n2|
    requires forall i :: i in Ids(t) ==> i < |nodes| && n2[i] == nodes[i]
    ensures Matches(n2, t, par)
  {
    if t.Node? {
      MatchesFrame(nodes, n2, t.left, t.id);
      MatchesFrame(nodes, n2, t.right, t.id);
    }
  }

  /** A subtree whose root record only has its parent link changed */
  lemma Reparent(nodes: seq<NodeRecord>, n2: seq<NodeRecord>, t: Tree, par: int, par2: int)
    requires Matches(nodes, t, par) && UniqueIds(t) && |nodes| <= |n2|
    requires forall i :: i in Ids(t) && i != IdOf(t) ==> i < |nodes| && n2[i] == nodes[i]
    requires t.Node? ==> n2[t.id] == nodes[t.id].(p := par2)
    ensures Matches(n2, t, par2)
  {
    if t.Node? {
      MatchesFrame(nodes, n2, t.left, t.id);
      MatchesFrame(nodes, n2, t.right, t.id);
    }
  }

  /** Following q from the root reaches the record of the node at q, whose
      parent link is the node above it */
  lemma {:induction false} MatchesPath(nodes: seq<NodeRecord>, t: Tree, par: int, q: Path)
    requires Matches(nodes, t, par) && ValidPath(t, q)
    ensures Matches(nodes, At(t, q), ParentId(t, q, par))
    ensures At(t, q).Node? ==>
      var n := At(t, q);
      && 0 < n.id < |nodes|
      && nodes[n.id] == NodeRecord(n.key, n.color, ParentId(t, q, par), IdOf(n.left), IdOf(n.right))
    decreases q
  {
    if q != [] {
      var c := Child(t, q[0]);
      MatchesPath(nodes, c, t.id, q[1..]);
      if q[1..] != [] {
        assert Up(q) == [q[0]] + Up(q[1..]);
        ValidUp(c, q[1..]);
      } else {
        assert Up(q) == [];
      }
    }
  }

  /** The colour the loop test reads at an index: the record's for a node of
      the tree, BLACK for the sentinel */
  lemma ColorAtIndex(nodes: seq<NodeRecord>, t: Tree, par: int, q: Path)
    requires WellFormed(nodes) && Matches(nodes, t, par) && ValidPath(t, q)
    ensures InArena(nodes, IdOf(At(t, q)))
    ensures (nodes[IdOf(At(t, q))].color == RED) <==> IsRed(At(t, q))
  {
    MatchesPath(nodes, t, par, q);
  }

  // ---------------------------------------------------------------------------
  // Replacing a subtree

  /** Putting s in place of the subtree at q: the records of the nodes that
      stay are unchanged except the parent's link to the new subtree, and s
      matches below that parent */
  lemma {:induction false} MatchesReplace(nodes: seq<NodeRecord>, n2: seq<NodeRecord>, t: Tree, par: int, q: Path, s: Tree)
    requires Matches(nodes, t, par) && UniqueIds(t) && ValidPath(t, q) && |nodes| <= |n2|
    requires forall i :: i in Ids(t) - Ids(At(t, q)) - {ParentId(t, q, par)} ==> i < |nodes| && n2[i] == nodes[i]
    requires q != [] ==>
      var pid := ParentId(t, q, par);
      InArena(nodes, pid) && n2[pid] == SetLink(nodes[pid], Last(q), IdOf(s))
    requires Matches(n2, s, ParentId(t, q, par))
    ensures Matches(n2, Replace(t, q, s), par)
    decreases q
  {
    if q != [] {
      var d := q[0];
      var c := Child(t, d);
      var o := Child(t, Other(d));
      var q' := q[1..];
      var pid := ParentId(t, q, par);
      MatchesBounds(nodes, t, par);
      ParentBelow(t, q, par);
      MatchesReplace(nodes, n2, c, t.id, q', s);
      MatchesFrame(nodes, n2, o, t.id);
      var r := Replace(t, q, s);
      assert r == WithChild(t, d, Replace(c, q', s));
      if q' == [] {
        assert Last(q) == d;
      } else {
        ReplaceKeepsRoot(c, q', s);
        assert n2[t.id] == nodes[t.id];
      }
    }
  }

  /** The ids MatchesReplace reasons about, one level down: the parent of the
      node at q is the root or lies in the child q enters, and neither the
      replaced subtree nor that parent is in the other child */
  lemma ParentBelow(t: Tree, q: Path, par: int)
    requires UniqueIds(t) && ValidPath(t, q) && q != []
    ensures
      var c := Child(t, q[0]);
      var o := Child(t, Other(q[0]));
      var pid := ParentId(t, q, par);
      && ValidPath(c, q[1..]) && At(c, q[1..]) == At(t, q)
      && ParentId(c, q[1..], t.id) == pid
      && UniqueIds(c) && Ids(At(t, q)) <= Ids(c)
      && Ids(t) == {t.id} + Ids(c) + Ids(o) && Ids(o) !! Ids(c)
      && t.id !in Ids(c) && t.id !in Ids(o)
      && (q[1..] == [] ==> pid == t.id)
      && (q[1..] != [] ==> pid in Ids(c))
  {
    var d := q[0];
    var c := Child(t, d);
    var q' := q[1..];
    assert Ids(t) == {t.id} + Ids(t.left) + Ids(t.right);
    AtIds(c, q');
    if q' != [] {
      assert Up(q) == [d] + Up(q');
      ValidUp(c, q');
      AtIds(c, Up(q'));
    } else {
      assert Up(q) == [];
    }
  }

  /** `setColor` at the index of the node at q is RecolorAt q */
  lemma RecolorRefines(nodes: seq<NodeRecord>, root: int, t: Tree, q: Path, c: int)
    requires Represents(nodes, root, t) && ValidPath(t, q) && At(t, q).Node?
    ensures InArena(nodes, IdOf(At(t, q)))
    ensures Represents(SetColor(nodes, IdOf(At(t, q)), c), root, RecolorAt(t, q, c))
  {
    var x := At(t, q);
    MatchesPath(nodes, t, LEAF, q);
    var n2 := SetColor(nodes, x.id, c);
    var pid := ParentId(t, q, LEAF);
    MatchesBounds(nodes, t, LEAF);
    AtIds(t, q);
    assert x.id !in Ids(x.left) && x.id !in Ids(x.right);
    MatchesFrame(nodes, n2, x.left, x.id);
    MatchesFrame(nodes, n2, x.right, x.id);
    var s := x.(color := c);
    if q != [] {
      ValidUp(t, q);
      MatchesPath(nodes, t, LEAF, Up(q));
      var pq := Up(q);
      AtIds(t, pq);
      UniqueIdsChild(At(t, pq), Last(q));
      assert SetLink(nodes[pid], Last(q), IdOf(s)) == nodes[pid];
    }
    MatchesReplace(nodes, n2, t, LEAF, q, s);
    RecolorAtKeeps(t, q, c);
    if q != [] {
      ReplaceKeepsRoot(t, q, s);
    }
    SetColorWellFormed(nodes, x.id, c);
    assert Matches(n2, RecolorAt(t, q, c), LEAF);
    assert root == IdOf(RecolorAt(t, q, c));
  }

  /** Recolouring a record other than the sentinel's keeps every link */
  lemma SetColorWellFormed(nodes: seq<NodeRecord>, i: int, c: int)
    requires WellFormed(nodes) && 0 < i < |nodes|
    ensures WellFormed(SetColor(nodes, i, c))
  {
    var r := SetColor(nodes, i, c);
    assert r[LEAF] == nodes[LEAF];
    forall j | 0 < j < |r|
      ensures InArena(r, r[j].p) && InArena(r, r[j].lc) && InArena(r, r[j].rc)
    {
      assert r[j].p == nodes[j].p && r[j].lc == nodes[j].lc && r[j].rc == nodes[j].rc;
    }
  }

  /** A node's index differs from that of every node below it */
  lemma UniqueIdsChild(t: Tree, d: Dir)
    requires t.Node? && UniqueIds(t)
    ensures t.id !in Ids(Child(t, d)) && UniqueIds(Child(t, d))
    ensures Child(t, d).Node? ==> IdOf(Child(t, Other(d))) != Child(t, d).id
  {
    if Child(t, d).Node? {
      SiblingsDiffer(t, d);
    }
  }

  // ---------------------------------------------------------------------------
  // Rotations

  /** `setP(v)` on the record at index i */
  function SetP(nodes: seq<NodeRecord>, i: int, v: int): (r: seq<NodeRecord>)
    requires WellFormed(nodes) && InArena(nodes, i) && InArena(nodes, v)
    ensures WellFormed(r) && |r| == |nodes|
  {
    nodes[i := nodes[i].(p := v)]
  }

  /** `setLc(v)` (d == L) or `setRc(v)` (d == R) on the record at index i, a real node */
  function SetChild(nodes: seq<NodeRecord>, i: int, d: Dir, v: int): (r: seq<NodeRecord>)
    requires WellFormed(nodes) && 0 < i < |nodes| && InArena(nodes, v)
    ensures WellFormed(r) && |r| == |nodes|
  {
    nodes[i := SetLink(nodes[i], d, v)]
  }

  /** `leftRotate(x)` (d == L, lines 154-179) and `rightRotate(x)` (d == R,
      lines 188-213) on the arena, one update per Java statement: x moves
      down to side d and its child y on the other side takes its place. Both
      return early when y is the sentinel or the root's parent is not the
      sentinel. Gives the new records and the new root. */
  function Rotated(nodes: seq<NodeRecord>, root: int, x: int, d: Dir): (r: (seq<NodeRecord>, int))
    requires WellFormed(nodes) && InArena(nodes, root) && 0 < x < |nodes|
    ensures WellFormed(r.0) && |r.0| == |nodes| && InArena(r.0, r.1)
  {
    var o := Other(d);
    if Link(nodes[x], o) == LEAF then (nodes, root)
    else if nodes[root].p != LEAF then (nodes, root)
    else
      var y := Link(nodes[x], o);
      var n1 := SetChild(nodes, x, o, Link(nodes[y], d));
      var n2 := SetP(n1, Link(n1[y], d), x);
      var n3 := SetP(n2, y, n2[x].p);
      var xp := n3[x].p;
      var n4 :=
        if xp == LEAF then n3
        else if n3[xp].lc == x then SetChild(n3, xp, L, y)
        else SetChild(n3, xp, R, y);
      var n5 := SetChild(n4, y, d, x);
      (SetP(n5, x, y), if xp == LEAF then y else root)
  }

  /** The arena a rotation produces when x, its child y, y's inner child b
      and x's parent pid are distinct records */
  lemma RotatedShape(nodes: seq<NodeRecord>, root: int, x: int, d: Dir)
    requires WellFormed(nodes) && InArena(nodes, root) && 0 < x < |nodes|
    requires Link(nodes[x], Other(d)) != LEAF && nodes[root].p == LEAF
    requires
      var y := Link(nodes[x], Other(d));
      var b := Link(nodes[y], d);
      var pid := nodes[x].p;
      && y != x && b != x && b != y
      && (pid != LEAF ==> pid != x && pid != y && pid != b)
    ensures
      var y := Link(nodes[x], Other(d));
      var b := Link(nodes[y], d);
      var pid := nodes[x].p;
      var m := nodes[b := nodes[b].(p := x)]
                    [x := SetLink(nodes[x], Other(d), b).(p := y)]
                    [y := SetLink(nodes[y], d, x).(p := pid)];
      && (pid == LEAF ==> Rotated(nodes, root, x, d) == (m, y))
      && (pid != LEAF ==>
            var e := if nodes[pid].lc == x then L else R;
            Rotated(nodes, root, x, d) == (m[pid := SetLink(nodes[pid], e, y)], root))
  {
    if nodes[x].p == LEAF {
      RotatedShapeAtRoot(nodes, root, x, d);
    } else {
      RotatedShapeBelow(nodes, root, x, d);
    }
  }

  /** RotatedShape when x is the root */
  lemma RotatedShapeAtRoot(nodes: seq<NodeRecord>, root: int, x: int, d: Dir)
    requires WellFormed(nodes) && InArena(nodes, root) && 0 < x < |nodes|
    requires Link(nodes[x], Other(d)) != LEAF && nodes[root].p == LEAF
    requires
      var y := Link(nodes[x], Other(d));
      var b := Link(nodes[y], d);
      var pid := nodes[x].p;
      && y != x && b != x && b != y
      && (pid != LEAF ==> pid != x && pid != y && pid != b)
    requires nodes[x].p == LEAF
    ensures
      var y := Link(nodes[x], Other(d));
      var b := Link(nodes[y], d);
      var m := nodes[b := nodes[b].(p := x)]
                    [x := SetLink(nodes[x], Other(d), b).(p := y)]
                    [y := SetLink(nodes[y], d, x).(p := LEAF)];
      Rotated(nodes, root, x, d) == (m, y)
  {
    var o := Other(d);
    var y := Link(nodes[x], o);
    var n1 := SetChild(nodes, x, o, Link(nodes[y], d));
    var b := Link(n1[y], d);
    assert b == Link(nodes[y], d);
    var n2 := SetP(n1, b, x);
    var pid := nodes[x].p;
    assert n2[x].p == pid;
    var n3 := SetP(n2, y, pid);
    assert n3[x].p == pid;
    var m := nodes[b := nodes[b].(p := x)]
                  [x := SetLink(nodes[x], o, b).(p := y)]
                  [y := SetLink(nodes[y], d, x).(p := pid)];
    var n5 := SetChild(n3, y, d, x);
    var n6 := SetP(n5, x, y);
    assert Rotated(nodes, root, x, d) == (n6, y);
    assert n6 == m;
  }

  /** RotatedShape when x has a parent, which takes y as its child */
  lemma RotatedShapeBelow(nodes: seq<NodeRecord>, root: int, x: int, d: Dir)
    requires WellFormed(nodes) && InArena(nodes, root) && 0 < x < |nodes|
    requires Link(nodes[x], Other(d)) != LEAF && nodes[root].p == LEAF
    requires
      var y := Link(nodes[x], Other(d));
      var b := Link(nodes[y], d);
      var pid := nodes[x].p;
      && y != x && b != x && b != y
      && (pid != LEAF ==> pid != x && pid != y && pid != b)
    requires nodes[x].p != LEAF
    ensures
      var y := Link(nodes[x], Other(d));
      var b := Link(nodes[y], d);
      var pid := nodes[x].p;
      var m := nodes[b := nodes[b].(p := x)]
                    [x := SetLink(nodes[x], Other(d), b).(p := y)]
                    [y := SetLink(nodes[y], d, x).(p := pid)];
      var e := if nodes[pid].lc == x then L else R;
      Rotated(nodes, root, x, d) == (m[pid := SetLink(nodes[pid], e, y)], root)
  {
    var o := Other(d);
    var y := Link(nodes[x], o);
    var n1 := SetChild(nodes, x, o, Link(nodes[y], d));
    var b := Link(n1[y], d);
    assert b == Link(nodes[y], d);
    var n2 := SetP(n1, b, x);
    var pid := nodes[x].p;
    assert n2[x].p == pid;
    var n3 := SetP(n2, y, pid);
    assert n3[x].p == pid;
    var m := nodes[b := nodes[b].(p := x)]
                  [x := SetLink(nodes[x], o, b).(p := y)]
                  [y := SetLink(nodes[y], d, x).(p := pid)];
    var e := if nodes[pid].lc == x then L else R;
    assert n3[pid] == nodes[pid];
    var n4 := SetChild(n3, pid, e, y);
    var n5 := SetChild(n4, y, d, x);
    var n6 := SetP(n5, x, y);
    assert Rotated(nodes, root, x, d) == (n6, root);
    assert n6 == m[pid := SetLink(nodes[pid], e, y)];
  }

  /** The rotated subtree matches records updated as a rotation updates them */
  lemma RotateLocal(nodes: seq<NodeRecord>, E: seq<NodeRecord>, X: Tree, pid: int, d: Dir)
    requires Matches(nodes, X, pid) && UniqueIds(X) && |nodes| <= |E|
    requires X.Node? && Child(X, Other(d)).Node?
    requires
      var x, y := X.id, Child(X, Other(d)).id;
      var b := IdOf(Child(Child(X, Other(d)), d));
      && x < |nodes| && y < |nodes| && b < |nodes|
      && (forall i :: i in Ids(X) && i != x && i != y && i != b ==> i < |nodes| && E[i] == nodes[i])
      && E[x] == SetLink(nodes[x], Other(d), b).(p := y)
      && E[y] == SetLink(nodes[y], d, x).(p := pid)
      && (b != LEAF ==> E[b] == nodes[b].(p := x))
    ensures Matches(E, Rotate(X, d), pid)
  {
    var o := Other(d);
    var x := X.id;
    var Y := Child(X, o);
    var y := Y.id;
    var B := Child(Y, d);
    var b := IdOf(B);
    MatchesBounds(nodes, X, pid);
    UniqueIdsChild(X, o);
    UniqueIdsChild(X, d);
    UniqueIdsChild(Y, d);
    UniqueIdsChild(Y, o);
    assert Ids(X) == {x} + Ids(X.left) + Ids(X.right);
    assert Ids(Y) == {y} + Ids(Y.left) + Ids(Y.right);
    assert Ids(Child(X, d)) !! Ids(Y);
    assert Matches(nodes, Y, x);
    var X' := WithChild(X, o, B);
    MatchesFrame(nodes, E, Child(X, d), x);
    MatchesFrame(nodes, E, Child(Y, o), y);
    Reparent(nodes, E, B, y, x);
    assert Matches(E, X', y);
    assert Rotate(X, d) == WithChild(Y, d, X');
  }

  /** The records of x, its child y on the side that comes up, and x's
      parent pid (the sentinel at the root) as MatchesPath finds them */
  lemma RotateLinks(nodes: seq<NodeRecord>, root: int, t: Tree, q: Path, d: Dir)
    requires Represents(nodes, root, t) && ValidPath(t, q) && At(t, q).Node?
    requires Child(At(t, q), Other(d)).Node?
    ensures InArena(nodes, root) && nodes[root].p == LEAF
    ensures
      var X := At(t, q);
      var x, y := X.id, Child(X, Other(d)).id;
      var b := IdOf(Child(Child(X, Other(d)), d));
      var pid := ParentId(t, q, LEAF);
      && 0 < x < |nodes| && 0 < y < |nodes|
      && Link(nodes[x], Other(d)) == y && Link(nodes[y], d) == b && nodes[x].p == pid
      && y != x && b != x && b != y
      && (q == [] <==> pid == LEAF)
      && (q != [] ==> InArena(nodes, pid) && pid !in Ids(X) && Link(nodes[pid], Last(q)) == x)
      && (q != [] ==> pid != x && pid != y && pid != b)
      && (q != [] ==> (nodes[pid].lc == x <==> Last(q) == L))
      && Matches(nodes, X, pid) && UniqueIds(X)
  {
    var o := Other(d);
    var X := At(t, q);
    var x := X.id;
    var Y := Child(X, o);
    RootOfPath(t, q);
    MatchesPath(nodes, t, LEAF, []);
    MatchesPath(nodes, t, LEAF, q);
    AtIds(t, q);
    AtSnoc(t, q, o);
    MatchesPath(nodes, t, LEAF, q + [o]);
    assert ParentId(t, q + [o], LEAF) == x by {
      assert Up(q + [o]) == q;
    }
    UniqueIdsChild(X, o);
    UniqueIdsChild(Y, d);
    assert Ids(Y) == {Y.id} + Ids(Y.left) + Ids(Y.right);
    if q != [] {
      ValidUp(t, q);
      var pq := Up(q);
      var P := At(t, pq);
      AtIds(t, pq);
      MatchesPath(nodes, t, LEAF, pq);
      UniqueIdsChild(P, Last(q));
      assert Ids(P) == {P.id} + Ids(P.left) + Ids(P.right);
    }
  }

  /** The arena after a rotation at the node X at q, whose parent is pid:
      x, y and b get their new links, and the parent's link to x goes to y */
  function RotatedArena(nodes: seq<NodeRecord>, X: Tree, pid: int, q: Path, d: Dir): (r: seq<NodeRecord>)
    requires X.Node? && Child(X, Other(d)).Node?
    requires
      var x, y := X.id, Child(X, Other(d)).id;
      var b := IdOf(Child(Child(X, Other(d)), d));
      && 0 < x < |nodes| && 0 < y < |nodes| && 0 <= b < |nodes|
      && y != x && b != x && b != y
      && (q != [] ==> InArena(nodes, pid) && pid != x && pid != y && pid != b)
    ensures
      var x, y := X.id, Child(X, Other(d)).id;
      var b := IdOf(Child(Child(X, Other(d)), d));
      && |r| == |nodes|
      && (forall i :: 0 <= i < |nodes| && i != x && i != y && i != b && (q != [] ==> i != pid) ==> r[i] == nodes[i])
      && (q != [] ==> r[pid] == SetLink(nodes[pid], Last(q), y))
      && r[x] == SetLink(nodes[x], Other(d), b).(p := y)
      && r[y] == SetLink(nodes[y], d, x).(p := pid)
      && r[b] == nodes[b].(p := x)
  {
    var o := Other(d);
    var x, y := X.id, Child(X, o).id;
    var b := IdOf(Child(Child(X, o), d));
    var m := nodes[b := nodes[b].(p := x)]
                  [x := SetLink(nodes[x], o, b).(p := y)]
                  [y := SetLink(nodes[y], d, x).(p := pid)];
    if q == [] then m else m[pid := SetLink(nodes[pid], Last(q), y)]
  }

  lemma RotatedIsArena(nodes: seq<NodeRecord>, root: int, t: Tree, q: Path, d: Dir)
    requires Represents(nodes, root, t) && ValidPath(t, q) && At(t, q).Node?
    requires Child(At(t, q), Other(d)).Node?
    ensures InArena(nodes, root) && 0 < At(t, q).id < |nodes|
    ensures 0 < Child(At(t, q), Other(d)).id < |nodes|
    ensures 0 <= IdOf(Child(Child(At(t, q), Other(d)), d)) < |nodes|
    ensures
      var X := At(t, q);
      var x, y := X.id, Child(X, Other(d)).id;
      var b := IdOf(Child(Child(X, Other(d)), d));
      var pid := ParentId(t, q, LEAF);
      && y != x && b != x && b != y
      && (q != [] ==> InArena(nodes, pid) && pid != x && pid != y && pid != b)
    ensures Rotated(nodes, root, At(t, q).id, d).0
            == RotatedArena(nodes, At(t, q), ParentId(t, q, LEAF), q, d)
    ensures Rotated(nodes, root, At(t, q).id, d).1 == (if q == [] then Child(At(t, q), Other(d)).id else root)
  {
    RotateLinks(nodes, root, t, q, d);
    RotatedShape(nodes, root, At(t, q).id, d);
  }

  /** `leftRotate`/`rightRotate` at the index of the node at q, when the child
      that comes up is a real node, is RotateAt q */
  lemma RotateRefines(nodes: seq<NodeRecord>, root: int, t: Tree, q: Path, d: Dir)
    requires Represents(nodes, root, t) && ValidPath(t, q) && At(t, q).Node?
    requires Child(At(t, q), Other(d)).Node?
    ensures InArena(nodes, root) && 0 < At(t, q).id < |nodes|
    ensures
      var r := Rotated(nodes, root, At(t, q).id, d);
      Represents(r.0, r.1, RotateAt(t, q, d))
  {
    var o := Other(d);
    var X := At(t, q);
    var x := X.id;
    var y := Child(X, o).id;
    var b := IdOf(Child(Child(X, o), d));
    var pid := ParentId(t, q, LEAF);
    RotateLinks(nodes, root, t, q, d);
    RotatedIsArena(nodes, root, t, q, d);
    var E := RotatedArena(nodes, X, pid, q, d);
    MatchesBounds(nodes, t, LEAF);
    AtIds(t, q);
    RotateLocal(nodes, E, X, pid, d);
    var S := Rotate(X, d);
    assert IdOf(S) == y;
    assert Ids(X) == {x} + Ids(X.left) + Ids(X.right);
    assert Ids(Child(X, o)) == {y} + Ids(Child(X, o).left) + Ids(Child(X, o).right);
    forall i | i in Ids(t) - Ids(X) - {pid}
      ensures i < |nodes| && E[i] == nodes[i]
    {
      assert i != x && i != y && i != b;
    }
    MatchesReplace(nodes, E, t, LEAF, q, S);
    RotateAtKeeps(t, q, d);
    if q != [] {
      ReplaceKeepsRoot(t, q, S);
    }
    RotatedWellFormed(nodes, X, pid, q, d);
    assert Matches(E, RotateAt(t, q, d), LEAF);
  }

  /** A rotation only relinks records of the arena */
  lemma RotatedWellFormed(nodes: seq<NodeRecord>, X: Tree, pid: int, q: Path, d: Dir)
    requires WellFormed(nodes) && InArena(nodes, pid)
    requires X.Node? && Child(X, Other(d)).Node?
    requires
      var x, y := X.id, Child(X, Other(d)).id;
      var b := IdOf(Child(Child(X, Other(d)), d));
      && 0 < x < |nodes| && 0 < y < |nodes| && 0 <= b < |nodes|
      && y != x && b != x && b != y
      && (q != [] ==> pid != LEAF && pid != x && pid != y && pid != b)
    ensures WellFormed(RotatedArena(nodes, X, pid, q, d))
  {
    var r := RotatedArena(nodes, X, pid, q, d);
    var x, y := X.id, Child(X, Other(d)).id;
    var b := IdOf(Child(Child(X, Other(d)), d));
    assert r[LEAF] == if b == LEAF then nodes[LEAF].(p := x) else nodes[LEAF];
    forall i | 0 < i < |r|
      ensures InArena(r, r[i].p) && InArena(r, r[i].lc) && InArena(r, r[i].rc)
    {
      if i == x || i == y || i == b || (q != [] && i == pid) {
      } else {
        assert r[i] == nodes[i];
      }
    }
  }
}
