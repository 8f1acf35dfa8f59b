/** `RBInsertFixup` on the abstract tree. The loop state is the tree and the
    path of `z`; one iteration is `FixupStep`, written with the same recolourings
    and rotations, at the same nodes and in the same order, as the Java loop
    body. Each case is then shown to act only on the subtree of z's
    grandparent (the "local" cases below), which is where the red-black
    argument of Cormen et al., section 13.3, takes place. */
module InsertFixup {
  import opened Nodes
  import opened Trees
  import opened Balance

  /** The loop's state: the tree and the path of z */
  datatype Cursor = Cursor(tree: Tree, z: Path)

  /** What the loop needs to run without following a null link: z is a real
      node, and the root is black unless z is the root (a red root with a red
      child would send `z.getP().getP()` to the sentinel, whose children are null) */
  predicate FixupReady(t: Tree, q: Path)
  {
    ValidPath(t, q) && At(t, q).Node? && (q != [] ==> !IsRed(t))
  }

  /** The loop test `z.getP().getColor() == RED`; the root's parent is the black sentinel */
  predicate ParentRed(t: Tree, q: Path)
    requires ValidPath(t, q)
  {
    q != [] && (ValidUp(t, q); IsRed(At(t, Up(q))))
  }

  function Grand(q: Path): Path
    requires |q| >= 2
  {
    Up(Up(q))
  }

  // ---------------------------------------------------------------------------
  // The three cases on the grandparent's subtree g, with the parent on side d

  /** Case 1, red uncle: parent and uncle turn black, the grandparent red */
  function RecolorCase(g: Tree, d: Dir): Tree
    requires g.Node? && Child(g, d).Node? && Child(g, Other(d)).Node?
  {
    var w := WithChild(WithChild(g, d, Child(g, d).(color := BLACK)),
                       Other(d), Child(g, Other(d)).(color := BLACK));
    w.(color := RED)
  }

  /** Case 2, z an inner child: rotate at the parent so that z takes its place */
  function InnerCase(g: Tree, d: Dir): Tree
    requires g.Node?
  {
    WithChild(g, d, Rotate(Child(g, d), d))
  }

  /** Case 3, z an outer child: parent black, grandparent red, rotate at the grandparent */
  function OuterCase(g: Tree, d: Dir): Tree
    requires g.Node? && Child(g, d).Node?
  {
    var w := WithChild(g, d, Child(g, d).(color := BLACK));
    Rotate(w.(color := RED), Other(d))
  }

  /** Where the loop body's paths lead when the parent is red */
  lemma StepShape(t: Tree, q: Path)
    requires FixupReady(t, q) && ParentRed(t, q)
    ensures |q| >= 2
    ensures Up(q) == Grand(q) + [Last(Up(q))] && q == Up(q) + [Last(q)]
    ensures ValidPath(t, Grand(q)) && At(t, Grand(q)).Node?
    ensures ValidPath(t, Up(q)) && At(t, Up(q)) == Child(At(t, Grand(q)), Last(Up(q)))
    ensures IsRed(At(t, Up(q))) && At(t, q) == Child(At(t, Up(q)), Last(q))
    ensures ValidPath(t, Grand(q) + [Other(Last(Up(q)))])
    ensures At(t, Grand(q) + [Other(Last(Up(q)))]) == Child(At(t, Grand(q)), Other(Last(Up(q))))
  {
    ValidUp(t, q);
    assert Up(q) != [];
    ValidUp(t, Up(q));
    UpLast(q);
    UpLast(Up(q));
    AtSnoc(t, Grand(q), Other(Last(Up(q))));
  }

  /** Case 1 as the Java code performs it, three `setColor` calls, is RecolorCase at the grandparent */
  lemma RecolorSteps(t: Tree, g: Path, d: Dir)
    requires ValidPath(t, g) && At(t, g).Node?
    requires Child(At(t, g), d).Node? && Child(At(t, g), Other(d)).Node?
    ensures ValidPath(t, g + [d]) && At(t, g + [d]).Node?
    ensures
      var t1 := RecolorAt(t, g + [d], BLACK);
      && ValidPath(t1, g + [Other(d)]) && At(t1, g + [Other(d)]).Node?
      && var t2 := RecolorAt(t1, g + [Other(d)], BLACK);
      && ValidPath(t2, g) && At(t2, g).Node?
      && RecolorAt(t2, g, RED) == Replace(t, g, RecolorCase(At(t, g), d))
  {
    var G := At(t, g);
    ReplaceSame(t, g);
    OneStep(G, d, Child(G, d).(color := BLACK));
    RecolorInside(t, g, G, [d], BLACK);
    var G1 := WithChild(G, d, Child(G, d).(color := BLACK));
    OneStep(G1, Other(d), Child(G, Other(d)).(color := BLACK));
    RecolorInside(t, g, G1, [Other(d)], BLACK);
    var G2 := WithChild(G1, Other(d), Child(G, Other(d)).(color := BLACK));
    assert g + [] == g;
    RecolorInside(t, g, G2, [], RED);
  }

  /** Cases 2 and 3 as the Java code performs them are InnerCase (when z is the
      inner child) followed by OuterCase at the grandparent. Both rotations
      find a real node on the side they pull up, so neither hits the guard
      that makes `leftRotate`/`rightRotate` return early. */
  lemma RotateSteps(t: Tree, g: Path, d: Dir, e: Dir)
    requires ValidPath(t, g) && At(t, g).Node?
    requires Child(At(t, g), d).Node? && Child(Child(At(t, g), d), e).Node?
    ensures ValidPath(t, g + [d]) && At(t, g + [d]) == Child(At(t, g), d)
    ensures
      var t1 := if e == Other(d) then RotateAt(t, g + [d], d) else t;
      && ValidPath(t1, g + [d]) && At(t1, g + [d]).Node?
      && var t2 := RecolorAt(t1, g + [d], BLACK);
      && ValidPath(t2, g) && At(t2, g).Node?
      && var t3 := RecolorAt(t2, g, RED);
      && ValidPath(t3, g) && At(t3, g).Node?
      && (e == Other(d) ==> Child(At(t, g + [d]), Other(d)).Node?)
      && Child(At(t3, g), d).Node?
      && RotateAt(t3, g, Other(d))
         == Replace(t, g, OuterCase(if e == Other(d) then InnerCase(At(t, g), d) else At(t, g), d))
  {
    var G := At(t, g);
    AtSnoc(t, g, d);
    ReplaceSame(t, g);
    OneStep(G, d, Rotate(Child(G, d), d));
    RotateInside(t, g, G, [d], d);
    var H := if e == Other(d) then InnerCase(G, d) else G;
    assert (if e == Other(d) then RotateAt(t, g + [d], d) else t) == Replace(t, g, H);
    OneStep(H, d, Child(H, d).(color := BLACK));
    RecolorInside(t, g, H, [d], BLACK);
    var H1 := WithChild(H, d, Child(H, d).(color := BLACK));
    assert g + [] == g;
    RecolorInside(t, g, H1, [], RED);
    ReplaceThenAt(t, g, H1.(color := RED));
    RotateInside(t, g, H1.(color := RED), [], Other(d));
  }

  /** Where the nodes case 1 touches sit after each of its recolourings:
      recolouring moves no node, so each path keeps its node's index */
  lemma RecolorStepsIds(t: Tree, g: Path, d: Dir)
    requires ValidPath(t, g) && At(t, g).Node?
    requires Child(At(t, g), d).Node? && Child(At(t, g), Other(d)).Node?
    ensures ValidPath(t, g + [d]) && At(t, g + [d]) == Child(At(t, g), d)
    ensures ValidPath(t, g + [Other(d)]) && At(t, g + [Other(d)]) == Child(At(t, g), Other(d))
    ensures
      var t1 := RecolorAt(t, g + [d], BLACK);
      && ValidPath(t1, g + [Other(d)]) && At(t1, g + [Other(d)]).Node?
      && At(t1, g + [Other(d)]).id == Child(At(t, g), Other(d)).id
      && var t2 := RecolorAt(t1, g + [Other(d)], BLACK);
      && ValidPath(t2, g) && At(t2, g).Node? && At(t2, g).id == At(t, g).id
      && var t3 := RecolorAt(t2, g, RED);
      && ValidPath(t3, g) && At(t3, g).Node? && At(t3, g).id == At(t, g).id
  {
    var G := At(t, g);
    AtSnoc(t, g, d);
    AtSnoc(t, g, Other(d));
    RecolorSteps(t, g, d);
    ReplaceSame(t, g);
    OneStep(G, d, Child(G, d).(color := BLACK));
    RecolorInside(t, g, G, [d], BLACK);
    var G1 := WithChild(G, d, Child(G, d).(color := BLACK));
    ReplaceInside(t, g, G1, [Other(d)], Leaf);
    OneStep(G1, Other(d), Child(G, Other(d)).(color := BLACK));
    RecolorInside(t, g, G1, [Other(d)], BLACK);
    var G2 := WithChild(G1, Other(d), Child(G, Other(d)).(color := BLACK));
    ReplaceThenAt(t, g, G2);
    ReplaceThenAt(t, g, RecolorCase(G, d));
  }

  /** Where the nodes cases 2 and 3 touch sit after each step: z1, the node
      Java's z names after case 2 (z's parent if z was the inner child, z
      itself otherwise), sits two steps below the grandparent's place on side
      d, and ends one step below it; the grandparent keeps its place until the
      last rotation */
  lemma RotateStepsIds(t: Tree, g: Path, d: Dir, e: Dir)
    requires ValidPath(t, g) && At(t, g).Node?
    requires Child(At(t, g), d).Node? && Child(Child(At(t, g), d), e).Node?
    ensures ValidPath(t, g + [d]) && At(t, g + [d]) == Child(At(t, g), d)
    ensures
      var G := At(t, g);
      var P := Child(G, d);
      var z1 := if e == Other(d) then P.id else Child(P, e).id;
      var t1 := if e == Other(d) then RotateAt(t, g + [d], d) else t;
      && ValidPath(t1, g + [d] + [d]) && At(t1, g + [d] + [d]).Node? && At(t1, g + [d] + [d]).id == z1
      && ValidPath(t1, g + [d]) && ValidPath(t1, g)
      && At(t1, g + [d]).Node? && At(t1, g).Node? && At(t1, g).id == G.id
      && var t2 := RecolorAt(t1, g + [d], BLACK);
      && ValidPath(t2, g) && At(t2, g).Node? && At(t2, g).id == G.id
      && var t3 := RecolorAt(t2, g, RED);
      && ValidPath(t3, g) && At(t3, g).Node? && At(t3, g).id == G.id
      && var t4 := RotateAt(t3, g, Other(d));
      && ValidPath(t4, g + [d]) && At(t4, g + [d]).Node? && At(t4, g + [d]).id == z1
  {
    var G := At(t, g);
    var P := Child(G, d);
    RotateSteps(t, g, d, e);
    ReplaceSame(t, g);
    OneStep(G, d, Rotate(P, d));
    RotateInside(t, g, G, [d], d);
    var H := if e == Other(d) then InnerCase(G, d) else G;
    var t1 := if e == Other(d) then RotateAt(t, g + [d], d) else t;
    assert t1 == Replace(t, g, H);
    assert Child(H, d).Node? && Child(Child(H, d), d).Node?;
    TwoSteps(H, d, d, Leaf);
    ReplaceInside(t, g, H, [d, d], Leaf);
    assert g + [d] + [d] == g + [d, d];
    ReplaceInside(t, g, H, [d], Leaf);
    OneStep(H, d, Leaf);
    ReplaceThenAt(t, g, H);
    var H1 := WithChild(H, d, Child(H, d).(color := BLACK));
    OneStep(H, d, Child(H, d).(color := BLACK));
    RecolorInside(t, g, H, [d], BLACK);
    ReplaceThenAt(t, g, H1);
    assert g + [] == g;
    RecolorInside(t, g, H1, [], RED);
    ReplaceThenAt(t, g, H1.(color := RED));
    var X := OuterCase(H, d);
    OuterShape(H, d);
    ReplaceInside(t, g, X, [d], Leaf);
    OneStep(X, d, Leaf);
  }

  /** One iteration of the loop body (lines 225-257): the branch on the
      parent's side, the uncle's colour, and for a black uncle whether z is
      the inner child; z moves to its grandparent (red uncle) or to the node
      that ends below the rotated grandparent (black uncle) */
  function FixupStep(t: Tree, q: Path): (r: Cursor)
    requires FixupReady(t, q) && ParentRed(t, q)
    ensures FixupReady(r.tree, r.z) && |r.z| < |q|
  {
    StepShape(t, q);
    var pq, gq, d := Up(q), Grand(q), Last(Up(q));
    var uq := gq + [Other(d)];
    if IsRed(At(t, uq)) then
      RecolorSteps(t, gq, d);
      StepReadyRecolor(t, gq, d);
      var t1 := RecolorAt(t, pq, BLACK);
      var t2 := RecolorAt(t1, uq, BLACK);
      Cursor(RecolorAt(t2, gq, RED), gq)
    else
      RotateSteps(t, gq, d, Last(q));
      StepReadyRotate(t, gq, d, Last(q));
      var t1 := if Last(q) == Other(d) then RotateAt(t, pq, d) else t;
      var t2 := RecolorAt(t1, pq, BLACK);
      var t3 := RecolorAt(t2, gq, RED);
      Cursor(RotateAt(t3, gq, Other(d)), gq + [d])
  }

  /** Where one pass leaves z: with a red uncle z climbs exactly two levels to
      its grandparent; with a black uncle z's new parent is black, so the loop
      ends after this pass, and an insert rotates at most twice */
  lemma StepMovesZ(t: Tree, q: Path)
    requires FixupReady(t, q) && ParentRed(t, q)
    ensures |q| >= 2 && ValidPath(t, Grand(q) + [Other(Last(Up(q)))])
    ensures IsRed(At(t, Grand(q) + [Other(Last(Up(q)))])) ==> FixupStep(t, q).z == Grand(q)
    ensures !IsRed(At(t, Grand(q) + [Other(Last(Up(q)))])) ==>
      |FixupStep(t, q).z| == |q| - 1 && !ParentRed(FixupStep(t, q).tree, FixupStep(t, q).z)
  {
    StepShape(t, q);
    var gq, d := Grand(q), Last(Up(q));
    if !IsRed(At(t, gq + [Other(d)])) {
      var r := FixupStep(t, q);
      RotateSteps(t, gq, d, Last(q));
      StepReadyRotate(t, gq, d, Last(q));
      var X := OuterCase(if Last(q) == Other(d) then InnerCase(At(t, gq), d) else At(t, gq), d);
      assert r.tree == Replace(t, gq, X) && r.z == gq + [d];
      OuterShape(if Last(q) == Other(d) then InnerCase(At(t, gq), d) else At(t, gq), d);
      ReplaceThenAt(t, gq, X);
      assert Up(r.z) == gq;
    }
  }

  lemma StepReadyRecolor(t: Tree, g: Path, d: Dir)
    requires ValidPath(t, g) && At(t, g).Node?
    requires Child(At(t, g), d).Node? && Child(At(t, g), Other(d)).Node?
    requires g != [] ==> !IsRed(t)
    ensures FixupReady(Replace(t, g, RecolorCase(At(t, g), d)), g)
  {
    ReplaceThenAt(t, g, RecolorCase(At(t, g), d));
  }

  lemma StepReadyRotate(t: Tree, g: Path, d: Dir, e: Dir)
    requires ValidPath(t, g) && At(t, g).Node?
    requires Child(At(t, g), d).Node? && Child(Child(At(t, g), d), e).Node?
    requires g != [] ==> !IsRed(t)
    ensures
      var X := OuterCase(if e == Other(d) then InnerCase(At(t, g), d) else At(t, g), d);
      FixupReady(Replace(t, g, X), g + [d])
  {
    var G := At(t, g);
    var H := if e == Other(d) then InnerCase(G, d) else G;
    var X := OuterCase(H, d);
    OuterShape(H, d);
    OneStep(X, d, Leaf);
    ReplaceInside(t, g, X, [d], Leaf);
  }

  /** After case 3 the grandparent's place holds a black node whose child on
      side d is the former grandchild on side d */
  lemma OuterShape(h: Tree, d: Dir)
    requires h.Node? && Child(h, d).Node?
    ensures OuterCase(h, d).Node? && !IsRed(OuterCase(h, d))
    ensures Child(OuterCase(h, d), d) == Child(Child(h, d), d)
  {
  }

  /** The loop (line 224) followed by blackening the root (line 259). Each
      iteration moves z at least one level up, so the loop ends. */
  function Fixup(t: Tree, q: Path): (r: Tree)
    requires FixupReady(t, q)
    ensures r.Node? && !IsRed(r)
    decreases |q|
  {
    if ParentRed(t, q) then
      var s := FixupStep(t, q);
      Fixup(s.tree, s.z)
    else
      RootOfPath(t, q);
      RecolorAt(t, [], BLACK)
  }

  // ---------------------------------------------------------------------------
  // The red-black argument

  /** The loop invariant: the tree is black-balanced, z is red with non-red
      children, and the only red-red pair, if any, is z with its parent */
  predicate FixupInvariant(t: Tree, q: Path)
  {
    && FixupReady(t, q)
    && BlackBalanced(t)
    && IsRed(At(t, q)) && !IsRed(At(t, q).left) && !IsRed(At(t, q).right)
    && RedRedFree(RecolorAt(t, q, BLACK))
  }

  /** A grandparent subtree g whose only red-red pair is z (at [d, e]) with its parent */
  predicate LocalBroken(g: Tree, d: Dir, e: Dir)
  {
    && g.Node? && !IsRed(g) && BlackBalanced(g)
    && Child(g, d).Node? && IsRed(Child(g, d))
    && Child(Child(g, d), e).Node?
    && var p := Child(g, d);
    && var z := Child(p, e);
    && IsRed(z) && !IsRed(z.left) && !IsRed(z.right)
    && RedRedFree(z.left) && RedRedFree(z.right)
    && !IsRed(Child(p, Other(e))) && RedRedFree(Child(p, Other(e)))
    && RedRedFree(Child(g, Other(d)))
  }

  /** g with z blackened */
  function ZBlack(g: Tree, d: Dir, e: Dir): Tree
    requires g.Node? && Child(g, d).Node? && Child(Child(g, d), e).Node?
  {
    var p := Child(g, d);
    WithChild(g, d, WithChild(p, e, Child(p, e).(color := BLACK)))
  }

  /** A red uncle: after case 1 the grandparent's subtree is balanced with the
      same black height, and its red root, the new z, is the only possible violation */
  lemma RecolorCaseRepairs(g: Tree, d: Dir, e: Dir)
    requires LocalBroken(g, d, e) && IsRed(Child(g, Other(d)))
    ensures
      var x := RecolorCase(g, d);
      && BlackBalanced(x) && BlackHeight(x) == BlackHeight(g)
      && IsRed(x) && !IsRed(x.left) && !IsRed(x.right)
      && RedRedFree(x.(color := BLACK))
  {
    var p, u := Child(g, d), Child(g, Other(d));
    assert BlackBalanced(p) && BlackBalanced(u) && BlackHeight(p) == BlackHeight(u);
    var pb, ub := p.(color := BLACK), u.(color := BLACK);
    assert BlackHeight(pb) == BlackHeight(p) + 1 && BlackBalanced(pb);
    assert BlackHeight(ub) == BlackHeight(u) + 1 && BlackBalanced(ub);
    assert RedRedFree(pb) && RedRedFree(ub);
  }

  /** A black uncle: after cases 2 and 3 the grandparent's subtree is a valid
      red-black subtree with a black root and the same black height */
  lemma RotateCasesRepair(g: Tree, d: Dir, e: Dir)
    requires LocalBroken(g, d, e) && !IsRed(Child(g, Other(d)))
    ensures
      var x := OuterCase(if e == Other(d) then InnerCase(g, d) else g, d);
      && x.Node? && BlackBalanced(x) && BlackHeight(x) == BlackHeight(g)
      && RedRedFree(x) && !IsRed(x)
      && Child(x, d).Node? && IsRed(Child(x, d))
      && !IsRed(Child(x, d).left) && !IsRed(Child(x, d).right)
  {
    var p, u := Child(g, d), Child(g, Other(d));
    var z := Child(p, e);
    var s := Child(p, Other(e));
    assert BlackBalanced(p) && BlackBalanced(u) && BlackHeight(p) == BlackHeight(u);
    assert BlackBalanced(z) && BlackBalanced(s) && BlackHeight(z) == BlackHeight(s);
    assert BlackHeight(z.left) == BlackHeight(z.right) == BlackHeight(z) == BlackHeight(p);
    assert BlackBalanced(z.left) && BlackBalanced(z.right);
    var gk, gi, pk, pi := g.key, g.id, p.key, p.id;
    if d == L && e == L {
      var g' := Node(RED, gk, gi, s, u);
      assert OuterCase(g, d) == Node(BLACK, pk, pi, z, g');
    } else if d == L {
      var p' := Node(RED, pk, pi, s, z.left);
      var g' := Node(RED, gk, gi, z.right, u);
      assert OuterCase(InnerCase(g, d), d) == Node(BLACK, z.key, z.id, p', g');
    } else if e == R {
      var g' := Node(RED, gk, gi, u, s);
      assert OuterCase(g, d) == Node(BLACK, pk, pi, g', z);
    } else {
      var g' := Node(RED, gk, gi, u, z.left);
      var p' := Node(RED, pk, pi, z.right, s);
      assert OuterCase(InnerCase(g, d), d) == Node(BLACK, z.key, z.id, g', p');
    }
  }


  /** Blackening z is a change inside its grandparent's subtree */
  lemma ZBlackInside(t: Tree, q: Path)
    requires FixupReady(t, q) && ParentRed(t, q)
    ensures |q| >= 2 && ValidPath(t, Grand(q)) && At(t, Grand(q)).Node?
    ensures Child(At(t, Grand(q)), Last(Up(q))).Node?
    ensures Child(Child(At(t, Grand(q)), Last(Up(q))), Last(q)).Node?
    ensures RecolorAt(t, q, BLACK)
            == Replace(t, Grand(q), ZBlack(At(t, Grand(q)), Last(Up(q)), Last(q)))
  {
    StepShape(t, q);
    var gq, d, e := Grand(q), Last(Up(q)), Last(q);
    var G := At(t, gq);
    var z := Child(Child(G, d), e);
    assert q == gq + [d, e];
    ReplaceSame(t, gq);
    TwoSteps(G, d, e, z.(color := BLACK));
    ReplaceInside(t, gq, G, [d, e], z.(color := BLACK));
  }

  /** The invariant, seen from z's grandparent */
  lemma InvariantLocal(t: Tree, q: Path)
    requires FixupInvariant(t, q) && ParentRed(t, q)
    ensures |q| >= 2 && ValidPath(t, Grand(q))
    ensures LocalBroken(At(t, Grand(q)), Last(Up(q)), Last(q))
    ensures RedRedFree(Replace(t, Grand(q), ZBlack(At(t, Grand(q)), Last(Up(q)), Last(q))))
  {
    ZBlackInside(t, q);
    StepShape(t, q);
    var gq, d, e := Grand(q), Last(Up(q)), Last(q);
    var G := At(t, gq);
    var gz := ZBlack(G, d, e);
    ReplaceThenAt(t, gq, gz);
    AtKeepsProperties(Replace(t, gq, gz), gq);
    AtKeepsProperties(t, gq);
    var p := Child(G, d);
    assert Child(gz, d) == WithChild(p, e, Child(p, e).(color := BLACK));
    assert RedRedFree(Child(gz, d)) && RedRedFree(Child(gz, Other(d)));
    var zb := Child(p, e).(color := BLACK);
    assert Child(Child(gz, d), e) == zb && RedRedFree(zb);
  }

  /** Blackening the root of a subtree free of red-red pairs keeps it so */
  lemma BlackenKeepsRedRedFree(t: Tree)
    requires t.Node? && RedRedFree(t)
    ensures RedRedFree(t.(color := BLACK))
  {
  }

  /** One iteration keeps the invariant */
  lemma StepKeepsInvariant(t: Tree, q: Path)
    requires FixupInvariant(t, q) && ParentRed(t, q)
    ensures FixupInvariant(FixupStep(t, q).tree, FixupStep(t, q).z)
  {
    InvariantLocal(t, q);
    StepShape(t, q);
    var gq, d, e := Grand(q), Last(Up(q)), Last(q);
    var G := At(t, gq);
    var gz := ZBlack(G, d, e);
    var r := FixupStep(t, q);
    AtKeepsProperties(t, gq);
    if IsRed(At(t, gq + [Other(d)])) {
      RecolorSteps(t, gq, d);
      var x := RecolorCase(G, d);
      assert r.tree == Replace(t, gq, x) && r.z == gq;
      RecolorCaseRepairs(G, d, e);
      ReplaceKeepsBalance(t, gq, x);
      ReplaceThenAt(t, gq, x);
      ReplaceTwice(t, gq, x, x.(color := BLACK));
      ReplaceKeepsRedRedFree(t, gq, gz, x.(color := BLACK));
    } else {
      RotateSteps(t, gq, d, e);
      var x := OuterCase(if e == Other(d) then InnerCase(G, d) else G, d);
      assert r.tree == Replace(t, gq, x) && r.z == gq + [d];
      RotateCasesRepair(G, d, e);
      ReplaceKeepsBalance(t, gq, x);
      var c := Child(x, d);
      OneStep(x, d, c.(color := BLACK));
      ReplaceInside(t, gq, x, [d], c.(color := BLACK));
      BlackenKeepsRedRedFree(c);
      var b := WithChild(x, d, c.(color := BLACK));
      assert RedRedFree(b);
      ReplaceKeepsRedRedFree(t, gq, gz, b);
    }
  }

  /** When the parent is not red, blackening the root leaves a red-black tree */
  lemma ExitRedBlack(t: Tree, q: Path)
    requires FixupInvariant(t, q) && !ParentRed(t, q)
    ensures t.Node? && IsRedBlack(RecolorAt(t, [], BLACK))
  {
    RootOfPath(t, q);
    var z := At(t, q);
    var zb := z.(color := BLACK);
    if q == [] {
      assert RedRedFree(zb);
    } else {
      ValidUp(t, q);
      var pq, e := Up(q), Last(q);
      var P := At(t, pq);
      UpLast(q);
      ReplaceSame(t, pq);
      OneStep(P, e, zb);
      ReplaceInside(t, pq, P, [e], zb);
      var pz := WithChild(P, e, zb);
      ReplaceThenAt(t, pq, pz);
      AtKeepsProperties(Replace(t, pq, pz), pq);
      assert RedRedFree(Child(pz, Other(e))) && RedRedFree(zb);
      assert RedRedFree(P);
      ReplaceKeepsRedRedFree(t, pq, pz, P);
    }
  }

  /** RBInsertFixup restores the red-black properties from its precondition */
  lemma {:induction false} FixupRestoresRedBlack(t: Tree, q: Path)
    requires FixupInvariant(t, q)
    ensures IsRedBlack(Fixup(t, q))
    decreases |q|
  {
    if ParentRed(t, q) {
      StepKeepsInvariant(t, q);
      var s := FixupStep(t, q);
      FixupRestoresRedBlack(s.tree, s.z);
    } else {
      ExitRedBlack(t, q);
    }
  }

  /** One iteration keeps the keys in order and the set of nodes */
  lemma StepKeepsNodes(t: Tree, q: Path)
    requires FixupReady(t, q) && ParentRed(t, q)
    ensures InOrder(FixupStep(t, q).tree) == InOrder(t)
    ensures Ids(FixupStep(t, q).tree) == Ids(t)
    ensures UniqueIds(t) ==> UniqueIds(FixupStep(t, q).tree)
  {
    StepShape(t, q);
    var pq, gq, d := Up(q), Grand(q), Last(Up(q));
    var uq := gq + [Other(d)];
    if IsRed(At(t, uq)) {
      RecolorSteps(t, gq, d);
      var t1 := RecolorAt(t, pq, BLACK);
      var t2 := RecolorAt(t1, uq, BLACK);
      RecolorAtKeeps(t, pq, BLACK);
      RecolorAtKeeps(t1, uq, BLACK);
      RecolorAtKeeps(t2, gq, RED);
    } else {
      RotateSteps(t, gq, d, Last(q));
      var t1 := if Last(q) == Other(d) then RotateAt(t, pq, d) else t;
      var t2 := RecolorAt(t1, pq, BLACK);
      var t3 := RecolorAt(t2, gq, RED);
      if Last(q) == Other(d) {
        RotateAtKeeps(t, pq, d);
      }
      RecolorAtKeeps(t1, pq, BLACK);
      RecolorAtKeeps(t2, gq, RED);
      RotateAtKeeps(t3, gq, Other(d));
    }
  }

  /** RBInsertFixup only recolours and rotates: the in-order keys and the set of nodes stay */
  lemma {:induction false} FixupKeepsNodes(t: Tree, q: Path)
    requires FixupReady(t, q)
    ensures InOrder(Fixup(t, q)) == InOrder(t)
    ensures Ids(Fixup(t, q)) == Ids(t)
    ensures UniqueIds(t) ==> UniqueIds(Fixup(t, q))
    decreases |q|
  {
    if ParentRed(t, q) {
      StepKeepsNodes(t, q);
      var s := FixupStep(t, q);
      FixupKeepsNodes(s.tree, s.z);
    } else {
      RootOfPath(t, q);
      RecolorAtKeeps(t, [], BLACK);
    }
  }
}
