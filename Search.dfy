/** The search that `contains` (through `checkForData`) and `closeBy` (through
    `getCloseNode`) perform: from the root, stop at a key equal to v, go right
    past a key that compares less than v and left past one that compares
    greater. */
module Search {
  import opened JavaStrings
  import opened SortedSeqs
  import opened Trees
  import opened Balance

  function LastKey(s: seq<string>): string
    requires s != []
  {
    s[|s| - 1]
  }

  /** The keys of the nodes the search visits, in order */
  function SearchPath(t: Tree, v: string): (p: seq<string>)
    ensures |p| <= Depth(t)
  {
    if t.Leaf? then []
    else if CompareTo(t.key, v) == 0 then [t.key]
    else if CompareTo(t.key, v) < 0 then [t.key] + SearchPath(t.right, v)
    else [t.key] + SearchPath(t.left, v)
  }

  /** The search visits keys of the tree, and at least one when there is one */
  lemma {:induction false} SearchPathInTree(t: Tree, v: string)
    ensures forall k :: k in SearchPath(t, v) ==> k in InOrder(t)
    ensures SearchPath(t, v) == [] <==> t.Leaf?
  {
    if t.Node? {
      SearchPathInTree(t.left, v);
      SearchPathInTree(t.right, v);
    }
  }

  /** The search reaches v exactly when it ends on it */
  lemma {:induction false} SearchEndsAtMatch(t: Tree, v: string)
    ensures v in SearchPath(t, v) <==> SearchPath(t, v) != [] && LastKey(SearchPath(t, v)) == v
  {
    if t.Node? {
      CompareToZero(t.key, v);
      if CompareTo(t.key, v) < 0 {
        SearchEndsAtMatch(t.right, v);
      } else if CompareTo(t.key, v) > 0 {
        SearchEndsAtMatch(t.left, v);
      }
    }
  }

  /** In a tree with sorted keys the search reaches v exactly when v is a key of the tree */
  lemma {:induction false} SearchFindsMembers(t: Tree, v: string)
    requires Sorted(InOrder(t))
    ensures v in SearchPath(t, v) <==> v in InOrder(t)
  {
    if t.Node? {
      SortedSides(t);
      CompareToZero(t.key, v);
      CompareToAntisymmetric(t.key, v);
      if CompareTo(t.key, v) < 0 {
        SearchFindsMembers(t.right, v);
        forall k | k in InOrder(t.left) ensures k != v {
          Trichotomy(k, t.key);
        }
      } else if CompareTo(t.key, v) > 0 {
        SearchFindsMembers(t.left, v);
        forall k | k in InOrder(t.right) ensures k != v {
          Trichotomy(t.key, k);
        }
      }
    }
  }

  /** No key lies strictly between c and v, in either order */
  predicate Adjacent(c: string, v: string, keys: seq<string>)
  {
    forall k :: k in keys ==> !(Less(c, k) && Less(k, v)) && !(Less(v, k) && Less(k, c))
  }

  /** The last key the search visits in a sorted tree is a neighbour of v: no
      key of the tree lies strictly between the two */
  lemma {:induction false} SearchEndsNextToValue(t: Tree, v: string)
    requires Sorted(InOrder(t)) && t.Node?
    ensures SearchPath(t, v) != [] && LastKey(SearchPath(t, v)) in InOrder(t)
    ensures Adjacent(LastKey(SearchPath(t, v)), v, InOrder(t))
  {
    SortedSides(t);
    CompareToZero(t.key, v);
    CompareToAntisymmetric(t.key, v);
    CompareToZero(t.key, t.key);
    var p := SearchPath(t, v);
    if CompareTo(t.key, v) == 0 {
      forall k | k in InOrder(t) ensures !(Less(v, k) && Less(k, v)) {
        Trichotomy(v, k);
      }
    } else if CompareTo(t.key, v) < 0 {
      var c := if t.right.Leaf? then t.key else (SearchEndsNextToValue(t.right, v); LastKey(SearchPath(t.right, v)));
      assert LastKey(p) == c;
      assert LessEq(t.key, c);
      forall k | k in InOrder(t.left) || k == t.key
        ensures !(Less(c, k) && Less(k, v)) && !(Less(v, k) && Less(k, c))
      {
        if k != t.key {
          LessEqTransitive(k, t.key, c);
        }
        Trichotomy(k, c);
        LessEqLessTransitive(k, t.key, v);
        Trichotomy(k, v);
      }
      assert InOrder(t) == InOrder(t.left) + [t.key] + InOrder(t.right);
    } else {
      var c := if t.left.Leaf? then t.key else (SearchEndsNextToValue(t.left, v); LastKey(SearchPath(t.left, v)));
      assert LastKey(p) == c;
      assert LessEq(c, t.key);
      forall k | k in InOrder(t.right) || k == t.key
        ensures !(Less(c, k) && Less(k, v)) && !(Less(v, k) && Less(k, c))
      {
        if k != t.key {
          LessEqTransitive(c, t.key, k);
        }
        Trichotomy(c, k);
        LessLessEqTransitive(v, t.key, k);
        Trichotomy(k, v);
      }
      assert InOrder(t) == InOrder(t.left) + [t.key] + InOrder(t.right);
    }
  }
}
