/** Sequences of keys in compareTo order: what the in-order traversal of a
    binary search tree yields, and where an insertion puts a new key. */
module SortedSeqs {
  import opened JavaStrings

  /** Non-decreasing under compareTo */
  predicate Sorted(s: seq<string>)
  {
    forall i, j :: 0 <= i < j < |s| ==> LessEq(s[i], s[j])
  }

  /** s with v placed after every key that is not greater than it */
  function InsertSorted(s: seq<string>, v: string): seq<string>
  {
    if s == [] then [v]
    else if Less(v, s[0]) then [v] + s
    else [s[0]] + InsertSorted(s[1..], v)
  }

  /** The pieces of a sorted sequence are sorted */
  lemma SortedParts(a: seq<string>, b: seq<string>)
    requires Sorted(a + b)
    ensures Sorted(a) && Sorted(b)
  {
    forall i, j | 0 <= i < j < |a| ensures LessEq(a[i], a[j]) {
      assert (a + b)[i] == a[i] && (a + b)[j] == a[j];
    }
    forall i, j | 0 <= i < j < |b| ensures LessEq(b[i], b[j]) {
      assert (a + b)[|a| + i] == b[i] && (a + b)[|a| + j] == b[j];
    }
  }

  /** A sorted sequence with v inside: the pieces around v are sorted, and v
      sits between them */
  lemma SortedSplitAt(a: seq<string>, v: string, b: seq<string>)
    requires Sorted(a + [v] + b)
    ensures Sorted(a) && Sorted(b)
    ensures forall k :: k in a ==> LessEq(k, v)
    ensures forall k :: k in b ==> LessEq(v, k)
  {
    var s := a + [v] + b;
    assert a + ([v] + b) == s;
    SortedParts(a, [v] + b);
    SortedParts([v], b);
    forall k | k in a ensures LessEq(k, v) {
      var i :| 0 <= i < |a| && a[i] == k;
      assert s[i] == k && s[|a|] == v;
    }
    forall k | k in b ensures LessEq(v, k) {
      var i :| 0 <= i < |b| && b[i] == k;
      assert s[|a| + 1 + i] == k && s[|a|] == v;
    }
  }

  /** A key that sits between two sorted sequences joins them into a sorted one */
  lemma SortedAround(a: seq<string>, v: string, b: seq<string>)
    requires Sorted(a) && Sorted(b)
    requires forall k :: k in a ==> LessEq(k, v)
    requires forall k :: k in b ==> LessEq(v, k)
    ensures Sorted(a + [v] + b)
  {
    var s := a + [v] + b;
    forall i, j | 0 <= i < j < |s| ensures LessEq(s[i], s[j]) {
      if j < |a| {
        assert s[i] == a[i] && s[j] == a[j];
      } else if i > |a| {
        assert s[i] == b[i - |a| - 1] && s[j] == b[j - |a| - 1];
      } else if i == |a| {
        assert s[j] == b[j - |a| - 1] && s[j] in b;
      } else if j == |a| {
        assert s[i] == a[i] && s[i] in a;
      } else {
        assert s[i] == a[i] && s[i] in a;
        assert s[j] == b[j - |a| - 1] && s[j] in b;
        LessEqTransitive(s[i], v, s[j]);
      }
    }
  }

  /** Inserting between the keys not greater than v and those greater than v */
  lemma {:induction false} InsertSortedSplit(a: seq<string>, v: string, b: seq<string>)
    requires forall k :: k in a ==> LessEq(k, v)
    requires forall k :: k in b ==> Less(v, k)
    ensures InsertSorted(a + b, v) == a + [v] + b
    decreases |a|
  {
    if a == [] {
      assert a + b == b;
      if b != [] {
        assert b[0] in b;
      }
    } else {
      assert (a + b)[0] == a[0] && (a + b)[1..] == a[1..] + b;
      assert a[0] in a;
      Trichotomy(a[0], v);
      InsertSortedSplit(a[1..], v, b);
      assert a == [a[0]] + a[1..];
    }
  }

  /** InsertSorted adds exactly v */
  lemma {:induction false} InsertSortedElements(s: seq<string>, v: string)
    ensures multiset(InsertSorted(s, v)) == multiset(s) + multiset{v}
    decreases |s|
  {
    if s != [] && !Less(v, s[0]) {
      InsertSortedElements(s[1..], v);
      assert s == [s[0]] + s[1..];
    }
  }

  /** InsertSorted keeps a sorted sequence sorted */
  lemma {:induction false} InsertSortedKeepsSorted(s: seq<string>, v: string)
    requires Sorted(s)
    ensures Sorted(InsertSorted(s, v))
    decreases |s|
  {
    if s == [] {
    } else if Less(v, s[0]) {
      forall k | k in s ensures LessEq(v, k) {
        var i :| 0 <= i < |s| && s[i] == k;
        if i > 0 {
          LessLessEqTransitive(v, s[0], k);
        }
      }
      SortedAround([], v, s);
      assert [] + [v] + s == [v] + s;
    } else {
      SortedParts([s[0]], s[1..]);
      InsertSortedKeepsSorted(s[1..], v);
      var r := InsertSorted(s[1..], v);
      FirstIsLeast(s, v);
      SortedAround([], s[0], r);
      assert [] + [s[0]] + r == [s[0]] + r;
    }
  }

  lemma FirstIsLeast(s: seq<string>, v: string)
    requires Sorted(s) && s != [] && !Less(v, s[0])
    ensures forall k :: k in InsertSorted(s[1..], v) ==> LessEq(s[0], k)
  {
    Trichotomy(s[0], v);
    InsertSortedElements(s[1..], v);
    forall k | k in InsertSorted(s[1..], v) ensures LessEq(s[0], k) {
      assert k in multiset(InsertSorted(s[1..], v));
      if k != v {
        assert k in multiset(s[1..]);
        var i :| 0 <= i < |s[1..]| && s[1..][i] == k;
        assert s[i + 1] == k;
      }
    }
  }
}
