/** Java's `String.compareTo`, the only key comparison the red-black tree uses,
    and the total order it induces on strings. */
module JavaStrings {

  /** `a.compareTo(b)`: the difference of the first pair of characters that differ,
      or the difference of the lengths when one string is a prefix of the other. */
  function CompareTo(a: string, b: string): int
  {
    if a == [] || b == [] then |a| - |b|
    else if a[0] != b[0] then a[0] as int - b[0] as int
    else CompareTo(a[1..], b[1..])
  }

  /** a sorts strictly before b */
  predicate Less(a: string, b: string)
  {
    CompareTo(a, b) < 0
  }

  /** a sorts before b or equals it */
  predicate LessEq(a: string, b: string)
  {
    CompareTo(a, b) <= 0
  }

  /** compareTo reports 0 exactly for equal strings */
  lemma {:induction false} CompareToZero(a: string, b: string)
    ensures CompareTo(a, b) == 0 <==> a == b
  {
    if a != [] && b != [] && a[0] == b[0] {
      CompareToZero(a[1..], b[1..]);
      assert a == [a[0]] + a[1..] && b == [b[0]] + b[1..];
    }
  }

  /** Swapping the operands negates the result */
  lemma {:induction false} CompareToAntisymmetric(a: string, b: string)
    ensures CompareTo(b, a) == -CompareTo(a, b)
  {
    if a != [] && b != [] && a[0] == b[0] {
      CompareToAntisymmetric(a[1..], b[1..]);
    }
  }

  /** The strict order is transitive */
  lemma {:induction false} LessTransitive(a: string, b: string, c: string)
    requires Less(a, b) && Less(b, c)
    ensures Less(a, c)
  {
    if a != [] && b != [] && c != [] && a[0] == b[0] && b[0] == c[0] {
      LessTransitive(a[1..], b[1..], c[1..]);
    }
  }

  /** The non-strict order is transitive */
  lemma LessEqTransitive(a: string, b: string, c: string)
    requires LessEq(a, b) && LessEq(b, c)
    ensures LessEq(a, c)
  {
    CompareToZero(a, b);
    CompareToZero(b, c);
    if a != b && b != c {
      LessTransitive(a, b, c);
    }
  }

  /** Any two strings are comparable, and exactly one of a < b, a == b, b < a holds */
  lemma Trichotomy(a: string, b: string)
    ensures Less(a, b) || a == b || Less(b, a)
    ensures !(Less(a, b) && Less(b, a))
    ensures LessEq(a, b) <==> !Less(b, a)
  {
    CompareToZero(a, b);
    CompareToAntisymmetric(a, b);
  }

  /** Mixing the strict and non-strict orders gives the strict one */
  lemma LessLessEqTransitive(a: string, b: string, c: string)
    requires Less(a, b) && LessEq(b, c)
    ensures Less(a, c)
  {
    CompareToZero(b, c);
    if b != c {
      LessTransitive(a, b, c);
    }
  }

  lemma LessEqLessTransitive(a: string, b: string, c: string)
    requires LessEq(a, b) && Less(b, c)
    ensures Less(a, c)
  {
    CompareToZero(a, b);
    if a != b {
      LessTransitive(a, b, c);
    }
  }
}
