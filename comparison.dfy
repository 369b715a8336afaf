/**
 * Three-way comparison as java.util.Comparator uses it. Only the sign of
 * compare(a, b) matters to sorting and to Stream.min, so a comparison result
 * is one of three values.
 */
module Comparison {

  datatype Ordering = Lt | Eq | Gt

  /** The outcome of compare(b, a), given the outcome of compare(a, b). */
  function Flip(o: Ordering): Ordering {
    match o
    case Lt => Gt
    case Eq => Eq
    case Gt => Lt
  }

  /** Comparator.thenComparing: the second comparison only breaks a tie of the first. */
  function Then(first: Ordering, next: Ordering): Ordering {
    if first == Eq then next else first
  }

  /** Integer.compare, which Comparator.comparingInt uses (no subtraction, so no overflow). */
  function CompareInt(x: int, y: int): Ordering {
    if x < y then Lt else if x == y then Eq else Gt
  }

  /**
   * String.compareTo: the first differing character decides; when one string
   * is a prefix of the other, the shorter one comes first.
   */
  function CompareStrings(a: string, b: string): Ordering {
    if a == [] && b == [] then Eq
    else if a == [] then Lt
    else if b == [] then Gt
    else if a[0] < b[0] then Lt
    else if a[0] > b[0] then Gt
    else CompareStrings(a[1..], b[1..])
  }

  /** Two strings compare equal exactly when they are the same string. */
  lemma {:induction false} CompareStringsEq(a: string, b: string)
    ensures CompareStrings(a, b) == Eq <==> a == b
  {
    if a != [] && b != [] && a[0] == b[0] {
      CompareStringsEq(a[1..], b[1..]);
      assert a == [a[0]] + a[1..] && b == [b[0]] + b[1..];
    }
  }

  /** String.compareTo is antisymmetric: swapping the arguments flips the sign. */
  lemma {:induction false} CompareStringsFlip(a: string, b: string)
    ensures CompareStrings(b, a) == Flip(CompareStrings(a, b))
  {
    if a != [] && b != [] && a[0] == b[0] {
      CompareStringsFlip(a[1..], b[1..]);
    }
  }

  /** "Not after" is transitive on strings. */
  lemma {:induction false} CompareStringsTransitive(a: string, b: string, c: string)
    requires CompareStrings(a, b) != Gt && CompareStrings(b, c) != Gt
    ensures CompareStrings(a, c) != Gt
  {
    if a != [] && b != [] && c != [] && a[0] == b[0] && b[0] == c[0] {
      CompareStringsTransitive(a[1..], b[1..], c[1..]);
    }
  }

  /** a and b agree before position k and differ there, a having the smaller character. */
  ghost predicate FirstDifferenceAt(a: string, b: string, k: int) {
    0 <= k < |a| && k < |b| && a[..k] == b[..k] && a[k] < b[k]
  }

  /**
   * The lexicographic order: a is a proper prefix of b, or at the first
   * position where they differ a has the smaller character.
   */
  ghost predicate LexLess(a: string, b: string) {
    (|a| < |b| && a == b[..|a|]) || exists k :: FirstDifferenceAt(a, b, k)
  }

  /** Where two strings first differ, the first character of a is not above that of b. */
  lemma DifferenceHead(a: string, b: string, k: int)
    requires FirstDifferenceAt(a, b, k)
    ensures a[0] <= b[0]
  {
    if k > 0 {
      assert a[..k][0] == a[0] && b[..k][0] == b[0];
    }
  }

  /** A first difference of two strings with the same first character is one of their tails. */
  lemma DifferenceInTail(a: string, b: string, k: int)
    requires a != [] && b != [] && a[0] == b[0] && FirstDifferenceAt(a, b, k)
    ensures k > 0 && FirstDifferenceAt(a[1..], b[1..], k - 1)
  {
    assert a[1..][..k - 1] == a[1..k] == b[1..k] == b[1..][..k - 1];
  }

  /** A first difference of the tails is one of two strings with the same first character. */
  lemma DifferenceFromTail(a: string, b: string, k: int)
    requires a != [] && b != [] && a[0] == b[0] && FirstDifferenceAt(a[1..], b[1..], k)
    ensures FirstDifferenceAt(a, b, k + 1)
  {
    assert a[..k + 1] == [a[0]] + a[1..][..k];
    assert b[..k + 1] == [b[0]] + b[1..][..k];
  }

  /** Strings that start with the same character are ordered as their tails are. */
  lemma LexLessTail(a: string, b: string)
    requires a != [] && b != [] && a[0] == b[0]
    ensures LexLess(a, b) <==> LexLess(a[1..], b[1..])
  {
    if k :| FirstDifferenceAt(a, b, k) {
      DifferenceInTail(a, b, k);
    }
    if k :| FirstDifferenceAt(a[1..], b[1..], k) {
      DifferenceFromTail(a, b, k);
    }
    if |a| < |b| && a == b[..|a|] {
      assert a[1..] == b[1..][..|a| - 1];
    }
    if |a| - 1 < |b| - 1 && a[1..] == b[1..][..|a| - 1] {
      assert a == [a[0]] + a[1..] && b[..|a|] == [b[0]] + b[1..][..|a| - 1];
    }
  }

  /** String.compareTo puts a first exactly when a comes first in the lexicographic order. */
  lemma {:induction false} CompareStringsLt(a: string, b: string)
    ensures CompareStrings(a, b) == Lt <==> LexLess(a, b)
  {
    if a != [] && b != [] {
      if a[0] == b[0] {
        CompareStringsLt(a[1..], b[1..]);
        LexLessTail(a, b);
      } else if a[0] < b[0] {
        assert FirstDifferenceAt(a, b, 0);
      } else if k :| FirstDifferenceAt(a, b, k) {
        DifferenceHead(a, b, k);
      }
    }
  }
}
