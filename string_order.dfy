/**
  The order Python uses when it compares two `str` values with `<`, `<=` or
  `>=`: character by character on code points, the first difference deciding,
  and a proper prefix ordered before the longer string.

  Dafny's own `<` on sequences means "is a proper prefix of", so the order is
  defined here, proved to be a total order, and shown equal to the textbook
  definition of lexicographic order. Nothing here assumes the strings are
  well-formed dates.

  The same order decides MongoDB's `$lte` and `$gte` on strings under the
  default (binary) comparison: UTF-8 byte order is code-point order.
*/
module StringOrder {

  /** Python's `a < b` on strings. */
  predicate Less(a: string, b: string)
    decreases |a|
  {
    if |a| == 0 then |b| > 0
    else if |b| == 0 then false
    else if a[0] != b[0] then a[0] < b[0]
    else Less(a[1..], b[1..])
  }

  /** Python's `a <= b` on strings (and `b >= a`). */
  predicate LessEq(a: string, b: string)
  {
    a == b || Less(a, b)
  }

  /** `a` and `b` agree on their first `k` characters and differ at `k`, where `a` has the smaller one. */
  ghost predicate FirstDifferenceAt(a: string, b: string, k: nat)
  {
    k < |a| && k < |b| && a[..k] == b[..k] && a[k] < b[k]
  }

  /** The textbook lexicographic order: `a` is a proper prefix of `b`, or the first difference favours `a`. */
  ghost predicate Lexicographic(a: string, b: string)
  {
    (|a| < |b| && a == b[..|a|]) || exists k: nat :: FirstDifferenceAt(a, b, k)
  }

  /** The recursive comparison is exactly lexicographic order. */
  lemma {:induction false} LessIsLexicographic(a: string, b: string)
    ensures Less(a, b) <==> Lexicographic(a, b)
    decreases |a|
  {
    if |a| == 0 || |b| == 0 {
      if |a| == 0 && |b| > 0 {
        assert a == b[..|a|];
      }
    } else if a[0] != b[0] {
      if a[0] < b[0] {
        assert a[..0] == b[..0];
        assert FirstDifferenceAt(a, b, 0);
      }
    } else {
      var a', b' := a[1..], b[1..];
      LessIsLexicographic(a', b');
      assert a == [a[0]] + a' && b == [b[0]] + b';
      if Lexicographic(a', b') {
        if |a'| < |b'| && a' == b'[..|a'|] {
          assert b[..|a|] == [b[0]] + b'[..|a'|];
        } else {
          var k: nat :| FirstDifferenceAt(a', b', k);
          assert a[..k + 1] == [a[0]] + a'[..k];
          assert b[..k + 1] == [b[0]] + b'[..k];
          assert FirstDifferenceAt(a, b, k + 1);
        }
      }
      if Lexicographic(a, b) {
        if |a| < |b| && a == b[..|a|] {
          assert a' == b[..|a|][1..];
          assert a' == b'[..|a'|];
        } else {
          var k: nat :| FirstDifferenceAt(a, b, k);
          assert k > 0;
          assert a'[..k - 1] == a[..k][1..];
          assert b'[..k - 1] == b[..k][1..];
          assert FirstDifferenceAt(a', b', k - 1);
        }
      }
    }
  }

  /** Dafny's proper-prefix order is contained in Python's order. */
  lemma {:induction false} ProperPrefixIsLess(a: string, b: string)
    requires a < b
    ensures Less(a, b)
    decreases |a|
  {
    if |a| > 0 {
      assert a[1..] < b[1..];
      ProperPrefixIsLess(a[1..], b[1..]);
    }
  }

  lemma {:induction false} LessIrreflexive(a: string)
    ensures !Less(a, a)
    decreases |a|
  {
    if |a| > 0 {
      LessIrreflexive(a[1..]);
    }
  }

  lemma {:induction false} LessAsymmetric(a: string, b: string)
    ensures Less(a, b) ==> !Less(b, a)
    decreases |a|
  {
    if |a| > 0 && |b| > 0 && a[0] == b[0] {
      LessAsymmetric(a[1..], b[1..]);
    }
  }

  lemma {:induction false} LessTransitive(a: string, b: string, c: string)
    requires Less(a, b) && Less(b, c)
    ensures Less(a, c)
    decreases |a|
  {
    if |a| > 0 && a[0] == b[0] && b[0] == c[0] {
      LessTransitive(a[1..], b[1..], c[1..]);
    }
  }

  /** Any two different strings are ordered one way or the other. */
  lemma {:induction false} LessConnected(a: string, b: string)
    ensures a == b || Less(a, b) || Less(b, a)
    decreases |a|
  {
    if |a| > 0 && |b| > 0 && a[0] == b[0] {
      LessConnected(a[1..], b[1..]);
      assert a == [a[0]] + a[1..] && b == [b[0]] + b[1..];
    }
  }

  /** Exactly one of `a < b`, `a == b`, `b < a` holds. */
  lemma Trichotomy(a: string, b: string)
    ensures Less(a, b) ==> a != b && !Less(b, a)
    ensures a == b ==> !Less(a, b) && !Less(b, a)
    ensures !Less(a, b) && !Less(b, a) ==> a == b
  {
    LessIrreflexive(a);
    LessAsymmetric(a, b);
    LessConnected(a, b);
  }

  /** Python's `not (a < b)` is `a >= b`. */
  lemma NotLessIsGreaterEq(a: string, b: string)
    ensures !Less(a, b) <==> LessEq(b, a)
  {
    Trichotomy(a, b);
  }

  /** `<=` is a total order: reflexive, antisymmetric, transitive and total. */
  lemma LessEqTotalOrder(a: string, b: string, c: string)
    ensures LessEq(a, a)
    ensures LessEq(a, b) && LessEq(b, a) ==> a == b
    ensures LessEq(a, b) && LessEq(b, c) ==> LessEq(a, c)
    ensures LessEq(a, b) || LessEq(b, a)
  {
    Trichotomy(a, b);
    if Less(a, b) && Less(b, c) {
      LessTransitive(a, b, c);
    }
  }
}
