/**
 * Python's ordering of strings (code point by code point, a proper prefix
 * first) and the integer code a scikit-learn LabelEncoder gives a label: its
 * position in the encoder's sorted, de-duplicated `classes_`.
 */
module LabelOrder {

  /** `a < b` on Python strings. */
  predicate StrLess(a: string, b: string)
    decreases |a|
  {
    if |a| == 0 then |b| > 0
    else if |b| == 0 then false
    else if a[0] != b[0] then a[0] < b[0]
    else StrLess(a[1..], b[1..])
  }

  lemma {:induction false} StrLessIrreflexive(a: string)
    ensures !StrLess(a, a)
    decreases |a|
  {
    if |a| > 0 {
      StrLessIrreflexive(a[1..]);
    }
  }

  lemma {:induction false} StrLessTransitive(a: string, b: string, c: string)
    requires StrLess(a, b) && StrLess(b, c)
    ensures StrLess(a, c)
    decreases |a|
  {
    if |a| > 0 && a[0] == b[0] && b[0] == c[0] {
      StrLessTransitive(a[1..], b[1..], c[1..]);
    }
  }

  lemma {:induction false} StrLessTotal(a: string, b: string)
    ensures a == b || StrLess(a, b) || StrLess(b, a)
    decreases |a|
  {
    if |a| > 0 && |b| > 0 && a[0] == b[0] {
      StrLessTotal(a[1..], b[1..]);
      if a[1..] == b[1..] {
        assert a == [a[0]] + a[1..] && b == [b[0]] + b[1..];
      }
    }
  }

  /** The classes of `classes` that sort strictly before `x`. */
  function Below(classes: set<string>, x: string): set<string>
  {
    set c | c in classes && StrLess(c, x)
  }

  /**
   * The code `LabelEncoder.transform` gives `x`: the number of classes that
   * sort before it, which is `x`'s index in the sorted `classes_` array.
   */
  function Rank(classes: set<string>, x: string): nat
  {
    |Below(classes, x)|
  }

  lemma {:induction false} SubsetCardinality(a: set<string>, b: set<string>)
    requires a <= b
    ensures |a| <= |b|
    decreases |a|
  {
    if a != {} {
      var x :| x in a;
      SubsetCardinality(a - {x}, b - {x});
    }
  }

  lemma StrictSubsetCardinality(a: set<string>, b: set<string>)
    requires a < b
    ensures |a| < |b|
  {
    assert a + (b - a) == b;
    var y :| y in b - a;
    SubsetCardinality(a, b - {y});
  }

  /** A class's code is a valid index into `classes_`. */
  lemma RankBound(classes: set<string>, x: string)
    requires x in classes
    ensures Rank(classes, x) < |classes|
  {
    StrLessIrreflexive(x);
    StrictSubsetCardinality(Below(classes, x), classes);
  }

  /** Codes follow the string order. */
  lemma RankStrictlyMonotone(classes: set<string>, a: string, b: string)
    requires a in classes && StrLess(a, b)
    ensures Rank(classes, a) < Rank(classes, b)
  {
    forall c | c in Below(classes, a) ensures c in Below(classes, b) {
      StrLessTransitive(c, a, b);
    }
    StrLessIrreflexive(a);
    assert a in Below(classes, b) && a !in Below(classes, a);
    StrictSubsetCardinality(Below(classes, a), Below(classes, b));
  }

  /** Distinct classes get distinct codes, so a code names exactly one class. */
  lemma RankInjective(classes: set<string>, a: string, b: string)
    requires a in classes && b in classes
    requires Rank(classes, a) == Rank(classes, b)
    ensures a == b
  {
    StrLessTotal(a, b);
    if StrLess(a, b) {
      RankStrictlyMonotone(classes, a, b);
    } else if StrLess(b, a) {
      RankStrictlyMonotone(classes, b, a);
    }
  }
}
