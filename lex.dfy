/** `Ord for String`: byte-wise lexicographic order, a proper prefix first. */
module Lex {
  import opened Bytes

  /** `a <= b`: a string is at most every string it is a prefix of, and
      above every proper prefix of its own. */
  predicate Le(a: Bytes, b: Bytes)
    ensures |a| <= |b| && b[..|a|] == a ==> Le(a, b)
    ensures |b| < |a| && a[..|b|] == b ==> !Le(a, b)
    decreases |a|
  {
    PrefixTail(a, b);
    a == [] || (b != [] && (a[0] < b[0] || (a[0] == b[0] && Le(a[1..], b[1..]))))
  }

  lemma PrefixTail(a: Bytes, b: Bytes)
    ensures a != [] && b != [] && |a| <= |b| && b[..|a|] == a ==> a[0] == b[0] && b[1..][..|a| - 1] == a[1..]
    ensures a != [] && b != [] && |b| < |a| && a[..|b|] == b ==> a[0] == b[0] && a[1..][..|b| - 1] == b[1..]
  {
    if a != [] && b != [] && |a| <= |b| && b[..|a|] == a {
      assert a[0] == b[..|a|][0];
    }
    if a != [] && b != [] && |b| < |a| && a[..|b|] == b {
      assert b[0] == a[..|b|][0];
    }
  }

  lemma {:induction false} LeRefl(a: Bytes)
    ensures Le(a, a)
    decreases |a|
  {
    if a != [] { LeRefl(a[1..]); }
  }

  lemma {:induction false} LeTotal(a: Bytes, b: Bytes)
    ensures Le(a, b) || Le(b, a)
    decreases |a|
  {
    if a != [] && b != [] && a[0] == b[0] { LeTotal(a[1..], b[1..]); }
  }

  lemma {:induction false} LeTrans(a: Bytes, b: Bytes, c: Bytes)
    requires Le(a, b) && Le(b, c)
    ensures Le(a, c)
    decreases |a|
  {
    if a != [] && b != [] && c != [] && a[0] == b[0] == c[0] {
      LeTrans(a[1..], b[1..], c[1..]);
    }
  }

  lemma {:induction false} LeAntisym(a: Bytes, b: Bytes)
    requires Le(a, b) && Le(b, a)
    ensures a == b
    decreases |a|
  {
    if a != [] {
      LeAntisym(a[1..], b[1..]);
      assert a == [a[0]] + a[1..] && b == [b[0]] + b[1..];
    }
  }
}
