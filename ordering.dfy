/** Strict total orders and their lexicographic extension to sequences.
    Rust's `Path` ordering and its `OsStr` ordering are both instances. */
module Ordering {

  ghost predicate StrictTotalOrder<T(!new)>(less: (T, T) -> bool)
  {
    && (forall x :: !less(x, x))
    && (forall x, y, z :: less(x, y) && less(y, z) ==> less(x, z))
    && (forall x, y :: x == y || less(x, y) || less(y, x))
  }

  /** `a` is an initial segment of `b` (Rust's `starts_with` on components). */
  predicate IsPrefix<T(==)>(a: seq<T>, b: seq<T>)
  {
    |a| <= |b| && b[..|a|] == a
  }

  /** Lexicographic order: the first differing element decides, and a proper
      initial segment comes first. */
  predicate LexLess<T(==)>(less: (T, T) -> bool, a: seq<T>, b: seq<T>)
  {
    |b| > 0 && (|a| == 0 || less(a[0], b[0]) || (a[0] == b[0] && LexLess(less, a[1..], b[1..])))
  }

  lemma {:induction false} LexIrreflexive<T(!new)>(less: (T, T) -> bool, a: seq<T>)
    requires StrictTotalOrder(less)
    ensures !LexLess(less, a, a)
  {
    if |a| > 0 {
      LexIrreflexive(less, a[1..]);
    }
  }

  lemma {:induction false} LexTransitive<T(!new)>(less: (T, T) -> bool, a: seq<T>, b: seq<T>, c: seq<T>)
    requires StrictTotalOrder(less)
    requires LexLess(less, a, b) && LexLess(less, b, c)
    ensures LexLess(less, a, c)
  {
    if |a| > 0 && a[0] == b[0] && b[0] == c[0] {
      LexTransitive(less, a[1..], b[1..], c[1..]);
    }
  }

  lemma {:induction false} LexTrichotomous<T(!new)>(less: (T, T) -> bool, a: seq<T>, b: seq<T>)
    requires StrictTotalOrder(less)
    ensures a == b || LexLess(less, a, b) || LexLess(less, b, a)
  {
    if |a| > 0 && |b| > 0 && a[0] == b[0] {
      LexTrichotomous(less, a[1..], b[1..]);
      if a[1..] == b[1..] {
        assert a == [a[0]] + a[1..] && b == [b[0]] + b[1..];
      }
    }
  }

  lemma {:induction false} LexAsymmetric<T(!new)>(less: (T, T) -> bool, a: seq<T>, b: seq<T>)
    requires StrictTotalOrder(less)
    requires LexLess(less, a, b)
    ensures !LexLess(less, b, a) && a != b
  {
    LexIrreflexive(less, a);
    if LexLess(less, b, a) {
      LexTransitive(less, a, b, a);
    }
  }

  /** A proper initial segment sorts strictly before the sequence it begins. */
  lemma {:induction false} PrefixLexLess<T>(less: (T, T) -> bool, a: seq<T>, b: seq<T>)
    requires IsPrefix(a, b) && a != b
    ensures LexLess(less, a, b)
  {
    if |a| > 0 {
      assert a[0] == b[0];
      assert b[1..][..|a| - 1] == a[1..];
      PrefixLexLess(less, a[1..], b[1..]);
    }
  }

  /** Contiguity: whatever sorts between `r` and one of its extensions `x`
      also extends `r`. So the extensions of `r` form one contiguous run
      immediately after `r` in sorted order. */
  lemma {:induction false} PrefixBetween<T(!new)>(less: (T, T) -> bool, r: seq<T>, l: seq<T>, x: seq<T>)
    requires StrictTotalOrder(less)
    requires IsPrefix(r, x)
    requires !LexLess(less, l, r) && !LexLess(less, x, l)
    ensures IsPrefix(r, l)
  {
    if |r| > 0 {
      assert x[0] == r[0];
      assert |l| > 0;
      assert l[0] == r[0];
      assert x[1..][..|r| - 1] == r[1..];
      PrefixBetween(less, r[1..], l[1..], x[1..]);
      assert l[..|r|] == [l[0]] + l[1..][..|r| - 1];
    }
  }

  /** Two initial segments of one sequence are initial segments of each other. */
  lemma PrefixesComparable<T>(a: seq<T>, b: seq<T>, x: seq<T>)
    requires IsPrefix(a, x) && IsPrefix(b, x)
    ensures IsPrefix(a, b) || IsPrefix(b, a)
  {
    if |a| <= |b| {
      assert b[..|a|] == x[..|b|][..|a|];
    } else {
      assert a[..|b|] == x[..|a|][..|b|];
    }
  }

  lemma PrefixTransitive<T>(a: seq<T>, b: seq<T>, c: seq<T>)
    requires IsPrefix(a, b) && IsPrefix(b, c)
    ensures IsPrefix(a, c)
  {
    assert c[..|a|] == c[..|b|][..|a|];
  }
}
