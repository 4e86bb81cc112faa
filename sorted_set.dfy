/** `BTreeSet<PathBuf>`: a finite set of paths visited in ascending `Path`
    order, modelled as the strictly increasing sequence of its elements. */
module SortedSet {
  import opened Paths

  predicate StrictlySorted(s: seq<Path>)
  {
    forall i, j :: 0 <= i < j < |s| ==> PathLess(s[i], s[j])
  }

  /** `BTreeSet::insert`: adds `p` unless it is already present. */
  function Insert(s: seq<Path>, p: Path): (r: seq<Path>)
    requires StrictlySorted(s)
    ensures StrictlySorted(r)
    ensures forall x :: x in r <==> x in s || x == p
  {
    if |s| == 0 then [p]
    else if p == s[0] then s
    else if PathLess(p, s[0]) then
      assert forall j :: 0 < j < |s| ==> PathLess(p, s[j]) by {
        forall j | 0 < j < |s| ensures PathLess(p, s[j]) {
          PathLessTransitive(p, s[0], s[j]);
        }
      }
      [p] + s
    else
      PathLessTrichotomous(p, s[0]);
      var tail := Insert(s[1..], p);
      assert forall x :: x in tail ==> PathLess(s[0], x) by {
        forall x | x in tail ensures PathLess(s[0], x) {
          if x != p {
            var j :| 0 <= j < |s[1..]| && s[1..][j] == x;
            assert s[j + 1] == x;
          }
        }
      }
      [s[0]] + tail
  }

  /** `collect::<BTreeSet<_>>()`: the distinct elements of `xs`, ascending. */
  function FromSeq(xs: seq<Path>): (r: seq<Path>)
    ensures StrictlySorted(r)
    ensures forall x :: x in r <==> x in xs
  {
    if |xs| == 0 then []
    else
      var r := Insert(FromSeq(xs[..|xs| - 1]), xs[|xs| - 1]);
      assert forall x :: x in xs <==> x in xs[..|xs| - 1] || x == xs[|xs| - 1] by {
        assert xs == xs[..|xs| - 1] + [xs[|xs| - 1]];
      }
      r
  }

  /** A set has exactly one ascending enumeration, so the model of the
      `BTreeSet` does not depend on how its elements were inserted. */
  lemma {:induction false} SortedUnique(a: seq<Path>, b: seq<Path>)
    requires StrictlySorted(a) && StrictlySorted(b)
    requires forall x :: x in a <==> x in b
    ensures a == b
  {
    assert |a| > 0 ==> a[0] in a;
    assert |b| > 0 ==> b[0] in b;
    if |a| > 0 && |b| > 0 {
      // the least element of each is the least element of the other
      SortedHeadLeast(a, b[0]);
      SortedHeadLeast(b, a[0]);
      PathLessAsymmetric(a[0], b[0]);
      assert a[0] == b[0];
      forall x ensures x in a[1..] <==> x in b[1..] {
        if x in a[1..] {
          var i :| 1 <= i < |a| && a[i] == x;
          PathLessAsymmetric(a[0], a[i]);
          assert x in b;
          var j :| 0 <= j < |b| && b[j] == x;
          assert j != 0;
        }
        if x in b[1..] {
          var j :| 1 <= j < |b| && b[j] == x;
          PathLessAsymmetric(b[0], b[j]);
          assert x in a;
          var i :| 0 <= i < |a| && a[i] == x;
          assert i != 0;
        }
      }
      SortedUnique(a[1..], b[1..]);
      assert a == [a[0]] + a[1..] && b == [b[0]] + b[1..];
    }
  }

  /** The first element of an ascending sequence is its least. */
  lemma SortedHeadLeast(s: seq<Path>, x: Path)
    requires StrictlySorted(s)
    requires x in s
    ensures x == s[0] || PathLess(s[0], x)
  {
  }

  /** Collecting an already ascending, duplicate-free sequence returns it. */
  lemma FromSortedSeq(s: seq<Path>)
    requires StrictlySorted(s)
    ensures FromSeq(s) == s
  {
    SortedUnique(FromSeq(s), s);
  }
}
