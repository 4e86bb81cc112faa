/** The search phase: walk a directory tree, keep the entries whose name
    contains "sav", turn them into candidate directories, and reduce the
    candidates to the ones no other candidate contains. */
module Search {
  import opened Wrappers
  import opened Ordering
  import opened Paths
  import opened SortedSet
  import opened Lines

  // ---------------------------------------------------------------------
  // Walk entries and the match predicate

  /** The kind `DirEntry::file_type` reports; links are not followed. */
  datatype FileKind = File | Dir | Symlink | Other

  /** One item produced by the directory walk: an entry, or an error. */
  datatype WalkItem = Entry(path: Path, kind: FileKind) | WalkError

  const Marker: string := "sav"

  function LowerChar(c: char): char
  {
    if 'A' <= c <= 'Z' then (c as int + 32) as char else c
  }

  /** Lower-casing, on ASCII letters only. */
  function ToLower(s: string): (r: string)
    ensures |r| == |s| && forall i :: 0 <= i < |s| ==> r[i] == LowerChar(s[i])
  {
    seq(|s|, i requires 0 <= i < |s| => LowerChar(s[i]))
  }

  predicate OccursAt(s: string, t: string, i: int)
  {
    0 <= i && i + |t| <= |s| && s[i..i + |t|] == t
  }

  /** `str::contains`. */
  predicate Contains(s: string, t: string)
  {
    exists i :: 0 <= i <= |s| && OccursAt(s, t, i)
  }

  /** walkdir's `DirEntry::file_name`: the last component when it is a
      name, otherwise the text of the whole path. */
  function EntryFileName(p: Path): string
  {
    if |p| > 0 && p[|p| - 1].Normal? then p[|p| - 1].name else Render(p)
  }

  predicate IsMatch(p: Path)
  {
    Contains(ToLower(EntryFileName(p)), Marker)
  }

  predicate MarkerAt(name: string, i: int)
    requires 0 <= i && i + 3 <= |name|
  {
    name[i] in "sS" && name[i + 1] in "aA" && name[i + 2] in "vV"
  }

  /** The match is case-insensitive: a name matches exactly when it holds
      "sav" in any mix of upper and lower case. */
  lemma MatchIgnoresCase(name: string)
    ensures Contains(ToLower(name), Marker) <==> exists i :: 0 <= i && i + 3 <= |name| && MarkerAt(name, i)
  {
    var low := ToLower(name);
    if Contains(low, Marker) {
      var i :| 0 <= i <= |low| && OccursAt(low, Marker, i);
      assert i + 3 <= |low|;
      var w := low[i..i + 3];
      assert w == "sav";
      assert w[0] == 's' && w[1] == 'a' && w[2] == 'v';
      assert low[i] == w[0] && low[i + 1] == w[1] && low[i + 2] == w[2];
      assert MarkerAt(name, i);
    }
    if exists i :: 0 <= i && i + 3 <= |name| && MarkerAt(name, i) {
      var i :| 0 <= i && i + 3 <= |name| && MarkerAt(name, i);
      assert low[i..i + 3] == Marker;
      assert OccursAt(low, Marker, i);
    }
  }

  // ---------------------------------------------------------------------
  // Candidates: the filter / filter_map / collect pipeline

  /** The directory one walk item contributes: a matching regular file
      gives its parent, a matching directory gives itself, and anything
      else (a walk error, no match, another kind, a file without parent)
      gives nothing. */
  function Contribution(item: WalkItem): (r: Option<Path>)
    ensures r.Some? <==> item.Entry? && IsMatch(item.path) &&
                         (item.kind == Dir || (item.kind == File && Parent(item.path).Some?))
    ensures r.Some? && item.kind == Dir ==> r.value == item.path
    ensures r.Some? && item.kind == File ==> StartsWith(item.path, r.value) && |r.value| + 1 == |item.path|
  {
    match item
    case WalkError => None
    case Entry(path, kind) =>
      if !IsMatch(path) then None
      else if kind == File then Parent(path)
      else if kind == Dir then Some(path)
      else None
  }

  /** A directory contributed by some item of the walk. */
  ghost predicate Contributed(walk: seq<WalkItem>, p: Path)
  {
    exists i :: 0 <= i < |walk| && Contribution(walk[i]) == Some(p)
  }

  /** The contributions of a walk, in walk order. */
  function Contributions(walk: seq<WalkItem>): seq<Path>
  {
    if |walk| == 0 then []
    else
      var more := match Contribution(walk[|walk| - 1]) case Some(p) => [p] case None => [];
      Contributions(walk[..|walk| - 1]) + more
  }

  /** The pipeline keeps every contribution and invents none. */
  lemma {:induction false} ContributionsMember(walk: seq<WalkItem>, p: Path)
    ensures p in Contributions(walk) <==> Contributed(walk, p)
  {
    if |walk| > 0 {
      var n := |walk| - 1;
      ContributionsMember(walk[..n], p);
      var more := match Contribution(walk[n]) case Some(x) => [x] case None => [];
      assert p in Contributions(walk) <==> p in Contributions(walk[..n]) || p in more;
      ContributedSnoc(walk, p);
    }
  }

  lemma ContributedSnoc(walk: seq<WalkItem>, p: Path)
    requires |walk| > 0
    ensures Contributed(walk, p) <==> Contributed(walk[..|walk| - 1], p) || Contribution(walk[|walk| - 1]) == Some(p)
  {
    var n := |walk| - 1;
    if Contributed(walk, p) {
      var i :| 0 <= i < |walk| && Contribution(walk[i]) == Some(p);
      if i < n {
        assert walk[..n][i] == walk[i];
      }
    }
    if Contributed(walk[..n], p) {
      var i :| 0 <= i < n && Contribution(walk[..n][i]) == Some(p);
      assert walk[i] == walk[..n][i];
    }
  }

  /** The `BTreeSet` the walk is collected into: every contributed
      directory once, in ascending `Path` order. */
  function Candidates(walk: seq<WalkItem>): (r: seq<Path>)
    ensures StrictlySorted(r)
    ensures forall p :: p in r <==> Contributed(walk, p)
  {
    assert forall p :: p in Contributions(walk) <==> Contributed(walk, p) by {
      forall p ensures p in Contributions(walk) <==> Contributed(walk, p) {
        ContributionsMember(walk, p);
      }
    }
    FromSeq(Contributions(walk))
  }

  // ---------------------------------------------------------------------
  // Reduction

  /** `is_parent`: there is an accepted path and `dir` starts with it,
      component by component. */
  function IsParent(maybeParent: Option<Path>, dir: Path): (r: bool)
    ensures r <==> maybeParent.Some? && StartsWith(dir, maybeParent.value)
  {
    match maybeParent
    case Some(parent) => StartsWith(dir, parent)
    case None => false
  }

  /** `starts_with` compares whole components: `\\data\\save2` is not under
      `\\data\\save`. */
  lemma IsParentWholeComponents()
    ensures !IsParent(Some([RootDir, Normal("data"), Normal("save")]), [RootDir, Normal("data"), Normal("save2")])
  {
    var parent: Path := [RootDir, Normal("data"), Normal("save")];
    var dir: Path := [RootDir, Normal("data"), Normal("save2")];
    assert |"save"| != |"save2"|;
    assert parent[2] != dir[2];
    assert dir[..|parent|] != parent;
  }

  predicate HasStrictAncestor(p: Path, all: seq<Path>)
  {
    exists q :: q in all && q != p && StartsWith(p, q)
  }

  /** The elements of `s`, in order, that have no strict ancestor in `all`. */
  function KeepRoots(s: seq<Path>, all: seq<Path>): (r: seq<Path>)
    ensures forall p :: p in r <==> p in s && !HasStrictAncestor(p, all)
    ensures |r| <= |s|
  {
    if |s| == 0 then []
    else
      var init := KeepRoots(s[..|s| - 1], all);
      var last := s[|s| - 1];
      assert s == s[..|s| - 1] + [last];
      if HasStrictAncestor(last, all) then init else init + [last]
  }

  /** The declarative meaning of the reduction: the members of the set that
      no other member contains. */
  function Roots(s: seq<Path>): seq<Path>
  {
    KeepRoots(s, s)
  }

  /** What `search_archive_targets` returns for one walk. */
  function SearchTargets(walk: seq<WalkItem>): seq<Path>
  {
    Roots(Candidates(walk))
  }

  predicate NoNesting(r: seq<Path>)
  {
    forall i, j :: 0 <= i < |r| && 0 <= j < |r| && i != j ==> !StartsWith(r[j], r[i])
  }

  function LastOf(r: seq<Path>): (last: Option<Path>)
  {
    if |r| == 0 then None else Some(r[|r| - 1])
  }

  /** `search_archive_targets`: one forward pass over the ascending
      candidates with a single "last accepted" pointer. */
  method SearchArchiveTargets(walk: seq<WalkItem>) returns (saveDirs: seq<Path>)
    ensures saveDirs == SearchTargets(walk)
  {
    var filteredPaths := Candidates(walk);
    var maybeParent: Option<Path> := None;
    saveDirs := [];
    for i := 0 to |filteredPaths|
      invariant saveDirs == KeepRoots(filteredPaths[..i], filteredPaths)
      invariant maybeParent == LastOf(saveDirs)
    {
      var dir := filteredPaths[i];
      ReduceStep(filteredPaths, i);
      if IsParent(maybeParent, dir) {
        continue;
      } else {
        saveDirs := saveDirs + [dir];
        maybeParent := Some(dir);
      }
    }
    assert filteredPaths[..|filteredPaths|] == filteredPaths;
  }

  // ---------------------------------------------------------------------
  // Why one pointer suffices

  /** In an ascending sequence, every strict ancestor of `s[i]` sits before
      index `i`. */
  lemma AncestorBefore(s: seq<Path>, i: nat, q: Path)
    requires StrictlySorted(s) && i < |s|
    requires q in s && q != s[i] && StartsWith(s[i], q)
    ensures q in s[..i]
  {
    AncestorSortsFirst(s[i], q);
    var j :| 0 <= j < |s| && s[j] == q;
    if j > i {
      PathLessAsymmetric(s[i], s[j]);
    }
    assert s[..i][j] == q;
  }

  /** Every member of an ascending prefix is under some root kept from it. */
  lemma {:induction false} PrefixCovered(s: seq<Path>, n: nat, q: Path)
    requires StrictlySorted(s) && n <= |s|
    requires q in s[..n]
    ensures exists r :: r in KeepRoots(s[..n], s) && StartsWith(q, r)
    decreases |q|
  {
    if HasStrictAncestor(q, s) {
      var a :| a in s && a != q && StartsWith(q, a);
      var i :| 0 <= i < n && s[..n][i] == q;
      assert s[i] == q;
      AncestorBefore(s, i, a);
      assert a in s[..n] by {
        var j :| 0 <= j < i && s[..i][j] == a;
        assert s[..n][j] == a;
      }
      PrefixCovered(s, n, a);
      var r :| r in KeepRoots(s[..n], s) && StartsWith(a, r);
      PrefixTransitive(r, a, q);
    } else {
      assert StartsWith(q, q);
    }
  }

  lemma KeepRootsSnoc(s: seq<Path>, i: nat, all: seq<Path>)
    requires i < |s|
    ensures KeepRoots(s[..i + 1], all) ==
      if HasStrictAncestor(s[i], all) then KeepRoots(s[..i], all) else KeepRoots(s[..i], all) + [s[i]]
  {
    assert s[..i + 1][..i] == s[..i];
  }

  lemma {:induction false} KeepRootsSorted(s: seq<Path>, all: seq<Path>)
    requires StrictlySorted(s)
    ensures StrictlySorted(KeepRoots(s, all))
  {
    if |s| > 0 {
      var init := s[..|s| - 1];
      var last := s[|s| - 1];
      KeepRootsSorted(init, all);
      var r := KeepRoots(init, all);
      if !HasStrictAncestor(last, all) {
        forall k | 0 <= k < |r| ensures PathLess(r[k], last) {
          assert r[k] in r;
          var j :| 0 <= j < |init| && init[j] == r[k];
        }
        var r' := r + [last];
        assert KeepRoots(s, all) == r';
        forall a, b | 0 <= a < b < |r'| ensures PathLess(r'[a], r'[b]) {
          if b < |r| {
            assert r'[a] == r[a] && r'[b] == r[b];
          }
        }
      }
    }
  }

  lemma KeepRootsNoNesting(s: seq<Path>, all: seq<Path>)
    requires StrictlySorted(s)
    requires forall x :: x in s ==> x in all
    ensures NoNesting(KeepRoots(s, all))
  {
    var r := KeepRoots(s, all);
    KeepRootsSorted(s, all);
    forall i, j | 0 <= i < |r| && 0 <= j < |r| && i != j ensures !StartsWith(r[j], r[i]) {
      assert r[i] in r && r[j] in r;
      if i < j { PathLessAsymmetric(r[i], r[j]); } else { PathLessAsymmetric(r[j], r[i]); }
    }
  }

  /** The pointer test at position `i` answers exactly "does `s[i]` have a
      strict ancestor in the set": a skipped path is nested, and an
      accepted one is not. */
  lemma AcceptStep(s: seq<Path>, i: nat)
    requires StrictlySorted(s) && i < |s|
    ensures IsParent(LastOf(KeepRoots(s[..i], s)), s[i]) <==> HasStrictAncestor(s[i], s)
  {
    if IsParent(LastOf(KeepRoots(s[..i], s)), s[i]) {
      SkippedIsNested(s, i);
    }
    if HasStrictAncestor(s[i], s) {
      var q :| q in s && q != s[i] && StartsWith(s[i], q);
      NestedIsSkipped(s, i, q);
    }
  }

  /** One turn of the loop: a path the pointer covers is skipped, any
      other is kept. */
  lemma ReduceStep(s: seq<Path>, i: nat)
    requires StrictlySorted(s) && i < |s|
    ensures var r := KeepRoots(s[..i], s);
      KeepRoots(s[..i + 1], s) == if IsParent(LastOf(r), s[i]) then r else r + [s[i]]
  {
    AcceptStep(s, i);
    KeepRootsSnoc(s, i, s);
  }

  /** The last root kept from an ascending prefix, and the fact that it
      sorts before the next element. */
  lemma LastRootBefore(s: seq<Path>, i: nat) returns (l: Path)
    requires StrictlySorted(s) && i < |s|
    requires |KeepRoots(s[..i], s)| > 0
    ensures LastOf(KeepRoots(s[..i], s)) == Some(l)
    ensures l == KeepRoots(s[..i], s)[|KeepRoots(s[..i], s)| - 1]
    ensures l in s && PathLess(l, s[i]) && l != s[i]
  {
    var r := KeepRoots(s[..i], s);
    l := r[|r| - 1];
    assert l in r;
    var j :| 0 <= j < i && s[..i][j] == l;
    assert s[j] == l;
    PathLessAsymmetric(l, s[i]);
  }

  lemma SkippedIsNested(s: seq<Path>, i: nat)
    requires StrictlySorted(s) && i < |s|
    requires IsParent(LastOf(KeepRoots(s[..i], s)), s[i])
    ensures HasStrictAncestor(s[i], s)
  {
    var l := LastRootBefore(s, i);
    assert StartsWith(s[i], l);
  }

  lemma NestedIsSkipped(s: seq<Path>, i: nat, q: Path)
    requires StrictlySorted(s) && i < |s|
    requires q in s && q != s[i] && StartsWith(s[i], q)
    ensures IsParent(LastOf(KeepRoots(s[..i], s)), s[i])
  {
    // the root `a` over `q` and the last root both sort before `s[i]`, and
    // `a` is not after the last root, so the last root lies over `s[i]` too
    var a := RootOverNested(s, i, q);
    var r := LastRootFacts(s, i);
    LastRootCovers(r, a, s[i]);
  }

  lemma RootOverNested(s: seq<Path>, i: nat, q: Path) returns (a: Path)
    requires StrictlySorted(s) && i < |s|
    requires q in s && q != s[i] && StartsWith(s[i], q)
    ensures a in KeepRoots(s[..i], s) && StartsWith(s[i], a)
  {
    AncestorBefore(s, i, q);
    a := RootOver(s, i, q);
    PrefixTransitive(a, q, s[i]);
  }

  lemma LastRootFacts(s: seq<Path>, i: nat) returns (r: seq<Path>)
    requires StrictlySorted(s) && i < |s|
    requires |KeepRoots(s[..i], s)| > 0
    ensures r == KeepRoots(s[..i], s)
    ensures StrictlySorted(r) && NoNesting(r) && PathLess(r[|r| - 1], s[i])
    ensures LastOf(r) == Some(r[|r| - 1])
  {
    r := KeepRoots(s[..i], s);
    var l := LastRootBefore(s, i);
    RootsOfPrefix(s, i);
  }

  /** A root kept from the prefix before `i` that lies over a member of it. */
  lemma RootOver(s: seq<Path>, i: nat, q: Path) returns (a: Path)
    requires StrictlySorted(s) && i <= |s| && q in s[..i]
    ensures a in KeepRoots(s[..i], s) && StartsWith(q, a)
  {
    PrefixCovered(s, i, q);
    a :| a in KeepRoots(s[..i], s) && StartsWith(q, a);
  }

  lemma RootsOfPrefix(s: seq<Path>, i: nat)
    requires StrictlySorted(s) && i <= |s|
    ensures StrictlySorted(KeepRoots(s[..i], s)) && NoNesting(KeepRoots(s[..i], s))
  {
    assert StrictlySorted(s[..i]);
    KeepRootsSorted(s[..i], s);
    KeepRootsNoNesting(s[..i], s);
  }

  /** If some member of an ascending, nesting-free sequence is an ancestor
      of a path `x` sorting after all of them, then so is the last member. */
  lemma LastRootCovers(r: seq<Path>, a: Path, x: Path)
    requires StrictlySorted(r) && NoNesting(r) && |r| > 0
    requires a in r && StartsWith(x, a) && PathLess(r[|r| - 1], x)
    ensures StartsWith(x, r[|r| - 1])
  {
    var l := r[|r| - 1];
    var m :| 0 <= m < |r| && r[m] == a;
    assert a == l || PathLess(a, l);
    PathLessAsymmetric(l, x);
    PathLessIrreflexive(l);
    PathLessAsymmetric(a, l);
    DescendantsContiguous(a, l, x);
    NotNested(r, m, |r| - 1);
  }

  lemma NotNested(r: seq<Path>, m: nat, n: nat)
    requires NoNesting(r) && m < |r| && n < |r|
    ensures m == n || !StartsWith(r[n], r[m])
  {
  }

  // ---------------------------------------------------------------------
  // What the reduction promises

  /** The output is an ascending, duplicate-free selection from the set. */
  lemma RootsSorted(s: seq<Path>)
    requires StrictlySorted(s)
    ensures StrictlySorted(Roots(s))
    ensures forall p :: p in Roots(s) ==> p in s
  {
    KeepRootsSorted(s, s);
  }

  /** No output element lies under a different output element. */
  lemma RootsNoNesting(s: seq<Path>)
    requires StrictlySorted(s)
    ensures NoNesting(Roots(s))
  {
    KeepRootsNoNesting(s, s);
  }

  /** Every member of the set lies under exactly one output element. */
  lemma RootsCover(s: seq<Path>, p: Path)
    requires StrictlySorted(s) && p in s
    ensures exists a :: a in Roots(s) && StartsWith(p, a)
    ensures forall a, b :: a in Roots(s) && b in Roots(s) && StartsWith(p, a) && StartsWith(p, b) ==> a == b
  {
    assert s[..|s|] == s;
    PrefixCovered(s, |s|, p);
    var r := Roots(s);
    RootsNoNesting(s);
    forall a, b | a in r && b in r && StartsWith(p, a) && StartsWith(p, b) ensures a == b {
      var i :| 0 <= i < |r| && r[i] == a;
      var j :| 0 <= j < |r| && r[j] == b;
      PrefixesComparable(a, b, p);
      NotNested(r, i, j);
      NotNested(r, j, i);
    }
  }

  /** The output is empty exactly when the set is. */
  lemma RootsEmpty(s: seq<Path>)
    requires StrictlySorted(s)
    ensures |Roots(s)| == 0 <==> |s| == 0
  {
    if |s| > 0 {
      assert s[0] in s;
      RootsCover(s, s[0]);
    }
  }

  /** Keeping the elements without a strict ancestor keeps all of them when
      none has one. */
  lemma {:induction false} KeepRootsAll(s: seq<Path>, all: seq<Path>)
    requires forall p :: p in s ==> !HasStrictAncestor(p, all)
    ensures KeepRoots(s, all) == s
  {
    if |s| > 0 {
      var init := s[..|s| - 1];
      assert s[|s| - 1] in s;
      assert forall p :: p in init ==> p in s;
      KeepRootsAll(init, all);
      assert s == init + [s[|s| - 1]];
    }
  }

  /** A set without nesting is its own reduction. */
  lemma NestingFreeFixed(s: seq<Path>)
    requires NoNesting(s)
    ensures Roots(s) == s
  {
    forall p | p in s ensures !HasStrictAncestor(p, s) {
      var i :| 0 <= i < |s| && s[i] == p;
      forall q | q in s && q != p ensures !StartsWith(p, q) {
        var j :| 0 <= j < |s| && s[j] == q;
        NotNested(s, j, i);
      }
    }
    KeepRootsAll(s, s);
  }

  /** Collecting the output into a set again and reducing it once more
      changes nothing. */
  lemma RootsIdempotent(s: seq<Path>)
    requires StrictlySorted(s)
    ensures Roots(FromSeq(Roots(s))) == Roots(s)
  {
    RootsSorted(s);
    RootsNoNesting(s);
    FromSortedSeq(Roots(s));
    NestingFreeFixed(Roots(s));
  }


  /** The targets of one walk are the contributed directories that lie under
      no other contributed directory, in ascending order without repeats;
      they cover every contributed directory. */
  lemma SearchTargetsMeaning(walk: seq<WalkItem>, p: Path)
    ensures p in SearchTargets(walk) <==>
      Contributed(walk, p) && !exists q :: Contributed(walk, q) && q != p && StartsWith(p, q)
    ensures StrictlySorted(SearchTargets(walk)) && NoNesting(SearchTargets(walk))
    ensures Contributed(walk, p) ==> exists a :: a in SearchTargets(walk) && StartsWith(p, a)
  {
    var c := Candidates(walk);
    RootsSorted(c);
    RootsNoNesting(c);
    if Contributed(walk, p) {
      RootsCover(c, p);
    }
    if p in SearchTargets(walk) {
      forall q | Contributed(walk, q) && q != p ensures !StartsWith(p, q) {
        assert q in c;
      }
    }
  }

  // ---------------------------------------------------------------------
  // Writing the target list

  /** The text `save_dirs` writes for each target. */
  function Renderings(targets: seq<Path>): (r: seq<string>)
    ensures |r| == |targets| && forall i :: 0 <= i < |targets| ==> r[i] == Render(targets[i])
  {
    seq(|targets|, i requires 0 <= i < |targets| => Render(targets[i]))
  }

  /** A path whose text holds neither a newline nor a carriage return. */
  predicate LineSafePath(p: Path)
  {
    forall i :: 0 <= i < |p| ==> '\n' !in ComponentText(p[i]) && '\r' !in ComponentText(p[i])
  }

  lemma RenderLineSafe(p: Path)
    requires LineSafePath(p)
    ensures LineSafe(Render(p))
  {
    RenderChars(p, '\n');
    RenderChars(p, '\r');
    var s := Render(p);
    if |s| > 0 {
      assert s[|s| - 1] in s;
    }
  }

  /** `save_dirs`: each target's text followed by a newline, in order; a
      list of line-safe paths reads back as exactly those texts. */
  method SaveDirs(saveTargets: seq<Path>) returns (text: string)
    ensures text == Terminated(Renderings(saveTargets))
    ensures (forall i :: 0 <= i < |saveTargets| ==> LineSafePath(saveTargets[i])) ==>
      ReadLines(Encode(text)) == Ok(Renderings(saveTargets))
  {
    text := "";
    for i := 0 to |saveTargets|
      invariant text == Terminated(Renderings(saveTargets[..i]))
    {
      var line := Render(saveTargets[i]);
      TerminatedSnoc(Renderings(saveTargets[..i]), line);
      assert Renderings(saveTargets[..i + 1]) == Renderings(saveTargets[..i]) + [line];
      text := text + line + "\n";
    }
    assert saveTargets[..|saveTargets|] == saveTargets;
    if forall i :: 0 <= i < |saveTargets| ==> LineSafePath(saveTargets[i]) {
      var lines := Renderings(saveTargets);
      forall i | 0 <= i < |lines| ensures LineSafe(lines[i]) {
        RenderLineSafe(saveTargets[i]);
      }
      ReadTerminated(lines);
    }
  }

  // ---------------------------------------------------------------------
  // The whole search phase

  /** The groups one after another, as `flatten` yields them. */
  function Flatten<T>(groups: seq<seq<T>>): seq<T>
  {
    if |groups| == 0 then [] else Flatten(groups[..|groups| - 1]) + groups[|groups| - 1]
  }

  /** `flatten` loses and invents nothing. */
  lemma {:induction false} FlattenMember<T>(groups: seq<seq<T>>, x: T)
    ensures x in Flatten(groups) <==> exists i :: 0 <= i < |groups| && x in groups[i]
  {
    if |groups| > 0 {
      var init := groups[..|groups| - 1];
      FlattenMember(init, x);
      assert forall i :: 0 <= i < |init| ==> init[i] == groups[i];
    }
  }

  /** The targets of every search directory, one directory after another;
      no reduction happens across directories. */
  function AllTargets(dirs: seq<string>, parse: string -> Path, walkOf: Path -> seq<WalkItem>): seq<Path>
  {
    Flatten(DirGroups(dirs, parse, walkOf))
  }

  /** The targets of each search directory, in list order. */
  function DirGroups(dirs: seq<string>, parse: string -> Path, walkOf: Path -> seq<WalkItem>): seq<seq<Path>>
  {
    seq(|dirs|, i requires 0 <= i < |dirs| => SearchTargets(walkOf(parse(dirs[i]))))
  }

  /** A path is a candidate of the whole search exactly when it is a target
      of one of the search directories. */
  lemma AllTargetsMember(dirs: seq<string>, parse: string -> Path, walkOf: Path -> seq<WalkItem>, p: Path)
    ensures p in AllTargets(dirs, parse, walkOf) <==> exists i :: 0 <= i < |dirs| && p in SearchTargets(walkOf(parse(dirs[i])))
  {
    var groups := DirGroups(dirs, parse, walkOf);
    FlattenMember(groups, p);
    assert forall i :: 0 <= i < |dirs| ==> groups[i] == SearchTargets(walkOf(parse(dirs[i])));
  }

  /** `save_archive_candidates`: read the search directories one per line
      (a missing list, an unopenable list and an undecodable line all stop
      the phase), search each, and write the targets out. `parse` stands
      for `PathBuf::from` and `walkOf` for the directory walk. */
  method SaveArchiveCandidates(searchDirFile: ListFile, parse: string -> Path, walkOf: Path -> seq<WalkItem>)
    returns (r: Result<string, ReadError>)
    ensures searchDirFile.Absent? ==> r == Err(NotFound)
    ensures searchDirFile.Unopenable? ==> r == Err(OpenFailed)
    ensures searchDirFile.Present? ==> (r.Ok? <==> Decodable(searchDirFile.content))
    ensures r.Err? && searchDirFile.Present? ==> r.error == InvalidData
    ensures r.Ok? ==> (
      && searchDirFile.Present?
      && var targets := AllTargets(ReadLines(searchDirFile.content).value, parse, walkOf);
         && r.value == Terminated(Renderings(targets))
         && ((forall i :: 0 <= i < |targets| ==> LineSafePath(targets[i])) ==>
               ReadLines(Encode(r.value)) == Ok(Renderings(targets))))
  {
    match searchDirFile
    case Absent => return Err(NotFound);
    case Unopenable => return Err(OpenFailed);
    case Present(content) =>
      var read := ReadLines(content);
      if read.Err? {
        return Err(read.error);
      }
      var searchPaths := read.value;
      var targets: seq<Path> := [];
      ghost var groups := DirGroups(searchPaths, parse, walkOf);
      for i := 0 to |searchPaths|
        invariant targets == Flatten(groups[..i])
      {
        var found := SearchArchiveTargets(walkOf(parse(searchPaths[i])));
        assert found == groups[i];
        FlattenSnoc(groups, i);
        targets := targets + found;
      }
      assert groups[..|searchPaths|] == groups;
      var text := SaveDirs(targets);
      return Ok(text);
  }

  lemma FlattenSnoc<T>(groups: seq<seq<T>>, i: nat)
    requires i < |groups|
    ensures Flatten(groups[..i + 1]) == Flatten(groups[..i]) + groups[i]
  {
    assert groups[..i + 1][..i] == groups[..i];
  }

}
