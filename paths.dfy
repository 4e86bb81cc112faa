/** Windows paths as the component sequences `std::path::Path::components`
    yields, with the ordering Rust derives for them. Parsing text into
    components is not modelled: every path here is already split. */
module Paths {
  import opened Wrappers
  import opened Ordering

  type byte = x: int | 0 <= x < 256

  /** The volume prefixes of `std::path::Prefix`, in declaration order. */
  datatype PrefixKind =
    | Verbatim(name: string)                   // \\?\name
    | VerbatimUNC(server: string, share: string) // \\?\UNC\server\share
    | VerbatimDisk(letter: byte)               // \\?\C:
    | DeviceNS(name: string)                   // \\.\name
    | UNC(server: string, share: string)       // \\server\share
    | Disk(letter: byte)                       // C:

  /** The components of `std::path::Component`, in declaration order. */
  datatype Component =
    | Prefix(kind: PrefixKind)
    | RootDir
    | CurDir
    | ParentDir
    | Normal(name: string)

  type Path = seq<Component>

  /** The component sequences `components()` can produce: a prefix only in
      front, the root only first or right after the prefix, and `.` only
      where the path begins. */
  predicate WellFormed(p: Path)
  {
    && (forall i :: 0 < i < |p| ==> !p[i].Prefix?)
    && (forall i :: 0 <= i < |p| && (p[i].RootDir? || p[i].CurDir?) ==> i == 0 || (i == 1 && p[0].Prefix?))
  }

  /** A path without prefix or root; joining it onto a directory appends. */
  predicate IsRelative(p: Path)
  {
    forall i :: 0 <= i < |p| ==> !p[i].Prefix? && !p[i].RootDir?
  }

  // ---------------------------------------------------------------------
  // Ordering (`Ord for Path` compares components lexicographically; the
  // derived `Ord for Component` ranks variants in declaration order, then
  // compares payloads; `OsStr` compares bytes, which for UTF-8 text is the
  // order of code points)

  predicate CharLess(a: char, b: char)
  {
    a < b
  }

  predicate NameLess(a: string, b: string)
  {
    LexLess(CharLess, a, b)
  }

  function KindRank(k: PrefixKind): nat
  {
    match k
    case Verbatim(_) => 0
    case VerbatimUNC(_, _) => 1
    case VerbatimDisk(_) => 2
    case DeviceNS(_) => 3
    case UNC(_, _) => 4
    case Disk(_) => 5
  }

  predicate PrefixKindLess(a: PrefixKind, b: PrefixKind)
  {
    if KindRank(a) != KindRank(b) then KindRank(a) < KindRank(b)
    else match (a, b)
      case (Verbatim(m), Verbatim(n)) => NameLess(m, n)
      case (DeviceNS(m), DeviceNS(n)) => NameLess(m, n)
      case (VerbatimDisk(k), VerbatimDisk(l)) => k < l
      case (Disk(k), Disk(l)) => k < l
      case (VerbatimUNC(s, h), VerbatimUNC(t, g)) => NameLess(s, t) || (s == t && NameLess(h, g))
      case (UNC(s, h), UNC(t, g)) => NameLess(s, t) || (s == t && NameLess(h, g))
      case _ => false
  }

  function ComponentRank(c: Component): nat
  {
    match c
    case Prefix(_) => 0
    case RootDir => 1
    case CurDir => 2
    case ParentDir => 3
    case Normal(_) => 4
  }

  predicate ComponentLess(a: Component, b: Component)
  {
    if ComponentRank(a) != ComponentRank(b) then ComponentRank(a) < ComponentRank(b)
    else match (a, b)
      case (Prefix(k), Prefix(l)) => PrefixKindLess(k, l)
      case (Normal(m), Normal(n)) => NameLess(m, n)
      case _ => false
  }

  /** The order in which a `BTreeSet<PathBuf>` keeps its elements. */
  predicate PathLess(a: Path, b: Path)
  {
    LexLess(ComponentLess, a, b)
  }

  /** `Path::starts_with`: `base` is a leading run of whole components of `p`. */
  predicate StartsWith(p: Path, base: Path)
  {
    IsPrefix(base, p)
  }

  lemma CharOrder()
    ensures StrictTotalOrder(CharLess)
  {
  }

  lemma NameOrder(a: string, b: string, c: string)
    ensures !NameLess(a, a)
    ensures a == b || NameLess(a, b) || NameLess(b, a)
    ensures NameLess(a, b) && NameLess(b, c) ==> NameLess(a, c)
  {
    CharOrder();
    LexIrreflexive(CharLess, a);
    LexTrichotomous(CharLess, a, b);
    if NameLess(a, b) && NameLess(b, c) {
      LexTransitive(CharLess, a, b, c);
    }
  }

  lemma PrefixKindOrder(a: PrefixKind, b: PrefixKind, c: PrefixKind)
    ensures !PrefixKindLess(a, a)
    ensures a == b || PrefixKindLess(a, b) || PrefixKindLess(b, a)
    ensures PrefixKindLess(a, b) && PrefixKindLess(b, c) ==> PrefixKindLess(a, c)
  {
    PrefixKindIrreflexive(a);
    PrefixKindTotal(a, b);
    if PrefixKindLess(a, b) && PrefixKindLess(b, c) {
      PrefixKindTransitive(a, b, c);
    }
  }

  lemma PrefixKindIrreflexive(a: PrefixKind)
    ensures !PrefixKindLess(a, a)
  {
    match a
    case Verbatim(m) => NameOrder(m, m, m);
    case DeviceNS(m) => NameOrder(m, m, m);
    case VerbatimUNC(s, h) => NameOrder(s, s, s); NameOrder(h, h, h);
    case UNC(s, h) => NameOrder(s, s, s); NameOrder(h, h, h);
    case _ =>
  }

  lemma PrefixKindTotal(a: PrefixKind, b: PrefixKind)
    ensures a == b || PrefixKindLess(a, b) || PrefixKindLess(b, a)
  {
    match (a, b)
    case (Verbatim(m), Verbatim(n)) => NameOrder(m, n, n);
    case (DeviceNS(m), DeviceNS(n)) => NameOrder(m, n, n);
    case (VerbatimUNC(s, h), VerbatimUNC(t, g)) => NameOrder(s, t, t); NameOrder(h, g, g);
    case (UNC(s, h), UNC(t, g)) => NameOrder(s, t, t); NameOrder(h, g, g);
    case _ =>
  }

  lemma PrefixKindTransitive(a: PrefixKind, b: PrefixKind, c: PrefixKind)
    requires PrefixKindLess(a, b) && PrefixKindLess(b, c)
    ensures PrefixKindLess(a, c)
  {
    match (a, b, c)
    case (Verbatim(m), Verbatim(n), Verbatim(o)) => NameOrder(m, n, o);
    case (DeviceNS(m), DeviceNS(n), DeviceNS(o)) => NameOrder(m, n, o);
    case (VerbatimUNC(s, h), VerbatimUNC(t, g), VerbatimUNC(u, f)) => NameOrder(s, t, u); NameOrder(h, g, f);
    case (UNC(s, h), UNC(t, g), UNC(u, f)) => NameOrder(s, t, u); NameOrder(h, g, f);
    case _ =>
  }

  lemma ComponentOrder()
    ensures StrictTotalOrder(ComponentLess)
  {
    forall a: Component, b: Component, c: Component
      ensures !ComponentLess(a, a)
      ensures a == b || ComponentLess(a, b) || ComponentLess(b, a)
      ensures ComponentLess(a, b) && ComponentLess(b, c) ==> ComponentLess(a, c)
    {
      match (a, b, c)
      case (Prefix(k), Prefix(l), Prefix(m)) => PrefixKindOrder(k, l, m); PrefixKindOrder(l, k, m);
      case (Normal(m), Normal(n), Normal(o)) => NameOrder(m, n, o); NameOrder(n, m, o);
      case (Prefix(k), Prefix(l), _) => PrefixKindOrder(k, l, l); PrefixKindOrder(l, k, k);
      case (Normal(m), Normal(n), _) => NameOrder(m, n, n); NameOrder(n, m, m);
      case (Prefix(k), _, _) => PrefixKindOrder(k, k, k);
      case (Normal(m), _, _) => NameOrder(m, m, m);
      case _ =>
    }
  }

  lemma PathLessIrreflexive(a: Path)
    ensures !PathLess(a, a)
  {
    ComponentOrder();
    LexIrreflexive(ComponentLess, a);
  }

  lemma PathLessTransitive(a: Path, b: Path, c: Path)
    requires PathLess(a, b) && PathLess(b, c)
    ensures PathLess(a, c)
  {
    ComponentOrder();
    LexTransitive(ComponentLess, a, b, c);
  }

  lemma PathLessTrichotomous(a: Path, b: Path)
    ensures a == b || PathLess(a, b) || PathLess(b, a)
  {
    ComponentOrder();
    LexTrichotomous(ComponentLess, a, b);
  }

  lemma PathLessAsymmetric(a: Path, b: Path)
    ensures PathLess(a, b) ==> !PathLess(b, a) && a != b
  {
    ComponentOrder();
    if PathLess(a, b) {
      LexAsymmetric(ComponentLess, a, b);
    }
  }

  /** A path sorts strictly before each of its descendants. */
  lemma AncestorSortsFirst(dir: Path, base: Path)
    requires StartsWith(dir, base) && dir != base
    ensures PathLess(base, dir)
  {
    PrefixLexLess(ComponentLess, base, dir);
  }

  /** A path that sorts between `base` and a descendant of `base` is itself
      a descendant of (or equal to) `base`. */
  lemma DescendantsContiguous(base: Path, mid: Path, dir: Path)
    requires StartsWith(dir, base)
    requires !PathLess(mid, base) && !PathLess(dir, mid)
    ensures StartsWith(mid, base)
  {
    ComponentOrder();
    PrefixBetween(ComponentLess, base, mid, dir);
  }

  // ---------------------------------------------------------------------
  // Parent and display

  /** `Path::parent`: drops the last component unless the path is empty or
      ends in its prefix or root. */
  function Parent(p: Path): (r: Option<Path>)
    ensures r.Some? <==> |p| > 0 && (p[|p| - 1].Normal? || p[|p| - 1].CurDir? || p[|p| - 1].ParentDir?)
    ensures r.Some? ==> StartsWith(p, r.value) && |r.value| + 1 == |p|
  {
    if |p| == 0 then None
    else match p[|p| - 1]
      case Prefix(_) => None
      case RootDir => None
      case _ => Some(p[..|p| - 1])
  }

  const Separator: char := '\\'

  function KindText(k: PrefixKind): string
  {
    match k
    case Verbatim(n) => "\\\\?\\" + n
    case VerbatimUNC(s, h) => "\\\\?\\UNC\\" + s + "\\" + h
    case VerbatimDisk(l) => "\\\\?\\" + [l as char, ':']
    case DeviceNS(n) => "\\\\.\\" + n
    case UNC(s, h) => "\\\\" + s + "\\" + h
    case Disk(l) => [l as char, ':']
  }

  function ComponentText(c: Component): string
  {
    match c
    case Prefix(k) => KindText(k)
    case RootDir => [Separator]
    case CurDir => "."
    case ParentDir => ".."
    case Normal(n) => n
  }

  /** The text of a path: components joined by `\`, with no separator
      after a prefix or a root (`C:\a\b`, `C:a`, `\a`). */
  function Render(p: Path): string
  {
    if |p| == 0 then ""
    else
      var init := p[..|p| - 1];
      var sep := if |init| == 0 || init[|init| - 1].Prefix? || init[|init| - 1].RootDir? || p[|p| - 1].RootDir?
                 then "" else [Separator];
      Render(init) + sep + ComponentText(p[|p| - 1])
  }

  /** No character of the path's text is `c` unless some component's text holds it. */
  lemma {:induction false} RenderChars(p: Path, c: char)
    requires c != Separator
    requires forall i :: 0 <= i < |p| ==> c !in ComponentText(p[i])
    ensures c !in Render(p)
  {
    if |p| > 0 {
      RenderChars(p[..|p| - 1], c);
    }
  }
}
