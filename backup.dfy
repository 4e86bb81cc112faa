/** The backup phase: read the two target lists, translate every source
    path to its place in the archive, and append the entries in order. */
module Backup {
  import opened Wrappers
  import opened Paths
  import opened Lines

  // ---------------------------------------------------------------------
  // `get_dest`: re-rooting a Windows path under its drive letter

  /** Why `get_dest` gives up: fewer than two components (the `unwrap` on
      `next()`), a `strip_prefix` that finds nothing to strip, a first
      component that is not a disk prefix ("not disk"), or a drive-letter
      byte that is not UTF-8 on its own. */
  datatype DestError = MissingComponent | StripFailed | NotDisk | InvalidDriveLetter

  /** The one-component directory named after a drive letter. */
  function DriveDir(letter: byte): Component
  {
    Normal([letter as char])
  }

  /** A UNC or device prefix on its own still parses with a root after it
      (`\\server\share` is `[Prefix, RootDir]`), so stripping it also strips
      the root, and the second `strip_prefix` then has no root left to strip. */
  predicate StripsRootToo(c: Component)
  {
    c.Prefix? && (c.kind.UNC? || c.kind.DeviceNS?)
  }

  /** `get_dest`: drop the first two components, whatever the second is,
      and put the rest under the drive letter's directory. */
  function GetDest(src: Path): (r: Result<Path, DestError>)
    ensures r == Err(MissingComponent) <==> |src| < 2
    ensures r == Err(StripFailed) <==> |src| >= 2 && src[0].Prefix? && (src[0].kind.UNC? || src[0].kind.DeviceNS?)
    ensures r == Err(NotDisk) <==> |src| >= 2 && !(src[0].Prefix? && (src[0].kind.Disk? || src[0].kind.UNC? || src[0].kind.DeviceNS?))
    ensures r == Err(InvalidDriveLetter) <==> |src| >= 2 && src[0].Prefix? && src[0].kind.Disk? && src[0].kind.letter >= 128
    ensures r.Ok? ==> src[0].Prefix? && src[0].kind.Disk? && src[0].kind.letter < 128
    ensures r.Ok? ==> |r.value| == |src| - 1 && r.value[0] == DriveDir(src[0].kind.letter) && r.value[1..] == src[2..]
  {
    if |src| < 2 then Err(MissingComponent)
    else if StripsRootToo(src[0]) then Err(StripFailed)
    else
      var prefix := src[0];
      var relPath := src[2..];
      match prefix
      case Prefix(Disk(letter)) =>
        if letter < 128 then Ok([DriveDir(letter)] + relPath) else Err(InvalidDriveLetter)
      case _ => Err(NotDisk)
  }

  /** `\\server\share\x` fails at the second `strip_prefix`, before the
      prefix kind is looked at. */
  lemma GetDestUncFails()
    ensures GetDest([Prefix(UNC("server", "share")), RootDir, Normal("x")]) == Err(StripFailed)
  {
    var src := [Prefix(UNC("server", "share")), RootDir, Normal("x")];
    assert StripsRootToo(src[0]);
  }

  /** The inverse for paths of the form `X:\...`: a drive directory becomes
      the disk prefix and root again. */
  function Restore(dest: Path): (r: Option<Path>)
    ensures r.Some? ==> GetDest(r.value) == Ok(dest)
    ensures r.Some? <==> |dest| > 0 && dest[0].Normal? && |dest[0].name| == 1 && dest[0].name[0] as int < 128
  {
    if |dest| > 0 && dest[0].Normal? && |dest[0].name| == 1 && dest[0].name[0] as int < 128 then
      var letter: byte := dest[0].name[0] as int;
      assert [letter as char] == dest[0].name;
      var src := [Prefix(Disk(letter)), RootDir] + dest[1..];
      assert src[2..] == dest[1..];
      assert [DriveDir(letter)] + src[2..] == dest;
      Some(src)
    else None
  }

  /** Prepending the disk prefix and the stripped second component to the
      result's tail gives back `src`; when that second component is the
      root, `Restore` undoes `get_dest`. */
  lemma GetDestReassembles(src: Path)
    requires GetDest(src).Ok?
    ensures [src[0], src[1]] + GetDest(src).value[1..] == src
    ensures src[1] == RootDir ==> Restore(GetDest(src).value) == Some(src)
  {
    var d := GetDest(src).value;
    assert [src[0], src[1]] + src[2..] == src;
    if src[1] == RootDir {
      var letter := src[0].kind.letter;
      assert d[0].name == [letter as char];
      assert (letter as char) as int == letter;
    }
  }

  /** For the component sequences `components()` produces, the stripped tail
      has no prefix and no root, so joining it onto the drive directory
      appends it as the model does. */
  lemma GetDestRelative(src: Path)
    requires WellFormed(src) && |src| >= 2
    ensures IsRelative(src[2..])
  {
    forall i | 0 <= i < |src[2..]| ensures !src[2..][i].Prefix? && !src[2..][i].RootDir? {
      assert src[2..][i] == src[i + 2];
    }
  }

  /** `E:\Saves\Game1` goes to `E\Saves\Game1`. */
  lemma GetDestExample()
    ensures GetDest([Prefix(Disk('E' as int)), RootDir, Normal("Saves"), Normal("Game1")])
         == Ok([Normal("E"), Normal("Saves"), Normal("Game1")])
  {
    var src := [Prefix(Disk('E' as int))] + [RootDir, Normal("Saves"), Normal("Game1")];
    assert DriveDir('E' as int) == Normal("E");
    assert src[2..] == [Normal("Saves"), Normal("Game1")];
    assert src[0] == Prefix(Disk('E' as int));
    assert GetDest(src) == Ok([DriveDir('E' as int)] + src[2..]);
    assert [Normal("E")] + [Normal("Saves"), Normal("Game1")] == [Normal("E"), Normal("Saves"), Normal("Game1")];
  }

  /** `D:\Root\sub\file.txt` keeps `Root`: it goes to `D\Root\sub\file.txt`. */
  lemma GetDestKeepsFirstDirectory()
    ensures GetDest([Prefix(Disk('D' as int)), RootDir, Normal("Root"), Normal("sub"), Normal("file.txt")])
         == Ok([Normal("D"), Normal("Root"), Normal("sub"), Normal("file.txt")])
  {
    var src := [Prefix(Disk('D' as int))] + [RootDir, Normal("Root"), Normal("sub"), Normal("file.txt")];
    assert DriveDir('D' as int) == Normal("D");
    assert src[2..] == [Normal("Root"), Normal("sub"), Normal("file.txt")];
    assert src[0] == Prefix(Disk('D' as int));
    assert GetDest(src) == Ok([DriveDir('D' as int)] + src[2..]);
    assert [Normal("D")] + [Normal("Root"), Normal("sub"), Normal("file.txt")] == [Normal("D"), Normal("Root"), Normal("sub"), Normal("file.txt")];
  }

  /** The second component is dropped unchecked: drive-relative `C:foo\bar`
      goes to `C\bar`. */
  lemma GetDestDropsAnySecond()
    ensures GetDest([Prefix(Disk('C' as int)), Normal("foo"), Normal("bar")]) == Ok([Normal("C"), Normal("bar")])
  {
    var src := [Prefix(Disk('C' as int))] + [Normal("foo"), Normal("bar")];
    assert DriveDir('C' as int) == Normal("C");
    assert src[2..] == [Normal("bar")];
    assert src[0] == Prefix(Disk('C' as int));
    assert GetDest(src) == Ok([DriveDir('C' as int)] + src[2..]);
    assert [Normal("C")] + [Normal("bar")] == [Normal("C"), Normal("bar")];
  }

  // ---------------------------------------------------------------------
  // Reading the target lists

  /** `read_paths_from_file`: open the file and return its lines in order;
      an undecodable line ends the read with an error. */
  function ReadPathsFromFile(file: ListFile): (r: Result<seq<string>, ReadError>)
    ensures file.Absent? ==> r == Err(NotFound)
    ensures file.Unopenable? ==> r == Err(OpenFailed)
    ensures file.Present? ==> (r.Ok? <==> Decodable(file.content))
    ensures file.Present? && r.Err? ==> r.error == InvalidData
    ensures r.Ok? ==> forall i :: 0 <= i < |r.value| ==> '\n' !in r.value[i]
  {
    match file
    case Absent => Err(NotFound)
    case Unopenable => Err(OpenFailed)
    case Present(content) => ReadLines(content)
  }

  /** A list written one entry per line reads back as that list, and a
      newline-terminated list with no `\r` before a newline is exactly its
      lines, each followed by a newline. Other line endings are covered by
      `ReadSplits` and `ReadJoined`. */
  lemma ListRoundTrip(lines: seq<string>, text: string)
    requires forall i :: 0 <= i < |lines| ==> LineSafe(lines[i])
    requires BareNewlines(text)
    requires |text| == 0 || text[|text| - 1] == '\n'
    ensures ReadPathsFromFile(Present(Encode(Terminated(lines)))) == Ok(lines)
    ensures ReadPathsFromFile(Present(Encode(text))).Ok?
    ensures Terminated(ReadPathsFromFile(Present(Encode(text))).value) == text
  {
    ReadTerminated(lines);
    TerminatedRead(text);
  }

  /** The `exists()` guard in `backup`: a missing list is an empty list. */
  function ReadListOrEmpty(file: ListFile): (r: Result<seq<string>, ReadError>)
    ensures file.Absent? ==> r == Ok([])
    ensures !file.Absent? ==> r == ReadPathsFromFile(file)
  {
    if file.Absent? then Ok([]) else ReadPathsFromFile(file)
  }

  // ---------------------------------------------------------------------
  // The archive plan

  /** An entry appended to the tar archive: a whole directory tree
      (`append_dir_all`) or one file (`append_path_with_name`). */
  datatype ArchiveEntry = DirTree(src: Path, dest: Path) | FileCopy(src: Path, dest: Path)

  /** One item of a `glob` expansion: a path, or an entry it could not read. */
  datatype GlobItem = Found(path: Path) | Unreadable

  /** `glob(pattern)`: a malformed pattern, or the matches in order. */
  datatype GlobResult = PatternError | Matches(items: seq<GlobItem>)

  /** Why the backup stopped. */
  datatype BackupError =
    | ListUnreadable(readError: ReadError)
    | Dest(destError: DestError)
    | BadPattern
    | GlobEntry

  /** What the program attempts at one point: append an entry, or fail. */
  type Step = Result<ArchiveEntry, BackupError>

  function DirStep(line: string, parse: string -> Path): (r: Step)
    ensures r.Ok? ==> r.value.DirTree?
  {
    var src := parse(line);
    match GetDest(src)
    case Ok(dest) => Ok(DirTree(src, dest))
    case Err(e) => Err(Dest(e))
  }

  /** The first loop of `backup`: one directory entry per listed directory. */
  function DirSteps(dirs: seq<string>, parse: string -> Path): (r: seq<Step>)
    ensures |r| == |dirs|
  {
    seq(|dirs|, i requires 0 <= i < |dirs| => DirStep(dirs[i], parse))
  }

  function ItemStep(item: GlobItem): (r: Step)
    ensures r.Ok? ==> r.value.FileCopy?
  {
    match item
    case Unreadable => Err(GlobEntry)
    case Found(p) =>
      match GetDest(p)
      case Ok(dest) => Ok(FileCopy(p, dest))
      case Err(e) => Err(Dest(e))
  }

  /** The steps for one listed pattern: a bad pattern stops everything,
      otherwise one file entry per match in order. */
  function PatternSteps(g: GlobResult): (r: seq<Step>)
    ensures forall j :: 0 <= j < |r| && r[j].Ok? ==> r[j].value.FileCopy?
  {
    match g
    case PatternError => [Err(BadPattern)]
    case Matches(items) => seq(|items|, k requires 0 <= k < |items| => ItemStep(items[k]))
  }

  /** The second loop of `backup`: the patterns' steps, one pattern after another. */
  function FileSteps(files: seq<string>, glob: string -> GlobResult): (r: seq<Step>)
    ensures forall j :: 0 <= j < |r| && r[j].Ok? ==> r[j].value.FileCopy?
  {
    if |files| == 0 then []
    else
      var init := FileSteps(files[..|files| - 1], glob);
      var last := PatternSteps(glob(files[|files| - 1]));
      var r := init + last;
      assert forall j :: 0 <= j < |r| && r[j].Ok? ==> r[j].value.FileCopy? by {
        forall j | 0 <= j < |r| && r[j].Ok? ensures r[j].value.FileCopy? {
          if j < |init| { assert r[j] == init[j]; } else { assert r[j] == last[j - |init|]; }
        }
      }
      r
  }

  /** Everything `backup` attempts once both lists are read: directories
      first, then files. */
  function BackupSteps(dirs: seq<string>, files: seq<string>, parse: string -> Path, glob: string -> GlobResult): seq<Step>
  {
    DirSteps(dirs, parse) + FileSteps(files, glob)
  }

  /** The archive contents and how the run ended. */
  datatype Trace = Trace(entries: seq<ArchiveEntry>, outcome: Outcome<BackupError>)

  /** Carrying out steps in order: the archive holds the entries of every
      step before the first failure, and the run ends with that failure, or
      passes when there is none. */
  function Run(steps: seq<Step>): Trace
  {
    if |steps| == 0 then Trace([], Pass)
    else match steps[0]
      case Err(e) => Trace([], Fail(e))
      case Ok(x) =>
        var rest := Run(steps[1..]);
        Trace([x] + rest.entries, rest.outcome)
  }

  /** What a run leaves behind: the entries are the values of the leading
      successful steps, and the run passes when every step succeeded or
      fails with the error of the step right after those entries. */
  lemma {:induction false} RunMeaning(steps: seq<Step>)
    ensures var t := Run(steps);
      && |t.entries| <= |steps|
      && (forall j :: 0 <= j < |t.entries| ==> steps[j] == Ok(t.entries[j]))
      && (t.outcome.Pass? ==> |t.entries| == |steps|)
      && (t.outcome.Fail? ==> |t.entries| < |steps| && steps[|t.entries|] == Err(t.outcome.error))
  {
    if |steps| > 0 && steps[0].Ok? {
      RunMeaning(steps[1..]);
      var rest := Run(steps[1..]);
      var t := Run(steps);
      assert t.entries == [steps[0].value] + rest.entries;
      forall j | 0 <= j < |t.entries| ensures steps[j] == Ok(t.entries[j]) {
        if j > 0 { assert steps[j] == steps[1..][j - 1]; }
      }
    }
  }

  lemma {:induction false} RunAppend(a: seq<Step>, b: seq<Step>)
    requires Run(a).outcome.Pass?
    ensures Run(a + b) == Trace(Run(a).entries + Run(b).entries, Run(b).outcome)
  {
    if |a| > 0 {
      var x := a[0].value;
      assert (a + b)[0] == Ok(x) && (a + b)[1..] == a[1..] + b;
      RunAppend(a[1..], b);
      var ta, tb := Run(a[1..]), Run(b);
      assert Run(a) == Trace([x] + ta.entries, ta.outcome);
      assert Run(a + b) == Trace([x] + (ta.entries + tb.entries), tb.outcome);
      assert [x] + (ta.entries + tb.entries) == [x] + ta.entries + tb.entries;
    } else {
      assert a + b == b;
    }
  }

  /** All directory entries come first, in list order and each under its
      translated name; every later entry is a single file. */
  lemma BackupOrder(dirs: seq<string>, files: seq<string>, parse: string -> Path, glob: string -> GlobResult)
    ensures var t := Run(BackupSteps(dirs, files, parse, glob));
      forall j :: 0 <= j < |t.entries| ==>
        && (t.entries[j].DirTree? <==> j < |dirs|)
        && (j < |dirs| ==> t.entries[j].src == parse(dirs[j]) && GetDest(parse(dirs[j])) == Ok(t.entries[j].dest))
  {
    var ds := DirSteps(dirs, parse);
    var fs := FileSteps(files, glob);
    var steps := ds + fs;
    var t := Run(steps);
    RunMeaning(steps);
    forall j | 0 <= j < |t.entries|
      ensures t.entries[j].DirTree? <==> j < |dirs|
      ensures j < |dirs| ==> t.entries[j].src == parse(dirs[j]) && GetDest(parse(dirs[j])) == Ok(t.entries[j].dest)
    {
      if j < |dirs| {
        assert steps[j] == ds[j];
      } else {
        assert steps[j] == fs[j - |dirs|];
      }
    }
  }

  /** A directory whose destination cannot be computed aborts the backup,
      and nothing from that directory on is archived. */
  lemma DirDestFailureAborts(dirs: seq<string>, files: seq<string>, parse: string -> Path, glob: string -> GlobResult, i: nat)
    requires i < |dirs| && GetDest(parse(dirs[i])).Err?
    ensures Run(BackupSteps(dirs, files, parse, glob)).outcome.Fail?
    ensures |Run(BackupSteps(dirs, files, parse, glob)).entries| <= i
  {
    var steps := BackupSteps(dirs, files, parse, glob);
    RunMeaning(steps);
    assert steps[i] == DirStep(dirs[i], parse);
  }

  lemma {:induction false} FileStepsAppend(a: seq<string>, b: seq<string>, glob: string -> GlobResult)
    ensures FileSteps(a + b, glob) == FileSteps(a, glob) + FileSteps(b, glob)
    decreases |b|
  {
    if |b| == 0 {
      assert a + b == a;
    } else {
      var init, last := b[..|b| - 1], b[|b| - 1];
      assert (a + b)[..|a + b| - 1] == a + init && (a + b)[|a + b| - 1] == last;
      FileStepsAppend(a, init, glob);
      var fa, fi, pl := FileSteps(a, glob), FileSteps(init, glob), PatternSteps(glob(last));
      assert FileSteps(a + b, glob) == fa + fi + pl;
      assert FileSteps(b, glob) == fi + pl;
      assert fa + fi + pl == fa + (fi + pl);
    }
  }

  lemma FileStepsSplit(files: seq<string>, i: nat, glob: string -> GlobResult)
    requires i < |files|
    ensures FileSteps(files, glob) ==
      FileSteps(files[..i], glob) + PatternSteps(glob(files[i])) + FileSteps(files[i + 1..], glob)
    ensures FileSteps(files[..i + 1], glob) == FileSteps(files[..i], glob) + PatternSteps(glob(files[i]))
  {
    assert files == files[..i + 1] + files[i + 1..];
    FileStepsAppend(files[..i + 1], files[i + 1..], glob);
    FileStepsSnoc(files, i, glob);
  }

  lemma FileStepsSnoc(files: seq<string>, i: nat, glob: string -> GlobResult)
    requires i < |files|
    ensures FileSteps(files[..i + 1], glob) == FileSteps(files[..i], glob) + PatternSteps(glob(files[i]))
  {
    var pre := files[..i + 1];
    assert pre[..|pre| - 1] == files[..i];
    assert pre[|pre| - 1] == files[i];
  }

  /** A listed pattern that is malformed, or one of whose matches cannot be
      read or translated, aborts the backup. */
  lemma FileFailureAborts(dirs: seq<string>, files: seq<string>, parse: string -> Path, glob: string -> GlobResult, i: nat, e: BackupError)
    requires i < |files| && Err(e) in PatternSteps(glob(files[i]))
    ensures Run(BackupSteps(dirs, files, parse, glob)).outcome.Fail?
  {
    var ds, before, group, after := DirSteps(dirs, parse), FileSteps(files[..i], glob), PatternSteps(glob(files[i])), FileSteps(files[i + 1..], glob);
    var steps := BackupSteps(dirs, files, parse, glob);
    assert steps == ds + before + group + after by {
      FileStepsSplit(files, i, glob);
      Regroup(ds, before, group, after);
    }
    var k :| 0 <= k < |group| && group[k] == Err(e);
    assert steps[|ds| + |before| + k] == Err(e) by {
      IndexInThird(ds + before, group, after, k);
    }
    RunFailsOnError(steps, |ds| + |before| + k);
  }

  lemma IndexInThird(front: seq<Step>, group: seq<Step>, after: seq<Step>, k: nat)
    requires k < |group|
    ensures (front + group + after)[|front| + k] == group[k]
  {
  }

  /** A run with a failing step anywhere fails. */
  lemma RunFailsOnError(steps: seq<Step>, at: nat)
    requires at < |steps| && steps[at].Err?
    ensures Run(steps).outcome.Fail?
  {
    RunMeaning(steps);
  }

  /** With both lists missing, the archive is created empty and the backup
      succeeds. */
  lemma NoListsEmptyArchive(parse: string -> Path, glob: string -> GlobResult)
    ensures ReadListOrEmpty(Absent) == Ok([])
    ensures Run(BackupSteps([], [], parse, glob)) == Trace([], Pass)
  {
    assert BackupSteps([], [], parse, glob) == [];
  }

  // ---------------------------------------------------------------------
  // The archive being written

  /** The `tar::Builder`, seen as the log of entries appended to it. */
  class Archive {
    var entries: seq<ArchiveEntry>

    constructor()
      ensures entries == []
    {
      entries := [];
    }

    /** `append_dir_all(dest, src)`. */
    method AppendDirAll(dest: Path, src: Path)
      modifies this
      ensures entries == old(entries) + [DirTree(src, dest)]
    {
      entries := entries + [DirTree(src, dest)];
    }

    /** `append_path_with_name(src, dest)`. */
    method AppendPathWithName(src: Path, dest: Path)
      modifies this
      ensures entries == old(entries) + [FileCopy(src, dest)]
    {
      entries := entries + [FileCopy(src, dest)];
    }
  }

  /** The body of the second loop for one pattern that expanded: append
      each match under its translated name, stopping at the first match
      that cannot be read or translated. */
  method AppendMatches(tar: Archive, items: seq<GlobItem>, ghost done: seq<Step>) returns (outcome: Outcome<BackupError>)
    requires Run(done) == Trace(tar.entries, Pass)
    modifies tar
    ensures Trace(tar.entries, outcome) == Run(done + PatternSteps(Matches(items)))
  {
    ghost var pattern := PatternSteps(Matches(items));
    assert done + pattern[..0] == done;
    for k := 0 to |items|
      invariant Run(done + pattern[..k]) == Trace(tar.entries, Pass)
    {
      ghost var before := done + pattern[..k];
      assert done + pattern == done + pattern[..k] + [pattern[k]] + pattern[k + 1..] by {
        assert pattern == pattern[..k] + [pattern[k]] + pattern[k + 1..];
      }
      assert done + pattern[..k + 1] == done + pattern[..k] + [pattern[k]] by {
        assert pattern[..k + 1] == pattern[..k] + [pattern[k]];
      }
      match items[k]
      case Unreadable =>
        RunStops(before, GlobEntry, pattern[k + 1..]);
        return Fail(GlobEntry);
      case Found(p) =>
        var dest := GetDest(p);
        if dest.Err? {
          RunStops(before, Dest(dest.error), pattern[k + 1..]);
          return Fail(Dest(dest.error));
        }
        RunAppend(before, [Ok(FileCopy(p, dest.value))]);
        tar.AppendPathWithName(p, dest.value);
    }
    assert pattern[..|items|] == pattern;
    return Pass;
  }

  /** `backup`: read both lists (a missing one is empty), create the
      archive, append every listed directory, then every match of every
      listed pattern; the first failure stops it. `parse` stands for
      `Path::new` and `glob` for the pattern expansion. */
  method Backup(targetDirFile: ListFile, targetFileFile: ListFile, parse: string -> Path, glob: string -> GlobResult)
    returns (tar: Archive?, outcome: Outcome<BackupError>)
    ensures ReadListOrEmpty(targetDirFile).Err? ==>
      tar == null && outcome == Fail(ListUnreadable(ReadListOrEmpty(targetDirFile).error))
    ensures ReadListOrEmpty(targetDirFile).Ok? && ReadListOrEmpty(targetFileFile).Err? ==>
      tar == null && outcome == Fail(ListUnreadable(ReadListOrEmpty(targetFileFile).error))
    ensures ReadListOrEmpty(targetDirFile).Ok? && ReadListOrEmpty(targetFileFile).Ok? ==>
      && tar != null && fresh(tar)
      && Trace(tar.entries, outcome) ==
         Run(BackupSteps(ReadListOrEmpty(targetDirFile).value, ReadListOrEmpty(targetFileFile).value, parse, glob))
  {
    var dirsRead := ReadListOrEmpty(targetDirFile);
    if dirsRead.Err? {
      return null, Fail(ListUnreadable(dirsRead.error));
    }
    var dirs := dirsRead.value;
    var filesRead := ReadListOrEmpty(targetFileFile);
    if filesRead.Err? {
      return null, Fail(ListUnreadable(filesRead.error));
    }
    var files := filesRead.value;

    tar := new Archive();
    assert DirSteps(dirs[..0], parse) == [];
    for i := 0 to |dirs|
      invariant Run(DirSteps(dirs[..i], parse)) == Trace(tar.entries, Pass)
    {
      var src := parse(dirs[i]);
      var dest := GetDest(src);
      if dest.Err? {
        DirFailure(dirs, files, parse, glob, i);
        return tar, Fail(Dest(dest.error));
      }
      DirSuccess(dirs, parse, i);
      tar.AppendDirAll(dest.value, src);
    }
    assert dirs[..|dirs|] == dirs;
    assert files[..0] == [];
    assert DirSteps(dirs, parse) + FileSteps(files[..0], glob) == DirSteps(dirs, parse);
    for i := 0 to |files|
      invariant Run(DirSteps(dirs, parse) + FileSteps(files[..i], glob)) == Trace(tar.entries, Pass)
    {
      ghost var done := DirSteps(dirs, parse) + FileSteps(files[..i], glob);
      var g := glob(files[i]);
      PatternGroup(dirs, files, parse, glob, i);
      if g.PatternError? {
        RunAppend(done, [Err(BadPattern)]);
        PatternFailure(dirs, files, parse, glob, i);
        return tar, Fail(BadPattern);
      }
      outcome := AppendMatches(tar, g.items, done);
      if outcome.Fail? {
        PatternFailure(dirs, files, parse, glob, i);
        return tar, outcome;
      }
    }
    assert files[..|files|] == files;
    return tar, Pass;
  }

  // ---------------------------------------------------------------------
  // Step-sequence bookkeeping for the loops

  /** Steps after a failure change nothing. */
  lemma {:induction false} RunFailedPrefix(a: seq<Step>, b: seq<Step>)
    requires Run(a).outcome.Fail?
    ensures Run(a + b) == Run(a)
  {
    if |a| > 0 {
      assert (a + b)[0] == a[0];
      if a[0].Ok? {
        assert (a + b)[1..] == a[1..] + b;
        RunFailedPrefix(a[1..], b);
      }
    }
  }

  lemma RunStops(done: seq<Step>, e: BackupError, rest: seq<Step>)
    requires Run(done).outcome.Pass?
    ensures Run(done + [Err(e)] + rest) == Trace(Run(done).entries, Fail(e))
  {
    assert done + [Err(e)] + rest == done + ([Err(e)] + rest);
    RunAppend(done, [Err(e)] + rest);
  }

  lemma DirSuccess(dirs: seq<string>, parse: string -> Path, i: nat)
    requires i < |dirs| && GetDest(parse(dirs[i])).Ok?
    requires Run(DirSteps(dirs[..i], parse)).outcome.Pass?
    ensures Run(DirSteps(dirs[..i + 1], parse)) ==
      Trace(Run(DirSteps(dirs[..i], parse)).entries + [DirTree(parse(dirs[i]), GetDest(parse(dirs[i])).value)], Pass)
  {
    assert DirSteps(dirs[..i + 1], parse) == DirSteps(dirs[..i], parse) + [DirStep(dirs[i], parse)];
    RunAppend(DirSteps(dirs[..i], parse), [DirStep(dirs[i], parse)]);
  }

  lemma DirFailure(dirs: seq<string>, files: seq<string>, parse: string -> Path, glob: string -> GlobResult, i: nat)
    requires i < |dirs| && GetDest(parse(dirs[i])).Err?
    requires Run(DirSteps(dirs[..i], parse)).outcome.Pass?
    ensures Run(BackupSteps(dirs, files, parse, glob)) ==
      Trace(Run(DirSteps(dirs[..i], parse)).entries, Fail(Dest(GetDest(parse(dirs[i])).error)))
  {
    var pre := DirSteps(dirs[..i], parse);
    var rest := DirSteps(dirs[i + 1..], parse) + FileSteps(files, glob);
    assert DirSteps(dirs, parse) == pre + [DirStep(dirs[i], parse)] + DirSteps(dirs[i + 1..], parse);
    assert BackupSteps(dirs, files, parse, glob) == pre + [Err(Dest(GetDest(parse(dirs[i])).error))] + rest;
    RunStops(pre, Dest(GetDest(parse(dirs[i])).error), rest);
  }

  /** The steps of the first `i + 1` patterns, and the whole plan around them. */
  lemma PatternGroup(dirs: seq<string>, files: seq<string>, parse: string -> Path, glob: string -> GlobResult, i: nat)
    requires i < |files|
    ensures DirSteps(dirs, parse) + FileSteps(files[..i + 1], glob) ==
      DirSteps(dirs, parse) + FileSteps(files[..i], glob) + PatternSteps(glob(files[i]))
  {
    FileStepsSplit(files, i, glob);
  }

  lemma PatternFailure(dirs: seq<string>, files: seq<string>, parse: string -> Path, glob: string -> GlobResult, i: nat)
    requires i < |files|
    requires Run(DirSteps(dirs, parse) + FileSteps(files[..i], glob) + PatternSteps(glob(files[i]))).outcome.Fail?
    ensures Run(BackupSteps(dirs, files, parse, glob)) ==
      Run(DirSteps(dirs, parse) + FileSteps(files[..i], glob) + PatternSteps(glob(files[i])))
  {
    var ds, before, group, after := DirSteps(dirs, parse), FileSteps(files[..i], glob), PatternSteps(glob(files[i])), FileSteps(files[i + 1..], glob);
    FileStepsSplit(files, i, glob);
    Regroup(ds, before, group, after);
    RunFailedPrefix(ds + before + group, after);
  }

  lemma Regroup(ds: seq<Step>, before: seq<Step>, group: seq<Step>, after: seq<Step>)
    ensures ds + (before + group + after) == ds + before + group + after
  {
  }
}
