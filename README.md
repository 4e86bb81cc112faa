# savedata-backup, modelled in Dafny

savedata-backup is a small Windows tool that backs up game save data in two
phases.

- **Search** (`src/search.rs`). The tool walks each directory named in a
  search list. Every entry whose lower-cased file name contains `sav`
  contributes a candidate directory: a matching file contributes its parent,
  and a matching directory contributes itself. The candidates go into a
  `BTreeSet<PathBuf>`, which sorts them component by component. A single
  forward pass then keeps only the candidates that no other candidate
  contains, using one pointer to the last accepted path. The results are
  written to the target list, one path per line.
- **Backup** (`src/backup.rs`). The tool reads the target-directory and
  target-file lists and builds a tar archive. Each listed directory, and then
  each match of each listed glob pattern, is appended under a destination
  path. `get_dest` builds that destination by replacing the drive prefix and
  the root with a one-letter directory named after the drive (`E:\Saves\Game1`
  becomes `E\Saves\Game1`).

The Dafny project has seven files.

- `wrappers.dfy`: `Option`, `Result`, and `Outcome` (pass or fail).
- `ordering.dfy`: lexicographic order over sequences, prefixes, and the
  generic facts the reduction relies on. A sequence sorts before each of its
  extensions, and anything that sorts between a sequence and one of its
  extensions is itself an extension.
- `paths.dfy`: a Windows path as the sequence of `std::path::Component`s,
  with the ordering Rust derives for it. Also `starts_with`, `parent`, and
  the rendering of a path as text.
- `sorted_set.dfy`: the `BTreeSet` as a strictly ascending sequence.
- `lines.dfy`: `BufRead::lines`, modelled over decoded text units, and the
  "one entry plus `\n` per line" writing format.
- `search.dfy`: the match predicate, the candidate pipeline, the reduction
  loop, the writing of the list, and `save_archive_candidates`.
- `backup.dfy`: `get_dest`, `read_paths_from_file`, and `backup` itself.
  `backup` is a method over an `Archive` object whose entry log only grows.

**How the reduction is proved.** The loop in `SearchArchiveTargets` is
proved equal to `Roots`, a declarative definition: the members of the set
that have no strict ancestor in the set. The loop invariant says the output
so far is `Roots` restricted to the prefix already visited. The key fact is
that in component order a path's descendants form one contiguous run right
after it. So the last accepted path is an ancestor of the next candidate
exactly when some earlier candidate is (`AcceptStep`). Sortedness, no
nesting, coverage, the empty case and idempotence are all proved about
`Roots`.

**Line endings.** `lines()` splits at `\n` and drops one `\r` right before
it, and keeps a last line that has no newline. `ReadSplits` and
`ReadJoined` state this completely: every text is exactly its lines, each
followed by `\n`, `\r\n` or the end of the file, and any such layout reads
back as its lines. So a list saved with Windows line endings reads as the
same paths.

**How the backup is proved.** Each step the program attempts is an
`Ok(entry)` or an `Err(reason)`. `BackupSteps` lists all steps in program
order: every directory first, then every match of every pattern. `Run`
carries the steps out: the archive gets the entries up to the first error,
and that error ends the run. The method `Backup` is proved to leave exactly
`Run(BackupSteps(...))` in its archive. The lemmas state what that means:
the order of the entries, and that any failure aborts the run.

**What `get_dest` keeps.** `src/backup.rs:77` strips exactly the first two
components, so every directory after the root is kept:
`D:\Root\sub\file.txt` becomes `D\Root\sub\file.txt`
(`GetDestKeepsFirstDirectory`). The second component is never checked to be
a root, so `C:foo\bar` becomes `C\bar` (`GetDestDropsAnySecond`). A UNC or
device prefix (`\\server\share`, `\\.\COM1`) parses with a root of its own,
so stripping it removes the root too. The second `strip_prefix` then fails
and `get_dest` returns that error before it ever reaches the "not disk"
check (`GetDestUncFails`).

**Panics.** The source uses `unwrap()` and `panic!` on these paths: a
missing component, "not disk", a drive letter that is not UTF-8, an
undecodable line, an unreadable glob entry. A failing `strip_prefix`
returns an error through `?`. Each one ends the run, so each
is modelled as an error value that ends the run. `?` errors are modelled the
same way.

## Model

| member | source | states |
|---|---|---|
| Search.EntryFileName | src/search.rs:45 | walkdir's `file_name`: the last component when it is a name, otherwise the text of the whole path |
| Search.IsMatch | src/search.rs:44-49 | The filter: the lower-cased file name contains `sav` |
| Search.MatchIgnoresCase | src/search.rs:44-49 | A file name matches exactly when it contains `s`,`a`,`v` consecutively in any mix of upper and lower case |
| Search.Contribution | src/search.rs:50-62 | A walk item yields a path exactly when it is a (non-error) entry whose name matches and that is a directory, or a file with a parent; a directory yields itself; a file yields its parent, which is one component shorter and a prefix of the file's path |
| Search.Contributions | src/search.rs:43-62 | The `filter_map`/`filter`/`filter_map` chain: each walk item's contribution, in walk order |
| Search.ContributionsMember | src/search.rs:41-62 | A path is among the contributed paths exactly when some walk item (errors dropped) contributes it |
| Search.Candidates | src/search.rs:41-63 | The collected set is strictly ascending (so free of duplicates) and holds exactly the paths some walk item contributes |
| Search.Roots | src/search.rs:69-79 | The declarative meaning of the reduction: the members of the set that start with no other member (no strict ancestor in the set) |
| Search.SearchTargets | src/search.rs:40-82 | What `search_archive_targets` returns for one walk: `Roots` of the collected set |
| Search.IsParent | src/search.rs:120-127 | True exactly when there is an accepted path and `dir` starts with it component-wise |
| Search.IsParentWholeComponents | src/search.rs:122 | `\data\save2` is not under `\data\save`: the test compares whole components, not text |
| Search.KeepRoots | src/search.rs:69-79 | The kept paths are exactly those of the visited range without a strict ancestor in the set, and never more than were visited |
| Search.SearchArchiveTargets | src/search.rs:40-82 | The single-pointer loop returns exactly `Roots` of the sorted candidates |
| Search.AcceptStep | src/search.rs:71-78 | At each step the last accepted path is an ancestor of `dir` exactly when some member of the set is a strict ancestor of `dir` |
| Search.ReduceStep | src/search.rs:71-78 | One iteration extends the reduction of the visited prefix by `dir` exactly when `is_parent` is false |
| Search.SkippedIsNested | src/search.rs:72-74 | A skipped path has a strict ancestor in the set |
| Search.NestedIsSkipped | src/search.rs:72-74 | A path with a strict ancestor in the set is skipped |
| Search.AncestorBefore | src/search.rs:63-72 | In the ascending set every strict ancestor of an element comes before it |
| Search.RootsSorted | src/search.rs:69-81 | The output is strictly ascending and every output path belongs to the set, i.e. an order-preserving subsequence |
| Search.RootsNoNesting | src/search.rs:63-79 | No output path starts with a different output path |
| Search.RootsCover | src/search.rs:71-78 | Every path of the set has an output path as ancestor-or-self, and that output path is unique |
| Search.RootsEmpty | src/search.rs:69-81 | The output is empty exactly when the set is empty |
| Search.NestingFreeFixed | src/search.rs:69-81 | A nesting-free sequence is left unchanged by the reduction |
| Search.RootsIdempotent | src/search.rs:63-81 | Collecting the output into a set and reducing again gives the same output |
| Search.SearchTargetsMeaning | src/search.rs:40-82 | A path is returned exactly when some walk item contributes it and no other contributed path contains it; the result is ascending and nesting-free, and covers every contributed path |
| Search.RenderLineSafe | src/search.rs:95-97 | A path whose components hold no newline and no `\r` renders as a line that `lines()` reads back unchanged |
| Search.SaveDirs | src/search.rs:95-98 | The written text is every target's text followed by `\n`, in order; for line-safe targets, reading it back with `lines()` gives the list of targets' texts |
| Search.Flatten | src/search.rs:31 | `flatten`: the groups' elements, group after group |
| Search.AllTargets | src/search.rs:28-32 | The targets of every listed search directory, concatenated in list order |
| Search.FlattenMember | src/search.rs:28-32 | An element is in the flattened list exactly when it is in one of the groups |
| Search.AllTargetsMember | src/search.rs:28-32 | A path is written exactly when it is a target of one of the listed search directories |
| Search.SaveArchiveCandidates | src/search.rs:13-37 | A missing search list fails "not found"; an unopenable one fails on open; an undecodable line fails; otherwise the written text is the concatenated targets of every listed directory, one per line, and for line-safe targets reads back as those lines |
| SortedSet.Insert | src/search.rs:63 | Inserting into an ascending set keeps it ascending and adds exactly the new path |
| SortedSet.FromSeq | src/search.rs:63 | Collecting into the set gives an ascending sequence with exactly the collected paths |
| SortedSet.SortedUnique | src/search.rs:63 | Two ascending sequences with the same members are equal, so the set is determined by its members |
| SortedSet.FromSortedSeq | src/search.rs:63 | Collecting an already ascending sequence returns it unchanged |
| Paths.PathLess | src/search.rs:63 | `Ord for Path`: lexicographic over components, components ranked in declaration order and then by payload |
| Paths.StartsWith | src/search.rs:122 | `Path::starts_with`: the base is a leading run of whole components |
| Paths.PathLessIrreflexive | src/search.rs:63 | No path sorts before itself |
| Paths.PathLessTransitive | src/search.rs:63 | The path order is transitive |
| Paths.PathLessTrichotomous | src/search.rs:63 | Any two distinct paths are ordered one way or the other |
| Paths.PathLessAsymmetric | src/search.rs:63 | No two paths each sort before the other |
| Paths.PrefixKindOrder | src/search.rs:63 | The derived order on volume prefixes is a strict total order |
| Paths.ComponentOrder | src/search.rs:63 | The derived order on components is a strict total order |
| Paths.AncestorSortsFirst | src/search.rs:63-72 | A path sorts strictly before each of its descendants |
| Paths.DescendantsContiguous | src/search.rs:63-74 | A path that sorts between a path and one of its descendants is itself a descendant of (or equal to) that path |
| Paths.Parent | src/search.rs:52 | A parent exists exactly when the last component is a name, `.` or `..`; it is the path minus its last component |
| Paths.Render | src/search.rs:96 | The text of a path: components joined by `\`, with no separator after a prefix or root |
| Paths.RenderChars | src/search.rs:96 | A character other than the separator appears in a path's text only if some component's text holds it |
| Ordering.PrefixBetween | src/search.rs:63-74 | Under a lexicographic order, anything between a sequence and one of its extensions is also an extension |
| Ordering.PrefixLexLess | src/search.rs:63-72 | A sequence sorts strictly before each of its proper extensions |
| Lines.ReadLines | src/backup.rs:56-68 | Reading succeeds exactly when every unit decodes; otherwise it fails with invalid data; no line contains a newline |
| Lines.ReadSplits | src/backup.rs:56-68 | Any decodable text is exactly the lines read, each followed by the `\n`, `\r\n` or end of file it had, in a layout where only a non-empty last line can lack a newline and no line before a bare `\n` ends in `\r` |
| Lines.ReadJoined | src/backup.rs:56-68 | Any lines written in such a layout, with `\n`, `\r\n` or no final newline, read back as exactly those lines |
| Lines.ReadOneLine | src/backup.rs:56-68 | One line with its ending reads as that line followed by the reading of the rest |
| Lines.ReadFirstCrlfLine | src/backup.rs:56-68 | A line ended by `\r\n` is read without the `\r` |
| Lines.ReadLastLine | src/backup.rs:56-68 | A last line with no newline after it is read unchanged |
| Lines.CrlfExample | src/backup.rs:56-68 | `a\r\nb\r\nc` reads as `a`, `b`, `c` |
| Lines.Terminated | src/search.rs:95-98 | The text `save_dirs` writes: each entry followed by `\n` |
| Lines.ReadTerminated | src/search.rs:95-98 | A list of line-safe entries, written one entry plus `\n` per line, reads back as the same list |
| Lines.TerminatedRead | src/backup.rs:54-70 | A newline-terminated text with no `\r` right before a newline reads into lines that, rewritten one per line with `\n`, give back the text |
| Lines.TerminatedSnoc | src/search.rs:95-98 | Writing one more entry appends exactly that entry's line to the text |
| Backup.GetDest | src/backup.rs:73-89 | Fails exactly when there are fewer than two components, the first is a UNC or device prefix (the second `strip_prefix` fails), the first is no disk prefix, or the drive letter is not ASCII, in that order of precedence; on success the result is the drive-letter directory followed by every component after the first two, one component shorter than the source |
| Backup.Restore | src/backup.rs:73-89 | The inverse of `get_dest`: a destination starting with a one-letter ASCII directory is restored to a source that `get_dest` maps back to it, and only such destinations are |
| Backup.GetDestReassembles | src/backup.rs:73-89 | On success, the source's first two components followed by the result's tail are the source; with a root second component, restoring the result gives the source |
| Backup.GetDestRelative | src/backup.rs:77-87 | For a well-formed source the stripped remainder holds no prefix or root, so `join` appends it |
| Backup.GetDestUncFails | src/backup.rs:77 | `\\server\share\x` fails at the second `strip_prefix` |
| Backup.GetDestExample | src/backup.rs:73-89 | `E:\Saves\Game1` becomes `E\Saves\Game1` |
| Backup.GetDestKeepsFirstDirectory | src/backup.rs:77 | `D:\Root\sub\file.txt` becomes `D\Root\sub\file.txt` |
| Backup.GetDestDropsAnySecond | src/backup.rs:76-77 | `C:foo\bar` becomes `C\bar`: the second component is dropped whatever it is |
| Backup.ReadPathsFromFile | src/backup.rs:54-71 | A missing file fails "not found", an unopenable one fails on open, a present one reads exactly when it decodes; no returned line holds a newline |
| Backup.ListRoundTrip | src/backup.rs:54-70 | Line-safe paths written one per line read back as the same list; a newline-terminated text with no `\r` before a newline reads as lines that rewrite to it |
| Backup.ReadListOrEmpty | src/backup.rs:15-27 | A missing list is the empty list; any other file is read as `read_paths_from_file` reads it |
| Backup.NoListsEmptyArchive | src/backup.rs:15-52 | With both lists missing the backup succeeds with an empty archive |
| Backup.BackupSteps | src/backup.rs:36-49 | Everything the two loops attempt, in order: one step per listed directory, then the steps of each pattern's matches |
| Backup.Run | src/backup.rs:36-49 | Carrying out steps in order: the entries of the steps before the first failure, and that failure or a pass |
| Backup.RunMeaning | src/backup.rs:36-49 | The archive holds the entries of the leading successful steps in order; a passing run carries out every step; a failing run stops at the first failing step with its error |
| Backup.RunAppend | src/backup.rs:36-49 | Running two step lists one after another, when the first passes, concatenates their entries |
| Backup.BackupOrder | src/backup.rs:36-49 | Every directory entry precedes every file entry; the `j`-th directory entry is the `j`-th listed directory under its `get_dest` destination |
| Backup.DirDestFailureAborts | src/backup.rs:36-41 | A listed directory whose destination fails aborts the backup with no more entries than the directories before it |
| Backup.FileFailureAborts | src/backup.rs:43-48 | A bad pattern, unreadable glob entry, or failing destination for a match aborts the backup |
| Backup.FileStepsAppend | src/backup.rs:43-49 | The file loop over two lists, one after the other, is the file loop over the first followed by the file loop over the second |
| Backup.Archive.constructor | src/backup.rs:34 | A new builder holds no entries |
| Backup.Archive.AppendDirAll | src/backup.rs:40 | Appends one directory-tree entry to the log and changes nothing else |
| Backup.Archive.AppendPathWithName | src/backup.rs:47 | Appends one file entry to the log and changes nothing else |
| Backup.AppendMatches | src/backup.rs:44-48 | Processing one pattern's matches lazily leaves the archive and outcome of running those steps after the earlier ones |
| Backup.Backup | src/backup.rs:12-52 | An unreadable list fails before any archive exists; otherwise the fresh archive and the outcome are exactly those of running all directory steps then all file steps |

## Left out

- Parsing text into path components is not modelled. The listed lines
  become paths through a `parse` parameter, and a component sequence
  stands in for each `PathBuf`.
- The directory walk (`WalkDir`) is an input: a sequence of entries and
  errors per search directory, given by a `walkOf` parameter.
- Search.IsMatch: lower-casing covers ASCII letters only, and
  `to_string_lossy` is not modelled. Full Unicode case mapping is outside
  the model.
- Search.SaveDirs: a path's text is a canonical rendering of its
  components (`C:\a\b`). It is not the exact string the path was built
  from. Write errors (`unwrap` on the writer) are not modelled.
- The creation of an empty target-file list when none exists
  (`src/search.rs:102-111`) is filesystem side effect only. Opening,
  truncating and flushing files are also not modelled.
- `glob` expansion is a `glob` parameter that maps a pattern to either a
  pattern error or a lazy sequence of matches and unreadable entries.
- Backup.Backup: does not model I/O failures of creating `archive.tar` or
  of the tar appends themselves (`?` and `unwrap` at
  `src/backup.rs:29-33`, `40` and `47`). The tar builder is an append-only
  log of (source, destination) entries.
- Backup.GetDest: works on components, not on text. `strip_prefix` returns
  the rest of the original text, which is parsed again. After a doubled
  separator (`C:\\x\y`), that text starts with `\\` and parses as a UNC
  prefix, so the source's second `strip_prefix` fails. The model sees
  `[C:, \, x, y]` and succeeds.
- Search directories are reduced one at a time and their results
  concatenated, as `src/search.rs:28-32` does. No reduction is claimed
  across directories.
- `src/main.rs` (argument parsing, configuration discovery), `src/context.rs`
  (a record of four paths, here separate parameters) and `src/check.rs`
  (directory sizes and printing) are not part of this model.
