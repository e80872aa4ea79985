# restic-interfacer: backup-target selection, modelled in Dafny

This project models the file-selection engine of the `restic-interfacer` crate,
`src/backup_target.rs`, and proves properties of the model. It also models the
argument lists that `src/lib.rs` builds for the external `restic` program.

The backup target has three parts:

- **Exclusion normalisation.** `new_from_string` turns each exclusion text `s`
  into the glob `**/` + `s`. `MyGlob` serialises a glob as its text and
  deserialises by re-parsing that text as it stands.
- **Classification.** `check_path_is_in_backup` puts a path in one of four
  outcomes. The source spells them `Irreverent`, `Contains`, `Included` and
  `Excluded`, and the model keeps that spelling.
- **Selection.** `generate_files` walks every folder depth-first without
  following links. An entry that matches the exclusion set is not inserted,
  and the walk is told to `skip_current_dir`. Every other entry goes into the
  path store.

## Layout

- `wrappers.dfy`: `Option` and `Result`.
- `paths.dfy`: paths made of a root flag plus normal components only; the `.`,
  `..` and prefix components of Rust's `std::path` have no representation. `starts_with`, `parent` and `ancestors` follow the standard
  library: every path starts with the empty path, and `"/"` and `""` have no
  parent.
- `globs.dfy`: globs, glob sets and the `MyGlob` serde pair. The globset crate
  is a `GlobEngine` parameter that says which texts parse and which paths a glob
  matches. Every result holds for any engine.
- `walk.dfy`: the walkdir iterator as a state value. It holds the root until the
  root is reported, plus a stack of lists of pending entries, innermost last.
  `next` reports entries in pre-order and opens each directory it reports.
  `skip_current_dir` drops the innermost list.
- `backup_target.dfy`: two modules.
  - `Targets` holds the `BackupTarget` class and the functions that specify
    its methods.
  - `TargetProperties` holds lemmas about those functions, including concrete
    scenarios.
- `restic.dfy`: `lib.rs`, with a `Command` builder class and the four
  invocations.

Canonicalisation reads the live filesystem, so each operation that
canonicalises takes `canon: Path -> Option<Path>`. This is what `canonicalize`
answers at that moment. Each panicking `expect`/`unwrap` on it becomes a
precondition. The filesystem below a walk root is a finite tree `Node`, looked up
by `fs: Path -> Node`.

## Behaviour of the code worth knowing

The model keeps each of these behaviours of the code as it stands.

- Every exclusion text gets the `**/` prefix, including absolute ones and ones
  with trailing separators. The serialised form is the prefixed text, and
  deserialising adds nothing (`Targets.ParseExclusions`, `Globs.Deserialize`,
  `TargetProperties.ExclusionsSurviveSerde`).
- `new_from_string` parses the exclusions before `new` canonicalises any
  folder, so a glob error is reported first. A folder that does not resolve is
  a panic, not an error value.
- The membership test canonicalises the queried path. The ancestor scan runs on
  the path as given. The containment test compares each canonicalised folder
  with the path as given, so a relative query never yields `Contains`
  (`TargetProperties.RelativePathNeverContains`). A folder that no longer
  resolves panics in the containment scan if the scan reaches it
  (`Targets.ScanSafe`).
- Calling `skip_current_dir` after a matching *file* abandons the rest of that
  file's directory, because walkdir pops its innermost open directory
  (`TargetProperties.ExcludedFileEndsItsDirectory`).
- The walk and the classifier agree when no path strictly above a folder
  matches: every canonical path the walks insert is then classified `Included`
  (`TargetProperties.SelectedIsIncluded`). Without that condition they can part
  ways. The classifier scans all ancestors up to the root, but each walk starts
  testing at its own folder. So a folder nested inside an excluded directory is
  walked and inserted, while the classifier calls it `Excluded`
  (`TargetProperties.NestedFolderReentersExcludedDir`).

## Model

| member | source | states |
|---|---|---|
| `Paths.Ancestors` | src/backup_target.rs:131 | `ancestors()` yields the path itself, then each parent in turn, down to the path with no parent: exactly one entry per prefix length |
| `Paths.AncestorsAreBeneath` | src/backup_target.rs:131 | a path is among the ancestors of `p` exactly when `p` lies beneath it |
| `Paths.StartsWith` | src/backup_target.rs:125 | `starts_with`, compared component by component: true exactly for the empty relative path and for the ancestors of the path, the path itself included |
| `Globs.GlobNew` | src/backup_target.rs:94 | `Glob::new` succeeds exactly on the texts the engine accepts, keeps the text, and reports the rejected text otherwise |
| `Globs.Serialize` | src/backup_target.rs:27-34 | a glob is written as its text, and any engine that accepted the glob parses that text back to the same glob |
| `Globs.IsMatch` | src/backup_target.rs:131 | `GlobSet::is_match`: true iff some glob of the set matches the path; an empty set matches nothing |
| `Globs.Deserialize` | src/backup_target.rs:45-59 | deserialising succeeds exactly on valid glob text, yields a glob whose serialisation is that same text, and otherwise fails with "String not glob" |
| `Globs.SerializeRoundTrip` | src/backup_target.rs:27-59 | a valid glob deserialises from its own serialisation unchanged |
| `Walk.NewWalk` | src/backup_target.rs:155-157 | `WalkDir::new(folder).into_iter()`: a new walk holds the root, with its node, as the only pending entry, and no directory is open |
| `Walk.Next` | src/backup_target.rs:155-159 | the walk ends exactly when nothing is pending. Each reported entry was pending, and only a reported directory adds its children. Skipping right after a directory leaves no more pending than before it was opened. Every report or error shrinks the remaining work |
| `Walk.SkipCurrentDir` | src/backup_target.rs:170 | skipping only removes pending entries and never adds work |
| `Targets.ParseExclusions` | src/backup_target.rs:89-95 | succeeds iff every `**/`+text parses, giving one glob per text in order. Otherwise it fails with the first text that does not parse |
| `Targets.CanonicalizeAll` | src/backup_target.rs:72-79 | one canonical folder per input folder, in input order |
| `Targets.FindsDescendant` | src/backup_target.rs:136-144 | the in-order containment scan is true iff some folder canonicalises to a path that starts with the query |
| `Targets.AnyAncestorMatches` | src/backup_target.rs:131 | true iff some prefix of the path, from the root to the path itself, matches the exclusion set |
| `Targets.WalkSelection` | src/backup_target.rs:159-177 | the reference definition of one folder's `while let` loop: every reported entry that does not match is inserted, a matching one calls `skip_current_dir`, and an error is passed over. A walk with nothing pending inserts nothing. `GenerateFiles`' inner loop is proved equal to it. `WalkSelectionSound` proves that nothing it inserts matches or lies under a match, and `UnreadableEntryPassedOver` is also about it |
| `Targets.Selected` | src/backup_target.rs:154-178 | the reference definition of the `for` loop over the folders, one walk after another into one store. No folders give an empty store. `GenerateFiles` is proved equal to it, `SelectedIsUnion` shows it is the union of the single walks, and `SelectedSound`, `PrunedSubtreeAbsent` and `SelectedIsIncluded` quantify over it |
| `Targets.SelectedIsUnion` | src/backup_target.rs:154-178 | a path is in the store exactly when some single folder's walk inserts it, so the folders' order does not matter |
| `Targets.ChildrenClear` | src/backup_target.rs:168-174 | the children of an inserted directory have no matching path between the walk root and themselves |
| `Targets.WalkSelectionSound` | src/backup_target.rs:159-177 | everything one walk inserts lies beneath its root, and neither the path nor any path between the root and it matches |
| `Targets.SelectedSound` | src/backup_target.rs:154-178 | everything the walks of all folders insert is selectable from some folder in that sense |
| `Targets.BackupTarget.constructor` | src/backup_target.rs:70-83 | `new` stores the canonical folders one for one and in order, and keeps globs and tags unchanged |
| `Targets.BackupTarget.NewFromString` | src/backup_target.rs:85-98 | fails iff some rewritten exclusion does not parse, with the first such error. On success the new target has the canonical folders, the `**/`-prefixed globs in order and the tags |
| `Targets.BackupTarget.AddFolder` | src/backup_target.rs:108-115 | appends exactly the canonical folder at the end, duplicates included. Exclusions and tags are unchanged |
| `Targets.BackupTarget.GetExclusionsAsGlobset` | src/backup_target.rs:100-106 | the set holds every exclusion in order, and matches a path iff some exclusion matches it |
| `Targets.BackupTarget.CheckPathIsInBackup` | src/backup_target.rs:117-149 | `Included` or `Excluded` iff some folder is a prefix of the canonical path. `Excluded` iff, in addition, some ancestor of the given path matches. `Contains` iff not inside and some canonicalised folder starts with the given path. `Irreverent` otherwise |
| `Targets.BackupTarget.GenerateFiles` | src/backup_target.rs:150-181 | the store is exactly what the walks of all folders insert, and every stored path is selectable from some folder |
| `TargetProperties.NoExcludedPathInserted` | src/backup_target.rs:168-175 | no inserted path matches the exclusion set, and every inserted path starts with some folder |
| `TargetProperties.PrunedSubtreeAbsent` | src/backup_target.rs:168-171 | nothing beneath a matching path is inserted when every folder it lies beneath lies above that matching path |
| `TargetProperties.SelectedIsIncluded` | src/backup_target.rs:117-181 | a canonical path that the walks insert is classified `Included`, provided nothing strictly above a folder matches |
| `TargetProperties.NoExclusionsNothingExcluded` | src/backup_target.rs:129-135 | with no exclusions the glob set matches nothing, so every path inside the target is `Included` |
| `TargetProperties.RelativePathNeverContains` | src/backup_target.rs:136-148 | a non-empty relative query is never `Contains` when every folder canonicalises to an absolute path, and the containment scan cannot panic then |
| `TargetProperties.ExclusionsSurviveSerde` | src/backup_target.rs:27-59 | a `new_from_string` exclusion deserialises from its serialisation as `**/`+text, prefixed once |
| `TargetProperties.UnreadableEntryPassedOver` | src/backup_target.rs:160-166 | an unreadable entry changes nothing in what the rest of the walk inserts |
| `TargetProperties.NestedFolderReentersExcludedDir` | src/backup_target.rs:154-171 | for folders /data and /data/cache/keep with `cache` excluded, /data/cache/keep is inserted, yet it is classified `Excluded` |
| `TargetProperties.ExcludedFileEndsItsDirectory` | src/backup_target.rs:168-171 | in /data holding a.log then b.txt, with only a.log matching, only /data is inserted |
| `Restic.B2PathString` | src/lib.rs:39-43 | the B2 locator is "b2:", the bucket name, ":", then the repository path, at those positions |
| `Restic.CreatePathString` | src/lib.rs:24-31 | a local repository's locator is its path unchanged, and a B2 repository's is the B2 locator |
| `Restic.B2LocatorDeterminesConfig` | src/lib.rs:41 | two B2 configurations whose bucket names contain no ':' and whose locators are equal are the same configuration |
| `Restic.ExcludeFlagsAt` | src/lib.rs:110-113 | the exclusion arguments are twice as many as the exclusions, each `--exclude` followed by its exclusion, in order |
| `Restic.Command.constructor` | src/lib.rs:60 | `Command::new`: the program is set, with no environment overrides and no arguments |
| `Restic.Command.Arg` | src/lib.rs:63 | adding an argument appends it and leaves the environment unchanged |
| `Restic.Command.Env` | src/lib.rs:62 | setting a variable updates only that key and leaves the arguments unchanged |
| `Restic.ResticConfig.BackupArgsLayout` | src/lib.rs:101-113 | the backup list has 4 + #folders + 2·#exclusions entries: `-r`, locator, `--json`, `backup`, then the folders in order, then `--exclude`, exclusion pairs in order |
| `Restic.ResticConfig.CmdSetup` | src/lib.rs:59-68 | runs `restic`, inheriting the environment and overriding only `RESTIC_PASSWORD` with the repository password, with arguments exactly `-r`, locator |
| `Restic.ResticConfig.CheckResticRepo` | src/lib.rs:70-76 | arguments are the base plus `check`. The result is the exit status's success, or the spawn error |
| `Restic.ResticConfig.CreateResticRepo` | src/lib.rs:78-88 | arguments are the base plus `init`. `Ok` exactly when restic exits successfully, `ResticRepoNotFound` on a failing exit |
| `Restic.ResticConfig.GetResticSnapshots` | src/lib.rs:90-99 | arguments are the base plus `--json`, `snapshots`. The result is always an empty list once spawned |
| `Restic.ResticConfig.ResticBackup` | src/lib.rs:101-120 | arguments are exactly the backup list. `Ok` once spawned, otherwise the "Failed to backup" error |

## Left out

- Targets.BackupTarget.GenerateFiles: proves only that what is inserted is selectable. It does not prove that every entry a correct walk should reach is inserted, because that depends on walkdir's internal order.
- Real canonicalisation, which is the `canon` parameter, and the parsing of path text into components.
- Paths with `.`, `..` or a Windows prefix component cannot be written in the model. Such a query matters because the ancestor scan and the containment test of `check_path_is_in_backup` use the raw path without normalising it. For example, `/data/cache/../a.txt` canonicalises to `/data/a.txt`, yet its raw ancestors include `/data/cache`. Queries like this are outside the model.
- Glob syntax and matching of the globset crate, which is the `GlobEngine` parameter. A failure of `GlobSetBuilder::build`, which the source unwraps, is assumed never to happen.
- walkdir beyond `next`, `skip_current_dir` and entry paths. A directory whose listing cannot be read is modelled as a directory holding one unreadable entry. Links are leaves, including a walk root that is a link, which walkdir follows even with `follow_links(false)`. Folders are stored canonical, so a root is a link only if the filesystem changed after the folder was added.
- `filepath_tree::PathStore` is a set of paths. A failing `add_path`, which the source `expect`s, is not modelled.
- Spawning processes, exit statuses and captured output. The outcome of running a command is an input.
- Logging through `println!` and `eprintln!`.
- The derived serde of the whole `BackupTarget` struct; only the hand-written `MyGlob` pair is modelled. The `Deref` impl for `MyGlob` and `ResticConfig::new` are plain wrappers.
- `src/errors.rs`, `src/restic_outputs.rs` and `src/bin/runner.rs` are not part of this model. They hold error boilerplate, record declarations and a demo `main`.
- Integer widths do not arise. Strings are sequences of characters, with no OS-string encoding.
