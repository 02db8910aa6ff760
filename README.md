# Biggity copy engine, modelled in Dafny

Biggity is an interactive backup script. It copies a source volume into a
destination directory and keeps each file's path relative to the source. It
skips directories that hold no files, and it prunes the relative paths listed
in an ignore list. At the end it reports how much it copied, in megabytes.
If the source volume has a `Users` directory at its root, it splits the
backup in two. User profiles are copied first, into `7Profiles`. Everything
else is copied afterwards, into `Root`, with `Users` pruned from that second
pass.

This project models the copy engine: `basic_backup`, `windows_backup`, and
the main block's choice between them. Line numbers refer to `biggity.rb`.

- `Paths`: paths are sequences of names. The module also gives the string
  form that the ignore list is matched against ("." for the root, names
  joined with "/" below it).
- `SourceTree`: the source volume is a value that never changes. It is a tree
  of `File(name, size)` and `Dir(name, children)` nodes. The order of a
  directory's children is the order in which `Find.find` lists them.
  `Visit` gives the regular files the pruned walk reaches. `AllFiles` is an
  independent reference definition that prunes nothing.
- `Destination`: the destination file system is a `Volume` object. Its
  `files` map and `dirs` set are changed in place, and only by `MkPath`
  (`FileUtils.mkpath`) and `CopyInto` (`FileUtils.cp`). It has a fixed
  `Device`, which gives the name-length and path-length limits behind
  ENAMETOOLONG. Every other error `cp` can raise is given by where it
  happens. The device names the targets whose source file cannot be opened
  (permission denied, I/O error). It also names the targets at which writing
  fails (disk full, I/O error), with the size of the partial file left
  behind. `CopyStatusAt` is the behaviour assumed of a single `cp`, in the
  order `cp` works. It opens the source first, then creates or truncates the
  target (where the kernel may refuse the name), then writes. The copy
  succeeds only when all three steps pass.
- `TreeCopier`: `RunPass` is the pure specification of a `basic_backup`
  pass: the disk it leaves behind and the result it returns. `BasicBackup`
  is the walk itself. Like `Find.find`, it keeps a work list of pending
  entries, updates the volume in place, and keeps a running `total`. It is
  proved to produce exactly `RunPass`.
- `ProfileBackup`: `WindowsBackup`, `Backup` (the main block), their pure
  specifications `WindowsPass` and `BackupPass`, and the conversion to
  megabytes.

An exception the script does not rescue ends the run through `logfatal`.
The model returns it as `Fatal(at)`, and the main block then reports
`Aborted(at)`. Two kinds of error escape `basic_backup`:

- `mkpath` of a destination parent directory that is too long. Line 90 sits
  outside the `begin`/`rescue`, so this ENAMETOOLONG is fatal. `mkpath`
  creates the directories from the top down and raises at the first one the
  device refuses (`FirstRefused`), so `at` is that directory.
- Any `cp` error other than ENAMETOOLONG. A source that cannot be opened
  raises before the target's name is tested, so it is fatal even when the
  target is too long. A failed write leaves the target created, truncated
  or partly written, so an earlier file at that path is lost. `at` is the
  target.

ENAMETOOLONG raised by `cp` itself is rescued. The file is skipped and the
walk goes on.

Where the code and its comment disagree, the model follows the code. The
comment at line 101 says the total grows only when the copy succeeds. But the
addition at line 102 comes after the `rescue`, so a file refused with
ENAMETOOLONG is still counted. `RunPass` counts it. `TotalCountsSkipped`
proves that the total is the copied bytes (`CopiedBytes`, the figure the
comment describes) plus the skipped bytes. `SkippedFileStillCounted` gives a
concrete case: a file that is not written, yet its 10 bytes are reported.

## Model

| member | source | states |
|---|---|---|
| `Paths.RelStringOfName` | biggity.rb:79-82 | The relative-path string of a path equals a valid name exactly when the path is that one-segment path. Ignore matching is exact equality, not a prefix or glob test, and the root's "." never matches a name. |
| `SourceTree.Lookup` | biggity.rb:50 | `File.join(dir, name)` finds a child exactly when some child has that name. What it returns is such a child. |
| `SourceTree.LookupUnique` | biggity.rb:50 | Among children with distinct names, `File.join(dir, name)` finds exactly the child with that name. |
| `SourceTree.VisitIsPrunedWalk` | biggity.rb:74-84 | Pruning is exact and recursive. The pruned walk equals the unpruned walk minus every file that has an ignored entry on its path (or is itself ignored), with order kept. |
| `SourceTree.VisitDistinct` | biggity.rb:74-84 | In a well-formed tree the walk never reaches the same relative path twice. |
| `SourceTree.PruneNameIsOutside` | biggity.rb:82 | With the ignore list `[name]`, the walk reaches exactly the files outside the top-level directory `name`. |
| `SourceTree.WithinChild` | biggity.rb:50 | The files inside the top-level directory `name` are exactly the files of the one child with that name, with `name` prefixed to their paths. |
| `Destination.MkPathDirs` | biggity.rb:90 | `mkpath(p)` creates only directories on the way to `p` that the device accepts. When `p` fits, it creates all of them. |
| `Destination.Volume.MkPath` | biggity.rb:90 | Succeeds exactly when the device accepts the path. The new state is the old state with the `mkpath` directories added. Files are never touched. |
| `Destination.FirstRefused` | biggity.rb:90 | The directory at which `mkpath` of a refused path raises: a prefix of the path that the device refuses, with every shorter prefix from the starting point accepted. |
| `Destination.Volume.CopyInto` | biggity.rb:96 | Writes the file under its own name in the directory on success, replacing any file already there. When the write fails, it leaves the partial file at the target instead. When the source cannot be opened or the name is refused, no file changes. Directories are not changed. |
| `TreeCopier.CopyStepOnDisk` | biggity.rb:86-99 | One file's step changes no file but its target. The target holds the file's size when the step goes on and `cp` writes it. It holds the partial size when a failed write ends the run. It is left as it was when `mkpath` raises, the source cannot be opened, or the name is refused. Directories only grow, and only along the destination parent, which exists whenever the step goes on. |
| `TreeCopier.CopyOne` | biggity.rb:86-99 | The loop body for one file (`mkpath` of the parent, then `cp` under the base name): its effect on the volume and its result are exactly `CopyStep`. |
| `TreeCopier.Advance` | biggity.rb:74-103 | One turn of the `Find.find` loop: the front entry is pruned, expanded into its listed entries, or copied. The work left shrinks, and the rest of the pass, with the running total, yields what it did before the turn. If the copy raised, the pass ends exactly where `RunPass` ends it. |
| `TreeCopier.BasicBackup` | biggity.rb:72-105 | The work-list walk leaves the volume in the state `RunPass` gives for the pruned walk of the tree, and returns the same outcome. |
| `TreeCopier.RunPassOutcome` | biggity.rb:92-104 | A pass completes exactly when no walked file fails fatally. It then returns the sum of the sizes of all walked files, including those refused with ENAMETOOLONG. |
| `TreeCopier.RunPassAborts` | biggity.rb:95-99 | An aborted pass stops at the first file that fails fatally, at that file's fatal path. Every earlier file was handled without a fatal error. |
| `TreeCopier.TotalCountsSkipped` | biggity.rb:101-102 | The returned total equals the bytes actually copied plus the bytes of the files skipped for ENAMETOOLONG. |
| `TreeCopier.SkippedFileStillCounted` | biggity.rb:95-102 | A concrete pass: a file refused with ENAMETOOLONG is not written, yet its 10 bytes are in the total, and the copied bytes are 0. |
| `TreeCopier.RunPassPreserves` | biggity.rb:90-96 | No directory disappears. A destination file that is no walked file's target keeps its size. |
| `TreeCopier.RunPassWritesOnlyTargets` | biggity.rb:86-96 | Every file the pass adds or changes is at `dest` joined with a walked file's relative path. Either that copy succeeded, or its write failed and the pass ended there with `Fatal` at that path. |
| `TreeCopier.RunPassLeavesAlone` | biggity.rb:86-96 | A part of the destination that no walked file targets is left exactly as it was: no file at or below it appears, vanishes or changes. |
| `TreeCopier.TooLongNeverWritten` | biggity.rb:95-98 | A target the device refuses with ENAMETOOLONG never appears on the destination. |
| `TreeCopier.RunPassDirsOnlyParents` | biggity.rb:86-90 | Every new directory is the destination parent of a walked file, or lies above it. |
| `TreeCopier.EmptySubtreeNotMirrored` | biggity.rb:84-90 | A source subtree with no walked file gets no directory at or below its mirrored destination path. |
| `TreeCopier.RunPassLands` | biggity.rb:86-96 | When the pass completes and the relative paths are distinct, every file that was copied sits at `dest` joined with its relative path, with its recorded size, and its mirrored parent directory exists. |
| `TreeCopier.BasicBackupTotal` | biggity.rb:72-105 | A completed `basic_backup` returns the bytes of every regular file of the tree that has no ignored entry on its path. |
| `TreeCopier.BasicBackupMirrors` | biggity.rb:72-105 | On a well-formed tree, a completed `basic_backup` leaves every file it copied at its mirrored path, with its size, inside its mirrored parent directory. |
| `ProfileBackup.Megabytes` | biggity.rb:216 | `total / 1024 / 1024` is the floor of the total divided by 1024 * 1024. |
| `ProfileBackup.WindowsVolumeDetection` | biggity.rb:207 | On a well-formed tree, profile mode is chosen exactly when the root has a directory named `Users`. |
| `ProfileBackup.WindowsSplitsOnce` | biggity.rb:62-63 | The root pass reaches no file inside `Users`, and it reaches exactly the files outside it. The `Users` pass reaches exactly the files inside `Users`. |
| `ProfileBackup.WindowsTotal` | biggity.rb:62-65 | A completed profile backup returns U + R: the bytes of every file of the volume, each counted once. |
| `ProfileBackup.WindowsProfilesLand` | biggity.rb:62-63 | On a well-formed volume, after a completed profile backup, every `Users` file the device accepts sits under `7Profiles` at its path below `Users`, with its size. The root pass does not touch it. |
| `ProfileBackup.WindowsRootSkipsUsers` | biggity.rb:62-63 | Whether or not the profile backup completes, it adds, removes and changes no file at or below `Root/Users` on the destination. |
| `ProfileBackup.WindowsCreatesBoth` | biggity.rb:54-58 | `7Profiles` and `Root` both exist afterwards, even if nothing is copied into them, unless the device refuses those paths. |
| `ProfileBackup.WindowsBackup` | biggity.rb:49-66 | The run creates `7Profiles` and `Root`, then the `Users` pass, then the root pass that ignores `Users`. It returns the sum of the two totals. Its state and result are exactly `WindowsPass`. |
| `ProfileBackup.CopyProfiles` | biggity.rb:62-65 | The two `basic_backup` calls of `windows_backup` and their sum: state and result are exactly `ProfilePasses`. |
| `ProfileBackup.TwoBackups` | biggity.rb:62-65 | Two `basic_backup` calls one after the other: the second starts from the disk the first left, it does not run if the first raised, and the result is the sum of the two totals. |
| `ProfileBackup.Backup` | biggity.rb:207-216 | The mode choice, the backup and the megabyte report. The state and the report are exactly `BackupPass` and `ReportOf`. |
| `ProfileBackup.BackupTotal` | biggity.rb:207-216 | In either mode, a completed backup returns the bytes of every file on the volume, and it reports that figure rounded down to megabytes. |
| `Paths.RelString` | biggity.rb:79-82 | definition, no contract: `rel_path.to_path`, the string the ignore list is matched against. |
| `Paths.Parent` | biggity.rb:86-87 | definition, no contract: `File.dirname(rel_path)`, the source file's directory relative to the source root. |
| `Paths.Base` | biggity.rb:96 | definition, no contract: the base name `cp` gives the copy inside the destination directory. |
| `SourceTree.Visit` | biggity.rb:74-84 | definition, no contract: the regular files `Find.find` reaches below a node, with pruning and the `File.file?` test. |
| `SourceTree.VisitIn` | biggity.rb:74-84 | definition, no contract: the same walk over a directory's entries in listing order. |
| `Destination.TooLong` | biggity.rb:90-98 | definition, no contract: when the device answers ENAMETOOLONG, for `mkpath` and for `cp`. |
| `Destination.MkPathOn` | biggity.rb:90 | definition, no contract: `FileUtils.mkpath` applied to a disk. |
| `Destination.CopyStatusAt` | biggity.rb:95-99 | definition: the assumed outcome of one `cp`. Its ensures only spell out, for callers, when each status arises. |
| `TreeCopier.CopyStep` | biggity.rb:86-99 | definition: one iteration of the loop for a regular file. Its ensures only restate, for callers, when it raises and where; `CopyStepOnDisk` states its effect. |
| `TreeCopier.RunPass` | biggity.rb:73-104 | definition, no contract: the whole `basic_backup` pass over the walked files, with the running total. |
| `ProfileBackup.IsWindowsVolume` | biggity.rb:207 | definition, no contract: the mode test of the main block. |
| `ProfileBackup.WindowsPass` | biggity.rb:49-66 | definition, no contract: `windows_backup`, from the two `mkpath` calls to the sum. |
| `ProfileBackup.ProfilePasses` | biggity.rb:62-65 | definition, no contract: the two passes of `windows_backup`. |
| `ProfileBackup.TwoPasses` | biggity.rb:62-65 | definition, no contract: two passes one after the other, and the sum of their totals. |
| `ProfileBackup.BackupPass` | biggity.rb:207-214 | definition, no contract: the main block's choice between the two modes. |
| `ProfileBackup.ReportOf` | biggity.rb:216 | definition, no contract: the megabyte figure logged at line 217, or, through the `rescue` at lines 234-235, the point where the run was aborted. |
| `ProfileBackup.BytesInKb` | biggity.rb:34 | constant `B_IN_KB`, 1024. |
| `ProfileBackup.UsersSrcName` | biggity.rb:35 | constant `USERS_SRC_FILENAME`, "Users". |
| `ProfileBackup.RootName` | biggity.rb:36 | constant `ROOT_FILENAME`, "Root". |
| `ProfileBackup.UsersDestName` | biggity.rb:37 | constant `USERS_DEST_FILENAME`, "7Profiles". |

## Left out

- Platform detection (the `OS` module) and `DEFAULT_DEST_ROOT`, lines 11-44: they test the Ruby platform string and contain no engine logic.
- The interactive prompts and validation loops, lines 110-185: these are terminal I/O. The model takes their results as parameters: the source tree, which must be a directory (line 124 checks this), and the destination path.
- Logging (`loginfo` and `logfatal`, lines 189-199: the per-file log line and the "too long, skipping" line) is an output sink and is not modelled. The main block's `rescue` at lines 234-235 appears only as the `Fatal` outcome and the `Aborted` report.
- The post-copy `attrib`/`chmod`/`sync` commands, lines 219-231: these are external processes.
- File contents, timestamps and other metadata: only each file's size is carried.
- `Find.find` ignores errors while listing a directory. The model does not have them. Symbolic links and special files are not part of the tree.
- The program does not resolve a relative source root. A relative `src_mnt`, which line 124 accepts, makes `relative_path_from` at line 79 raise ArgumentError at the first entry, and the run ends through `logfatal`. The model assumes an absolute source root, so paths are relative to the source root by construction.
- The source tree is a value, so it cannot change during a run. Concurrent changes between `File.size` and `cp` are out of scope.
- `mkpath` raises only ENAMETOOLONG here. Its other failures (permission denied, a regular file in the way) are not modelled.
- A clash between a file and a directory on the destination is not modelled. The model keeps files and directories in separate collections, so one path can be both. The program aborts there: `cp` onto an existing directory (line 96) raises EISDIR, and `mkpath` through an existing file (line 90) raises EEXIST. Neither is rescued, so lines 234-235 end the run.
- A `cp` error other than ENAMETOOLONG is modelled only by where it happens: through the device's fixed set of targets with an unreadable source, and its fixed map of targets whose write fails, with the partial size left behind. Its cause is not modelled. A failure while closing the target, after all data was written, is not distinguished from a failed write.
- The log file `backup.log` is created in the destination directory itself (line 189), and every `loginfo` appends to it (lines 94 and 98). The model leaves it out. `RunPassPreserves` and `RunPassLands` are stated for the modelled disk, so they do not cover `dest/backup.log`. That file grows with every log line. In basic mode a top-level source file named `backup.log` is copied over the log and then appended to, so it does not keep its recorded size.
- Name and path lengths are counted in characters. Real limits count encoded bytes (255 bytes per name on ext4 or ZFS) or UTF-16 units (FAT, NTFS). So for names outside ASCII, the model's `TooLong` can accept a name that the kernel refuses with ENAMETOOLONG. That decides which files are skipped, and which `mkpath` calls at line 90 end the run.
- The modelled volumes are case-sensitive: `Lookup`, the mode test and the ignore test all compare names exactly. On a case-insensitive source volume (FAT, exFAT, NTFS, APFS), the test at line 207 would also accept a directory listed as `users`. The ignore test at line 82 compares the listed name exactly, so that directory would be copied into both `7Profiles` and `Root/users` and counted twice, and `WindowsTotal` does not cover that case. The destination is case-sensitive in the model too. A Windows destination such as an `X:\` drive (the default at line 39), or an exFAT or NTFS volume, is not. There, two walked files such as `a.txt` and `A.txt` in the same directory are written to the same file, and the second copy overwrites the first. `DistinctPaths` then does not imply distinct targets, so `RunPassLands` and `BasicBackupMirrors` do not hold for the first of the two.

## Verification

To verify: `dafny verify *.dfy`.
