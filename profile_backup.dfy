/** `windows_backup` and the main backup block (biggity.rb): when the source
    volume has a `Users` directory at its root, user profiles are copied first
    into `7Profiles` and everything else into `Root`, the `Users` subtree
    pruned from the second pass; otherwise one plain pass copies the whole
    volume. The total is reported in whole megabytes. */
module ProfileBackup {
  import opened Paths
  import opened SourceTree
  import opened Destination
  import opened TreeCopier

  /** B_IN_KB */
  const BytesInKb: nat := 1024
  /** USERS_SRC_FILENAME: the directory whose presence marks a Windows volume. */
  const UsersSrcName: Name := "Users"
  /** ROOT_FILENAME: where everything but the profiles goes. */
  const RootName: Name := "Root"
  /** USERS_DEST_FILENAME: where the profiles go, kept for compatibility. */
  const UsersDestName: Name := "7Profiles"

  /** `File.directory?(File.join(src_mnt, USERS_SRC_FILENAME))`. */
  predicate IsWindowsVolume(root: Node) {
    root.Dir? && Lookup(root.children, UsersSrcName).Some? && Lookup(root.children, UsersSrcName).value.Dir?
  }

  /** The `Users` directory of a Windows volume. */
  function UsersDir(root: Node): Node
    requires IsWindowsVolume(root)
  {
    Lookup(root.children, UsersSrcName).value
  }

  /** `windows_backup(abs_src_dir, dest_dir)`: `mkpath` of `7Profiles`, then of
      `Root`, then the two passes; an exception in any step ends the run
      there. */
  function WindowsPass(dev: Device, d: Disk, root: Node, dest: Path): Pass
    requires IsWindowsVolume(root)
  {
    var profiles := dest + [UsersDestName];
    var rootDest := dest + [RootName];
    var d1 := MkPathOn(dev, d, profiles);
    if TooLong(dev, profiles) then Pass(d1, Fatal(FirstRefused(dev, profiles, 0)))
    else
      var d2 := MkPathOn(dev, d1, rootDest);
      if TooLong(dev, rootDest) then Pass(d2, Fatal(FirstRefused(dev, rootDest, 0)))
      else ProfilePasses(dev, d2, root, profiles, rootDest)
  }

  /** The two passes of `windows_backup`: `Users` into `profiles`, then the
      whole volume with `Users` ignored into `rootDest`. */
  function ProfilePasses(dev: Device, d: Disk, root: Node, profiles: Path, rootDest: Path): Pass
    requires IsWindowsVolume(root)
  {
    TwoPasses(dev, d, profiles, Visit(UsersDir(root), [], []), rootDest, Visit(root, [], [UsersSrcName]))
  }

  /** A pass over `first` into `dest1`, then, unless it raised, a pass over
      `second` into `dest2`; the result is the sum of the two totals. */
  function TwoPasses(dev: Device, d: Disk, dest1: Path, first: seq<FileEntry>, dest2: Path, second: seq<FileEntry>): Pass {
    var p1 := RunPass(dev, d, dest1, first);
    if p1.outcome.Fatal? then p1
    else
      var p2 := RunPass(dev, p1.disk, dest2, second);
      if p2.outcome.Fatal? then p2
      else Pass(p2.disk, Ok(p1.outcome.bytes + p2.outcome.bytes))
  }

  /** The main block's choice: the profile backup on a Windows volume, one
      plain pass with nothing ignored otherwise. */
  function BackupPass(dev: Device, d: Disk, root: Node, dest: Path): Pass
    requires root.Dir?
  {
    if IsWindowsVolume(root) then WindowsPass(dev, d, root, dest)
    else RunPass(dev, d, dest, Visit(root, [], []))
  }

  /** `total_bytes_transferred / B_IN_KB / B_IN_KB`: the whole number of
      mebibytes, rounded down. */
  function Megabytes(bytes: nat): (mb: nat)
    ensures mb * (BytesInKb * BytesInKb) <= bytes < (mb + 1) * (BytesInKb * BytesInKb)
  {
    var kb := bytes / BytesInKb;
    var mb := kb / BytesInKb;
    assert bytes == BytesInKb * kb + bytes % BytesInKb;
    assert kb == BytesInKb * mb + kb % BytesInKb;
    assert bytes == (BytesInKb * BytesInKb) * mb + BytesInKb * (kb % BytesInKb) + bytes % BytesInKb;
    mb
  }

  /** What the run reports: the megabytes transferred, or the path at which
      the fatal error was raised. */
  datatype Report = Transferred(megabytes: nat) | Aborted(at: Path)

  function ReportOf(o: Outcome): Report {
    match o
    case Ok(bytes) => Transferred(Megabytes(bytes))
    case Fatal(at) => Aborted(at)
  }

  // ---------------------------------------------------------------------
  // Properties of the profile backup

  /** In a well-formed tree the mode test is exactly "the root has a
      directory called `Users`". */
  lemma WindowsVolumeDetection(root: Node)
    requires root.Dir? && WellFormed(root)
    ensures IsWindowsVolume(root) <==>
            exists i :: 0 <= i < |root.children| && root.children[i].name == UsersSrcName && root.children[i].Dir?
  {
    var cs := root.children;
    if exists i :: 0 <= i < |cs| && cs[i].name == UsersSrcName && cs[i].Dir? {
      var i :| 0 <= i < |cs| && cs[i].name == UsersSrcName && cs[i].Dir?;
      LookupUnique(cs, UsersSrcName, i);
    }
  }

  /** No double copying: the root pass reaches no file inside `Users`, and
      the `Users` pass reaches exactly the files inside `Users`, each at its
      path below `Users`. */
  lemma WindowsSplitsOnce(root: Node)
    requires IsWindowsVolume(root) && WellFormed(root)
    ensures forall i | 0 <= i < |Visit(root, [], [UsersSrcName])| ::
              Visit(root, [], [UsersSrcName])[i].rel == [] || Visit(root, [], [UsersSrcName])[i].rel[0] != UsersSrcName
    ensures Rebase([UsersSrcName], Visit(UsersDir(root), [], [])) == Within(AllFiles(root, []), UsersSrcName)
    ensures Visit(root, [], [UsersSrcName]) == Outside(AllFiles(root, []), UsersSrcName)
  {
    PruneNameIsOutside(root, UsersSrcName);
    OutsideExcludes(AllFiles(root, []), UsersSrcName);
    var u := UsersDir(root);
    VisitNoIgnore(u, []);
    AllFilesRebase(u, [UsersSrcName], []);
    assert [UsersSrcName] + [] == [UsersSrcName];
    WithinChild(root.children, UsersSrcName, u);
  }

  /** Profile-mode totals: the two passes together count every file of the
      volume exactly once, U + R with U the bytes inside `Users` and R the
      rest. */
  lemma WindowsTotal(dev: Device, d: Disk, root: Node, dest: Path)
    requires IsWindowsVolume(root) && WellFormed(root)
    requires WindowsPass(dev, d, root, dest).outcome.Ok?
    ensures WindowsPass(dev, d, root, dest).outcome.bytes == TotalSize(AllFiles(root, []))
  {
    var profiles := dest + [UsersDestName];
    var rootDest := dest + [RootName];
    var d2 := MkPathOn(dev, MkPathOn(dev, d, profiles), rootDest);
    var u := UsersDir(root);
    var users := RunPass(dev, d2, profiles, Visit(u, [], []));
    RunPassOutcome(dev, d2, profiles, Visit(u, [], []));
    RunPassOutcome(dev, users.disk, rootDest, Visit(root, [], [UsersSrcName]));
    WindowsSplitsOnce(root);
    RebaseSize([UsersSrcName], Visit(u, [], []));
    WithinOutsideSize(AllFiles(root, []), UsersSrcName);
  }

  /** On a well-formed volume, a completed profile backup leaves every
      `Users` file the device accepts under `7Profiles`, at its path below
      `Users`, with its size: the root pass that follows does not touch it. */
  lemma WindowsProfilesLand(dev: Device, d: Disk, root: Node, dest: Path, i: nat)
    requires IsWindowsVolume(root) && WellFormed(root)
    requires WindowsPass(dev, d, root, dest).outcome.Ok?
    requires i < |Visit(UsersDir(root), [], [])|
    requires CopyStatusAt(dev, dest + [UsersDestName] + Visit(UsersDir(root), [], [])[i].rel) == Copied
    ensures dest + [UsersDestName] + Visit(UsersDir(root), [], [])[i].rel in WindowsPass(dev, d, root, dest).disk.files
    ensures WindowsPass(dev, d, root, dest).disk.files[dest + [UsersDestName] + Visit(UsersDir(root), [], [])[i].rel] ==
            Visit(UsersDir(root), [], [])[i].size
  {
    var profiles := dest + [UsersDestName];
    var rootDest := dest + [RootName];
    var d2 := MkPathOn(dev, MkPathOn(dev, d, profiles), rootDest);
    var u := UsersDir(root);
    var us := Visit(u, [], []);
    var rs := Visit(root, [], [UsersSrcName]);
    var p1 := RunPass(dev, d2, profiles, us);
    assert WindowsPass(dev, d, root, dest) == TwoPasses(dev, d2, profiles, us, rootDest, rs);
    var j :| 0 <= j < |root.children| && root.children[j] == u;
    assert WellFormed(root.children[j]);
    VisitDistinct(u, [], []);
    RunPassLands(dev, d2, profiles, us, i);
    var target := profiles + us[i].rel;
    forall k | 0 <= k < |rs|
      ensures target != rootDest + rs[k].rel
    {
      assert target[|dest|] == UsersDestName;
      assert (rootDest + rs[k].rel)[|dest|] == RootName;
      assert UsersDestName[0] != RootName[0];
    }
    RunPassPreserves(dev, p1.disk, rootDest, rs);
  }

  /** The profile backup leaves `Root/Users` on the destination as it found
      it, whether or not it completes: the `Users` pass writes only below
      `7Profiles`, and the root pass prunes `Users`. */
  lemma WindowsRootSkipsUsers(dev: Device, d: Disk, root: Node, dest: Path)
    requires IsWindowsVolume(root) && WellFormed(root)
    ensures forall p | IsPrefix(dest + [RootName, UsersSrcName], p) ::
              (p in WindowsPass(dev, d, root, dest).disk.files <==> p in d.files) &&
              (p in d.files ==> WindowsPass(dev, d, root, dest).disk.files[p] == d.files[p])
  {
    var pre := dest + [RootName, UsersSrcName];
    var profiles := dest + [UsersDestName];
    var rootDest := dest + [RootName];
    if !TooLong(dev, profiles) && !TooLong(dev, rootDest) {
      var d2 := MkPathOn(dev, MkPathOn(dev, d, profiles), rootDest);
      var us := Visit(UsersDir(root), [], []);
      var rs := Visit(root, [], [UsersSrcName]);
      var p1 := RunPass(dev, d2, profiles, us);
      assert WindowsPass(dev, d, root, dest) == TwoPasses(dev, d2, profiles, us, rootDest, rs);
      forall k | 0 <= k < |us|
        ensures !IsPrefix(pre, profiles + us[k].rel)
      {
        var t := profiles + us[k].rel;
        if |pre| <= |t| {
          assert t[..|pre|][|dest|] == UsersDestName;
          assert pre[|dest|] == RootName;
          assert UsersDestName[0] != RootName[0];
        }
      }
      RunPassLeavesAlone(dev, d2, profiles, us, pre);
      WindowsSplitsOnce(root);
      forall k | 0 <= k < |rs|
        ensures !IsPrefix(pre, rootDest + rs[k].rel)
      {
        var t := rootDest + rs[k].rel;
        if |pre| <= |t| {
          assert t[..|pre|][|dest| + 1] == rs[k].rel[0];
          assert pre[|dest| + 1] == UsersSrcName;
        }
      }
      RunPassLeavesAlone(dev, p1.disk, rootDest, rs, pre);
    }
  }

  /** Both destination subtrees are created, even when nothing is copied
      into them, unless the device refuses their names. */
  lemma WindowsCreatesBoth(dev: Device, d: Disk, root: Node, dest: Path)
    requires IsWindowsVolume(root)
    requires !TooLong(dev, dest + [UsersDestName]) && !TooLong(dev, dest + [RootName])
    ensures dest + [UsersDestName] in WindowsPass(dev, d, root, dest).disk.dirs
    ensures dest + [RootName] in WindowsPass(dev, d, root, dest).disk.dirs
  {
    var profiles := dest + [UsersDestName];
    var rootDest := dest + [RootName];
    assert profiles[..|profiles|] == profiles && rootDest[..|rootDest|] == rootDest;
    var d2 := MkPathOn(dev, MkPathOn(dev, d, profiles), rootDest);
    var u := UsersDir(root);
    var users := RunPass(dev, d2, profiles, Visit(u, [], []));
    RunPassPreserves(dev, d2, profiles, Visit(u, [], []));
    RunPassPreserves(dev, users.disk, rootDest, Visit(root, [], [UsersSrcName]));
  }

  /** Whichever mode the main block picks, a completed backup reports the
      bytes of every file of the volume, and the megabytes rounded down
      from them. */
  lemma BackupTotal(dev: Device, d: Disk, root: Node, dest: Path)
    requires root.Dir? && WellFormed(root)
    requires BackupPass(dev, d, root, dest).outcome.Ok?
    ensures BackupPass(dev, d, root, dest).outcome.bytes == TotalSize(AllFiles(root, []))
    ensures ReportOf(BackupPass(dev, d, root, dest).outcome) == Transferred(Megabytes(TotalSize(AllFiles(root, []))))
  {
    if IsWindowsVolume(root) {
      WindowsTotal(dev, d, root, dest);
    } else {
      RunPassOutcome(dev, d, dest, Visit(root, [], []));
      VisitNoIgnore(root, []);
    }
  }

  // ---------------------------------------------------------------------
  // The orchestration itself

  /** `windows_backup(abs_src_dir, dest_dir)`. */
  method WindowsBackup(fs: Volume, root: Node, dest: Path) returns (outcome: Outcome)
    requires fs.Valid() && IsWindowsVolume(root)
    modifies fs
    ensures fs.Valid()
    ensures Pass(fs.State(), outcome) == WindowsPass(fs.dev, old(fs.State()), root, dest)
  {
    var profiles := dest + [UsersDestName];
    var rootDest := dest + [RootName];
    var ok := fs.MkPath(profiles);
    if !ok {
      return Fatal(FirstRefused(fs.dev, profiles, 0));
    }
    ok := fs.MkPath(rootDest);
    if !ok {
      return Fatal(FirstRefused(fs.dev, rootDest, 0));
    }
    outcome := CopyProfiles(fs, root, profiles, rootDest);
  }

  /** The two `basic_backup` calls of `windows_backup` and their sum. */
  method CopyProfiles(fs: Volume, root: Node, profiles: Path, rootDest: Path) returns (outcome: Outcome)
    requires fs.Valid() && IsWindowsVolume(root)
    modifies fs
    ensures fs.Valid()
    ensures Pass(fs.State(), outcome) == ProfilePasses(fs.dev, old(fs.State()), root, profiles, rootDest)
  {
    outcome := TwoBackups(fs, UsersDir(root), profiles, [], root, rootDest, [UsersSrcName]);
  }

  /** `basic_backup(first, dest1, ignore1) + basic_backup(second, dest2, ignore2)`,
      the second not run when the first raises. */
  method TwoBackups(fs: Volume, first: Node, dest1: Path, ignore1: seq<string>,
                    second: Node, dest2: Path, ignore2: seq<string>) returns (outcome: Outcome)
    requires fs.Valid() && first.Dir? && second.Dir?
    modifies fs
    ensures fs.Valid()
    ensures Pass(fs.State(), outcome) ==
            TwoPasses(fs.dev, old(fs.State()), dest1, Visit(first, [], ignore1), dest2, Visit(second, [], ignore2))
  {
    ghost var d0 := fs.State();
    ghost var es1 := Visit(first, [], ignore1);
    ghost var es2 := Visit(second, [], ignore2);
    var o1 := BasicBackup(fs, first, dest1, ignore1);
    ghost var p1 := Pass(fs.State(), o1);
    assert p1 == RunPass(fs.dev, d0, dest1, es1);
    if o1.Fatal? {
      return o1;
    }
    var o2 := BasicBackup(fs, second, dest2, ignore2);
    assert Pass(fs.State(), o2) == RunPass(fs.dev, p1.disk, dest2, es2);
    if o2.Fatal? {
      return o2;
    }
    outcome := Ok(o1.bytes + o2.bytes);
  }

  /** The main backup block: the mode test, the backup, and the megabyte
      figure it logs. */
  method Backup(fs: Volume, root: Node, dest: Path) returns (report: Report)
    requires fs.Valid() && root.Dir?
    modifies fs
    ensures fs.Valid()
    ensures fs.State() == BackupPass(fs.dev, old(fs.State()), root, dest).disk
    ensures report == ReportOf(BackupPass(fs.dev, old(fs.State()), root, dest).outcome)
  {
    var outcome: Outcome;
    if IsWindowsVolume(root) {
      outcome := WindowsBackup(fs, root, dest);
    } else {
      outcome := BasicBackup(fs, root, dest, []);
    }
    report := ReportOf(outcome);
  }
}
