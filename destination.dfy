/** The destination file system as `basic_backup` sees it through
    `FileUtils.mkpath` and `FileUtils.cp`: a map from absolute paths to file
    sizes and a set of directories, updated in place. The device's limits
    decide when the kernel answers ENAMETOOLONG. Every other error `cp` can
    raise is given by where it happens: a source file `cp` cannot open
    (permission denied, I/O error), or a write that fails once the target is
    open (disk full, I/O error). */
module Destination {
  import opened Paths

  /** The destination device: the longest name it accepts and the longest
      absolute path it accepts. `unreadable` holds the targets whose source
      file `cp` cannot open; `cp` opens the source before the target, so that
      failure comes before any test of the target's name. `writeFaults` maps
      the targets at which writing fails after the target was created or
      truncated, to the size of the file the failure leaves behind. */
  datatype Device = Device(nameMax: nat, pathMax: nat, unreadable: set<Path>, writeFaults: map<Path, nat>)

  /** Length of the absolute path string "/a/b/c". */
  function PathLength(p: Path): nat {
    if p == [] then 0 else 1 + |p[0]| + PathLength(p[1..])
  }

  /** The device refuses `p` with ENAMETOOLONG: one of its names or the whole
      path is over the limit. */
  predicate TooLong(dev: Device, p: Path) {
    PathLength(p) > dev.pathMax || exists i :: 0 <= i < |p| && |p[i]| > dev.nameMax
  }

  /** A path that fits the device is made of directories that fit it too. */
  lemma {:induction false} PrefixFits(dev: Device, p: Path, k: nat)
    requires k <= |p| && !TooLong(dev, p)
    ensures !TooLong(dev, p[..k])
  {
    PathLengthPrefix(p, k);
  }

  lemma {:induction false} PathLengthPrefix(p: Path, k: nat)
    requires k <= |p|
    ensures PathLength(p[..k]) <= PathLength(p)
  {
    if k > 0 {
      assert p[..k][1..] == p[1..][..k - 1];
      PathLengthPrefix(p[1..], k - 1);
    }
  }

  /** The whole state of the destination. */
  datatype Disk = Disk(files: map<Path, nat>, dirs: set<Path>)

  /** The directories `FileUtils.mkpath(p)` leaves in place: every directory
      on the way down to `p` that the device accepts. It creates them from the
      top down and raises at the first one refused. */
  function MkPathDirs(dev: Device, p: Path): (r: set<Path>)
    ensures forall q | q in r :: IsPrefix(q, p) && !TooLong(dev, q)
    ensures !TooLong(dev, p) ==> forall k | 0 <= k <= |p| :: p[..k] in r
  {
    var r := set k | 0 <= k <= |p| && !TooLong(dev, p[..k]) :: p[..k];
    assert forall k | 0 <= k <= |p| :: !TooLong(dev, p) ==> p[..k] in r by {
      forall k | 0 <= k <= |p| && !TooLong(dev, p)
        ensures p[..k] in r
      {
        PrefixFits(dev, p, k);
      }
    }
    r
  }

  /** `FileUtils.mkpath(p)` applied to a disk. */
  function MkPathOn(dev: Device, d: Disk, p: Path): Disk {
    Disk(d.files, d.dirs + MkPathDirs(dev, p))
  }

  /** What a single `FileUtils.cp` does. */
  datatype CopyStatus =
    | Copied        // the file now exists at the target
    | NameTooLong   // Errno::ENAMETOOLONG on opening the target: nothing written
    | ReadFailed    // the source cannot be opened: nothing written, the exception escapes
    | WriteFailed   // writing fails: the target is left partly written, the exception escapes

  /** The outcome of copying to `target` on `dev`, in the order `cp` works:
      it opens the source, then creates the target (where the kernel may
      refuse the name), then writes. */
  function CopyStatusAt(dev: Device, target: Path): (s: CopyStatus)
    ensures s == Copied <==> target !in dev.unreadable && !TooLong(dev, target) && target !in dev.writeFaults
    ensures s == NameTooLong <==> target !in dev.unreadable && TooLong(dev, target)
    ensures s == WriteFailed ==> !TooLong(dev, target) && target in dev.writeFaults
  {
    if target in dev.unreadable then ReadFailed
    else if TooLong(dev, target) then NameTooLong
    else if target in dev.writeFaults then WriteFailed
    else Copied
  }

  /** The first directory `FileUtils.mkpath(p)` is refused, searching from
      the `k`-th prefix of `p` down: it creates the directories from the top
      and raises at the first one the device refuses. */
  function FirstRefused(dev: Device, p: Path, k: nat): (q: Path)
    requires k <= |p| && TooLong(dev, p)
    ensures IsPrefix(q, p) && k <= |q| && TooLong(dev, q)
    ensures forall j | k <= j < |q| :: !TooLong(dev, p[..j])
    decreases |p| - k
  {
    if TooLong(dev, p[..k]) then p[..k]
    else
      assert k < |p| by { assert p[..|p|] == p; }
      FirstRefused(dev, p, k + 1)
  }

  /** The destination volume. Its device is fixed; its files and directories
      change in place, only through `MkPath` and `CopyInto`. */
  class Volume {
    const dev: Device
    var files: map<Path, nat>
    var dirs: set<Path>

    function State(): Disk
      reads this
    {
      Disk(files, dirs)
    }

    /** A file system never holds a path its device refuses. */
    predicate Valid()
      reads this
    {
      (forall q | q in dirs :: !TooLong(dev, q)) &&
      (forall q | q in files :: !TooLong(dev, q))
    }

    constructor (dev: Device, files: map<Path, nat>, dirs: set<Path>)
      requires (forall q | q in dirs :: !TooLong(dev, q)) && (forall q | q in files :: !TooLong(dev, q))
      ensures Valid() && this.dev == dev && State() == Disk(files, dirs)
    {
      this.dev := dev;
      this.files := files;
      this.dirs := dirs;
    }

    /** `FileUtils.mkpath(p)`: creates the missing directories down to `p`.
        It succeeds exactly when the device accepts `p`; otherwise it raises
        ENAMETOOLONG after creating the directories above that it accepts.
        Files are never touched. */
    method MkPath(p: Path) returns (ok: bool)
      requires Valid()
      modifies this
      ensures Valid()
      ensures ok <==> !TooLong(dev, p)
      ensures State() == MkPathOn(dev, old(State()), p)
      ensures ok ==> p in dirs
    {
      dirs := dirs + MkPathDirs(dev, p);
      ok := !TooLong(dev, p);
      assert p[..|p|] == p;
    }

    /** `FileUtils.cp(src, dir)` for a source file of `size` bytes: writes the
        file under its own name in `dir`, replacing any file already there.
        When the source cannot be opened or the name is refused, nothing is
        written; when writing fails, the target is left with what was
        written. Directories are never touched. */
    method CopyInto(dir: Path, name: Name, size: nat) returns (status: CopyStatus)
      requires Valid() && dir in dirs
      modifies this
      ensures Valid()
      ensures status == CopyStatusAt(dev, dir + [name])
      ensures dirs == old(dirs)
      ensures files == match status
                       case Copied => old(files)[dir + [name] := size]
                       case WriteFailed => old(files)[dir + [name] := dev.writeFaults[dir + [name]]]
                       case _ => old(files)
    {
      var target := dir + [name];
      status := CopyStatusAt(dev, target);
      if status == Copied {
        files := files[target := size];
      } else if status == WriteFailed {
        files := files[target := dev.writeFaults[target]];
      }
    }
  }
}
