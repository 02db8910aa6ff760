/** `basic_backup(abs_src_dir, dest_dir, ignore)` (biggity.rb): walks the
    source tree depth first, prunes every entry whose relative path is in
    `ignore`, and for every regular file creates the destination parent
    directory, records the file's size, copies it under its own name and adds
    the size to the running total. ENAMETOOLONG from the copy is logged and
    skipped; any other error escapes and ends the run, and a write that
    failed leaves its target partly written.

    `RunPass` is the specification of what the walk does to the destination
    and what it returns; `BasicBackup` is the walk itself, proved to meet it. */
module TreeCopier {
  import opened Paths
  import opened SourceTree
  import opened Destination

  /** What a pass returns: the byte total, or the destination path of the
      call whose exception escaped: the directory `mkpath` was refused, or the
      target of the `cp` that failed (the main block then ends the run with
      `logfatal`). */
  datatype Outcome = Ok(bytes: nat) | Fatal(at: Path)

  /** The destination after a pass, and what the pass returned. */
  datatype Pass = Pass(disk: Disk, outcome: Outcome)

  /** The file `e` ends the run: `FileUtils.mkpath` of its destination
      directory raises (it sits outside the `begin`/`rescue`), or `cp` raises
      something other than ENAMETOOLONG. */
  predicate FailsFatally(dev: Device, dest: Path, e: FileEntry) {
    TooLong(dev, dest + Parent(e.rel)) || CopyStatusAt(dev, dest + e.rel) in {ReadFailed, WriteFailed}
  }

  /** Where the exception for `e` is raised: the first directory on the
      destination parent chain that `mkpath` is refused, or the target. */
  function FatalPath(dev: Device, dest: Path, e: FileEntry): Path {
    var parent := dest + Parent(e.rel);
    if TooLong(dev, parent) then FirstRefused(dev, parent, 0) else dest + e.rel
  }

  /** Adds the bytes of an earlier file to the total of the rest of the pass;
      an exception in the rest discards the total. */
  function AddBytes(n: nat, p: Pass): Pass {
    if p.outcome.Ok? then Pass(p.disk, Ok(n + p.outcome.bytes)) else p
  }

  /** What one iteration of the loop of `basic_backup` does for the regular
      file `e`: `FileUtils.mkpath` of the destination parent directory, then
      `FileUtils.cp` into it. ENAMETOOLONG from `cp` is rescued and leaves the
      disk as `mkpath` left it; every other error is raised, after a failed
      write has left the target partly written. */
  datatype StepResult = Done(disk: Disk) | Raised(disk: Disk, at: Path)

  function CopyStep(dev: Device, d: Disk, dest: Path, e: FileEntry): (r: StepResult)
    ensures r.Raised? <==> FailsFatally(dev, dest, e)
    ensures r.Raised? ==> r.at == FatalPath(dev, dest, e)
  {
    var parent := dest + Parent(e.rel);
    var d1 := MkPathOn(dev, d, parent);
    if TooLong(dev, parent) then Raised(d1, FirstRefused(dev, parent, 0))
    else
      var target := dest + e.rel;
      match CopyStatusAt(dev, target)
      case ReadFailed => Raised(d1, target)
      case WriteFailed => Raised(Disk(d1.files[target := dev.writeFaults[target]], d1.dirs), target)
      case NameTooLong => Done(d1)
      case Copied => Done(Disk(d1.files[target := e.size], d1.dirs))
  }

  /** What one step does to the destination. Only the target can change: it
      holds the file when the step goes on and `cp` writes it, what a failed
      write left when that write ends the run, and it is left as it was
      otherwise. Directories only grow, along the destination parent, which
      exists once the step goes on. */
  lemma CopyStepOnDisk(dev: Device, d: Disk, dest: Path, e: FileEntry)
    ensures var r := CopyStep(dev, d, dest, e);
            forall q | q != dest + e.rel :: (q in r.disk.files <==> q in d.files)
    ensures var r := CopyStep(dev, d, dest, e);
            forall q | q != dest + e.rel && q in d.files :: r.disk.files[q] == d.files[q]
    ensures var r := CopyStep(dev, d, dest, e);
            r.Done? && CopyStatusAt(dev, dest + e.rel) == Copied ==>
              dest + e.rel in r.disk.files && r.disk.files[dest + e.rel] == e.size
    ensures var r := CopyStep(dev, d, dest, e);
            r.Raised? && r.at == dest + e.rel && CopyStatusAt(dev, dest + e.rel) == WriteFailed ==>
              dest + e.rel in r.disk.files && r.disk.files[dest + e.rel] == dev.writeFaults[dest + e.rel]
    ensures var r := CopyStep(dev, d, dest, e);
            TooLong(dev, dest + Parent(e.rel)) || CopyStatusAt(dev, dest + e.rel) in {ReadFailed, NameTooLong} ==>
              (dest + e.rel in r.disk.files <==> dest + e.rel in d.files) &&
              (dest + e.rel in d.files ==> r.disk.files[dest + e.rel] == d.files[dest + e.rel])
    ensures var r := CopyStep(dev, d, dest, e);
            d.dirs <= r.disk.dirs
    ensures var r := CopyStep(dev, d, dest, e);
            forall q | q in r.disk.dirs && q !in d.dirs :: IsPrefix(q, dest + Parent(e.rel)) && !TooLong(dev, q)
    ensures var r := CopyStep(dev, d, dest, e);
            r.Done? ==> dest + Parent(e.rel) in r.disk.dirs
  {
    var parent := dest + Parent(e.rel);
    assert parent[..|parent|] == parent;
  }

  /** The whole loop of `basic_backup` over the files `es`, in order, from
      disk `d`, with destination directory `dest`. The size of a file refused
      with ENAMETOOLONG is added all the same: the addition sits after the
      `rescue`, whatever the comment above it says. */
  function RunPass(dev: Device, d: Disk, dest: Path, es: seq<FileEntry>): Pass
    decreases |es|
  {
    if es == [] then Pass(d, Ok(0))
    else
      match CopyStep(dev, d, dest, es[0])
      case Raised(d1, at) => Pass(d1, Fatal(at))
      case Done(d1) => AddBytes(es[0].size, RunPass(dev, d1, dest, es[1..]))
  }

  /** The bytes of the files actually written: the figure the comment above
      the addition describes. */
  function CopiedBytes(dev: Device, dest: Path, es: seq<FileEntry>): nat {
    if es == [] then 0
    else (if CopyStatusAt(dev, dest + es[0].rel) == Copied then es[0].size else 0) + CopiedBytes(dev, dest, es[1..])
  }

  /** The bytes of the files refused with ENAMETOOLONG. */
  function SkippedBytes(dev: Device, dest: Path, es: seq<FileEntry>): nat {
    if es == [] then 0
    else (if CopyStatusAt(dev, dest + es[0].rel) == NameTooLong then es[0].size else 0) + SkippedBytes(dev, dest, es[1..])
  }

  // ---------------------------------------------------------------------
  // The pass: outcome and byte accounting

  /** The pass completes exactly when no file fails fatally, and then it
      returns the sum of the sizes of all the files it walked, including the
      ones refused with ENAMETOOLONG. */
  lemma {:induction false} RunPassOutcome(dev: Device, d: Disk, dest: Path, es: seq<FileEntry>)
    ensures RunPass(dev, d, dest, es).outcome.Ok? <==> forall i | 0 <= i < |es| :: !FailsFatally(dev, dest, es[i])
    ensures RunPass(dev, d, dest, es).outcome.Ok? ==> RunPass(dev, d, dest, es).outcome.bytes == TotalSize(es)
    decreases |es|
  {
    if es != [] {
      var step := CopyStep(dev, d, dest, es[0]);
      if step.Done? {
        RunPassOutcome(dev, step.disk, dest, es[1..]);
        assert forall i | 1 <= i < |es| :: es[i] == es[1..][i - 1];
      }
    }
  }

  /** An aborted pass stops at the first file that fails fatally, at the path
      where that file's exception is raised: every earlier file was handled. */
  lemma {:induction false} RunPassAborts(dev: Device, d: Disk, dest: Path, es: seq<FileEntry>)
    requires RunPass(dev, d, dest, es).outcome.Fatal?
    ensures exists i ::
              0 <= i < |es| && FailsFatally(dev, dest, es[i]) &&
              (forall j | 0 <= j < i :: !FailsFatally(dev, dest, es[j])) &&
              RunPass(dev, d, dest, es).outcome.at == FatalPath(dev, dest, es[i])
    decreases |es|
  {
    var step := CopyStep(dev, d, dest, es[0]);
    var p := RunPass(dev, d, dest, es);
    if step.Raised? {
      assert p.outcome.at == FatalPath(dev, dest, es[0]);
    } else {
      var tail := es[1..];
      var q := RunPass(dev, step.disk, dest, tail);
      assert p == AddBytes(es[0].size, q);
      RunPassAborts(dev, step.disk, dest, tail);
      var i :| 0 <= i < |tail| && FailsFatally(dev, dest, tail[i]) &&
               (forall j | 0 <= j < i :: !FailsFatally(dev, dest, tail[j])) &&
               q.outcome.at == FatalPath(dev, dest, tail[i]);
      assert es[i + 1] == tail[i];
      forall j | 0 <= j < i + 1
        ensures !FailsFatally(dev, dest, es[j])
      {
        if j > 0 {
          assert es[j] == tail[j - 1];
        }
      }
      assert p.outcome.at == FatalPath(dev, dest, es[i + 1]);
    }
  }

  /** The total is the bytes copied plus the bytes refused with ENAMETOOLONG,
      so it is at least the bytes copied, and it overstates them by exactly
      the sizes of the skipped files. */
  lemma {:induction false} TotalCountsSkipped(dev: Device, d: Disk, dest: Path, es: seq<FileEntry>)
    requires RunPass(dev, d, dest, es).outcome.Ok?
    ensures RunPass(dev, d, dest, es).outcome.bytes == CopiedBytes(dev, dest, es) + SkippedBytes(dev, dest, es)
    decreases |es|
  {
    if es != [] {
      TotalCountsSkipped(dev, CopyStep(dev, d, dest, es[0]).disk, dest, es[1..]);
    }
  }

  /** A concrete case of the overstatement: one file whose name the device
      refuses is not written, yet its 10 bytes are reported. */
  lemma SkippedFileStillCounted()
    ensures var dev := Device(6, 100, {}, map[]);
            var p := RunPass(dev, Disk(map[], {}), ["backup"], [FileEntry(["toolong"], 10)]);
            p.outcome == Ok(10) && ["backup", "toolong"] !in p.disk.files &&
            CopiedBytes(dev, ["backup"], [FileEntry(["toolong"], 10)]) == 0
  {
    var dev := Device(6, 100, {}, map[]);
    assert !TooLong(dev, ["backup"][..0]);
    assert TooLong(dev, ["backup"] + ["toolong"]) by {
      assert |(["backup"] + ["toolong"])[1]| > 6;
    }
    assert !TooLong(dev, ["backup"]) by {
      assert PathLength(["backup"]) == 7;
    }
  }

  // ---------------------------------------------------------------------
  // The pass: what it writes and what it leaves alone

  /** Nothing else changes: no directory disappears, and a file already on
      the destination that is not the target of a walked file keeps its size. */
  lemma {:induction false} RunPassPreserves(dev: Device, d: Disk, dest: Path, es: seq<FileEntry>)
    ensures d.dirs <= RunPass(dev, d, dest, es).disk.dirs
    ensures forall p | p in d.files && (forall i | 0 <= i < |es| :: p != dest + es[i].rel) ::
              p in RunPass(dev, d, dest, es).disk.files && RunPass(dev, d, dest, es).disk.files[p] == d.files[p]
    decreases |es|
  {
    if es != [] {
      var target := dest + es[0].rel;
      var step := CopyStep(dev, d, dest, es[0]);
      if step.Done? {
        var d2 := step.disk;
        RunPassPreserves(dev, d2, dest, es[1..]);
        forall p | p in d.files && (forall i | 0 <= i < |es| :: p != dest + es[i].rel)
          ensures p in d2.files && d2.files[p] == d.files[p]
          ensures forall i | 0 <= i < |es[1..]| :: p != dest + es[1..][i].rel
        {
          assert p != dest + es[0].rel;
          forall i | 0 <= i < |es[1..]| ensures p != dest + es[1..][i].rel {
            assert es[1..][i] == es[i + 1];
          }
        }
      }
    }
  }

  /** Every file the pass adds or replaces is the target of a walked file:
      the destination joined with that file's relative path, where the file
      was copied, or where its write failed and ended the pass. */
  lemma {:induction false} RunPassWritesOnlyTargets(dev: Device, d: Disk, dest: Path, es: seq<FileEntry>)
    ensures forall p | p in RunPass(dev, d, dest, es).disk.files ::
              (p in d.files && RunPass(dev, d, dest, es).disk.files[p] == d.files[p]) ||
              exists i :: 0 <= i < |es| && p == dest + es[i].rel && WrittenBy(dev, p, RunPass(dev, d, dest, es).outcome)
    decreases |es|
  {
    if es != [] {
      var target := dest + es[0].rel;
      var step := CopyStep(dev, d, dest, es[0]);
      CopyStepOnDisk(dev, d, dest, es[0]);
      var r := RunPass(dev, d, dest, es);
      if step.Done? {
        var d2 := step.disk;
        RunPassWritesOnlyTargets(dev, d2, dest, es[1..]);
        assert r == AddBytes(es[0].size, RunPass(dev, d2, dest, es[1..]));
        forall p | p in r.disk.files
          ensures (p in d.files && r.disk.files[p] == d.files[p]) ||
                  exists i :: 0 <= i < |es| && p == dest + es[i].rel && WrittenBy(dev, p, r.outcome)
        {
          if p in d2.files && r.disk.files[p] == d2.files[p] {
            if p == target {
              assert CopyStatusAt(dev, p) == Copied || (p in d.files && d2.files[p] == d.files[p]);
            }
          } else {
            var i :| 0 <= i < |es[1..]| && p == dest + es[1..][i].rel &&
                     WrittenBy(dev, p, RunPass(dev, d2, dest, es[1..]).outcome);
            assert es[1..][i] == es[i + 1];
          }
        }
      } else {
        forall p | p in r.disk.files && !(p in d.files && r.disk.files[p] == d.files[p])
          ensures p == dest + es[0].rel && WrittenBy(dev, p, r.outcome)
        {
        }
      }
    }
  }

  /** The file at `p` may have been written by a pass that ended with
      `outcome`: `cp` copies to `p`, or its write to `p` failed and that
      ended the pass. */
  predicate WrittenBy(dev: Device, p: Path, outcome: Outcome) {
    CopyStatusAt(dev, p) == Copied || (CopyStatusAt(dev, p) == WriteFailed && outcome == Fatal(p))
  }

  /** A part of the destination that no walked file targets is left exactly
      as it was: no file at or below `pre` appears, vanishes or changes. */
  lemma RunPassLeavesAlone(dev: Device, d: Disk, dest: Path, es: seq<FileEntry>, pre: Path)
    requires forall i | 0 <= i < |es| :: !IsPrefix(pre, dest + es[i].rel)
    ensures forall p | IsPrefix(pre, p) ::
              (p in RunPass(dev, d, dest, es).disk.files <==> p in d.files) &&
              (p in d.files ==> RunPass(dev, d, dest, es).disk.files[p] == d.files[p])
  {
    RunPassWritesOnlyTargets(dev, d, dest, es);
    RunPassPreserves(dev, d, dest, es);
  }

  /** A target the device refuses with ENAMETOOLONG never appears on the
      destination: the skipped file is really not written. */
  lemma TooLongNeverWritten(dev: Device, d: Disk, dest: Path, es: seq<FileEntry>, p: Path)
    requires TooLong(dev, p) && p !in d.files
    ensures p !in RunPass(dev, d, dest, es).disk.files
  {
    RunPassWritesOnlyTargets(dev, d, dest, es);
  }

  /** Directories are created only on the parent chain of a walked file: every
      new directory is its destination parent or lies above it. */
  lemma {:induction false} RunPassDirsOnlyParents(dev: Device, d: Disk, dest: Path, es: seq<FileEntry>)
    ensures forall q | q in RunPass(dev, d, dest, es).disk.dirs ::
              q in d.dirs || exists i :: 0 <= i < |es| && IsPrefix(q, dest + Parent(es[i].rel))
    decreases |es|
  {
    if es != [] {
      var target := dest + es[0].rel;
      var step := CopyStep(dev, d, dest, es[0]);
      if step.Done? {
        var d2 := step.disk;
        RunPassDirsOnlyParents(dev, d2, dest, es[1..]);
        var r := RunPass(dev, d, dest, es).disk;
        assert r == RunPass(dev, d2, dest, es[1..]).disk;
        forall q | q in r.dirs
          ensures q in d.dirs || exists i :: 0 <= i < |es| && IsPrefix(q, dest + Parent(es[i].rel))
        {
          if q !in d2.dirs {
            var i :| 0 <= i < |es[1..]| && IsPrefix(q, dest + Parent(es[1..][i].rel));
            assert es[1..][i] == es[i + 1];
          } else if q !in d.dirs {
            assert IsPrefix(q, dest + Parent(es[0].rel));
          }
        }
      }
    }
  }

  /** A source subtree that holds no walked file produces nothing under the
      destination: no directory at or below its mirrored path is created. */
  lemma EmptySubtreeNotMirrored(dev: Device, d: Disk, dest: Path, es: seq<FileEntry>, sub: Path)
    requires forall i | 0 <= i < |es| :: !IsPrefix(sub, es[i].rel)
    ensures forall q | q in RunPass(dev, d, dest, es).disk.dirs && IsPrefix(dest + sub, q) :: q in d.dirs
  {
    RunPassDirsOnlyParents(dev, d, dest, es);
    forall q | q in RunPass(dev, d, dest, es).disk.dirs && IsPrefix(dest + sub, q) && q !in d.dirs
      ensures false
    {
      var i :| 0 <= i < |es| && IsPrefix(q, dest + Parent(es[i].rel));
      PrefixThroughParent(dest, sub, q, es[i].rel);
    }
  }

  /** Relative paths are preserved: when the pass completes, every walked
      file the device accepted sits at the destination joined with its
      relative path, with its recorded size, inside a directory the pass made
      sure exists. Needs the walked paths to be distinct, which a well-formed
      tree guarantees. */
  lemma {:induction false} RunPassLands(dev: Device, d: Disk, dest: Path, es: seq<FileEntry>, i: nat)
    requires RunPass(dev, d, dest, es).outcome.Ok? && DistinctPaths(es)
    requires i < |es| && CopyStatusAt(dev, dest + es[i].rel) == Copied
    ensures dest + es[i].rel in RunPass(dev, d, dest, es).disk.files
    ensures RunPass(dev, d, dest, es).disk.files[dest + es[i].rel] == es[i].size
    ensures dest + Parent(es[i].rel) in RunPass(dev, d, dest, es).disk.dirs
    decreases |es|
  {
    var e := es[0];
    var step := CopyStep(dev, d, dest, e);
    assert step.Done?;
    var d2 := step.disk;
    var rest := RunPass(dev, d2, dest, es[1..]);
    assert RunPass(dev, d, dest, es) == AddBytes(e.size, rest);
    assert rest.outcome.Ok?;
    if i == 0 {
      CopyStepOnDisk(dev, d, dest, e);
      RunPassPreserves(dev, d2, dest, es[1..]);
      forall j | 0 <= j < |es[1..]| ensures dest + e.rel != dest + es[1..][j].rel {
        assert es[1..][j] == es[j + 1];
        JoinInjective(dest, e.rel, es[j + 1].rel);
      }
    } else {
      assert DistinctPaths(es[1..]) by {
        forall a, b | 0 <= a < b < |es[1..]| ensures es[1..][a].rel != es[1..][b].rel {
          assert es[1..][a] == es[a + 1] && es[1..][b] == es[b + 1];
        }
      }
      assert es[1..][i - 1] == es[i];
      RunPassLands(dev, d2, dest, es[1..], i - 1);
    }
  }

  /** The total of a completed `basic_backup`, in terms of the source tree:
      the bytes of every regular file that has no ignored entry on its path
      from the root. */
  lemma BasicBackupTotal(dev: Device, d: Disk, root: Node, dest: Path, ignore: seq<string>)
    requires RunPass(dev, d, dest, Visit(root, [], ignore)).outcome.Ok?
    ensures RunPass(dev, d, dest, Visit(root, [], ignore)).outcome.bytes == TotalSize(Keep(AllFiles(root, []), ignore, 0))
  {
    RunPassOutcome(dev, d, dest, Visit(root, [], ignore));
    VisitIsPrunedWalk(root, [], ignore);
  }

  /** On a well-formed source tree a completed `basic_backup` leaves every
      walked file the device accepted at the destination joined with its
      relative path, with its size, inside its mirrored parent directory. */
  lemma BasicBackupMirrors(dev: Device, d: Disk, root: Node, dest: Path, ignore: seq<string>, i: nat)
    requires WellFormed(root) && RunPass(dev, d, dest, Visit(root, [], ignore)).outcome.Ok?
    requires i < |Visit(root, [], ignore)| && CopyStatusAt(dev, dest + Visit(root, [], ignore)[i].rel) == Copied
    ensures dest + Visit(root, [], ignore)[i].rel in RunPass(dev, d, dest, Visit(root, [], ignore)).disk.files
    ensures RunPass(dev, d, dest, Visit(root, [], ignore)).disk.files[dest + Visit(root, [], ignore)[i].rel] ==
            Visit(root, [], ignore)[i].size
    ensures dest + Parent(Visit(root, [], ignore)[i].rel) in RunPass(dev, d, dest, Visit(root, [], ignore)).disk.dirs
  {
    VisitDistinct(root, [], ignore);
    RunPassLands(dev, d, dest, Visit(root, [], ignore), i);
  }

  // ---------------------------------------------------------------------
  // The walk itself

  /** A pending entry of the traversal: a node and its path relative to the
      source root. */
  datatype Item = Item(node: Node, rel: Path)

  /** The files the pending entries still lead to, in the order the walk
      will reach them. */
  function VisitItems(items: seq<Item>, ignore: seq<string>): seq<FileEntry> {
    if items == [] then [] else Visit(items[0].node, items[0].rel, ignore) + VisitItems(items[1..], ignore)
  }

  /** The entries of a directory at `rel`, in listing order. */
  function ChildItems(cs: seq<Node>, rel: Path): (r: seq<Item>)
    ensures |r| == |cs|
    ensures forall i | 0 <= i < |r| :: r[i] == Item(cs[i], rel + [cs[i].name])
  {
    if cs == [] then [] else [Item(cs[0], rel + [cs[0].name])] + ChildItems(cs[1..], rel)
  }

  function NodeSize(n: Node): nat
    decreases n, 1
  {
    match n
    case File(_, _) => 1
    case Dir(_, cs) => 1 + SizeIn(cs)
  }

  function SizeIn(cs: seq<Node>): nat
    decreases cs, 0
  {
    if cs == [] then 0 else NodeSize(cs[0]) + SizeIn(cs[1..])
  }

  function ItemsSize(items: seq<Item>): nat {
    if items == [] then 0 else NodeSize(items[0].node) + ItemsSize(items[1..])
  }

  /** Replacing a directory by its entries on the work list leaves the files
      still to be reached unchanged and shrinks the work left. */
  lemma {:induction false} ExpandDir(cs: seq<Node>, rel: Path, rest: seq<Item>, ignore: seq<string>)
    ensures VisitItems(ChildItems(cs, rel) + rest, ignore) == VisitIn(cs, rel, ignore) + VisitItems(rest, ignore)
    ensures ItemsSize(ChildItems(cs, rel) + rest) == SizeIn(cs) + ItemsSize(rest)
  {
    if cs == [] {
      assert ChildItems(cs, rel) + rest == rest;
    } else {
      var head := Item(cs[0], rel + [cs[0].name]);
      assert ChildItems(cs, rel) + rest == [head] + (ChildItems(cs[1..], rel) + rest);
      ExpandDir(cs[1..], rel, rest, ignore);
    }
  }

  lemma AddBytesTwice(a: nat, b: nat, p: Pass)
    ensures AddBytes(a, AddBytes(b, p)) == AddBytes(a + b, p)
  {
  }

  /** One iteration of the loop of `basic_backup` for a regular file
      (biggity.rb, lines 86-99): `mkpath` of the destination parent, `cp` into
      it under the file's base name, ENAMETOOLONG rescued. Returns where an
      exception escaped, if one did. */
  method CopyOne(fs: Volume, dest: Path, e: FileEntry) returns (raised: Option<Path>)
    requires fs.Valid() && e.rel != []
    modifies fs
    ensures fs.Valid()
    ensures CopyStep(fs.dev, old(fs.State()), dest, e) ==
            if raised.Some? then Raised(fs.State(), raised.value) else Done(fs.State())
  {
    var parent := dest + Parent(e.rel);
    var ok := fs.MkPath(parent);
    if !ok {
      return Some(FirstRefused(fs.dev, parent, 0));
    }
    ParentAndBase(dest, e.rel);
    var status := fs.CopyInto(parent, Base(e.rel), e.size);
    if status == ReadFailed || status == WriteFailed {
      return Some(dest + e.rel);
    }
    raised := None;
  }

  /** Only a directory can sit at the source root: every pending regular
      file has a non-empty relative path. */
  predicate FilesBelowRoot(work: seq<Item>) {
    forall i | 0 <= i < |work| :: work[i].rel == [] ==> work[i].node.Dir?
  }

  /** What the rest of the pass yields, once `total` bytes are counted and
      `work` is still pending. */
  function Resume(dev: Device, d: Disk, dest: Path, work: seq<Item>, ignore: seq<string>, total: nat): Pass {
    AddBytes(total, RunPass(dev, d, dest, VisitItems(work, ignore)))
  }

  /** One turn of the walk: the front entry of the work list is pruned,
      expanded into its entries, or copied. The rest of the pass yields what
      it did before the turn, or the copy raised and the pass ends where the
      specification says it does. */
  method Advance(fs: Volume, dest: Path, ignore: seq<string>, work: seq<Item>, total: nat)
      returns (next: seq<Item>, total': nat, raised: Option<Path>)
    requires fs.Valid() && work != [] && FilesBelowRoot(work)
    modifies fs
    ensures fs.Valid() && FilesBelowRoot(next) && ItemsSize(next) < ItemsSize(work)
    ensures raised.Some? ==>
              Pass(fs.State(), Fatal(raised.value)) == Resume(fs.dev, old(fs.State()), dest, work, ignore, total)
    ensures raised.None? ==>
              Resume(fs.dev, fs.State(), dest, next, ignore, total') == Resume(fs.dev, old(fs.State()), dest, work, ignore, total)
  {
    var item := work[0];
    var rest := work[1..];
    ghost var pending := VisitItems(work, ignore);
    assert pending == Visit(item.node, item.rel, ignore) + VisitItems(rest, ignore);
    assert ItemsSize(work) == NodeSize(item.node) + ItemsSize(rest);
    if RelString(item.rel) in ignore {
      assert pending == VisitItems(rest, ignore);
      return rest, total, None;
    }
    match item.node
    case Dir(_, cs) =>
      assert pending == VisitIn(cs, item.rel, ignore) + VisitItems(rest, ignore);
      ExpandDir(cs, item.rel, rest, ignore);
      next := ChildItems(cs, item.rel) + rest;
      return next, total, None;
    case File(_, size) =>
      var e := FileEntry(item.rel, size);
      assert pending == [e] + VisitItems(rest, ignore);
      ghost var before := fs.State();
      raised := CopyOne(fs, dest, e);
      next, total' := rest, total + size;
      assert RunPass(fs.dev, before, dest, pending) ==
             if raised.Some? then Pass(fs.State(), Fatal(raised.value))
             else AddBytes(size, RunPass(fs.dev, fs.State(), dest, VisitItems(rest, ignore)));
      AddBytesTwice(total, size, RunPass(fs.dev, fs.State(), dest, VisitItems(rest, ignore)));
  }

  /** `basic_backup(abs_src_dir, dest_dir, ignore)` on the source tree `root`
      and the destination `fs`. The work list plays the part of the stack
      inside `Find.find`: the next entry is taken from the front, and a
      directory is replaced there by its entries. */
  method BasicBackup(fs: Volume, root: Node, dest: Path, ignore: seq<string>) returns (outcome: Outcome)
    requires fs.Valid() && root.Dir?
    modifies fs
    ensures fs.Valid()
    ensures Pass(fs.State(), outcome) == RunPass(fs.dev, old(fs.State()), dest, Visit(root, [], ignore))
  {
    ghost var goal := RunPass(fs.dev, fs.State(), dest, Visit(root, [], ignore));
    var work := [Item(root, [])];
    var total: nat := 0;
    assert VisitItems(work, ignore) == Visit(root, [], ignore);
    while work != []
      invariant fs.Valid() && FilesBelowRoot(work)
      invariant Resume(fs.dev, fs.State(), dest, work, ignore, total) == goal
      decreases ItemsSize(work)
    {
      var raised;
      work, total, raised := Advance(fs, dest, ignore, work, total);
      if raised.Some? {
        return Fatal(raised.value);
      }
    }
    outcome := Ok(total);
  }
}
