/** The source volume as an unchanging tree, and what `Find.find` with
    `Find.prune` yields from it: the regular files, in walk order, each with
    its path relative to the source root and the size `File.size` reports. */
module SourceTree {
  import opened Paths

  datatype Option<T> = None | Some(value: T)

  /** A node of the source tree. The order of `children` is the order in which
      the traversal lists a directory. */
  datatype Node = File(name: Name, size: nat) | Dir(name: Name, children: seq<Node>)

  /** A regular file reached by the walk. */
  datatype FileEntry = FileEntry(rel: Path, size: nat)

  /** What a real file system guarantees: every entry has a valid name and the
      names within one directory are distinct. (The root's own name is not
      used: paths are relative to it.) */
  predicate WellFormed(n: Node) {
    match n
    case File(_, _) => true
    case Dir(_, cs) =>
      (forall i | 0 <= i < |cs| :: ValidName(cs[i].name) && WellFormed(cs[i])) &&
      (forall i, j | 0 <= i < j < |cs| :: cs[i].name != cs[j].name)
  }

  /** Reference definition: every regular file of the tree below `n`, which
      sits at `rel`, depth first, nothing skipped. */
  function AllFiles(n: Node, rel: Path): seq<FileEntry> {
    match n
    case File(_, size) => [FileEntry(rel, size)]
    case Dir(_, cs) => AllFilesIn(cs, rel)
  }

  function AllFilesIn(cs: seq<Node>, parent: Path): seq<FileEntry> {
    if cs == [] then []
    else AllFiles(cs[0], parent + [cs[0].name]) + AllFilesIn(cs[1..], parent)
  }

  /** The files the walk of `basic_backup` processes below `n`, which sits at
      `rel`: an entry whose relative-path string is in `ignore` is pruned with
      everything beneath it; a directory is descended into and never copied
      itself; a regular file is processed. */
  function Visit(n: Node, rel: Path, ignore: seq<string>): seq<FileEntry> {
    if RelString(rel) in ignore then []
    else match n
      case File(_, size) => [FileEntry(rel, size)]
      case Dir(_, cs) => VisitIn(cs, rel, ignore)
  }

  function VisitIn(cs: seq<Node>, parent: Path, ignore: seq<string>): seq<FileEntry> {
    if cs == [] then []
    else Visit(cs[0], parent + [cs[0].name], ignore) + VisitIn(cs[1..], parent, ignore)
  }

  /** Sum of the recorded sizes. */
  function TotalSize(es: seq<FileEntry>): nat {
    if es == [] then 0 else es[0].size + TotalSize(es[1..])
  }

  /** Some directory on the way from depth `from` down to `rel` itself (or
      `rel`) has a relative-path string in `ignore`. */
  predicate Ignored(rel: Path, ignore: seq<string>, from: nat) {
    exists k :: from <= k <= |rel| && RelString(rel[..k]) in ignore
  }

  /** The entries none of whose ancestors below depth `from` is ignored. */
  function Keep(es: seq<FileEntry>, ignore: seq<string>, from: nat): seq<FileEntry> {
    if es == [] then []
    else (if Ignored(es[0].rel, ignore, from) then [] else [es[0]]) + Keep(es[1..], ignore, from)
  }

  /** The entries that lie inside the top-level directory `name`. */
  function Within(es: seq<FileEntry>, name: Name): seq<FileEntry> {
    if es == [] then []
    else (if es[0].rel != [] && es[0].rel[0] == name then [es[0]] else []) + Within(es[1..], name)
  }

  /** The entries that do not lie inside the top-level directory `name`. */
  function Outside(es: seq<FileEntry>, name: Name): seq<FileEntry> {
    if es == [] then []
    else (if es[0].rel != [] && es[0].rel[0] == name then [] else [es[0]]) + Outside(es[1..], name)
  }

  /** The same entries seen from `pre` above the directory they were taken
      relative to. */
  function Rebase(pre: Path, es: seq<FileEntry>): seq<FileEntry> {
    if es == [] then [] else [FileEntry(pre + es[0].rel, es[0].size)] + Rebase(pre, es[1..])
  }

  /** The first child called `name`, as `File.join(dir, name)` finds it. */
  function Lookup(cs: seq<Node>, name: Name): (r: Option<Node>)
    ensures r.Some? <==> exists i :: 0 <= i < |cs| && cs[i].name == name
    ensures r.Some? ==> r.value.name == name && r.value in cs
  {
    if cs == [] then None
    else if cs[0].name == name then Some(cs[0])
    else Lookup(cs[1..], name)
  }

  /** Among children with distinct names, `Lookup` finds the one child with
      the name asked for. */
  lemma {:induction false} LookupUnique(cs: seq<Node>, name: Name, i: nat)
    requires forall a, b | 0 <= a < b < |cs| :: cs[a].name != cs[b].name
    requires i < |cs| && cs[i].name == name
    ensures Lookup(cs, name) == Some(cs[i])
  {
    if i > 0 {
      assert cs[0].name != cs[i].name;
      forall a, b | 0 <= a < b < |cs[1..]|
        ensures cs[1..][a].name != cs[1..][b].name
      {
        assert cs[1..][a] == cs[a + 1] && cs[1..][b] == cs[b + 1];
      }
      LookupUnique(cs[1..], name, i - 1);
    }
  }

  /** Every entry lies below `rel`. */
  predicate AllBelow(es: seq<FileEntry>, rel: Path) {
    forall i | 0 <= i < |es| :: IsPrefix(rel, es[i].rel)
  }

  /** No relative path occurs twice. */
  predicate DistinctPaths(es: seq<FileEntry>) {
    forall i, j | 0 <= i < j < |es| :: es[i].rel != es[j].rel
  }

  // ---------------------------------------------------------------------
  // Lemmas about sequences of entries

  lemma {:induction false} TotalSizeAppend(a: seq<FileEntry>, b: seq<FileEntry>)
    ensures TotalSize(a + b) == TotalSize(a) + TotalSize(b)
  {
    if a != [] {
      assert (a + b)[0] == a[0];
      assert (a + b)[1..] == a[1..] + b;
      TotalSizeAppend(a[1..], b);
    } else {
      assert a + b == b;
    }
  }

  lemma {:induction false} KeepAppend(a: seq<FileEntry>, b: seq<FileEntry>, ignore: seq<string>, from: nat)
    ensures Keep(a + b, ignore, from) == Keep(a, ignore, from) + Keep(b, ignore, from)
  {
    if a != [] {
      assert (a + b)[0] == a[0];
      assert (a + b)[1..] == a[1..] + b;
      KeepAppend(a[1..], b, ignore, from);
    } else {
      assert a + b == b;
    }
  }

  lemma {:induction false} WithinAppend(a: seq<FileEntry>, b: seq<FileEntry>, name: Name)
    ensures Within(a + b, name) == Within(a, name) + Within(b, name)
  {
    if a != [] {
      assert (a + b)[0] == a[0];
      assert (a + b)[1..] == a[1..] + b;
      WithinAppend(a[1..], b, name);
    } else {
      assert a + b == b;
    }
  }

  lemma {:induction false} RebaseAppend(pre: Path, a: seq<FileEntry>, b: seq<FileEntry>)
    ensures Rebase(pre, a + b) == Rebase(pre, a) + Rebase(pre, b)
  {
    if a != [] {
      assert (a + b)[0] == a[0];
      assert (a + b)[1..] == a[1..] + b;
      RebaseAppend(pre, a[1..], b);
    } else {
      assert a + b == b;
    }
  }

  /** Splitting the entries by one top-level directory loses and duplicates
      no byte. */
  lemma {:induction false} WithinOutsideSize(es: seq<FileEntry>, name: Name)
    ensures TotalSize(Within(es, name)) + TotalSize(Outside(es, name)) == TotalSize(es)
  {
    if es != [] {
      WithinOutsideSize(es[1..], name);
      var w := if es[0].rel != [] && es[0].rel[0] == name then [es[0]] else [];
      var o := if es[0].rel != [] && es[0].rel[0] == name then [] else [es[0]];
      TotalSizeAppend(w, Within(es[1..], name));
      TotalSizeAppend(o, Outside(es[1..], name));
    }
  }

  /** Rebasing moves entries without changing a byte. */
  lemma {:induction false} RebaseSize(pre: Path, es: seq<FileEntry>)
    ensures TotalSize(Rebase(pre, es)) == TotalSize(es)
  {
    if es != [] {
      RebaseSize(pre, es[1..]);
    }
  }

  /** When every entry lies inside `name`, `Within` keeps all of them and
      `Outside` none. */
  lemma {:induction false} WithinAll(es: seq<FileEntry>, name: Name)
    requires AllBelow(es, [name])
    ensures Within(es, name) == es && Outside(es, name) == []
  {
    if es != [] {
      assert IsPrefix([name], es[0].rel);
      assert es[0].rel[..1] == [name];
      WithinAll(es[1..], name);
    }
  }

  /** When every entry lies inside another top-level directory, `Within`
      keeps none and `Outside` all. */
  lemma {:induction false} WithinNone(es: seq<FileEntry>, other: Name, name: Name)
    requires AllBelow(es, [other]) && other != name
    ensures Within(es, name) == [] && Outside(es, name) == es
  {
    if es != [] {
      assert IsPrefix([other], es[0].rel);
      assert es[0].rel[..1] == [other];
      WithinNone(es[1..], other, name);
    }
  }

  lemma {:induction false} AllBelowAppend(a: seq<FileEntry>, b: seq<FileEntry>, rel: Path)
    requires AllBelow(a, rel) && AllBelow(b, rel)
    ensures AllBelow(a + b, rel)
  {
    forall i | 0 <= i < |a + b|
      ensures IsPrefix(rel, (a + b)[i].rel)
    {
      if i < |a| { assert (a + b)[i] == a[i]; } else { assert (a + b)[i] == b[i - |a|]; }
    }
  }

  // ---------------------------------------------------------------------
  // Lemmas about the walk

  /** Every file reached from `n` at `rel` lies below `rel`. */
  lemma {:induction false} AllFilesBelow(n: Node, rel: Path)
    ensures AllBelow(AllFiles(n, rel), rel)
    decreases n, 1
  {
    match n
    case File(_, _) =>
    case Dir(_, cs) => AllFilesInBelow(cs, rel);
  }

  lemma {:induction false} AllFilesInBelow(cs: seq<Node>, parent: Path)
    ensures AllBelow(AllFilesIn(cs, parent), parent)
    decreases cs, 0
  {
    if cs != [] {
      var here := parent + [cs[0].name];
      AllFilesBelow(cs[0], here);
      AllFilesInBelow(cs[1..], parent);
      forall i | 0 <= i < |AllFiles(cs[0], here)|
        ensures IsPrefix(parent, AllFiles(cs[0], here)[i].rel)
      {
        var r := AllFiles(cs[0], here)[i].rel;
        assert r[..|here|] == here;
        assert r[..|parent|] == here[..|parent|];
      }
      AllBelowAppend(AllFiles(cs[0], here), AllFilesIn(cs[1..], parent), parent);
    }
  }

  /** The files the walk reaches are the files below the entries' own
      relative paths: the walk below `rel` reaches only paths under `rel`. */
  lemma {:induction false} VisitBelow(n: Node, rel: Path, ignore: seq<string>)
    ensures AllBelow(Visit(n, rel, ignore), rel)
    decreases n, 1
  {
    if RelString(rel) !in ignore {
      match n
      case File(_, _) =>
      case Dir(_, cs) => VisitInBelow(cs, rel, ignore);
    }
  }

  lemma {:induction false} VisitInBelow(cs: seq<Node>, parent: Path, ignore: seq<string>)
    ensures AllBelow(VisitIn(cs, parent, ignore), parent)
    ensures forall i | 0 <= i < |VisitIn(cs, parent, ignore)| ::
              |VisitIn(cs, parent, ignore)[i].rel| > |parent| &&
              exists j :: 0 <= j < |cs| && VisitIn(cs, parent, ignore)[i].rel[|parent|] == cs[j].name
    decreases cs, 0
  {
    if cs != [] {
      var here := parent + [cs[0].name];
      var a := Visit(cs[0], here, ignore);
      var b := VisitIn(cs[1..], parent, ignore);
      VisitBelow(cs[0], here, ignore);
      VisitInBelow(cs[1..], parent, ignore);
      forall i | 0 <= i < |a|
        ensures IsPrefix(parent, a[i].rel) && |a[i].rel| > |parent| && a[i].rel[|parent|] == cs[0].name
      {
        var r := a[i].rel;
        assert r[..|here|] == here;
        assert r[..|parent|] == here[..|parent|];
        assert r[|parent|] == here[|parent|];
      }
      forall i | 0 <= i < |a + b|
        ensures IsPrefix(parent, (a + b)[i].rel) && |(a + b)[i].rel| > |parent|
        ensures exists j :: 0 <= j < |cs| && (a + b)[i].rel[|parent|] == cs[j].name
      {
        if i < |a| {
          assert (a + b)[i] == a[i];
          assert (a + b)[i].rel[|parent|] == cs[0].name;
        } else {
          assert (a + b)[i] == b[i - |a|];
          var j :| 0 <= j < |cs[1..]| && b[i - |a|].rel[|parent|] == cs[1..][j].name;
          assert (a + b)[i].rel[|parent|] == cs[j + 1].name;
        }
      }
    }
  }

  /** With nothing to ignore the walk reaches every file. */
  lemma {:induction false} VisitNoIgnore(n: Node, rel: Path)
    ensures Visit(n, rel, []) == AllFiles(n, rel)
    decreases n, 1
  {
    match n
    case File(_, _) =>
    case Dir(_, cs) => VisitInNoIgnore(cs, rel);
  }

  lemma {:induction false} VisitInNoIgnore(cs: seq<Node>, parent: Path)
    ensures VisitIn(cs, parent, []) == AllFilesIn(cs, parent)
    decreases cs, 0
  {
    if cs != [] {
      VisitNoIgnore(cs[0], parent + [cs[0].name]);
      VisitInNoIgnore(cs[1..], parent);
    }
  }

  /** On entries below a `rel` that is not itself ignored, looking for an
      ignored ancestor from `rel`'s depth or from one level deeper is the same. */
  lemma {:induction false} KeepFromDeeper(es: seq<FileEntry>, rel: Path, ignore: seq<string>)
    requires AllBelow(es, rel) && RelString(rel) !in ignore
    ensures Keep(es, ignore, |rel|) == Keep(es, ignore, |rel| + 1)
  {
    if es != [] {
      var r := es[0].rel;
      assert r[..|rel|] == rel;
      if Ignored(r, ignore, |rel|) {
        var k :| |rel| <= k <= |r| && RelString(r[..k]) in ignore;
        assert k != |rel|;
      }
      KeepFromDeeper(es[1..], rel, ignore);
    }
  }

  /** Entries below an ignored `rel` are all ignored. */
  lemma {:induction false} KeepUnderIgnored(es: seq<FileEntry>, rel: Path, ignore: seq<string>)
    requires AllBelow(es, rel) && RelString(rel) in ignore
    ensures Keep(es, ignore, |rel|) == []
  {
    if es != [] {
      var r := es[0].rel;
      assert r[..|rel|] == rel;
      assert Ignored(r, ignore, |rel|);
      KeepUnderIgnored(es[1..], rel, ignore);
    }
  }

  /** Pruning is exact and recursive: the walk with an ignore list is the
      walk without one, minus every file that has an ignored directory on
      its path (or is itself ignored), order kept. */
  lemma {:induction false} VisitIsPrunedWalk(n: Node, rel: Path, ignore: seq<string>)
    ensures Visit(n, rel, ignore) == Keep(AllFiles(n, rel), ignore, |rel|)
    decreases n, 1
  {
    AllFilesBelow(n, rel);
    if RelString(rel) in ignore {
      KeepUnderIgnored(AllFiles(n, rel), rel, ignore);
    } else {
      match n
      case File(_, size) =>
        assert rel[..|rel|] == rel;
      case Dir(_, cs) =>
        VisitInIsPrunedWalk(cs, rel, ignore);
        KeepFromDeeper(AllFilesIn(cs, rel), rel, ignore);
    }
  }

  lemma {:induction false} VisitInIsPrunedWalk(cs: seq<Node>, parent: Path, ignore: seq<string>)
    ensures VisitIn(cs, parent, ignore) == Keep(AllFilesIn(cs, parent), ignore, |parent| + 1)
    decreases cs, 0
  {
    if cs != [] {
      var here := parent + [cs[0].name];
      VisitIsPrunedWalk(cs[0], here, ignore);
      VisitInIsPrunedWalk(cs[1..], parent, ignore);
      KeepAppend(AllFiles(cs[0], here), AllFilesIn(cs[1..], parent), ignore, |parent| + 1);
    }
  }

  /** Moving the tree changes the relative paths of its files by the same
      prefix and nothing else. */
  lemma {:induction false} AllFilesRebase(n: Node, pre: Path, rel: Path)
    ensures AllFiles(n, pre + rel) == Rebase(pre, AllFiles(n, rel))
    decreases n, 1
  {
    match n
    case File(_, _) =>
    case Dir(_, cs) => AllFilesInRebase(cs, pre, rel);
  }

  lemma {:induction false} AllFilesInRebase(cs: seq<Node>, pre: Path, parent: Path)
    ensures AllFilesIn(cs, pre + parent) == Rebase(pre, AllFilesIn(cs, parent))
    decreases cs, 0
  {
    if cs != [] {
      assert (pre + parent) + [cs[0].name] == pre + (parent + [cs[0].name]);
      AllFilesRebase(cs[0], pre, parent + [cs[0].name]);
      AllFilesInRebase(cs[1..], pre, parent);
      RebaseAppend(pre, AllFiles(cs[0], parent + [cs[0].name]), AllFilesIn(cs[1..], parent));
    }
  }

  /** In a well-formed tree the walk never reaches the same relative path
      twice, so no file is processed twice. */
  lemma {:induction false} VisitDistinct(n: Node, rel: Path, ignore: seq<string>)
    requires WellFormed(n)
    ensures DistinctPaths(Visit(n, rel, ignore))
    decreases n, 1
  {
    if RelString(rel) !in ignore {
      match n
      case File(_, _) =>
      case Dir(_, cs) => VisitInDistinct(cs, rel, ignore);
    }
  }

  lemma {:induction false} VisitInDistinct(cs: seq<Node>, parent: Path, ignore: seq<string>)
    requires forall i | 0 <= i < |cs| :: WellFormed(cs[i])
    requires forall i, j | 0 <= i < j < |cs| :: cs[i].name != cs[j].name
    ensures DistinctPaths(VisitIn(cs, parent, ignore))
    decreases cs, 0
  {
    if cs != [] {
      var here := parent + [cs[0].name];
      var a := Visit(cs[0], here, ignore);
      var b := VisitIn(cs[1..], parent, ignore);
      VisitDistinct(cs[0], here, ignore);
      VisitInDistinct(cs[1..], parent, ignore);
      VisitBelow(cs[0], here, ignore);
      VisitInBelow(cs[1..], parent, ignore);
      var ab: seq<FileEntry> := a + b;
      forall i: int, j: int | 0 <= i < j < |ab|
        ensures ab[i].rel != ab[j].rel
      {
        if j < |a| {
          assert (a + b)[i] == a[i] && (a + b)[j] == a[j];
        } else if |a| <= i {
          assert (a + b)[i] == b[i - |a|] && (a + b)[j] == b[j - |a|];
        } else {
          assert (a + b)[i] == a[i] && (a + b)[j] == b[j - |a|];
          var r := a[i].rel;
          assert r[..|here|] == here;
          assert r[|parent|] == cs[0].name;
          var k :| 0 <= k < |cs[1..]| && b[j - |a|].rel[|parent|] == cs[1..][k].name;
          assert cs[1..][k] == cs[k + 1];
        }
      }
    }
  }

  // ---------------------------------------------------------------------
  // Pruning one top-level name

  /** With an ignore list of one valid name, an entry is pruned exactly when
      its path starts with that name. */
  lemma IgnoredByName(rel: Path, name: Name)
    requires ValidName(name)
    ensures Ignored(rel, [name], 0) <==> rel != [] && rel[0] == name
  {
    if Ignored(rel, [name], 0) {
      var k :| 0 <= k <= |rel| && RelString(rel[..k]) in [name];
      RelStringOfName(rel[..k], name);
      assert rel[..k] == [name];
      assert rel[0] == rel[..k][0];
    }
    if rel != [] && rel[0] == name {
      assert rel[..1] == [name];
      RelStringOfName(rel[..1], name);
    }
  }

  lemma {:induction false} KeepNameIsOutside(es: seq<FileEntry>, name: Name)
    requires ValidName(name)
    ensures Keep(es, [name], 0) == Outside(es, name)
  {
    if es != [] {
      IgnoredByName(es[0].rel, name);
      KeepNameIsOutside(es[1..], name);
    }
  }

  /** Walking with the ignore list `[name]` reaches exactly the files that do
      not lie inside the top-level directory `name`, in walk order. */
  lemma PruneNameIsOutside(n: Node, name: Name)
    requires ValidName(name)
    ensures Visit(n, [], [name]) == Outside(AllFiles(n, []), name)
  {
    VisitIsPrunedWalk(n, [], [name]);
    KeepNameIsOutside(AllFiles(n, []), name);
  }

  /** No entry `Outside` keeps lies inside `name`. */
  lemma {:induction false} OutsideExcludes(es: seq<FileEntry>, name: Name)
    ensures forall i | 0 <= i < |Outside(es, name)| ::
              Outside(es, name)[i].rel == [] || Outside(es, name)[i].rel[0] != name
  {
    if es != [] {
      OutsideExcludes(es[1..], name);
      var h := if es[0].rel != [] && es[0].rel[0] == name then [] else [es[0]];
      assert Outside(es, name) == h + Outside(es[1..], name);
    }
  }

  /** In a directory without a child called `name`, no file lies inside
      `name`. */
  lemma {:induction false} WithinAbsent(cs: seq<Node>, name: Name)
    requires forall i | 0 <= i < |cs| :: cs[i].name != name
    ensures Within(AllFilesIn(cs, []), name) == []
  {
    if cs != [] {
      var here := [] + [cs[0].name];
      AllFilesBelow(cs[0], here);
      WithinNone(AllFiles(cs[0], here), cs[0].name, name);
      WithinAbsent(cs[1..], name);
      WithinAppend(AllFiles(cs[0], here), AllFilesIn(cs[1..], []), name);
    }
  }

  /** In a directory whose child `c` is the only one called `name`, the files
      inside `name` are exactly the files of `c`, seen from the directory. */
  lemma {:induction false} WithinChild(cs: seq<Node>, name: Name, c: Node)
    requires forall i, j | 0 <= i < j < |cs| :: cs[i].name != cs[j].name
    requires Lookup(cs, name) == Some(c)
    ensures Within(AllFilesIn(cs, []), name) == AllFiles(c, [name])
  {
    var here := [] + [cs[0].name];
    var first := AllFiles(cs[0], here);
    var rest := AllFilesIn(cs[1..], []);
    assert AllFilesIn(cs, []) == first + rest;
    AllFilesBelow(cs[0], here);
    WithinAppend(first, rest, name);
    if cs[0].name == name {
      assert c == cs[0] && here == [name];
      WithinAll(first, name);
      forall i | 0 <= i < |cs[1..]|
        ensures cs[1..][i].name != name
      {
        assert cs[1..][i] == cs[i + 1];
        assert cs[0].name != cs[i + 1].name;
      }
      WithinAbsent(cs[1..], name);
    } else {
      assert Lookup(cs[1..], name) == Some(c);
      WithinNone(first, cs[0].name, name);
      forall i, j | 0 <= i < j < |cs[1..]|
        ensures cs[1..][i].name != cs[1..][j].name
      {
        assert cs[1..][i] == cs[i + 1] && cs[1..][j] == cs[j + 1];
      }
      WithinChild(cs[1..], name, c);
    }
  }
}
