/** Paths as sequences of name segments, and the string form Ruby's
    `Pathname#relative_path_from(...).to_path` gives a path relative to the
    source root. The ignore list of `basic_backup` is matched against that
    string, so the pruning rule depends on it. */
module Paths {

  type Name = string

  /** A path is the sequence of its segments; the empty path is the directory
      the path is relative to (the source root, or the file system root). */
  type Path = seq<Name>

  /** A name a directory can hold: not empty, no separator, not "." or "..". */
  predicate ValidName(n: Name) {
    n != "" && n != "." && n != ".." && '/' !in n
  }

  /** `a` names `b` itself or a directory above it. */
  predicate IsPrefix(a: Path, b: Path) {
    |a| <= |b| && b[..|a|] == a
  }

  /** The segments joined with "/". */
  function Join(p: Path): string
    requires p != []
  {
    if |p| == 1 then p[0] else p[0] + "/" + Join(p[1..])
  }

  /** `rel_path.to_path` for a path relative to the source root: "." for the
      root itself, the segments joined with "/" below it. */
  function RelString(p: Path): string {
    if p == [] then "." else Join(p)
  }

  /** `File.dirname(rel_path)`: the relative path of the containing directory
      (Ruby's "." for a file at the top is the empty path here). */
  function Parent(p: Path): Path {
    if p == [] then [] else p[..|p| - 1]
  }

  /** `File.basename` of a non-empty relative path. */
  function Base(p: Path): Name
    requires p != []
  {
    p[|p| - 1]
  }

  /** Copying into `dest` joined with the parent directory, under the file's
      own base name, lands exactly at `dest` joined with the relative path. */
  lemma ParentAndBase(dest: Path, rel: Path)
    requires rel != []
    ensures IsPrefix(dest, dest + Parent(rel))
    ensures (dest + Parent(rel)) + [Base(rel)] == dest + rel
  {
    assert Parent(rel) + [Base(rel)] == rel;
  }

  /** Joining is injective: two relative paths under the same destination
      give the same target only when they are the same path. */
  lemma JoinInjective(dest: Path, r1: Path, r2: Path)
    ensures dest + r1 == dest + r2 <==> r1 == r2
  {
    if dest + r1 == dest + r2 {
      assert r1 == (dest + r1)[|dest|..];
      assert r2 == (dest + r2)[|dest|..];
    }
  }

  /** A name is the string of exactly one relative path: the one-segment
      path holding it. Exact string equality is therefore exact path equality:
      no prefix, no glob, and the root's "." never matches a name. */
  lemma {:induction false} RelStringOfName(p: Path, n: Name)
    requires ValidName(n)
    ensures RelString(p) == n <==> p == [n]
  {
    if |p| >= 2 {
      var s := p[0] + "/" + Join(p[1..]);
      assert s[|p[0]|] == '/';
      assert RelString(p) == s;
      assert '/' in RelString(p);
    }
  }

  /** A directory at or below `dest + sub` that lies on the way to the
      parent of `dest + rel` means `rel` lies below `sub`. */
  lemma PrefixThroughParent(dest: Path, sub: Path, q: Path, rel: Path)
    requires IsPrefix(dest + sub, q) && IsPrefix(q, dest + Parent(rel))
    ensures IsPrefix(sub, rel)
  {
    var pr := Parent(rel);
    assert |sub| <= |pr|;
    assert q[..|dest + sub|] == dest + sub;
    assert (dest + pr)[..|dest + sub|] == dest + sub;
    assert (dest + pr)[..|dest + sub|] == dest + pr[..|sub|];
    JoinInjective(dest, pr[..|sub|], sub);
    assert pr == rel[..|pr|];
    assert rel[..|sub|] == sub;
  }
}
