/**
  Filesystem paths as Rust's std::path sees them once parsed into components:
  an optional root followed by normal components. "/a/b" is Path(true, ["a", "b"]),
  "/" is Path(true, []), "a/b" is Path(false, ["a", "b"]) and the empty path is
  Path(false, []).
 */
module Paths {
  import opened Wrappers

  datatype Path = Path(rooted: bool, parts: seq<string>)

  /** The ancestor of `p` that keeps its first `k` normal components. */
  function Prefix(p: Path, k: nat): Path
    requires k <= |p.parts|
  {
    Path(p.rooted, p.parts[..k])
  }

  /** `p` with one more normal component, as `Path::join` with a plain file name. */
  function Join(dir: Path, name: string): Path {
    Path(dir.rooted, dir.parts + [name])
  }

  /** `Path::parent`: drop the last component; "/" and the empty path have no parent. */
  function Parent(p: Path): (r: Option<Path>)
    ensures r.None? <==> p.parts == []
    ensures r.Some? ==> Join(r.value, p.parts[|p.parts| - 1]) == p
  {
    if p.parts == [] then None else Some(Prefix(p, |p.parts| - 1))
  }

  /**
    `Path::starts_with`: the components of `base` (its root, then its normal
    components) are a prefix of those of `p`. The empty path has no components,
    so every path starts with it.
   */
  predicate StartsWith(p: Path, base: Path): (r: bool)
    ensures r <==> base == Path(false, []) || base in Ancestors(p)
  {
    AncestorsAreBeneath(p, base);
    base == Path(false, []) || Beneath(p, base)
  }

  /** `p` is `top` itself or lies below it: same root, and `top`'s components lead `p`'s. */
  predicate Beneath(p: Path, top: Path) {
    p.rooted == top.rooted && |top.parts| <= |p.parts| && p.parts[..|top.parts|] == top.parts
  }

  /**
    `Path::ancestors`: `p`, then its parent, its parent's parent, and so on up to
    the last path that has no parent ("/" for an absolute path, the empty path for
    a relative one).
   */
  function Ancestors(p: Path): (r: seq<Path>)
    decreases |p.parts|
    ensures |r| == |p.parts| + 1
    ensures forall i | 0 <= i < |r| :: r[i] == Prefix(p, |p.parts| - i)
  {
    match Parent(p)
    case None => [p]
    case Some(q) => [p] + Ancestors(q)
  }

  /** The ancestors of `p` are exactly the paths it lies beneath. */
  lemma AncestorsAreBeneath(p: Path, a: Path)
    ensures a in Ancestors(p) <==> Beneath(p, a)
  {
    var anc := Ancestors(p);
    if Beneath(p, a) {
      var i := |p.parts| - |a.parts|;
      assert anc[i] == Prefix(p, |a.parts|) == a;
    }
    if a in anc {
      var i :| 0 <= i < |anc| && anc[i] == a;
      assert a == Prefix(p, |p.parts| - i);
    }
  }

  /** The prefixes of a joined path up to its parent are the parent's prefixes. */
  lemma PrefixOfJoin(dir: Path, name: string, k: nat)
    requires k <= |dir.parts|
    ensures Prefix(Join(dir, name), k) == Prefix(dir, k)
  {
    assert (dir.parts + [name])[..k] == dir.parts[..k];
  }
}
