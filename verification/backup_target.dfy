/**
  The backup target: the folders to back up, the exclusion globs and the tags;
  how a single path relates to it (`check_path_is_in_backup`) and which paths a
  walk of its folders selects (`generate_files`).

  Canonicalisation reads the live filesystem, so every operation that performs
  it takes `canon`, the answer `Path::canonicalize` gives at that moment (None
  when it fails). A failing `expect`/`unwrap` on it is a panic in the source and
  a precondition here.
 */
module Targets {
  import opened Wrappers
  import opened Paths
  import opened Globs
  import opened Walk

  /** The relation of a path to a backup target (the source spells the first one "Irreverent"). */
  datatype BackupFileSelectionType = Irreverent | Contains | Included | Excluded

  /** The prefix that makes an exclusion text match at any depth. */
  const AnyDepth := "**/"

  /**
    The exclusions of `new_from_string`: each text, in order, becomes a glob
    made of the any-depth prefix followed by the text; the first text whose
    glob does not parse fails the whole list.
   */
  function ParseExclusions(e: GlobEngine, texts: seq<string>): (r: Result<seq<Glob>, GlobError>)
    ensures r.Ok? <==> forall i | 0 <= i < |texts| :: e.valid(AnyDepth + texts[i])
    ensures r.Ok? ==> |r.value| == |texts|
    ensures r.Ok? ==> forall i | 0 <= i < |texts| :: r.value[i] == Glob(AnyDepth + texts[i])
    ensures r.Err? ==>
      exists i | 0 <= i < |texts| ::
        && r.error == GlobError(AnyDepth + texts[i])
        && !e.valid(AnyDepth + texts[i])
        && forall j | 0 <= j < i :: e.valid(AnyDepth + texts[j])
  {
    if texts == [] then Ok([])
    else
      match GlobNew(e, AnyDepth + texts[0])
      case Err(err) => Err(err)
      case Ok(g) =>
        match ParseExclusions(e, texts[1..])
        case Err(err) => Err(err)
        case Ok(rest) => Ok([g] + rest)
  }

  /** The folders of `new`: each folder canonicalised, one for one and in order. */
  function CanonicalizeAll(canon: Path -> Option<Path>, folders: seq<Path>): (r: seq<Path>)
    requires forall i | 0 <= i < |folders| :: canon(folders[i]).Some?
    ensures |r| == |folders|
    ensures forall i | 0 <= i < |folders| :: canon(folders[i]) == Some(r[i])
  {
    seq(|folders|, i requires 0 <= i < |folders| => canon(folders[i]).value)
  }

  /** Some folder is a component-wise prefix of `q`. */
  predicate InsideSome(folders: seq<Path>, q: Path) {
    exists i | 0 <= i < |folders| :: StartsWith(q, folders[i])
  }

  /**
    The scan `folders.iter().find(|c| c.canonicalize().unwrap().starts_with(path))`
    never unwraps a failed canonicalisation: every folder it reaches before it
    stops canonicalises.
   */
  predicate ScanSafe(canon: Path -> Option<Path>, folders: seq<Path>, path: Path) {
    folders == [] ||
    (canon(folders[0]).Some? &&
     (StartsWith(canon(folders[0]).value, path) || ScanSafe(canon, folders[1..], path)))
  }

  /** That scan, evaluated in order: some folder, once canonicalised, starts with `path`. */
  function FindsDescendant(canon: Path -> Option<Path>, folders: seq<Path>, path: Path): (b: bool)
    requires ScanSafe(canon, folders, path)
    ensures b <==> exists i | 0 <= i < |folders| ::
      canon(folders[i]).Some? && StartsWith(canon(folders[i]).value, path)
  {
    if folders == [] then false
    else if StartsWith(canon(folders[0]).value, path) then true
    else
      var b := FindsDescendant(canon, folders[1..], path);
      assert forall i | 1 <= i < |folders| :: folders[i] == folders[1..][i - 1];
      b
  }

  /** `ancestors().any(|c| ex_set.is_match(c))`. */
  function AnyAncestorMatches(e: GlobEngine, gs: GlobSet, path: Path): (b: bool)
    ensures b <==> exists k | 0 <= k <= |path.parts| :: IsMatch(e, gs, Prefix(path, k))
  {
    var anc := Ancestors(path);
    var b := exists i | 0 <= i < |anc| :: IsMatch(e, gs, anc[i]);
    assert b ==> exists k | 0 <= k <= |path.parts| :: IsMatch(e, gs, Prefix(path, k));
    assert (exists k | 0 <= k <= |path.parts| :: IsMatch(e, gs, Prefix(path, k))) ==> b by {
      if k :| 0 <= k <= |path.parts| && IsMatch(e, gs, Prefix(path, k)) {
        assert anc[|path.parts| - k] == Prefix(path, k);
      }
    }
    b
  }

  /**
    A path the walk from `root` may report without having pruned it: it lies
    beneath `root`, and no path from `root` down to its parent matches.
   */
  predicate Clear(e: GlobEngine, gs: GlobSet, root: Path, q: Path) {
    Beneath(q, root) && forall k | |root.parts| <= k < |q.parts| :: !IsMatch(e, gs, Prefix(q, k))
  }

  /** A path the walk from `root` may insert: clear, and not matching itself. */
  predicate Selectable(e: GlobEngine, gs: GlobSet, root: Path, p: Path) {
    Clear(e, gs, root, p) && !IsMatch(e, gs, p)
  }

  predicate AllClear(e: GlobEngine, gs: GlobSet, root: Path, s: WalkState) {
    forall it | it in Pending(s) :: Clear(e, gs, root, it.path)
  }

  /**
    What one folder's walk inserts: every entry reported, unless it matches, in
    which case `skip_current_dir` is called instead; errors are passed over.
   */
  function WalkSelection(e: GlobEngine, gs: GlobSet, s: WalkState): (r: set<Path>)
    ensures s.start.None? && FramesItems(s.stack) == {} ==> r == {}
    decreases Size(s)
  {
    var (s', step) := Next(s);
    match step
    case Done => {}
    case Failed => WalkSelection(e, gs, s')
    case Entry(entry) =>
      if IsMatch(e, gs, entry.path) then WalkSelection(e, gs, SkipCurrentDir(s'))
      else {entry.path} + WalkSelection(e, gs, s')
  }

  /** What one walk from `root` inserts. */
  function FolderSelection(e: GlobEngine, gs: GlobSet, fs: Path -> Node, root: Path): set<Path> {
    WalkSelection(e, gs, NewWalk(root, fs(root)))
  }

  /** What the walks of all `folders`, one after the other, insert into the store. */
  function Selected(e: GlobEngine, gs: GlobSet, fs: Path -> Node, folders: seq<Path>): (r: set<Path>)
    ensures folders == [] ==> r == {}
  {
    if folders == [] then {}
    else
      var root := folders[|folders| - 1];
      Selected(e, gs, fs, folders[..|folders| - 1]) + FolderSelection(e, gs, fs, root)
  }

  /** The store is the union of the single walks, whatever their order. */
  lemma {:induction false} SelectedIsUnion(e: GlobEngine, gs: GlobSet, fs: Path -> Node, folders: seq<Path>, p: Path)
    ensures p in Selected(e, gs, fs, folders) <==>
      exists i | 0 <= i < |folders| :: p in FolderSelection(e, gs, fs, folders[i])
  {
    if folders != [] {
      var n := |folders| - 1;
      var init := folders[..n];
      SelectedIsUnion(e, gs, fs, init, p);
      if p in Selected(e, gs, fs, folders) {
        if p in Selected(e, gs, fs, init) {
          var i :| 0 <= i < |init| && p in FolderSelection(e, gs, fs, init[i]);
          assert init[i] == folders[i];
        } else {
          assert p in FolderSelection(e, gs, fs, folders[n]);
        }
      } else {
        forall i | 0 <= i < |folders| ensures p !in FolderSelection(e, gs, fs, folders[i]) {
          if i < n {
            assert init[i] == folders[i];
          }
        }
      }
    }
  }

  /** The children of a directory that is clear and does not match are clear. */
  lemma ChildrenClear(e: GlobEngine, gs: GlobSet, root: Path, it: Item)
    requires Selectable(e, gs, root, it.path)
    ensures forall c | c in Children(it) :: Clear(e, gs, root, c.path)
  {
    if it.node.Dir? {
      var items := ChildItems(it.path, it.node.children);
      forall c | c in Children(it) ensures Clear(e, gs, root, c.path) {
        var i :| 0 <= i < |items| && items[i] == c;
        var name := it.node.children[i].name;
        assert c.path == Join(it.path, name);
        forall k | |root.parts| <= k < |c.path.parts| ensures !IsMatch(e, gs, Prefix(c.path, k)) {
          PrefixOfJoin(it.path, name, k);
        }
        assert c.path.parts[..|root.parts|] == it.path.parts[..|root.parts|];
      }
    }
  }

  /** Every path one walk inserts lies beneath its root, and neither it nor any path between is excluded. */
  lemma {:induction false} WalkSelectionSound(e: GlobEngine, gs: GlobSet, root: Path, s: WalkState)
    requires AllClear(e, gs, root, s)
    ensures forall p | p in WalkSelection(e, gs, s) :: Selectable(e, gs, root, p)
    decreases Size(s)
  {
    var (s', step) := Next(s);
    match step
    case Done =>
    case Failed =>
      WalkSelectionSound(e, gs, root, s');
    case Entry(entry) =>
      var it :| it in Pending(s) && it.path == entry.path && entry.isDir == it.node.Dir?
        && Pending(s') <= Pending(s) + Children(it)
        && (it.node.Dir? ==> Pending(SkipCurrentDir(s')) <= Pending(s));
      if IsMatch(e, gs, entry.path) {
        assert !it.node.Dir? ==> Children(it) == {};
        WalkSelectionSound(e, gs, root, SkipCurrentDir(s'));
      } else {
        ChildrenClear(e, gs, root, it);
        WalkSelectionSound(e, gs, root, s');
      }
  }

  /** Every path the walks insert is selectable from some folder. */
  lemma {:induction false} SelectedSound(e: GlobEngine, gs: GlobSet, fs: Path -> Node, folders: seq<Path>)
    ensures forall p | p in Selected(e, gs, fs, folders) ::
      exists i | 0 <= i < |folders| :: Selectable(e, gs, folders[i], p)
  {
    if folders != [] {
      var init := folders[..|folders| - 1];
      var root := folders[|folders| - 1];
      SelectedSound(e, gs, fs, init);
      assert Pending(NewWalk(root, fs(root))) == {Item(root, fs(root))};
      WalkSelectionSound(e, gs, root, NewWalk(root, fs(root)));
      forall p | p in Selected(e, gs, fs, folders)
        ensures exists i | 0 <= i < |folders| :: Selectable(e, gs, folders[i], p)
      {
        if p in Selected(e, gs, fs, init) {
          var i :| 0 <= i < |init| && Selectable(e, gs, init[i], p);
          assert folders[i] == init[i];
        } else {
          assert Selectable(e, gs, folders[|folders| - 1], p);
        }
      }
    }
  }

  class BackupTarget {
    var folders: seq<Path>
    var exclusions: seq<Glob>
    var tags: seq<string>

    /** `BackupTarget::new`: canonicalise every folder; globs and tags are kept as given. */
    constructor (canon: Path -> Option<Path>, folders: seq<Path>, exclusions: seq<Glob>, tags: seq<string>)
      requires forall i | 0 <= i < |folders| :: canon(folders[i]).Some?
      ensures this.folders == CanonicalizeAll(canon, folders)
      ensures this.exclusions == exclusions && this.tags == tags
    {
      this.folders := CanonicalizeAll(canon, folders);
      this.exclusions := exclusions;
      this.tags := tags;
    }

    /**
      `BackupTarget::new_from_string`: the exclusion texts are turned into globs
      first, so an invalid one is reported before any folder is canonicalised.
     */
    static method NewFromString(
      e: GlobEngine, canon: Path -> Option<Path>, folders: seq<Path>, exclusions: seq<string>, tags: seq<string>)
      returns (r: Result<BackupTarget, GlobError>)
      requires ParseExclusions(e, exclusions).Ok? ==> forall i | 0 <= i < |folders| :: canon(folders[i]).Some?
      ensures r.Ok? <==> forall i | 0 <= i < |exclusions| :: e.valid(AnyDepth + exclusions[i])
      ensures r.Err? ==> r.error == ParseExclusions(e, exclusions).error
      ensures r.Ok? ==>
        && fresh(r.value)
        && r.value.folders == CanonicalizeAll(canon, folders)
        && r.value.exclusions == ParseExclusions(e, exclusions).value
        && r.value.tags == tags
    {
      match ParseExclusions(e, exclusions)
      case Err(err) =>
        r := Err(err);
      case Ok(globs) =>
        var t := new BackupTarget(canon, folders, globs, tags);
        r := Ok(t);
    }

    /** `add_folder`: append the canonical folder; nothing is checked for duplicates. */
    method AddFolder(canon: Path -> Option<Path>, folder: Path)
      requires canon(folder).Some?
      modifies this
      ensures folders == old(folders) + [canon(folder).value]
      ensures exclusions == old(exclusions) && tags == old(tags)
    {
      folders := folders + [canon(folder).value];
    }

    /** The glob set built from the exclusions, for the functions that cannot call a method. */
    function ExclusionSet(): GlobSet
      reads this
    {
      GlobSet(exclusions)
    }

    /** `get_exclusions_as_globset`: every exclusion added to a builder, in order, then built. */
    method GetExclusionsAsGlobset() returns (gs: GlobSet)
      ensures gs.globs == exclusions
      ensures forall e: GlobEngine, p: Path :: IsMatch(e, gs, p) <==>
        exists i | 0 <= i < |exclusions| :: e.matches(exclusions[i].text, p)
    {
      var builder: seq<Glob> := [];
      for i := 0 to |exclusions|
        invariant builder == exclusions[..i]
      {
        builder := builder + [exclusions[i]];
      }
      gs := GlobSet(builder);
    }

    /**
      `check_path_is_in_backup`. Membership compares the canonical path with the
      folders; the ancestor scan looks at `path` as given; the containment test
      compares each canonicalised folder with `path` as given.
     */
    function CheckPathIsInBackup(e: GlobEngine, canon: Path -> Option<Path>, path: Path): (r: BackupFileSelectionType)
      reads this
      requires folders != [] ==> canon(path).Some?
      requires (folders != [] && InsideSome(folders, canon(path).value)) || ScanSafe(canon, folders, path)
      ensures r.Included? || r.Excluded? <==> folders != [] && InsideSome(folders, canon(path).value)
      ensures r.Excluded? <==>
        && folders != [] && InsideSome(folders, canon(path).value)
        && exists k | 0 <= k <= |path.parts| :: IsMatch(e, ExclusionSet(), Prefix(path, k))
      ensures r.Contains? <==>
        && !(folders != [] && InsideSome(folders, canon(path).value))
        && exists i | 0 <= i < |folders| :: canon(folders[i]).Some? && StartsWith(canon(folders[i]).value, path)
    {
      if folders != [] && InsideSome(folders, canon(path).value) then
        if AnyAncestorMatches(e, ExclusionSet(), path) then Excluded else Included
      else if FindsDescendant(canon, folders, path) then
        Contains
      else
        Irreverent
    }

    /**
      `generate_files`: walk every folder in turn without following links;
      an entry that matches is not inserted and `skip_current_dir` is called;
      every other entry is inserted; walk errors are passed over.
     */
    method GenerateFiles(e: GlobEngine, fs: Path -> Node) returns (store: set<Path>)
      ensures store == Selected(e, ExclusionSet(), fs, folders)
      ensures forall p | p in store :: exists i | 0 <= i < |folders| :: Selectable(e, ExclusionSet(), folders[i], p)
    {
      store := {};
      var exSet := GetExclusionsAsGlobset();
      for i := 0 to |folders|
        invariant store == Selected(e, exSet, fs, folders[..i])
      {
        var folder := folders[i];
        var walk := NewWalk(folder, fs(folder));
        assert folders[..i + 1][..i] == folders[..i];
        while true
          invariant store + WalkSelection(e, exSet, walk) == Selected(e, exSet, fs, folders[..i + 1])
          decreases Size(walk)
        {
          var (w, step) := Next(walk);
          walk := w;
          match step {
            case Done =>
              break;
            case Failed =>
              continue;
            case Entry(entry) =>
              if IsMatch(e, exSet, entry.path) {
                walk := SkipCurrentDir(walk);
                continue;
              }
              store := store + {entry.path};
          }
        }
      }
      assert folders[..|folders|] == folders;
      SelectedSound(e, exSet, fs, folders);
    }
  }
}

/** Consequences of the selection and classification rules, and where the two part ways. */
module TargetProperties {
  import opened Wrappers
  import opened Paths
  import opened Globs
  import opened Walk
  import opened Targets

  /** No path the walks insert matches the exclusion set. */
  lemma NoExcludedPathInserted(e: GlobEngine, gs: GlobSet, fs: Path -> Node, folders: seq<Path>, p: Path)
    requires p in Selected(e, gs, fs, folders)
    ensures !IsMatch(e, gs, p)
    ensures exists i | 0 <= i < |folders| :: StartsWith(p, folders[i])
  {
    SelectedSound(e, gs, fs, folders);
  }

  /**
    Pruning: nothing beneath a matching path `d` is inserted by the walk of any
    folder that reaches `d` from above. A folder lying beneath `d` is walked from
    its own root, which is why the hypothesis is needed.
   */
  lemma PrunedSubtreeAbsent(e: GlobEngine, gs: GlobSet, fs: Path -> Node, folders: seq<Path>, d: Path, p: Path)
    requires IsMatch(e, gs, d) && Beneath(p, d)
    requires forall i | 0 <= i < |folders| :: Beneath(p, folders[i]) ==> Beneath(d, folders[i])
    ensures p !in Selected(e, gs, fs, folders)
  {
    SelectedSound(e, gs, fs, folders);
    forall i | 0 <= i < |folders| ensures !Selectable(e, gs, folders[i], p) {
      if Beneath(p, folders[i]) {
        assert Prefix(p, |d.parts|) == d;
        assert Prefix(p, |p.parts|) == p;
      }
    }
  }

  /**
    The walks and the classifier agree on what they both see: a canonical path
    the walks insert is Included, provided no path strictly above a folder
    matches (the walk never tests those; the classifier's ancestor scan does).
   */
  lemma SelectedIsIncluded(t: BackupTarget, e: GlobEngine, canon: Path -> Option<Path>, fs: Path -> Node, p: Path)
    requires p in Selected(e, t.ExclusionSet(), fs, t.folders)
    requires canon(p) == Some(p)
    requires forall i, k | 0 <= i < |t.folders| && 0 <= k < |t.folders[i].parts| ::
      !IsMatch(e, t.ExclusionSet(), Prefix(t.folders[i], k))
    ensures t.folders != [] && InsideSome(t.folders, p)
    ensures t.CheckPathIsInBackup(e, canon, p) == Included
  {
    var gs := t.ExclusionSet();
    SelectedSound(e, gs, fs, t.folders);
    var i :| 0 <= i < |t.folders| && Selectable(e, gs, t.folders[i], p);
    var f := t.folders[i];
    assert StartsWith(p, f);
    forall k | 0 <= k <= |p.parts| ensures !IsMatch(e, gs, Prefix(p, k)) {
      if k < |f.parts| {
        assert Prefix(p, k) == Prefix(f, k);
      } else if k == |p.parts| {
        assert Prefix(p, k) == p;
      }
    }
  }

  /** With no exclusions, every path inside the target is Included. */
  lemma NoExclusionsNothingExcluded(t: BackupTarget, e: GlobEngine, canon: Path -> Option<Path>, path: Path)
    requires t.exclusions == []
    requires t.folders != [] && canon(path).Some? && InsideSome(t.folders, canon(path).value)
    ensures t.CheckPathIsInBackup(e, canon, path) == Included
  {
  }

  /**
    The containment test compares canonical folders with the path as given, so a
    relative path is never reported as containing a folder that canonicalises to
    an absolute path.
   */
  lemma RelativePathNeverContains(t: BackupTarget, e: GlobEngine, canon: Path -> Option<Path>, path: Path)
    requires !path.rooted && path.parts != []
    requires forall i | 0 <= i < |t.folders| :: canon(t.folders[i]).Some? && canon(t.folders[i]).value.rooted
    requires t.folders != [] ==> canon(path).Some?
    ensures ScanSafe(canon, t.folders, path)
    ensures t.CheckPathIsInBackup(e, canon, path) != Contains
  {
    SafeWhenAllCanonical(canon, t.folders, path);
  }

  lemma {:induction false} SafeWhenAllCanonical(canon: Path -> Option<Path>, folders: seq<Path>, path: Path)
    requires forall i | 0 <= i < |folders| :: canon(folders[i]).Some?
    ensures ScanSafe(canon, folders, path)
  {
    if folders != [] {
      SafeWhenAllCanonical(canon, folders[1..], path);
    }
  }

  /** Deserialising the serialised exclusions of `new_from_string` gives the same globs, prefixed once. */
  lemma ExclusionsSurviveSerde(e: GlobEngine, texts: seq<string>, i: nat)
    requires ParseExclusions(e, texts).Ok? && i < |texts|
    ensures Deserialize(e, Serialize(ParseExclusions(e, texts).value[i])) == Ok(Glob(AnyDepth + texts[i]))
  {
  }

  /**
    A walk error is passed over: an unreadable entry at the head of the innermost
    directory changes nothing about what the rest of the walk inserts.
   */
  lemma UnreadableEntryPassedOver(
    e: GlobEngine, gs: GlobSet, rest: seq<seq<Item>>, top: seq<Item>, path: Path, name: string)
    ensures WalkSelection(e, gs, WalkState(None, rest + [[Item(path, Unreadable(name))] + top]))
         == WalkSelection(e, gs, WalkState(None, rest + [top]))
  {
    var frame := [Item(path, Unreadable(name))] + top;
    var s := WalkState(None, rest + [frame]);
    assert s.stack[..|s.stack| - 1] == rest;
    assert frame[1..] == top;
    assert Next(s) == (WalkState(None, rest + [top]), Failed);
  }

  /** An engine whose globs all match exactly the paths whose last component is `name`. */
  function LastIs(name: string): GlobEngine {
    GlobEngine(_ => true, (_, p: Path) => p.parts != [] && p.parts[|p.parts| - 1] == name)
  }

  /** The steps of the walk of /data holding only /data/cache/keep, up to the report of /data/cache. */
  lemma CacheWalkSteps(data: Path, cache: Path, keep: Path)
    requires data == Path(true, ["data"]) && cache == Path(true, ["data", "cache"])
    requires keep == Path(true, ["data", "cache", "keep"])
    ensures Next(NewWalk(data, Dir("data", [Dir("cache", [Dir("keep", [])])])))
      == (WalkState(None, [[Item(cache, Dir("cache", [Dir("keep", [])]))]]), Entry(DirEntry(data, true)))
    ensures Next(WalkState(None, [[Item(cache, Dir("cache", [Dir("keep", [])]))]]))
      == (WalkState(None, [[], [Item(keep, Dir("keep", []))]]), Entry(DirEntry(cache, true)))
    ensures SkipCurrentDir(WalkState(None, [[], [Item(keep, Dir("keep", []))]])) == WalkState(None, [[]])
  {
    var keepNode := Dir("keep", []);
    var cacheNode := Dir("cache", [keepNode]);
    assert Join(data, "cache") == cache && Join(cache, "keep") == keep;
    assert ChildItems(data, [cacheNode]) == [Item(cache, cacheNode)];
    assert ChildItems(cache, [keepNode]) == [Item(keep, keepNode)];
    var s1 := WalkState(None, [[Item(cache, cacheNode)]]);
    var s2 := WalkState(None, [[], [Item(keep, keepNode)]]);
    var s3 := WalkState(None, [[]]);
    assert Next(s1) == Report(s3, Item(cache, cacheNode)) by {
      assert s1.stack[..0] + [[Item(cache, cacheNode)][1..]] == s3.stack;
    }
    assert Report(s3, Item(cache, cacheNode)) == (s2, Entry(DirEntry(cache, true))) by {
      assert s3.stack + [[Item(keep, keepNode)]] == s2.stack;
    }
  }

  /** The walk of a directory /data holding only /data/cache/keep, with every `cache` excluded, inserts /data alone. */
  lemma {:induction false} DataWalkPrunesCache(gs: GlobSet)
    requires gs == GlobSet([Glob("**/cache")])
    ensures WalkSelection(LastIs("cache"), gs,
      NewWalk(Path(true, ["data"]), Dir("data", [Dir("cache", [Dir("keep", [])])]))) == {Path(true, ["data"])}
  {
    var e := LastIs("cache");
    var data := Path(true, ["data"]);
    var cache := Path(true, ["data", "cache"]);
    var keep := Path(true, ["data", "cache", "keep"]);
    assert IsMatch(e, gs, cache) by { assert e.matches(gs.globs[0].text, cache); }
    assert !IsMatch(e, gs, data);
    CacheWalkSteps(data, cache, keep);
    var s0 := NewWalk(data, Dir("data", [Dir("cache", [Dir("keep", [])])]));
    var s1 := WalkState(None, [[Item(cache, Dir("cache", [Dir("keep", [])]))]]);
    var s3 := WalkState(None, [[]]);
    var s4 := WalkState(None, []);
    assert Next(s3) == Next(s4) == (s4, Done);
    assert WalkSelection(e, gs, s3) == {};
    assert WalkSelection(e, gs, s1) == WalkSelection(e, gs, s3);
    assert WalkSelection(e, gs, s0) == {data} + WalkSelection(e, gs, s1);
  }

  /** The walk of a childless directory inserts its root, unless the root itself matches. */
  lemma EmptyDirWalk(e: GlobEngine, gs: GlobSet, root: Path, name: string)
    ensures WalkSelection(e, gs, NewWalk(root, Dir(name, []))) == if IsMatch(e, gs, root) then {} else {root}
  {
    var s1 := WalkState(None, [[]]);
    assert Next(NewWalk(root, Dir(name, []))) == (s1, Entry(DirEntry(root, true)));
    assert Next(s1) == (WalkState(None, []), Done);
    assert SkipCurrentDir(s1) == WalkState(None, []);
  }

  /**
    With folders /data and /data/cache/keep and the exclusion matching every
    `cache`, the first walk prunes /data/cache but the second inserts
    /data/cache/keep, which the classifier reports as Excluded.
   */
  lemma NestedFolderReentersExcludedDir(t: BackupTarget)
    requires t.folders == [Path(true, ["data"]), Path(true, ["data", "cache", "keep"])]
    requires t.exclusions == [Glob("**/cache")]
    ensures var fs := (p: Path) =>
      if p == Path(true, ["data"]) then Dir("data", [Dir("cache", [Dir("keep", [])])]) else Dir("keep", []);
      Selected(LastIs("cache"), t.ExclusionSet(), fs, t.folders)
        == {Path(true, ["data"]), Path(true, ["data", "cache", "keep"])}
    ensures t.CheckPathIsInBackup(LastIs("cache"), p => Some(p), Path(true, ["data", "cache", "keep"])) == Excluded
  {
    var e := LastIs("cache");
    var gs := t.ExclusionSet();
    var data := Path(true, ["data"]);
    var cache := Path(true, ["data", "cache"]);
    var keep := Path(true, ["data", "cache", "keep"]);
    var fs := (p: Path) =>
      if p == Path(true, ["data"]) then Dir("data", [Dir("cache", [Dir("keep", [])])]) else Dir("keep", []);
    DataWalkPrunesCache(gs);
    EmptyDirWalk(e, gs, keep, "keep");
    assert !IsMatch(e, gs, keep);
    assert t.folders[..1] == [data];
    assert Selected(e, gs, fs, [data]) == {data};
    assert IsMatch(e, gs, cache) by { assert e.matches(gs.globs[0].text, cache); }
    assert Prefix(keep, 2) == cache;
    assert StartsWith(keep, t.folders[1]);
  }

  /** The steps of the walk of /data holding a.log then b.txt, up to the report of a.log. */
  lemma LogWalkSteps(data: Path, a: Path, b: Path)
    requires data == Path(true, ["data"]) && a == Path(true, ["data", "a.log"]) && b == Path(true, ["data", "b.txt"])
    ensures Next(NewWalk(data, Dir("data", [File("a.log"), File("b.txt")])))
      == (WalkState(None, [[Item(a, File("a.log")), Item(b, File("b.txt"))]]), Entry(DirEntry(data, true)))
    ensures Next(WalkState(None, [[Item(a, File("a.log")), Item(b, File("b.txt"))]]))
      == (WalkState(None, [[Item(b, File("b.txt"))]]), Entry(DirEntry(a, false)))
    ensures SkipCurrentDir(WalkState(None, [[Item(b, File("b.txt"))]])) == WalkState(None, [])
  {
    assert Join(data, "a.log") == a && Join(data, "b.txt") == b;
    var items := [Item(a, File("a.log")), Item(b, File("b.txt"))];
    assert ChildItems(data, [File("a.log"), File("b.txt")]) == items;
    var s1 := WalkState(None, [items]);
    var s2 := WalkState(None, [[Item(b, File("b.txt"))]]);
    assert Next(s1) == Report(s2, items[0]) by {
      assert s1.stack[..0] + [items[1..]] == s2.stack;
    }
  }

  /** Under the exclusion of every a.log, /data/a.log matches and /data does not. */
  lemma LogMatchesOnlyLog(gs: GlobSet, data: Path, a: Path)
    requires gs == GlobSet([Glob("**/a.log")])
    requires data == Path(true, ["data"]) && a == Path(true, ["data", "a.log"])
    ensures IsMatch(LastIs("a.log"), gs, a) && !IsMatch(LastIs("a.log"), gs, data)
  {
    assert LastIs("a.log").matches(gs.globs[0].text, a);
  }

  /** The walk of /data holding a.log then b.txt, with a.log matching, inserts /data alone. */
  lemma {:induction false} LogWalkStopsAtMatch(gs: GlobSet)
    requires gs == GlobSet([Glob("**/a.log")])
    ensures WalkSelection(LastIs("a.log"), gs,
      NewWalk(Path(true, ["data"]), Dir("data", [File("a.log"), File("b.txt")]))) == {Path(true, ["data"])}
  {
    var e := LastIs("a.log");
    var data := Path(true, ["data"]);
    var a := Path(true, ["data", "a.log"]);
    var b := Path(true, ["data", "b.txt"]);
    LogMatchesOnlyLog(gs, data, a);
    LogWalkSteps(data, a, b);
    var s0 := NewWalk(data, Dir("data", [File("a.log"), File("b.txt")]));
    var s1 := WalkState(None, [[Item(a, File("a.log")), Item(b, File("b.txt"))]]);
    var s3 := WalkState(None, []);
    assert Next(s3) == (s3, Done);
    assert WalkSelection(e, gs, s3) == {};
    assert WalkSelection(e, gs, s1) == WalkSelection(e, gs, s3);
    assert WalkSelection(e, gs, s0) == {data} + WalkSelection(e, gs, s1);
  }

  /**
    `skip_current_dir` after a matching file abandons the rest of that file's
    directory: in /data holding a.log then b.txt, with only a.log matching,
    b.txt is never inserted although nothing excludes it.
   */
  lemma ExcludedFileEndsItsDirectory(t: BackupTarget)
    requires t.folders == [Path(true, ["data"])]
    requires t.exclusions == [Glob("**/a.log")]
    ensures var fs := (p: Path) => Dir("data", [File("a.log"), File("b.txt")]);
      && Selected(LastIs("a.log"), t.ExclusionSet(), fs, t.folders) == {Path(true, ["data"])}
      && !IsMatch(LastIs("a.log"), t.ExclusionSet(), Path(true, ["data", "b.txt"]))
  {
    LogWalkStopsAtMatch(t.ExclusionSet());
    assert t.folders[..0] == [];
  }
}
