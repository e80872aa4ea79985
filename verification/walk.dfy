/**
  The directory walk `generate_files` drives: walkdir's iterator with
  `follow_links(false)`, seen through the three things the caller uses
  (`next`, `skip_current_dir` and each entry's path). The filesystem under a
  walk root is a finite tree.
 */
module Walk {
  import opened Wrappers
  import opened Paths

  /** A filesystem entry as a walk that does not follow links sees it. */
  datatype Node =
    | File(name: string)
    /** A symbolic link: reported, never followed. */
    | Link(name: string)
    | Dir(name: string, children: seq<Node>)
    /** An entry the walk can only report as an error (vanished, permission denied). */
    | Unreadable(name: string)

  /** An entry waiting to be visited, with the path it will be reported under. */
  datatype Item = Item(path: Path, node: Node)

  /** `walkdir::DirEntry`, as far as the caller looks at it. */
  datatype DirEntry = DirEntry(path: Path, isDir: bool)

  /** What `next()` returns: None, Some(Err(..)) or Some(Ok(entry)). */
  datatype Step = Done | Failed | Entry(entry: DirEntry)

  /**
    The iterator's state: the root, until it has been reported, and one list of
    pending entries per directory opened so far, innermost last.
   */
  datatype WalkState = WalkState(start: Option<Item>, stack: seq<seq<Item>>)

  /** `WalkDir::new(root).into_iter()`. */
  function NewWalk(root: Path, node: Node): (r: WalkState)
    ensures r.stack == [] && r.start == Some(Item(root, node))
  {
    WalkState(Some(Item(root, node)), [])
  }

  /** The pending entries of a directory at `dir` holding `children`, in listing order. */
  function ChildItems(dir: Path, children: seq<Node>): (items: seq<Item>)
    ensures |items| == |children|
    ensures forall i | 0 <= i < |items| :: items[i] == Item(Join(dir, children[i].name), children[i])
    ensures ItemsSize(items) == NodesSize(children)
  {
    if children == [] then []
    else [Item(Join(dir, children[0].name), children[0])] + ChildItems(dir, children[1..])
  }

  /** The entries reporting `it` opens: a directory's children, nothing for anything else. */
  function Children(it: Item): set<Item> {
    match it.node
    case Dir(_, ch) => Elems(ChildItems(it.path, ch))
    case _ => {}
  }

  function Elems(items: seq<Item>): set<Item> {
    set x | x in items
  }

  /** Every entry not yet reported. */
  function Pending(s: WalkState): set<Item> {
    (if s.start.Some? then {s.start.value} else {}) + FramesItems(s.stack)
  }

  function FramesItems(stack: seq<seq<Item>>): set<Item> {
    if stack == [] then {} else FramesItems(stack[..|stack| - 1]) + Elems(stack[|stack| - 1])
  }

  /** A measure of the work left: every pending node counts, and so does every open list. */
  function Size(s: WalkState): nat {
    (if s.start.Some? then NodeSize(s.start.value.node) else 0) + FramesSize(s.stack)
  }

  function FramesSize(stack: seq<seq<Item>>): nat {
    if stack == [] then 0 else FramesSize(stack[..|stack| - 1]) + 1 + ItemsSize(stack[|stack| - 1])
  }

  function ItemsSize(items: seq<Item>): nat {
    if items == [] then 0 else NodeSize(items[0].node) + ItemsSize(items[1..])
  }

  function NodeSize(n: Node): nat
    decreases n
  {
    match n
    case Dir(_, ch) => 2 + NodesSize(ch)
    case _ => 1
  }

  function NodesSize(ns: seq<Node>): nat
    decreases ns
  {
    if ns == [] then 0 else NodeSize(ns[0]) + NodesSize(ns[1..])
  }

  /**
    Report `it`: an unreadable entry is an error; a directory (never a link) is
    reported and its listing opened on top of the stack; anything else is reported.
   */
  function Report(s: WalkState, it: Item): (WalkState, Step) {
    match it.node
    case Unreadable(_) => (s, Failed)
    case Dir(_, ch) => (s.(stack := s.stack + [ChildItems(it.path, ch)]), Entry(DirEntry(it.path, true)))
    case _ => (s, Entry(DirEntry(it.path, false)))
  }

  /**
    `next()`: report the root first; afterwards take the first pending entry of
    the innermost open directory, closing directories whose entries are used up.
   */
  function Next(s: WalkState): (r: (WalkState, Step))
    decreases |s.stack|
    ensures r.1 == Done <==> s.start.None? && FramesItems(s.stack) == {}
    ensures r.1 == Done ==> r.0 == WalkState(None, [])
    ensures !r.1.Entry? ==> Pending(r.0) <= Pending(s)
    ensures r.1.Entry? ==>
      exists it | it in Pending(s) ::
        && it.path == r.1.entry.path
        && r.1.entry.isDir == it.node.Dir?
        && Pending(r.0) <= Pending(s) + Children(it)
        && (it.node.Dir? ==> Pending(SkipCurrentDir(r.0)) <= Pending(s))
    ensures r.1 != Done ==> Size(r.0) < Size(s)
  {
    if s.start.Some? then
      ReportShrinks(s.(start := None), s.start.value);
      Report(s.(start := None), s.start.value)
    else if s.stack == [] then
      (s, Done)
    else
      var top := s.stack[|s.stack| - 1];
      var rest := s.stack[..|s.stack| - 1];
      if top == [] then
        Next(WalkState(None, rest))
      else
        TakeFirst(rest, top);
        ReportShrinks(WalkState(None, rest + [top[1..]]), top[0]);
        Report(WalkState(None, rest + [top[1..]]), top[0])
  }

  /** `skip_current_dir()`: abandon the innermost open directory, if any. */
  function SkipCurrentDir(s: WalkState): (r: WalkState)
    ensures Pending(r) <= Pending(s)
    ensures Size(r) <= Size(s)
  {
    if s.stack == [] then s else s.(stack := s.stack[..|s.stack| - 1])
  }

  /** Taking the first entry of the innermost list leaves the rest pending. */
  lemma TakeFirst(rest: seq<seq<Item>>, top: seq<Item>)
    requires top != []
    ensures FramesItems(rest + [top]) == FramesItems(rest + [top[1..]]) + {top[0]}
    ensures FramesSize(rest + [top]) == FramesSize(rest + [top[1..]]) + NodeSize(top[0].node)
  {
    assert (rest + [top])[..|rest|] == rest;
    assert (rest + [top[1..]])[..|rest|] == rest;
    assert Elems(top) == Elems(top[1..]) + {top[0]} by {
      assert top == [top[0]] + top[1..];
    }
  }

  /** Reporting an entry taken out of the pending work leaves strictly less work, and only adds its children. */
  lemma ReportShrinks(s: WalkState, it: Item)
    requires s.start.None?
    ensures var r := Report(s, it);
      && Size(r.0) < Size(s) + NodeSize(it.node)
      && Pending(r.0) == Pending(s) + Children(it)
      && (it.node.Dir? ==> SkipCurrentDir(r.0) == s)
  {
    match it.node
    case Dir(_, ch) =>
      var st := s.stack + [ChildItems(it.path, ch)];
      assert st[..|st| - 1] == s.stack;
    case _ =>
  }
}
