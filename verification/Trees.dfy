/** Directory trees survive the trip: collecting a tree, streaming it and replaying it rebuilds the
    same relative files, contents and directories. */
module Trees {
  import opened Base
  import opened Text
  import opened FileSystem
  import opened Protocol
  import opened Sources
  import opened Copying
  import C = Connections
  import R = Refinement
  import S = Streaming
  import PathPolicy

  // ---------- what a tree is, read directly ----------

  /** The files of a tree placed at `at`. */
  function TreeFiles(at: Path, node: Tree): map<Path, seq<byte>>
    decreases node, 0
  {
    match node
    case FileNode(content) => map[at := content]
    case DirNode(children) => ChildrenFiles(at, children)
    case Unusable(_) => map[]
  }

  function ChildrenFiles(at: Path, children: seq<Child>): map<Path, seq<byte>>
    decreases children, 1
  {
    if children == [] then map[]
    else TreeFiles(at + [children[0].name], children[0].node) + ChildrenFiles(at, children[1..])
  }

  /** The directories of a tree placed at `at`, empty ones included. */
  function TreeDirs(at: Path, node: Tree): set<Path>
    decreases node, 0
  {
    match node
    case DirNode(children) => {at} + ChildrenDirs(at, children)
    case _ => {}
  }

  function ChildrenDirs(at: Path, children: seq<Child>): set<Path>
    decreases children, 1
  {
    if children == [] then {}
    else TreeDirs(at + [children[0].name], children[0].node) + ChildrenDirs(at, children[1..])
  }

  /** Entry names are proper and distinct within each directory. */
  predicate ProperTree(node: Tree)
    decreases node, 0
  {
    node.DirNode? ==> ProperChildren(node.children)
  }

  predicate ProperChildren(children: seq<Child>)
    decreases children, 1
  {
    children != [] ==>
      && PathPolicy.ProperName(children[0].name)
      && ProperTree(children[0].node)
      && (forall c :: c in children[1..] ==> c.name != children[0].name)
      && ProperChildren(children[1..])
  }

  // ---------- placing a tree ----------

  /** The destination with the tree added. */
  function Grown(fs: Fs, at: Path, node: Tree): Fs {
    Fs(fs.files + TreeFiles(at, node), fs.dirs + TreeDirs(at, node) + Prefixes(Parent(at)))
  }

  predicate EndsWith(name: string, suffix: string) {
    |suffix| <= |name| && name[|name| - |suffix|..] == suffix
  }

  /** No path in the set is named like a temporary sibling stamped with one of `marks`. */
  ghost predicate NoTemps(paths: set<Path>, marks: set<string>) {
    forall p, s :: p in paths && p != [] && s in marks ==> !EndsWith(p[|p| - 1], ".agent-send-" + s + ".part")
  }

  /** Nothing at the destination is in the tree's way, and no name looks like a temporary one. */
  ghost predicate Vacant(fs: Fs, at: Path, node: Tree, marks: set<string>) {
    && (forall q :: q in TreeFiles(at, node) ==> !Exists(fs, q))
    && (forall q :: q in TreeDirs(at, node) ==> q !in fs.files)
    && (forall q :: q in Prefixes(Parent(at)) && at != [] ==> q !in fs.files)
    && NoTemps(fs.files.Keys + fs.dirs, marks)
    && NoTemps(TreeFiles(at, node).Keys + TreeDirs(at, node) + Prefixes(Parent(at)), marks)
  }

  lemma {:induction false} TreeIsBelow(at: Path, node: Tree)
    ensures forall q :: q in TreeFiles(at, node) || q in TreeDirs(at, node) ==> at <= q
    decreases node, 0
  {
    if node.DirNode? {
      ChildrenAreBelow(at, node.children);
      forall q | q in TreeFiles(at, node) || q in TreeDirs(at, node) ensures at <= q {
        if q != at {
          assert q in ChildrenFiles(at, node.children) || q in ChildrenDirs(at, node.children);
        }
      }
    }
  }

  lemma {:induction false} ChildrenAreBelow(at: Path, children: seq<Child>)
    ensures forall q :: q in ChildrenFiles(at, children) || q in ChildrenDirs(at, children) ==> at <= q && |q| > |at|
    decreases children, 1
  {
    if children != [] {
      var child := at + [children[0].name];
      TreeIsBelow(child, children[0].node);
      ChildrenAreBelow(at, children[1..]);
      forall q | q in ChildrenFiles(at, children) || q in ChildrenDirs(at, children)
        ensures at <= q && |q| > |at|
      {
        if q in TreeFiles(child, children[0].node) || q in TreeDirs(child, children[0].node) {
          PrefixTransitive(at, child, q);
        } else {
          assert q in ChildrenFiles(at, children[1..]) || q in ChildrenDirs(at, children[1..]);
        }
      }
    }
  }

  predicate Apart(a: Path, b: Path) { !(a <= b) && !(b <= a) }

  lemma PrefixTransitive(a: Path, b: Path, c: Path)
    requires a <= b <= c
    ensures a <= c
  {
    assert a == b[..|a|] == c[..|b|][..|a|] == c[..|a|];
  }

  lemma PrefixesCompare(a: Path, b: Path, q: Path)
    requires a <= q && b <= q
    ensures a <= b || b <= a
  {
    assert a == q[..|a|] && b == q[..|b|];
    if |a| <= |b| { assert a == b[..|a|]; } else { assert b == a[..|b|]; }
  }

  /** Two trees placed apart share no path, and neither sits above the other. */
  lemma TreesAreApart(a: Path, x: Tree, b: Path, y: Tree)
    requires Apart(a, b)
    ensures forall q :: q in TreeFiles(b, y) || q in TreeDirs(b, y) ==>
              q !in TreeFiles(a, x) && q !in TreeDirs(a, x) && q !in Prefixes(Parent(a))
    ensures forall q :: q in Prefixes(Parent(b)) ==> q !in TreeFiles(a, x)
  {
    hide TreeFiles, TreeDirs;
    TreeIsBelow(a, x);
    TreeIsBelow(b, y);
    forall q | q in TreeFiles(b, y) || q in TreeDirs(b, y)
      ensures q !in TreeFiles(a, x) && q !in TreeDirs(a, x) && q !in Prefixes(Parent(a))
    {
      if q in TreeFiles(a, x) || q in TreeDirs(a, x) {
        PrefixesCompare(a, b, q);
      }
      if q in Prefixes(Parent(a)) {
        PrefixTransitive(q, Parent(a), a);
        PrefixTransitive(b, q, a);
      }
    }
    forall q | q in Prefixes(Parent(b)) ensures q !in TreeFiles(a, x) {
      if q in TreeFiles(a, x) {
        PrefixTransitive(q, Parent(b), b);
        PrefixTransitive(a, q, b);
      }
    }
  }

  /** Growing one tree leaves room for another that lies apart from it. */
  lemma VacantBeside(fs: Fs, a: Path, x: Tree, b: Path, y: Tree, marks: set<string>)
    requires Vacant(fs, a, x, marks) && Vacant(fs, b, y, marks) && Apart(a, b)
    ensures Vacant(Grown(fs, a, x), b, y, marks)
  {
    hide TreeFiles, TreeDirs, EndsWith;
    TreesAreApart(a, x, b, y);
    assert Grown(fs, a, x).files.Keys == fs.files.Keys + TreeFiles(a, x).Keys;
  }

  /** Adding directories already there changes nothing. */
  lemma PrefixesOfDir(fs: Fs, p: Path)
    requires WellFormed(fs) && p in fs.dirs
    ensures Prefixes(p) <= fs.dirs
  {
    forall q | q in Prefixes(p) ensures q in fs.dirs {
      if q != p {
        R.AncestorsAreDirs(fs, p, q);
      }
    }
  }

  lemma PrefixesStep(p: Path)
    requires p != []
    ensures Prefixes(p) == Prefixes(Parent(p)) + {p}
  {
    forall q | q in Prefixes(p) ensures q in Prefixes(Parent(p)) + {p} {
      assert q == p[..|q|];
      if |q| < |p| { assert q == Parent(p)[..|q|]; } else { assert q == p; }
    }
  }

  lemma {:induction false} CopyAllAppend(fs: Fs, folder: Folder, a: seq<Entry>, b: seq<Entry>, sa: seq<string>,
                                         sb: seq<string>)
    requires |sa| == |a| && |sb| == |b| && CopyAll(fs, folder, a, sa).result.Ok?
    ensures CopyAll(fs, folder, a + b, sa + sb) == CopyAll(CopyAll(fs, folder, a, sa).fs, folder, b, sb)
    decreases |a|
  {
    hide CopyOne;
    if a == [] {
      assert a + b == b && sa + sb == sb;
    } else {
      assert (a + b)[0] == a[0] && (a + b)[1..] == a[1..] + b;
      assert (sa + sb)[0] == sa[0] && (sa + sb)[1..] == sa[1..] + sb;
      CopyAllAppend(CopyOne(fs, folder, a[0], sa[0]).fs, folder, a[1..], b, sa[1..], sb);
    }
  }

  lemma CopyOneEntry(fs: Fs, folder: Folder, e: Entry, stamp: string)
    ensures CopyAll(fs, folder, [e], [stamp]) == CopyOne(fs, folder, e, stamp)
  {
    var one := CopyOne(fs, folder, e, stamp);
    assert one.result.Ok? ==> one.result.value == ();
    assert [e][1..] == [] && [stamp][1..] == [];
  }

  /** A relative path the destination accepts, leading to `at`. */
  predicate LeadsTo(fs: Fs, folder: Folder, relative: string, at: Path) {
    relative != "" && WriteTarget(fs, folder, relative) == Ok(at)
  }

  lemma TempLooksTemporary(at: Path, stamp: string)
    requires at != []
    ensures var temp := TempPath(at, stamp);
            temp != [] && EndsWith(temp[|temp| - 1], ".agent-send-" + stamp + ".part")
  {
    var temp := TempPath(at, stamp);
    var stem, suffix := Stem(at[|at| - 1]), ".agent-send-" + stamp + ".part";
    assert temp[|temp| - 1] == stem + suffix;
  }

  lemma CopyFileGrows(fs: Fs, at: Path, content: seq<byte>, stamp: string, marks: set<string>)
    requires at != [] && stamp in marks && Vacant(fs, at, FileNode(content), marks)
    ensures !Exists(fs, at)
    ensures CopyFile(fs, at, PathPolicy.InName, content, stamp) == Copied(Grown(fs, at, FileNode(content)), Ok(()))
  {
    hide EndsWith, TempPath;
    TempLooksTemporary(at, stamp);
    assert at in TreeFiles(at, FileNode(content));
    var temp := TempPath(at, stamp);
    assert temp !in fs.files.Keys + fs.dirs && temp !in Prefixes(Parent(at));
    assert fs.dirs + {} + Prefixes(Parent(at)) == fs.dirs + Prefixes(Parent(at));
    assert fs.files + map[at := content] == fs.files[at := content];
  }

  lemma CopyFileNode(fs: Fs, folder: Folder, at: Path, relative: string, content: seq<byte>, stamp: string,
                     marks: set<string>)
    requires WellFormed(fs) && LeadsTo(fs, folder, relative, at) && PathPolicy.EndingOf(relative).InName?
    requires Vacant(fs, at, FileNode(content), marks) && stamp in marks
    ensures CopyAll(fs, folder, [Entry(relative, false, content)], [stamp])
         == Copied(Grown(fs, at, FileNode(content)), Ok(()))
    ensures WellFormed(Grown(fs, at, FileNode(content)))
  {
    hide WriteTarget, CopyFile, Grown, WellFormed, PathPolicy.EndingOf;
    var e := Entry(relative, false, content);
    RootIsDir(fs, folder, relative, at);
    assert at in TreeFiles(at, FileNode(content));
    CopyFileGrows(fs, at, content, stamp, marks);
    CopyOneEntry(fs, folder, e, stamp);
    R.CopyKeepsShape(fs, folder, e, stamp);
  }

  lemma RootIsDir(fs: Fs, folder: Folder, relative: string, at: Path)
    requires WriteTarget(fs, folder, relative) == Ok(at)
    ensures folder.root <= at && folder.root in fs.dirs
    ensures at == folder.root + PathPolicy.Names(relative)
  {
  }

  // ---------- copying a tree ----------

  /** An empty directory named with a final ".", where there is no directory yet: the one tree the
      system refuses to make. */
  predicate Hollow(fs: Fs, at: Path, relative: string, node: Tree) {
    PathPolicy.EndingOf(relative).InDot? && node == DirNode([]) && at !in fs.dirs
  }

  function GrownChildren(fs: Fs, at: Path, children: seq<Child>): Fs {
    Fs(fs.files + ChildrenFiles(at, children),
       fs.dirs + ChildrenDirs(at, children) + if children == [] then {} else Prefixes(at))
  }

  lemma {:induction false} ChildIsWithin(at: Path, children: seq<Child>, c: Child)
    requires c in children
    ensures TreeFiles(at + [c.name], c.node).Keys <= ChildrenFiles(at, children).Keys
    ensures TreeDirs(at + [c.name], c.node) <= ChildrenDirs(at, children)
    decreases |children|
  {
    if c != children[0] {
      ChildIsWithin(at, children[1..], c);
    }
  }

  lemma VacantChild(fs: Fs, at: Path, children: seq<Child>, c: Child, marks: set<string>)
    requires Vacant(fs, at, DirNode(children), marks) && c in children
    ensures Vacant(fs, at + [c.name], c.node, marks)
  {
    hide EndsWith, ChildrenFiles, ChildrenDirs;
    ChildIsWithin(at, children, c);
    assert Parent(at + [c.name]) == at;
    assert at in TreeDirs(at, DirNode(children));
    forall q | q in Prefixes(at) ensures q == at || (at != [] && q in Prefixes(Parent(at))) {
      if at != [] {
        PrefixesStep(at);
      }
    }
  }

  lemma GrownIsMonotone(fs: Fs, at: Path, node: Tree, folder: Folder, relative: string, p: Path)
    requires LeadsTo(fs, folder, relative, p)
    ensures LeadsTo(Grown(fs, at, node), folder, relative, p)
  {
  }

  lemma ChildLeadsBelow(fs: Fs, folder: Folder, relative: string, at: Path, name: string)
    requires LeadsTo(fs, folder, relative, at) && PathPolicy.ProperName(name)
    ensures LeadsTo(fs, folder, PathPolicy.Join(relative, name), at + [name])
    ensures PathPolicy.EndingOf(PathPolicy.Join(relative, name)).InName?
  {
    hide PathPolicy.Names, PathPolicy.RelativeError, PathPolicy.EndingOf;
    PathPolicy.JoinDescends(relative, name);
    RootIsDir(fs, folder, relative, at);
    assert folder.root + (PathPolicy.Names(relative) + [name]) == at + [name];
    assert PathPolicy.Join(relative, name) != "";
  }

  /** Copying a collected tree into a vacant place grows exactly that tree there. */
  lemma {:induction false} CopyTree(fs: Fs, folder: Folder, at: Path, relative: string, node: Tree, stamps: seq<string>,
                                    marks: set<string>)
    requires WellFormed(fs) && LeadsTo(fs, folder, relative, at) && ProperTree(node)
    requires Collect(node, relative).Ok? && |stamps| == |Collect(node, relative).value|
    requires (forall s :: s in stamps ==> s in marks) && Vacant(fs, at, node, marks) && !Hollow(fs, at, relative, node)
    ensures CopyAll(fs, folder, Collect(node, relative).value, stamps) == Copied(Grown(fs, at, node), Ok(()))
    ensures WellFormed(Grown(fs, at, node))
    decreases node, 0
  {
    hide WellFormed, Vacant, Grown, CopyOne, CopyAll, LeadsTo, PathPolicy.EndingOf;
    match node
    case FileNode(content) =>
      assert stamps == [stamps[0]];
      CopyFileNode(fs, folder, at, relative, content, stamps[0], marks);
    case DirNode(children) =>
      var inner := CollectChildren(children, relative).value;
      var n := |inner|;
      assert stamps == stamps[..n] + [stamps[n]];
      forall c | c in children ensures Vacant(fs, at + [c.name], c.node, marks) {
        VacantChild(fs, at, children, c, marks);
      }
      CopyChildren(fs, folder, at, relative, children, stamps[..n], marks);
      var e := Entry(relative, true, []);
      CopyAllAppend(fs, folder, inner, [e], stamps[..n], [stamps[n]]);
      CopyOneEntry(GrownChildren(fs, at, children), folder, e, stamps[n]);
      CloseDirectory(fs, folder, at, relative, children, stamps[n], marks);
    case Unusable(_) =>
  }

  /** The directory item that follows a directory's contents completes the tree. */
  lemma CloseDirectory(fs: Fs, folder: Folder, at: Path, relative: string, children: seq<Child>, stamp: string,
                       marks: set<string>)
    requires WellFormed(fs) && LeadsTo(fs, folder, relative, at) && Vacant(fs, at, DirNode(children), marks)
    requires WellFormed(GrownChildren(fs, at, children)) && !Hollow(fs, at, relative, DirNode(children))
    ensures CopyOne(GrownChildren(fs, at, children), folder, Entry(relative, true, []), stamp)
         == Copied(Grown(fs, at, DirNode(children)), Ok(()))
    ensures WellFormed(Grown(fs, at, DirNode(children)))
  {
    hide ChildrenFiles, ChildrenDirs, EndsWith, PathPolicy.Names, PathPolicy.RelativeError, PathPolicy.EndingOf,
      WellFormed;
    var fs1 := GrownChildren(fs, at, children);
    var e := Entry(relative, true, []);
    ChildrenAreBelow(at, children);
    RootIsDir(fs, folder, relative, at);
    assert at in TreeDirs(at, DirNode(children));
    if at != [] {
      PrefixesStep(at);
    } else {
      assert Prefixes(at) == {at};
    }
    assert !Blocked(fs1, at) && at !in fs1.files;
    if at in fs.dirs {
      PrefixesOfDir(fs, at);
    }
    assert Grown(fs, at, DirNode(children)).dirs == fs1.dirs + Prefixes(at);
    assert at in fs1.dirs ==> fs1.dirs + Prefixes(at) == fs1.dirs;
    R.CopyKeepsShape(fs1, folder, e, stamp);
  }

  lemma {:induction false} CopyChildren(fs: Fs, folder: Folder, at: Path, relative: string, children: seq<Child>,
                                        stamps: seq<string>, marks: set<string>)
    requires WellFormed(fs) && LeadsTo(fs, folder, relative, at) && ProperChildren(children)
    requires CollectChildren(children, relative).Ok? && |stamps| == |CollectChildren(children, relative).value|
    requires forall s :: s in stamps ==> s in marks
    requires forall c :: c in children ==> Vacant(fs, at + [c.name], c.node, marks)
    ensures CopyAll(fs, folder, CollectChildren(children, relative).value, stamps)
         == Copied(GrownChildren(fs, at, children), Ok(()))
    ensures WellFormed(GrownChildren(fs, at, children))
    decreases children, 1
  {
    hide WellFormed, Vacant, Grown, CopyOne, LeadsTo, TreeFiles, TreeDirs, PathPolicy.EndingOf;
    if children == [] {
      assert fs.files + map[] == fs.files && fs.dirs + {} + {} == fs.dirs;
      assert GrownChildren(fs, at, children) == fs;
    } else {
      var c, rest := children[0], children[1..];
      var child := at + [c.name];
      var path := PathPolicy.Join(relative, c.name);
      var first, others := Collect(c.node, path).value, CollectChildren(rest, relative).value;
      var n := |first|;
      assert stamps == stamps[..n] + stamps[n..];
      ChildLeadsBelow(fs, folder, relative, at, c.name);
      CopyTree(fs, folder, child, path, c.node, stamps[..n], marks);
      var fs1 := Grown(fs, child, c.node);
      GrownIsMonotone(fs, child, c.node, folder, relative, at);
      forall d | d in rest ensures Vacant(fs1, at + [d.name], d.node, marks) {
        SiblingsAreApart(at, c.name, d.name);
        VacantBeside(fs, child, c.node, at + [d.name], d.node, marks);
      }
      CopyChildren(fs1, folder, at, relative, rest, stamps[n..], marks);
      CopyAllAppend(fs, folder, first, others, stamps[..n], stamps[n..]);
      GrownThenRest(fs, at, children);
    }
  }

  lemma SiblingsAreApart(at: Path, a: string, b: string)
    requires a != b
    ensures Apart(at + [a], at + [b])
  {
    assert (at + [a])[|at|] == a && (at + [b])[|at|] == b;
  }

  lemma GrownThenRest(fs: Fs, at: Path, children: seq<Child>)
    requires children != []
    ensures GrownChildren(Grown(fs, at + [children[0].name], children[0].node), at, children[1..])
         == GrownChildren(fs, at, children)
  {
    hide TreeFiles, TreeDirs;
    var c := children[0];
    var child := at + [c.name];
    assert Parent(child) == at;
    assert fs.files + TreeFiles(child, c.node) + ChildrenFiles(at, children[1..])
        == fs.files + (TreeFiles(child, c.node) + ChildrenFiles(at, children[1..]));
  }

  // ---------- whole requests ----------

  /** All named sources placed under the destination's root. */
  function GrownSources(fs: Fs, root: Path, sources: seq<Child>): Fs
    decreases |sources|
  {
    if sources == [] then fs
    else GrownSources(Grown(fs, root + PathPolicy.Names(sources[0].name), sources[0].node), root, sources[1..])
  }

  /** Proper trees under accepted names. */
  ghost predicate ProperNames(sources: seq<Child>) {
    forall s :: s in sources ==> PathPolicy.RelativeError(s.name) == None && ProperTree(s.node)
  }

  /** ... none at or below another. */
  ghost predicate ProperSources(sources: seq<Child>) {
    && ProperNames(sources)
    && (forall i, j :: 0 <= i < j < |sources| ==>
          Apart(PathPolicy.Names(sources[i].name), PathPolicy.Names(sources[j].name)))
  }

  ghost predicate RoomFor(fs: Fs, root: Path, sources: seq<Child>, marks: set<string>) {
    forall s :: s in sources ==> Vacant(fs, root + PathPolicy.Names(s.name), s.node, marks)
  }

  lemma UnderRootPrefix(root: Path, a: Path, b: Path)
    ensures root + a <= root + b <==> a <= b
  {
    var p, q := root + a, root + b;
    if p <= q {
      assert a == p[|root|..] == q[..|p|][|root|..] == b[..|a|];
    }
    if a <= b {
      assert p == root + b[..|a|] == q[..|p|];
    }
  }

  lemma UnderRootApart(root: Path, a: Path, b: Path)
    requires Apart(a, b)
    ensures Apart(root + a, root + b)
  {
    UnderRootPrefix(root, a, b);
    UnderRootPrefix(root, b, a);
  }

  /** No named source is a hollow one. */
  ghost predicate NoneHollow(fs: Fs, root: Path, sources: seq<Child>) {
    forall s :: s in sources ==> !Hollow(fs, root + PathPolicy.Names(s.name), s.name, s.node)
  }

  /** Growing one source leaves the others as vacant and as hollow as they were. */
  lemma RestUnchanged(fs: Fs, root: Path, sources: seq<Child>, marks: set<string>)
    requires ProperSources(sources) && RoomFor(fs, root, sources, marks) && sources != []
    ensures var fs1 := Grown(fs, root + PathPolicy.Names(sources[0].name), sources[0].node);
            && RoomFor(fs1, root, sources[1..], marks)
            && forall d :: d in sources[1..] ==>
                 var at := root + PathPolicy.Names(d.name);
                 Hollow(fs1, at, d.name, d.node) == Hollow(fs, at, d.name, d.node)
  {
    hide Vacant, TreeFiles, TreeDirs, PathPolicy.RelativeError, PathPolicy.Names, PathPolicy.EndingOf, Apart;
    var s, rest := sources[0], sources[1..];
    var at := root + PathPolicy.Names(s.name);
    forall d | d in rest
      ensures Vacant(Grown(fs, at, s.node), root + PathPolicy.Names(d.name), d.node, marks)
      ensures Hollow(Grown(fs, at, s.node), root + PathPolicy.Names(d.name), d.name, d.node)
           == Hollow(fs, root + PathPolicy.Names(d.name), d.name, d.node)
    {
      var j :| 0 <= j < |rest| && rest[j] == d;
      assert d == sources[j + 1];
      UnderRootApart(root, PathPolicy.Names(s.name), PathPolicy.Names(d.name));
      VacantBeside(fs, at, s.node, root + PathPolicy.Names(d.name), d.node, marks);
      if d.node == DirNode([]) {
        EmptyDirectory(root + PathPolicy.Names(d.name));
        TreesAreApart(at, s.node, root + PathPolicy.Names(d.name), d.node);
      }
    }
  }

  lemma EmptyDirectory(at: Path)
    ensures TreeDirs(at, DirNode([])) == {at}
  {
    assert ChildrenDirs(at, []) == {};
  }

  lemma HollowIsRefused(fs: Fs, folder: Folder, at: Path, relative: string, stamps: seq<string>)
    requires LeadsTo(fs, folder, relative, at) && Hollow(fs, at, relative, DirNode([]))
    requires Collect(DirNode([]), relative).Ok? && |stamps| == |Collect(DirNode([]), relative).value|
    ensures CopyAll(fs, folder, Collect(DirNode([]), relative).value, stamps).result.Err?
  {
    hide PathPolicy.EndingOf, PathPolicy.Names, PathPolicy.RelativeError;
    assert CollectChildren([], relative) == Ok([]);
    assert [] + [Entry(relative, true, [])] == [Entry(relative, true, [])];
    assert stamps == [stamps[0]];
    CopyOneEntry(fs, folder, Entry(relative, true, []), stamps[0]);
  }

  /** Proper sources with room are all copied, unless one of them is hollow; then the copy fails. */
  lemma {:induction false} CopySources(fs: Fs, folder: Folder, sources: seq<Child>, stamps: seq<string>,
                                       marks: set<string>)
    requires WellFormed(fs) && folder.direction != PathPolicy.Read && folder.root in fs.dirs
    requires ProperSources(sources) && RoomFor(fs, folder.root, sources, marks)
    requires CollectSources(sources).Ok? && |stamps| == |CollectSources(sources).value|
    requires forall s :: s in stamps ==> s in marks
    ensures var copied := CopyAll(fs, folder, CollectSources(sources).value, stamps);
            if NoneHollow(fs, folder.root, sources)
            then copied == Copied(GrownSources(fs, folder.root, sources), Ok(()))
            else copied.result.Err?
    decreases |sources|
  {
    hide WellFormed, Vacant, CopyOne, TreeFiles, TreeDirs, PathPolicy.RelativeError, PathPolicy.Names,
      PathPolicy.EndingOf, Apart, Hollow;
    if sources != [] {
      var s, rest := sources[0], sources[1..];
      var at := folder.root + PathPolicy.Names(s.name);
      var first, others := Collect(s.node, s.name).value, CollectSources(rest).value;
      var n := |first|;
      assert stamps == stamps[..n] + stamps[n..];
      AcceptedIsNotEmpty(s.name);
      assert LeadsTo(fs, folder, s.name, at);
      var fs1 := Grown(fs, at, s.node);
      RestUnchanged(fs, folder.root, sources, marks);
      HollowFirst(fs, folder.root, sources, fs1);
      if Hollow(fs, at, s.name, s.node) {
        assert s.node == DirNode([]) by { HollowNode(fs, at, s.name, s.node); }
        HollowIsRefused(fs, folder, at, s.name, stamps[..n]);
        assert (first + others)[..n] == first && stamps[..n] == (stamps[..n] + stamps[n..])[..n];
        CopyAllStops(fs, folder, first + others, stamps, n);
      } else {
        CopyTree(fs, folder, at, s.name, s.node, stamps[..n], marks);
        CopySources(fs1, folder, rest, stamps[n..], marks);
        CopyAllAppend(fs, folder, first, others, stamps[..n], stamps[n..]);
      }
    }
  }

  lemma HollowNode(fs: Fs, at: Path, relative: string, node: Tree)
    requires Hollow(fs, at, relative, node)
    ensures node == DirNode([])
  {
  }

  lemma HollowFirst(fs: Fs, root: Path, sources: seq<Child>, fs1: Fs)
    requires sources != []
    requires forall d :: d in sources[1..] ==>
               var at := root + PathPolicy.Names(d.name);
               Hollow(fs1, at, d.name, d.node) == Hollow(fs, at, d.name, d.node)
    ensures NoneHollow(fs, root, sources)
       <==> !Hollow(fs, root + PathPolicy.Names(sources[0].name), sources[0].name, sources[0].node)
            && NoneHollow(fs1, root, sources[1..])
  {
    hide Hollow, PathPolicy.Names;
    assert forall d :: d in sources <==> d == sources[0] || d in sources[1..];
  }

  lemma AcceptedIsNotEmpty(name: string)
    requires PathPolicy.RelativeError(name) == None
    ensures name != ""
  {
  }

  /** It does happen: an empty directory sent as "d/." cannot be made. */
  lemma FinalDotIsRefused()
    ensures var fs, folder := Fs(map[], {[]}), Folder([], PathPolicy.Write);
            && Hollow(fs, ["d"], "d/.", DirNode([]))
            && CopyOne(fs, folder, Entry("d/.", true, []), "0-1") == Copied(fs, Err(Io))
  {
    hide PathPolicy.EndingOf, PathPolicy.Names, PathPolicy.RelativeError;
    var fs, folder := Fs(map[], {[]}), Folder([], PathPolicy.Write);
    DottedName();
    assert [] + ["d"] == ["d"] && Parent(["d"]) == [] && Prefixes([]) == {[]};
    assert MkdirAllOr(fs, [], NoFault).0 == fs;
    assert WriteTarget(fs, folder, "d/.") == Ok(["d"]);
  }

  lemma DottedName()
    ensures PathPolicy.RelativeError("d/.") == None && PathPolicy.Names("d/.") == ["d"]
    ensures PathPolicy.EndingOf("d/.").InDot?
  {
    SplitSingle("d");
    SplitSingle(".");
    SplitJoin("d", ".");
    assert "d" + "/" + "." == "d/.";
    var pieces := ["d", "."];
    assert Split("d/.") == pieces && pieces[1..] == ["."] && pieces[1..][1..] == [];
    assert PathPolicy.PieceComponents(["."], false) == [] + PathPolicy.PieceComponents([], false);
    assert PathPolicy.PieceComponents(pieces, true)
        == [PathPolicy.Normal("d")] + PathPolicy.PieceComponents(["."], false);
    assert PathPolicy.Components("d/.") == [PathPolicy.Normal("d")];
  }

  // ---------- what collecting yields, told from the tree ----------

  /** Nothing in the tree is unusable. */
  predicate Usable(node: Tree)
    decreases node, 0
  {
    match node
    case FileNode(_) => true
    case Unusable(_) => false
    case DirNode(children) => UsableChildren(children)
  }

  predicate UsableChildren(children: seq<Child>)
    decreases children, 1
  {
    children != [] ==> Usable(children[0].node) && UsableChildren(children[1..])
  }

  /** Collecting succeeds exactly when nothing in the tree is unusable and a file's own path ends in its
      name. */
  lemma {:induction false} CollectsExactly(node: Tree, relative: string)
    requires ProperTree(node)
    ensures Collect(node, relative).Ok? <==>
              Usable(node) && (node.FileNode? ==> PathPolicy.EndingOf(relative).InName?)
    decreases node, 0
  {
    hide PathPolicy.EndingOf;
    if node.DirNode? {
      ChildrenCollectExactly(node.children, relative);
    }
  }

  lemma {:induction false} ChildrenCollectExactly(children: seq<Child>, relative: string)
    requires ProperChildren(children)
    ensures CollectChildren(children, relative).Ok? <==> UsableChildren(children)
    decreases children, 1
  {
    hide PathPolicy.EndingOf, PathPolicy.ProperName, PathPolicy.Join;
    if children != [] {
      PathPolicy.JoinEndsInName(relative, children[0].name);
      CollectsExactly(children[0].node, PathPolicy.Join(relative, children[0].name));
      ChildrenCollectExactly(children[1..], relative);
    }
  }

  /** A request can be prepared exactly when every source is usable, no file is named like a directory,
      and the items keep within 4 GiB and 10000; its total and hash are then those of its items. */
  lemma PreparesExactly(sha: Digest, key: string, folder: string, sources: seq<Child>)
    requires ProperNames(sources)
    ensures var r := Prepare(sha, key, folder, sources);
            && (r.Ok? <==>
                  && (forall s :: s in sources ==>
                        Usable(s.node) && (s.node.FileNode? ==> PathPolicy.EndingOf(s.name).InName?))
                  && CollectSources(sources).Ok?
                  && ByteSum(CollectSources(sources).value) <= 4 * 1024 * 1024 * 1024
                  && |CollectSources(sources).value| <= 10_000)
            && (r.Err? ==>
                  r.error == if CollectSources(sources).Err? then CollectSources(sources).error
                             else if ByteSum(CollectSources(sources).value) > 4 * 1024 * 1024 * 1024
                             then SizeLimitExceeded
                             else FileCountLimitExceeded)
            && (r.Ok? ==>
                  var entries := CollectSources(sources).value;
                  r.value == Prepared(key, folder, ByteSum(entries), ToHex(sha(HashInput(entries))), entries))
    ensures CollectSources(sources).Ok? <==>
              forall s :: s in sources ==>
                Usable(s.node) && (s.node.FileNode? ==> PathPolicy.EndingOf(s.name).InName?)
  {
    hide Usable, PathPolicy.EndingOf, ByteSum, HashInput;
    SourcesCollectExactly(sources);
    if CollectSources(sources).Ok? {
      LimitsAreWithin(CollectSources(sources).value);
    }
  }

  lemma {:induction false} SourcesCollectExactly(sources: seq<Child>)
    requires ProperNames(sources)
    ensures CollectSources(sources).Ok? <==>
              forall s :: s in sources ==>
                Usable(s.node) && (s.node.FileNode? ==> PathPolicy.EndingOf(s.name).InName?)
  {
    hide Usable, PathPolicy.EndingOf, PathPolicy.RelativeError, ProperTree;
    if sources != [] {
      assert sources[0] in sources && forall s :: s in sources <==> s == sources[0] || s in sources[1..];
      CollectsExactly(sources[0].node, sources[0].name);
      SourcesCollectExactly(sources[1..]);
    }
  }

  /** Each item is at or below the collected node, and a directory comes after everything in it. */
  ghost predicate InOrder(at: Path, entries: seq<Entry>) {
    && (forall e :: e in entries ==> at <= PathPolicy.Names(e.relative))
    && (forall i, j :: 0 <= i < j < |entries| ==>
          !(PathPolicy.Names(entries[i].relative) < PathPolicy.Names(entries[j].relative)))
  }

  lemma {:induction false} CollectedInOrder(node: Tree, relative: string)
    requires ProperTree(node) && PathPolicy.RelativeError(relative) == None && Collect(node, relative).Ok?
    ensures InOrder(PathPolicy.Names(relative), Collect(node, relative).value)
    decreases node, 0
  {
    hide PathPolicy.Names, PathPolicy.RelativeError, PathPolicy.EndingOf;
    if node.DirNode? {
      ChildrenInOrder(node.children, relative);
    }
  }

  /** The item is at or below the child of that name. */
  ghost predicate Beneath(at: Path, name: string, e: Entry) {
    at + [name] <= PathPolicy.Names(e.relative)
  }

  /** Every item is beneath some child. */
  ghost predicate OfChildren(at: Path, children: seq<Child>, entries: seq<Entry>) {
    forall e :: e in entries ==> exists c :: c in children && Beneath(at, c.name, e)
  }

  /** An earlier item is never beneath a child listed later. */
  ghost predicate AsListed(at: Path, children: seq<Child>, entries: seq<Entry>) {
    forall i, j, x, y :: 0 <= i < j < |entries| && 0 <= x < |children| && 0 <= y < |children| ==>
      Beneath(at, children[x].name, entries[i]) ==> Beneath(at, children[y].name, entries[j]) ==> x <= y
  }

  /** A directory's children are collected one after the other, in the order they are listed. */
  lemma {:induction false} ChildrenInOrder(children: seq<Child>, relative: string)
    requires ProperChildren(children) && PathPolicy.RelativeError(relative) == None
    requires CollectChildren(children, relative).Ok?
    ensures var at, entries := PathPolicy.Names(relative), CollectChildren(children, relative).value;
            InOrder(at, entries) && OfChildren(at, children, entries) && AsListed(at, children, entries)
    decreases children, 1
  {
    hide PathPolicy.Names, PathPolicy.RelativeError, PathPolicy.EndingOf, PathPolicy.Join, PathPolicy.ProperName;
    if children != [] {
      hide InOrder, OfChildren, AsListed;
      var c, rest := children[0], children[1..];
      var at, path := PathPolicy.Names(relative), PathPolicy.Join(relative, c.name);
      PathPolicy.JoinDescends(relative, c.name);
      CollectedInOrder(c.node, path);
      ChildrenInOrder(rest, relative);
      JoinsInOrder(at, children, Collect(c.node, path).value, CollectChildren(rest, relative).value);
      JoinsAsListed(at, children, Collect(c.node, path).value, CollectChildren(rest, relative).value);
    }
  }

  lemma NotBoth(at: Path, a: string, b: string, p: Path)
    requires at + [a] <= p && at + [b] <= p
    ensures a == b
  {
    assert p[|at|] == (at + [a])[|at|] == (at + [b])[|at|];
  }

  lemma JoinsInOrder(at: Path, children: seq<Child>, first: seq<Entry>, others: seq<Entry>)
    requires children != [] && ProperChildren(children)
    requires InOrder(at + [children[0].name], first) && InOrder(at, others) && OfChildren(at, children[1..], others)
    ensures InOrder(at, first + others) && OfChildren(at, children, first + others)
  {
    hide PathPolicy.Names, PathPolicy.ProperName, ProperTree;
    var entries := first + others;
    forall e | e in entries
      ensures at <= PathPolicy.Names(e.relative) && exists c :: c in children && Beneath(at, c.name, e)
    {
      if e in first {
        assert children[0] in children && Beneath(at, children[0].name, e);
        PrefixTransitive(at, at + [children[0].name], PathPolicy.Names(e.relative));
      } else {
        assert e in others;
      }
    }
    forall i, j | 0 <= i < j < |entries|
      ensures !(PathPolicy.Names(entries[i].relative) < PathPolicy.Names(entries[j].relative))
    {
      if i < |first| <= j {
        FirstIsApart(at, children, first, others, entries[i], entries[j]);
      }
    }
  }

  lemma JoinsAsListed(at: Path, children: seq<Child>, first: seq<Entry>, others: seq<Entry>)
    requires children != [] && ProperChildren(children) && InOrder(at + [children[0].name], first)
    requires OfChildren(at, children[1..], others) && AsListed(at, children[1..], others)
    ensures AsListed(at, children, first + others)
  {
    hide PathPolicy.Names, ProperChildren, OfChildren;
    var entries := first + others;
    forall i, j, x, y | 0 <= i < j < |entries| && 0 <= x < |children| && 0 <= y < |children|
                        && Beneath(at, children[x].name, entries[i]) && Beneath(at, children[y].name, entries[j])
      ensures x <= y
    {
      if i < |first| {
        NotBoth(at, children[0].name, children[x].name, PathPolicy.Names(entries[i].relative));
        OnlyFirst(children, x);
      } else {
        assert entries[i] == others[i - |first|] && entries[j] == others[j - |first|];
        NeverFirst(at, children, others, entries[i], x);
        NeverFirst(at, children, others, entries[j], y);
        assert children[x] == children[1..][x - 1] && children[y] == children[1..][y - 1];
      }
    }
  }

  lemma OnlyFirst(children: seq<Child>, x: nat)
    requires ProperChildren(children) && x < |children| && children[x].name == children[0].name
    ensures x == 0
  {
    hide PathPolicy.ProperName, ProperTree;
    forall y | 0 < y < |children| ensures children[y].name != children[0].name {
      assert children[y] == children[1..][y - 1];
    }
  }

  lemma NeverFirst(at: Path, children: seq<Child>, others: seq<Entry>, e: Entry, x: nat)
    requires children != [] && ProperChildren(children) && e in others && x < |children|
    requires OfChildren(at, children[1..], others) && Beneath(at, children[x].name, e)
    ensures x > 0
  {
    hide PathPolicy.Names, PathPolicy.ProperName, ProperTree;
    var c :| c in children[1..] && Beneath(at, c.name, e);
    NotBoth(at, c.name, children[x].name, PathPolicy.Names(e.relative));
  }

  lemma FirstIsApart(at: Path, children: seq<Child>, first: seq<Entry>, others: seq<Entry>, e: Entry, o: Entry)
    requires children != [] && ProperChildren(children) && e in first && o in others
    requires InOrder(at + [children[0].name], first) && OfChildren(at, children[1..], others)
    ensures !(PathPolicy.Names(e.relative) < PathPolicy.Names(o.relative))
  {
    hide PathPolicy.Names, PathPolicy.ProperName, ProperTree;
    var c :| c in children[1..] && Beneath(at, c.name, o);
    if PathPolicy.Names(e.relative) <= PathPolicy.Names(o.relative) {
      PrefixTransitive(at + [children[0].name], PathPolicy.Names(e.relative), PathPolicy.Names(o.relative));
      NotBoth(at, children[0].name, c.name, PathPolicy.Names(o.relative));
      assert false;
    }
  }

  // ---------- what a copy that succeeded has made ----------

  lemma CopiedSoFar(fs: Fs, folder: Folder, a: seq<Entry>, b: seq<Entry>, sa: seq<string>, sb: seq<string>)
    requires |sa| == |a| && |sb| == |b| && CopyAll(fs, folder, a + b, sa + sb).result.Ok?
    ensures CopyAll(fs, folder, a, sa).result.Ok?
    ensures CopyAll(fs, folder, a + b, sa + sb) == CopyAll(CopyAll(fs, folder, a, sa).fs, folder, b, sb)
  {
    hide CopyAll;
    assert (a + b)[..|a|] == a && (sa + sb)[..|a|] == sa;
    if CopyAll(fs, folder, a, sa).result.Err? {
      CopyAllStops(fs, folder, a + b, sa + sb, |a|);
    }
    CopyAllAppend(fs, folder, a, b, sa, sb);
  }

  lemma CopiedFile(fs: Fs, folder: Folder, at: Path, e: Entry, stamp: string)
    requires WellFormed(fs) && LeadsTo(fs, folder, e.relative, at) && !e.isDir
    requires CopyOne(fs, folder, e, stamp).result.Ok?
    ensures CopyOne(fs, folder, e, stamp).fs == Grown(fs, at, FileNode(e.content))
    ensures WellFormed(Grown(fs, at, FileNode(e.content)))
  {
    hide PathPolicy.EndingOf, PathPolicy.Names, PathPolicy.RelativeError, TempPath, WellFormed;
    R.CopyKeepsShape(fs, folder, e, stamp);
    assert fs.files + map[at := e.content] == fs.files[at := e.content];
    assert fs.dirs + {} + Prefixes(Parent(at)) == fs.dirs + Prefixes(Parent(at));
  }

  lemma CopiedDirectory(fs: Fs, folder: Folder, at: Path, relative: string, children: seq<Child>, stamp: string)
    requires LeadsTo(fs, folder, relative, at) && WellFormed(GrownChildren(fs, at, children))
    requires CopyOne(GrownChildren(fs, at, children), folder, Entry(relative, true, []), stamp).result.Ok?
    ensures CopyOne(GrownChildren(fs, at, children), folder, Entry(relative, true, []), stamp).fs
         == Grown(fs, at, DirNode(children))
    ensures WellFormed(Grown(fs, at, DirNode(children)))
  {
    hide PathPolicy.EndingOf, PathPolicy.Names, PathPolicy.RelativeError, ChildrenFiles, ChildrenDirs, WellFormed;
    var fs1 := GrownChildren(fs, at, children);
    R.CopyKeepsShape(fs1, folder, Entry(relative, true, []), stamp);
    if at != [] {
      PrefixesStep(at);
    } else {
      assert Prefixes(at) == {at};
    }
    assert Grown(fs, at, DirNode(children)).dirs == fs1.dirs + Prefixes(at);
    if at in fs1.dirs {
      PrefixesOfDir(fs1, at);
      assert fs1.dirs + Prefixes(at) == fs1.dirs;
    }
  }

  /** Whatever stood at the destination, a tree whose copy succeeded has grown there exactly. */
  lemma {:induction false} CopiedTree(fs: Fs, folder: Folder, at: Path, relative: string, node: Tree,
                                      stamps: seq<string>)
    requires WellFormed(fs) && LeadsTo(fs, folder, relative, at) && ProperTree(node)
    requires Collect(node, relative).Ok? && |stamps| == |Collect(node, relative).value|
    requires CopyAll(fs, folder, Collect(node, relative).value, stamps).result.Ok?
    ensures CopyAll(fs, folder, Collect(node, relative).value, stamps).fs == Grown(fs, at, node)
    ensures WellFormed(Grown(fs, at, node))
    decreases node, 0
  {
    hide WellFormed, Grown, CopyOne, CopyAll, LeadsTo, PathPolicy.EndingOf;
    match node
    case FileNode(content) =>
      assert stamps == [stamps[0]];
      var e := Entry(relative, false, content);
      CopyOneEntry(fs, folder, e, stamps[0]);
      CopiedFile(fs, folder, at, e, stamps[0]);
    case DirNode(children) =>
      var inner := CollectChildren(children, relative).value;
      var n := |inner|;
      assert stamps == stamps[..n] + [stamps[n]];
      var e := Entry(relative, true, []);
      CopiedSoFar(fs, folder, inner, [e], stamps[..n], [stamps[n]]);
      CopiedChildren(fs, folder, at, relative, children, stamps[..n]);
      CopyOneEntry(GrownChildren(fs, at, children), folder, e, stamps[n]);
      CopiedDirectory(fs, folder, at, relative, children, stamps[n]);
    case Unusable(_) =>
  }

  lemma {:induction false} CopiedChildren(fs: Fs, folder: Folder, at: Path, relative: string, children: seq<Child>,
                                          stamps: seq<string>)
    requires WellFormed(fs) && LeadsTo(fs, folder, relative, at) && ProperChildren(children)
    requires CollectChildren(children, relative).Ok? && |stamps| == |CollectChildren(children, relative).value|
    requires CopyAll(fs, folder, CollectChildren(children, relative).value, stamps).result.Ok?
    ensures CopyAll(fs, folder, CollectChildren(children, relative).value, stamps).fs == GrownChildren(fs, at, children)
    ensures WellFormed(GrownChildren(fs, at, children))
    decreases children, 1
  {
    hide WellFormed, Grown, CopyOne, LeadsTo, TreeFiles, TreeDirs, PathPolicy.EndingOf;
    if children == [] {
      assert fs.files + map[] == fs.files && fs.dirs + {} + {} == fs.dirs;
      assert GrownChildren(fs, at, children) == fs;
    } else {
      hide CopyAll;
      var c, rest := children[0], children[1..];
      var path := PathPolicy.Join(relative, c.name);
      var first, others := Collect(c.node, path).value, CollectChildren(rest, relative).value;
      var n := |first|;
      assert stamps == stamps[..n] + stamps[n..];
      CopiedSoFar(fs, folder, first, others, stamps[..n], stamps[n..]);
      ChildLeadsBelow(fs, folder, relative, at, c.name);
      CopiedTree(fs, folder, at + [c.name], path, c.node, stamps[..n]);
      GrownIsMonotone(fs, at + [c.name], c.node, folder, relative, at);
      CopiedChildren(Grown(fs, at + [c.name], c.node), folder, at, relative, rest, stamps[n..]);
      GrownThenRest(fs, at, children);
    }
  }

  /** Whatever stood at the destination and wherever the sources overlap, a request whose copy
      succeeded has grown exactly its source trees there, one after the other. */
  lemma {:induction false} CopiedSources(fs: Fs, folder: Folder, sources: seq<Child>, stamps: seq<string>)
    requires WellFormed(fs) && ProperNames(sources) && folder.direction != PathPolicy.Read && folder.root in fs.dirs
    requires CollectSources(sources).Ok? && |stamps| == |CollectSources(sources).value|
    requires CopyAll(fs, folder, CollectSources(sources).value, stamps).result.Ok?
    ensures CopyAll(fs, folder, CollectSources(sources).value, stamps).fs == GrownSources(fs, folder.root, sources)
    decreases |sources|
  {
    hide WellFormed, CopyOne, TreeFiles, TreeDirs, PathPolicy.RelativeError, PathPolicy.Names, PathPolicy.EndingOf;
    if sources != [] {
      var s, rest := sources[0], sources[1..];
      var at := folder.root + PathPolicy.Names(s.name);
      var first, others := Collect(s.node, s.name).value, CollectSources(rest).value;
      var n := |first|;
      assert stamps == stamps[..n] + stamps[n..];
      AcceptedIsNotEmpty(s.name);
      assert LeadsTo(fs, folder, s.name, at);
      CopiedSoFar(fs, folder, first, others, stamps[..n], stamps[n..]);
      CopiedTree(fs, folder, at, s.name, s.node, stamps[..n]);
      CopiedSources(Grown(fs, at, s.node), folder, rest, stamps[n..]);
    }
  }

  /** The round trip: with room at the destination, an honestly streamed request commits, and the
      destination has then grown by exactly the source trees; it fails exactly when a source is an
      empty directory named with a final "." that is not there yet. */
  lemma TreeRoundTrip(sha: Digest, folders: map<string, Folder>, e: C.Engine, key: string, folder: string,
                      sources: seq<Child>, p: Prepared, loads: seq<S.Load>, stamps: seq<string>, marks: set<string>)
    requires WellFormed(e.fs) && folder in folders && key !in e.completed
    requires folders[folder].direction != PathPolicy.Read && folders[folder].root in e.fs.dirs
    requires sources != [] && Prepare(sha, key, folder, sources) == Ok(p)
    requires ProperSources(sources) && RoomFor(e.fs, folders[folder].root, sources, marks)
    requires R.HonestLoads(loads, p.entries) && |stamps| == |loads| && forall s :: s in stamps ==> s in marks
    ensures var served := C.Serve(sha, folders, e, R.HonestConnection(p, loads, stamps));
            && (served.commit.Some? <==> NoneHollow(e.fs, folders[folder].root, sources))
            && (served.commit.Some? ==>
                  && served.commit == Some(Outcome(ByteSum(p.entries), FileCount(p.entries), p.sha256))
                  && served.engine.fs == GrownSources(e.fs, folders[folder].root, sources))
  {
    hide C.Serve, CopyAll, GrownSources, RoomFor, ProperSources, WellFormed, NoneHollow;
    CopySources(e.fs, folders[folder], sources, stamps, marks);
    R.StreamRefinesLoopback(sha, folders, e, key, folder, sources, p, loads, stamps);
  }
}
