/** A link-free filesystem: the destination tree the transfer engine writes to. */
module FileSystem {
  import opened Base
  import PathPolicy

  type Path = PathPolicy.Path

  datatype Fs = Fs(files: map<Path, seq<byte>>, dirs: set<Path>)

  /** A named folder capability with its canonical root. */
  datatype Folder = Folder(root: Path, direction: PathPolicy.Direction)

  /** What the operating system lets go wrong in one engine call. `made` and `written` are how
      far the failing operation got. */
  datatype Fault =
    | NoFault
    | MkdirFails(made: nat)
    | OpenFails
    | WriteFails(written: nat)
    | SyncFails
    | RenameFails

  predicate Exists(fs: Fs, p: Path) { p in fs.files || p in fs.dirs }

  /** exists() of a path whose text ends this way. */
  predicate Occupied(fs: Fs, p: Path, ending: PathPolicy.Ending) {
    p in fs.dirs || (ending.InName? && p in fs.files)
  }

  function Parent(p: Path): Path { PathPolicy.Parent(p) }

  function Prefixes(p: Path): (ps: set<Path>)
    ensures forall q :: q in ps <==> q <= p
  {
    var ps := set k | 0 <= k <= |p| :: p[..k];
    assert forall q :: q <= p ==> q == p[..|q|];
    ps
  }

  /** A file stands where `p` or one of its ancestors would be a directory. */
  predicate Blocked(fs: Fs, p: Path) { exists q :: q in Prefixes(p) && q in fs.files }

  /** create_dir_all. */
  function MkdirAll(fs: Fs, p: Path): Result<Fs, ()> {
    if Blocked(fs, p) then Err(()) else Ok(fs.(dirs := fs.dirs + Prefixes(p)))
  }

  /** create_dir_all when the system refuses after `made` levels: the levels made stay. */
  function MkdirPartly(fs: Fs, p: Path, made: nat): Fs {
    if Blocked(fs, p) then fs
    else fs.(dirs := fs.dirs + Prefixes(p[..if made < |p| then made else |p|]))
  }

  function MkdirAllOr(fs: Fs, p: Path, fault: Fault): (Fs, bool) {
    if fault.MkdirFails? then (MkdirPartly(fs, p, fault.made), false)
    else match MkdirAll(fs, p)
      case Ok(fs') => (fs', true)
      case Err(_) => (fs, false)
  }

  /** create_dir_all of a path whose text ends this way: under a "." only the directories above it are
      made, and then the call fails unless the directory was there. */
  function MkdirAllAs(fs: Fs, p: Path, ending: PathPolicy.Ending, fault: Fault): (Fs, bool) {
    if ending.InDot? && p !in fs.dirs then (MkdirAllOr(fs, Parent(p), fault).0, false) else MkdirAllOr(fs, p, fault)
  }

  /** rename of a file: replaces a file, refuses a directory, and refuses a destination whose text
      does not end in a name. */
  function Rename(fs: Fs, from: Path, to: Path, ending: PathPolicy.Ending): Option<Fs> {
    if from !in fs.files || to in fs.dirs || !ending.InName? then None
    else Some(fs.(files := (fs.files - {from})[to := fs.files[from]]))
  }

  function Remove(fs: Fs, gone: set<Path>): Fs { fs.(files := fs.files - gone) }

  // ---------- temporary siblings ----------

  /** Position of the last '.', or the length when there is none. */
  function LastDot(name: string): (k: nat)
    ensures k <= |name|
    ensures k < |name| ==> name[k] == '.' && '.' !in name[k + 1..]
    ensures k == |name| ==> '.' !in name
  {
    if name == "" then 0
    else if name[|name| - 1] == '.' then |name| - 1
    else
      var k := LastDot(name[..|name| - 1]);
      assert name == name[..|name| - 1] + [name[|name| - 1]];
      if k < |name| - 1 then
        assert name[k + 1..] == name[..|name| - 1][k + 1..] + [name[|name| - 1]];
        k
      else |name|
  }

  /** The name without its extension; a leading dot does not start one. */
  function Stem(name: string): string {
    var k := LastDot(name);
    if name == ".." || k == 0 then name else name[..k]
  }

  function TempName(name: string, stamp: string): string {
    Stem(name) + ".agent-send-" + stamp + ".part"
  }

  function TempPath(target: Path, stamp: string): Path
    requires target != []
  {
    Parent(target) + [TempName(target[|target| - 1], stamp)]
  }

  /** A file's temporary sibling is never the file itself. */
  lemma TempDiffers(target: Path, stamp: string)
    requires target != []
    ensures TempPath(target, stamp) != target
  {
    var name := target[|target| - 1];
    var temp := TempName(name, stamp);
    var k := LastDot(name);
    var dot := |temp| - 5;
    assert temp[dot] == '.';
    if Stem(name) != name {
      assert |name[..k]| == k && dot > k;
      assert dot < |name| ==> name[k + 1..][dot - (k + 1)] == name[dot];
    }
    assert TempPath(target, stamp)[|target| - 1] == temp;
  }

  lemma {:induction false} LastDotIs(name: string, k: nat)
    requires k < |name| && name[k] == '.' && '.' !in name[k + 1..]
    ensures LastDot(name) == k
    decreases |name|
  {
    var last := |name| - 1;
    if k < last {
      var shorter := name[..last];
      assert name[k + 1..][last - k - 1] == name[last];
      assert name[k + 1..] == shorter[k + 1..] + [name[last]];
      LastDotIs(shorter, k);
    }
  }

  /** The temporary sibling is named after the file without its extension, which starts at the last dot
      unless that is the name's first character. */
  lemma TempIsNamedAfter(above: Path, stem: string, extension: string, stamp: string)
    requires '.' !in extension
    ensures stem != "" && stem + "." + extension != ".." ==>
              TempPath(above + [stem + "." + extension], stamp) == above + [stem + ".agent-send-" + stamp + ".part"]
    ensures stem == "" || stem + "." + extension == ".." ==>
              TempPath(above + [stem + "." + extension], stamp)
              == above + [stem + "." + extension + ".agent-send-" + stamp + ".part"]
    ensures TempPath(above + [extension], stamp) == above + [extension + ".agent-send-" + stamp + ".part"]
  {
    var name := stem + "." + extension;
    assert name[|stem|] == '.' && name[|stem| + 1..] == extension && name[..|stem|] == stem;
    LastDotIs(name, |stem|);
    assert extension[..|extension|] == extension;
    assert Parent(above + [name]) == above && Parent(above + [extension]) == above;
  }

  /** What the temporary sibling of a file named "x" is called. */
  lemma PlainTemp()
    ensures TempPath(["x"], "0-1") == ["x.agent-send-0-1.part"]
  {
    assert LastDot("x") == 1 by {
      assert "x"[..0] == "";
    }
    assert "x"[..1] == "x";
    assert TempName("x", "0-1") == "x.agent-send-0-1.part";
    assert Parent(["x"]) == [];
  }

  // ---------- resolving a write ----------

  /** Where a capability lets a relative path be written. */
  function WriteTarget(fs: Fs, folder: Folder, relative: string): Result<Path, PathPolicy.PathError> {
    match PathPolicy.RelativeError(relative)
    case Some(e) => Err(e)
    case None =>
      if folder.direction == PathPolicy.Read then Err(PathPolicy.WriteNotAllowed)
      else if folder.root !in fs.dirs then Err(PathPolicy.RootUnavailable)
      else Ok(folder.root + PathPolicy.Names(relative))
  }

  /** Every entry sits in a directory. */
  ghost predicate WellFormed(fs: Fs) {
    && [] in fs.dirs
    && (forall p :: p in fs.files ==> p !in fs.dirs)
    && (forall p :: Exists(fs, p) ==> Parent(p) in fs.dirs)
  }

  function Linked(fs: Fs, maxLinks: nat): PathPolicy.LinkedFs {
    PathPolicy.LinkedFs(
      map p | p in fs.files.Keys + fs.dirs :: if p in fs.dirs then PathPolicy.Dir else PathPolicy.File,
      maxLinks)
  }

  lemma {:induction false} DirIsSolid(fs: Fs, maxLinks: nat, p: Path)
    requires WellFormed(fs) && p in fs.dirs
    ensures PathPolicy.SolidDir(Linked(fs, maxLinks), p)
    decreases |p|
  {
    if p == [] {
      assert p[..0] == [];
    } else {
      DirIsSolid(fs, maxLinks, Parent(p));
      assert Parent(p) + [p[|p| - 1]] == p;
      PathPolicy.SolidDirChild(Linked(fs, maxLinks), Parent(p), p[|p| - 1]);
    }
  }

  /** Without links a lookup either fails or arrives exactly where it was pointed. */
  lemma {:induction false} LinkFreeWalk(fs: Fs, maxLinks: nat, base: Path, rest: Path, links: nat)
    requires PathPolicy.Walk(Linked(fs, maxLinks), base, PathPolicy.Normals(rest), links).Some?
    ensures PathPolicy.Walk(Linked(fs, maxLinks), base, PathPolicy.Normals(rest), links) == Some(base + rest)
    decreases |rest|
  {
    if rest == [] {
      assert base + rest == base;
    } else {
      assert PathPolicy.Normals(rest)[1..] == PathPolicy.Normals(rest[1..]);
      assert base + [rest[0]] + rest[1..] == base + rest;
      assert |rest| == 1 ==> base + [rest[0]] == base + rest;
      if rest[1..] != [] || PathPolicy.NodeAt(Linked(fs, maxLinks), base + [rest[0]]) == Some(PathPolicy.Dir) {
        LinkFreeWalk(fs, maxLinks, base + [rest[0]], rest[1..], links);
      }
    }
  }

  lemma EntryResolvesToItself(fs: Fs, maxLinks: nat, p: Path)
    requires WellFormed(fs)
    ensures PathPolicy.Canonicalize(Linked(fs, maxLinks), PathPolicy.Normals(p))
         == if Exists(fs, p) then Some(p) else None
  {
    var linked := Linked(fs, maxLinks);
    if Exists(fs, p) {
      DirIsSolid(fs, maxLinks, Parent(p));
      PathPolicy.WalkSolid(linked, p, 0, maxLinks);
      assert PathPolicy.Normals(p)[0..] == PathPolicy.Normals(p);
    } else if PathPolicy.Canonicalize(linked, PathPolicy.Normals(p)).Some? {
      LinkFreeWalk(fs, maxLinks, [], p, maxLinks);
      assert [] + p == p;
      PathPolicy.WalkIsSolid(linked, [], PathPolicy.Normals(p), maxLinks);
    }
  }

  /** On a tree without links the capability's write check is exactly `WriteTarget`. */
  lemma WriteTargetIsResolve(fs: Fs, maxLinks: nat, folder: Folder, relative: string)
    requires WellFormed(fs)
    ensures PathPolicy.Resolve(Linked(fs, maxLinks),
                               PathPolicy.Policy(PathPolicy.Normals(folder.root), folder.direction),
                               relative, PathPolicy.WriteOp)
         == WriteTarget(fs, folder, relative)
  {
    hide PathPolicy.EndingOf, PathPolicy.Names, PathPolicy.RelativeError;
    var linked := Linked(fs, maxLinks);
    EntryResolvesToItself(fs, maxLinks, folder.root);
    if folder.root in fs.dirs {
      var candidate := folder.root + PathPolicy.Names(relative);
      assert candidate[..|folder.root|] == folder.root;
      assert PathPolicy.LeadsToDir(linked, folder.root);
      var anc := PathPolicy.NearestFound(linked, candidate, PathPolicy.EndingOf(relative));
      assert PathPolicy.Names(relative) == [] ==> candidate == folder.root;
      if anc.Some? {
        EntryResolvesToItself(fs, maxLinks, anc.value);
        PathPolicy.AncestorIsNotAbove(linked, folder.root, PathPolicy.Names(relative), PathPolicy.EndingOf(relative),
                                      anc.value);
      }
    }
  }
}
