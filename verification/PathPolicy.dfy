/** Scoped folder capabilities: which relative paths are accepted and where they lead
    on a filesystem with symbolic links. */
module PathPolicy {
  import opened Base
  import opened Text

  /** An absolute path as the names on the way down from '/'. */
  type Path = seq<string>

  datatype Component = RootDir | CurDir | ParentDir | Normal(name: string)

  datatype Direction = Read | Write | ReadWrite

  datatype Operation = ReadOp | WriteOp

  datatype PathError =
    | EmptyPath | AbsolutePath | Traversal | InvalidPath
    | RootUnavailable | PathUnavailable | SymlinkEscape
    | ReadNotAllowed | WriteNotAllowed

  // ---------- components of a textual path ----------

  /** An empty piece vanishes, and "." survives only at the very beginning. */
  function PieceComponent(piece: string, leading: bool): seq<Component> {
    if piece == "" then []
    else if piece == "." then (if leading then [CurDir] else [])
    else if piece == ".." then [ParentDir]
    else [Normal(piece)]
  }

  function PieceComponents(pieces: seq<string>, leading: bool): seq<Component> {
    if pieces == [] then [] else PieceComponent(pieces[0], leading) + PieceComponents(pieces[1..], false)
  }

  predicate Rooted(s: string) { s != "" && s[0] == '/' }

  function Components(s: string): seq<Component> {
    (if Rooted(s) then [RootDir] else []) + PieceComponents(Split(s), !Rooted(s))
  }

  function NormalNames(cs: seq<Component>): Path {
    if cs == [] then []
    else (if cs[0].Normal? then [cs[0].name] else []) + NormalNames(cs[1..])
  }

  /** The names a relative path descends through. */
  function Names(s: string): Path { NormalNames(Components(s)) }

  /** A directory entry's name. */
  predicate ProperName(n: string) {
    n != "" && n != "." && n != ".." && '/' !in n && '\0' !in n
  }

  /** PathBuf::join with a directory entry's name. */
  function Join(rel: string, name: string): string {
    if rel == "" || rel[|rel| - 1] == '/' then rel + name else rel + "/" + name
  }

  /** How a path's text ends: in a name, or in separators or a "." after it. The system lets only a
      directory be named in the latter ways, and makes none under a path that ends in ".". */
  datatype Ending = InName | InSeparator | InDot

  function LastPiece(pieces: seq<string>): string {
    if pieces == [] then ""
    else if pieces[|pieces| - 1] != "" then pieces[|pieces| - 1]
    else LastPiece(pieces[..|pieces| - 1])
  }

  function EndingOf(s: string): Ending {
    if LastPiece(Split(s)) == "." then InDot
    else if s != "" && s[|s| - 1] == '/' then InSeparator
    else InName
  }

  /** Why a relative path is refused, if it is. */
  function RelativeError(s: string): Option<PathError> {
    if s == "" then Some(EmptyPath)
    else if '\0' in s then Some(InvalidPath)
    else if RootDir in Components(s) then Some(AbsolutePath)
    else if ParentDir in Components(s) then Some(Traversal)
    else None
  }

  lemma {:induction false} PiecesAreNotRoot(pieces: seq<string>, leading: bool)
    ensures RootDir !in PieceComponents(pieces, leading)
  {
    if pieces != [] {
      PiecesAreNotRoot(pieces[1..], false);
    }
  }

  /** The folder itself is always an acceptable path. */
  lemma DotIsAccepted()
    ensures RelativeError(".") == None
  {
    SplitSingle(".");
    assert ["."][1..] == [];
    assert PieceComponents(["."], true) == [CurDir] + PieceComponents([], false);
    assert Components(".") == [CurDir];
  }

  /** A root can only be the first component. */
  lemma RootIsFirst(path: string)
    ensures RootDir in Components(path) ==> Components(path)[0] == RootDir
  {
    PiecesAreNotRoot(Split(path), !Rooted(path));
  }

  lemma {:induction false} ParentPieces(pieces: seq<string>, leading: bool)
    ensures ParentDir in PieceComponents(pieces, leading) <==> ".." in pieces
  {
    if pieces != [] {
      ParentPieces(pieces[1..], false);
    }
  }

  /** Why a path is refused, told from its text alone: it is empty, it holds a NUL, it starts with a
      separator, or ".." stands between its separators or at an end. */
  lemma RefusedExactly(path: string)
    ensures RelativeError(path)
         == if path == "" then Some(EmptyPath)
            else if exists i :: 0 <= i < |path| && path[i] == '\0' then Some(InvalidPath)
            else if path[0] == '/' then Some(AbsolutePath)
            else if exists i: nat :: StandsAt(path, "..", i) then Some(Traversal)
            else None
  {
    hide PieceComponents, Split, StandsAt;
    PiecesAreNotRoot(Split(path), !Rooted(path));
    ParentPieces(Split(path), !Rooted(path));
    PiecesStand(path, "..");
  }

  /** The pieces that are names. */
  function NamePieces(pieces: seq<string>): Path {
    if pieces == [] then []
    else (if pieces[0] == "" || pieces[0] == "." || pieces[0] == ".." then []
          else [pieces[0]]) + NamePieces(pieces[1..])
  }

  lemma {:induction false} NamesOfPieces(pieces: seq<string>, leading: bool)
    ensures NormalNames(PieceComponents(pieces, leading)) == NamePieces(pieces)
  {
    if pieces != [] {
      NamesOfPieces(pieces[1..], false);
      NormalNamesAppend(PieceComponent(pieces[0], leading), PieceComponents(pieces[1..], false));
    }
  }

  /** The names of a path are its pieces between separators, in order, without empty and dotted ones. */
  lemma NamesExactly(path: string)
    ensures Names(path) == NamePieces(Split(path))
  {
    hide PieceComponents, Split, NamePieces;
    NamesOfPieces(Split(path), !Rooted(path));
    NormalNamesAppend(if Rooted(path) then [RootDir] else [], PieceComponents(Split(path), !Rooted(path)));
    assert NormalNames([]) == [];
    assert [RootDir][1..] == [] && NormalNames([RootDir]) == [];
  }

  /** How a path's text ends: in ".", alone or after a separator and before any further ones; in a
      separator after something else; or in a name. */
  lemma EndingExactly(path: string)
    ensures EndingOf(path).InName? ==> path == "" || path[|path| - 1] != '/'
    ensures path != "" && path[|path| - 1] == '/' && !EndingOf(path).InDot? ==> EndingOf(path).InSeparator?
    ensures path == "." || (|path| >= 2 && path[|path| - 2..] == "/.") ==> EndingOf(path).InDot?
    ensures path != "" && path[|path| - 1] != '/' && path != "." && !(|path| >= 2 && path[|path| - 2..] == "/.") ==>
              EndingOf(path).InName?
    ensures EndingOf(path + "/").InDot? <==> EndingOf(path).InDot?
  {
    hide LastPiece;
    LastPieceOf(path);
    var last := LastPiece(Split(path));
    if path != "" && path[|path| - 1] != '/' {
      assert forall x :: 0 <= x < |last| ==> last[x] == path[|path| - |last|..][x] == path[|path| - |last| + x];
      assert |path| >= 2 ==> path[|path| - 2..] == [path[|path| - 2], path[|path| - 1]];
    }
    SplitJoin(path, "");
    assert path + "/" + "" == path + "/" && Split("") == [""];
    EmptyLastPiece(Split(path));
  }

  lemma EmptyLastPiece(pieces: seq<string>)
    ensures LastPiece(pieces + [""]) == LastPiece(pieces)
  {
    assert (pieces + [""])[..|pieces|] == pieces;
  }

  /** The last piece of a text that does not end in a separator is what follows its last one. */
  lemma {:induction false} LastPieceOf(s: string)
    requires true
    ensures s != "" && s[|s| - 1] != '/' ==>
              var last := LastPiece(Split(s));
              && last != "" && |last| <= |s| && s[|s| - |last|..] == last && '/' !in last
              && (|last| == |s| || s[|s| - |last| - 1] == '/')
    decreases |s|
  {
    if s != "" && s[|s| - 1] != '/' {
      var k := SplitFirst(s);
      if k == |s| {
        assert [s][..0] == [];
      } else {
        var rest := s[k + 1..];
        LastPieceOf(rest);
        LastOfMore(s[..k], Split(rest));
        var last := LastPiece(Split(rest));
        assert s[|s| - |last|..] == rest[|rest| - |last|..];
      }
    }
  }

  lemma {:induction false} LastOfMore(first: string, pieces: seq<string>)
    requires LastPiece(pieces) != ""
    ensures LastPiece([first] + pieces) == LastPiece(pieces)
  {
    var all := [first] + pieces;
    if pieces[|pieces| - 1] == "" {
      assert all[..|all| - 1] == [first] + pieces[..|pieces| - 1];
      LastOfMore(first, pieces[..|pieces| - 1]);
    }
  }

  method ValidateRelative(path: string) returns (r: Result<(), PathError>)
    ensures r == match RelativeError(path) { case None => Ok(()) case Some(e) => Err(e) }
  {
    hide Components;
    if path == "" {
      return Err(EmptyPath);
    }
    if '\0' in path {
      return Err(InvalidPath);
    }
    RootIsFirst(path);
    r := ValidateComponents(Components(path));
  }

  /** Walks the components and stops at the first offender; a root can only come first. */
  method ValidateComponents(components: seq<Component>) returns (r: Result<(), PathError>)
    requires RootDir in components ==> components[0] == RootDir
    ensures r == if RootDir in components then Err(AbsolutePath)
                 else if ParentDir in components then Err(Traversal)
                 else Ok(())
  {
    for i := 0 to |components|
      invariant forall k :: 0 <= k < i ==> components[k] != RootDir && components[k] != ParentDir
    {
      if components[i] == RootDir {
        return Err(AbsolutePath);
      }
      if components[i] == ParentDir {
        assert components[0] != RootDir;
        return Err(Traversal);
      }
    }
    return Ok(());
  }

  lemma {:induction false} PieceComponentsAppend(a: seq<string>, b: seq<string>, leading: bool)
    requires a != []
    ensures PieceComponents(a + b, leading) == PieceComponents(a, leading) + PieceComponents(b, false)
  {
    hide PieceComponent;
    var all := a + b;
    assert all[0] == a[0] && all[1..] == a[1..] + b;
    if a[1..] == [] {
      assert all[1..] == b;
    } else {
      PieceComponentsAppend(a[1..], b, false);
    }
  }

  lemma {:induction false} NormalNamesAppend(a: seq<Component>, b: seq<Component>)
    ensures NormalNames(a + b) == NormalNames(a) + NormalNames(b)
  {
    if a == [] {
      assert a + b == b;
    } else {
      assert (a + b)[0] == a[0] && (a + b)[1..] == a[1..] + b;
      NormalNamesAppend(a[1..], b);
    }
  }

  lemma AppendPiece(base: string, name: string, leading: bool)
    requires ProperName(name)
    ensures PieceComponents(Split(base) + [name], leading)
         == PieceComponents(Split(base), leading) + [Normal(name)]
  {
    PieceComponentsAppend(Split(base), [name], leading);
    assert [name][1..] == [];
    assert PieceComponents([name], false) == [Normal(name)] + PieceComponents([], false);
  }

  lemma TrailingSlash(base: string, leading: bool)
    ensures PieceComponents(Split(base + "/"), leading) == PieceComponents(Split(base), leading)
  {
    SplitJoin(base, "");
    assert base + "/" + "" == base + "/";
    PieceComponentsAppend(Split(base), [""], leading);
    assert PieceComponents([""], false) == PieceComponents([], false);
  }

  /** Joining an entry's name appends exactly one component. */
  lemma JoinComponents(rel: string, name: string)
    requires rel != "" && ProperName(name)
    ensures Components(Join(rel, name)) == Components(rel) + [Normal(name)]
  {
    hide Split, PieceComponents;
    var leading := !Rooted(rel);
    var base := if rel[|rel| - 1] == '/' then rel[..|rel| - 1] else rel;
    assert Join(rel, name) == base + "/" + name;
    assert Rooted(Join(rel, name)) == Rooted(rel);
    SplitSingle(name);
    SplitJoin(base, name);
    AppendPiece(base, name, leading);
    if base != rel {
      assert rel == base + "/";
      TrailingSlash(base, leading);
    }
  }

  /** A joined path ends in the entry's name. */
  lemma JoinEndsInName(rel: string, name: string)
    requires ProperName(name)
    ensures EndingOf(Join(rel, name)).InName?
  {
    var whole := Join(rel, name);
    SplitSingle(name);
    assert whole[|whole| - 1] == name[|name| - 1];
    if rel == "" {
      assert whole == name;
    } else {
      var base := if rel[|rel| - 1] == '/' then rel[..|rel| - 1] else rel;
      assert whole == base + "/" + name;
      SplitJoin(base, name);
    }
  }

  lemma NameHasNoNul(rel: string, name: string)
    requires '\0' !in rel && ProperName(name)
    ensures Join(rel, name) != "" && '\0' !in Join(rel, name)
  {
  }

  /** Walking into a child keeps an accepted path accepted and adds one name. */
  lemma JoinDescends(rel: string, name: string)
    requires RelativeError(rel) == None && ProperName(name)
    ensures RelativeError(Join(rel, name)) == None
    ensures Names(Join(rel, name)) == Names(rel) + [name]
    ensures EndingOf(Join(rel, name)).InName?
  {
    hide PieceComponents, Split, EndingOf, Join;
    JoinEndsInName(rel, name);
    NameHasNoNul(rel, name);
    JoinComponents(rel, name);
    NormalNamesAppend(Components(rel), [Normal(name)]);
    assert NormalNames([Normal(name)]) == [name];
  }

  // ---------- a filesystem with symbolic links ----------

  datatype Node = File | Dir | Link(target: seq<Component>)

  /** `maxLinks` bounds how many links one lookup follows. */
  datatype LinkedFs = LinkedFs(nodes: map<Path, Node>, maxLinks: nat)

  function NodeAt(fs: LinkedFs, p: Path): Option<Node> {
    if p == [] then Some(Dir) else if p in fs.nodes then Some(fs.nodes[p]) else None
  }

  function Parent(p: Path): Path { if p == [] then [] else p[..|p| - 1] }

  function Normals(p: Path): (cs: seq<Component>)
    ensures |cs| == |p| && forall i :: 0 <= i < |p| ==> cs[i] == Normal(p[i])
  {
    seq(|p|, i requires 0 <= i < |p| => Normal(p[i]))
  }

  /** Follows `todo` from the directory `base`, expanding links as it meets them. */
  function Walk(fs: LinkedFs, base: Path, todo: seq<Component>, links: nat): Option<Path>
    decreases links, |todo|
  {
    if todo == [] then Some(base)
    else match todo[0]
      case RootDir => Walk(fs, [], todo[1..], links)
      case CurDir => Walk(fs, base, todo[1..], links)
      case ParentDir => Walk(fs, Parent(base), todo[1..], links)
      case Normal(n) =>
        match NodeAt(fs, base + [n])
        case None => None
        case Some(File) => if todo[1..] == [] then Some(base + [n]) else None
        case Some(Dir) => Walk(fs, base + [n], todo[1..], links)
        case Some(Link(target)) =>
          if links == 0 then None else Walk(fs, base, target + todo[1..], links - 1)
  }

  function Canonicalize(fs: LinkedFs, path: seq<Component>): Option<Path> {
    Walk(fs, [], path, fs.maxLinks)
  }

  /** Follows links, so a dangling link counts as missing. */
  predicate Exists(fs: LinkedFs, p: Path) { Canonicalize(fs, Normals(p)).Some? }

  /** Every step down to `p` is a real directory, none of them a link. */
  ghost predicate SolidDir(fs: LinkedFs, p: Path) {
    forall k :: 0 <= k <= |p| ==> NodeAt(fs, p[..k]) == Some(Dir)
  }

  /** `p` is an existing file or directory named without any link. */
  ghost predicate Solid(fs: LinkedFs, p: Path) {
    SolidDir(fs, Parent(p)) && (NodeAt(fs, p) == Some(File) || NodeAt(fs, p) == Some(Dir))
  }

  lemma SolidDirParent(fs: LinkedFs, p: Path)
    requires SolidDir(fs, p)
    ensures SolidDir(fs, Parent(p))
  {
    forall k | 0 <= k <= |Parent(p)| ensures NodeAt(fs, Parent(p)[..k]) == Some(Dir) {
      assert Parent(p)[..k] == p[..k];
    }
  }

  lemma SolidDirChild(fs: LinkedFs, p: Path, n: string)
    requires SolidDir(fs, p) && NodeAt(fs, p + [n]) == Some(Dir)
    ensures SolidDir(fs, p + [n])
  {
    var q := p + [n];
    forall k | 0 <= k <= |q| ensures NodeAt(fs, q[..k]) == Some(Dir) {
      if k <= |p| { assert q[..k] == p[..k]; } else { assert q[..k] == q; }
    }
  }

  /** Whatever a lookup reaches is named without links. */
  lemma {:induction false} WalkIsSolid(fs: LinkedFs, base: Path, todo: seq<Component>, links: nat)
    requires SolidDir(fs, base) && Walk(fs, base, todo, links).Some?
    ensures Solid(fs, Walk(fs, base, todo, links).value)
    decreases links, |todo|
  {
    if todo == [] {
      SolidDirParent(fs, base);
      assert base[..|base|] == base;
    } else {
      match todo[0]
      case RootDir => WalkIsSolid(fs, [], todo[1..], links);
      case CurDir => WalkIsSolid(fs, base, todo[1..], links);
      case ParentDir =>
        SolidDirParent(fs, base);
        WalkIsSolid(fs, Parent(base), todo[1..], links);
      case Normal(n) =>
        match NodeAt(fs, base + [n])
        case Some(File) => assert Parent(base + [n]) == base;
        case Some(Dir) =>
          SolidDirChild(fs, base, n);
          WalkIsSolid(fs, base + [n], todo[1..], links);
        case Some(Link(target)) => WalkIsSolid(fs, base, target + todo[1..], links - 1);
    }
  }

  /** A path whose remaining steps are real entries leads to itself. */
  lemma {:induction false} WalkSolid(fs: LinkedFs, p: Path, k: nat, links: nat)
    requires Solid(fs, p) && k <= |p|
    ensures Walk(fs, p[..k], Normals(p)[k..], links) == Some(p)
    decreases |p| - k
  {
    if k == |p| {
      assert p[..k] == p;
    } else {
      assert p[..k] + [p[k]] == p[..k + 1] && Normals(p)[k..][1..] == Normals(p)[k + 1..];
      if k + 1 < |p| {
        assert p[..k + 1] == Parent(p)[..k + 1];
      } else {
        assert p[..k + 1] == p;
      }
      WalkSolid(fs, p, k + 1, links);
    }
  }

  /** Canonical paths are fixed points of canonicalisation. */
  lemma CanonicalIsFixed(fs: LinkedFs, path: seq<Component>)
    requires Canonicalize(fs, path).Some?
    ensures Canonicalize(fs, Normals(Canonicalize(fs, path).value)) == Canonicalize(fs, path)
  {
    WalkIsSolid(fs, [], path, fs.maxLinks);
    var p := Canonicalize(fs, path).value;
    WalkSolid(fs, p, 0, fs.maxLinks);
    assert Normals(p)[0..] == Normals(p);
  }

  // ---------- resolving against a capability ----------

  datatype Policy = Policy(root: seq<Component>, direction: Direction)

  predicate Allowed(direction: Direction, operation: Operation) {
    match operation
    case ReadOp => direction != Write
    case WriteOp => direction != Read
  }

  function Refusal(operation: Operation): PathError {
    if operation.ReadOp? then ReadNotAllowed else WriteNotAllowed
  }

  /** The longest prefix that exists. */
  function NearestExisting(fs: LinkedFs, p: Path): (q: Option<Path>)
    ensures q.Some? ==> q.value <= p && Exists(fs, q.value)
    ensures q.Some? ==> forall k :: |q.value| < k <= |p| ==> !Exists(fs, p[..k])
    ensures q.None? ==> forall k :: 0 <= k <= |p| ==> !Exists(fs, p[..k])
  {
    assert p[..|p|] == p;
    if Exists(fs, p) then Some(p)
    else if p == [] then None
    else
      assert forall k :: 0 <= k < |p| ==> p[..|p| - 1][..k] == p[..k];
      NearestExisting(fs, p[..|p| - 1])
  }

  predicate LeadsToDir(fs: LinkedFs, p: Path) {
    var c := Canonicalize(fs, Normals(p));
    c.Some? && NodeAt(fs, c.value) == Some(Dir)
  }

  /** exists() of a path whose text ends this way. */
  predicate Found(fs: LinkedFs, p: Path, ending: Ending) {
    if ending.InName? then Exists(fs, p) else LeadsToDir(fs, p)
  }

  /** The path itself if it is found as written, or else its longest ancestor that exists; an
      ancestor's text always ends in a name. */
  function NearestFound(fs: LinkedFs, p: Path, ending: Ending): (q: Option<Path>)
    ensures q.Some? ==> q.value <= p && Exists(fs, q.value)
    ensures q.Some? ==> forall k :: |q.value| < k < |p| ==> !Exists(fs, p[..k])
    ensures q.Some? && q.value != p ==> !Found(fs, p, ending)
    ensures q.None? ==> !Found(fs, p, ending) && forall k :: 0 <= k < |p| ==> !Exists(fs, p[..k])
  {
    if Found(fs, p, ending) then Some(p)
    else if p == [] then None
    else
      assert forall k :: 0 <= k < |p| ==> Parent(p)[..k] == p[..k];
      NearestExisting(fs, Parent(p))
  }

  method FindNearestExisting(fs: LinkedFs, path: Path, ending: Ending) returns (r: Result<Path, PathError>)
    ensures r == match NearestFound(fs, path, ending) { case Some(q) => Ok(q) case None => Err(PathUnavailable) }
  {
    var current, written := path, ending;
    while !Found(fs, current, written)
      invariant written.InName? || (current == path && written == ending)
      invariant NearestFound(fs, current, written) == NearestFound(fs, path, ending)
      decreases |current|
    {
      if current == [] {
        return Err(PathUnavailable);
      }
      NearestFromParent(fs, current, written);
      current, written := Parent(current), InName;
    }
    return Ok(current);
  }

  lemma NearestFromParent(fs: LinkedFs, p: Path, ending: Ending)
    requires p != [] && !Found(fs, p, ending)
    ensures NearestFound(fs, p, ending) == NearestFound(fs, Parent(p), InName)
  {
  }

  function Resolve(fs: LinkedFs, policy: Policy, path: string, operation: Operation): Result<Path, PathError> {
    match RelativeError(path)
    case Some(e) => Err(e)
    case None =>
      if !Allowed(policy.direction, operation) then Err(Refusal(operation))
      else match Canonicalize(fs, policy.root)
        case None => Err(RootUnavailable)
        case Some(root) =>
          if NodeAt(fs, root) != Some(Dir) then Err(RootUnavailable)
          else
            var candidate := root + Names(path);
            match operation
            case ReadOp =>
              (match Canonicalize(fs, Normals(candidate))
               case None => Err(PathUnavailable)
               case Some(p) =>
                 if !EndingOf(path).InName? && NodeAt(fs, p) != Some(Dir) then Err(PathUnavailable)
                 else if root <= p then Ok(p)
                 else Err(SymlinkEscape))
            case WriteOp =>
              (match NearestFound(fs, candidate, EndingOf(path))
               case None => Err(PathUnavailable)
               case Some(anc) =>
                 match Canonicalize(fs, Normals(anc))
                 case None => Err(PathUnavailable)
                 case Some(c) => if root <= c then Ok(candidate) else Err(SymlinkEscape))
  }

  /** Exactly what is accepted and why not, in the order it is checked: the path's text, the folder's
      direction, its root, and then where the path leads. An accepted read is where the path leads. */
  lemma ReadExactly(fs: LinkedFs, policy: Policy, path: string)
    ensures Resolve(fs, policy, path, ReadOp)
         == if RelativeError(path).Some? then Err(RelativeError(path).value)
            else if policy.direction == Write then Err(ReadNotAllowed)
            else match Canonicalize(fs, policy.root)
              case None => Err(RootUnavailable)
              case Some(root) =>
                if NodeAt(fs, root) != Some(Dir) then Err(RootUnavailable)
                else match Canonicalize(fs, Normals(root + Names(path)))
                  case None => Err(PathUnavailable)
                  case Some(p) =>
                    if !EndingOf(path).InName? && NodeAt(fs, p) != Some(Dir) then Err(PathUnavailable)
                    else if root <= p then Ok(p)
                    else Err(SymlinkEscape)
  {
  }

  /** An accepted write is the path itself, below the root; it is accepted when its nearest existing
      ancestor leads somewhere beneath the root. */
  lemma WriteExactly(fs: LinkedFs, policy: Policy, path: string)
    ensures Resolve(fs, policy, path, WriteOp)
         == if RelativeError(path).Some? then Err(RelativeError(path).value)
            else if policy.direction == Read then Err(WriteNotAllowed)
            else match Canonicalize(fs, policy.root)
              case None => Err(RootUnavailable)
              case Some(root) =>
                if NodeAt(fs, root) != Some(Dir) then Err(RootUnavailable)
                else
                  var anc := NearestFound(fs, root + Names(path), EndingOf(path));
                  if anc.None? then Err(PathUnavailable)
                  else if root <= Canonicalize(fs, Normals(anc.value)).value then Ok(root + Names(path))
                  else Err(SymlinkEscape)
  {
    hide Walk, Names, RelativeError, EndingOf, Normals;
  }

  /** An accepted read names an existing entry beneath the canonical root, through no link. */
  lemma ReadContainment(fs: LinkedFs, policy: Policy, path: string)
    requires Resolve(fs, policy, path, ReadOp).Ok?
    ensures Canonicalize(fs, policy.root).Some?
    ensures var p := Resolve(fs, policy, path, ReadOp).value;
            Canonicalize(fs, policy.root).value <= p && Solid(fs, p)
  {
    var root := Canonicalize(fs, policy.root).value;
    WalkIsSolid(fs, [], Normals(root + Names(path)), fs.maxLinks);
  }

  lemma {:induction false} NormalNamesProper(cs: seq<Component>)
    requires forall c :: c in cs && c.Normal? ==> c.name != ".." && c.name != "."
    ensures forall n :: n in NormalNames(cs) ==> n != ".." && n != "."
  {
    if cs != [] {
      NormalNamesProper(cs[1..]);
    }
  }

  lemma {:induction false} PieceNamesProper(pieces: seq<string>, leading: bool)
    ensures forall c :: c in PieceComponents(pieces, leading) && c.Normal? ==> c.name != ".." && c.name != "."
  {
    if pieces != [] {
      PieceNamesProper(pieces[1..], false);
    }
  }

  /** Names taken from a relative path never step up or stand still. */
  lemma NamesOnlyDescend(path: string)
    ensures forall n :: n in Names(path) ==> n != ".." && n != "."
  {
    PieceNamesProper(Split(path), !Rooted(path));
    NormalNamesProper(Components(path));
  }

  /** An accepted write: the ancestor search stops at or below the root, the ancestor's canonical
      form is beneath the root, and what is left only descends. */
  lemma WriteContainment(fs: LinkedFs, policy: Policy, path: string) returns (root: Path, anc: Path, c: Path)
    requires Resolve(fs, policy, path, WriteOp).Ok?
    ensures Canonicalize(fs, policy.root) == Some(root)
    ensures Resolve(fs, policy, path, WriteOp) == Ok(root + Names(path))
    ensures NearestFound(fs, root + Names(path), EndingOf(path)) == Some(anc)
    ensures root <= anc <= root + Names(path)
    ensures Canonicalize(fs, Normals(anc)) == Some(c) && root <= c
    ensures forall i :: |anc| <= i < |root + Names(path)| ==>
              (root + Names(path))[i] != ".." && (root + Names(path))[i] != "."
  {
    hide Names, RelativeError, Walk, Normals, NearestFound, EndingOf;
    root := Canonicalize(fs, policy.root).value;
    anc := NearestFound(fs, root + Names(path), EndingOf(path)).value;
    c := Canonicalize(fs, Normals(anc)).value;
    CanonicalIsFixed(fs, policy.root);
    AncestorIsNotAbove(fs, root, Names(path), EndingOf(path), anc);
    NamesOnlyDescend(path);
    forall i | |anc| <= i < |root + Names(path)| ensures (root + Names(path))[i] in Names(path) {
      assert (root + Names(path))[i] == Names(path)[i - |root|];
    }
  }

  /** The search for an existing ancestor never climbs past an existing directory above the path. */
  lemma AncestorIsNotAbove(fs: LinkedFs, root: Path, rest: Path, ending: Ending, anc: Path)
    requires LeadsToDir(fs, root) && NearestFound(fs, root + rest, ending) == Some(anc)
    ensures root <= anc
  {
    assert LeadsToDir(fs, root) ==> Exists(fs, root);
    hide Exists, LeadsToDir;
    assert (root + rest)[..|root|] == root;
    assert anc == (root + rest)[..|anc|];
    assert rest == [] ==> root + rest == root;
  }
}
