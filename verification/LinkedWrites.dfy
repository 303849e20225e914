/** What a write that the path policy accepted does on a filesystem with symbolic links: directories
    made and files placed always land beneath the capability's canonical root. */
module LinkedWrites {
  import opened Base
  import opened Text
  import opened PathPolicy

  // ---------- lookups after entries were added ----------

  /** Adding entries never changes where an existing path leads. */
  lemma {:induction false} WalkMonotone(fs: LinkedFs, fs': LinkedFs, base: Path, todo: seq<Component>, links: nat)
    requires forall p :: p in fs.nodes ==> p in fs'.nodes && fs'.nodes[p] == fs.nodes[p]
    requires Walk(fs, base, todo, links).Some?
    ensures Walk(fs', base, todo, links) == Walk(fs, base, todo, links)
    decreases links, |todo|
  {
    if todo != [] {
      match todo[0]
      case RootDir => WalkMonotone(fs, fs', [], todo[1..], links);
      case CurDir => WalkMonotone(fs, fs', base, todo[1..], links);
      case ParentDir => WalkMonotone(fs, fs', Parent(base), todo[1..], links);
      case Normal(n) =>
        match NodeAt(fs, base + [n])
        case Some(File) =>
        case Some(Dir) => WalkMonotone(fs, fs', base + [n], todo[1..], links);
        case Some(Link(target)) => WalkMonotone(fs, fs', base, target + todo[1..], links - 1);
    }
  }

  /** Steps through real directories extend a lookup name by name. */
  lemma {:induction false} WalkDescends(fs: LinkedFs, base: Path, rest: Path, links: nat)
    requires forall k :: 0 < k <= |rest| ==> NodeAt(fs, base + rest[..k]) == Some(Dir)
    ensures Walk(fs, base, Normals(rest), links) == Some(base + rest)
    decreases |rest|
  {
    if rest == [] {
      assert base + rest == base;
    } else {
      assert rest[..1] == [rest[0]];
      var next := base + [rest[0]];
      assert NodeAt(fs, base + rest[..1]) == Some(Dir);
      forall k | 0 < k <= |rest[1..]| ensures NodeAt(fs, next + rest[1..][..k]) == Some(Dir) {
        assert next + rest[1..][..k] == base + rest[..k + 1];
      }
      assert Normals(rest)[1..] == Normals(rest[1..]);
      WalkDescends(fs, next, rest[1..], links);
      assert next + rest[1..] == base + rest;
    }
  }

  lemma {:induction false} WalkAppendDescends(fs: LinkedFs, base: Path, todo: seq<Component>, rest: Path, links: nat)
    requires Walk(fs, base, todo, links).Some?
    requires var c := Walk(fs, base, todo, links).value;
             forall k :: 0 <= k <= |rest| ==> NodeAt(fs, c + rest[..k]) == Some(Dir)
    ensures Walk(fs, base, todo + Normals(rest), links) == Some(Walk(fs, base, todo, links).value + rest)
    decreases links, |todo|
  {
    var more := Normals(rest);
    var c := Walk(fs, base, todo, links).value;
    assert c + rest[..0] == c;
    if todo == [] {
      assert todo + more == more;
      WalkDescends(fs, base, rest, links);
    } else {
      assert (todo + more)[0] == todo[0] && (todo + more)[1..] == todo[1..] + more;
      match todo[0]
      case RootDir => WalkAppendDescends(fs, [], todo[1..], rest, links);
      case CurDir => WalkAppendDescends(fs, base, todo[1..], rest, links);
      case ParentDir => WalkAppendDescends(fs, Parent(base), todo[1..], rest, links);
      case Normal(n) =>
        match NodeAt(fs, base + [n])
        case Some(File) =>
        case Some(Dir) => WalkAppendDescends(fs, base + [n], todo[1..], rest, links);
        case Some(Link(target)) =>
          assert target + (todo[1..] + more) == (target + todo[1..]) + more;
          WalkAppendDescends(fs, base, target + todo[1..], rest, links - 1);
    }
  }

  /** One of the steps on the way down from `c` to `c + rest`. */
  predicate Step(c: Path, rest: Path, p: Path) { c < p <= c + rest }

  /** The filesystem after directories were made at every step from `c` down to `c + rest`. */
  function WithDirs(fs: LinkedFs, c: Path, rest: Path): LinkedFs
    decreases |rest|
  {
    if rest == [] then fs
    else
      var above := WithDirs(fs, c, rest[..|rest| - 1]);
      above.(nodes := above.nodes[c + rest := Dir])
  }

  lemma {:induction false} WithDirsAt(fs: LinkedFs, c: Path, rest: Path, p: Path)
    ensures NodeAt(WithDirs(fs, c, rest), p) == if Step(c, rest, p) then Some(Dir) else NodeAt(fs, p)
    ensures WithDirs(fs, c, rest).maxLinks == fs.maxLinks
    decreases |rest|
  {
    if rest == [] {
      assert c + rest == c;
    } else {
      var shorter := rest[..|rest| - 1];
      WithDirsAt(fs, c, shorter, p);
      assert c + shorter == (c + rest)[..|c + shorter|];
      if Step(c, rest, p) && p != c + rest {
        assert p == (c + rest)[..|p|] == (c + shorter)[..|p|];
      }
    }
  }

  /** No entry of any kind, followed or not, stands at a step below `c`. */
  ghost predicate NoneTaken(fs: LinkedFs, c: Path, rest: Path) {
    forall p :: Step(c, rest, p) ==> p !in fs.nodes
  }

  lemma NewDirsKeepEntries(fs: LinkedFs, c: Path, rest: Path)
    requires NoneTaken(fs, c, rest)
    ensures var fs' := WithDirs(fs, c, rest);
            forall p :: p in fs.nodes ==> p in fs'.nodes && fs'.nodes[p] == fs.nodes[p]
  {
    var fs' := WithDirs(fs, c, rest);
    forall p | p in fs.nodes ensures p in fs'.nodes && fs'.nodes[p] == fs.nodes[p] {
      WithDirsKeepsKeys(fs, c, rest, p);
    }
  }

  lemma {:induction false} WithDirsKeepsKeys(fs: LinkedFs, c: Path, rest: Path, p: Path)
    requires NoneTaken(fs, c, rest) && p in fs.nodes
    ensures p in WithDirs(fs, c, rest).nodes && WithDirs(fs, c, rest).nodes[p] == fs.nodes[p]
    decreases |rest|
  {
    if rest != [] {
      NoneTakenStep(fs, c, rest);
      WithDirsKeepsKeys(fs, c, rest[..|rest| - 1], p);
    }
  }

  /** Once the missing steps are made below an existing ancestor, the whole path leads there. */
  lemma MadeDirsAreFollowed(fs: LinkedFs, anc: Path, c: Path, rest: Path)
    requires Canonicalize(fs, Normals(anc)) == Some(c) && NodeAt(fs, c) == Some(Dir)
    requires NoneTaken(fs, c, rest)
    ensures Canonicalize(WithDirs(fs, c, rest), Normals(anc + rest)) == Some(c + rest)
    ensures NodeAt(WithDirs(fs, c, rest), c + rest) == Some(Dir)
  {
    hide Walk, WithDirs;
    var fs' := WithDirs(fs, c, rest);
    NewDirsKeepEntries(fs, c, rest);
    WithDirsAt(fs, c, rest, c);
    WalkMonotone(fs, fs', [], Normals(anc), fs.maxLinks);
    forall k | 0 <= k <= |rest| ensures NodeAt(fs', c + rest[..k]) == Some(Dir) {
      WithDirsAt(fs, c, rest, c + rest[..k]);
      assert c + rest[..k] == (c + rest)[..|c| + k];
      assert k == 0 ==> c + rest[..k] == c;
    }
    WalkAppendDescends(fs', [], Normals(anc), rest, fs.maxLinks);
    assert Normals(anc) + Normals(rest) == Normals(anc + rest);
    assert rest[..|rest|] == rest;
  }

  lemma NoneTakenStep(fs: LinkedFs, c: Path, rest: Path)
    requires rest != []
    ensures NoneTaken(fs, c, rest) <==> NoneTaken(fs, c, rest[..|rest| - 1]) && c + rest !in fs.nodes
  {
    var shorter := rest[..|rest| - 1];
    assert c + shorter == (c + rest)[..|c + shorter|];
    forall p | Step(c, rest, p) ensures Step(c, shorter, p) || p == c + rest {
      if |p| < |c + rest| {
        assert p == (c + rest)[..|p|] == (c + shorter)[..|p|];
      }
    }
    forall p | Step(c, shorter, p) ensures Step(c, rest, p) {
      assert p == (c + shorter)[..|p|] == (c + rest)[..|p|];
    }
  }

  // ---------- what an accepted write does ----------

  /** mkdir: the parent is followed, the last name is not, and any entry under it, even a dangling
      link, is in the way. */
  function Mkdir(fs: LinkedFs, p: Path): (LinkedFs, bool)
    requires p != []
  {
    if !LeadsToDir(fs, Parent(p)) then (fs, false)
    else
      var entry := Canonicalize(fs, Normals(Parent(p))).value + [p[|p| - 1]];
      if entry in fs.nodes then (fs, false) else (fs.(nodes := fs.nodes[entry := Dir]), true)
  }

  /** create_dir_all: what leads to a directory is left alone, anything missing is made from the top. */
  function CreateDirAll(fs: LinkedFs, p: Path): (LinkedFs, bool)
    decreases |p|
  {
    if p == [] || LeadsToDir(fs, p) then (fs, true)
    else
      var (fs1, made) := CreateDirAll(fs, Parent(p));
      if made then Mkdir(fs1, p) else (fs1, false)
  }

  /** create_dir_all of a path whose text ends this way: under a "." only the directories above it are
      made, and then the call fails unless the directory was there. */
  function CreateDirAllAs(fs: LinkedFs, p: Path, ending: Ending): (LinkedFs, bool) {
    if ending.InDot? && !LeadsToDir(fs, p) then (CreateDirAll(fs, Parent(p)).0, false) else CreateDirAll(fs, p)
  }

  /** Receiving one file at `p`: its directory is made, a new sibling `temp` is opened and then
      renamed. Opening refuses any entry of that name; the rename replaces a link itself, never what
      it leads to, refuses a directory, and refuses a path whose text does not end in a name. */
  function PlaceFile(fs: LinkedFs, p: Path, ending: Ending, temp: string): (LinkedFs, bool)
    requires p != []
  {
    var (fs1, made) := CreateDirAll(fs, Parent(p));
    if !made || !LeadsToDir(fs1, Parent(p)) then (fs1, false)
    else
      var d := Canonicalize(fs1, Normals(Parent(p))).value;
      var entry := d + [p[|p| - 1]];
      if d + [temp] in fs1.nodes then (fs1, false)
      else if NodeAt(fs1, entry) == Some(Dir) || !ending.InName?
          then (fs1.(nodes := fs1.nodes[d + [temp] := File]), false)
      else (fs1.(nodes := fs1.nodes[entry := File]), true)
  }

  /** The lookup of a path with a last name passes through a directory that has an entry of that name. */
  lemma {:induction false} WalkLast(fs: LinkedFs, base: Path, todo: seq<Component>, n: string, links: nat)
    requires NodeAt(fs, base) == Some(Dir) && SolidDir(fs, base)
    requires Walk(fs, base, todo + [Normal(n)], links).Some?
    ensures Walk(fs, base, todo, links).Some?
    ensures var d := Walk(fs, base, todo, links).value;
            NodeAt(fs, d) == Some(Dir) && NodeAt(fs, d + [n]).Some?
    decreases links, |todo|
  {
    var all := todo + [Normal(n)];
    if todo == [] {
      assert all == [Normal(n)];
    } else {
      assert all[0] == todo[0] && all[1..] == todo[1..] + [Normal(n)];
      match todo[0]
      case RootDir =>
        assert SolidDir(fs, []);
        WalkLast(fs, [], todo[1..], n, links);
      case CurDir => WalkLast(fs, base, todo[1..], n, links);
      case ParentDir =>
        SolidDirParent(fs, base);
        assert Parent(base)[..|Parent(base)|] == Parent(base);
        WalkLast(fs, Parent(base), todo[1..], n, links);
      case Normal(m) =>
        match NodeAt(fs, base + [m])
        case Some(Dir) =>
          SolidDirChild(fs, base, m);
          WalkLast(fs, base + [m], todo[1..], n, links);
        case Some(Link(target)) =>
          assert target + all[1..] == (target + todo[1..]) + [Normal(n)];
          WalkLast(fs, base, target + todo[1..], n, links - 1);
    }
  }

  /** Making directories where an entry exists already changes nothing, and succeeds exactly when
      that entry leads to a directory. */
  lemma CreateExisting(fs: LinkedFs, p: Path)
    requires Exists(fs, p)
    ensures CreateDirAll(fs, p) == (fs, LeadsToDir(fs, p))
  {
    if p == [] {
      assert Normals(p) == [];
    } else {
      var n := p[|p| - 1];
      assert Normals(p) == Normals(Parent(p)) + [Normal(n)];
      assert SolidDir(fs, []);
      WalkLast(fs, [], Normals(Parent(p)), n, fs.maxLinks);
      assert LeadsToDir(fs, Parent(p));
    }
  }

  /** Exactly what making directories below an existing ancestor does: it makes the steps down from
      where the ancestor leads, and stops at the first that is taken. */
  lemma {:induction false} CreateBelow(fs: LinkedFs, anc: Path, c: Path, rest: Path) returns (made: nat)
    requires Canonicalize(fs, Normals(anc)) == Some(c)
    requires forall k :: 0 < k <= |rest| ==> !LeadsToDir(fs, anc + rest[..k])
    ensures made <= |rest| && NoneTaken(fs, c, rest[..made])
    ensures CreateDirAll(fs, anc + rest).0 == WithDirs(fs, c, rest[..made])
    ensures CreateDirAll(fs, anc + rest).1 <==> NodeAt(fs, c) == Some(Dir) && NoneTaken(fs, c, rest)
    ensures CreateDirAll(fs, anc + rest).1 ==> made == |rest|
    ensures made > 0 ==> NodeAt(fs, c) == Some(Dir)
    decreases |rest|
  {
    hide Walk, Normals;
    if rest == [] {
      made := 0;
      assert anc + rest == anc;
      CreateExisting(fs, anc);
    } else {
      hide WithDirs, NoneTaken, Mkdir, LeadsToDir, Canonicalize;
      var shorter, n := rest[..|rest| - 1], rest[|rest| - 1];
      assert Parent(anc + rest) == anc + shorter && anc + rest[..|rest|] == anc + rest;
      forall k | 0 < k <= |shorter| ensures !LeadsToDir(fs, anc + shorter[..k]) {
        assert shorter[..k] == rest[..k];
      }
      made := CreateBelow(fs, anc, c, shorter);
      assert shorter[..made] == rest[..made];
      if CreateDirAll(fs, anc + shorter).1 {
        MadeDirsAreFollowed(fs, anc, c, shorter);
        MkdirLast(fs, anc, c, rest);
        if c + rest !in fs.nodes {
          made := |rest|;
          assert rest[..made] == rest;
        }
      }
      NoneTakenStep(fs, c, rest);
    }
  }

  lemma WithDirsLast(fs: LinkedFs, c: Path, rest: Path)
    requires rest != []
    ensures c + rest in WithDirs(fs, c, rest[..|rest| - 1]).nodes <==> c + rest in fs.nodes
    ensures NodeAt(WithDirs(fs, c, rest[..|rest| - 1]), c + rest) == NodeAt(fs, c + rest)
    ensures var fs1 := WithDirs(fs, c, rest[..|rest| - 1]);
            fs1.(nodes := fs1.nodes[c + rest := Dir]) == WithDirs(fs, c, rest)
  {
    WithDirsAt(fs, c, rest[..|rest| - 1], c + rest);
  }

  lemma MkdirLast(fs: LinkedFs, anc: Path, c: Path, rest: Path)
    requires rest != []
    requires var shorter := rest[..|rest| - 1];
             var fs1 := WithDirs(fs, c, shorter);
             Canonicalize(fs1, Normals(anc + shorter)) == Some(c + shorter) && NodeAt(fs1, c + shorter) == Some(Dir)
    ensures Mkdir(WithDirs(fs, c, rest[..|rest| - 1]), anc + rest)
         == if c + rest in fs.nodes then (WithDirs(fs, c, rest[..|rest| - 1]), false) else (WithDirs(fs, c, rest), true)
  {
    hide Walk, WithDirs, Canonicalize, Normals;
    var shorter, n := rest[..|rest| - 1], rest[|rest| - 1];
    assert Parent(anc + rest) == anc + shorter && (anc + rest)[|anc + rest| - 1] == n;
    assert c + shorter + [n] == c + rest;
    WithDirsLast(fs, c, rest);
  }

  /** All that changed is beneath `root`, and every entry that was not a link is as it was. */
  ghost predicate ChangesBeneath(fs: LinkedFs, fs': LinkedFs, root: Path) {
    && (forall p :: !(root <= p) ==> NodeAt(fs', p) == NodeAt(fs, p))
    && (forall p :: NodeAt(fs, p) == Some(File) || NodeAt(fs, p) == Some(Dir) ==> NodeAt(fs', p) == NodeAt(fs, p))
  }

  lemma MadeDirsStayBeneath(fs: LinkedFs, root: Path, c: Path, rest: Path)
    requires root <= c && NoneTaken(fs, c, rest)
    ensures ChangesBeneath(fs, WithDirs(fs, c, rest), root)
  {
    hide WithDirs;
    forall p ensures NodeAt(WithDirs(fs, c, rest), p) == if Step(c, rest, p) then Some(Dir) else NodeAt(fs, p) {
      WithDirsAt(fs, c, rest, p);
    }
    forall p | Step(c, rest, p) ensures root <= p {
      assert root == c[..|root|] == p[..|root|];
    }
  }

  /** Every entry sits in a directory. */
  ghost predicate EntriesInDirs(fs: LinkedFs) {
    forall p :: p in fs.nodes && p != [] ==> NodeAt(fs, Parent(p)) == Some(Dir)
  }

  /** An entry met at the end of a lookup that is no link is what the lookup finds. */
  lemma {:induction false} WalkAppendEntry(fs: LinkedFs, base: Path, todo: seq<Component>, n: string, links: nat)
    requires Walk(fs, base, todo, links).Some?
    requires var entry := NodeAt(fs, Walk(fs, base, todo, links).value + [n]); entry == Some(File) || entry == Some(Dir)
    requires NodeAt(fs, Walk(fs, base, todo, links).value) == Some(Dir)
    ensures Walk(fs, base, todo + [Normal(n)], links).Some?
    decreases links, |todo|
  {
    var all := todo + [Normal(n)];
    if todo == [] {
      assert all == [Normal(n)];
    } else {
      assert all[0] == todo[0] && all[1..] == todo[1..] + [Normal(n)];
      match todo[0]
      case RootDir => WalkAppendEntry(fs, [], todo[1..], n, links);
      case CurDir => WalkAppendEntry(fs, base, todo[1..], n, links);
      case ParentDir => WalkAppendEntry(fs, Parent(base), todo[1..], n, links);
      case Normal(m) =>
        match NodeAt(fs, base + [m])
        case Some(File) =>
        case Some(Dir) => WalkAppendEntry(fs, base + [m], todo[1..], n, links);
        case Some(Link(target)) =>
          assert target + all[1..] == (target + todo[1..]) + [Normal(n)];
          WalkAppendEntry(fs, base, target + todo[1..], n, links - 1);
    }
  }

  /** Below an existing ancestor, the entry of a path that does not exist is missing or a link. */
  lemma MissingEntry(fs: LinkedFs, anc: Path, c: Path, rest: Path)
    requires EntriesInDirs(fs) && Canonicalize(fs, Normals(anc)) == Some(c) && NodeAt(fs, c) == Some(Dir)
    requires rest != [] && !Exists(fs, anc + rest) && NoneTaken(fs, c, rest[..|rest| - 1])
    ensures c + rest in fs.nodes ==> |rest| == 1 && fs.nodes[c + rest].Link?
  {
    var shorter, n := rest[..|rest| - 1], rest[|rest| - 1];
    assert shorter != [] ==> Step(c, shorter, c + shorter);
    if c + rest in fs.nodes {
      assert Parent(c + rest) == c + shorter;
      assert rest == [n] && Normals(anc + rest) == Normals(anc) + [Normal(n)];
      if !fs.nodes[c + rest].Link? {
        WalkAppendEntry(fs, [], Normals(anc), n, fs.maxLinks);
      }
    }
  }

  lemma PlacedStaysBeneath(fs: LinkedFs, root: Path, c: Path, rest: Path)
    requires rest != [] && root <= c && ChangesBeneath(fs, WithDirs(fs, c, rest[..|rest| - 1]), root)
    requires c + rest in fs.nodes ==> fs.nodes[c + rest].Link?
    ensures var fs1 := WithDirs(fs, c, rest[..|rest| - 1]);
            ChangesBeneath(fs, fs1.(nodes := fs1.nodes[c + rest := File]), root)
  {
    hide WithDirs;
    assert c + rest != [];
  }

  /** A new file where no entry stood, such as a temporary one. */
  lemma AddedStaysBeneath(fs: LinkedFs, fs1: LinkedFs, root: Path, entry: Path)
    requires ChangesBeneath(fs, fs1, root) && root <= entry && entry != [] && entry !in fs1.nodes
    ensures ChangesBeneath(fs, fs1.(nodes := fs1.nodes[entry := File]), root)
  {
  }

  lemma MadeDirsSit(fs: LinkedFs, c: Path, rest: Path)
    requires EntriesInDirs(fs) && (rest == [] || NodeAt(fs, c) == Some(Dir))
    ensures EntriesInDirs(WithDirs(fs, c, rest))
  {
    hide WithDirs;
    var fs' := WithDirs(fs, c, rest);
    forall p | p in fs'.nodes && p != [] ensures NodeAt(fs', Parent(p)) == Some(Dir) {
      WithDirsAt(fs, c, rest, p);
      WithDirsAt(fs, c, rest, Parent(p));
      if Step(c, rest, p) {
        assert Parent(p) == p[..|p| - 1] == (c + rest)[..|p| - 1];
        assert c == p[..|c|] == Parent(p)[..|c|];
        assert Parent(p) == c || Step(c, rest, Parent(p));
        assert rest == [] ==> c + rest == c;
      }
    }
  }

  lemma PlacedSits(fs: LinkedFs, entry: Path)
    requires EntriesInDirs(fs) && entry != [] && NodeAt(fs, Parent(entry)) == Some(Dir)
    requires NodeAt(fs, entry) != Some(Dir)
    ensures EntriesInDirs(fs.(nodes := fs.nodes[entry := File]))
  {
  }

  // ---------- where an accepted write starts from ----------

  /** What the policy found for an accepted write: the path leads from an existing ancestor, beneath
      the root, down steps none of which leads to a directory. */
  lemma AcceptedWrite(fs: LinkedFs, policy: Policy, path: string)
    returns (root: Path, anc: Path, c: Path, rest: Path)
    requires Resolve(fs, policy, path, WriteOp).Ok?
    ensures Canonicalize(fs, policy.root) == Some(root) && NodeAt(fs, root) == Some(Dir)
    ensures Resolve(fs, policy, path, WriteOp) == Ok(anc + rest)
    ensures Canonicalize(fs, Normals(anc)) == Some(c) && root <= c
    ensures forall k :: 0 < k <= |rest| ==> !LeadsToDir(fs, anc + rest[..k])
    ensures rest == [] <==> Found(fs, anc + rest, EndingOf(path))
  {
    hide Walk, NearestFound, Names, Normals, RelativeError, EndingOf;
    root, anc, c := WriteContainment(fs, policy, path);
    var p, ending := root + Names(path), EndingOf(path);
    rest := p[|anc|..];
    assert p == anc + rest && (rest == [] <==> anc == p);
    FoundIsNearest(fs, p, ending);
    forall k | 0 < k <= |rest| ensures !LeadsToDir(fs, anc + rest[..k]) {
      assert anc + rest[..k] == p[..|anc| + k];
      NearestIsLongest(fs, p, ending, anc, |anc| + k);
    }
  }

  lemma FoundIsNearest(fs: LinkedFs, p: Path, ending: Ending)
    ensures NearestFound(fs, p, ending) == Some(p) <==> Found(fs, p, ending)
  {
    hide Found;
  }

  lemma NearestIsLongest(fs: LinkedFs, p: Path, ending: Ending, anc: Path, k: nat)
    requires NearestFound(fs, p, ending) == Some(anc) && |anc| < k <= |p|
    ensures !LeadsToDir(fs, p[..k])
  {
    hide Canonicalize;
    assert p[..|p|] == p;
  }

  // ---------- directories ----------

  /** Making an accepted directory only adds directories below where the ancestor found leads. */
  lemma MadeBelow(fs: LinkedFs, policy: Policy, path: string) returns (c: Path, steps: Path)
    requires Resolve(fs, policy, path, WriteOp).Ok?
    ensures Canonicalize(fs, policy.root).Some? && Canonicalize(fs, policy.root).value <= c
    ensures NoneTaken(fs, c, steps) && (steps == [] || NodeAt(fs, c) == Some(Dir))
    ensures CreateDirAllAs(fs, Resolve(fs, policy, path, WriteOp).value, EndingOf(path)).0 == WithDirs(fs, c, steps)
  {
    hide Resolve, EndingOf, WithDirs, NoneTaken, Normals, Walk, CreateDirAll;
    var root, anc, rest;
    root, anc, c, rest := AcceptedWrite(fs, policy, path);
    var p := anc + rest;
    var down := rest;
    if EndingOf(path).InDot? && !LeadsToDir(fs, p) {
      assert rest != [];
      down := rest[..|rest| - 1];
      assert Parent(p) == anc + down;
      forall k | 0 < k <= |down| ensures !LeadsToDir(fs, anc + down[..k]) {
        assert down[..k] == rest[..k];
      }
    }
    var made := CreateBelow(fs, anc, c, down);
    steps := down[..made];
  }

  /** An accepted directory: whatever links stand in the way, everything made is beneath the
      canonical root, and if it is made the path leads to a directory beneath the root. */
  lemma DirectoryLandsBeneathRoot(fs: LinkedFs, policy: Policy, path: string)
    requires Resolve(fs, policy, path, WriteOp).Ok?
    ensures Canonicalize(fs, policy.root).Some?
    ensures var root, p := Canonicalize(fs, policy.root).value, Resolve(fs, policy, path, WriteOp).value;
            var (fs', made) := CreateDirAllAs(fs, p, EndingOf(path));
            && ChangesBeneath(fs, fs', root)
            && (EntriesInDirs(fs) ==> EntriesInDirs(fs'))
            && (made ==> LeadsToDir(fs', p) && root <= Canonicalize(fs', Normals(p)).value)
  {
    hide Resolve, EndingOf, WithDirs, NoneTaken, Normals, Walk, CreateDirAll, EntriesInDirs, ChangesBeneath;
    var c, steps := MadeBelow(fs, policy, path);
    MadeDirsStayBeneath(fs, Canonicalize(fs, policy.root).value, c, steps);
    if EntriesInDirs(fs) {
      MadeDirsSit(fs, c, steps);
    }
    var root, anc, c', rest := AcceptedWrite(fs, policy, path);
    if CreateDirAllAs(fs, anc + rest, EndingOf(path)).1 {
      var made := CreateBelow(fs, anc, c', rest);
      assert rest[..made] == rest;
      MadeDirsAreFollowed(fs, anc, c', rest);
    }
  }

  // ---------- files ----------

  /** Everything placing an accepted file that is not there yet can leave behind: directories only; or,
      its path not ending in a name, also the temporary file; or the file itself. */
  lemma PlaceBelow(fs: LinkedFs, anc: Path, c: Path, rest: Path, ending: Ending, temp: string) returns (steps: Path)
    requires EntriesInDirs(fs) && Canonicalize(fs, Normals(anc)) == Some(c) && rest != []
    requires !Found(fs, anc + rest, ending)
    requires forall k :: 0 < k <= |rest| ==> !LeadsToDir(fs, anc + rest[..k])
    ensures var shorter := rest[..|rest| - 1];
            var fs1 := WithDirs(fs, c, shorter);
            var opens := NodeAt(fs, c) == Some(Dir) && NoneTaken(fs, c, shorter) && c + shorter + [temp] !in fs1.nodes;
            var (fs', placed) := PlaceFile(fs, anc + rest, ending, temp);
            && (placed <==> opens && ending.InName?)
            && (opens ==> Canonicalize(fs1, Normals(anc + shorter)) == Some(c + shorter))
            && (if placed then
                  && fs' == fs1.(nodes := fs1.nodes[c + rest := File])
                  && (c + rest in fs.nodes ==> fs.nodes[c + rest].Link?)
                else if opens then fs' == fs1.(nodes := fs1.nodes[c + shorter + [temp] := File])
                else
                  && NoneTaken(fs, c, steps) && (steps == [] || NodeAt(fs, c) == Some(Dir))
                  && fs' == WithDirs(fs, c, steps))
  {
    hide Walk, Normals, WithDirs, EntriesInDirs, LeadsToDir, Canonicalize;
    var shorter, n := rest[..|rest| - 1], rest[|rest| - 1];
    assert Parent(anc + rest) == anc + shorter && (anc + rest)[|anc + rest| - 1] == n;
    assert c + shorter + [n] == c + rest && anc + rest[..|rest|] == anc + rest;
    forall k | 0 < k <= |shorter| ensures !LeadsToDir(fs, anc + shorter[..k]) {
      assert shorter[..k] == rest[..k];
    }
    var made := CreateBelow(fs, anc, c, shorter);
    steps := shorter[..made];
    if CreateDirAll(fs, anc + shorter).1 {
      assert steps == shorter;
      MadeDirsAreFollowed(fs, anc, c, shorter);
      LeadsThere(WithDirs(fs, c, shorter), anc + shorter, c + shorter);
      if ending.InName? {
        MissingEntry(fs, anc, c, rest);
      }
      WithDirsLast(fs, c, rest);
    }
  }

  lemma LeadsThere(fs: LinkedFs, p: Path, d: Path)
    requires Canonicalize(fs, Normals(p)) == Some(d) && NodeAt(fs, d) == Some(Dir)
    ensures LeadsToDir(fs, p)
  {
  }

  /** An accepted file that is not there yet: whatever links stand in the way, everything that changes
      is beneath the canonical root. It is placed exactly when its path ends in a name, every directory
      still to be made, below where the ancestor found really leads, is missing and the temporary name
      is free; its entry is then in the directory its path leads to, and a link of that very name is
      replaced, never followed. */
  lemma WriteLandsBeneathRoot(fs: LinkedFs, policy: Policy, path: string, temp: string)
    returns (root: Path, c: Path, rest: Path)
    requires EntriesInDirs(fs)
    requires Resolve(fs, policy, path, WriteOp).Ok?
    requires !Found(fs, Resolve(fs, policy, path, WriteOp).value, EndingOf(path))
    ensures Canonicalize(fs, policy.root) == Some(root) && root <= c && rest != []
    ensures var p := Resolve(fs, policy, path, WriteOp).value;
            && |rest| <= |p| && p[|p| - |rest|..] == rest
            && Canonicalize(fs, Normals(p[..|p| - |rest|])) == Some(c)
            && var shorter := rest[..|rest| - 1];
               var fs1 := WithDirs(fs, c, shorter);
               var (fs', placed) := PlaceFile(fs, p, EndingOf(path), temp);
               && ChangesBeneath(fs, fs', root) && EntriesInDirs(fs')
               && (placed <==>
                     && EndingOf(path).InName? && NodeAt(fs, c) == Some(Dir) && NoneTaken(fs, c, shorter)
                     && c + shorter + [temp] !in fs1.nodes)
               && (placed ==>
                     && Canonicalize(fs1, Normals(Parent(p))) == Some(c + shorter)
                     && fs' == fs1.(nodes := fs1.nodes[c + rest := File]))
  {
    hide Resolve, EndingOf, Walk, Normals, Found, PlaceFile, WithDirs, EntriesInDirs, NoneTaken, ChangesBeneath,
        LeadsToDir;
    var anc;
    root, anc, c, rest := AcceptedWrite(fs, policy, path);
    var p, ending := anc + rest, EndingOf(path);
    var shorter := rest[..|rest| - 1];
    assert p[|p| - |rest|..] == rest && p[..|p| - |rest|] == anc && Parent(p) == anc + shorter;
    var steps := PlaceBelow(fs, anc, c, rest, ending, temp);
    var fs1 := WithDirs(fs, c, shorter);
    if NodeAt(fs, c) == Some(Dir) && NoneTaken(fs, c, shorter) && c + shorter + [temp] !in fs1.nodes {
      MadeDirsStayBeneath(fs, root, c, shorter);
      MadeDirsSit(fs, c, shorter);
      MadeDirsAreFollowed(fs, anc, c, shorter);
      if ending.InName? {
        PlacedStaysBeneath(fs, root, c, rest);
        WithDirsLast(fs, c, rest);
        assert Parent(c + rest) == c + shorter && c + rest != [];
        MissingAfterDirs(fs, c, rest);
        PlacedSits(fs1, c + rest);
      } else {
        var left := c + shorter + [temp];
        assert Parent(left) == c + shorter && left != [];
        BelowRoot(root, c, shorter + [temp]);
        assert c + (shorter + [temp]) == left;
        AddedStaysBeneath(fs, fs1, root, left);
        PlacedSits(fs1, left);
      }
    } else {
      MadeDirsStayBeneath(fs, root, c, steps);
      MadeDirsSit(fs, c, steps);
    }
  }

  lemma BelowRoot(root: Path, c: Path, rest: Path)
    requires root <= c
    ensures root <= c + rest
  {
  }

  lemma MissingAfterDirs(fs: LinkedFs, c: Path, rest: Path)
    requires rest != [] && (c + rest in fs.nodes ==> fs.nodes[c + rest].Link?)
    ensures NodeAt(WithDirs(fs, c, rest[..|rest| - 1]), c + rest) != Some(Dir)
  {
    WithDirsLast(fs, c, rest);
    assert c + rest != [];
  }

  // ---------- any sequence of writes ----------

  datatype Write = MakeDir(path: string) | PlaceAt(path: string, temp: string)

  /** One message's effect on the tree, if the policy accepts its path. */
  function Apply(fs: LinkedFs, policy: Policy, w: Write): LinkedFs {
    match Resolve(fs, policy, w.path, WriteOp)
    case Err(_) => fs
    case Ok(p) =>
      match w
      case MakeDir(path) => CreateDirAllAs(fs, p, EndingOf(path)).0
      case PlaceAt(path, temp) =>
        if p == [] || Found(fs, p, EndingOf(path)) then fs else PlaceFile(fs, p, EndingOf(path), temp).0
  }

  function ApplyAll(fs: LinkedFs, policy: Policy, ws: seq<Write>): LinkedFs
    decreases |ws|
  {
    if ws == [] then fs else ApplyAll(Apply(fs, policy, ws[0]), policy, ws[1..])
  }

  /** Wherever the capability's root leads to a directory, it is `root`. */
  ghost predicate RootIs(fs: LinkedFs, policy: Policy, root: Path) {
    match Canonicalize(fs, policy.root)
    case None => true
    case Some(r) => NodeAt(fs, r) == Some(Dir) ==> r == root
  }

  /** A file put where there was nothing, or only a link, leads no lookup anywhere new but to itself. */
  lemma {:induction false} WalkAroundFile(fs: LinkedFs, entry: Path, base: Path, todo: seq<Component>, links: nat)
    requires entry != []
    requires var fs' := fs.(nodes := fs.nodes[entry := File]); Walk(fs', base, todo, links).Some?
    ensures var fs' := fs.(nodes := fs.nodes[entry := File]);
            Walk(fs', base, todo, links).value == entry || Walk(fs, base, todo, links) == Walk(fs', base, todo, links)
    decreases links, |todo|
  {
    if todo != [] {
      match todo[0]
      case RootDir => WalkAroundFile(fs, entry, [], todo[1..], links);
      case CurDir => WalkAroundFile(fs, entry, base, todo[1..], links);
      case ParentDir => WalkAroundFile(fs, entry, Parent(base), todo[1..], links);
      case Normal(n) =>
        if base + [n] != entry {
          match NodeAt(fs, base + [n])
          case Some(File) =>
          case Some(Dir) => WalkAroundFile(fs, entry, base + [n], todo[1..], links);
          case Some(Link(target)) => WalkAroundFile(fs, entry, base, target + todo[1..], links - 1);
        }
    }
  }

  lemma FileKeepsRoot(fs: LinkedFs, policy: Policy, root: Path, entry: Path)
    requires RootIs(fs, policy, root) && entry != []
    ensures RootIs(fs.(nodes := fs.nodes[entry := File]), policy, root)
  {
    var fs' := fs.(nodes := fs.nodes[entry := File]);
    if Canonicalize(fs', policy.root).Some? {
      WalkAroundFile(fs, entry, [], policy.root, fs.maxLinks);
      var r := Canonicalize(fs', policy.root).value;
      assert NodeAt(fs', r) == Some(Dir) ==> NodeAt(fs, r) == Some(Dir);
    }
  }

  lemma DirsKeepRoot(fs: LinkedFs, policy: Policy, root: Path, c: Path, steps: Path)
    requires Canonicalize(fs, policy.root) == Some(root) && NoneTaken(fs, c, steps)
    ensures RootIs(WithDirs(fs, c, steps), policy, root)
  {
    hide WithDirs, Walk;
    NewDirsKeepEntries(fs, c, steps);
    WithDirsAt(fs, c, steps, root);
    WalkMonotone(fs, WithDirs(fs, c, steps), [], policy.root, fs.maxLinks);
  }

  /** What each accepted write keeps, so that the next one starts from the same footing. */
  lemma WriteKeeps(fs: LinkedFs, policy: Policy, root: Path, w: Write)
    requires EntriesInDirs(fs) && RootIs(fs, policy, root)
    ensures var fs' := Apply(fs, policy, w);
            ChangesBeneath(fs, fs', root) && EntriesInDirs(fs') && RootIs(fs', policy, root)
  {
    hide Resolve, EndingOf, Found, PlaceFile, CreateDirAllAs, WithDirs, EntriesInDirs, NoneTaken, RootIs, Walk, Normals;
    if Resolve(fs, policy, w.path, WriteOp).Ok? {
      var root', anc, c', rest' := AcceptedWrite(fs, policy, w.path);
      assert root' == root by { RootIsRoot(fs, policy, root, root'); }
      match w
      case MakeDir(path) =>
        DirectoryLandsBeneathRoot(fs, policy, path);
        var c, steps := MadeBelow(fs, policy, path);
        DirsKeepRoot(fs, policy, root, c, steps);
      case PlaceAt(path, temp) =>
        if Apply(fs, policy, w) != fs {
          var _, c, rest := WriteLandsBeneathRoot(fs, policy, path, temp);
          PlacingKeepsRoot(fs, policy, root, path, temp);
        }
    }
  }

  lemma RootIsRoot(fs: LinkedFs, policy: Policy, root: Path, root': Path)
    requires RootIs(fs, policy, root) && Canonicalize(fs, policy.root) == Some(root') && NodeAt(fs, root') == Some(Dir)
    ensures root' == root
  {
  }

  lemma PlacingKeepsRoot(fs: LinkedFs, policy: Policy, root: Path, path: string, temp: string)
    requires EntriesInDirs(fs) && Resolve(fs, policy, path, WriteOp).Ok? && Canonicalize(fs, policy.root) == Some(root)
    requires var p := Resolve(fs, policy, path, WriteOp).value; p != [] && !Found(fs, p, EndingOf(path))
    ensures RootIs(PlaceFile(fs, Resolve(fs, policy, path, WriteOp).value, EndingOf(path), temp).0, policy, root)
  {
    hide Resolve, EndingOf, Found, PlaceFile, WithDirs, EntriesInDirs, NoneTaken, RootIs, Walk, Normals, LeadsToDir;
    var _, anc, c, rest := AcceptedWrite(fs, policy, path);
    var steps := PlaceBelow(fs, anc, c, rest, EndingOf(path), temp);
    var shorter := rest[..|rest| - 1];
    var fs1 := WithDirs(fs, c, shorter);
    if NodeAt(fs, c) == Some(Dir) && NoneTaken(fs, c, shorter) && c + shorter + [temp] !in fs1.nodes {
      DirsKeepRoot(fs, policy, root, c, shorter);
      FileKeepsRoot(fs1, policy, root, if EndingOf(path).InName? then c + rest else c + shorter + [temp]);
    } else {
      DirsKeepRoot(fs, policy, root, c, steps);
    }
  }

  /** Over any sequence of writes, accepted or not, and whatever links stand in their way: everything
      that changed is beneath the canonical root there was to begin with, and every file and directory
      there was is as it was. */
  lemma {:induction false} WritesStayBeneathRoot(fs: LinkedFs, policy: Policy, root: Path, ws: seq<Write>)
    requires EntriesInDirs(fs) && RootIs(fs, policy, root)
    ensures ChangesBeneath(fs, ApplyAll(fs, policy, ws), root) && EntriesInDirs(ApplyAll(fs, policy, ws))
    decreases |ws|
  {
    hide Apply, EntriesInDirs, RootIs;
    if ws != [] {
      WriteKeeps(fs, policy, root, ws[0]);
      WritesStayBeneathRoot(Apply(fs, policy, ws[0]), policy, root, ws[1..]);
    }
  }

  // ---------- rollback ----------

  /** remove_file: the parent is followed, the last name is not. */
  function Unlink(fs: LinkedFs, p: Path): LinkedFs
    requires p != []
  {
    if !LeadsToDir(fs, Parent(p)) then fs
    else
      var entry := Canonicalize(fs, Normals(Parent(p))).value + [p[|p| - 1]];
      if NodeAt(fs, entry) == Some(Dir) then fs else fs.(nodes := fs.nodes - {entry})
  }

  /** Rolling a placed file back takes its entry away, so a link whose name the file had taken is gone
      for good; where nothing stood, only the directories made stay. */
  lemma RollbackLosesLink(fs: LinkedFs, policy: Policy, path: string, temp: string)
    returns (c: Path, rest: Path)
    requires EntriesInDirs(fs) && Resolve(fs, policy, path, WriteOp).Ok?
    requires !Found(fs, Resolve(fs, policy, path, WriteOp).value, EndingOf(path))
    requires Resolve(fs, policy, path, WriteOp).value != []
    requires PlaceFile(fs, Resolve(fs, policy, path, WriteOp).value, EndingOf(path), temp).1
    ensures rest != []
    ensures var p := Resolve(fs, policy, path, WriteOp).value;
            var fs1 := WithDirs(fs, c, rest[..|rest| - 1]);
            var fs' := PlaceFile(fs, p, EndingOf(path), temp).0;
            && (LeadsToDir(fs', Parent(p)) ==> Unlink(fs', p) == fs1.(nodes := fs1.nodes - {c + rest}))
            && (c + rest !in fs.nodes ==> LeadsToDir(fs', Parent(p)) && Unlink(fs', p) == fs1)
  {
    hide Resolve, EndingOf, Found, WithDirs, EntriesInDirs, NoneTaken, Walk, Normals, PlaceFile, CreateDirAll;
    var root;
    root, c, rest := WriteLandsBeneathRoot(fs, policy, path, temp);
    var p := Resolve(fs, policy, path, WriteOp).value;
    var shorter, n := rest[..|rest| - 1], rest[|rest| - 1];
    var fs1 := WithDirs(fs, c, shorter);
    var fs' := fs1.(nodes := fs1.nodes[c + rest := File]);
    assert c + rest == c + shorter + [n] && p[|p| - 1] == n && c + rest != [];
    if Canonicalize(fs', Normals(Parent(p))).Some? {
      WalkAroundFile(fs1, c + rest, [], Normals(Parent(p)), fs1.maxLinks);
    }
    WithDirsLast(fs, c, rest);
    WithDirsAt(fs, c, shorter, c);
    if c + rest !in fs.nodes {
      WalkMonotone(fs1, fs', [], Normals(Parent(p)), fs1.maxLinks);
      MadeDirIsDir(fs, c, shorter);
      assert fs'.nodes - {c + rest} == fs1.nodes;
    }
  }

  lemma MadeDirIsDir(fs: LinkedFs, c: Path, shorter: Path)
    requires NodeAt(fs, c) == Some(Dir)
    ensures NodeAt(WithDirs(fs, c, shorter), c + shorter) == Some(Dir)
  {
    WithDirsAt(fs, c, shorter, c + shorter);
    assert shorter == [] ==> c + shorter == c;
  }

  /** It does happen: a dangling link "d" beneath the root is accepted as a new file's path, the file
      takes its place, and rolling the file back leaves neither. */
  lemma DanglingLinkIsLost()
    ensures var fs := LinkedFs(map[["r"] := Dir, ["r", "d"] := Link([RootDir, Normal("gone")])], 40);
            var policy := Policy([RootDir, Normal("r")], Direction.Write);
            var (fs', placed) := PlaceFile(fs, ["r", "d"], InName, "t");
            && Resolve(fs, policy, "d", WriteOp) == Ok(["r", "d"]) && !Found(fs, ["r", "d"], InName)
            && placed && Unlink(fs', ["r", "d"]).nodes == map[["r"] := Dir]
  {
    hide PlaceFile, Unlink, Resolve, Walk, Normals;
    var fs := LinkedFs(map[["r"] := Dir, ["r", "d"] := Link([RootDir, Normal("gone")])], 40);
    WalksOf(fs);
    ResolvesD(fs);
    PlacesD(fs);
  }

  lemma ResolvesD(fs: LinkedFs)
    requires Canonicalize(fs, [RootDir, Normal("r")]) == Some(["r"]) && Canonicalize(fs, Normals(["r"])) == Some(["r"])
    requires NodeAt(fs, ["r"]) == Some(Dir) && !Exists(fs, ["r", "d"])
    ensures Resolve(fs, Policy([RootDir, Normal("r")], Direction.Write), "d", WriteOp) == Ok(["r", "d"])
    ensures !Found(fs, ["r", "d"], InName)
  {
    hide Walk, Normals;
    assert Names("d") == ["d"] && RelativeError("d") == None && EndingOf("d").InName? by {
      SplitSingle("d");
      assert ["d"][1..] == [] && PieceComponents(["d"], true) == [Normal("d")] + PieceComponents([], false);
      assert Components("d") == [Normal("d")];
    }
    hide Names, RelativeError, EndingOf;
    assert ["r"] + ["d"] == ["r", "d"] && Parent(["r", "d"]) == ["r"];
  }

  lemma PlacesD(fs: LinkedFs)
    requires fs == LinkedFs(map[["r"] := Dir, ["r", "d"] := Link([RootDir, Normal("gone")])], 40)
    ensures var (fs', placed) := PlaceFile(fs, ["r", "d"], InName, "t");
            placed && Unlink(fs', ["r", "d"]).nodes == map[["r"] := Dir]
  {
    hide Walk, Normals;
    var fs' := fs.(nodes := fs.nodes[["r", "d"] := File]);
    WalksOf(fs);
    WalksOf(fs');
    hide Canonicalize;
    assert LeadsToDir(fs, ["r"]) && LeadsToDir(fs', ["r"]);
    assert ["r"] + ["d"] == ["r", "d"] && Parent(["r", "d"]) == ["r"] && ["r"] + ["t"] !in fs.nodes;
    assert PlaceFile(fs, ["r", "d"], InName, "t") == (fs', true);
    assert fs'.nodes - {["r", "d"]} == map[["r"] := Dir];
  }

  /** Lookups through the directory "r". */
  lemma WalksOf(fs: LinkedFs)
    requires fs.maxLinks > 0 && NodeAt(fs, ["r"]) == Some(Dir) && ["gone"] !in fs.nodes
    ensures Canonicalize(fs, [RootDir, Normal("r")]) == Some(["r"]) && Canonicalize(fs, Normals(["r"])) == Some(["r"])
    ensures NodeAt(fs, ["r", "d"]) == Some(Link([RootDir, Normal("gone")])) ==> !Exists(fs, ["r", "d"])
  {
    assert [] + ["r"] == ["r"] && ["r"] + ["d"] == ["r", "d"] && [] + ["gone"] == ["gone"];
    var r, d := Normal("r"), Normal("d");
    assert [RootDir, r][1..] == [r] && [r][1..] == [] && [r, d][1..] == [d] && [d][1..] == [];
    assert Walk(fs, ["r"], [], fs.maxLinks) == Some(["r"]);
    assert Walk(fs, [], [r], fs.maxLinks) == Some(["r"]);
    assert Normals(["r"]) == [r] && Normals(["r", "d"]) == [r, d];
    var target := [RootDir, Normal("gone")];
    if NodeAt(fs, ["r", "d"]) == Some(Link(target)) {
      assert target + [] == target && target[1..] == [Normal("gone")];
      assert Walk(fs, [], [Normal("gone")], fs.maxLinks - 1) == None;
      assert Walk(fs, ["r"], target, fs.maxLinks - 1) == None;
      assert Walk(fs, ["r"], [d], fs.maxLinks) == None;
      assert Walk(fs, [], [r, d], fs.maxLinks) == None;
    }
  }
}
