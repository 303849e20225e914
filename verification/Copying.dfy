/** The in-process loopback: copying collected entries straight into the destination. */
module Copying {
  import opened Base
  import opened Text
  import opened FileSystem
  import opened Protocol
  import opened Sources
  import C = Connections
  import Incoming
  import PathPolicy

  datatype Copied = Copied(fs: Fs, result: Result<(), TransferError>)

  /** Copies one file to a temporary sibling and renames it. When the sibling's name is already
      taken the copy fails and whatever file held that name is removed with it; when the target's text
      does not end in a name the rename fails and the sibling stays. */
  function CopyFile(fs: Fs, target: Path, ending: PathPolicy.Ending, content: seq<byte>, stamp: string): Copied
    requires target != []
  {
    match MkdirAll(fs, Parent(target))
    case Err(_) => Copied(fs, Err(Io))
    case Ok(fs1) =>
      var temp := TempPath(target, stamp);
      if Exists(fs1, temp) then Copied(Remove(fs1, {temp}), Err(Io))
      else if !ending.InName? then Copied(fs1.(files := fs1.files[temp := content]), Err(Io))
      else Copied(fs1.(files := fs1.files[target := content]), Ok(()))
  }

  function CopyOne(fs: Fs, folder: Folder, e: Entry, stamp: string): Copied {
    match WriteTarget(fs, folder, e.relative)
    case Err(reason) => Copied(fs, Err(Policy(reason)))
    case Ok(target) =>
      var ending := PathPolicy.EndingOf(e.relative);
      if Occupied(fs, target, ending) then
        if e.isDir && target in fs.dirs then Copied(fs, Ok(())) else Copied(fs, Err(DestinationExists(target)))
      else
        assert target == [] ==> folder.root == target;
        if e.isDir then
          var (fs1, made) := MkdirAllAs(fs, target, ending, NoFault);
          Copied(fs1, if made then Ok(()) else Err(Io))
        else CopyFile(fs, target, ending, e.content, stamp)
  }

  /** Stops at the first failure and keeps what was copied before it. */
  function CopyAll(fs: Fs, folder: Folder, entries: seq<Entry>, stamps: seq<string>): Copied
    requires |stamps| == |entries|
    decreases |entries|
  {
    if entries == [] then Copied(fs, Ok(()))
    else
      var one := CopyOne(fs, folder, entries[0], stamps[0]);
      if one.result.Err? then one else CopyAll(one.fs, folder, entries[1..], stamps[1..])
  }

  /** Exactly what copying one item does. It is refused, changing nothing, when the path, the direction or
      the root is, and then when the target exists, except as the directory it should be. Past that it
      fails where a directory cannot be made, where the temporary sibling exists, or under a path that
      does not end in a name; otherwise the directory, or the file with its contents, is there. */
  lemma CopyOneExactly(fs: Fs, folder: Folder, e: Entry, stamp: string)
    ensures var one, target := CopyOne(fs, folder, e, stamp), folder.root + PathPolicy.Names(e.relative);
            var named := PathPolicy.EndingOf(e.relative).InName?;
            var refusal := PathPolicy.RelativeError(e.relative);
            if refusal.Some? then one == Copied(fs, Err(Policy(refusal.value)))
            else if folder.direction.Read? then one == Copied(fs, Err(Policy(PathPolicy.WriteNotAllowed)))
            else if folder.root !in fs.dirs then one == Copied(fs, Err(Policy(PathPolicy.RootUnavailable)))
            else if e.isDir then
              if target in fs.dirs then one == Copied(fs, Ok(()))
              else if named && target in fs.files then one == Copied(fs, Err(DestinationExists(target)))
              else if PathPolicy.EndingOf(e.relative).InDot? || Blocked(fs, target) then
                one.result == Err(Io) && one.fs.files == fs.files && fs.dirs <= one.fs.dirs
              else one == Copied(Fs(fs.files, fs.dirs + Prefixes(target)), Ok(()))
            else if target in fs.dirs || (named && target in fs.files) then
              one == Copied(fs, Err(DestinationExists(target)))
            else if !named || Blocked(fs, Parent(target)) || Exists(fs, TempPath(target, stamp)) then
              one.result == Err(Io)
            else one == Copied(Fs(fs.files[target := e.content], fs.dirs + Prefixes(Parent(target))), Ok(()))
  {
    hide PathPolicy.Names, PathPolicy.RelativeError, PathPolicy.EndingOf;
    var target := folder.root + PathPolicy.Names(e.relative);
    assert target == [] ==> folder.root == target;
    if target != [] {
      assert TempPath(target, stamp) !in Prefixes(Parent(target));
    }
  }

  lemma {:induction false} CopyAllSnoc(fs: Fs, folder: Folder, entries: seq<Entry>, stamps: seq<string>, e: Entry,
                                       stamp: string)
    requires |stamps| == |entries| && CopyAll(fs, folder, entries, stamps).result.Ok?
    ensures CopyAll(fs, folder, entries + [e], stamps + [stamp])
         == CopyOne(CopyAll(fs, folder, entries, stamps).fs, folder, e, stamp)
    decreases |entries|
  {
    hide CopyOne;
    var all, marks := entries + [e], stamps + [stamp];
    if entries == [] {
      assert all[1..] == [] && marks[1..] == [];
      assert CopyOne(fs, folder, e, stamp).result.Ok? ==> CopyOne(fs, folder, e, stamp).result.value == ();
    } else {
      assert all[0] == entries[0] && all[1..] == entries[1..] + [e];
      assert marks[0] == stamps[0] && marks[1..] == stamps[1..] + [stamp];
      CopyAllSnoc(CopyOne(fs, folder, entries[0], stamps[0]).fs, folder, entries[1..], stamps[1..], e, stamp);
    }
  }

  lemma {:induction false} CopyAllStops(fs: Fs, folder: Folder, entries: seq<Entry>, stamps: seq<string>, k: nat)
    requires |stamps| == |entries| && k <= |entries|
    requires CopyAll(fs, folder, entries[..k], stamps[..k]).result.Err?
    ensures CopyAll(fs, folder, entries, stamps) == CopyAll(fs, folder, entries[..k], stamps[..k])
    decreases |entries|
  {
    hide CopyOne;
    if k > 0 {
      assert entries[..k][0] == entries[0] && entries[..k][1..] == entries[1..][..k - 1];
      assert stamps[..k][0] == stamps[0] && stamps[..k][1..] == stamps[1..][..k - 1];
      var one := CopyOne(fs, folder, entries[0], stamps[0]);
      if one.result.Ok? {
        CopyAllStops(one.fs, folder, entries[1..], stamps[1..], k - 1);
      }
    }
  }

  // ---------- the loopback as the engine runs it ----------

  /** What the system refuses while one item is copied, if anything. `StopsAt(k)` is a read or a write
      failing at buffer `k`. */
  datatype CopyFault =
    | NoCopyFault
    | DirFails(made: nat)
    | SourceFails
    | CreateFails
    | StopsAt(k: nat)
    | FlushFails
    | RenameFails

  /** An interrupted copy leaves the files alone, except for a temporary file that could not be renamed. */
  ghost predicate Untouched(before: map<Path, seq<byte>>, after: map<Path, seq<byte>>, leftover: Option<Path>) {
    match leftover
    case None => after == before
    case Some(temp) => temp !in before && temp in after && after - {temp} == before
  }

  /** Nothing cancelled between these looks at the cancellation flag. */
  ghost predicate Unseen(cancelled: nat -> bool, p0: nat, p1: nat) {
    forall n :: p0 <= n < p1 ==> !cancelled(n)
  }

  /** The fault stands in the way of copying these buffers. */
  predicate Hinders(fault: CopyFault, buffers: seq<seq<byte>>) {
    || fault.SourceFails? || fault.CreateFails? || fault.FlushFails?
    || (fault.StopsAt? && fault.k <= |buffers|)
  }

  /** ... or of putting the copy in its place. */
  predicate Refuses(fault: CopyFault, buffers: seq<seq<byte>>) {
    fault.DirFails? || fault.RenameFails? || Hinders(fault, buffers)
  }

  /** An interruption is the first cancellation that was seen, or a fault met before any. */
  ghost predicate Interrupted(r: Result<(), TransferError>, cancelled: nat -> bool, p0: nat, p1: nat, faulty: bool) {
    || (r == Err(Cancelled) && p0 < p1 && cancelled(p1 - 1) && Unseen(cancelled, p0, p1 - 1))
    || (r == Err(Io) && faulty && Unseen(cancelled, p0, p1))
  }

  lemma UnseenJoins(cancelled: nat -> bool, p0: nat, p1: nat, p2: nat)
    requires p0 <= p1 <= p2 && Unseen(cancelled, p0, p1)
    ensures Unseen(cancelled, p1, p2) ==> Unseen(cancelled, p0, p2)
    ensures p1 < p2 && Unseen(cancelled, p1, p2 - 1) ==> Unseen(cancelled, p0, p2 - 1)
    ensures !cancelled(p1) ==> Unseen(cancelled, p0, p1 + 1)
  {
  }

  lemma FlattenNothing(buffers: seq<seq<byte>>)
    ensures Flatten(buffers[..0]) == []
  {
  }

  /** One file: read, write to the temporary sibling, hash and count, buffer by buffer. A
      cancelled or failed copy removes the temporary file. */
  method CopyBuffers(disk: Incoming.Disk, temp: Path, buffers: seq<seq<byte>>, hashed: seq<byte>, bytes: nat,
                     cancelled: nat -> bool, poll: nat, fault: CopyFault)
    returns (r: Result<(), TransferError>, hashed': seq<byte>, bytes': nat, poll': nat)
    requires !Exists(disk.fs, temp)
    modifies disk
    ensures disk.fs.dirs == old(disk.fs.dirs)
    ensures r.Ok? ==> disk.fs.files == old(disk.fs.files)[temp := Flatten(buffers)]
    ensures r.Ok? ==> hashed' == hashed + Flatten(buffers) && bytes' == bytes + |Flatten(buffers)|
    ensures r.Err? ==> disk.fs.files == old(disk.fs.files)
    ensures r.Ok? ==> poll' == poll + |buffers| + 1 && Unseen(cancelled, poll, poll') && !Hinders(fault, buffers)
    ensures poll <= poll' && (r.Err? ==> Interrupted(r, cancelled, poll, poll', Hinders(fault, buffers)))
  {
    hide Flatten;
    hashed', bytes', poll' := hashed, bytes, poll;
    if fault.SourceFails? || fault.CreateFails? {
      return Err(Io), hashed', bytes', poll';
    }
    ghost var before := disk.fs.files;
    var written: seq<byte> := [];
    disk.fs := disk.fs.(files := disk.fs.files[temp := written]);
    var k := 0;
    FlattenNothing(buffers);
    while true
      invariant k <= |buffers| && poll' == poll + k && Unseen(cancelled, poll, poll')
      invariant forall j :: 0 <= j < k ==> fault != StopsAt(j)
      invariant written == Flatten(buffers[..k])
      invariant disk.fs.dirs == old(disk.fs.dirs) && disk.fs.files == before[temp := written]
      invariant hashed' == hashed + written && bytes' == bytes + |written|
      decreases |buffers| - k
    {
      poll' := poll' + 1;
      if cancelled(poll' - 1) {
        disk.fs := Remove(disk.fs, {temp});
        assert disk.fs.files == before;
        return Err(Cancelled), hashed', bytes', poll';
      }
      if fault == StopsAt(k) {
        disk.fs := Remove(disk.fs, {temp});
        assert disk.fs.files == before;
        return Err(Io), hashed', bytes', poll';
      }
      if k == |buffers| {
        break;
      }
      assert buffers[..k + 1] == buffers[..k] + [buffers[k]];
      FlattenSnoc(buffers[..k], buffers[k]);
      written := written + buffers[k];
      disk.fs := disk.fs.(files := disk.fs.files[temp := written]);
      hashed' := hashed' + buffers[k];
      bytes' := bytes' + |buffers[k]|;
      k := k + 1;
    }
    assert buffers[..|buffers|] == buffers;
    if fault.FlushFails? {
      disk.fs := Remove(disk.fs, {temp});
      assert disk.fs.files == before;
      return Err(Io), hashed', bytes', poll';
    }
    return Ok(()), hashed', bytes', poll';
  }

  /** How often copying an item looks at the cancellation flag: first of all, and before each read. */
  function ItemLooks(e: Entry, buffers: seq<seq<byte>>): nat { if e.isDir then 1 else |buffers| + 2 }

  function Looks(entries: seq<Entry>, scripts: seq<seq<seq<byte>>>): nat
    requires |scripts| == |entries|
  {
    if entries == [] then 0
    else
      var last := |entries| - 1;
      Looks(entries[..last], scripts[..last]) + ItemLooks(entries[last], scripts[last])
  }

  /** A fault at item `i` that the system would have to have had. */
  predicate FaultyAt(entries: seq<Entry>, scripts: seq<seq<seq<byte>>>, faults: seq<CopyFault>, i: nat)
    requires |scripts| == |faults| == |entries| && i < |entries|
  {
    if entries[i].isDir then faults[i].DirFails? else Refuses(faults[i], scripts[i])
  }

  /** Copies one item, counting its bytes. `stopped` is a copy that was cancelled or refused by the
      system rather than by what it found. */
  method PlaceItem(disk: Incoming.Disk, folder: Folder, e: Entry, stamp: string, buffers: seq<seq<byte>>,
                   hashed: seq<byte>, bytes: nat, cancelled: nat -> bool, poll: nat, fault: CopyFault)
    returns (r: Result<(), TransferError>, hashed': seq<byte>, bytes': nat, poll': nat,
             ghost stopped: bool, ghost leftover: Option<Path>)
    requires !e.isDir ==> Flatten(buffers) == e.content
    modifies disk
    ensures stopped ==> r.Err? && Untouched(old(disk.fs.files), disk.fs.files, leftover)
    ensures poll < poll' && (!stopped ==> Unseen(cancelled, poll, poll'))
    ensures stopped ==>
              Interrupted(r, cancelled, poll, poll', if e.isDir then fault.DirFails? else Refuses(fault, buffers))
    ensures r.Ok? ==> poll' == poll + ItemLooks(e, buffers)
    ensures r.Ok? ==> if e.isDir then fault.DirFails? ==> disk.fs == old(disk.fs) else !Refuses(fault, buffers)
    ensures leftover.Some? ==> fault.RenameFails?
    ensures !stopped ==> Copied(disk.fs, r) == CopyOne(old(disk.fs), folder, e, stamp)
    ensures r.Ok? ==> hashed' == hashed + (if e.isDir then [] else e.content)
    ensures r.Ok? ==> bytes' == bytes + (if e.isDir then 0 else |e.content|)
  {
    hide PathPolicy.Names, PathPolicy.RelativeError, PathPolicy.EndingOf, TempPath, Flatten;
    hashed', bytes', poll', stopped, leftover := hashed, bytes, poll + 1, false, None;
    assert Unseen(cancelled, poll, poll);
    if cancelled(poll) {
      return Err(Cancelled), hashed', bytes', poll', true, None;
    }
    match WriteTarget(disk.fs, folder, e.relative)
    case Err(reason) => r := Err(Policy(reason));
    case Ok(target) =>
      var ending := PathPolicy.EndingOf(e.relative);
      if e.isDir {
        if Occupied(disk.fs, target, ending) {
          r := if target in disk.fs.dirs then Ok(()) else Err(DestinationExists(target));
        } else if fault.DirFails? {
          disk.fs := MkdirAllAs(disk.fs, target, ending, MkdirFails(fault.made)).0;
          return Err(Io), hashed', bytes', poll', true, None;
        } else {
          var (fs, made) := MkdirAllAs(disk.fs, target, ending, NoFault);
          disk.fs := fs;
          r := if made then Ok(()) else Err(Io);
        }
      } else if Occupied(disk.fs, target, ending) {
        r := Err(DestinationExists(target));
      } else {
        assert target == [] ==> folder.root == target;
        r, hashed', bytes', poll', stopped, leftover :=
          PlaceFile(disk, target, ending, stamp, buffers, hashed, bytes, cancelled, poll', fault);
        UnseenJoins(cancelled, poll, poll + 1, poll');
      }
  }

  method PlaceFile(disk: Incoming.Disk, target: Path, ending: PathPolicy.Ending, stamp: string, buffers: seq<seq<byte>>,
                   hashed: seq<byte>, bytes: nat, cancelled: nat -> bool, poll: nat, fault: CopyFault)
    returns (r: Result<(), TransferError>, hashed': seq<byte>, bytes': nat, poll': nat,
             ghost stopped: bool, ghost leftover: Option<Path>)
    requires target != [] && !Occupied(disk.fs, target, ending)
    modifies disk
    ensures stopped ==> r.Err? && Untouched(old(disk.fs.files), disk.fs.files, leftover)
    ensures poll <= poll' && (!stopped ==> Unseen(cancelled, poll, poll'))
    ensures stopped ==> Interrupted(r, cancelled, poll, poll', Refuses(fault, buffers))
    ensures r.Ok? ==> poll' == poll + |buffers| + 1 && !Refuses(fault, buffers)
    ensures leftover.Some? ==> fault.RenameFails?
    ensures !stopped ==> Copied(disk.fs, r) == CopyFile(old(disk.fs), target, ending, Flatten(buffers), stamp)
    ensures r.Ok? ==> hashed' == hashed + Flatten(buffers) && bytes' == bytes + |Flatten(buffers)|
  {
    hide TempPath, Flatten;
    hashed', bytes', poll', stopped, leftover := hashed, bytes, poll, false, None;
    if fault.DirFails? {
      disk.fs := MkdirPartly(disk.fs, Parent(target), fault.made);
      return Err(Io), hashed', bytes', poll', true, None;
    }
    match MkdirAll(disk.fs, Parent(target))
    case Err(_) => r := Err(Io);
    case Ok(fs) =>
      ghost var before := fs.files;
      disk.fs := fs;
      var temp := TempPath(target, stamp);
      TempDiffers(target, stamp);
      if Exists(disk.fs, temp) {
        disk.fs := Remove(disk.fs, {temp});
        return Err(Io), hashed', bytes', poll', false, None;
      }
      r, hashed', bytes', poll' := CopyBuffers(disk, temp, buffers, hashed, bytes, cancelled, poll, fault);
      if r.Err? {
        return r, hashed', bytes', poll', true, None;
      }
      assert target !in Prefixes(Parent(target));
      if fault.RenameFails? {
        assert disk.fs.files - {temp} == before;
        return Err(Io), hashed', bytes', poll', true, Some(temp);
      }
      match Rename(disk.fs, temp, target, ending)
      case None => r := Err(Io);
      case Some(renamed) =>
        disk.fs := renamed;
        assert disk.fs.files == before[target := Flatten(buffers)];
        r := Ok(());
  }

  /** The engine after a loopback transfer that is neither cancelled nor refused by the system, and its
      answer. */
  function Loopback(sha: Digest, folders: map<string, Folder>, e: C.Engine, key: string, folderId: string,
                    sources: seq<Child>, stamps: seq<string>): (C.Engine, Result<Outcome, TransferError>)
    requires CollectSources(sources).Ok? ==> |stamps| == |CollectSources(sources).value|
  {
    if key in e.completed then (e, Ok(e.completed[key]))
    else if folderId !in folders then (e, Err(FolderNotFound(folderId)))
    else match Prepare(sha, key, folderId, sources)
      case Err(why) => (e, Err(why))
      case Ok(p) =>
        var copied := CopyAll(e.fs, folders[folderId], p.entries, stamps);
        if copied.result.Err? then (e.(fs := copied.fs), Err(copied.result.error))
        else
          var outcome := Outcome(p.total, FileCount(p.entries), p.sha256);
          (C.Engine(copied.fs, e.completed[key := outcome]), Ok(outcome))
  }

  /** The collected items with the contents that reading their files returned. */
  function Reread(entries: seq<Entry>, scripts: seq<seq<seq<byte>>>): (reread: seq<Entry>)
    requires |scripts| == |entries|
    ensures |reread| == |entries|
  {
    seq(|entries|, i requires 0 <= i < |entries| =>
      if entries[i].isDir then Entry(entries[i].relative, true, [])
      else Entry(entries[i].relative, false, Flatten(scripts[i])))
  }

  /** The same when files may have changed since they were listed: the limits apply to what was listed,
      the copy and the outcome to what was read. */
  function LoopbackOf(sha: Digest, folders: map<string, Folder>, e: C.Engine, key: string, folderId: string,
                      sources: seq<Child>, scripts: seq<seq<seq<byte>>>, stamps: seq<string>)
    : (C.Engine, Result<Outcome, TransferError>)
    requires CollectSources(sources).Ok? ==> |stamps| == |scripts| == |CollectSources(sources).value|
  {
    if key in e.completed then (e, Ok(e.completed[key]))
    else if folderId !in folders then (e, Err(FolderNotFound(folderId)))
    else match CollectSources(sources)
      case Err(why) => (e, Err(why))
      case Ok(entries) =>
        match LimitError(entries)
        case Some(why) => (e, Err(why))
        case None =>
          var reread := Reread(entries, scripts);
          var copied := CopyAll(e.fs, folders[folderId], reread, stamps);
          if copied.result.Err? then (e.(fs := copied.fs), Err(copied.result.error))
          else
            var outcome := Outcome(ByteSum(reread), FileCount(reread), ToHex(sha(HashInput(reread))));
            (C.Engine(copied.fs, e.completed[key := outcome]), Ok(outcome))
  }

  /** For sources that did not change, it is the transfer the refinement is about. */
  lemma StableLoopback(sha: Digest, folders: map<string, Folder>, e: C.Engine, key: string, folderId: string,
                       sources: seq<Child>, scripts: seq<seq<seq<byte>>>, stamps: seq<string>)
    requires CollectSources(sources).Ok? ==>
               var entries := CollectSources(sources).value;
               && |stamps| == |scripts| == |entries|
               && forall i :: 0 <= i < |entries| && !entries[i].isDir ==> Flatten(scripts[i]) == entries[i].content
    ensures LoopbackOf(sha, folders, e, key, folderId, sources, scripts, stamps)
         == Loopback(sha, folders, e, key, folderId, sources, stamps)
  {
    hide CopyAll, HashInput, ByteSum, Flatten, LimitError;
    if CollectSources(sources).Ok? {
      SourcesDirsAreEmpty(sources);
      assert Reread(CollectSources(sources).value, scripts) == CollectSources(sources).value;
    }
  }

  /** Exactly what a loopback answers: a remembered key with its outcome, an unknown folder, a source that
      cannot be collected or a broken limit with its error, each changing nothing; then the first item
      that cannot be copied with its error, or the size, count and hash of what was read, which alone is
      remembered. */
  lemma LoopbackExactly(sha: Digest, folders: map<string, Folder>, e: C.Engine, key: string, folderId: string,
                        sources: seq<Child>, scripts: seq<seq<seq<byte>>>, stamps: seq<string>)
    requires CollectSources(sources).Ok? ==> |stamps| == |scripts| == |CollectSources(sources).value|
    ensures var (e', r) := LoopbackOf(sha, folders, e, key, folderId, sources, scripts, stamps);
            var collected := CollectSources(sources);
            if key in e.completed then e' == e && r == Ok(e.completed[key])
            else if folderId !in folders then e' == e && r == Err(FolderNotFound(folderId))
            else if collected.Err? then e' == e && r == Err(collected.error)
            else if ByteSum(collected.value) > 4_294_967_296 then e' == e && r == Err(SizeLimitExceeded)
            else if |collected.value| > 10_000 then e' == e && r == Err(FileCountLimitExceeded)
            else
              var read := Reread(collected.value, scripts);
              var copied := CopyAll(e.fs, folders[folderId], read, stamps);
              && e'.fs == copied.fs
              && (copied.result.Err? ==> r == Err(copied.result.error) && e'.completed == e.completed)
              && (copied.result.Ok? ==>
                    && r == Ok(Outcome(|HashInput(read)|, FileCount(collected.value), ToHex(sha(HashInput(read)))))
                    && e'.completed == e.completed[key := r.value])
  {
    hide CopyAll, HashInput, ByteSum, Flatten;
    if CollectSources(sources).Ok? {
      var read := Reread(CollectSources(sources).value, scripts);
      HashInputLength(read);
      RereadCounts(CollectSources(sources).value, scripts);
    }
  }

  /** A transfer that succeeded is not done again: any later loopback or connection with its key, whatever
      it brings, is given the outcome and changes nothing. */
  lemma LoopbackIsRemembered(sha: Digest, folders: map<string, Folder>, e: C.Engine, key: string, folderId: string,
                             sources: seq<Child>, scripts: seq<seq<seq<byte>>>, stamps: seq<string>,
                             again: string, others: seq<Child>, contents: seq<seq<seq<byte>>>, times: seq<string>,
                             c: C.Connection)
    requires CollectSources(sources).Ok? ==> |stamps| == |scripts| == |CollectSources(sources).value|
    requires CollectSources(others).Ok? ==> |times| == |contents| == |CollectSources(others).value|
    requires c.manifest.key == key
    requires LoopbackOf(sha, folders, e, key, folderId, sources, scripts, stamps).1.Ok?
    ensures var (done, r) := LoopbackOf(sha, folders, e, key, folderId, sources, scripts, stamps);
            && LoopbackOf(sha, folders, done, key, again, others, contents, times) == (done, r)
            && C.Serve(sha, folders, done, c) == C.Served(done, [ResultMessage(c.manifest.id, r.value)], None)
  {
    hide LoopbackOf, C.Serve;
    var (done, r) := LoopbackOf(sha, folders, e, key, folderId, sources, scripts, stamps);
    LoopbackExactly(sha, folders, e, key, folderId, sources, scripts, stamps);
    LoopbackExactly(sha, folders, done, key, again, others, contents, times);
    C.RepeatIsAnswered(sha, folders, done, c);
  }

  lemma {:induction false} RereadCounts(entries: seq<Entry>, scripts: seq<seq<seq<byte>>>)
    requires |scripts| == |entries|
    ensures FileCount(Reread(entries, scripts)) == FileCount(entries)
  {
    hide Flatten;
    if entries != [] {
      assert Reread(entries, scripts)[1..] == Reread(entries[1..], scripts[1..]);
      RereadCounts(entries[1..], scripts[1..]);
    }
  }

  lemma {:induction false} RereadAlike(entries: seq<Entry>, scripts: seq<seq<seq<byte>>>, faults: seq<CopyFault>)
    requires |scripts| == |faults| == |entries|
    ensures Looks(Reread(entries, scripts), scripts) == Looks(entries, scripts)
    ensures forall i :: 0 <= i < |entries| ==>
              FaultyAt(Reread(entries, scripts), scripts, faults, i) == FaultyAt(entries, scripts, faults, i)
  {
    hide Flatten, Refuses;
    if entries != [] {
      var last := |entries| - 1;
      assert Reread(entries, scripts)[..last] == Reread(entries[..last], scripts[..last]);
      RereadAlike(entries[..last], scripts[..last], faults[..last]);
    }
  }

  /** `TransferEngine::receive`, where `cancelled` answers each poll of the cancellation flag, `scripts`
      is what reading each file returns and `faults` what the system refuses at each item. A transfer
      that is stopped keeps whole items only, and remembers nothing. */
  method Receive(engine: Incoming.TransferEngine, key: string, folderId: string, sources: seq<Child>,
                 scripts: seq<seq<seq<byte>>>, stamps: seq<string>, cancelled: nat -> bool, faults: seq<CopyFault>)
    returns (r: Result<Outcome, TransferError>, polls: nat,
             ghost placed: nat, ghost stopped: bool, ghost leftover: Option<Path>)
    requires CollectSources(sources).Ok? ==> |stamps| == |scripts| == |faults| == |CollectSources(sources).value|
    modifies engine`completed, engine.disk
    ensures !stopped ==>
              (engine.State(), r)
              == LoopbackOf(engine.sha, engine.folders, old(engine.State()), key, folderId, sources, scripts, stamps)
    ensures !stopped ==> Unseen(cancelled, 0, polls)
    ensures r.Ok? && key !in old(engine.completed) ==>
              && CollectSources(sources).Ok?
              && var entries := CollectSources(sources).value;
                 && polls == Looks(entries, scripts)
                 && forall i :: 0 <= i < |entries| && !entries[i].isDir ==> !FaultyAt(entries, scripts, faults, i)
    ensures stopped ==>
              && r.Err? && engine.completed == old(engine.completed)
              && CollectSources(sources).Ok? && folderId in engine.folders
              && placed < |CollectSources(sources).value|
              && Interrupted(Err(r.error), cancelled, 0, polls,
                             FaultyAt(CollectSources(sources).value, scripts, faults, placed))
              && (leftover.Some? ==> faults[placed].RenameFails?)
              && var partly := CopyAll(old(engine.disk.fs), engine.folders[folderId],
                                       Reread(CollectSources(sources).value, scripts)[..placed], stamps[..placed]);
                 partly.result.Ok? && Untouched(partly.fs.files, engine.disk.fs.files, leftover)
  {
    hide Looks, FaultyAt, CopyAll, HashInput, ByteSum, Flatten, LimitError, Untouched;
    polls, placed, stopped, leftover := 0, 0, false, None;
    if key in engine.completed {
      r := Ok(engine.completed[key]);
      return;
    }
    if folderId !in engine.folders {
      r := Err(FolderNotFound(folderId));
      return;
    }
    var destination := engine.folders[folderId];
    var collected := CollectSources(sources);
    if collected.Err? {
      r := Err(collected.error);
      return;
    }
    var entries := collected.value;
    var limit := LimitError(entries);
    if limit.Some? {
      r := Err(limit.value);
      return;
    }
    var reread := Reread(entries, scripts);
    var copied, hashed, bytes;
    copied, hashed, bytes, polls, placed, stopped, leftover :=
      CopyEntries(engine.disk, destination, reread, scripts, stamps, cancelled, faults);
    RereadAlike(entries, scripts, faults);
    if copied.Err? {
      r := Err(copied.error);
      return;
    }
    HashInputLength(reread);
    RereadCounts(entries, scripts);
    var outcome := Outcome(bytes, FileCount(entries), ToHex(engine.sha(hashed)));
    engine.completed := engine.completed[key := outcome];
    r := Ok(outcome);
  }

  lemma CopyAdvances(fs: Fs, folder: Folder, entries: seq<Entry>, stamps: seq<string>, k: nat, fs': Fs)
    requires |stamps| == |entries| && k < |entries|
    requires CopyAll(fs, folder, entries[..k], stamps[..k]) == Copied(fs', Ok(()))
    ensures var one := CopyOne(fs', folder, entries[k], stamps[k]);
            && CopyAll(fs, folder, entries[..k + 1], stamps[..k + 1]) == one
            && (one.result.Err? ==> CopyAll(fs, folder, entries, stamps) == one)
    ensures HashInput(entries[..k + 1])
         == if entries[k].isDir then HashInput(entries[..k]) else HashInput(entries[..k]) + entries[k].content
  {
    hide CopyOne, CopyAll, HashInput;
    assert entries[..k + 1] == entries[..k] + [entries[k]];
    assert stamps[..k + 1] == stamps[..k] + [stamps[k]];
    CopyAllSnoc(fs, folder, entries[..k], stamps[..k], entries[k], stamps[k]);
    HashInputSnoc(entries, k);
    if CopyOne(fs', folder, entries[k], stamps[k]).result.Err? {
      CopyAllStops(fs, folder, entries, stamps, k + 1);
    }
  }

  lemma NothingCopied(fs: Fs, folder: Folder)
    ensures CopyAll(fs, folder, [], []) == Copied(fs, Ok(())) && HashInput([]) == []
  {
  }

  lemma NoLooks(cancelled: nat -> bool)
    ensures Looks([], []) == 0 && Unseen(cancelled, 0, 0)
  {
  }

  lemma LooksSnoc(entries: seq<Entry>, scripts: seq<seq<seq<byte>>>, i: nat)
    requires |scripts| == |entries| && i < |entries|
    ensures Looks(entries[..i + 1], scripts[..i + 1])
         == Looks(entries[..i], scripts[..i]) + ItemLooks(entries[i], scripts[i])
  {
    assert entries[..i + 1][..i] == entries[..i] && scripts[..i + 1][..i] == scripts[..i];
  }

  /** The loop over the items. */
  method CopyEntries(disk: Incoming.Disk, folder: Folder, entries: seq<Entry>, scripts: seq<seq<seq<byte>>>,
                     stamps: seq<string>, cancelled: nat -> bool, faults: seq<CopyFault>)
    returns (r: Result<(), TransferError>, hashed: seq<byte>, bytes: nat, polls: nat,
             ghost placed: nat, ghost stopped: bool, ghost leftover: Option<Path>)
    requires |stamps| == |scripts| == |faults| == |entries|
    requires forall i :: 0 <= i < |entries| && !entries[i].isDir ==> Flatten(scripts[i]) == entries[i].content
    modifies disk
    ensures !stopped ==> Copied(disk.fs, r) == CopyAll(old(disk.fs), folder, entries, stamps)
    ensures !stopped ==> Unseen(cancelled, 0, polls)
    ensures r.Ok? ==>
              && !stopped && polls == Looks(entries, scripts)
              && forall i :: 0 <= i < |entries| && !entries[i].isDir ==> !FaultyAt(entries, scripts, faults, i)
    ensures stopped ==>
              && r.Err? && placed < |entries| && (leftover.Some? ==> faults[placed].RenameFails?)
              && Interrupted(r, cancelled, 0, polls, FaultyAt(entries, scripts, faults, placed))
              && var partly := CopyAll(old(disk.fs), folder, entries[..placed], stamps[..placed]);
                 partly.result.Ok? && Untouched(partly.fs.files, disk.fs.files, leftover)
    ensures r.Ok? ==> hashed == HashInput(entries) && bytes == |hashed|
  {
    hide CopyOne, CopyAll, HashInput, Flatten, Untouched, Unseen, Refuses, Looks;
    hashed, bytes, polls, placed, stopped, leftover := [], 0, 0, 0, false, None;
    NoLooks(cancelled);
    NothingCopied(disk.fs, folder);
    assert entries[..0] == [] && stamps[..0] == [];
    assert scripts[..0] == [];
    var i := 0;
    while i < |entries|
      invariant i <= |entries| && placed == i && !stopped
      invariant CopyAll(old(disk.fs), folder, entries[..i], stamps[..i]) == Copied(disk.fs, Ok(()))
      invariant hashed == HashInput(entries[..i]) && bytes == |hashed|
      invariant polls == Looks(entries[..i], scripts[..i]) && Unseen(cancelled, 0, polls)
      invariant forall j :: 0 <= j < i && !entries[j].isDir ==> !FaultyAt(entries, scripts, faults, j)
    {
      ghost var p := polls;
      LooksSnoc(entries, scripts, i);
      CopyAdvances(old(disk.fs), folder, entries, stamps, i, disk.fs);
      r, hashed, bytes, polls, stopped, leftover :=
        PlaceItem(disk, folder, entries[i], stamps[i], scripts[i], hashed, bytes, cancelled, polls, faults[i]);
      UnseenJoins(cancelled, 0, p, polls);
      if r.Err? {
        return;
      }
      assert r.value == ();
      i, placed := i + 1, placed + 1;
    }
    assert entries[..i] == entries && stamps[..i] == stamps && scripts[..i] == scripts;
    r := Ok(());
  }

  // ---------- what a failed loopback copy can damage ----------

  ghost predicate KeepsFiles(before: Fs, after: Fs) {
    forall p :: p in before.files ==> p in after.files && after.files[p] == before.files[p]
  }

  /** A loopback file copy leaves every existing file alone exactly when its temporary name is not
      that of an existing file, or the target's directory cannot be made in the first place. */
  lemma CopyKeepsFilesIff(fs: Fs, target: Path, ending: PathPolicy.Ending, content: seq<byte>, stamp: string)
    requires target != [] && !Occupied(fs, target, ending)
    ensures KeepsFiles(fs, CopyFile(fs, target, ending, content, stamp).fs)
       <==> Blocked(fs, Parent(target)) || TempPath(target, stamp) !in fs.files
  {
    var temp := TempPath(target, stamp);
    if !Blocked(fs, Parent(target)) && temp in fs.files {
      assert temp !in CopyFile(fs, target, ending, content, stamp).fs.files;
    }
  }

  /** It does happen: a file already named like the temporary sibling is gone after the copy of
      another file is refused. */
  lemma ClashRemovesAFile()
    ensures var temp := ["x.agent-send-0-1.part"];
            var fs := Fs(map[temp := [7]], {[]});
            CopyFile(fs, ["x"], PathPolicy.InName, [], "0-1") == Copied(Fs(map[], {[]}), Err(Io))
  {
    var temp := ["x.agent-send-0-1.part"];
    var fs := Fs(map[temp := [7]], {[]});
    PlainTemp();
    assert Parent(["x"]) == [];
    assert Prefixes([]) == {[]};
    assert fs.files - {temp} == map[];
  }

  // ---------- what a failed loopback transfer can damage ----------

  /** The copy reaches its temporary sibling: the item is a file, its target is free and its
      directory can be made. */
  predicate ReachesTemp(fs: Fs, folder: Folder, e: Entry) {
    var target := folder.root + PathPolicy.Names(e.relative);
    && !e.isDir && WriteTarget(fs, folder, e.relative) == Ok(target)
    && target != [] && !Occupied(fs, target, PathPolicy.EndingOf(e.relative)) && !Blocked(fs, Parent(target))
  }

  /** ... and the sibling's name belongs to a file of `initial`. */
  predicate Clashes(initial: Fs, fs: Fs, folder: Folder, e: Entry, stamp: string) {
    var target := folder.root + PathPolicy.Names(e.relative);
    ReachesTemp(fs, folder, e) && TempPath(target, stamp) in initial.files
  }

  /** One item, seen from the files there were to begin with. */
  lemma ItemKeepsFilesIff(initial: Fs, fs: Fs, folder: Folder, e: Entry, stamp: string)
    requires KeepsFiles(initial, fs)
    ensures var one := CopyOne(fs, folder, e, stamp);
            && (KeepsFiles(initial, one.fs) <==> !Clashes(initial, fs, folder, e, stamp))
            && (one.result.Ok? ==> KeepsFiles(initial, one.fs))
  {
    hide PathPolicy.Names, PathPolicy.RelativeError, PathPolicy.EndingOf;
    var target := folder.root + PathPolicy.Names(e.relative);
    var after := CopyOne(fs, folder, e, stamp).fs;
    if ReachesTemp(fs, folder, e) {
      assert after == CopyFile(fs, target, PathPolicy.EndingOf(e.relative), e.content, stamp).fs;
      var temp := TempPath(target, stamp);
      if temp in initial.files {
        assert temp in fs.files && temp !in after.files;
      }
    } else {
      assert after.files == fs.files;
    }
  }

  /** Item `k` is reached and clashes with a file of `initial`. */
  predicate ClashesAt(initial: Fs, fs: Fs, folder: Folder, entries: seq<Entry>, stamps: seq<string>, k: nat)
    requires |stamps| == |entries| && k < |entries|
  {
    var before := CopyAll(fs, folder, entries[..k], stamps[..k]);
    before.result.Ok? && Clashes(initial, before.fs, folder, entries[k], stamps[k])
  }

  lemma ClashesLater(initial: Fs, fs: Fs, folder: Folder, entries: seq<Entry>, stamps: seq<string>, k: nat)
    requires |stamps| == |entries| && 0 < k < |entries|
    ensures var one := CopyOne(fs, folder, entries[0], stamps[0]);
            ClashesAt(initial, fs, folder, entries, stamps, k)
            <==> one.result.Ok? && ClashesAt(initial, one.fs, folder, entries[1..], stamps[1..], k - 1)
  {
    hide CopyOne, Clashes;
    assert entries[..k][0] == entries[0] && entries[..k][1..] == entries[1..][..k - 1];
    assert stamps[..k][0] == stamps[0] && stamps[..k][1..] == stamps[1..][..k - 1];
  }

  lemma {:induction false} CopyKeepsInitialIff(initial: Fs, fs: Fs, folder: Folder, entries: seq<Entry>,
                                               stamps: seq<string>)
    requires |stamps| == |entries| && KeepsFiles(initial, fs)
    ensures var copied := CopyAll(fs, folder, entries, stamps);
            && (KeepsFiles(initial, copied.fs)
                <==> forall k :: 0 <= k < |entries| ==> !ClashesAt(initial, fs, folder, entries, stamps, k))
            && (copied.result.Ok? ==> KeepsFiles(initial, copied.fs))
    decreases |entries|
  {
    hide CopyOne, Clashes, KeepsFiles, ClashesAt;
    if entries != [] {
      var one := CopyOne(fs, folder, entries[0], stamps[0]);
      ItemKeepsFilesIff(initial, fs, folder, entries[0], stamps[0]);
      FirstClash(initial, fs, folder, entries, stamps);
      forall k | 0 < k < |entries|
        ensures ClashesAt(initial, fs, folder, entries, stamps, k)
           <==> one.result.Ok? && ClashesAt(initial, one.fs, folder, entries[1..], stamps[1..], k - 1)
      {
        ClashesLater(initial, fs, folder, entries, stamps, k);
      }
      if one.result.Ok? {
        CopyKeepsInitialIff(initial, one.fs, folder, entries[1..], stamps[1..]);
        var later :=
          forall k :: 0 <= k < |entries| - 1 ==> !ClashesAt(initial, one.fs, folder, entries[1..], stamps[1..], k);
        if later {
          forall k | 0 <= k < |entries| ensures !ClashesAt(initial, fs, folder, entries, stamps, k) {}
        } else {
          var k: nat :| k < |entries| - 1 && ClashesAt(initial, one.fs, folder, entries[1..], stamps[1..], k);
          assert ClashesAt(initial, fs, folder, entries, stamps, k + 1);
        }
      }
    }
  }

  lemma FirstClash(initial: Fs, fs: Fs, folder: Folder, entries: seq<Entry>, stamps: seq<string>)
    requires |stamps| == |entries| && entries != []
    ensures ClashesAt(initial, fs, folder, entries, stamps, 0) <==> Clashes(initial, fs, folder, entries[0], stamps[0])
  {
    hide Clashes;
    assert entries[..0] == [] && stamps[..0] == [];
  }

  /** A loopback transfer leaves every existing file alone exactly when no item it reaches has a
      temporary name that belongs to one of them; a transfer that succeeds always does. */
  lemma LoopbackKeepsFilesIff(fs: Fs, folder: Folder, entries: seq<Entry>, stamps: seq<string>)
    requires |stamps| == |entries|
    ensures KeepsFiles(fs, CopyAll(fs, folder, entries, stamps).fs)
       <==> forall k :: 0 <= k < |entries| ==> !ClashesAt(fs, fs, folder, entries, stamps, k)
    ensures CopyAll(fs, folder, entries, stamps).result.Ok? ==> KeepsFiles(fs, CopyAll(fs, folder, entries, stamps).fs)
  {
    CopyKeepsInitialIff(fs, fs, folder, entries, stamps);
  }
}
