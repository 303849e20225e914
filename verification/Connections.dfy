/** Whole connections: all-or-nothing delivery and exactly-once commitment per idempotency key. */
module Connections {
  import opened Base
  import opened Text
  import opened FileSystem
  import opened Protocol
  import opened Receiver
  import PathPolicy

  // ---------- what a message sequence promises to deliver ----------

  /** Read off the messages alone: each file between its start and its completion, up to the end of
      the transfer. `target` and `data` describe the file open before the first message. */
  function Delivered(root: Path, inbox: seq<Event>, target: Path, data: seq<byte>): map<Path, seq<byte>> {
    if inbox == [] then map[]
    else match inbox[0].message
      case FileStart(_, relative, _) => Delivered(root, inbox[1..], root + PathPolicy.Names(relative), [])
      case FileChunk(_, _, bytes) => Delivered(root, inbox[1..], target, data + bytes)
      case FileComplete(_) => map[target := data] + Delivered(root, inbox[1..], [], [])
      case TransferComplete(_) => map[]
      case _ => Delivered(root, inbox[1..], target, data)
  }

  function OpenTarget(rx: Rx): Path { if rx.active.Some? then rx.active.value.target else [] }

  /** The files on disk other than the temporary one. */
  function Held(rx: Rx, fs: Fs): map<Path, seq<byte>> { fs.files - TempSet(rx) }

  /** A whole file was received but the system refuses to flush or rename it; it never renames a file
      to a path that does not end in a name. */
  predicate Leaks(rx: Rx, ev: Event) {
    && ev.message.FileComplete? && ev.message.id == rx.id
    && rx.active.Some? && rx.active.value.offset == rx.active.value.expected
    && (ev.fault.SyncFails? || ev.fault.RenameFails? || !rx.active.value.ending.InName?)
  }

  /** The temporary file a run loses track of, if it does. */
  function LeakedTemp(sha: Digest, rx: Rx, fs: Fs, inbox: seq<Event>): Option<Path>
    decreases |inbox|
  {
    if inbox == [] || inbox[0].message.Cancel? then None
    else if Leaks(rx, inbox[0]) then Some(rx.active.value.temp)
    else
      var s := Handle(sha, rx, fs, inbox[0]);
      if s.result == Ok(None) then LeakedTemp(sha, s.rx, s.fs, inbox[1..]) else None
  }

  // ---------- one message keeps the transfer healthy ----------

  /** The promise of the remaining messages, given what is already open. */
  function Promise(rx: Rx, fs: Fs, inbox: seq<Event>): map<Path, seq<byte>> {
    Delivered(rx.folder.root, inbox, OpenTarget(rx), OpenData(rx, fs))
  }

  lemma DropRestores(rx: Rx, fs: Fs, base: map<Path, seq<byte>>)
    requires Owned(rx, fs, base) && !rx.completed
    ensures Dropped(rx, fs).files == base
  {
    assert TempSet(rx) + SetOf(rx.committed) == Own(rx);
  }

  lemma FileCompleteFails(rx: Rx, fs: Fs, ev: Event, base: map<Path, seq<byte>>)
    requires Healthy(rx, fs, base) && ev.message.FileComplete?
    requires FileCompleteStep(rx, fs, ev.message.id, ev.fault).result.Err?
    ensures var s := FileCompleteStep(rx, fs, ev.message.id, ev.fault);
            if Leaks(rx, ev) then
              && rx.active.value.temp !in base
              && rx.active.value.temp in Dropped(s.rx, s.fs).files
              && Dropped(s.rx, s.fs).files - {rx.active.value.temp} == base
            else Dropped(s.rx, s.fs).files == base
  {
    var s := FileCompleteStep(rx, fs, ev.message.id, ev.fault);
    if Leaks(rx, ev) {
      var temp := rx.active.value.temp;
      assert Own(rx) == {temp} + SetOf(rx.committed);
      assert (fs.files - SetOf(rx.committed)) - {temp} == fs.files - Own(rx);
      assert TempSet(s.rx) + SetOf(s.rx.committed) == SetOf(rx.committed);
    } else if ev.message.id != rx.id || rx.active.None? {
      DropRestores(rx, fs, base);
    } else {
      assert rx.active.value.offset != rx.active.value.expected;
      var temp := rx.active.value.temp;
      assert Own(rx) == {temp} + SetOf(rx.committed);
      assert (fs.files - {temp}) - SetOf(rx.committed) == fs.files - Own(rx);
      assert TempSet(s.rx) + SetOf(s.rx.committed) == SetOf(rx.committed);
    }
  }

  /** A refused message ends the transfer with its files gone, up to a leaked temporary file. */
  lemma RefusedRestores(sha: Digest, rx: Rx, fs: Fs, ev: Event, base: map<Path, seq<byte>>)
    requires Healthy(rx, fs, base) && Handle(sha, rx, fs, ev).result.Err?
    ensures var s := Handle(sha, rx, fs, ev);
            if Leaks(rx, ev) then
              && rx.active.value.temp !in base
              && rx.active.value.temp in Dropped(s.rx, s.fs).files
              && Dropped(s.rx, s.fs).files - {rx.active.value.temp} == base
            else Dropped(s.rx, s.fs).files == base
  {
    var s := Handle(sha, rx, fs, ev);
    match ev.message
    case Directory(id, relative) =>
      DirectoryKeeps(rx, fs, id, relative, ev.fault, base);
      DropRestores(s.rx, s.fs, base);
    case FileStart(id, relative, size) =>
      FileStartKeeps(rx, fs, id, relative, size, ev.stamp, ev.fault, base);
      DropRestores(s.rx, s.fs, base);
    case FileChunk(id, offset, data) =>
      ChunkKeeps(rx, fs, id, offset, data, ev.fault, base);
      DropRestores(s.rx, s.fs, base);
    case FileComplete(id) => FileCompleteFails(rx, fs, ev, base);
    case _ =>
      assert s.rx == rx && s.fs == fs;
      DropRestores(rx, fs, base);
  }

  ghost predicate SameTransfer(rx: Rx, rx': Rx) {
    && rx'.id == rx.id && rx'.key == rx.key && rx'.folder == rx.folder
    && rx'.total == rx.total && rx'.expectedHash == rx.expectedHash
  }

  /** The files held plus the promise of the rest stay the same over a message. */
  ghost predicate Advances(rx: Rx, fs: Fs, s: Step<Option<Outcome>>, inbox: seq<Event>, base: map<Path, seq<byte>>)
    requires inbox != []
  {
    var before := Promise(rx, fs, inbox);
    var after := Promise(s.rx, s.fs, inbox[1..]);
    && Healthy(s.rx, s.fs, base) && !Leaks(rx, inbox[0]) && SameTransfer(rx, s.rx)
    && Held(s.rx, s.fs) + after == Held(rx, fs) + before
    && (after.Keys !! Held(s.rx, s.fs).Keys ==> before.Keys !! Held(rx, fs).Keys)
  }

  lemma DirectoryAdvances(sha: Digest, rx: Rx, fs: Fs, inbox: seq<Event>, base: map<Path, seq<byte>>)
    requires Healthy(rx, fs, base) && inbox != [] && inbox[0].message.Directory?
    requires Handle(sha, rx, fs, inbox[0]).result == Ok(None)
    ensures Advances(rx, fs, Handle(sha, rx, fs, inbox[0]), inbox, base)
  {
    DirectoryKeeps(rx, fs, inbox[0].message.id, inbox[0].message.relative, inbox[0].fault, base);
  }

  lemma FileStartAdvances(sha: Digest, rx: Rx, fs: Fs, inbox: seq<Event>, base: map<Path, seq<byte>>)
    requires Healthy(rx, fs, base) && inbox != [] && inbox[0].message.FileStart?
    requires Handle(sha, rx, fs, inbox[0]).result == Ok(None)
    ensures Advances(rx, fs, Handle(sha, rx, fs, inbox[0]), inbox, base)
  {
    var m := inbox[0].message;
    FileStartKeeps(rx, fs, m.id, m.relative, m.size, inbox[0].stamp, inbox[0].fault, base);
    StartKeepsTransfer(rx, fs, m.id, m.relative, m.size, inbox[0].stamp, inbox[0].fault);
  }

  lemma StartKeepsTransfer(rx: Rx, fs: Fs, id: string, relative: string, size: nat, stamp: string, fault: Fault)
    ensures SameTransfer(rx, FileStartStep(rx, fs, id, relative, size, stamp, fault).rx)
  {
    if StartAdmitted(rx, fs, id, relative, size) {
      AdmittedStart(rx, fs, id, relative, size, stamp, fault);
    } else {
      RefusedStart(rx, fs, id, relative, size, stamp, fault);
    }
  }

  lemma ChunkAdvances(sha: Digest, rx: Rx, fs: Fs, inbox: seq<Event>, base: map<Path, seq<byte>>)
    requires Healthy(rx, fs, base) && inbox != [] && inbox[0].message.FileChunk?
    requires Handle(sha, rx, fs, inbox[0]).result == Ok(None)
    ensures Advances(rx, fs, Handle(sha, rx, fs, inbox[0]), inbox, base)
  {
    ChunkKeeps(rx, fs, inbox[0].message.id, inbox[0].message.offset, inbox[0].message.data, inbox[0].fault, base);
  }

  lemma FileCompleteAdvances(sha: Digest, rx: Rx, fs: Fs, inbox: seq<Event>, base: map<Path, seq<byte>>)
    requires Healthy(rx, fs, base) && inbox != [] && inbox[0].message.FileComplete?
    requires Handle(sha, rx, fs, inbox[0]).result == Ok(None)
    ensures Advances(rx, fs, Handle(sha, rx, fs, inbox[0]), inbox, base)
  {
    var m := inbox[0].message;
    var s := FileCompleteStep(rx, fs, m.id, inbox[0].fault);
    FileCompleteKeeps(rx, fs, m.id, inbox[0].fault, base);
    var target, data := rx.active.value.target, OpenData(rx, fs);
    PromoteFile(Held(rx, fs), target, data, Promise(s.rx, s.fs, inbox[1..]));
    assert Held(s.rx, s.fs) == s.fs.files;
  }

  lemma PromoteFile(held: map<Path, seq<byte>>, target: Path, data: seq<byte>, later: map<Path, seq<byte>>)
    ensures held[target := data] + later == held + (map[target := data] + later)
    ensures target !in held && later.Keys !! held[target := data].Keys ==>
              (map[target := data] + later).Keys !! held.Keys
  {
  }

  /** An accepted message keeps the transfer healthy and the promise unchanged. */
  lemma AcceptedKeeps(sha: Digest, rx: Rx, fs: Fs, inbox: seq<Event>, base: map<Path, seq<byte>>)
    requires Healthy(rx, fs, base) && inbox != []
    requires Handle(sha, rx, fs, inbox[0]).result == Ok(None)
    ensures Advances(rx, fs, Handle(sha, rx, fs, inbox[0]), inbox, base)
  {
    match inbox[0].message
    case Directory(_, _) => DirectoryAdvances(sha, rx, fs, inbox, base);
    case FileStart(_, _, _) => FileStartAdvances(sha, rx, fs, inbox, base);
    case FileChunk(_, _, _) => ChunkAdvances(sha, rx, fs, inbox, base);
    case FileComplete(_) => FileCompleteAdvances(sha, rx, fs, inbox, base);
    case _ =>
  }

  /** The state after messages that were all accepted, if they were. */
  function Reached(sha: Digest, rx: Rx, fs: Fs, inbox: seq<Event>): Option<(Rx, Fs)>
    decreases |inbox|
  {
    if inbox == [] then Some((rx, fs))
    else if inbox[0].message.Cancel? then None
    else
      var s := Handle(sha, rx, fs, inbox[0]);
      if s.result == Ok(None) then Reached(sha, s.rx, s.fs, inbox[1..]) else None
  }

  /** Every state a transfer passes through without an error is healthy: its budget, its hash, its
      reserved targets and what it must roll back are all accounted for. */
  lemma {:induction false} ReachedIsHealthy(sha: Digest, rx: Rx, fs: Fs, inbox: seq<Event>, base: map<Path, seq<byte>>)
    requires Healthy(rx, fs, base) && Reached(sha, rx, fs, inbox).Some?
    ensures var (rx', fs') := Reached(sha, rx, fs, inbox).value;
            Healthy(rx', fs', base) && SameTransfer(rx, rx')
    decreases |inbox|
  {
    hide Handle, Healthy;
    if inbox != [] {
      var s := Handle(sha, rx, fs, inbox[0]);
      AcceptedKeeps(sha, rx, fs, inbox, base);
      ReachedIsHealthy(sha, s.rx, s.fs, inbox[1..], base);
    }
  }

  function SizeSum(files: map<Path, seq<byte>>, paths: seq<Path>): nat
    requires forall p :: p in paths ==> p in files
  {
    if paths == [] then 0 else SizeSum(files, paths[..|paths| - 1]) + |files[paths[|paths| - 1]]|
  }

  lemma {:induction false} ContentsSize(files: map<Path, seq<byte>>, paths: seq<Path>)
    requires forall p :: p in paths ==> p in files
    ensures |Contents(files, paths)| == SizeSum(files, paths)
  {
    if paths != [] {
      ContentsSize(files, paths[..|paths| - 1]);
    }
  }

  /** Bytes are conserved: what was counted is what lies on disk in the committed files and the open
      one, never more than the manifest announced. */
  lemma BytesAreConserved(rx: Rx, fs: Fs, base: map<Path, seq<byte>>)
    requires Healthy(rx, fs, base)
    ensures rx.bytes == SizeSum(fs.files, rx.committed) + (if rx.active.Some? then rx.active.value.offset else 0)
    ensures rx.bytes <= rx.total <= MAX_TRANSFER_BYTES
  {
    ContentsSize(fs.files, rx.committed);
  }

  /** The chunk data of a message sequence, up to the end of the transfer. */
  function ChunkData(inbox: seq<Event>): seq<byte> {
    if inbox == [] || inbox[0].message.TransferComplete? then []
    else (if inbox[0].message.FileChunk? then inbox[0].message.data else []) + ChunkData(inbox[1..])
  }

  /** Only chunks feed the hash. */
  lemma HashedAfter(sha: Digest, rx: Rx, fs: Fs, ev: Event)
    requires Handle(sha, rx, fs, ev).result == Ok(None)
    ensures Handle(sha, rx, fs, ev).rx.hashed
         == if ev.message.FileChunk? then rx.hashed + ev.message.data else rx.hashed
  {
    hide WriteTarget, MkdirAllOr;
    var m := ev.message;
    if m.FileStart? {
      hide FileStartStep;
      StartKeepsHash(rx, fs, m.id, m.relative, m.size, ev.stamp, ev.fault);
    }
  }

  /** No message follows an accepted TransferComplete. */
  lemma CompletionEnds(sha: Digest, rx: Rx, fs: Fs, ev: Event)
    requires Handle(sha, rx, fs, ev).result == Ok(None)
    ensures !ev.message.TransferComplete?
  {
    hide CompleteStep;
  }

  lemma ChunkDataStep(sha: Digest, rx: Rx, fs: Fs, inbox: seq<Event>)
    requires inbox != [] && Handle(sha, rx, fs, inbox[0]).result == Ok(None)
    ensures Handle(sha, rx, fs, inbox[0]).rx.hashed + ChunkData(inbox[1..]) == rx.hashed + ChunkData(inbox)
  {
    hide Handle;
    HashedAfter(sha, rx, fs, inbox[0]);
    CompletionEnds(sha, rx, fs, inbox[0]);
    var more := ChunkData(inbox[1..]);
    if inbox[0].message.FileChunk? {
      var data := inbox[0].message.data;
      assert rx.hashed + data + more == rx.hashed + (data + more);
    } else {
      assert [] + more == more;
    }
  }

  lemma StartKeepsHash(rx: Rx, fs: Fs, id: string, relative: string, size: nat, stamp: string, fault: Fault)
    ensures FileStartStep(rx, fs, id, relative, size, stamp, fault).rx.hashed == rx.hashed
  {
    if StartAdmitted(rx, fs, id, relative, size) {
      AdmittedStart(rx, fs, id, relative, size, stamp, fault);
    } else {
      RefusedStart(rx, fs, id, relative, size, stamp, fault);
    }
  }

  /** A transfer commits only with the byte count and the hash of its manifest, and the hash is that
      of all chunk data received. */
  lemma {:induction false} CommitMatchesManifest(sha: Digest, rx: Rx, fs: Fs, inbox: seq<Event>,
                                                 base: map<Path, seq<byte>>)
    requires Healthy(rx, fs, base) && Run(sha, rx, fs, inbox).outcome.Some?
    ensures var o := Run(sha, rx, fs, inbox).outcome.value;
            && o.bytes == rx.total == |rx.hashed + ChunkData(inbox)|
            && o.sha256 == ToHex(sha(rx.hashed + ChunkData(inbox)))
            && LowerAscii(o.sha256) == LowerAscii(rx.expectedHash)
    decreases |inbox|
  {
    var s := Handle(sha, rx, fs, inbox[0]);
    if s.result == Ok(None) {
      hide Handle;
      AcceptedKeeps(sha, rx, fs, inbox, base);
      ChunkDataStep(sha, rx, fs, inbox);
      CommitMatchesManifest(sha, s.rx, s.fs, inbox[1..], base);
    } else {
      assert inbox[0].message.TransferComplete? && rx.hashed + [] == rx.hashed;
    }
  }

  // ---------- a whole run ----------

  /** What a run must leave behind: the promised files exactly when it commits, the starting files
      otherwise, except for a temporary file the system refused to flush or rename. */
  ghost predicate AllOrNothing(f: Final, start: map<Path, seq<byte>>, promised: map<Path, seq<byte>>,
                               base: map<Path, seq<byte>>, leaked: Option<Path>) {
    match f.outcome
    case Some(_) => f.fs.files == start + promised && promised.Keys !! start.Keys && leaked.None?
    case None =>
      match leaked
      case None => f.fs.files == base
      case Some(temp) => temp !in base && temp in f.fs.files && f.fs.files - {temp} == base
  }

  lemma {:induction false} RunIsAllOrNothing(sha: Digest, rx: Rx, fs: Fs, inbox: seq<Event>, base: map<Path, seq<byte>>)
    requires Healthy(rx, fs, base)
    ensures AllOrNothing(Run(sha, rx, fs, inbox), Held(rx, fs), Promise(rx, fs, inbox), base,
                         LeakedTemp(sha, rx, fs, inbox))
    decreases |inbox|
  {
    if inbox == [] || inbox[0].message.Cancel? {
      DropRestores(rx, fs, base);
    } else {
      var s := Handle(sha, rx, fs, inbox[0]);
      match s.result
      case Ok(None) =>
        AcceptedKeeps(sha, rx, fs, inbox, base);
        RunIsAllOrNothing(sha, s.rx, s.fs, inbox[1..], base);
      case Ok(Some(o)) =>
        assert Promise(rx, fs, inbox) == map[];
        assert fs.files - TempSet(s.rx) == fs.files;
      case Err(_) =>
        RefusedRestores(sha, rx, fs, inbox[0], base);
    }
  }

  lemma Continues(sha: Digest, rx: Rx, fs: Fs, inbox: seq<Event>)
    requires inbox != [] && !inbox[0].message.Cancel? && !Leaks(rx, inbox[0])
    requires Handle(sha, rx, fs, inbox[0]).result == Ok(None)
    ensures var s := Handle(sha, rx, fs, inbox[0]);
            && Run(sha, rx, fs, inbox) == Run(sha, s.rx, s.fs, inbox[1..])
            && LeakedTemp(sha, rx, fs, inbox) == LeakedTemp(sha, s.rx, s.fs, inbox[1..])
  {
    hide Handle, Leaks;
  }

  const TEMP_X: Path := ["x.agent-send-0-1.part"]

  /** A fresh transfer without bytes, at a root that accepts writes. */
  function EmptyTransfer(): Rx { NewRx("t", "k", Folder([], PathPolicy.Write), 0, "") }

  function BegunX(ending: PathPolicy.Ending): Rx {
    EmptyTransfer().(entries := 1, started := 1, targets := {["x"]},
                     active := Some(Active(["x"], ending, TEMP_X, 0, 0)))
  }

  /** A path that leads to ["x"], which is free as far as that text can tell. */
  ghost predicate FreeX(fs: Fs, text: string) {
    && PathPolicy.RelativeError(text) == None && PathPolicy.Names(text) == ["x"]
    && fs.dirs == {[]} && [] !in fs.files && TEMP_X !in fs.files
    && !Occupied(fs, ["x"], PathPolicy.EndingOf(text))
  }

  lemma StopOfX(sha: Digest, rx: Rx, fs: Fs, stop: Event)
    requires rx.active.Some? && rx == BegunX(rx.active.value.ending) && TEMP_X in fs.files
    requires stop.message == FileComplete("t") && Leaks(rx, stop)
    ensures var f := Run(sha, rx, fs, [stop]);
            f.outcome.None? && f.fs.files == fs.files
    ensures LeakedTemp(sha, rx, fs, [stop]) == Some(TEMP_X)
  {
    var stopped := rx.(active := None);
    assert Handle(sha, rx, fs, stop) == Step(stopped, fs, Err(Io));
    hide Handle;
    assert TempSet(stopped) + SetOf(stopped.committed) == {};
    assert fs.files - {} == fs.files;
    assert Dropped(stopped, fs).files == fs.files;
  }

  lemma StartOfX(sha: Digest, fs: Fs, text: string, start: Event)
    requires FreeX(fs, text) && start == Event(FileStart("t", text, 0), "0-1", NoFault)
    ensures Handle(sha, EmptyTransfer(), fs, start)
         == Step(BegunX(PathPolicy.EndingOf(text)), Fs(fs.files[TEMP_X := []], {[]}), Ok(None))
  {
    hide PathPolicy.Names, PathPolicy.RelativeError, PathPolicy.EndingOf, StartAdmitted, FileStartStep, OpenTemp;
    var rx := EmptyTransfer();
    AdmittedX(fs, text);
    AdmittedStart(rx, fs, "t", text, 0, "0-1", NoFault);
    assert [] + ["x"] == ["x"];
    OpenX(rx.(entries := 1, started := 1), fs, PathPolicy.EndingOf(text));
  }

  lemma AdmittedX(fs: Fs, text: string)
    requires FreeX(fs, text)
    ensures StartAdmitted(EmptyTransfer(), fs, "t", text, 0)
  {
    hide PathPolicy.Names, PathPolicy.RelativeError, PathPolicy.EndingOf;
    assert [] + ["x"] == ["x"];
  }

  lemma OpenX(rx: Rx, fs: Fs, ending: PathPolicy.Ending)
    requires rx.targets == {} && fs.dirs == {[]} && [] !in fs.files && TEMP_X !in fs.files
    ensures OpenTemp(rx, fs, ["x"], ending, 0, "0-1", NoFault)
         == Step(rx.(targets := {["x"]}, active := Some(Active(["x"], ending, TEMP_X, 0, 0))),
                 Fs(fs.files[TEMP_X := []], {[]}), Ok(()))
  {
    hide TempPath;
    PlainTemp();
    assert Parent(["x"]) == [] && Prefixes([]) == {[]};
    assert MkdirAll(fs, []).value == fs;
    assert rx.targets + {["x"]} == {["x"]};
  }

  lemma TextsOfX()
    ensures PathPolicy.RelativeError("x") == None && PathPolicy.Names("x") == ["x"] && PathPolicy.EndingOf("x").InName?
    ensures PathPolicy.RelativeError("x/") == None && PathPolicy.Names("x/") == ["x"]
    ensures PathPolicy.EndingOf("x/").InSeparator?
  {
    SplitSingle("x");
    assert ["x"][1..] == [] && ["x"][..0] == [];
    assert PathPolicy.PieceComponents(["x"], true) == [PathPolicy.Normal("x")] + PathPolicy.PieceComponents([], false);
    assert PathPolicy.Components("x") == [PathPolicy.Normal("x")];
    assert "x" + "/" == "x/";
    PathPolicy.TrailingSlash("x", true);
    assert PathPolicy.Components("x/") == [PathPolicy.Normal("x")];
    SplitJoin("x", "");
    assert "x" + "/" + "" == "x/" && Split("") == [""];
    assert ["x", ""][..1] == ["x"];
  }

  /** A transfer of one empty file under a free name that loses its temporary file. */
  lemma OneFileLeaks(sha: Digest, fs: Fs, text: string, fault: Fault)
    requires FreeX(fs, text) && (fault.SyncFails? || !PathPolicy.EndingOf(text).InName?)
    ensures var inbox := [Event(FileStart("t", text, 0), "0-1", NoFault), Event(FileComplete("t"), "", fault)];
            var f := Run(sha, EmptyTransfer(), fs, inbox);
            && f.outcome.None? && LeakedTemp(sha, EmptyTransfer(), fs, inbox) == Some(TEMP_X)
            && f.fs.files == fs.files[TEMP_X := []]
  {
    hide Run, Handle, LeakedTemp, Dropped, PathPolicy.Names, PathPolicy.RelativeError, PathPolicy.EndingOf;
    var rx := EmptyTransfer();
    var start := Event(FileStart("t", text, 0), "0-1", NoFault);
    var stop := Event(FileComplete("t"), "", fault);
    StartOfX(sha, fs, text, start);
    var s := Handle(sha, rx, fs, start);
    StopOfX(sha, s.rx, s.fs, stop);
    assert [start, stop][1..] == [stop];
    Continues(sha, rx, fs, [start, stop]);
  }

  /** It does happen: a transfer of one empty file whose flush fails leaves its temporary file behind
      although nothing was delivered. */
  lemma FlushFailureLeavesATemp(sha: Digest)
    ensures var fs := Fs(map[], {[]});
            var inbox := [Event(FileStart("t", "x", 0), "0-1", NoFault), Event(FileComplete("t"), "", SyncFails)];
            var f := Run(sha, EmptyTransfer(), fs, inbox);
            && Healthy(EmptyTransfer(), fs, fs.files)
            && f.outcome.None? && LeakedTemp(sha, EmptyTransfer(), fs, inbox) == Some(TEMP_X)
            && f.fs.files == map[TEMP_X := []]
  {
    hide Run, LeakedTemp, PathPolicy.Names, PathPolicy.RelativeError, PathPolicy.EndingOf, Healthy;
    var fs := Fs(map[], {[]});
    TextsOfX();
    NewIsHealthy("t", "k", Folder([], PathPolicy.Write), 0, "", fs);
    OneFileLeaks(sha, fs, "x", SyncFails);
  }

  /** It happens on a system without any fault, too: a file whose path ends in a separator is started,
      even over an existing file, and can never be renamed into place. */
  lemma SeparatorLeavesATemp(sha: Digest)
    ensures var fs := Fs(map[["x"] := [7]], {[]});
            var inbox := [Event(FileStart("t", "x/", 0), "0-1", NoFault), Event(FileComplete("t"), "", NoFault)];
            var f := Run(sha, EmptyTransfer(), fs, inbox);
            && Healthy(EmptyTransfer(), fs, fs.files)
            && f.outcome.None? && LeakedTemp(sha, EmptyTransfer(), fs, inbox) == Some(TEMP_X)
            && f.fs.files == map[["x"] := [7], TEMP_X := []]
  {
    hide Run, LeakedTemp, PathPolicy.Names, PathPolicy.RelativeError, PathPolicy.EndingOf, Healthy;
    var fs := Fs(map[["x"] := [7]], {[]});
    TextsOfX();
    NewIsHealthy("t", "k", Folder([], PathPolicy.Write), 0, "", fs);
    OneFileLeaks(sha, fs, "x/", NoFault);
  }

  // ---------- one connection ----------

  /** The destination tree and the outcomes remembered per idempotency key. */
  datatype Engine = Engine(fs: Fs, completed: map<string, Outcome>)

  datatype Manifest = Manifest(id: string, folder: string, key: string, total: nat, sha256: string)

  /** A manifest and the messages that followed it before the transfer ended or the peer was lost. */
  datatype Connection = Connection(manifest: Manifest, inbox: seq<Event>)

  datatype Start = Ready(rx: Rx) | Completed(outcome: Outcome) | Refused(reason: TransferError)

  function Begin(folders: map<string, Folder>, e: Engine, m: Manifest): Start {
    if m.key in e.completed then Completed(e.completed[m.key])
    else if m.total > MAX_TRANSFER_BYTES then Refused(SizeLimitExceeded)
    else if m.folder !in folders then Refused(FolderNotFound(m.folder))
    else match WriteTarget(e.fs, folders[m.folder], ".")
      case Err(reason) => Refused(Policy(reason))
      case Ok(_) => Ready(NewRx(m.id, m.key, folders[m.folder], m.total, m.sha256))
  }

  /** What serving one connection leaves: the engine, the replies attempted in order, and the
      outcome if this connection committed. */
  datatype Served = Served(engine: Engine, replies: seq<Message>, commit: Option<Outcome>)

  function Serve(sha: Digest, folders: map<string, Folder>, e: Engine, c: Connection): Served {
    match Begin(folders, e, c.manifest)
    case Completed(o) => Served(e, [ResultMessage(c.manifest.id, o)], None)
    case Refused(_) => Served(e, [TransferRejected(c.manifest.id)], None)
    case Ready(rx) =>
      var f := Run(sha, rx, e.fs, c.inbox);
      var completed := match f.outcome
        case None => e.completed
        case Some(o) => e.completed[rx.key := o];
      Served(Engine(f.fs, completed),
             [TransferReady(rx.id)] + (if f.reply.Some? then [f.reply.value] else []),
             f.outcome)
  }

  /** The files a connection's messages promise. */
  function Promised(folders: map<string, Folder>, c: Connection): map<Path, seq<byte>> {
    if c.manifest.folder in folders then Delivered(folders[c.manifest.folder].root, c.inbox, [], []) else map[]
  }

  /** The temporary file a connection leaves behind, if it does. */
  function LeftBy(sha: Digest, folders: map<string, Folder>, e: Engine, c: Connection): Option<Path> {
    match Begin(folders, e, c.manifest)
    case Ready(rx) => LeakedTemp(sha, rx, e.fs, c.inbox)
    case _ => None
  }

  lemma ServeIsAllOrNothing(sha: Digest, folders: map<string, Folder>, e: Engine, c: Connection)
    ensures var served := Serve(sha, folders, e, c);
            AllOrNothing(Final(served.engine.fs, served.commit, None), e.fs.files, Promised(folders, c),
                         e.fs.files, LeftBy(sha, folders, e, c))
  {
    match Begin(folders, e, c.manifest)
    case Completed(_) =>
    case Refused(_) =>
    case Ready(rx) =>
      var m := c.manifest;
      NewIsHealthy(m.id, m.key, folders[m.folder], m.total, m.sha256, e.fs);
      RunIsAllOrNothing(sha, rx, e.fs, c.inbox, e.fs.files);
      assert Held(rx, e.fs) == e.fs.files;
  }

  // ---------- what a connection is answered ----------

  /** The manifest may be followed by content: at most 4 GiB into a known folder that accepts writes
      and whose root is a directory. */
  predicate Welcome(folders: map<string, Folder>, fs: Fs, m: Manifest) {
    && m.total <= 4 * 1024 * 1024 * 1024
    && m.folder in folders && folders[m.folder].direction != PathPolicy.Read && folders[m.folder].root in fs.dirs
  }

  /** Told from the answer: exactly which manifests are answered from memory, refused for which reason,
      or given a judged transfer. */
  lemma ManifestsExactly(folders: map<string, Folder>, e: Engine, m: Manifest)
    ensures var start := Begin(folders, e, m);
            var judged := m.key !in e.completed && m.total <= 4 * 1024 * 1024 * 1024;
            && (forall o :: start == Completed(o) <==> m.key in e.completed && e.completed[m.key] == o)
            && (start == Refused(SizeLimitExceeded) <==> m.key !in e.completed && m.total > 4 * 1024 * 1024 * 1024)
            && (start == Refused(FolderNotFound(m.folder)) <==> judged && m.folder !in folders)
            && (start == Refused(Policy(PathPolicy.WriteNotAllowed)) <==>
                  judged && m.folder in folders && folders[m.folder].direction == PathPolicy.Read)
            && (start == Refused(Policy(PathPolicy.RootUnavailable)) <==>
                  && judged && m.folder in folders && folders[m.folder].direction != PathPolicy.Read
                  && folders[m.folder].root !in e.fs.dirs)
            && (start.Ready? <==> m.key !in e.completed && Welcome(folders, e.fs, m))
            && (start.Ready? ==> start.rx == NewRx(m.id, m.key, folders[m.folder], m.total, m.sha256))
  {
    PathPolicy.DotIsAccepted();
  }

  /** A manifest with a new key is answered with ready exactly when content may follow; otherwise the
      rejection is the only reply and nothing happens. */
  lemma FirstReply(sha: Digest, folders: map<string, Folder>, e: Engine, c: Connection)
    requires c.manifest.key !in e.completed
    ensures var served := Serve(sha, folders, e, c);
            if Welcome(folders, e.fs, c.manifest)
            then 0 < |served.replies| <= 2 && served.replies[0] == TransferReady(c.manifest.id)
            else served == Served(e, [TransferRejected(c.manifest.id)], None)
  {
    hide Run;
    PathPolicy.DotIsAccepted();
  }

  /** A run that has accepted some messages goes on from where they led. */
  lemma {:induction false} RunFrom(sha: Digest, rx: Rx, fs: Fs, inbox: seq<Event>, n: nat)
    requires n <= |inbox| && Reached(sha, rx, fs, inbox[..n]).Some?
    ensures var (rx', fs') := Reached(sha, rx, fs, inbox[..n]).value;
            Run(sha, rx, fs, inbox) == Run(sha, rx', fs', inbox[n..]) && rx'.id == rx.id
    decreases n
  {
    hide Handle;
    if n == 0 {
      assert inbox[..0] == [] && inbox[0..] == inbox;
    } else {
      var part := inbox[..n];
      assert part[0] == inbox[0] && part[1..] == inbox[1..][..n - 1] && inbox[1..][n - 1..] == inbox[n..];
      var s := Handle(sha, rx, fs, inbox[0]);
      HandleKeepsId(sha, rx, fs, inbox[0]);
      RunFrom(sha, s.rx, s.fs, inbox[1..], n - 1);
    }
  }

  /** After ready: once some messages were accepted, a cancel or a lost peer is not answered, a message
      that is refused is answered with the rejection, and a completion with its result. */
  lemma SecondReply(sha: Digest, folders: map<string, Folder>, e: Engine, c: Connection, n: nat)
    requires c.manifest.key !in e.completed && Welcome(folders, e.fs, c.manifest) && n <= |c.inbox|
    requires var m := c.manifest;
             Reached(sha, NewRx(m.id, m.key, folders[m.folder], m.total, m.sha256), e.fs, c.inbox[..n]).Some?
    ensures var m := c.manifest;
            var (rx, fs) :=
              Reached(sha, NewRx(m.id, m.key, folders[m.folder], m.total, m.sha256), e.fs, c.inbox[..n]).value;
            var served := Serve(sha, folders, e, c);
            if n == |c.inbox| || c.inbox[n].message.Cancel?
            then served.replies == [TransferReady(m.id)] && served.commit.None?
            else match Handle(sha, rx, fs, c.inbox[n]).result
              case Err(_) => served.replies == [TransferReady(m.id), TransferRejected(m.id)] && served.commit.None?
              case Ok(Some(o)) => served.replies == [TransferReady(m.id), ResultMessage(m.id, o)] && served.commit
                  == Some(o)
              case Ok(None) => true
  {
    hide Handle, Dropped;
    PathPolicy.DotIsAccepted();
    var m := c.manifest;
    RunFrom(sha, NewRx(m.id, m.key, folders[m.folder], m.total, m.sha256), e.fs, c.inbox, n);
    if n < |c.inbox| {
      assert c.inbox[n..][0] == c.inbox[n];
    }
  }

  // ---------- any sequence of connections ----------

  function EngineAfter(sha: Digest, folders: map<string, Folder>, e: Engine, cs: seq<Connection>): Engine {
    if cs == [] then e
    else Serve(sha, folders, EngineAfter(sha, folders, e, cs[..|cs| - 1]), cs[|cs| - 1]).engine
  }

  /** How connection `i` of `cs` was served. */
  function ServedAt(sha: Digest, folders: map<string, Folder>, e: Engine, cs: seq<Connection>, i: nat): Served
    requires i < |cs|
  {
    Serve(sha, folders, EngineAfter(sha, folders, e, cs[..i]), cs[i])
  }

  /** The promised files of exactly those connections that committed. */
  function CommittedFiles(sha: Digest, folders: map<string, Folder>, e: Engine,
                          cs: seq<Connection>): map<Path, seq<byte>> {
    if cs == [] then map[]
    else
      var last := |cs| - 1;
      CommittedFiles(sha, folders, e, cs[..last])
      + if ServedAt(sha, folders, e, cs, last).commit.Some? then Promised(folders, cs[last]) else map[]
  }

  /** The temporary files lost to a refused flush or rename. */
  function LeftFiles(sha: Digest, folders: map<string, Folder>, e: Engine, cs: seq<Connection>): set<Path> {
    if cs == [] then {}
    else
      var last := |cs| - 1;
      LeftFiles(sha, folders, e, cs[..last])
      + match LeftBy(sha, folders, EngineAfter(sha, folders, e, cs[..last]), cs[last])
        case None => {}
        case Some(temp) => {temp}
  }

  /** Over any connections, however each is cut or refused, the destination holds its initial files
      unchanged, the files of the connections that committed, and nothing else but the temporary
      files lost to a refused flush or rename. */
  lemma {:induction false} HistoryIsAllOrNothing(sha: Digest, folders: map<string, Folder>, e: Engine,
                                                 cs: seq<Connection>)
    ensures var files := EngineAfter(sha, folders, e, cs).fs.files;
            var left := LeftFiles(sha, folders, e, cs);
            var gained := CommittedFiles(sha, folders, e, cs);
            && left <= files.Keys
            && files - left == e.fs.files + gained
            && gained.Keys !! e.fs.files.Keys
            && left !! e.fs.files.Keys
  {
    if cs != [] {
      var last := |cs| - 1;
      var before := EngineAfter(sha, folders, e, cs[..last]);
      HistoryIsAllOrNothing(sha, folders, e, cs[..last]);
      ServeIsAllOrNothing(sha, folders, before, cs[last]);
      var served := Serve(sha, folders, before, cs[last]);
      HistoryStep(e.fs.files, before.fs.files, served, LeftFiles(sha, folders, e, cs[..last]),
                  CommittedFiles(sha, folders, e, cs[..last]), Promised(folders, cs[last]),
                  LeftBy(sha, folders, before, cs[last]));
    }
  }

  lemma HistoryStep(initial: map<Path, seq<byte>>, files: map<Path, seq<byte>>, served: Served, left: set<Path>,
                    gained: map<Path, seq<byte>>, promised: map<Path, seq<byte>>, leaked: Option<Path>)
    requires left <= files.Keys && files - left == initial + gained
    requires gained.Keys !! initial.Keys && left !! initial.Keys
    requires AllOrNothing(Final(served.engine.fs, served.commit, None), files, promised, files, leaked)
    ensures var files' := served.engine.fs.files;
            var left' := left + (match leaked { case None => {} case Some(temp) => {temp} });
            var gained' := gained + (if served.commit.Some? then promised else map[]);
            && left' <= files'.Keys && files' - left' == initial + gained'
            && gained'.Keys !! initial.Keys && left' !! initial.Keys
  {
    var files' := served.engine.fs.files;
    assert initial.Keys <= files.Keys by {
      assert forall p :: p in initial ==> p in files - left;
    }
    if served.commit.Some? {
      assert (files + promised) - left == (files - left) + promised;
      assert (initial + gained) + promised == initial + (gained + promised);
      assert left + {} == left;
    } else if leaked.Some? {
      assert files' - (left + {leaked.value}) == (files' - {leaked.value}) - left;
      assert gained + map[] == gained;
    } else {
      assert gained + map[] == gained;
      assert left + {} == left;
    }
  }

  ghost predicate Kept(before: map<Path, seq<byte>>, after: map<Path, seq<byte>>) {
    forall p :: p in before ==> p in after && after[p] == before[p]
  }

  lemma ServeKeepsFiles(sha: Digest, folders: map<string, Folder>, e: Engine, c: Connection)
    ensures Kept(e.fs.files, Serve(sha, folders, e, c).engine.fs.files)
  {
    hide Serve, LeftBy, Promised;
    ServeIsAllOrNothing(sha, folders, e, c);
    var after := Serve(sha, folders, e, c).engine.fs.files;
    forall p | p in e.fs.files ensures p in after && after[p] == e.fs.files[p] {
      match LeftBy(sha, folders, e, c)
      case None =>
      case Some(temp) =>
        assert p in after - {temp};
    }
  }

  lemma {:induction false} FilesStay(sha: Digest, folders: map<string, Folder>, e: Engine, cs: seq<Connection>, i: nat)
    requires i <= |cs|
    ensures Kept(EngineAfter(sha, folders, e, cs[..i]).fs.files, EngineAfter(sha, folders, e, cs).fs.files)
    decreases |cs|
  {
    if i == |cs| {
      assert cs[..i] == cs;
    } else {
      hide Serve;
      var shorter := cs[..|cs| - 1];
      assert shorter[..i] == cs[..i];
      FilesStay(sha, folders, e, shorter, i);
      ServeKeepsFiles(sha, folders, EngineAfter(sha, folders, e, shorter), cs[|cs| - 1]);
    }
  }

  /** What a connection commits is still there, byte for byte, after any later connections. */
  lemma CommittedFilesStay(sha: Digest, folders: map<string, Folder>, e: Engine, cs: seq<Connection>, i: nat, n: nat)
    requires i < n <= |cs| && ServedAt(sha, folders, e, cs, i).commit.Some?
    ensures Kept(Promised(folders, cs[i]), EngineAfter(sha, folders, e, cs[..n]).fs.files)
  {
    hide Serve, LeftBy, Promised;
    var before := EngineAfter(sha, folders, e, cs[..i]);
    ServeIsAllOrNothing(sha, folders, before, cs[i]);
    assert cs[..i + 1][..i] == cs[..i] && cs[..n][..i + 1] == cs[..i + 1];
    FilesStay(sha, folders, e, cs[..n], i + 1);
  }

  /** Two connections that commit share no file. */
  lemma CommitsAreApart(sha: Digest, folders: map<string, Folder>, e: Engine, cs: seq<Connection>, i: nat, j: nat)
    requires i < j < |cs|
    requires ServedAt(sha, folders, e, cs, i).commit.Some? && ServedAt(sha, folders, e, cs, j).commit.Some?
    ensures Promised(folders, cs[i]).Keys !! Promised(folders, cs[j]).Keys
  {
    hide Serve, LeftBy, Promised;
    CommittedFilesStay(sha, folders, e, cs, i, j);
    ServeIsAllOrNothing(sha, folders, EngineAfter(sha, folders, e, cs[..j]), cs[j]);
  }

  // ---------- exactly once per idempotency key ----------

  /** A remembered outcome is never changed or forgotten. */
  lemma {:induction false} OutcomesAreStable(sha: Digest, folders: map<string, Folder>, e: Engine, cs: seq<Connection>,
                                             i: nat, key: string)
    requires i <= |cs| && key in EngineAfter(sha, folders, e, cs[..i]).completed
    ensures key in EngineAfter(sha, folders, e, cs).completed
    ensures EngineAfter(sha, folders, e, cs).completed[key] == EngineAfter(sha, folders, e, cs[..i]).completed[key]
    decreases |cs|
  {
    if i == |cs| {
      assert cs[..i] == cs;
    } else {
      hide Serve;
      var shorter := cs[..|cs| - 1];
      assert shorter[..i] == cs[..i];
      OutcomesAreStable(sha, folders, e, shorter, i, key);
      ServeRemembers(sha, folders, EngineAfter(sha, folders, e, shorter), cs[|cs| - 1], key);
    }
  }

  lemma ServeRemembers(sha: Digest, folders: map<string, Folder>, e: Engine, c: Connection, key: string)
    requires key in e.completed
    ensures var completed := Serve(sha, folders, e, c).engine.completed;
            key in completed && completed[key] == e.completed[key]
  {
  }

  lemma CommitIsRemembered(sha: Digest, folders: map<string, Folder>, e: Engine, c: Connection)
    requires Serve(sha, folders, e, c).commit.Some?
    ensures var served := Serve(sha, folders, e, c);
            c.manifest.key in served.engine.completed
            && served.engine.completed[c.manifest.key] == served.commit.value
  {
  }

  lemma RepeatIsAnswered(sha: Digest, folders: map<string, Folder>, e: Engine, c: Connection)
    requires c.manifest.key in e.completed
    ensures Serve(sha, folders, e, c)
         == Served(e, [ResultMessage(c.manifest.id, e.completed[c.manifest.key])], None)
  {
  }

  lemma CommitIsHeldFrom(sha: Digest, folders: map<string, Folder>, e: Engine, cs: seq<Connection>, i: nat, n: nat)
    requires i < n <= |cs| && ServedAt(sha, folders, e, cs, i).commit.Some?
    ensures var completed := EngineAfter(sha, folders, e, cs[..n]).completed;
            cs[i].manifest.key in completed
            && completed[cs[i].manifest.key] == ServedAt(sha, folders, e, cs, i).commit.value
  {
    CommitIsRemembered(sha, folders, EngineAfter(sha, folders, e, cs[..i]), cs[i]);
    assert cs[..i + 1][..i] == cs[..i] && cs[..n][..i + 1] == cs[..i + 1];
    assert EngineAfter(sha, folders, e, cs[..i + 1]) == ServedAt(sha, folders, e, cs, i).engine;
    OutcomesAreStable(sha, folders, e, cs[..n], i + 1, cs[i].manifest.key);
  }

  /** Once a connection commits a key, every later connection with that key is answered with the
      stored outcome and changes nothing, so no key commits twice. */
  lemma CommitsOnce(sha: Digest, folders: map<string, Folder>, e: Engine, cs: seq<Connection>, i: nat, j: nat,
                    outcome: Outcome)
    requires i < j < |cs| && cs[i].manifest.key == cs[j].manifest.key
    requires ServedAt(sha, folders, e, cs, i).commit == Some(outcome)
    ensures ServedAt(sha, folders, e, cs, j)
         == Served(EngineAfter(sha, folders, e, cs[..j]), [ResultMessage(cs[j].manifest.id, outcome)], None)
  {
    CommitIsHeldFrom(sha, folders, e, cs, i, j);
    var before := EngineAfter(sha, folders, e, cs[..j]);
    assert before.completed[cs[j].manifest.key] == outcome;
    RepeatIsAnswered(sha, folders, before, cs[j]);
  }

  // ---------- the sender's view ----------

  datatype SendError = Rejected | UnexpectedResponse | Closed | StreamFailed

  /** What the sender returns, given the replies that reached it and what its own stream counted, if it
      finished. */
  function SenderResult(key: string, replies: seq<Message>, streamed: Option<Outcome>): Result<Outcome, SendError> {
    if replies == [] then Err(Closed)
    else match replies[0]
      case TransferReady(id) =>
        if id != key then Err(UnexpectedResponse)
        else if streamed.None? then Err(StreamFailed)
        else if |replies| == 1 then Err(Closed)
        else (match replies[1]
              case TransferResult(id2, bytes, files, sha256) =>
                if id2 == key && Outcome(bytes, files, sha256) == streamed.value then Ok(streamed.value)
                else Err(UnexpectedResponse)
              case TransferRejected(id2) => Err(if id2 == key then Rejected else UnexpectedResponse)
              case _ => Err(UnexpectedResponse))
      case TransferResult(id, bytes, files, sha256) =>
        if id == key then Ok(Outcome(bytes, files, sha256)) else Err(UnexpectedResponse)
      case TransferRejected(id) => Err(if id == key then Rejected else UnexpectedResponse)
      case _ => Err(UnexpectedResponse)
  }

  /** A sender that returns Ok, on whichever attempt and however many replies were lost, returns
      exactly the outcome the receiver holds for its key, then and ever after. */
  lemma SenderOkIsHeld(sha: Digest, folders: map<string, Folder>, e: Engine, cs: seq<Connection>, i: nat,
                       key: string, seen: seq<Message>, streamed: Option<Outcome>)
    requires i < |cs| && cs[i].manifest.key == key
    requires seen <= ServedAt(sha, folders, e, cs, i).replies
    requires SenderResult(key, seen, streamed).Ok?
    ensures key in EngineAfter(sha, folders, e, cs).completed
    ensures EngineAfter(sha, folders, e, cs).completed[key] == SenderResult(key, seen, streamed).value
  {
    var before := EngineAfter(sha, folders, e, cs[..i]);
    var served := ServedAt(sha, folders, e, cs, i);
    assert seen[0] == served.replies[0];
    assert |seen| > 1 ==> seen[1] == served.replies[1];
    assert key in served.engine.completed && served.engine.completed[key]
        == SenderResult(key, seen, streamed).value by {
      RunReplies(sha, folders, before, cs[i]);
    }
    assert cs[..i + 1][..i] == cs[..i];
    OutcomesAreStable(sha, folders, e, cs, i + 1, key);
  }

  /** A sender that retries a key already committed is told the stored outcome and returns it, however
      its own attempt goes. */
  lemma RetryReturnsStored(sha: Digest, folders: map<string, Folder>, e: Engine, cs: seq<Connection>, i: nat, j: nat,
                           outcome: Outcome, streamed: Option<Outcome>)
    requires i < j < |cs| && cs[i].manifest.key == cs[j].manifest.key == cs[j].manifest.id
    requires ServedAt(sha, folders, e, cs, i).commit == Some(outcome)
    ensures SenderResult(cs[j].manifest.key, ServedAt(sha, folders, e, cs, j).replies, streamed) == Ok(outcome)
  {
    hide Serve;
    CommitsOnce(sha, folders, e, cs, i, j, outcome);
  }

  /** A run answers with a result only when it commits, and with that outcome. */
  lemma {:induction false} RunReply(sha: Digest, rx: Rx, fs: Fs, inbox: seq<Event>)
    ensures var f := Run(sha, rx, fs, inbox);
            match f.reply
            case Some(TransferResult(id, bytes, files, sha256)) => f.outcome == Some(Outcome(bytes, files, sha256))
            case Some(m) => m == TransferRejected(rx.id) && f.outcome.None?
            case None => f.outcome.None?
    decreases |inbox|
  {
    if inbox != [] && !inbox[0].message.Cancel? {
      var s := Handle(sha, rx, fs, inbox[0]);
      if s.result == Ok(None) {
        assert s.rx.id == rx.id by {
          HandleKeepsId(sha, rx, fs, inbox[0]);
        }
        RunReply(sha, s.rx, s.fs, inbox[1..]);
      }
    }
  }

  lemma HandleKeepsId(sha: Digest, rx: Rx, fs: Fs, ev: Event)
    ensures SameTransfer(rx, Handle(sha, rx, fs, ev).rx)
  {
    hide FileStartStep, WriteTarget, MkdirAllOr;
    if ev.message.FileStart? {
      StartKeepsTransfer(rx, fs, ev.message.id, ev.message.relative, ev.message.size, ev.stamp, ev.fault);
    }
  }

  lemma RunReplies(sha: Digest, folders: map<string, Folder>, e: Engine, c: Connection)
    ensures var served := Serve(sha, folders, e, c);
            match served.replies[0]
            case TransferResult(_, bytes, files, sha256) =>
              c.manifest.key in served.engine.completed
              && served.engine.completed[c.manifest.key] == Outcome(bytes, files, sha256)
            case TransferReady(_) =>
              |served.replies| > 1 && served.replies[1].TransferResult? ==>
                var r := served.replies[1];
                c.manifest.key in served.engine.completed
                && served.engine.completed[c.manifest.key] == Outcome(r.bytes, r.files, r.sha256)
            case _ => true
  {
    var start := Begin(folders, e, c.manifest);
    if start.Ready? {
      RunReply(sha, start.rx, e.fs, c.inbox);
    }
  }

  /** Messages without a TransferComplete, such as a cancelled stream's, commit nothing. */
  lemma {:induction false} RunNeedsComplete(sha: Digest, rx: Rx, fs: Fs, inbox: seq<Event>)
    requires forall ev :: ev in inbox ==> !ev.message.TransferComplete?
    ensures Run(sha, rx, fs, inbox).outcome == None
    decreases |inbox|
  {
    if inbox != [] && !inbox[0].message.Cancel? {
      var s := Handle(sha, rx, fs, inbox[0]);
      if s.result == Ok(None) {
        RunNeedsComplete(sha, s.rx, s.fs, inbox[1..]);
      }
    }
  }
}
