/** The receiving side of a streamed transfer: what each message does to the transfer's state and
    to the destination tree, and what a whole connection leaves behind. */
module Receiver {
  import opened Base
  import opened Text
  import opened FileSystem
  import opened Protocol
  import PathPolicy

  /** The file being received, and how its target's text ended. Its bytes so far are those of `temp`. */
  datatype Active = Active(target: Path, ending: PathPolicy.Ending, temp: Path, expected: nat, offset: nat)

  /** One incoming transfer. The running hash is represented by the bytes fed to it. */
  datatype Rx = Rx(
    id: string, key: string, folder: Folder, total: nat, expectedHash: string,
    bytes: nat, files: nat, hashed: seq<byte>, active: Option<Active>,
    started: nat, entries: nat, targets: set<Path>, committed: seq<Path>, completed: bool)

  function NewRx(id: string, key: string, folder: Folder, total: nat, expectedHash: string): Rx {
    Rx(id, key, folder, total, expectedHash, 0, 0, [], None, 0, 0, {}, [], false)
  }

  datatype Step<+T> = Step(rx: Rx, fs: Fs, result: Result<T, TransferError>)

  const WRONG_TRANSFER := ProtocolError("message belongs to a different transfer")
  const OPEN_ON_DIRECTORY := ProtocolError("directory arrived while a file is open")
  const OPEN_ON_START := ProtocolError("file started while another file is open")
  const CHUNK_TOO_LONG := ProtocolError("file chunk exceeds the protocol limit")
  const CHUNK_WITHOUT_FILE := ProtocolError("file chunk arrived without a file")
  const CHUNK_OUT_OF_ORDER := ProtocolError("file chunk offset is not monotonic")
  const COMPLETE_WITHOUT_FILE := ProtocolError("file completed without a file")
  const OPEN_ON_COMPLETE := ProtocolError("transfer completed while a file is open")
  const UNEXPECTED := ProtocolError("unexpected peer transfer message")

  function SaturatingSub(a: nat, b: nat): nat { if a < b then 0 else a - b }

  // ---------- one message ----------

  function DirectoryStep(rx: Rx, fs: Fs, id: string, relative: string, fault: Fault): Step<()> {
    if id != rx.id then Step(rx, fs, Err(WRONG_TRANSFER))
    else if rx.active.Some? then Step(rx, fs, Err(OPEN_ON_DIRECTORY))
    else if rx.entries >= MAX_TRANSFER_FILES then Step(rx, fs, Err(FileCountLimitExceeded))
    else
      var rx1 := rx.(entries := rx.entries + 1);
      match WriteTarget(fs, rx.folder, relative)
      case Err(e) => Step(rx1, fs, Err(Policy(e)))
      case Ok(target) =>
        var ending := PathPolicy.EndingOf(relative);
        if Occupied(fs, target, ending) && target !in fs.dirs then Step(rx1, fs, Err(DestinationExists(target)))
        else
          var (fs1, made) := MkdirAllAs(fs, target, ending, fault);
          Step(rx1, fs1, if made then Ok(()) else Err(Io))
  }

  /** The part of `file_start` after the target is known to be free. */
  function OpenTemp(rx: Rx, fs: Fs, target: Path, ending: PathPolicy.Ending, size: nat, stamp: string,
                    fault: Fault): Step<()>
    requires target != []
  {
    var rx1 := rx.(targets := rx.targets + {target});
    var (fs1, made) := MkdirAllOr(fs, Parent(target), fault);
    var temp := TempPath(target, stamp);
    if !made || Exists(fs1, temp) || fault.OpenFails? then Step(rx1, fs1, Err(Io))
    else Step(rx1.(active := Some(Active(target, ending, temp, size, 0))),
              fs1.(files := fs1.files[temp := []]),
              Ok(()))
  }

  function FileStartStep(rx: Rx, fs: Fs, id: string, relative: string, size: nat,
                         stamp: string, fault: Fault): Step<()> {
    if id != rx.id then Step(rx, fs, Err(WRONG_TRANSFER))
    else if rx.active.Some? then Step(rx, fs, Err(OPEN_ON_START))
    else if size > SaturatingSub(rx.total, rx.bytes) then Step(rx, fs, Err(SizeMismatch))
    else if rx.started >= MAX_TRANSFER_FILES || rx.entries >= MAX_TRANSFER_FILES
    then Step(rx, fs, Err(FileCountLimitExceeded))
    else
      var rx1 := rx.(entries := rx.entries + 1, started := rx.started + 1);
      match WriteTarget(fs, rx.folder, relative)
      case Err(e) => Step(rx1, fs, Err(Policy(e)))
      case Ok(target) =>
        var ending := PathPolicy.EndingOf(relative);
        if Occupied(fs, target, ending) || target in rx.targets
        then Step(rx1, fs, Err(DestinationExists(target)))
        else
          assert target == [] ==> rx.folder.root == target;
          OpenTemp(rx1, fs, target, ending, size, stamp, fault)
  }

  function ChunkStep(rx: Rx, fs: Fs, id: string, offset: nat, data: seq<byte>, fault: Fault): Step<()> {
    if id != rx.id then Step(rx, fs, Err(WRONG_TRANSFER))
    else if |data| > CHUNK_SIZE then Step(rx, fs, Err(CHUNK_TOO_LONG))
    else if rx.active.None? then Step(rx, fs, Err(CHUNK_WITHOUT_FILE))
    else
      var file := rx.active.value;
      if file.offset != offset then Step(rx, fs, Err(CHUNK_OUT_OF_ORDER))
      else
        var so_far := if file.temp in fs.files then fs.files[file.temp] else [];
        if fault.WriteFails? then
          var written := if fault.written < |data| then fault.written else |data|;
          Step(rx, fs.(files := fs.files[file.temp := so_far + data[..written]]), Err(Io))
        else
          var fs1 := fs.(files := fs.files[file.temp := so_far + data]);
          var rx1 := rx.(active := Some(file.(offset := file.offset + |data|)));
          if file.offset + |data| > file.expected then Step(rx1, fs1, Err(SizeMismatch))
          else
            var rx2 := rx1.(bytes := rx.bytes + |data|);
            if rx2.bytes > rx.total then Step(rx2, fs1, Err(SizeMismatch))
            else Step(rx2.(hashed := rx.hashed + data), fs1, Ok(()))
  }

  function FileCompleteStep(rx: Rx, fs: Fs, id: string, fault: Fault): Step<()> {
    if id != rx.id then Step(rx, fs, Err(WRONG_TRANSFER))
    else if rx.active.None? then Step(rx, fs, Err(COMPLETE_WITHOUT_FILE))
    else
      var file := rx.active.value;
      var rx1 := rx.(active := None);
      if file.offset != file.expected then Step(rx1, Remove(fs, {file.temp}), Err(SizeMismatch))
      else if fault.SyncFails? || fault.RenameFails? then Step(rx1, fs, Err(Io))
      else match Rename(fs, file.temp, file.target, file.ending)
        case None => Step(rx1, fs, Err(Io))
        case Some(fs1) =>
          Step(rx1.(committed := rx.committed + [file.target], files := rx.files + 1), fs1, Ok(()))
  }

  function CompleteStep(sha: Digest, rx: Rx, fs: Fs, id: string): Step<Outcome> {
    if id != rx.id then Step(rx, fs, Err(WRONG_TRANSFER))
    else if rx.active.Some? then Step(rx, fs, Err(OPEN_ON_COMPLETE))
    else if rx.bytes != rx.total then Step(rx, fs, Err(SizeMismatch))
    else
      var outcome := Outcome(rx.bytes, rx.files, ToHex(sha(rx.hashed)));
      if LowerAscii(outcome.sha256) != LowerAscii(rx.expectedHash) then Step(rx, fs, Err(HashMismatch))
      else Step(rx.(completed := true), fs, Ok(outcome))
  }

  function SetOf(paths: seq<Path>): (s: set<Path>)
    ensures forall p :: p in s <==> p in paths
  {
    set p | p in paths
  }

  function TempSet(rx: Rx): set<Path> {
    if rx.active.Some? then {rx.active.value.temp} else {}
  }

  /** What the transfer removes from the destination when it is dropped. */
  function Dropped(rx: Rx, fs: Fs): Fs {
    Remove(fs, TempSet(rx) + if rx.completed then {} else SetOf(rx.committed))
  }

  // ---------- a whole connection ----------

  /** A received message with the clock stamp and the system fault its handling meets. */
  datatype Event = Event(message: Message, stamp: string, fault: Fault)

  function Quiet(s: Step<()>): Step<Option<Outcome>> {
    match s.result
    case Ok(_) => Step(s.rx, s.fs, Ok(None))
    case Err(e) => Step(s.rx, s.fs, Err(e))
  }

  function Handle(sha: Digest, rx: Rx, fs: Fs, ev: Event): Step<Option<Outcome>> {
    match ev.message
    case Directory(id, relative) => Quiet(DirectoryStep(rx, fs, id, relative, ev.fault))
    case FileStart(id, relative, size) => Quiet(FileStartStep(rx, fs, id, relative, size, ev.stamp, ev.fault))
    case FileChunk(id, offset, data) => Quiet(ChunkStep(rx, fs, id, offset, data, ev.fault))
    case FileComplete(id) => Quiet(FileCompleteStep(rx, fs, id, ev.fault))
    case TransferComplete(id) =>
      var s := CompleteStep(sha, rx, fs, id);
      (match s.result
       case Ok(o) => Step(s.rx, s.fs, Ok(Some(o)))
       case Err(e) => Step(s.rx, s.fs, Err(e)))
    case _ => Step(rx, fs, Err(UNEXPECTED))
  }

  /** What is left when a connection ends: the tree, the outcome if the transfer committed, and
      the last reply attempted. */
  datatype Final = Final(fs: Fs, outcome: Option<Outcome>, reply: Option<Message>)

  /** Handles messages until the transfer ends; running out of them is a closed or broken connection. */
  function Run(sha: Digest, rx: Rx, fs: Fs, inbox: seq<Event>): Final
    decreases |inbox|
  {
    if inbox == [] || inbox[0].message.Cancel? then Final(Dropped(rx, fs), None, None)
    else
      var s := Handle(sha, rx, fs, inbox[0]);
      match s.result
      case Ok(None) => Run(sha, s.rx, s.fs, inbox[1..])
      case Ok(Some(o)) => Final(Dropped(s.rx, s.fs), Some(o), Some(ResultMessage(rx.id, o)))
      case Err(_) => Final(Dropped(s.rx, s.fs), None, Some(TransferRejected(rx.id)))
  }

  // ---------- what a healthy transfer keeps ----------

  /** The paths the transfer has put on disk and not yet given away. */
  function Own(rx: Rx): set<Path> { TempSet(rx) + SetOf(rx.committed) }

  /** Taking away what the transfer put there leaves exactly the files `base`. */
  ghost predicate Owned(rx: Rx, fs: Fs, base: map<Path, seq<byte>>) {
    Own(rx) <= fs.files.Keys && fs.files - Own(rx) == base
  }

  function Contents(files: map<Path, seq<byte>>, paths: seq<Path>): seq<byte>
    requires forall p :: p in paths ==> p in files
  {
    if paths == [] then []
    else Contents(files, paths[..|paths| - 1]) + files[paths[|paths| - 1]]
  }

  /** The open file's bytes. */
  function OpenData(rx: Rx, fs: Fs): seq<byte> {
    if rx.active.Some? && rx.active.value.temp in fs.files then fs.files[rx.active.value.temp] else []
  }

  /** Budget: what is received, plus what the open file may still bring, stays within the manifest. */
  ghost predicate Budgeted(rx: Rx, fs: Fs) {
    && rx.bytes == |rx.hashed| <= rx.total <= MAX_TRANSFER_BYTES
    && rx.files == |rx.committed|
    && rx.started == rx.files + (if rx.active.Some? then 1 else 0)
    && rx.started <= rx.entries <= MAX_TRANSFER_FILES
    && (rx.active.Some? ==>
          var file := rx.active.value;
          && file.offset <= file.expected
          && file.offset <= rx.bytes
          && rx.bytes - file.offset + file.expected <= rx.total
          && file.temp in fs.files && |fs.files[file.temp]| == file.offset)
  }

  /** The hash has seen the committed files in order, then the open file. */
  ghost predicate HashMatchesDisk(rx: Rx, fs: Fs) {
    && (forall p :: p in rx.committed ==> p in fs.files)
    && rx.hashed == Contents(fs.files, rx.committed) + OpenData(rx, fs)
  }

  ghost predicate Reserved(rx: Rx, fs: Fs) {
    && rx.targets == SetOf(rx.committed) + (if rx.active.Some? then {rx.active.value.target} else {})
    && (rx.active.Some? ==>
          var file := rx.active.value;
          && file.temp !in rx.committed && file.temp != file.target
          && !Occupied(fs, file.target, file.ending))
  }

  ghost predicate Healthy(rx: Rx, fs: Fs, base: map<Path, seq<byte>>) {
    && !rx.completed
    && Owned(rx, fs, base)
    && Budgeted(rx, fs)
    && HashMatchesDisk(rx, fs)
    && Reserved(rx, fs)
  }

  lemma NewIsHealthy(id: string, key: string, folder: Folder, total: nat, expectedHash: string, fs: Fs)
    requires total <= MAX_TRANSFER_BYTES
    ensures Healthy(NewRx(id, key, folder, total, expectedHash), fs, fs.files)
  {
    var rx := NewRx(id, key, folder, total, expectedHash);
    assert fs.files - Own(rx) == fs.files;
  }

  lemma {:induction false} ContentsFrame(files: map<Path, seq<byte>>, files': map<Path, seq<byte>>, paths: seq<Path>)
    requires forall p :: p in paths ==> p in files && p in files' && files[p] == files'[p]
    ensures Contents(files, paths) == Contents(files', paths)
  {
    if paths != [] {
      assert paths[|paths| - 1] in paths;
      ContentsFrame(files, files', paths[..|paths| - 1]);
    }
  }

  lemma MkdirKeepsFiles(fs: Fs, p: Path, fault: Fault)
    ensures MkdirAllOr(fs, p, fault).0.files == fs.files
    ensures fs.dirs <= MkdirAllOr(fs, p, fault).0.dirs <= fs.dirs + Prefixes(p)
  {
    if fault.MkdirFails? {
      var q := p[..if fault.made < |p| then fault.made else |p|];
      forall r | r in Prefixes(q) ensures r in Prefixes(p) {
        assert r == q[..|r|] == p[..|r|];
      }
    }
  }

  lemma DirectoryKeeps(rx: Rx, fs: Fs, id: string, relative: string, fault: Fault, base: map<Path, seq<byte>>)
    requires Healthy(rx, fs, base)
    ensures var s := DirectoryStep(rx, fs, id, relative, fault);
            && s.fs.files == fs.files
            && Owned(s.rx, s.fs, base) && !s.rx.completed
            && (s.result.Ok? ==> Healthy(s.rx, s.fs, base) && s.rx.active.None?)
  {
    hide MkdirAllOr, Contents, PathPolicy.EndingOf, PathPolicy.Names, PathPolicy.RelativeError;
    var s := DirectoryStep(rx, fs, id, relative, fault);
    var target := WriteTarget(fs, rx.folder, relative);
    if target.Ok? {
      MkdirKeepsFiles(fs, target.value, fault);
      MkdirKeepsFiles(fs, Parent(target.value), fault);
    }
    assert Own(s.rx) == Own(rx);
    if s.result.Ok? {
      ContentsFrame(fs.files, s.fs.files, rx.committed);
    }
  }

  lemma OpenTempKeeps(rx: Rx, fs: Fs, target: Path, ending: PathPolicy.Ending, size: nat, stamp: string, fault: Fault,
                      base: map<Path, seq<byte>>)
    requires target != [] && !Occupied(fs, target, ending)
    requires rx.active.None? && Owned(rx, fs, base) && HashMatchesDisk(rx, fs)
    requires rx.targets == SetOf(rx.committed)
    ensures var s := OpenTemp(rx, fs, target, ending, size, stamp, fault);
            && Owned(s.rx, s.fs, base) && s.rx == rx.(targets := s.rx.targets, active := s.rx.active)
            && (s.result.Ok? ==>
                  && s.rx.active == Some(Active(target, ending, TempPath(target, stamp), size, 0))
                  && HashMatchesDisk(s.rx, s.fs) && Reserved(s.rx, s.fs)
                  && TempPath(target, stamp) in s.fs.files && OpenData(s.rx, s.fs) == []
                  && s.fs.files - TempSet(s.rx) == fs.files)
  {
    hide TempPath, Contents, MkdirAllOr;
    var s := OpenTemp(rx, fs, target, ending, size, stamp, fault);
    MkdirKeepsFiles(fs, Parent(target), fault);
    TempDiffers(target, stamp);
    var temp := TempPath(target, stamp);
    if s.result.Ok? {
      assert temp !in fs.files;
      assert Own(s.rx) == Own(rx) + {temp};
      assert s.fs.files - Own(s.rx) == fs.files - Own(rx);
      assert s.fs.files - {temp} == fs.files;
      ContentsFrame(fs.files, s.fs.files, rx.committed);
      assert target !in Prefixes(Parent(target));
    } else {
      assert Own(s.rx) == Own(rx);
    }
  }

  ghost predicate FileStarted(rx: Rx, fs: Fs, s: Step<()>, target: Path, base: map<Path, seq<byte>>) {
    && Owned(s.rx, s.fs, base) && !s.rx.completed
    && (s.result.Ok? ==>
          && Healthy(s.rx, s.fs, base)
          && rx.active.None? && s.rx.active.Some? && OpenData(s.rx, s.fs) == []
          && s.rx.active.value.target == target
          && s.fs.files - TempSet(s.rx) == fs.files - TempSet(rx))
  }

  lemma OpenTempStarts(rx: Rx, fs: Fs, target: Path, ending: PathPolicy.Ending, size: nat, stamp: string,
                       fault: Fault, base: map<Path, seq<byte>>)
    requires Healthy(rx, fs, base) && rx.active.None?
    requires target != [] && !Occupied(fs, target, ending)
    requires size <= rx.total - rx.bytes && rx.started < MAX_TRANSFER_FILES && rx.entries < MAX_TRANSFER_FILES
    ensures FileStarted(rx, fs,
                        OpenTemp(rx.(entries := rx.entries + 1, started := rx.started + 1), fs, target, ending, size,
                                 stamp, fault),
                        target, base)
  {
    var rx1 := rx.(entries := rx.entries + 1, started := rx.started + 1);
    assert Own(rx1) == Own(rx) && OpenData(rx1, fs) == OpenData(rx, fs);
    OpenTempKeeps(rx1, fs, target, ending, size, stamp, fault, base);
    assert fs.files - TempSet(rx) == fs.files;
  }

  lemma RefusalKeeps(rx: Rx, fs: Fs, rx1: Rx, e: TransferError, target: Path, base: map<Path, seq<byte>>)
    requires Healthy(rx, fs, base)
    requires rx1 == rx.(entries := rx1.entries, started := rx1.started)
    ensures FileStarted(rx, fs, Step(rx1, fs, Err(e)), target, base)
  {
    assert Own(rx1) == Own(rx);
  }

  /** `file_start` gets as far as opening the temporary file. */
  predicate StartAdmitted(rx: Rx, fs: Fs, id: string, relative: string, size: nat) {
    var target := rx.folder.root + PathPolicy.Names(relative);
    && id == rx.id && rx.active.None? && size <= SaturatingSub(rx.total, rx.bytes)
    && rx.started < MAX_TRANSFER_FILES && rx.entries < MAX_TRANSFER_FILES
    && WriteTarget(fs, rx.folder, relative) == Ok(target)
    && !Occupied(fs, target, PathPolicy.EndingOf(relative)) && target !in rx.targets
  }

  lemma AdmittedStart(rx: Rx, fs: Fs, id: string, relative: string, size: nat, stamp: string, fault: Fault)
    requires StartAdmitted(rx, fs, id, relative, size)
    ensures var target := rx.folder.root + PathPolicy.Names(relative);
            && target != []
            && FileStartStep(rx, fs, id, relative, size, stamp, fault)
            == OpenTemp(rx.(entries := rx.entries + 1, started := rx.started + 1), fs, target,
                        PathPolicy.EndingOf(relative), size, stamp, fault)
  {
    hide PathPolicy.Names, PathPolicy.RelativeError, OpenTemp;
    var target := rx.folder.root + PathPolicy.Names(relative);
    assert target == [] ==> rx.folder.root == target;
  }

  lemma RefusedStart(rx: Rx, fs: Fs, id: string, relative: string, size: nat, stamp: string, fault: Fault)
    requires !StartAdmitted(rx, fs, id, relative, size)
    ensures var s := FileStartStep(rx, fs, id, relative, size, stamp, fault);
            && s.fs == fs && s.result.Err?
            && s.rx == rx.(entries := s.rx.entries, started := s.rx.started)
  {
    hide PathPolicy.Names, PathPolicy.RelativeError, OpenTemp;
  }

  lemma FileStartKeeps(rx: Rx, fs: Fs, id: string, relative: string, size: nat, stamp: string, fault: Fault,
                       base: map<Path, seq<byte>>)
    requires Healthy(rx, fs, base)
    ensures FileStarted(rx, fs, FileStartStep(rx, fs, id, relative, size, stamp, fault),
                        rx.folder.root + PathPolicy.Names(relative), base)
  {
    var target := rx.folder.root + PathPolicy.Names(relative);
    if StartAdmitted(rx, fs, id, relative, size) {
      AdmittedStart(rx, fs, id, relative, size, stamp, fault);
      OpenTempStarts(rx, fs, target, PathPolicy.EndingOf(relative), size, stamp, fault, base);
    } else {
      RefusedStart(rx, fs, id, relative, size, stamp, fault);
      var s := FileStartStep(rx, fs, id, relative, size, stamp, fault);
      RefusalKeeps(rx, fs, s.rx, s.result.error, target, base);
    }
  }

  lemma ChunkKeeps(rx: Rx, fs: Fs, id: string, offset: nat, data: seq<byte>, fault: Fault, base: map<Path, seq<byte>>)
    requires Healthy(rx, fs, base)
    ensures var s := ChunkStep(rx, fs, id, offset, data, fault);
            && Owned(s.rx, s.fs, base) && !s.rx.completed
            && (s.result.Ok? ==>
                  && Healthy(s.rx, s.fs, base)
                  && rx.active.Some? && s.rx.active.Some?
                  && s.rx.active.value.target == rx.active.value.target
                  && OpenData(s.rx, s.fs) == OpenData(rx, fs) + data
                  && s.fs.files - TempSet(s.rx) == fs.files - TempSet(rx))
  {
    hide Contents;
    var s := ChunkStep(rx, fs, id, offset, data, fault);
    assert Own(s.rx) == Own(rx);
    if rx.active.Some? {
      var temp := rx.active.value.temp;
      assert s.fs.files - Own(rx) == fs.files - Own(rx);
      assert s.fs.files - {temp} == fs.files - {temp};
    }
    if s.result.Ok? {
      ContentsFrame(fs.files, s.fs.files, rx.committed);
    }
  }

  /** The check of the transfer's total after the file's own size check can never fire, and no
      64-bit counter comes near its limit. */
  lemma SecondSizeCheckIsDead(rx: Rx, fs: Fs, data: seq<byte>, base: map<Path, seq<byte>>)
    requires Healthy(rx, fs, base) && rx.active.Some? && |data| <= CHUNK_SIZE
    ensures rx.active.value.offset + |data| <= rx.active.value.expected ==> rx.bytes + |data| <= rx.total
    ensures rx.active.value.offset + |data| < U64_LIMIT && rx.bytes + |data| < U64_LIMIT
    ensures rx.entries + 1 < U64_LIMIT && rx.started + 1 < U64_LIMIT && rx.files + 1 < U64_LIMIT
  {
  }

  lemma FileCompleteKeeps(rx: Rx, fs: Fs, id: string, fault: Fault, base: map<Path, seq<byte>>)
    requires Healthy(rx, fs, base)
    ensures var s := FileCompleteStep(rx, fs, id, fault);
            && !s.rx.completed
            && (s.result.Ok? ==>
                  && Healthy(s.rx, s.fs, base)
                  && rx.active.Some? && s.rx.active.None?
                  && s.fs.files == (fs.files - TempSet(rx))[rx.active.value.target := OpenData(rx, fs)]
                  && rx.active.value.target !in fs.files)
  {
    var s := FileCompleteStep(rx, fs, id, fault);
    if s.result.Ok? {
      var file := rx.active.value;
      var paths := rx.committed + [file.target];
      assert paths[..|paths| - 1] == rx.committed;
      assert SetOf(paths) == SetOf(rx.committed) + {file.target};
      assert Own(s.rx) == SetOf(paths) && Own(rx) == SetOf(rx.committed) + {file.temp};
      assert s.fs.files - Own(s.rx) == fs.files - Own(rx);
      ContentsFrame(fs.files, s.fs.files, rx.committed);
    }
  }

  // ---------- exactly what each message needs ----------

  /** The folder accepts writes, its root is a directory and the path is acceptable. */
  predicate Writable(fs: Fs, folder: Folder, relative: string) {
    PathPolicy.RelativeError(relative) == None && folder.direction != PathPolicy.Read && folder.root in fs.dirs
  }

  /** A directory is accepted exactly when it is for this transfer, no file is open, fewer than 10000
      entries came before, the path may be written, no file is in the way, it does not end in "." where
      nothing is, and the system makes it; it is then there, with all above it, and counted. */
  lemma DirectoryAccepted(rx: Rx, fs: Fs, id: string, relative: string, fault: Fault)
    ensures var s := DirectoryStep(rx, fs, id, relative, fault);
            var target := rx.folder.root + PathPolicy.Names(relative);
            && (s.result.Ok? <==>
                  && id == rx.id && rx.active.None? && rx.entries < 10_000 && Writable(fs, rx.folder, relative)
                  && (forall q :: q <= target ==> q !in fs.files)
                  && (PathPolicy.EndingOf(relative).InDot? ==> target in fs.dirs)
                  && !fault.MkdirFails?)
            && (s.result.Ok? ==>
                  s.rx == rx.(entries := rx.entries + 1) && s.fs == fs.(dirs := fs.dirs + Prefixes(target)))
  {
    hide PathPolicy.Names, PathPolicy.RelativeError, PathPolicy.EndingOf;
  }

  /** A file is started exactly when it is for this transfer, none is open, its size fits what is left,
      fewer than 10000 entries came before, the path may be written and names nothing yet, its directory
      can be made and the temporary name is free; the temporary file is then there, empty. */
  lemma FileStartAccepted(rx: Rx, fs: Fs, id: string, relative: string, size: nat, stamp: string, fault: Fault)
    requires rx.started <= rx.entries && rx.bytes <= rx.total
    ensures var s := FileStartStep(rx, fs, id, relative, size, stamp, fault);
            var target, ending := rx.folder.root + PathPolicy.Names(relative), PathPolicy.EndingOf(relative);
            && (s.result.Ok? <==>
                  && id == rx.id && rx.active.None? && rx.bytes + size <= rx.total && rx.entries < 10_000
                  && Writable(fs, rx.folder, relative)
                  && target !in fs.dirs && (ending.InName? ==> target !in fs.files) && target !in rx.targets
                  && (forall q :: q <= Parent(target) ==> q !in fs.files)
                  && target != [] && !Exists(fs.(dirs := fs.dirs + Prefixes(Parent(target))), TempPath(target, stamp))
                  && !fault.MkdirFails? && !fault.OpenFails?)
            && (s.result.Ok? ==>
                  && s.rx == rx.(entries := rx.entries + 1, started := rx.started + 1,
                                 targets := rx.targets + {target},
                                 active := Some(Active(target, ending, TempPath(target, stamp), size, 0)))
                  && s.fs == Fs(fs.files[TempPath(target, stamp) := []], fs.dirs + Prefixes(Parent(target))))
  {
    hide PathPolicy.Names, PathPolicy.RelativeError, PathPolicy.EndingOf, TempPath;
    var target := rx.folder.root + PathPolicy.Names(relative);
    assert target == [] ==> rx.folder.root == target;
  }

  /** A chunk is accepted exactly when it is for this transfer, at most 64 KiB, a file is open, it
      continues where that file ended, stays within the announced size, and the system writes it. */
  lemma ChunkAccepted(rx: Rx, fs: Fs, id: string, offset: nat, data: seq<byte>, fault: Fault,
                      base: map<Path, seq<byte>>)
    requires Healthy(rx, fs, base)
    ensures var s := ChunkStep(rx, fs, id, offset, data, fault);
            && (s.result.Ok? <==>
                  && id == rx.id && |data| <= 65536 && rx.active.Some?
                  && offset == rx.active.value.offset && offset + |data| <= rx.active.value.expected
                  && !fault.WriteFails?)
            && (s.result.Ok? ==>
                  var file := rx.active.value;
                  && s.rx == rx.(active := Some(file.(offset := offset + |data|)), bytes := rx.bytes + |data|,
                                 hashed := rx.hashed + data)
                  && s.fs == fs.(files := fs.files[file.temp := fs.files[file.temp] + data]))
  {
    hide Owned, HashMatchesDisk, Reserved;
  }

  /** A file is completed exactly when it is for this transfer, a file is open and whole, its path ends
      in a name, and the system flushes and renames it; it is then under its target's name. */
  lemma FileCompleteAccepted(rx: Rx, fs: Fs, id: string, fault: Fault, base: map<Path, seq<byte>>)
    requires Healthy(rx, fs, base)
    ensures var s := FileCompleteStep(rx, fs, id, fault);
            && (s.result.Ok? <==>
                  && id == rx.id && rx.active.Some? && rx.active.value.offset == rx.active.value.expected
                  && rx.active.value.ending.InName? && !fault.SyncFails? && !fault.RenameFails?)
            && (s.result.Ok? ==>
                  var file := rx.active.value;
                  && s.rx == rx.(active := None, committed := rx.committed + [file.target], files := rx.files + 1)
                  && s.fs == fs.(files := (fs.files - {file.temp})[file.target := fs.files[file.temp]]))
  {
    hide Owned, HashMatchesDisk;
  }

  /** A transfer is completed exactly when it is this one, no file is open, the announced bytes came
      and the hash is the announced one in either case of its letters; its outcome is what was counted. */
  lemma CompleteAccepted(sha: Digest, rx: Rx, fs: Fs, id: string)
    ensures var s := CompleteStep(sha, rx, fs, id);
            && (s.result.Ok? <==>
                  && id == rx.id && rx.active.None? && rx.bytes == rx.total
                  && LowerAscii(ToHex(sha(rx.hashed))) == LowerAscii(rx.expectedHash))
            && (s.result.Ok? ==>
                  && s.result.value == Outcome(rx.bytes, rx.files, ToHex(sha(rx.hashed)))
                  && s.rx == rx.(completed := true) && s.fs == fs)
            && (s.result.Err? ==> s.rx == rx && s.fs == fs)
  {
  }

  /** Every other kind of message is an error. */
  lemma OthersAreRefused(sha: Digest, rx: Rx, fs: Fs, ev: Event)
    requires match ev.message
             case Directory(_, _) | FileStart(_, _, _) | FileChunk(_, _, _) => false
             case FileComplete(_) | TransferComplete(_) => false
             case _ => true
    ensures Handle(sha, rx, fs, ev).result.Err? && Handle(sha, rx, fs, ev).rx == rx && Handle(sha, rx, fs, ev).fs == fs
  {
  }

  // ---------- which error a refused message meets ----------

  /** The message is of a kind that belongs to a transfer, and to this one. */
  predicate Belongs(rx: Rx, m: Message) {
    (m.Directory? || m.FileStart? || m.FileChunk? || m.FileComplete? || m.TransferComplete?) && m.id == rx.id
  }

  /** It reaches the limit on entries: nothing else is wrong before that. */
  predicate Counted(rx: Rx, m: Message) {
    && Belongs(rx, m) && rx.active.None?
    && (m.Directory? || (m.FileStart? && rx.bytes + m.size <= rx.total))
  }

  /** It reaches the path policy. */
  predicate Judged(rx: Rx, m: Message) { Counted(rx, m) && rx.entries < 10_000 }

  /** A chunk that continues the open file. */
  predicate Continues(rx: Rx, m: Message) {
    && Belongs(rx, m) && m.FileChunk? && |m.data| <= 65536 && rx.active.Some? && m.offset == rx.active.value.offset
  }

  /** Told from the error: for each there is, exactly which messages of a healthy transfer meet it. What
      is left is a failure of the system or of the tree. */
  lemma ErrorsExactly(sha: Digest, rx: Rx, fs: Fs, ev: Event, base: map<Path, seq<byte>>)
    requires Healthy(rx, fs, base)
    ensures var m, r := ev.message, Handle(sha, rx, fs, ev).result;
            && (r == Err(SizeMismatch) <==>
                  || (Belongs(rx, m) && rx.active.None? && m.FileStart? && rx.bytes + m.size > rx.total)
                  || (Continues(rx, m) && !ev.fault.WriteFails? && m.offset + |m.data| > rx.active.value.expected)
                  || (Belongs(rx, m) && m.FileComplete? && rx.active.Some?
                      && rx.active.value.offset != rx.active.value.expected)
                  || (Belongs(rx, m) && m.TransferComplete? && rx.active.None? && rx.bytes != rx.total))
            && (r == Err(HashMismatch) <==>
                  && Belongs(rx, m) && m.TransferComplete? && rx.active.None? && rx.bytes == rx.total
                  && LowerAscii(ToHex(sha(rx.hashed))) != LowerAscii(rx.expectedHash))
            && (r == Err(FileCountLimitExceeded) <==> Counted(rx, m) && rx.entries >= 10_000)
            && (forall why :: r == Err(Policy(why)) <==>
                  Judged(rx, m) && WriteTarget(fs, rx.folder, m.relative) == Err(why))
            && (forall t :: r == Err(DestinationExists(t)) <==>
                  && Judged(rx, m) && WriteTarget(fs, rx.folder, m.relative) == Ok(t)
                  && var named := PathPolicy.EndingOf(m.relative).InName?;
                     if m.Directory? then t !in fs.dirs && named && t in fs.files
                     else t in fs.dirs || (named && t in fs.files) || t in rx.targets)
            && (r.Err? && r.error.ProtocolError? <==>
                  || !Belongs(rx, m)
                  || (rx.active.Some? && (m.Directory? || m.FileStart? || m.TransferComplete?))
                  || (rx.active.None? && m.FileComplete?)
                  || (m.FileChunk? && !Continues(rx, m)))
            && r != Err(Cancelled) && r != Err(SizeLimitExceeded) && (forall f :: r != Err(FolderNotFound(f)))
  {
    hide Owned, HashMatchesDisk, Reserved, PathPolicy.EndingOf, PathPolicy.Names, PathPolicy.RelativeError, WriteTarget,
      TempPath, ToHex, LowerAscii, MkdirAllOr;
  }
}
