/** The receiver as the daemon runs it: an engine object, an incoming transfer updated in place by
    each message, and the loop that serves one connection. */
module Incoming {
  import opened Base
  import opened Text
  import opened FileSystem
  import opened Protocol
  import opened Receiver
  import C = Connections
  import PathPolicy

  /** The operating system's view of the destination. */
  class Disk {
    var fs: Fs

    constructor (fs: Fs)
      ensures this.fs == fs
    {
      this.fs := fs;
    }
  }

  class TransferEngine {
    const folders: map<string, Folder>
    const sha: Digest
    const disk: Disk
    var completed: map<string, Outcome>

    constructor (folders: map<string, Folder>, sha: Digest, disk: Disk)
      ensures this.folders == folders && this.sha == sha && this.disk == disk && completed == map[]
    {
      this.folders, this.sha, this.disk := folders, sha, disk;
      completed := map[];
    }

    function State(): C.Engine
      reads this, disk
    {
      C.Engine(disk.fs, completed)
    }

    /** Answers a manifest; a fresh transfer object is made only when content may follow. */
    method BeginIncoming(m: C.Manifest) returns (start: C.Start, transfer: IncomingTransfer?)
      ensures start == C.Begin(folders, State(), m)
      ensures start.Ready? <==> transfer != null
      ensures transfer != null ==> fresh(transfer) && transfer.engine == this && transfer.State() == start.rx
    {
      transfer := null;
      if m.key in completed {
        return C.Completed(completed[m.key]), null;
      }
      if m.total > MAX_TRANSFER_BYTES {
        return C.Refused(SizeLimitExceeded), null;
      }
      if m.folder !in folders {
        return C.Refused(FolderNotFound(m.folder)), null;
      }
      var destination := folders[m.folder];
      match WriteTarget(disk.fs, destination, ".")
      case Err(reason) => return C.Refused(Policy(reason)), null;
      case Ok(_) =>
        transfer := new IncomingTransfer(this, m.id, m.key, destination, m.total, m.sha256);
        start := C.Ready(NewRx(m.id, m.key, destination, m.total, m.sha256));
    }
  }

  class IncomingTransfer {
    const engine: TransferEngine
    const id: string
    const key: string
    const folder: Folder
    const total: nat
    const expectedHash: string
    var bytes: nat
    var files: nat
    var hashed: seq<byte>
    var active: Option<Active>
    var started: nat
    var entries: nat
    var targets: set<Path>
    var committed: seq<Path>
    var completed: bool

    constructor (engine: TransferEngine, id: string, key: string, folder: Folder, total: nat, expectedHash: string)
      ensures this.engine == engine && State() == NewRx(id, key, folder, total, expectedHash)
    {
      this.engine := engine;
      this.id, this.key, this.folder, this.total, this.expectedHash := id, key, folder, total, expectedHash;
      bytes, files, hashed, active := 0, 0, [], None;
      started, entries, targets, committed, completed := 0, 0, {}, [], false;
    }

    function State(): Rx
      reads this
    {
      Rx(id, key, folder, total, expectedHash, bytes, files, hashed, active, started, entries, targets, committed,
         completed)
    }

    method ReserveEntry() returns (ok: bool)
      modifies this`entries
      ensures ok == (old(entries) < MAX_TRANSFER_FILES)
      ensures entries == if ok then old(entries) + 1 else old(entries)
    {
      if entries >= MAX_TRANSFER_FILES {
        return false;
      }
      entries := entries + 1;
      return true;
    }

    method ReserveFile() returns (ok: bool)
      modifies this`entries, this`started
      ensures ok == (old(started) < MAX_TRANSFER_FILES && old(entries) < MAX_TRANSFER_FILES)
      ensures entries == if ok then old(entries) + 1 else old(entries)
      ensures started == if ok then old(started) + 1 else old(started)
    {
      if started >= MAX_TRANSFER_FILES {
        return false;
      }
      ok := ReserveEntry();
      if ok {
        started := started + 1;
      }
    }

    method CreateDirAll(p: Path, ending: PathPolicy.Ending, fault: Fault) returns (ok: bool)
      modifies engine.disk
      ensures (engine.disk.fs, ok) == MkdirAllAs(old(engine.disk.fs), p, ending, fault)
    {
      var (fs, made) := MkdirAllAs(engine.disk.fs, p, ending, fault);
      engine.disk.fs := fs;
      ok := made;
    }

    method Directory(messageId: string, relative: string, fault: Fault) returns (r: Result<(), TransferError>)
      modifies this, engine.disk
      ensures Step(State(), engine.disk.fs, r)
           == DirectoryStep(old(State()), old(engine.disk.fs), messageId, relative, fault)
    {
      hide PathPolicy.Names, PathPolicy.RelativeError, PathPolicy.EndingOf, MkdirAllOr;
      if id != messageId {
        return Err(WRONG_TRANSFER);
      }
      if active.Some? {
        return Err(OPEN_ON_DIRECTORY);
      }
      var reserved := ReserveEntry();
      if !reserved {
        return Err(FileCountLimitExceeded);
      }
      match WriteTarget(engine.disk.fs, folder, relative)
      case Err(e) => return Err(Policy(e));
      case Ok(target) =>
        var ending := PathPolicy.EndingOf(relative);
        if Occupied(engine.disk.fs, target, ending) && target !in engine.disk.fs.dirs {
          return Err(DestinationExists(target));
        }
        var made := CreateDirAll(target, ending, fault);
        r := if made then Ok(()) else Err(Io);
    }

    method FileStart(messageId: string, relative: string, size: nat, stamp: string, fault: Fault)
      returns (r: Result<(), TransferError>)
      modifies this, engine.disk
      ensures Step(State(), engine.disk.fs, r)
           == FileStartStep(old(State()), old(engine.disk.fs), messageId, relative, size, stamp, fault)
    {
      hide PathPolicy.Names, PathPolicy.RelativeError, PathPolicy.EndingOf, OpenTemp;
      if id != messageId {
        return Err(WRONG_TRANSFER);
      }
      if active.Some? {
        return Err(OPEN_ON_START);
      }
      if size > SaturatingSub(total, bytes) {
        return Err(SizeMismatch);
      }
      var reserved := ReserveFile();
      if !reserved {
        return Err(FileCountLimitExceeded);
      }
      match WriteTarget(engine.disk.fs, folder, relative)
      case Err(e) => return Err(Policy(e));
      case Ok(target) =>
        var ending := PathPolicy.EndingOf(relative);
        if Occupied(engine.disk.fs, target, ending) || target in targets {
          return Err(DestinationExists(target));
        }
        assert target == [] ==> folder.root == target;
        r := OpenTempFile(target, ending, size, stamp, fault);
    }

    /** Makes the target's directory and opens a new temporary sibling in it. */
    method OpenTempFile(target: Path, ending: PathPolicy.Ending, size: nat, stamp: string, fault: Fault)
      returns (r: Result<(), TransferError>)
      requires target != []
      modifies this`targets, this`active, engine.disk
      ensures Step(State(), engine.disk.fs, r)
           == OpenTemp(old(State()), old(engine.disk.fs), target, ending, size, stamp, fault)
    {
      targets := targets + {target};
      var made := CreateDirAll(Parent(target), PathPolicy.InName, fault);
      if !made {
        return Err(Io);
      }
      var temp := TempPath(target, stamp);
      if Exists(engine.disk.fs, temp) || fault.OpenFails? {
        return Err(Io);
      }
      engine.disk.fs := engine.disk.fs.(files := engine.disk.fs.files[temp := []]);
      active := Some(Active(target, ending, temp, size, 0));
      r := Ok(());
    }

    method Chunk(messageId: string, offset: nat, data: seq<byte>, fault: Fault) returns (r: Result<(), TransferError>)
      modifies this, engine.disk
      ensures Step(State(), engine.disk.fs, r)
           == ChunkStep(old(State()), old(engine.disk.fs), messageId, offset, data, fault)
    {
      hide PathPolicy.Names, PathPolicy.RelativeError, PathPolicy.EndingOf;
      if id != messageId {
        return Err(WRONG_TRANSFER);
      }
      if |data| > CHUNK_SIZE {
        return Err(CHUNK_TOO_LONG);
      }
      if active.None? {
        return Err(CHUNK_WITHOUT_FILE);
      }
      var file := active.value;
      if file.offset != offset {
        return Err(CHUNK_OUT_OF_ORDER);
      }
      var fs := engine.disk.fs;
      var soFar := if file.temp in fs.files then fs.files[file.temp] else [];
      if fault.WriteFails? {
        var written := if fault.written < |data| then fault.written else |data|;
        engine.disk.fs := fs.(files := fs.files[file.temp := soFar + data[..written]]);
        return Err(Io);
      }
      engine.disk.fs := fs.(files := fs.files[file.temp := soFar + data]);
      active := Some(file.(offset := file.offset + |data|));
      if active.value.offset > file.expected {
        return Err(SizeMismatch);
      }
      bytes := bytes + |data|;
      if bytes > total {
        return Err(SizeMismatch);
      }
      hashed := hashed + data;
      r := Ok(());
    }

    method FileComplete(messageId: string, fault: Fault) returns (r: Result<(), TransferError>)
      modifies this, engine.disk
      ensures Step(State(), engine.disk.fs, r)
           == FileCompleteStep(old(State()), old(engine.disk.fs), messageId, fault)
    {
      if id != messageId {
        return Err(WRONG_TRANSFER);
      }
      if active.None? {
        return Err(COMPLETE_WITHOUT_FILE);
      }
      var file := active.value;
      active := None;
      if file.offset != file.expected {
        engine.disk.fs := Remove(engine.disk.fs, {file.temp});
        return Err(SizeMismatch);
      }
      if fault.SyncFails? || fault.RenameFails? {
        return Err(Io);
      }
      match Rename(engine.disk.fs, file.temp, file.target, file.ending)
      case None => return Err(Io);
      case Some(fs) =>
        engine.disk.fs := fs;
        committed := committed + [file.target];
        files := files + 1;
        r := Ok(());
    }

    method Complete(messageId: string) returns (r: Result<Outcome, TransferError>)
      modifies this, engine`completed
      ensures Step(State(), engine.disk.fs, r)
           == CompleteStep(engine.sha, old(State()), old(engine.disk.fs), messageId)
      ensures engine.completed == if r.Ok? then old(engine.completed)[key := r.value] else old(engine.completed)
    {
      if id != messageId {
        return Err(WRONG_TRANSFER);
      }
      if active.Some? {
        return Err(OPEN_ON_COMPLETE);
      }
      if bytes != total {
        return Err(SizeMismatch);
      }
      var outcome := Outcome(bytes, files, ToHex(engine.sha(hashed)));
      if LowerAscii(outcome.sha256) != LowerAscii(expectedHash) {
        return Err(HashMismatch);
      }
      engine.completed := engine.completed[key := outcome];
      completed := true;
      r := Ok(outcome);
    }

    /** Rolls back: the open temporary file, then the committed files from last to first. */
    method Drop()
      modifies this`active, engine.disk
      ensures engine.disk.fs == Dropped(old(State()), old(engine.disk.fs))
    {
      ghost var before := engine.disk.fs;
      ghost var temps := TempSet(State());
      if active.Some? {
        engine.disk.fs := Remove(engine.disk.fs, {active.value.temp});
        active := None;
      }
      assert engine.disk.fs == Remove(before, temps) by {
        assert before.files - {} == before.files;
      }
      if !completed {
        ghost var gone: set<Path> := {};
        for i := |committed| downto 0
          invariant gone == SetOf(committed[i..])
          invariant engine.disk.fs == Remove(before, temps + gone)
        {
          assert committed[i..] == [committed[i]] + committed[i + 1..];
          assert before.files - (temps + gone) - {committed[i]} == before.files - (temps + (gone + {committed[i]}));
          engine.disk.fs := Remove(engine.disk.fs, {committed[i]});
          gone := gone + {committed[i]};
        }
        assert committed[0..] == committed;
      } else {
        assert temps + {} == temps;
      }
    }

    /** Dispatches one received message. */
    method HandleMessage(ev: Event) returns (r: Result<Option<Outcome>, TransferError>)
      modifies this, engine`completed, engine.disk
      ensures Step(State(), engine.disk.fs, r)
           == Handle(engine.sha, old(State()), old(engine.disk.fs), ev)
      ensures engine.completed
           == match r { case Ok(Some(o)) => old(engine.completed)[key := o] case _ => old(engine.completed) }
    {
      var quiet: Result<(), TransferError>;
      match ev.message {
        case Directory(messageId, relative) => quiet := Directory(messageId, relative, ev.fault);
        case FileStart(messageId, relative, size) => quiet := FileStart(messageId, relative, size, ev.stamp, ev.fault);
        case FileChunk(messageId, offset, data) => quiet := Chunk(messageId, offset, data, ev.fault);
        case FileComplete(messageId) => quiet := FileComplete(messageId, ev.fault);
        case TransferComplete(messageId) =>
          var done := Complete(messageId);
          match done {
            case Ok(o) => return Ok(Some(o));
            case Err(e) => return Err(e);
          }
        case _ => return Err(UNEXPECTED);
      }
      r := match quiet { case Ok(_) => Ok(None) case Err(e) => Err(e) };
    }
  }

  /** Serves one connection: the manifest, then messages until the transfer ends or the peer is lost.
      The transfer object is dropped on every way out. */
  method ReceiveSocketTransfer(engine: TransferEngine, m: C.Manifest, inbox: seq<Event>)
    returns (replies: seq<Message>, commit: Option<Outcome>)
    modifies engine`completed, engine.disk
    ensures C.Served(engine.State(), replies, commit)
         == C.Serve(engine.sha, engine.folders, old(engine.State()), C.Connection(m, inbox))
  {
    ghost var fs0, completed0 := engine.disk.fs, engine.completed;
    var start, incoming := engine.BeginIncoming(m);
    match start {
      case Completed(outcome) => return [ResultMessage(m.id, outcome)], None;
      case Refused(_) => return [TransferRejected(m.id)], None;
      case Ready(_) =>
    }
    var transfer: IncomingTransfer := incoming;
    ghost var rx0 := transfer.State();
    replies := [TransferReady(m.id)];
    assert inbox[0..] == inbox;
    var i := 0;
    while i < |inbox| && !inbox[i].message.Cancel?
      invariant i <= |inbox| && fresh(transfer) && transfer.engine == engine
      invariant engine.completed == completed0 && transfer.id == m.id && transfer.key == m.key
      invariant Run(engine.sha, transfer.State(), engine.disk.fs, inbox[i..])
             == Run(engine.sha, rx0, fs0, inbox)
    {
      assert inbox[i..][0] == inbox[i] && inbox[i..][1..] == inbox[i + 1..];
      var outcome := transfer.HandleMessage(inbox[i]);
      match outcome {
        case Ok(None) =>
        case Ok(Some(o)) =>
          transfer.Drop();
          return replies + [ResultMessage(m.id, o)], Some(o);
        case Err(_) =>
          transfer.Drop();
          return replies + [TransferRejected(m.id)], None;
      }
      i := i + 1;
    }
    assert i < |inbox| ==> inbox[i..][0] == inbox[i];
    transfer.Drop();
    assert replies + [] == replies;
    return replies, None;
  }
}
