/** The streamed protocol against the direct copy: an honest stream is accepted exactly when copying
    the same entries directly succeeds, and then both leave the same tree. */
module Refinement {
  import opened Base
  import opened Text
  import opened FileSystem
  import opened Protocol
  import opened Receiver
  import opened Sources
  import opened Streaming
  import opened Copying
  import C = Connections
  import PathPolicy

  // ---------- an honest stream as the receiver sees it ----------

  function Stamped(messages: seq<Message>, stamp: string): (events: seq<Event>)
    ensures |events| == |messages|
    ensures forall i :: 0 <= i < |messages| ==> events[i] == Event(messages[i], stamp, NoFault)
  {
    seq(|messages|, i requires 0 <= i < |messages| => Event(messages[i], stamp, NoFault))
  }

  /** The items' messages, each item handled under its own clock stamp. */
  function ItemsEvents(id: string, loads: seq<Load>, stamps: seq<string>): seq<Event>
    requires |stamps| == |loads|
  {
    if loads == [] then []
    else Stamped(ItemMessages(id, loads[0]), stamps[0]) + ItemsEvents(id, loads[1..], stamps[1..])
  }

  function StreamEvents(id: string, loads: seq<Load>, stamps: seq<string>): seq<Event>
    requires |stamps| == |loads|
  {
    ItemsEvents(id, loads, stamps) + [Event(TransferComplete(id), "", NoFault)]
  }

  /** The events carry exactly the sender's stream. */
  lemma {:induction false} EventsCarryStream(id: string, loads: seq<Load>, stamps: seq<string>)
    requires |stamps| == |loads|
    ensures |ItemsEvents(id, loads, stamps)| == |ItemsMessages(id, loads)|
    ensures forall i :: 0 <= i < |ItemsMessages(id, loads)| ==>
              ItemsEvents(id, loads, stamps)[i].message == ItemsMessages(id, loads)[i]
              && ItemsEvents(id, loads, stamps)[i].fault == NoFault
  {
    if loads != [] {
      EventsCarryStream(id, loads[1..], stamps[1..]);
    }
  }

  /** What the item carries, as a direct copy would see it. */
  function EntryOf(load: Load): Entry {
    Entry(load.relative, load.isDir, if load.isDir then [] else Flatten(load.buffers))
  }

  function EntriesOf(loads: seq<Load>): (entries: seq<Entry>)
    ensures |entries| == |loads|
  {
    seq(|loads|, i requires 0 <= i < |loads| => EntryOf(loads[i]))
  }

  predicate Readable(load: Load) { load.isDir || ReadsOf(load.buffers) }

  // ---------- chunks ----------

  function WithData(rx: Rx, data: seq<byte>): Rx {
    if rx.active.None? then rx
    else rx.(active := Some(rx.active.value.(offset := rx.active.value.offset + |data|)),
             bytes := rx.bytes + |data|, hashed := rx.hashed + data)
  }

  function Appended(fs: Fs, temp: Path, data: seq<byte>): Fs {
    fs.(files := fs.files[temp := (if temp in fs.files then fs.files[temp] else []) + data])
  }

  ghost predicate Open(rx: Rx, fs: Fs) {
    && rx.active.Some?
    && rx.active.value.temp in fs.files
    && rx.active.value.offset <= rx.bytes
    && rx.bytes - rx.active.value.offset + rx.active.value.expected <= rx.total
  }

  lemma OneChunk(sha: Digest, rx: Rx, fs: Fs, data: seq<byte>, stamp: string)
    requires Open(rx, fs) && |data| <= CHUNK_SIZE
    ensures var file := rx.active.value;
            var s := Handle(sha, rx, fs, Event(FileChunk(rx.id, file.offset, data), stamp, NoFault));
            if file.offset + |data| <= file.expected
            then s == Step(WithData(rx, data), Appended(fs, file.temp, data), Ok(None))
                 && Open(s.rx, s.fs)
            else s.result.Err?
  {
  }

  /** Handling one message and going on with the rest. */
  lemma RunStep(sha: Digest, rx: Rx, fs: Fs, ev: Event, rest: seq<Event>)
    requires !ev.message.Cancel?
    ensures var s := Handle(sha, rx, fs, ev);
            && (s.result == Ok(None) ==> Run(sha, rx, fs, [ev] + rest) == Run(sha, s.rx, s.fs, rest))
            && (s.result.Err? ==> Run(sha, rx, fs, [ev] + rest).outcome.None?)
  {
    assert ([ev] + rest)[1..] == rest;
  }

  lemma ChunkEvents(id: string, offset: nat, buffers: seq<seq<byte>>, stamp: string, rest: seq<Event>)
    requires buffers != []
    ensures Stamped(Chunks(id, offset, buffers), stamp) + rest
         == [Event(FileChunk(id, offset, buffers[0]), stamp, NoFault)]
            + (Stamped(Chunks(id, offset + |buffers[0]|, buffers[1..]), stamp) + rest)
  {
  }

  lemma AppendTwice(rx: Rx, fs: Fs, temp: Path, a: seq<byte>, b: seq<byte>)
    requires rx.active.Some? && temp in fs.files
    ensures WithData(WithData(rx, a), b) == WithData(rx, a + b)
    ensures Appended(Appended(fs, temp, a), temp, b) == Appended(fs, temp, a + b)
    ensures WithData(rx, []) == rx && Appended(fs, temp, []) == fs
  {
    assert fs.files[temp] + a + b == fs.files[temp] + (a + b);
    assert rx.hashed + a + b == rx.hashed + (a + b);
    assert fs.files[temp := fs.files[temp] + a][temp := fs.files[temp] + (a + b)]
        == fs.files[temp := fs.files[temp] + (a + b)];
    assert fs.files[temp] + [] == fs.files[temp] && rx.hashed + [] == rx.hashed;
    assert fs.files[temp := fs.files[temp]] == fs.files;
  }

  /** The first of a file's chunks. */
  lemma FirstChunk(sha: Digest, rx: Rx, fs: Fs, buffers: seq<seq<byte>>, stamp: string, rest: seq<Event>)
    requires Open(rx, fs) && ReadsOf(buffers) && buffers != []
    ensures var file, first := rx.active.value, buffers[0];
            var all := Stamped(Chunks(rx.id, file.offset, buffers), stamp) + rest;
            var more := Stamped(Chunks(rx.id, file.offset + |first|, buffers[1..]), stamp) + rest;
            if file.offset + |first| <= file.expected
            then Run(sha, rx, fs, all) == Run(sha, WithData(rx, first), Appended(fs, file.temp, first), more)
                 && Open(WithData(rx, first), Appended(fs, file.temp, first))
            else Run(sha, rx, fs, all).outcome.None?
    ensures Flatten(buffers) == buffers[0] + Flatten(buffers[1..]) && ReadsOf(buffers[1..])
  {
    hide Run, Handle, Appended, WithData, Open, Chunks;
    OpenIsActive(rx, fs);
    var file, first := rx.active.value, buffers[0];
    ChunkEvents(rx.id, file.offset, buffers, stamp, rest);
    OneChunk(sha, rx, fs, first, stamp);
    RunStep(sha, rx, fs, Event(FileChunk(rx.id, file.offset, first), stamp, NoFault),
            Stamped(Chunks(rx.id, file.offset + |first|, buffers[1..]), stamp) + rest);
  }

  lemma OpenIsActive(rx: Rx, fs: Fs)
    requires Open(rx, fs)
    ensures rx.active.Some?
  {
  }

  /** A file's chunks that fit advance the transfer by their joined bytes. */
  lemma {:induction false} ChunksFit(sha: Digest, rx: Rx, fs: Fs, buffers: seq<seq<byte>>, stamp: string,
                                     rest: seq<Event>)
    requires Open(rx, fs) && ReadsOf(buffers)
    requires rx.active.value.offset + |Flatten(buffers)| <= rx.active.value.expected
    ensures Run(sha, rx, fs, Stamped(Chunks(rx.id, rx.active.value.offset, buffers), stamp) + rest)
         == Run(sha, WithData(rx, Flatten(buffers)), Appended(fs, rx.active.value.temp, Flatten(buffers)), rest)
    decreases |buffers|
  {
    hide Run;
    var file := rx.active.value;
    if buffers == [] {
      assert Stamped(Chunks(rx.id, file.offset, buffers), stamp) + rest == rest;
      AppendTwice(rx, fs, file.temp, [], []);
    } else {
      hide Appended, Chunks, Flatten, ReadsOf;
      var first, others := buffers[0], buffers[1..];
      FirstChunk(sha, rx, fs, buffers, stamp, rest);
      ChunksFit(sha, WithData(rx, first), Appended(fs, file.temp, first), others, stamp, rest);
      AppendTwice(rx, fs, file.temp, first, Flatten(others));
    }
  }

  /** Chunks that exceed the announced size end the transfer uncommitted. */
  lemma {:induction false} ChunksOverflow(sha: Digest, rx: Rx, fs: Fs, buffers: seq<seq<byte>>, stamp: string,
                                          rest: seq<Event>)
    requires Open(rx, fs) && ReadsOf(buffers) && rx.active.value.offset <= rx.active.value.expected
    requires rx.active.value.offset + |Flatten(buffers)| > rx.active.value.expected
    ensures Run(sha, rx, fs, Stamped(Chunks(rx.id, rx.active.value.offset, buffers), stamp) + rest).outcome.None?
    decreases |buffers|
  {
    hide Run, Appended, Chunks, ReadsOf;
    assert buffers != [];
    hide Flatten;
    var file, first := rx.active.value, buffers[0];
    FirstChunk(sha, rx, fs, buffers, stamp, rest);
    if file.offset + |first| <= file.expected {
      ChunksOverflow(sha, WithData(rx, first), Appended(fs, file.temp, first), buffers[1..], stamp, rest);
    }
  }

  // ---------- items ----------

  function TargetOf(rx: Rx, e: Entry): Path { rx.folder.root + PathPolicy.Names(e.relative) }

  /** The transfer after an accepted item. */
  function After(rx: Rx, e: Entry): Rx {
    if e.isDir then rx.(entries := rx.entries + 1)
    else rx.(bytes := rx.bytes + |e.content|, files := rx.files + 1, hashed := rx.hashed + e.content,
             started := rx.started + 1, entries := rx.entries + 1,
             targets := rx.targets + {TargetOf(rx, e)}, committed := rx.committed + [TargetOf(rx, e)])
  }

  /** Between items: no file open, budget and entry counts not exhausted by `more` entries. */
  ghost predicate Between(rx: Rx, fs: Fs, more: nat) {
    && rx.active.None? && rx.bytes <= rx.total
    && rx.started <= rx.entries && rx.entries + more <= MAX_TRANSFER_FILES
    && rx.targets <= fs.files.Keys
  }

  lemma {:induction false} AncestorsAreDirs(fs: Fs, p: Path, q: Path)
    requires WellFormed(fs) && Exists(fs, p) && q <= p && q != p
    ensures q in fs.dirs
    decreases |p|
  {
    assert q <= Parent(p);
    if q != Parent(p) {
      AncestorsAreDirs(fs, Parent(p), q);
    }
  }

  lemma DirItemRun(sha: Digest, rx: Rx, fs: Fs, load: Load, stamp: string, rest: seq<Event>)
    requires Between(rx, fs, 1) && WellFormed(fs) && load.isDir
    ensures var one := CopyOne(fs, rx.folder, EntryOf(load), stamp);
            var all := Stamped(ItemMessages(rx.id, load), stamp) + rest;
            if one.result.Ok? then Run(sha, rx, fs, all) == Run(sha, After(rx, EntryOf(load)), one.fs, rest)
            else Run(sha, rx, fs, all).outcome.None?
  {
    hide PathPolicy.Names, PathPolicy.RelativeError, PathPolicy.EndingOf, CopyFile;
    var all := Stamped(ItemMessages(rx.id, load), stamp) + rest;
    assert all[0] == Event(Directory(rx.id, load.relative), stamp, NoFault) && all[1..] == rest;
    var target := WriteTarget(fs, rx.folder, load.relative);
    if target.Ok? && target.value in fs.dirs {
      forall q | q in Prefixes(target.value) ensures q in fs.dirs {
        if q != target.value {
          AncestorsAreDirs(fs, target.value, q);
        }
      }
      assert fs.dirs + Prefixes(target.value) == fs.dirs;
    }
  }

  /** The state in which a file item's chunks arrive. */
  function Opened(rx: Rx, fs: Fs, load: Load, stamp: string): Step<()> {
    FileStartStep(rx, fs, rx.id, load.relative, load.size, stamp, NoFault)
  }

  lemma StartMatchesCopy(rx: Rx, fs: Fs, load: Load, stamp: string)
    requires Between(rx, fs, 1) && !load.isDir && PathPolicy.EndingOf(load.relative).InName?
    ensures var target := TargetOf(rx, EntryOf(load));
            var s := Opened(rx, fs, load, stamp);
            if load.size <= rx.total - rx.bytes && CopyOne(fs, rx.folder, EntryOf(load), stamp).result.Ok?
            then
              var temp := if target != [] then TempPath(target, stamp) else [];
              && target != [] && !Exists(fs, target)
              && MkdirAll(fs, Parent(target)).Ok?
              && var fs1 := MkdirAll(fs, Parent(target)).value;
                 && !Exists(fs1, temp)
                 && s == Step(rx.(entries := rx.entries + 1, started := rx.started + 1,
                                  targets := rx.targets + {target},
                                  active := Some(Active(target, PathPolicy.InName, temp, load.size, 0))),
                              fs1.(files := fs1.files[temp := []]), Ok(()))
                 && CopyOne(fs, rx.folder, EntryOf(load), stamp).fs
                 == fs1.(files := fs1.files[target := Flatten(load.buffers)])
            else s.result.Err?
  {
    var target := TargetOf(rx, EntryOf(load));
    assert target == [] ==> rx.folder.root == target;
    if StartAdmitted(rx, fs, rx.id, load.relative, load.size) {
      AdmittedStart(rx, fs, rx.id, load.relative, load.size, stamp, NoFault);
    } else {
      RefusedStart(rx, fs, rx.id, load.relative, load.size, stamp, NoFault);
    }
  }

  lemma FinishFile(rx: Rx, fs: Fs, target: Path, temp: Path, size: nat, content: seq<byte>)
    requires rx.active == Some(Active(target, PathPolicy.InName, temp, size, |content|)) && temp in fs.files
    requires fs.files[temp] == content && target !in fs.dirs && target !in fs.files
    ensures var s := FileCompleteStep(rx, fs, rx.id, NoFault);
            if |content| == size then
              s == Step(rx.(active := None, committed := rx.committed + [target], files := rx.files + 1),
                        fs.(files := (fs.files - {temp})[target := content]), Ok(()))
            else s.result.Err?
  {
  }

  lemma FileItemEnds(sha: Digest, rx: Rx, fs: Fs, target: Path, temp: Path, size: nat, data: seq<byte>,
                     stamp: string, rest: seq<Event>)
    requires rx.active == Some(Active(target, PathPolicy.InName, temp, size, |data|))
    requires temp in fs.files && fs.files[temp] == data
    requires target !in fs.dirs && target !in fs.files
    ensures var r := Run(sha, rx, fs, [Event(FileComplete(rx.id), stamp, NoFault)] + rest);
            if |data| == size then
              r == Run(sha, rx.(active := None, committed := rx.committed + [target], files := rx.files + 1),
                       fs.(files := (fs.files - {temp})[target := data]), rest)
            else r.outcome.None?
  {
    FinishFile(rx, fs, target, temp, size, data);
    RunStep(sha, rx, fs, Event(FileComplete(rx.id), stamp, NoFault), rest);
  }

  /** The tree between opening a file and completing it differs from the start by the temporary file. */
  lemma TempComesAndGoes(fs: Fs, temp: Path, target: Path, data: seq<byte>)
    requires temp !in fs.files && temp != target
    ensures (fs.files[temp := []][temp := data] - {temp})[target := data] == fs.files[target := data]
  {
    assert fs.files[temp := []][temp := data] - {temp} == fs.files;
  }

  lemma FileEvents(id: string, load: Load, stamp: string, rest: seq<Event>)
    requires !load.isDir
    ensures Stamped(ItemMessages(id, load), stamp) + rest
         == [Event(FileStart(id, load.relative, load.size), stamp, NoFault)]
            + (Stamped(Chunks(id, 0, load.buffers), stamp)
               + ([Event(FileComplete(id), stamp, NoFault)] + rest))
  {
  }

  /** A file item is accepted exactly when the direct copy of what was read succeeds and the bytes
      read are as many as announced and still within the manifest. */
  lemma FileItemRun(sha: Digest, rx: Rx, fs: Fs, load: Load, stamp: string, rest: seq<Event>)
    requires Between(rx, fs, 1) && !load.isDir && ReadsOf(load.buffers)
    ensures var e := EntryOf(load);
            var one := CopyOne(fs, rx.folder, e, stamp);
            var all := Stamped(ItemMessages(rx.id, load), stamp) + rest;
            if one.result.Ok? && load.size == |e.content| && load.size <= rx.total - rx.bytes
            then Run(sha, rx, fs, all) == Run(sha, After(rx, e), one.fs, rest)
            else Run(sha, rx, fs, all).outcome.None?
  {
    hide PathPolicy.Names, PathPolicy.EndingOf, PathPolicy.RelativeError;
    var tail := [Event(FileComplete(rx.id), stamp, NoFault)] + rest;
    var more := Stamped(Chunks(rx.id, 0, load.buffers), stamp) + tail;
    FileEvents(rx.id, load, stamp, rest);
    if PathPolicy.EndingOf(load.relative).InName? {
      StartMatchesCopy(rx, fs, load, stamp);
    } else {
      NamelessFails(fs, rx.folder, EntryOf(load), stamp);
    }
    RunStep(sha, rx, fs, Event(FileStart(rx.id, load.relative, load.size), stamp, NoFault), more);
    var s := Opened(rx, fs, load, stamp);
    if s.result.Ok? {
      if PathPolicy.EndingOf(load.relative).InName? {
        FileItemBody(sha, rx, fs, s, load, stamp, rest);
      } else {
        NamelessBody(sha, rx, fs, s, load, stamp, rest);
      }
    }
  }

  /** A file is never copied to a path that does not end in a name ... */
  lemma NamelessFails(fs: Fs, folder: Folder, e: Entry, stamp: string)
    requires !e.isDir && !PathPolicy.EndingOf(e.relative).InName?
    ensures CopyOne(fs, folder, e, stamp).result.Err?
  {
    hide PathPolicy.Names, PathPolicy.EndingOf, PathPolicy.RelativeError, TempPath;
  }

  /** ... nor received there: when it is started, its completion fails. */
  lemma NamelessBody(sha: Digest, rx: Rx, fs: Fs, s: Step<()>, load: Load, stamp: string, rest: seq<Event>)
    requires Between(rx, fs, 1) && !load.isDir && ReadsOf(load.buffers)
    requires s == Opened(rx, fs, load, stamp) && s.result.Ok? && !PathPolicy.EndingOf(load.relative).InName?
    ensures Run(sha, s.rx, s.fs, Stamped(Chunks(rx.id, 0, load.buffers), stamp)
                                 + ([Event(FileComplete(rx.id), stamp, NoFault)] + rest)).outcome.None?
  {
    hide Run, Handle, Flatten, PathPolicy.Names, PathPolicy.EndingOf, PathPolicy.RelativeError, Chunks;
    NamelessStart(rx, fs, load, stamp);
    var data := Flatten(load.buffers);
    var tail := [Event(FileComplete(rx.id), stamp, NoFault)] + rest;
    if |data| <= load.size {
      ChunksFit(sha, s.rx, s.fs, load.buffers, stamp, tail);
      var rx1, fs1 := WithData(s.rx, data), Appended(s.fs, s.rx.active.value.temp, data);
      NamelessEnds(sha, rx1, fs1, Event(FileComplete(rx.id), stamp, NoFault));
      RunStep(sha, rx1, fs1, Event(FileComplete(rx.id), stamp, NoFault), rest);
    } else {
      ChunksOverflow(sha, s.rx, s.fs, load.buffers, stamp, tail);
    }
  }

  lemma NamelessStart(rx: Rx, fs: Fs, load: Load, stamp: string)
    requires Between(rx, fs, 1) && Opened(rx, fs, load, stamp).result.Ok?
    ensures var s := Opened(rx, fs, load, stamp);
            && s.rx.id == rx.id && Open(s.rx, s.fs)
            && s.rx.active.value.ending == PathPolicy.EndingOf(load.relative)
            && s.rx.active.value.offset == 0 && s.rx.active.value.expected == load.size
  {
    hide PathPolicy.Names, PathPolicy.EndingOf, PathPolicy.RelativeError, TempPath, MkdirAllOr;
    if StartAdmitted(rx, fs, rx.id, load.relative, load.size) {
      AdmittedStart(rx, fs, rx.id, load.relative, load.size, stamp, NoFault);
    } else {
      RefusedStart(rx, fs, rx.id, load.relative, load.size, stamp, NoFault);
    }
  }

  lemma NamelessEnds(sha: Digest, rx: Rx, fs: Fs, ev: Event)
    requires rx.active.Some? && !rx.active.value.ending.InName? && ev.message.FileComplete?
    ensures Handle(sha, rx, fs, ev).result.Err?
  {
  }

  lemma FileItemBody(sha: Digest, rx: Rx, fs: Fs, s: Step<()>, load: Load, stamp: string, rest: seq<Event>)
    requires Between(rx, fs, 1) && !load.isDir && ReadsOf(load.buffers)
    requires s == Opened(rx, fs, load, stamp) && s.result.Ok? && PathPolicy.EndingOf(load.relative).InName?
    ensures var e := EntryOf(load);
            var one := CopyOne(fs, rx.folder, e, stamp);
            var r := Run(sha, s.rx, s.fs, Stamped(Chunks(rx.id, 0, load.buffers), stamp)
                                          + ([Event(FileComplete(rx.id), stamp, NoFault)] + rest));
            if one.result.Ok? && load.size == |e.content| && load.size <= rx.total - rx.bytes
            then r == Run(sha, After(rx, e), one.fs, rest)
            else r.outcome.None?
  {
    StartMatchesCopy(rx, fs, load, stamp);
    var target := TargetOf(rx, EntryOf(load));
    var fs1 := MkdirAll(fs, Parent(target)).value;
    TempDiffers(target, stamp);
    assert target !in Prefixes(Parent(target));
    OpenedFileRuns(sha, rx, fs1, target, TempPath(target, stamp), load, stamp, rest);
  }

  lemma OpenedFileRuns(sha: Digest, rx: Rx, fs: Fs, target: Path, temp: Path, load: Load, stamp: string,
                       rest: seq<Event>)
    requires Between(rx, fs, 1) && !load.isDir && ReadsOf(load.buffers) && load.size <= rx.total - rx.bytes
    requires target == TargetOf(rx, EntryOf(load)) && temp != target && !Exists(fs, target) && !Exists(fs, temp)
    ensures var rx1 := rx.(entries := rx.entries + 1, started := rx.started + 1, targets := rx.targets + {target},
                           active := Some(Active(target, PathPolicy.InName, temp, load.size, 0)));
            var e := EntryOf(load);
            var r := Run(sha, rx1, fs.(files := fs.files[temp := []]),
                         Stamped(Chunks(rx.id, 0, load.buffers), stamp)
                         + ([Event(FileComplete(rx.id), stamp, NoFault)] + rest));
            if load.size == |e.content|
            then r == Run(sha, After(rx, e), fs.(files := fs.files[target := e.content]), rest)
            else r.outcome.None?
  {
    hide Run, Handle, Flatten, PathPolicy.Names, Chunks;
    assert rx.hashed + [] == rx.hashed;
    var rx1 := rx.(entries := rx.entries + 1, started := rx.started + 1, targets := rx.targets + {target},
                   active := Some(Active(target, PathPolicy.InName, temp, load.size, 0)));
    var fs1 := fs.(files := fs.files[temp := []]);
    var data := Flatten(load.buffers);
    var tail := [Event(FileComplete(rx.id), stamp, NoFault)] + rest;
    if |data| <= load.size {
      ChunksFit(sha, rx1, fs1, load.buffers, stamp, tail);
      assert [] + data == data;
      FileItemEnds(sha, WithData(rx1, data), Appended(fs1, temp, data), target, temp, load.size, data, stamp, rest);
      TempComesAndGoes(fs, temp, target, data);
    } else {
      ChunksOverflow(sha, rx1, fs1, load.buffers, stamp, tail);
    }
  }

  // ---------- whole streams ----------

  /** The announced sizes are the sizes read. */
  predicate SizesMatch(loads: seq<Load>) {
    forall i :: 0 <= i < |loads| && !loads[i].isDir ==> loads[i].size == |Flatten(loads[i].buffers)|
  }

  function AnnouncedBytes(loads: seq<Load>): nat {
    if loads == [] then 0 else (if loads[0].isDir then 0 else loads[0].size) + AnnouncedBytes(loads[1..])
  }

  lemma {:induction false} AnnouncedIsRead(loads: seq<Load>)
    requires SizesMatch(loads)
    ensures AnnouncedBytes(loads) == ByteSum(EntriesOf(loads))
  {
    if loads != [] {
      assert SizesMatch(loads[1..]);
      assert EntriesOf(loads)[1..] == EntriesOf(loads[1..]);
      AnnouncedIsRead(loads[1..]);
    }
  }

  function AfterAll(rx: Rx, entries: seq<Entry>): Rx
    decreases |entries|
  {
    if entries == [] then rx else AfterAll(After(rx, entries[0]), entries[1..])
  }

  lemma {:induction false} AfterAllCounts(rx: Rx, entries: seq<Entry>)
    requires DirsAreEmpty(entries)
    ensures var r := AfterAll(rx, entries);
            && r.bytes == rx.bytes + ByteSum(entries) && r.files == rx.files + FileCount(entries)
            && r.hashed == rx.hashed + HashInput(entries)
            && r.id == rx.id && r.key == rx.key && r.total == rx.total && r.expectedHash == rx.expectedHash
            && r.active == rx.active && r.folder == rx.folder && r.completed == rx.completed
    decreases |entries|
  {
    hide PathPolicy.Names;
    if entries == [] {
      assert rx.hashed + [] == rx.hashed;
    } else {
      var e, rest := entries[0], entries[1..];
      var rx1 := After(rx, e);
      assert DirsAreEmpty(rest) && (e.isDir ==> e.content == []);
      AfterAllCounts(rx1, rest);
      assert rx1.hashed == rx.hashed + e.content by {
        assert rx.hashed + [] == rx.hashed;
      }
      assert HashInput(entries) == e.content + HashInput(rest);
      assert rx.hashed + e.content + HashInput(rest) == rx.hashed + (e.content + HashInput(rest));
    }
  }

  /** Making the directories down to `p` keeps every entry in a directory. */
  lemma DirsKeepShape(fs: Fs, p: Path)
    requires WellFormed(fs) && !Blocked(fs, p)
    ensures WellFormed(fs.(dirs := fs.dirs + Prefixes(p))) && p in Prefixes(p)
  {
    var fs' := fs.(dirs := fs.dirs + Prefixes(p));
    forall q | Exists(fs', q) ensures Parent(q) in fs'.dirs {
      if q in Prefixes(p) {
        assert Parent(q) <= q;
        assert q == p[..|q|] && Parent(q) == p[..|Parent(q)|];
      }
    }
  }

  lemma FileKeepsShape(fs: Fs, target: Path, content: seq<byte>)
    requires WellFormed(fs) && target != [] && target !in fs.dirs && Parent(target) in fs.dirs
    ensures WellFormed(fs.(files := fs.files[target := content]))
  {
  }

  lemma CopyKeepsShape(fs: Fs, folder: Folder, e: Entry, stamp: string)
    requires WellFormed(fs) && CopyOne(fs, folder, e, stamp).result.Ok?
    ensures var fs' := CopyOne(fs, folder, e, stamp).fs;
            && WellFormed(fs') && fs.files.Keys <= fs'.files.Keys
            && (!e.isDir ==> folder.root + PathPolicy.Names(e.relative) in fs'.files)
  {
    hide WellFormed, PathPolicy.Names, PathPolicy.RelativeError, PathPolicy.EndingOf, TempPath;
    var target := folder.root + PathPolicy.Names(e.relative);
    if !Occupied(fs, target, PathPolicy.EndingOf(e.relative)) {
      assert target == [] ==> folder.root == target;
      if e.isDir {
        DirsKeepShape(fs, target);
      } else {
        var fs1 := MkdirAll(fs, Parent(target)).value;
        DirsKeepShape(fs, Parent(target));
        assert target !in Prefixes(Parent(target));
        FileKeepsShape(fs1, target, e.content);
      }
    }
  }

  lemma ItemRun(sha: Digest, rx: Rx, fs: Fs, load: Load, stamp: string, rest: seq<Event>)
    requires Between(rx, fs, 1) && WellFormed(fs) && Readable(load)
    ensures var e := EntryOf(load);
            var one := CopyOne(fs, rx.folder, e, stamp);
            var all := Stamped(ItemMessages(rx.id, load), stamp) + rest;
            if one.result.Ok? && (load.isDir || (load.size == |e.content| && load.size <= rx.total - rx.bytes))
            then Run(sha, rx, fs, all) == Run(sha, After(rx, e), one.fs, rest)
            else Run(sha, rx, fs, all).outcome.None?
  {
    hide Run, Handle;
    if load.isDir {
      DirItemRun(sha, rx, fs, load, stamp, rest);
    } else {
      FileItemRun(sha, rx, fs, load, stamp, rest);
    }
  }

  /** Streaming items one after another is copying them one after another; anything that stops the
      copy, or a file longer or shorter than announced, leaves the transfer uncommitted. */
  lemma {:induction false} ItemsRun(sha: Digest, rx: Rx, fs: Fs, loads: seq<Load>, stamps: seq<string>,
                                    rest: seq<Event>)
    requires |stamps| == |loads| && Between(rx, fs, |loads|) && WellFormed(fs)
    requires forall load :: load in loads ==> Readable(load)
    requires rx.bytes + AnnouncedBytes(loads) <= rx.total
    ensures var copied := CopyAll(fs, rx.folder, EntriesOf(loads), stamps);
            var all := ItemsEvents(rx.id, loads, stamps) + rest;
            if copied.result.Ok? && SizesMatch(loads)
            then Run(sha, rx, fs, all) == Run(sha, AfterAll(rx, EntriesOf(loads)), copied.fs, rest)
            else Run(sha, rx, fs, all).outcome.None?
    decreases |loads|
  {
    hide Run, Handle, CopyOne, Flatten, PathPolicy.Names, ItemMessages, ByteSum;
    if loads == [] {
      assert ItemsEvents(rx.id, loads, stamps) + rest == rest;
    } else {
      var load, e := loads[0], EntryOf(loads[0]);
      var entries := EntriesOf(loads);
      assert entries[0] == e && entries[1..] == EntriesOf(loads[1..]);
      var more := ItemsEvents(rx.id, loads[1..], stamps[1..]) + rest;
      var first := Stamped(ItemMessages(rx.id, load), stamps[0]);
      assert ItemsEvents(rx.id, loads, stamps) + rest == first + more;
      ItemRun(sha, rx, fs, load, stamps[0], more);
      var one := CopyOne(fs, rx.folder, e, stamps[0]);
      if one.result.Ok? && (load.isDir || load.size == |e.content|) {
        CopyKeepsShape(fs, rx.folder, e, stamps[0]);
        ItemsRun(sha, After(rx, e), one.fs, loads[1..], stamps[1..], rest);
        assert SizesMatch(loads) <==> SizesMatch(loads[1..]);
      }
    }
  }

  lemma FinishRun(sha: Digest, rx: Rx, fs: Fs)
    requires rx.active.None? && !rx.completed
    requires rx.bytes == rx.total && rx.expectedHash == ToHex(sha(rx.hashed))
    ensures var outcome := Outcome(rx.bytes, rx.files, rx.expectedHash);
            Run(sha, rx, fs, [Event(TransferComplete(rx.id), "", NoFault)])
            == Final(fs, Some(outcome), Some(ResultMessage(rx.id, outcome)))
  {
    assert fs.files - {} == fs.files;
    assert fs == fs.(files := fs.files - {});
  }

  /** Each item was prepared from an entry, and streaming reads that entry unchanged. */
  predicate HonestLoads(loads: seq<Load>, entries: seq<Entry>) {
    && EntriesOf(loads) == entries && SizesMatch(loads)
    && forall load :: load in loads ==> Readable(load)
  }

  function ManifestOf(p: Prepared): C.Manifest {
    C.Manifest(p.key, p.folder, p.key, p.total, p.sha256)
  }

  /** The honest stream of a prepared transfer as one connection to the receiver. */
  function HonestConnection(p: Prepared, loads: seq<Load>, stamps: seq<string>): C.Connection
    requires |stamps| == |loads|
  {
    C.Connection(ManifestOf(p), StreamEvents(p.key, loads, stamps))
  }

  lemma FirstItemNeedsRoot(fs: Fs, folder: Folder, entries: seq<Entry>, stamps: seq<string>)
    requires |stamps| == |entries| && entries != [] && CopyAll(fs, folder, entries, stamps).result.Ok?
    ensures WriteTarget(fs, folder, ".").Ok?
  {
    PathPolicy.DotIsAccepted();
    assert CopyOne(fs, folder, entries[0], stamps[0]).result.Ok?;
  }

  /** A transfer that was prepared from unchanging sources and streamed honestly commits exactly when
      the direct copy succeeds; then tree, outcome and remembered key are those of the loopback, and
      otherwise no file and no key has changed. */
  lemma StreamRefinesLoopback(sha: Digest, folders: map<string, Folder>, e: C.Engine, key: string, folder: string,
                              sources: seq<Child>, p: Prepared, loads: seq<Load>, stamps: seq<string>)
    requires WellFormed(e.fs) && folder in folders && key !in e.completed
    requires sources != [] && Prepare(sha, key, folder, sources) == Ok(p)
    requires HonestLoads(loads, p.entries) && |stamps| == |loads|
    ensures var served := C.Serve(sha, folders, e, HonestConnection(p, loads, stamps));
            var (after, result) := Loopback(sha, folders, e, key, folder, sources, stamps);
            && (served.commit.Some? <==> result.Ok?)
            && (result.Ok? ==> served.engine == after && served.commit == Some(result.value))
            && (result.Err? ==> served.engine.fs.files == e.fs.files && served.engine.completed == e.completed)
  {
    hide Run, Handle, CopyOne, PathPolicy.RelativeError;
    var destination := folders[folder];
    var copied := CopyAll(e.fs, destination, p.entries, stamps);
    var c := HonestConnection(p, loads, stamps);
    LimitsAreWithin(p.entries);
    CollectedIsNotEmpty(sources[0].node, sources[0].name);
    if copied.result.Ok? {
      FirstItemNeedsRoot(e.fs, destination, p.entries, stamps);
    }
    var start := C.Begin(folders, e, c.manifest);
    if start.Ready? {
      SourcesFilesEndInNames(sources);
      HonestRun(sha, destination, e.fs, sources, p, loads, stamps);
      C.ServeIsAllOrNothing(sha, folders, e, c);
      NoFaultNoLeak(sha, start.rx, e.fs, c.inbox, p.key, loads, stamps);
    }
  }

  /** The receiver's run over an honest stream. */
  lemma HonestRun(sha: Digest, destination: Folder, fs: Fs, sources: seq<Child>, p: Prepared, loads: seq<Load>,
                  stamps: seq<string>)
    requires WellFormed(fs) && Prepare(sha, p.key, p.folder, sources) == Ok(p)
    requires HonestLoads(loads, p.entries) && |stamps| == |loads|
    ensures var rx := NewRx(p.key, p.key, destination, p.total, p.sha256);
            var f := Run(sha, rx, fs, StreamEvents(p.key, loads, stamps));
            var copied := CopyAll(fs, destination, p.entries, stamps);
            var outcome := Outcome(p.total, FileCount(p.entries), p.sha256);
            if copied.result.Ok?
            then f == Final(copied.fs, Some(outcome), Some(ResultMessage(p.key, outcome)))
            else f.outcome.None?
  {
    hide Run, Handle, CopyOne, CopyAll, HashInput, ByteSum, WellFormed, ItemsEvents, AfterAll, PathPolicy.Names;
    var rx := NewRx(p.key, p.key, destination, p.total, p.sha256);
    var last := [Event(TransferComplete(p.key), "", NoFault)];
    LimitsAreWithin(p.entries);
    SourcesDirsAreEmpty(sources);
    AnnouncedIsRead(loads);
    ItemsRun(sha, rx, fs, loads, stamps, last);
    AfterAllCounts(rx, p.entries);
    var copied := CopyAll(fs, destination, p.entries, stamps);
    if copied.result.Ok? {
      assert [] + HashInput(p.entries) == HashInput(p.entries);
      FinishRun(sha, AfterAll(rx, p.entries), copied.fs);
    }
  }

  /** The open file's path, if there is one, ends in a name. */
  predicate NamedOpen(rx: Rx) { rx.active.Some? ==> rx.active.value.ending.InName? }

  lemma StaysNamed(sha: Digest, rx: Rx, fs: Fs, ev: Event)
    requires NamedOpen(rx)
    requires ev.message.FileStart? ==> PathPolicy.EndingOf(ev.message.relative).InName?
    ensures NamedOpen(Handle(sha, rx, fs, ev).rx)
  {
    hide WriteTarget, MkdirAllOr, MkdirAllAs, PathPolicy.EndingOf;
    var m := ev.message;
    if m.FileStart? {
      hide FileStartStep;
      if StartAdmitted(rx, fs, m.id, m.relative, m.size) {
        AdmittedStart(rx, fs, m.id, m.relative, m.size, ev.stamp, ev.fault);
      } else {
        RefusedStart(rx, fs, m.id, m.relative, m.size, ev.stamp, ev.fault);
      }
    }
  }

  lemma {:induction false} FaultFreeRunsDoNotLeak(sha: Digest, rx: Rx, fs: Fs, inbox: seq<Event>)
    requires NamedOpen(rx) && forall ev :: ev in inbox ==> ev.fault == NoFault
    requires forall ev :: ev in inbox && ev.message.FileStart? ==> PathPolicy.EndingOf(ev.message.relative).InName?
    ensures C.LeakedTemp(sha, rx, fs, inbox).None?
    decreases |inbox|
  {
    hide Handle;
    if inbox != [] && !inbox[0].message.Cancel? {
      var s := Handle(sha, rx, fs, inbox[0]);
      if s.result == Ok(None) {
        StaysNamed(sha, rx, fs, inbox[0]);
        FaultFreeRunsDoNotLeak(sha, s.rx, s.fs, inbox[1..]);
      }
    }
  }

  lemma {:induction false} StreamIsNamed(id: string, loads: seq<Load>)
    requires FilesEndInNames(EntriesOf(loads))
    ensures forall m :: m in ItemsMessages(id, loads) && m.FileStart? ==> PathPolicy.EndingOf(m.relative).InName?
  {
    hide PathPolicy.EndingOf, Flatten;
    if loads != [] {
      var entries := EntriesOf(loads);
      assert entries[1..] == EntriesOf(loads[1..]) && entries[0] == EntryOf(loads[0]);
      assert forall i :: 0 <= i < |entries| - 1 ==> entries[1..][i] == entries[i + 1];
      ChunksNeverComplete(id, 0, loads[0].buffers);
      StreamIsNamed(id, loads[1..]);
    }
  }

  lemma NoFaultNoLeak(sha: Digest, rx: Rx, fs: Fs, inbox: seq<Event>, id: string, loads: seq<Load>, stamps: seq<string>)
    requires |stamps| == |loads| && inbox == StreamEvents(id, loads, stamps)
    requires NamedOpen(rx) && FilesEndInNames(EntriesOf(loads))
    ensures C.LeakedTemp(sha, rx, fs, inbox).None?
  {
    hide Handle, C.LeakedTemp, PathPolicy.EndingOf;
    EventsCarryStream(id, loads, stamps);
    StreamIsNamed(id, loads);
    forall ev | ev in inbox
      ensures ev.fault == NoFault && (ev.message.FileStart? ==> PathPolicy.EndingOf(ev.message.relative).InName?)
    {
      var i :| 0 <= i < |inbox| && inbox[i] == ev;
      assert i < |ItemsMessages(id, loads)| ==> ItemsMessages(id, loads)[i] in ItemsMessages(id, loads);
    }
    FaultFreeRunsDoNotLeak(sha, rx, fs, inbox);
  }

  lemma {:induction false} StreamedTotals(loads: seq<Load>)
    ensures StreamedBytes(loads) == ByteSum(EntriesOf(loads)) && StreamedFiles(loads) == FileCount(EntriesOf(loads))
  {
    hide Flatten;
    if loads != [] {
      assert EntriesOf(loads)[1..] == EntriesOf(loads[1..]);
      StreamedTotals(loads[1..]);
    }
  }

  /** The progress an honest stream has reported when it is finished: strictly increasing, and the
      last report is the total. Nothing is reported exactly when there are no bytes to send. */
  lemma HonestReportsEndAtTotal(sha: Digest, key: string, folder: string, sources: seq<Child>, p: Prepared,
                                loads: seq<Load>, reports: seq<Progress>)
    requires Prepare(sha, key, folder, sources) == Ok(p) && HonestLoads(loads, p.entries)
    requires Increasing(reports, StreamedBytes(loads), p.total)
    ensures forall i, j :: 0 <= i < j < |reports| ==> reports[i].bytes < reports[j].bytes
    ensures reports == [] <==> p.total == 0
    ensures reports != [] ==> reports[|reports| - 1] == Progress(p.total, p.total)
  {
    hide Increasing, StreamedBytes, ByteSum;
    StreamedTotals(loads);
    ReportsIncrease(reports, StreamedBytes(loads), p.total);
  }

  /** When the direct copy would succeed and no message is lost, the sender's own counts match the
      receiver's answer and the sender returns the outcome. */
  lemma HonestSenderSucceeds(sha: Digest, folders: map<string, Folder>, e: C.Engine, key: string, folder: string,
                             sources: seq<Child>, p: Prepared, loads: seq<Load>, stamps: seq<string>)
    requires WellFormed(e.fs) && folder in folders && key !in e.completed
    requires sources != [] && Prepare(sha, key, folder, sources) == Ok(p)
    requires HonestLoads(loads, p.entries) && |stamps| == |loads|
    requires Loopback(sha, folders, e, key, folder, sources, stamps).1.Ok?
    ensures var served := C.Serve(sha, folders, e, HonestConnection(p, loads, stamps));
            var own := Outcome(StreamedBytes(loads), StreamedFiles(loads), p.sha256);
            && own.bytes == p.total
            && C.SenderResult(key, served.replies, Some(own)) == Ok(own)
            && served.commit == Some(own)
  {
    hide C.Serve, C.SenderResult, StreamEvents, Prepare, Loopback, WellFormed, ByteSum, SizesMatch, Readable;
    var own := Outcome(StreamedBytes(loads), StreamedFiles(loads), p.sha256);
    StreamedTotals(loads);
    PreparedTotal(sha, key, folder, sources, p);
    HonestReplies(sha, folders, e, key, folder, sources, p, loads, stamps);
    MatchingReplies(key, own);
  }

  lemma PreparedTotal(sha: Digest, key: string, folder: string, sources: seq<Child>, p: Prepared)
    requires Prepare(sha, key, folder, sources) == Ok(p)
    ensures p.total == ByteSum(p.entries) && p.key == key && p.folder == folder
  {
  }

  lemma MatchingReplies(key: string, own: Outcome)
    ensures C.SenderResult(key, [TransferReady(key), ResultMessage(key, own)], Some(own)) == Ok(own)
  {
  }

  /** The receiver answers an honest stream that can be placed with ready and then its outcome. */
  lemma HonestReplies(sha: Digest, folders: map<string, Folder>, e: C.Engine, key: string, folder: string,
                      sources: seq<Child>, p: Prepared, loads: seq<Load>, stamps: seq<string>)
    requires WellFormed(e.fs) && folder in folders && key !in e.completed
    requires sources != [] && Prepare(sha, key, folder, sources) == Ok(p)
    requires HonestLoads(loads, p.entries) && |stamps| == |loads|
    requires Loopback(sha, folders, e, key, folder, sources, stamps).1.Ok?
    ensures var served := C.Serve(sha, folders, e, HonestConnection(p, loads, stamps));
            var outcome := Outcome(p.total, FileCount(p.entries), p.sha256);
            && served.replies == [TransferReady(key), ResultMessage(key, outcome)]
            && served.commit == Some(outcome)
  {
    hide Run, CopyAll, PathPolicy.RelativeError, WellFormed, StreamEvents, HonestLoads, HashInput, ByteSum, LimitError;
    StreamRefinesLoopback(sha, folders, e, key, folder, sources, p, loads, stamps);
    HonestRun(sha, folders[folder], e.fs, sources, p, loads, stamps);
  }

  /** Which clock stamps name the temporary files does not matter to copies that succeed. */
  lemma {:induction false} StampsDoNotMatter(fs: Fs, folder: Folder, entries: seq<Entry>, a: seq<string>,
                                             b: seq<string>)
    requires |a| == |b| == |entries|
    requires CopyAll(fs, folder, entries, a).result.Ok? && CopyAll(fs, folder, entries, b).result.Ok?
    ensures CopyAll(fs, folder, entries, a) == CopyAll(fs, folder, entries, b)
    decreases |entries|
  {
    if entries != [] {
      assert CopyOne(fs, folder, entries[0], a[0]) == CopyOne(fs, folder, entries[0], b[0]);
      StampsDoNotMatter(CopyOne(fs, folder, entries[0], a[0]).fs, folder, entries[1..], a[1..], b[1..]);
    }
  }

  // ---------- sources that change after they were hashed ----------

  /** The stream announces the prepared entries; what is read may differ. */
  predicate Announces(loads: seq<Load>, entries: seq<Entry>) {
    && |loads| == |entries|
    && (forall load :: load in loads ==> Readable(load))
    && forall i :: 0 <= i < |loads| ==>
         && loads[i].relative == entries[i].relative && loads[i].isDir == entries[i].isDir
         && loads[i].size == |entries[i].content|
  }

  lemma {:induction false} AnnouncedBytesAreTotal(loads: seq<Load>, entries: seq<Entry>)
    requires Announces(loads, entries) && DirsAreEmpty(entries)
    ensures AnnouncedBytes(loads) == ByteSum(entries)
  {
    if loads != [] {
      assert Announces(loads[1..], entries[1..]) && DirsAreEmpty(entries[1..]);
      AnnouncedBytesAreTotal(loads[1..], entries[1..]);
    }
  }

  /** Sizes pin the boundaries inside the concatenated hash input. */
  lemma {:induction false} HashInputPinsContents(a: seq<Entry>, b: seq<Entry>)
    requires |a| == |b| && DirsAreEmpty(a) && DirsAreEmpty(b) && HashInput(a) == HashInput(b)
    requires forall i :: 0 <= i < |a| ==> a[i].isDir == b[i].isDir && |a[i].content| == |b[i].content|
    ensures forall i :: 0 <= i < |a| ==> a[i].content == b[i].content
  {
    if a != [] {
      var n := |a[0].content|;
      assert HashInput(a) == a[0].content + HashInput(a[1..]);
      assert HashInput(b) == b[0].content + HashInput(b[1..]);
      assert a[0].content == HashInput(a)[..n] == b[0].content;
      assert HashInput(a[1..]) == HashInput(a)[n..] == HashInput(b[1..]);
      assert DirsAreEmpty(a[1..]) && DirsAreEmpty(b[1..]);
      HashInputPinsContents(a[1..], b[1..]);
      forall i | 0 <= i < |a| ensures a[i].content == b[i].content {
        if i > 0 {
          assert a[i] == a[1..][i - 1] && b[i] == b[1..][i - 1];
        }
      }
    }
  }

  lemma CommitChecksHash(sha: Digest, rx: Rx, fs: Fs)
    requires Run(sha, rx, fs, [Event(TransferComplete(rx.id), "", NoFault)]).outcome.Some?
    ensures LowerAscii(ToHex(sha(rx.hashed))) == LowerAscii(rx.expectedHash)
  {
  }

  /** The hash tells what was streamed from what was prepared, if they differ. */
  ghost predicate NoCollision(sha: Digest, loads: seq<Load>, p: Prepared) {
    sha(HashInput(EntriesOf(loads))) == sha(HashInput(p.entries)) ==>
      HashInput(EntriesOf(loads)) == HashInput(p.entries)
  }

  /** A stream that commits was read with the announced sizes, and its contents passed the hash check. */
  lemma CommitPassedChecks(sha: Digest, destination: Folder, fs: Fs, sources: seq<Child>, p: Prepared,
                           loads: seq<Load>, stamps: seq<string>)
    requires WellFormed(fs) && Prepare(sha, p.key, p.folder, sources) == Ok(p)
    requires Announces(loads, p.entries) && |stamps| == |loads|
    requires Run(sha, NewRx(p.key, p.key, destination, p.total, p.sha256), fs,
                 StreamEvents(p.key, loads, stamps)).outcome.Some?
    ensures SizesMatch(loads)
    ensures LowerAscii(ToHex(sha(HashInput(EntriesOf(loads))))) == LowerAscii(p.sha256)
  {
    hide Run, Handle, CopyOne, CopyAll, LowerAscii, HashInput, WellFormed, PathPolicy.Names;
    var rx := NewRx(p.key, p.key, destination, p.total, p.sha256);
    var last := [Event(TransferComplete(p.key), "", NoFault)];
    var entries := EntriesOf(loads);
    LimitsAreWithin(p.entries);
    SourcesDirsAreEmpty(sources);
    AnnouncedBytesAreTotal(loads, p.entries);
    ItemsRun(sha, rx, fs, loads, stamps, last);
    assert SizesMatch(loads);
    assert DirsAreEmpty(entries);
    AfterAllCounts(rx, entries);
    CommitChecksHash(sha, AfterAll(rx, entries), CopyAll(fs, destination, entries, stamps).fs);
    assert [] + HashInput(entries) == HashInput(entries);
  }

  /** What was streamed with the announced sizes and the prepared hash is what was prepared. */
  lemma CheckedIsPrepared(sha: Digest, sources: seq<Child>, p: Prepared, loads: seq<Load>)
    requires Prepare(sha, p.key, p.folder, sources) == Ok(p)
    requires Announces(loads, p.entries) && SizesMatch(loads) && NoCollision(sha, loads, p)
    requires LowerAscii(ToHex(sha(HashInput(EntriesOf(loads))))) == LowerAscii(p.sha256)
    ensures EntriesOf(loads) == p.entries
  {
    hide LowerAscii, HashInput, ToHex, Readable;
    var entries := EntriesOf(loads);
    SourcesDirsAreEmpty(sources);
    HexIsLower(sha(HashInput(entries)));
    HexIsLower(sha(HashInput(p.entries)));
    HexInjective(sha(HashInput(entries)), sha(HashInput(p.entries)));
    HashInputPinsContents(entries, p.entries);
    assert forall i :: 0 <= i < |entries| ==> entries[i] == p.entries[i];
  }

  /** Even if files changed between hashing and streaming, a stream that commits delivered the
      prepared snapshot, provided the hash does not collide on the two byte strings it compared. */
  lemma QuietCommitIsTheSnapshot(sha: Digest, destination: Folder, fs: Fs, sources: seq<Child>, p: Prepared,
                                 loads: seq<Load>, stamps: seq<string>)
    requires WellFormed(fs) && Prepare(sha, p.key, p.folder, sources) == Ok(p)
    requires Announces(loads, p.entries) && |stamps| == |loads|
    requires Run(sha, NewRx(p.key, p.key, destination, p.total, p.sha256), fs,
                 StreamEvents(p.key, loads, stamps)).outcome.Some?
    requires NoCollision(sha, loads, p)
    ensures EntriesOf(loads) == p.entries
    ensures var f := Run(sha, NewRx(p.key, p.key, destination, p.total, p.sha256), fs,
                         StreamEvents(p.key, loads, stamps));
            && CopyAll(fs, destination, p.entries, stamps) == Copied(f.fs, Ok(()))
            && f.outcome == Some(Outcome(p.total, FileCount(p.entries), p.sha256))
  {
    hide Run, CopyAll, LowerAscii, HashInput, WellFormed, Prepare, StreamEvents, NoCollision, SizesMatch, Readable;
    CommitPassedChecks(sha, destination, fs, sources, p, loads, stamps);
    CheckedIsPrepared(sha, sources, p, loads);
    HonestRun(sha, destination, fs, sources, p, loads, stamps);
    UnitResult(CopyAll(fs, destination, p.entries, stamps));
  }

  lemma UnitResult(c: Copied)
    ensures c.result.Ok? ==> c == Copied(c.fs, Ok(()))
  {
    assert c.result.Ok? ==> c.result.value == ();
  }

  // ---------- faults and stamps of a run that commits ----------

  /** A fault that does not stop a message has no effect on it. */
  lemma AcceptedMetNoFault(sha: Digest, rx: Rx, fs: Fs, ev: Event)
    requires Handle(sha, rx, fs, ev).result.Ok?
    ensures Handle(sha, rx, fs, ev) == Handle(sha, rx, fs, ev.(fault := NoFault))
  {
    hide WriteTarget;
  }

  /** Only the start of a file looks at the clock. */
  lemma OnlyStartsReadTheClock(sha: Digest, rx: Rx, fs: Fs, ev: Event, stamp: string)
    requires !ev.message.FileStart?
    ensures Handle(sha, rx, fs, ev) == Handle(sha, rx, fs, ev.(stamp := stamp))
  {
    hide DirectoryStep, ChunkStep, FileCompleteStep, CompleteStep;
  }

  function MessagesOf(inbox: seq<Event>): (ms: seq<Message>)
    ensures |ms| == |inbox|
  {
    seq(|inbox|, i requires 0 <= i < |inbox| => inbox[i].message)
  }

  /** The same messages, and the same stamps where they count. */
  predicate SameScript(a: seq<Event>, b: seq<Event>) {
    && |a| == |b|
    && forall i :: 0 <= i < |a| ==>
         a[i].message == b[i].message && (a[i].message.FileStart? ==> a[i].stamp == b[i].stamp)
  }

  /** A run that commits is the run without any fault. */
  lemma {:induction false} CommitMetNoFault(sha: Digest, rx: Rx, fs: Fs, inbox: seq<Event>, quiet: seq<Event>)
    requires Run(sha, rx, fs, inbox).outcome.Some?
    requires SameScript(inbox, quiet) && forall ev :: ev in quiet ==> ev.fault == NoFault
    ensures Run(sha, rx, fs, quiet) == Run(sha, rx, fs, inbox)
    decreases |inbox|
  {
    hide Handle;
    var ev, ev' := inbox[0], quiet[0];
    AcceptedMetNoFault(sha, rx, fs, ev);
    assert ev' == if ev.message.FileStart? then ev.(fault := NoFault) else ev.(fault := NoFault).(stamp := ev'.stamp);
    if !ev.message.FileStart? {
      OnlyStartsReadTheClock(sha, rx, fs, ev.(fault := NoFault), ev'.stamp);
    }
    var s := Handle(sha, rx, fs, ev);
    if s.result == Ok(None) {
      assert SameScript(inbox[1..], quiet[1..]);
      CommitMetNoFault(sha, s.rx, s.fs, inbox[1..], quiet[1..]);
    }
  }

  /** The stamps under which a received stream's items were handled. */
  function StampsOf(id: string, loads: seq<Load>, inbox: seq<Event>): (stamps: seq<string>)
    requires |inbox| >= |ItemsMessages(id, loads)|
    ensures |stamps| == |loads|
    decreases |loads|
  {
    if loads == [] then []
    else [inbox[0].stamp] + StampsOf(id, loads[1..], inbox[|ItemMessages(id, loads[0])|..])
  }

  /** Any events that carry a stream are that stream's events up to faults. */
  lemma {:induction false} ReceivedItems(id: string, loads: seq<Load>, inbox: seq<Event>)
    requires MessagesOf(inbox) == ItemsMessages(id, loads)
    ensures SameScript(inbox, ItemsEvents(id, loads, StampsOf(id, loads, inbox)))
    decreases |loads|
  {
    if loads != [] {
      hide ItemMessages, MessagesOf, SameScript;
      ItemStartsOnce(id, loads[0]);
      var messages := ItemMessages(id, loads[0]);
      var n := |messages|;
      var first, more := inbox[..n], inbox[n..];
      assert inbox == first + more;
      MessagesSplit(first, more);
      assert messages == ItemsMessages(id, loads)[..n];
      assert ItemsMessages(id, loads[1..]) == ItemsMessages(id, loads)[n..];
      ReceivedItems(id, loads[1..], more);
      ReceivedItem(id, loads[0], first);
      ScriptsJoin(first, more, Stamped(messages, inbox[0].stamp),
                  ItemsEvents(id, loads[1..], StampsOf(id, loads[1..], more)));
    }
  }

  lemma MessagesSplit(a: seq<Event>, b: seq<Event>)
    ensures MessagesOf(a + b)[..|a|] == MessagesOf(a) && MessagesOf(a + b)[|a|..] == MessagesOf(b)
  {
  }

  lemma ScriptsJoin(a: seq<Event>, b: seq<Event>, a': seq<Event>, b': seq<Event>)
    requires SameScript(a, a') && SameScript(b, b')
    ensures SameScript(a + b, a' + b')
  {
  }

  lemma ReceivedItem(id: string, load: Load, inbox: seq<Event>)
    requires MessagesOf(inbox) == ItemMessages(id, load) && inbox != []
    ensures SameScript(inbox, Stamped(ItemMessages(id, load), inbox[0].stamp))
  {
    hide ItemMessages;
    ItemStartsOnce(id, load);
    assert forall i :: 0 <= i < |inbox| ==> MessagesOf(inbox)[i] == inbox[i].message;
  }

  /** A file start can only be an item's first message. */
  lemma ItemStartsOnce(id: string, load: Load)
    ensures ItemMessages(id, load) != []
    ensures forall i :: 0 < i < |ItemMessages(id, load)| ==> !ItemMessages(id, load)[i].FileStart?
  {
    ChunksNeverComplete(id, 0, load.buffers);
    var chunks := Chunks(id, 0, load.buffers);
    assert forall i :: 0 <= i < |chunks| ==> chunks[i] in chunks;
  }

  /** The events of a received stream with every fault cleared. */
  lemma ReceivedStream(id: string, loads: seq<Load>, inbox: seq<Event>) returns (stamps: seq<string>)
    requires MessagesOf(inbox) == StreamMessages(id, loads)
    ensures |stamps| == |loads| && SameScript(inbox, StreamEvents(id, loads, stamps))
    ensures forall ev :: ev in StreamEvents(id, loads, stamps) ==> ev.fault == NoFault
  {
    hide ItemsMessages, ItemsEvents;
    var items := inbox[..|inbox| - 1];
    assert MessagesOf(items) == MessagesOf(inbox)[..|inbox| - 1] == ItemsMessages(id, loads);
    stamps := StampsOf(id, loads, items);
    ReceivedItems(id, loads, items);
    EventsCarryStream(id, loads, stamps);
    assert MessagesOf(inbox)[|inbox| - 1] == TransferComplete(id);
  }

  /** Snapshot integrity, whatever faults the system threw at the receiver and whatever its clock
      said: if files changed between hashing and streaming, a transfer that commits still delivered
      the prepared snapshot, provided the hash does not collide on the two byte strings it compared. */
  lemma CommittedStreamIsTheSnapshot(sha: Digest, destination: Folder, fs: Fs, sources: seq<Child>, p: Prepared,
                                     loads: seq<Load>, inbox: seq<Event>) returns (stamps: seq<string>)
    requires WellFormed(fs) && Prepare(sha, p.key, p.folder, sources) == Ok(p)
    requires Announces(loads, p.entries) && MessagesOf(inbox) == StreamMessages(p.key, loads)
    requires NoCollision(sha, loads, p)
    requires Run(sha, NewRx(p.key, p.key, destination, p.total, p.sha256), fs, inbox).outcome.Some?
    ensures EntriesOf(loads) == p.entries && |stamps| == |loads|
    ensures var f := Run(sha, NewRx(p.key, p.key, destination, p.total, p.sha256), fs, inbox);
            && CopyAll(fs, destination, p.entries, stamps) == Copied(f.fs, Ok(()))
            && f.outcome == Some(Outcome(p.total, FileCount(p.entries), p.sha256))
  {
    hide Run, CopyAll, StreamMessages, StreamEvents, SameScript, NoCollision, Prepare, WellFormed;
    stamps := ReceivedStream(p.key, loads, inbox);
    CommitMetNoFault(sha, NewRx(p.key, p.key, destination, p.total, p.sha256), fs, inbox,
                     StreamEvents(p.key, loads, stamps));
    QuietCommitIsTheSnapshot(sha, destination, fs, sources, p, loads, stamps);
  }

  // ---------- every committed run is a stream ----------

  /** What is still to come of the open file: its remaining chunks and its completion. */
  function Remainder(rx: Rx, tail: seq<seq<byte>>): seq<Message> {
    if rx.active.None? then [] else Chunks(rx.id, rx.active.value.offset, tail) + [FileComplete(rx.id)]
  }

  /** Whatever messages a peer sends, faults or not, if the transfer commits then those handled were
      exactly the stream of some items under this transfer's identifier: each file started, sent in
      gapless chunks of exactly the announced length and completed, nothing in between. */
  lemma {:induction false} CommittedRunIsAStream(sha: Digest, rx: Rx, fs: Fs, inbox: seq<Event>)
    returns (tail: seq<seq<byte>>, loads: seq<Load>)
    requires Run(sha, rx, fs, inbox).outcome.Some?
    ensures Remainder(rx, tail) + StreamMessages(rx.id, loads) <= MessagesOf(inbox)
    ensures rx.active.None? ==> tail == []
    ensures rx.active.Some? ==> rx.active.value.offset + |Flatten(tail)| == rx.active.value.expected
    ensures SizesMatch(loads) && forall load :: load in loads && load.isDir ==> load.size == 0
    decreases |inbox|
  {
    hide Run, Handle, StreamMessages, Chunks, Flatten, SizesMatch, MessagesOf;
    CommitHasMessages(sha, rx, fs, inbox);
    var m := inbox[0].message;
    if m.TransferComplete? {
      tail, loads := [], [];
      CommitAtOnce(sha, rx, fs, inbox);
    } else {
      CommitContinues(sha, rx, fs, inbox);
      AcceptedShape(sha, rx, fs, inbox[0]);
      var s := Handle(sha, rx, fs, inbox[0]);
      var more, rest := CommittedRunIsAStream(sha, s.rx, s.fs, inbox[1..]);
      tail, loads := Prepended(rx, s.rx, m, more, rest);
      PrefixGrows(inbox, Remainder(s.rx, more) + StreamMessages(rx.id, rest));
    }
  }

  lemma CommitHasMessages(sha: Digest, rx: Rx, fs: Fs, inbox: seq<Event>)
    requires Run(sha, rx, fs, inbox).outcome.Some?
    ensures inbox != []
  {
    hide Handle;
  }

  lemma PrefixGrows(inbox: seq<Event>, part: seq<Message>)
    requires inbox != [] && part <= MessagesOf(inbox[1..])
    ensures [inbox[0].message] + part <= MessagesOf(inbox)
  {
    assert MessagesOf(inbox) == [inbox[0].message] + MessagesOf(inbox[1..]);
  }

  /** A run that commits on its first message has nothing open. */
  lemma CommitAtOnce(sha: Digest, rx: Rx, fs: Fs, inbox: seq<Event>)
    requires Run(sha, rx, fs, inbox).outcome.Some? && inbox != [] && inbox[0].message.TransferComplete?
    ensures rx.active.None? && SizesMatch([]) && Remainder(rx, []) + StreamMessages(rx.id, []) <= MessagesOf(inbox)
  {
    assert StreamMessages(rx.id, []) == [TransferComplete(rx.id)];
    assert MessagesOf(inbox)[..1] == [TransferComplete(rx.id)];
  }

  lemma CommitContinues(sha: Digest, rx: Rx, fs: Fs, inbox: seq<Event>)
    requires Run(sha, rx, fs, inbox).outcome.Some? && inbox != [] && !inbox[0].message.TransferComplete?
    ensures var s := Handle(sha, rx, fs, inbox[0]);
            && s.result == Ok(None)
            && Run(sha, s.rx, s.fs, inbox[1..]) == Run(sha, rx, fs, inbox)
  {
    hide FileStartStep, DirectoryStep, ChunkStep, FileCompleteStep;
  }

  /** What an accepted message must have been, given the open file before and after it. */
  ghost predicate Shape(rx: Rx, rx': Rx, m: Message) {
    && rx'.id == rx.id
    && match m
       case Directory(id, _) => id == rx.id && rx.active.None? && rx'.active.None?
       case FileStart(id, _, size) =>
         id == rx.id && rx.active.None? && rx'.active.Some?
         && rx'.active.value.offset == 0 && rx'.active.value.expected == size
       case FileChunk(id, offset, data) =>
         id == rx.id && rx.active.Some? && rx'.active.Some? && offset == rx.active.value.offset
         && rx'.active.value.offset == offset + |data| && rx'.active.value.expected == rx.active.value.expected
       case FileComplete(id) =>
         id == rx.id && rx.active.Some? && rx'.active.None? && rx.active.value.offset == rx.active.value.expected
       case _ => false
  }

  lemma AcceptedShape(sha: Digest, rx: Rx, fs: Fs, ev: Event)
    requires Handle(sha, rx, fs, ev).result == Ok(None)
    ensures Shape(rx, Handle(sha, rx, fs, ev).rx, ev.message)
  {
    hide WriteTarget, MkdirAllOr;
    var m := ev.message;
    if m.FileStart? {
      if StartAdmitted(rx, fs, m.id, m.relative, m.size) {
        AdmittedStart(rx, fs, m.id, m.relative, m.size, ev.stamp, ev.fault);
      } else {
        RefusedStart(rx, fs, m.id, m.relative, m.size, ev.stamp, ev.fault);
      }
    }
  }

  lemma StreamGrows(id: string, load: Load, rest: seq<Load>)
    ensures StreamMessages(id, [load] + rest) == ItemMessages(id, load) + StreamMessages(id, rest)
    ensures SizesMatch([load] + rest) <==> SizesMatch(rest) && SizesMatch([load])
  {
    hide ItemMessages, Flatten;
    assert ([load] + rest)[1..] == rest;
    assert forall i :: 0 <= i < |rest| ==> ([load] + rest)[i + 1] == rest[i];
  }

  /** Putting one accepted message in front of the stream that followed it. */
  lemma Prepended(rx: Rx, rx': Rx, m: Message, more: seq<seq<byte>>, rest: seq<Load>)
    returns (tail: seq<seq<byte>>, loads: seq<Load>)
    requires Shape(rx, rx', m) && (rx'.active.None? ==> more == [])
    requires rx'.active.Some? ==> rx'.active.value.offset + |Flatten(more)| == rx'.active.value.expected
    requires SizesMatch(rest) && forall load :: load in rest && load.isDir ==> load.size == 0
    ensures Remainder(rx, tail) + StreamMessages(rx.id, loads)
        == [m] + (Remainder(rx', more) + StreamMessages(rx.id, rest))
    ensures rx.active.None? ==> tail == []
    ensures rx.active.Some? ==> rx.active.value.offset + |Flatten(tail)| == rx.active.value.expected
    ensures SizesMatch(loads) && forall load :: load in loads && load.isDir ==> load.size == 0
  {
    hide StreamMessages, Flatten, Chunks, SizesMatch;
    var after := StreamMessages(rx.id, rest);
    match m
    case Directory(_, relative) =>
      var load := Load(relative, true, 0, []);
      tail, loads := [], [load] + rest;
      StreamGrows(rx.id, load, rest);
      assert SizesMatch([load]) by { OneDirectory(load); }
    case FileStart(_, relative, size) =>
      var load := Load(relative, false, size, more);
      tail, loads := [], [load] + rest;
      StreamGrows(rx.id, load, rest);
      assert SizesMatch([load]) by { OneFile(load); }
      assert ItemMessages(rx.id, load) == [m] + (Chunks(rx.id, 0, more) + [FileComplete(rx.id)]);
    case FileChunk(_, offset, data) =>
      tail, loads := [data] + more, rest;
      ChunkInFront(rx.id, offset, data, more);
      assert [m] + Chunks(rx.id, offset + |data|, more) + [FileComplete(rx.id)] + after
          == [m] + (Chunks(rx.id, offset + |data|, more) + [FileComplete(rx.id)] + after);
    case FileComplete(_) =>
      tail, loads := [], rest;
      NoChunks(rx.id, rx.active.value.offset);
  }

  lemma OneDirectory(load: Load)
    requires load.isDir
    ensures SizesMatch([load])
  {
  }

  lemma OneFile(load: Load)
    requires load.size == |Flatten(load.buffers)|
    ensures SizesMatch([load])
  {
  }

  lemma NoChunks(id: string, offset: nat)
    ensures Chunks(id, offset, []) == [] && Flatten<byte>([]) == []
  {
  }

  lemma ChunkInFront(id: string, offset: nat, data: seq<byte>, more: seq<seq<byte>>)
    ensures Chunks(id, offset, [data] + more) == [FileChunk(id, offset, data)] + Chunks(id, offset + |data|, more)
    ensures |Flatten([data] + more)| == |data| + |Flatten(more)|
  {
    assert ([data] + more)[1..] == more;
  }
}
