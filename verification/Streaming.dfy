/** The sending side of a streamed transfer: which messages go out, in which order, and how a
    cancelled or broken stream ends. */
module Streaming {
  import opened Base
  import opened Protocol
  import opened Sources

  /** One item as announced when the transfer was prepared, and the buffers that reading its file
      returns while it is streamed. */
  datatype Load = Load(relative: string, isDir: bool, size: nat, buffers: seq<seq<byte>>)

  function Chunks(id: string, offset: nat, buffers: seq<seq<byte>>): seq<Message>
    decreases |buffers|
  {
    if buffers == [] then []
    else [FileChunk(id, offset, buffers[0])] + Chunks(id, offset + |buffers[0]|, buffers[1..])
  }

  function ItemMessages(id: string, load: Load): seq<Message> {
    if load.isDir then [Directory(id, load.relative)]
    else [FileStart(id, load.relative, load.size)] + Chunks(id, 0, load.buffers) + [FileComplete(id)]
  }

  function ItemsMessages(id: string, loads: seq<Load>): seq<Message> {
    if loads == [] then [] else ItemMessages(id, loads[0]) + ItemsMessages(id, loads[1..])
  }

  /** The whole stream after the manifest. */
  function StreamMessages(id: string, loads: seq<Load>): seq<Message> {
    ItemsMessages(id, loads) + [TransferComplete(id)]
  }

  function StreamedBytes(loads: seq<Load>): nat {
    if loads == [] then 0
    else (if loads[0].isDir then 0 else |Flatten(loads[0].buffers)|) + StreamedBytes(loads[1..])
  }

  function StreamedFiles(loads: seq<Load>): nat {
    if loads == [] then 0 else (if loads[0].isDir then 0 else 1) + StreamedFiles(loads[1..])
  }

  lemma {:induction false} ChunksSnoc(id: string, offset: nat, buffers: seq<seq<byte>>, last: seq<byte>)
    ensures Chunks(id, offset, buffers + [last])
         == Chunks(id, offset, buffers) + [FileChunk(id, offset + |Flatten(buffers)|, last)]
    decreases |buffers|
  {
    var all := buffers + [last];
    if buffers == [] {
      assert all[1..] == [];
      assert Chunks(id, offset, all) == [FileChunk(id, offset, last)] + Chunks(id, offset + |last|, []);
    } else {
      var first, rest := buffers[0], buffers[1..];
      assert all[0] == first && all[1..] == rest + [last];
      ChunksSnoc(id, offset + |first|, rest, last);
      assert |Flatten(buffers)| == |first| + |Flatten(rest)|;
      assert Chunks(id, offset, all) == [FileChunk(id, offset, first)] + Chunks(id, offset + |first|, rest + [last]);
    }
  }

  lemma {:induction false} ItemsSnoc(id: string, loads: seq<Load>, last: Load)
    ensures ItemsMessages(id, loads + [last]) == ItemsMessages(id, loads) + ItemMessages(id, last)
    ensures StreamedBytes(loads + [last])
         == StreamedBytes(loads) + if last.isDir then 0 else |Flatten(last.buffers)|
    ensures StreamedFiles(loads + [last]) == StreamedFiles(loads) + if last.isDir then 0 else 1
  {
    var all := loads + [last];
    if loads == [] {
      assert all[1..] == [];
    } else {
      assert all[0] == loads[0] && all[1..] == loads[1..] + [last];
      ItemsSnoc(id, loads[1..], last);
    }
  }

  lemma {:induction false} ItemsAppend(id: string, a: seq<Load>, b: seq<Load>)
    ensures ItemsMessages(id, a + b) == ItemsMessages(id, a) + ItemsMessages(id, b)
  {
    if a == [] {
      assert a + b == b;
    } else {
      assert (a + b)[0] == a[0] && (a + b)[1..] == a[1..] + b;
      ItemsAppend(id, a[1..], b);
    }
  }

  lemma NothingStreamed(id: string, total: nat)
    ensures Increasing([], 0, total)
    ensures ItemsMessages(id, []) == [] && StreamedBytes([]) == 0 && StreamedFiles([]) == 0
    ensures PollPoints([]) == 0 && ReadPoints([]) == 0
  {
  }

  lemma ReadsAreNotEmpty(buffers: seq<seq<byte>>)
    requires ReadsOf(buffers)
    ensures forall k :: 0 <= k < |buffers| ==> buffers[k] != []
  {
  }

  lemma NothingRead(id: string, buffers: seq<seq<byte>>)
    ensures Chunks(id, 0, buffers[..0]) == [] && Flatten(buffers[..0]) == []
  {
  }

  /** How often streaming the items looks at the cancellation flag: once per item, and once before each
      read of a file, its last and empty one included. */
  function PollPoints(loads: seq<Load>): nat {
    if loads == [] then 0 else ItemPolls(loads[0]) + PollPoints(loads[1..])
  }

  function ItemPolls(load: Load): nat { if load.isDir then 1 else |load.buffers| + 2 }

  /** How often it turns to a file: to open it, and for each read. */
  function ReadPoints(loads: seq<Load>): nat {
    if loads == [] then 0 else ItemReads(loads[0]) + ReadPoints(loads[1..])
  }

  function ItemReads(load: Load): nat { if load.isDir then 0 else |load.buffers| + 2 }

  lemma {:induction false} PointsSnoc(loads: seq<Load>, last: Load)
    ensures PollPoints(loads + [last]) == PollPoints(loads) + ItemPolls(last)
    ensures ReadPoints(loads + [last]) == ReadPoints(loads) + ItemReads(last)
  {
    var all := loads + [last];
    if loads == [] {
      assert all[1..] == [];
    } else {
      assert all[0] == loads[0] && all[1..] == loads[1..] + [last];
      PointsSnoc(loads[1..], last);
    }
  }

  datatype StreamEnd = Finished(outcome: Outcome) | WasCancelled | Broken | Lost

  datatype Progress = Progress(bytes: nat, total: nat)

  /** Each report repeats the total and is larger than the one before; the last one is `upTo`. */
  ghost predicate Increasing(reports: seq<Progress>, upTo: nat, total: nat) {
    if reports == [] then upTo == 0
    else
      var last := |reports| - 1;
      && reports[last] == Progress(upTo, total)
      && exists before: nat :: before < upTo && Increasing(reports[..last], before, total)
  }

  lemma ReportIncreases(reports: seq<Progress>, upTo: nat, total: nat, n: nat)
    requires Increasing(reports, upTo, total) && n > 0
    ensures Increasing(reports + [Progress(upTo + n, total)], upTo + n, total)
  {
    var all := reports + [Progress(upTo + n, total)];
    assert all[..|all| - 1] == reports;
  }

  /** Read pairwise: reports strictly increase and end at what was streamed, if anything was. */
  lemma {:induction false} ReportsIncrease(reports: seq<Progress>, upTo: nat, total: nat)
    requires Increasing(reports, upTo, total)
    ensures forall i :: 0 <= i < |reports| ==> reports[i].total == total && 0 < reports[i].bytes <= upTo
    ensures forall i, j :: 0 <= i < j < |reports| ==> reports[i].bytes < reports[j].bytes
    ensures upTo > 0 <==> reports != []
    ensures reports != [] ==> reports[|reports| - 1].bytes == upTo
  {
    if reports != [] {
      var last := |reports| - 1;
      var before: nat :| before < upTo && Increasing(reports[..last], before, total);
      ReportsIncrease(reports[..last], before, total);
      forall i | 0 <= i < last ensures reports[i] == reports[..last][i] {}
    }
  }

  lemma Regroup<T>(a: seq<T>, b: seq<T>, c: seq<T>, d: seq<T>)
    ensures a + b + c + d == a + (b + c) + d
  {
  }

  lemma MiddlePrefix<T>(before: seq<T>, part: seq<T>, whole: seq<T>, after: seq<T>, last: T)
    requires part <= whole
    ensures before + part < before + (whole + after) + [last]
  {
    assert before + (whole + after) + [last] == (before + part) + (whole[|part|..] + after + [last]);
  }

  lemma PrefixOfStream(id: string, loads: seq<Load>, i: nat, part: seq<Message>)
    requires i < |loads| && part <= ItemMessages(id, loads[i])
    ensures ItemsMessages(id, loads[..i]) + part < StreamMessages(id, loads)
  {
    var tail := loads[i..];
    ItemsAppend(id, loads[..i], tail);
    assert loads[..i] + tail == loads;
    assert tail[0] == loads[i];
    MiddlePrefix(ItemsMessages(id, loads[..i]), part, ItemMessages(id, loads[i]),
                 ItemsMessages(id, tail[1..]), TransferComplete(id));
  }

  lemma NextChunk(id: string, buffers: seq<seq<byte>>, k: nat)
    requires k < |buffers|
    ensures Chunks(id, 0, buffers[..k + 1])
         == Chunks(id, 0, buffers[..k]) + [FileChunk(id, |Flatten(buffers[..k])|, buffers[k])]
    ensures |Flatten(buffers[..k + 1])| == |Flatten(buffers[..k])| + |buffers[k]|
  {
    assert buffers[..k + 1] == buffers[..k] + [buffers[k]];
    ChunksSnoc(id, 0, buffers[..k], buffers[k]);
    FlattenSnoc(buffers[..k], buffers[k]);
  }

  lemma {:induction false} ChunksPrefix(id: string, offset: nat, buffers: seq<seq<byte>>, k: nat)
    requires k <= |buffers|
    ensures Chunks(id, offset, buffers[..k]) <= Chunks(id, offset, buffers)
    decreases |buffers| - k
  {
    if k == |buffers| {
      assert buffers[..k] == buffers;
    } else {
      ChunksSnoc(id, offset, buffers[..k], buffers[k]);
      assert buffers[..k] + [buffers[k]] == buffers[..k + 1];
      ChunksPrefix(id, offset, buffers, k + 1);
    }
  }

  lemma {:induction false} PointsGrow(loads: seq<Load>, i: nat)
    requires i <= |loads|
    ensures PollPoints(loads[..i]) <= PollPoints(loads) && ReadPoints(loads[..i]) <= ReadPoints(loads)
    decreases |loads| - i
  {
    hide ItemPolls, ItemReads;
    if i == |loads| {
      assert loads[..i] == loads;
    } else {
      assert loads[..i] + [loads[i]] == loads[..i + 1];
      PointsSnoc(loads[..i], loads[i]);
      PointsGrow(loads, i + 1);
    }
  }

  /** A sender in the middle of `PreparedTransfer::stream`. `cancelled` is what each look at the
      cancellation flag sees, `failing` which openings and reads of files fail; sends succeed until
      `lostAt` of them have been made. */
  class Sender {
    const id: string
    const total: nat
    const cancelled: nat -> bool
    const failing: nat -> bool
    const lostAt: nat
    var polled: nat
    var touched: nat
    var attempted: seq<Message>
    var progress: seq<Progress>
    var bytes: nat
    var files: nat

    constructor (id: string, total: nat, cancelled: nat -> bool, failing: nat -> bool, lostAt: nat)
      ensures this.id == id && this.total == total && this.lostAt == lostAt
      ensures this.cancelled == cancelled && this.failing == failing && polled == 0 && touched == 0
      ensures attempted == [] && progress == [] && bytes == 0 && files == 0
    {
      this.id, this.total, this.cancelled, this.failing, this.lostAt := id, total, cancelled, failing, lostAt;
      polled, touched, attempted, progress, bytes, files := 0, 0, [], [], 0, 0;
    }

    method Send(m: Message) returns (ok: bool)
      modifies this`attempted
      ensures attempted == old(attempted) + [m]
      ensures ok <==> |attempted| <= lostAt
    {
      ok := |attempted| < lostAt;
      attempted := attempted + [m];
    }

    method Poll() returns (seen: bool)
      modifies this`polled
      ensures polled == old(polled) + 1 && seen == cancelled(old(polled))
    {
      seen := cancelled(polled);
      polled := polled + 1;
    }

    method Touch() returns (fails: bool)
      modifies this`touched
      ensures touched == old(touched) + 1 && fails == failing(old(touched))
    {
      fails := failing(touched);
      touched := touched + 1;
    }

    /** No cancellation seen and no file failing between these points. */
    ghost predicate Quiet(p0: nat, p1: nat, r0: nat, r1: nat) {
      && (forall n :: p0 <= n < p1 ==> !cancelled(n))
      && (forall n :: r0 <= n < r1 ==> !failing(n))
    }

    lemma QuietSoFar(p0: nat, p1: nat, r0: nat, r1: nat)
      requires p0 <= p1 && r0 <= r1
      ensures Quiet(p0, p0, r0, r0)
      ensures Quiet(p0, p1, r0, r1) && !cancelled(p1) ==> Quiet(p0, p1 + 1, r0, r1)
      ensures Quiet(p0, p1, r0, r1) && !failing(r1) ==> Quiet(p0, p1, r0, r1 + 1)
    {
    }

    /** Where a stream that began at these points stands, and why it stopped there: at the first
        cancellation it saw, the first file that failed, or the first send that was lost; if it
        finished, it met none. */
    ghost predicate Justified(end: StreamEnd, p0: nat, r0: nat)
      reads this
    {
      && p0 <= polled && r0 <= touched
      && match end
         case Finished(_) => |attempted| <= lostAt && Quiet(p0, polled, r0, touched)
         case WasCancelled => p0 < polled && cancelled(polled - 1) && Quiet(p0, polled - 1, r0, touched)
         case Broken => r0 < touched && failing(touched - 1) && Quiet(p0, polled, r0, touched - 1)
         case Lost => lostAt < |attempted| && Quiet(p0, polled, r0, touched)
    }

    /** The same for a part of the stream: `None` is a part that was finished. */
    ghost predicate Stopped(stop: Option<StreamEnd>, p0: nat, r0: nat)
      reads this
    {
      match stop
      case None => p0 <= polled && r0 <= touched && |attempted| <= lostAt && Quiet(p0, polled, r0, touched)
      case Some(end) => !end.Finished? && Justified(end, p0, r0)
    }

    /** Nothing stands in the way of the whole stream: no cancellation at any point where it looks for
        one, no file failing, and no send lost. */
    ghost predicate Undisturbed(loads: seq<Load>, p0: nat, r0: nat) {
      Quiet(p0, p0 + PollPoints(loads), r0, r0 + ReadPoints(loads)) && |StreamMessages(id, loads)| <= lostAt
    }

    lemma Disturbed(end: StreamEnd, loads: seq<Load>, p0: nat, r0: nat)
      requires !end.Finished? && Justified(end, p0, r0)
      requires polled <= p0 + PollPoints(loads) && touched <= r0 + ReadPoints(loads)
      requires end.Lost? ==> |attempted| <= |StreamMessages(id, loads)|
      ensures !Undisturbed(loads, p0, r0)
    {
    }

    /** Sends one buffer and, if it was sent, counts and reports it. */
    method SendChunk(offset: nat, buffer: seq<byte>) returns (ok: bool)
      requires buffer != [] && Increasing(progress, bytes, total)
      modifies this`attempted, this`progress, this`bytes
      ensures Increasing(progress, bytes, total)
      ensures attempted == old(attempted) + [FileChunk(id, offset, buffer)]
      ensures bytes == old(bytes) + if ok then |buffer| else 0
      ensures progress == old(progress) + if ok then [Progress(bytes, total)] else []
      ensures ok <==> |attempted| <= lostAt
    {
      ok := Send(FileChunk(id, offset, buffer));
      if ok {
        ReportIncreases(progress, bytes, total, |buffer|);
        bytes := bytes + |buffer|;
        progress := progress + [Progress(bytes, total)];
      }
    }

    lemma StoppedJoins(stop: Option<StreamEnd>, p0: nat, p1: nat, r0: nat, r1: nat)
      requires p0 <= p1 && r0 <= r1 && Quiet(p0, p1, r0, r1) && Stopped(stop, p1, r1)
      ensures Stopped(stop, p0, r0) && (stop.None? ==> Quiet(p0, polled, r0, touched))
    {
    }

    /** Looks for a cancellation, which is passed on to the peer, and then turns to the file. */
    method NextRead() returns (stop: Option<StreamEnd>)
      requires |attempted| <= lostAt
      modifies this`polled, this`touched, this`attempted
      ensures attempted == old(attempted) + CancelTail(stop)
      ensures polled == old(polled) + 1 && touched == old(touched) + if stop == Some(WasCancelled) then 0 else 1
      ensures Stopped(stop, old(polled), old(touched)) && (stop.Some? ==> !stop.value.Lost?)
    {
      var seen := Poll();
      if seen {
        var _ := Send(Cancel(id));
        return Some(WasCancelled);
      }
      var fails := Touch();
      stop := if fails then Some(Broken) else None;
    }

    /** Opens one file and reads it to its end, sending a chunk per buffer, of which `k` are attempted. */
    method StreamFile(buffers: seq<seq<byte>>) returns (stop: Option<StreamEnd>, k: nat)
      requires ReadsOf(buffers) && Increasing(progress, bytes, total) && |attempted| <= lostAt
      modifies this`polled, this`touched, this`attempted, this`progress, this`bytes
      ensures Increasing(progress, bytes, total) && k <= |buffers|
      ensures attempted == old(attempted) + Chunks(id, 0, buffers[..k]) + CancelTail(stop)
      ensures stop.None? ==> k == |buffers| && bytes == old(bytes) + |Flatten(buffers)|
      ensures stop.None? ==> polled == old(polled) + |buffers| + 1 && touched == old(touched) + |buffers| + 2
      ensures polled <= old(polled) + |buffers| + 1 && touched <= old(touched) + |buffers| + 2
      ensures Stopped(stop, old(polled), old(touched))
    {
      hide Increasing, Flatten, Chunks, Quiet, ReadsOf;
      ReadsAreNotEmpty(buffers);
      NothingRead(id, buffers);
      var offset := 0;
      k := 0;
      ghost var before, sent := attempted, [];
      QuietSoFar(polled, polled, touched, touched);
      var fails := Touch();
      if fails {
        return Some(Broken), k;
      }
      while true
        invariant k <= |buffers| && offset == |Flatten(buffers[..k])|
        invariant sent == Chunks(id, 0, buffers[..k]) && attempted == before + sent
        invariant bytes == old(bytes) + offset && Increasing(progress, bytes, total)
        invariant polled == old(polled) + k && touched == old(touched) + k + 1 && |attempted| <= lostAt
        invariant Quiet(old(polled), polled, old(touched), touched)
        decreases |buffers| - k
      {
        ghost var p, r := polled, touched;
        stop := NextRead();
        StoppedJoins(stop, old(polled), p, old(touched), r);
        if stop.Some? {
          return;
        }
        if k == |buffers| {
          assert buffers[..k] == buffers;
          return None, k;
        }
        NextChunk(id, buffers, k);
        var ok := SendChunk(offset, buffers[k]);
        sent := sent + [FileChunk(id, offset, buffers[k])];
        offset := offset + |buffers[k]|;
        k := k + 1;
        if !ok {
          return Some(Lost), k;
        }
      }
    }

    function CancelTail(stop: Option<StreamEnd>): seq<Message> {
      if stop == Some(WasCancelled) then [Cancel(id)] else []
    }

    /** Streams one item; on stopping early, `part` of its messages were attempted. */
    method StreamItem(load: Load) returns (stop: Option<StreamEnd>, part: seq<Message>)
      requires load.isDir || ReadsOf(load.buffers)
      requires Increasing(progress, bytes, total) && |attempted| <= lostAt
      modifies this`polled, this`touched, this`attempted, this`progress, this`bytes, this`files
      ensures Increasing(progress, bytes, total)
      ensures part <= ItemMessages(id, load) && attempted == old(attempted) + part + CancelTail(stop)
      ensures stop.None? ==> part == ItemMessages(id, load)
      ensures stop.None? ==> bytes == old(bytes) + (if load.isDir then 0 else |Flatten(load.buffers)|)
      ensures stop.None? ==> files == old(files) + (if load.isDir then 0 else 1)
      ensures stop.None? ==> polled == old(polled) + ItemPolls(load) && touched == old(touched) + ItemReads(load)
      ensures polled <= old(polled) + ItemPolls(load) && touched <= old(touched) + ItemReads(load)
      ensures Stopped(stop, old(polled), old(touched))
    {
      hide Increasing, Flatten, Chunks, ReadsOf;
      QuietSoFar(polled, polled, touched, touched);
      var seen := Poll();
      if seen {
        var _ := Send(Cancel(id));
        return Some(WasCancelled), [];
      }
      if load.isDir {
        var sent := Send(Directory(id, load.relative));
        return if sent then None else Some(Lost), [Directory(id, load.relative)];
      }
      stop, part := StreamFileItem(load);
    }

    /** A file's start, its chunks and its completion. */
    method StreamFileItem(load: Load) returns (stop: Option<StreamEnd>, part: seq<Message>)
      requires !load.isDir && ReadsOf(load.buffers)
      requires Increasing(progress, bytes, total)
      modifies this`polled, this`touched, this`attempted, this`progress, this`bytes, this`files
      ensures Increasing(progress, bytes, total)
      ensures part <= ItemMessages(id, load) && attempted == old(attempted) + part + CancelTail(stop)
      ensures stop.None? ==> part == ItemMessages(id, load)
      ensures stop.None? ==> bytes == old(bytes) + |Flatten(load.buffers)| && files == old(files) + 1
      ensures stop.None? ==> polled == old(polled) + |load.buffers| + 1 && touched == old(touched) + |load.buffers| + 2
      ensures polled <= old(polled) + |load.buffers| + 1 && touched <= old(touched) + |load.buffers| + 2
      ensures Stopped(stop, old(polled), old(touched))
    {
      hide Increasing, Flatten, Chunks;
      ghost var before := attempted;
      var start := FileStart(id, load.relative, load.size);
      var sent := Send(start);
      if !sent {
        return Some(Lost), [start];
      }
      var k;
      stop, k := StreamFile(load.buffers);
      var chunks := Chunks(id, 0, load.buffers[..k]);
      ChunksPrefix(id, 0, load.buffers, k);
      Regroup(before, [start], chunks, CancelTail(stop));
      part := [start] + chunks;
      if stop.Some? {
        return;
      }
      assert load.buffers[..k] == load.buffers;
      part := part + [FileComplete(id)];
      sent := Send(FileComplete(id));
      if !sent {
        return Some(Lost), part;
      }
      files := files + 1;
    }

    /** The whole stream. A stream that ends early, cancelled or not, never attempted the final
        TransferComplete unless that very message was the one lost. */
    method Stream(loads: seq<Load>, sha256: string) returns (end: StreamEnd)
      requires forall i :: 0 <= i < |loads| ==> loads[i].isDir || ReadsOf(loads[i].buffers)
      requires attempted == [] && progress == [] && bytes == 0 && files == 0
      modifies this`polled, this`touched, this`attempted, this`progress, this`bytes, this`files
      ensures Increasing(progress, bytes, total)
      ensures end.Finished? ==>
                && attempted == StreamMessages(id, loads)
                && end.outcome == Outcome(StreamedBytes(loads), StreamedFiles(loads), sha256)
                && bytes == StreamedBytes(loads)
                && polled == old(polled) + PollPoints(loads) && touched == old(touched) + ReadPoints(loads)
      ensures end.WasCancelled? ==>
                attempted != [] && attempted[|attempted| - 1] == Cancel(id)
                && attempted[..|attempted| - 1] < StreamMessages(id, loads)
      ensures end.Broken? ==> attempted < StreamMessages(id, loads)
      ensures end.Lost? ==> attempted <= StreamMessages(id, loads)
      ensures Justified(end, old(polled), old(touched))
      ensures end.Finished? <==> Undisturbed(loads, old(polled), old(touched))
    {
      hide ItemsMessages, ItemMessages, StreamedBytes, StreamedFiles, Increasing, Flatten, PollPoints, ReadPoints,
        ItemPolls, ItemReads;
      NothingStreamed(id, total);
      assert loads[..0] == [];
      for i := 0 to |loads|
        invariant Increasing(progress, bytes, total)
        invariant attempted == ItemsMessages(id, loads[..i])
        invariant bytes == StreamedBytes(loads[..i]) && files == StreamedFiles(loads[..i])
        invariant polled == old(polled) + PollPoints(loads[..i]) && touched == old(touched) + ReadPoints(loads[..i])
        invariant |attempted| <= lostAt && Quiet(old(polled), polled, old(touched), touched)
      {
        assert loads[..i] + [loads[i]] == loads[..i + 1];
        ItemsSnoc(id, loads[..i], loads[i]);
        PointsSnoc(loads[..i], loads[i]);
        var stop, part := StreamItem(loads[i]);
        if stop.Some? {
          PrefixOfStream(id, loads, i, part);
          assert stop != Some(WasCancelled) ==> ItemsMessages(id, loads[..i]) + part + [] == attempted;
          PointsGrow(loads, i + 1);
          Disturbed(stop.value, loads, old(polled), old(touched));
          return stop.value;
        }
      }
      assert loads[..|loads|] == loads;
      var sent := Send(TransferComplete(id));
      if !sent {
        Disturbed(Lost, loads, old(polled), old(touched));
        return Lost;
      }
      return Finished(Outcome(bytes, files, sha256));
    }
  }

  lemma {:induction false} ChunksNeverComplete(id: string, offset: nat, buffers: seq<seq<byte>>)
    ensures forall m :: m in Chunks(id, offset, buffers) ==> m.FileChunk?
    decreases |buffers|
  {
    if buffers != [] {
      ChunksNeverComplete(id, offset + |buffers[0]|, buffers[1..]);
    }
  }

  lemma {:induction false} ItemsNeverComplete(id: string, loads: seq<Load>)
    ensures forall m :: m in ItemsMessages(id, loads) ==> !m.TransferComplete? && !m.Cancel?
  {
    if loads != [] {
      ChunksNeverComplete(id, 0, loads[0].buffers);
      ItemsNeverComplete(id, loads[1..]);
    }
  }

  /** Only the whole stream contains TransferComplete. */
  lemma ProperPrefixNeverCompletes(id: string, loads: seq<Load>, part: seq<Message>)
    requires part < StreamMessages(id, loads)
    ensures forall m :: m in part ==> !m.TransferComplete? && !m.Cancel?
  {
    ItemsNeverComplete(id, loads);
    forall m | m in part ensures m in ItemsMessages(id, loads) {
      var i :| 0 <= i < |part| && part[i] == m;
      assert StreamMessages(id, loads)[i] == m;
    }
  }
}
