/** Sender, channel, network and receiver together. */
module EndToEnd {
  import opened Base
  import opened FileSystem
  import opened Protocol
  import opened Receiver
  import opened Sources
  import opened Streaming
  import opened Copying
  import opened Refinement
  import Conn = Connections
  import Chan = Channel
  import T = Trees
  import PathPolicy

  /** The greeting and the manifest. */
  function Opening(p: Prepared): seq<Message> {
    [Hello(VERSION), TransferManifest(p.key, p.folder, p.key, p.total, p.sha256)]
  }

  /** Everything an undisturbed sender seals, in order. */
  function Script(p: Prepared, loads: seq<Load>): seq<Message> { Opening(p) + StreamMessages(p.key, loads) }

  /** The sender sealed its script up to some point, and perhaps a cancellation after stopping short. */
  ghost predicate FollowsScript(sealed: seq<Message>, p: Prepared, loads: seq<Load>) {
    var script := Script(p, loads);
    sealed <= script
    || (sealed != [] && sealed[|sealed| - 1] == Cancel(p.key) && sealed[..|sealed| - 1] < script)
  }

  /** The sender's object leaves its script behind it: after the greeting and the manifest, whatever a
      stream attempted, finished, cancelled or broken off, follows the script. */
  lemma StreamFollowsScript(p: Prepared, loads: seq<Load>, attempted: seq<Message>)
    requires var stream := StreamMessages(p.key, loads);
             attempted <= stream
             || (attempted != [] && attempted[|attempted| - 1] == Cancel(p.key)
                 && attempted[..|attempted| - 1] < stream)
    ensures FollowsScript(Opening(p) + attempted, p, loads)
  {
    hide StreamMessages;
    var stream := StreamMessages(p.key, loads);
    var sealed := Opening(p) + attempted;
    if attempted <= stream {
      assert stream == attempted + stream[|attempted|..];
      assert Script(p, loads) == sealed + stream[|attempted|..];
    } else {
      var body := attempted[..|attempted| - 1];
      assert sealed[..|sealed| - 1] == Opening(p) + body;
      assert stream == body + stream[|body|..];
      assert Script(p, loads) == Opening(p) + body + stream[|body|..];
    }
  }

  /** `send_socket_transfer` after preparing: the greeting, the manifest, the receiver's answer, the
      stream, the result. `replies` is what can be received, in order, before the connection ends. */
  method SendSocketTransfer(p: Prepared, loads: seq<Load>, cancelled: nat -> bool, failing: nat -> bool, lostAt: nat,
                            replies: seq<Message>)
    returns (r: Result<Outcome, Conn.SendError>, sealed: seq<Message>, counted: Option<Outcome>)
    requires forall i :: 0 <= i < |loads| ==> loads[i].isDir || ReadsOf(loads[i].buffers)
    // what goes out
    ensures FollowsScript(sealed, p, loads)
    ensures counted.Some? ==>
              sealed == Script(p, loads)
              && counted == Some(Outcome(StreamedBytes(loads), StreamedFiles(loads), p.sha256))
    // what is answered: nothing sent, nothing received, a first reply that settles it, a second reply
    ensures lostAt < 2 ==> r == Err(Conn.StreamFailed)
    ensures lostAt >= 2 && replies == [] ==> r == Err(Conn.Closed) && sealed == Opening(p)
    ensures lostAt >= 2 && replies != [] ==>
              match replies[0]
              case TransferReady(id) => id != p.key ==> r == Err(Conn.UnexpectedResponse) && sealed == Opening(p)
              case TransferResult(id, bytes, files, sha256) =>
                && sealed == Opening(p)
                && r == (if id == p.key then Ok(Outcome(bytes, files, sha256)) else Err(Conn.UnexpectedResponse))
              case TransferRejected(id) =>
                sealed == Opening(p) && r == Err(if id == p.key then Conn.Rejected else Conn.UnexpectedResponse)
              case _ => r == Err(Conn.UnexpectedResponse) && sealed == Opening(p)
    ensures lostAt >= 2 && replies != [] && replies[0] == TransferReady(p.key) ==>
              if counted.None? then r == Err(Conn.StreamFailed)
              else if |replies| == 1 then r == Err(Conn.Closed)
              else if replies[1] == ResultMessage(p.key, counted.value) then r == Ok(counted.value)
              else if replies[1] == TransferRejected(p.key) then r == Err(Conn.Rejected)
              else r == Err(Conn.UnexpectedResponse)
    // the same as the theorems about connections see it
    ensures lostAt >= 2 ==> r == Conn.SenderResult(p.key, replies, counted)
    // when the whole stream goes out
    ensures counted.Some? <==>
              && replies != [] && replies[0] == TransferReady(p.key) && |Script(p, loads)| <= lostAt
              && (forall n :: 0 <= n < PollPoints(loads) ==> !cancelled(n))
              && (forall n :: 0 <= n < ReadPoints(loads) ==> !failing(n))
  {
    hide StreamMessages, StreamedBytes, StreamedFiles, PollPoints, ReadPoints;
    assert Script(p, loads)[..1] == [Hello(VERSION)];
    sealed, counted := [Hello(VERSION)], None;
    if lostAt < 1 {
      return Err(Conn.StreamFailed), sealed, counted;
    }
    sealed := Opening(p);
    assert Script(p, loads)[..2] == sealed;
    if lostAt < 2 {
      return Err(Conn.StreamFailed), sealed, counted;
    }
    if replies == [] {
      return Err(Conn.Closed), sealed, counted;
    }
    match replies[0] {
      case TransferReady(id) =>
        if id != p.key {
          return Err(Conn.UnexpectedResponse), sealed, counted;
        }
      case TransferResult(id, bytes, files, sha256) =>
        r := if id == p.key then Ok(Outcome(bytes, files, sha256)) else Err(Conn.UnexpectedResponse);
        return r, sealed, counted;
      case TransferRejected(id) =>
        return Err(if id == p.key then Conn.Rejected else Conn.UnexpectedResponse), sealed, counted;
      case _ => return Err(Conn.UnexpectedResponse), sealed, counted;
    }
    var sender := new Sender(p.key, p.total, cancelled, failing, lostAt - 2);
    var end := sender.Stream(loads, p.sha256);
    sealed := sealed + sender.attempted;
    StreamFollowsScript(p, loads, sender.attempted);
    if !end.Finished? {
      return Err(Conn.StreamFailed), sealed, counted;
    }
    counted := Some(end.outcome);
    r := Conclude(p.key, end.outcome, replies);
  }

  /** The sender's judgement of the last reply. */
  function Conclude(key: string, own: Outcome, replies: seq<Message>): (r: Result<Outcome, Conn.SendError>)
    requires replies != [] && replies[0] == TransferReady(key)
    ensures r == Conn.SenderResult(key, replies, Some(own))
    ensures r == if |replies| == 1 then Err(Conn.Closed)
                 else if replies[1] == ResultMessage(key, own) then Ok(own)
                 else if replies[1] == TransferRejected(key) then Err(Conn.Rejected)
                 else Err(Conn.UnexpectedResponse)
  {
    if |replies| == 1 then Err(Conn.Closed)
    else match replies[1]
      case TransferResult(id, bytes, files, sha256) =>
        if id == key && Outcome(bytes, files, sha256) == own then Ok(own) else Err(Conn.UnexpectedResponse)
      case TransferRejected(id) => Err(if id == key then Conn.Rejected else Conn.UnexpectedResponse)
      case _ => Err(Conn.UnexpectedResponse)
  }

  /** What the receiver opened became this connection: the greeting, the manifest, and some of the
      messages after it, each handled under whatever clock stamp and system fault it met. */
  ghost predicate ReceivedAs(received: seq<Message>, c: Conn.Connection) {
    var m := c.manifest;
    && |received| >= 2 && received[1] == TransferManifest(m.id, m.folder, m.key, m.total, m.sha256)
    && MessagesOf(c.inbox) <= received[2..]
  }

  /** A prefix of the stream that contains TransferComplete is the whole stream. */
  lemma CompletePrefixIsWhole(id: string, loads: seq<Load>, part: seq<Message>)
    requires part <= StreamMessages(id, loads) && exists m :: m in part && m.TransferComplete?
    ensures part == StreamMessages(id, loads)
  {
    if |part| < |StreamMessages(id, loads)| {
      ProperPrefixNeverCompletes(id, loads, part);
    }
  }

  /** What arrived after the manifest is a prefix of the stream, perhaps with the sender's Cancel. */
  lemma ArrivedStream(sealed: seq<Message>, arrived: seq<Message>, p: Prepared, loads: seq<Load>)
    requires FollowsScript(sealed, p, loads) && arrived <= sealed && |arrived| >= 2
    ensures var got, full := arrived[2..], StreamMessages(p.key, loads);
            got <= full
            || (got != [] && got[|got| - 1] == Cancel(p.key) && got[..|got| - 1] < full)
  {
    hide StreamMessages;
    var got, full := arrived[2..], StreamMessages(p.key, loads);
    var script := Script(p, loads);
    assert script[2..] == full;
    if sealed <= script {
      assert arrived == sealed[..|arrived|] == script[..|arrived|];
      assert got == full[..|got|];
    } else {
      var body := sealed[..|sealed| - 1];
      assert body == script[..|body|];
      if |arrived| < |sealed| {
        assert arrived == body[..|arrived|] == script[..|arrived|];
        assert got == full[..|got|];
      } else {
        assert arrived == sealed;
        if |sealed| > 2 {
          assert got[..|got| - 1] == body[2..] == full[..|got| - 1];
        } else {
          assert got == [] == full[..0];
        }
      }
    }
  }

  lemma ArrivedCompleteIsWhole(got: seq<Message>, p: Prepared, loads: seq<Load>)
    requires var full := StreamMessages(p.key, loads);
             got <= full || (got != [] && got[|got| - 1] == Cancel(p.key) && got[..|got| - 1] < full)
    requires exists m :: m in got && m.TransferComplete?
    ensures got == StreamMessages(p.key, loads)
  {
    hide StreamMessages;
    if got <= StreamMessages(p.key, loads) {
      CompletePrefixIsWhole(p.key, loads, got);
    } else {
      var m :| m in got && m.TransferComplete?;
      var body := got[..|got| - 1];
      assert got == body + [Cancel(p.key)];
      assert m in body;
      ProperPrefixNeverCompletes(p.key, loads, body);
    }
  }

  /** A manifest that arrived is the one the sender prepared. */
  lemma ArrivedManifest(sealed: seq<Message>, arrived: seq<Message>, p: Prepared, loads: seq<Load>, m: Conn.Manifest)
    requires FollowsScript(sealed, p, loads) && arrived <= sealed && |arrived| >= 2
    requires arrived[1] == TransferManifest(m.id, m.folder, m.key, m.total, m.sha256)
    ensures m == ManifestOf(p)
  {
    hide StreamMessages;
    var script := Script(p, loads);
    assert script[1] == TransferManifest(p.key, p.folder, p.key, p.total, p.sha256);
    assert sealed[1] == arrived[1];
    if !(sealed <= script) {
      assert |sealed| > 2;
      assert sealed[..|sealed| - 1][1] == script[1];
    }
  }

  /** A connection that commits carried the whole stream. */
  lemma CommittedConnectionIsWhole(sha: Digest, folders: map<string, Folder>, e: Conn.Engine, p: Prepared,
                                   loads: seq<Load>, sealed: seq<Message>, received: seq<Message>, c: Conn.Connection)
    requires FollowsScript(sealed, p, loads) && received <= sealed && ReceivedAs(received, c)
    requires Conn.Serve(sha, folders, e, c).commit.Some?
    ensures c.manifest == ManifestOf(p) && MessagesOf(c.inbox) == StreamMessages(p.key, loads)
  {
    hide Run, StreamMessages, FollowsScript;
    var got := MessagesOf(c.inbox);
    var arrived := received[..2 + |got|];
    assert arrived[2..] == got && arrived[1] == received[1];
    ArrivedManifest(sealed, received, p, loads, c.manifest);
    ArrivedStream(sealed, arrived, p, loads);
    if forall ev :: ev in c.inbox ==> !ev.message.TransferComplete? {
      Conn.RunNeedsComplete(sha, Conn.Begin(folders, e, c.manifest).rx, e.fs, c.inbox);
    }
    var ev :| ev in c.inbox && ev.message.TransferComplete?;
    var i :| 0 <= i < |c.inbox| && c.inbox[i] == ev;
    assert got[i].TransferComplete? && got[i] in got;
    ArrivedCompleteIsWhole(got, p, loads);
  }

  /** Whatever the network does, whatever faults the receiver's system throws and whatever its clock
      says: a connection that commits carried exactly the sender's stream, the destination holds
      exactly the prepared snapshot and its outcome is remembered under the sender's key, unless the
      hash collides on the two byte strings compared. */
  lemma CommitDeliversSnapshot(
      prim: Chan.Primitives, table: Chan.Table, a: string, b: string, secret: seq<byte>, xs: seq<Chan.Action>,
      sha: Digest, folders: map<string, Folder>, e: Conn.Engine, sources: seq<Child>, p: Prepared, loads: seq<Load>,
      c: Conn.Connection) returns (stamps: seq<string>)
    requires Chan.Faithful(prim) && Chan.ShortIds(a, b) && Chan.Unused(table, a, b)
    requires Chan.NewChannel(prim, a, b, secret).Ok? && Chan.NewChannel(prim, b, a, secret).Ok?
    requires WellFormed(e.fs) && Prepare(sha, p.key, p.folder, sources) == Ok(p)
    requires Announces(loads, p.entries) && NoCollision(sha, loads, p)
    requires var net := Chan.ActAll(prim, Chan.Connected(prim, table, a, b, secret), xs);
             FollowsScript(net.sealedA, p, loads) && ReceivedAs(net.openedB, c)
    requires Conn.Serve(sha, folders, e, c).commit.Some?
    ensures MessagesOf(c.inbox) == StreamMessages(p.key, loads)
    ensures p.folder in folders && |stamps| == |p.entries|
    ensures var served := Conn.Serve(sha, folders, e, c);
            && CopyAll(e.fs, folders[p.folder], p.entries, stamps) == Copied(served.engine.fs, Ok(()))
            && served.engine.completed == e.completed[p.key := Outcome(p.total, FileCount(p.entries), p.sha256)]
            && (T.ProperNames(sources) ==> served.engine.fs == T.GrownSources(e.fs, folders[p.folder].root, sources))
  {
    hide Run, CopyAll, StreamMessages, Chan.ActAll, Chan.Faithful, Chan.Unused, FollowsScript, ReceivedAs, NoCollision,
      Announces, Prepare, WellFormed, WriteTarget;
    var net := Chan.ActAll(prim, Chan.Connected(prim, table, a, b, secret), xs);
    Chan.OpenedIsPrefixOfSealed(prim, table, a, b, secret, xs);
    CommittedConnectionIsWhole(sha, folders, e, p, loads, net.sealedA, net.openedB, c);
    stamps := CommittedStreamIsTheSnapshot(sha, folders[p.folder], e.fs, sources, p, loads, c.inbox);
    assert |p.entries| == |loads|;
    if T.ProperNames(sources) {
      CopiedPrepared(sha, e.fs, folders[p.folder], sources, p, stamps);
    }
  }

  /** A prepared request whose copy succeeded has grown its source trees. */
  lemma CopiedPrepared(sha: Digest, fs: Fs, destination: Folder, sources: seq<Child>, p: Prepared, stamps: seq<string>)
    requires WellFormed(fs) && Prepare(sha, p.key, p.folder, sources) == Ok(p) && T.ProperNames(sources)
    requires |stamps| == |p.entries| && CopyAll(fs, destination, p.entries, stamps).result.Ok?
    ensures CopyAll(fs, destination, p.entries, stamps).fs == T.GrownSources(fs, destination.root, sources)
  {
    hide CopyOne, CopyAll, WellFormed, HashInput, ByteSum, PathPolicy.RelativeError;
    if p.entries != [] {
      FirstItemNeedsRoot(fs, destination, p.entries, stamps);
      T.CopiedSources(fs, destination, sources, stamps);
    } else {
      NothingPrepared(fs, destination, sources);
    }
  }

  lemma NothingPrepared(fs: Fs, destination: Folder, sources: seq<Child>)
    requires CollectSources(sources) == Ok([])
    ensures sources == [] && CopyAll(fs, destination, [], []) == Copied(fs, Ok(()))
    ensures T.GrownSources(fs, destination.root, sources) == fs
  {
    if sources != [] {
      CollectedIsNotEmpty(sources[0].node, sources[0].name);
    }
  }

  /** The other direction, for one connection of a pair: whatever the network does, an outcome the
      sender returns is the one the receiver holds under the sender's key, then and ever after. */
  lemma SenderOkIsHeldAcross(
      prim: Chan.Primitives, table: Chan.Table, a: string, b: string, secret: seq<byte>, xs: seq<Chan.Action>,
      sha: Digest, folders: map<string, Folder>, e: Conn.Engine, cs: seq<Conn.Connection>, i: nat, p: Prepared,
      loads: seq<Load>, seen: seq<Message>, streamed: Option<Outcome>)
    requires Chan.Faithful(prim) && Chan.ShortIds(a, b) && Chan.Unused(table, a, b)
    requires Chan.NewChannel(prim, a, b, secret).Ok? && Chan.NewChannel(prim, b, a, secret).Ok?
    requires i < |cs|
    requires var net := Chan.ActAll(prim, Chan.Connected(prim, table, a, b, secret), xs);
             && FollowsScript(net.sealedA, p, loads) && ReceivedAs(net.openedB, cs[i])
             && net.sealedB <= Conn.ServedAt(sha, folders, e, cs, i).replies
             && seen <= net.openedA
    requires Conn.SenderResult(p.key, seen, streamed).Ok?
    ensures p.key in Conn.EngineAfter(sha, folders, e, cs).completed
    ensures Conn.EngineAfter(sha, folders, e, cs).completed[p.key] == Conn.SenderResult(p.key, seen, streamed).value
  {
    hide Chan.ActAll, Chan.Faithful, Chan.Unused, FollowsScript, Conn.ServedAt, Conn.EngineAfter, Conn.SenderResult;
    var net := Chan.ActAll(prim, Chan.Connected(prim, table, a, b, secret), xs);
    Chan.OpenedIsPrefixOfSealed(prim, table, a, b, secret, xs);
    ArrivedManifest(net.sealedA, net.openedB, p, loads, cs[i].manifest);
    PrefixChain(seen, net.openedA, net.sealedB);
    PrefixChain(seen, net.sealedB, Conn.ServedAt(sha, folders, e, cs, i).replies);
    Conn.SenderOkIsHeld(sha, folders, e, cs, i, p.key, seen, streamed);
  }

  lemma PrefixChain<T>(x: seq<T>, y: seq<T>, z: seq<T>)
    requires x <= y && y <= z
    ensures x <= z
  {
    assert x == y[..|x|] == z[..|x|];
  }

  /** A stream that was cancelled commits nothing, however much of it arrived, and leaves the files
      as they were unless the system lost a temporary file. */
  lemma CancelledCommitsNothing(sha: Digest, folders: map<string, Folder>, e: Conn.Engine, p: Prepared,
                                loads: seq<Load>, attempted: seq<Message>, inbox: seq<Event>)
    requires attempted != [] && attempted[|attempted| - 1] == Cancel(p.key)
    requires attempted[..|attempted| - 1] < StreamMessages(p.key, loads)
    requires MessagesOf(inbox) <= attempted
    ensures var c := Conn.Connection(ManifestOf(p), inbox);
            var served := Conn.Serve(sha, folders, e, c);
            && served.commit.None? && served.engine.completed == e.completed
            && (Conn.LeftBy(sha, folders, e, c).None? ==> served.engine.fs.files == e.fs.files)
  {
    hide Run, StreamMessages, Conn.LeakedTemp;
    var c := Conn.Connection(ManifestOf(p), inbox);
    ProperPrefixNeverCompletes(p.key, loads, attempted[..|attempted| - 1]);
    forall ev | ev in inbox ensures !ev.message.TransferComplete? {
      var i :| 0 <= i < |inbox| && inbox[i] == ev;
      assert MessagesOf(inbox)[i] == attempted[i];
      assert i < |attempted| - 1 ==> attempted[..|attempted| - 1][i] == ev.message;
    }
    var start := Conn.Begin(folders, e, c.manifest);
    if start.Ready? {
      Conn.RunNeedsComplete(sha, start.rx, e.fs, inbox);
    }
    Conn.ServeIsAllOrNothing(sha, folders, e, c);
  }

  // ---------- an undisturbed transfer goes through ----------

  /** Nothing the protocol requires is left blank, and no read returns more than a chunk. */
  predicate Sendable(p: Prepared, loads: seq<Load>) {
    && Filled(p.key) && Filled(p.folder) && HexText(p.sha256)
    && forall load :: load in loads ==> Filled(load.relative) && (load.isDir || ReadsOf(load.buffers))
  }

  lemma {:induction false} ChunksAreValid(id: string, offset: nat, buffers: seq<seq<byte>>)
    requires Filled(id) && ReadsOf(buffers)
    ensures forall m :: m in Chunks(id, offset, buffers) ==> Defect(m) == None
    decreases |buffers|
  {
    hide Filled, Defect;
    if buffers != [] {
      assert buffers[0] in buffers && forall b :: b in buffers[1..] ==> b in buffers;
      ValidExactly(FileChunk(id, offset, buffers[0]));
      ChunksAreValid(id, offset + |buffers[0]|, buffers[1..]);
    }
  }

  lemma {:induction false} ItemsAreValid(id: string, loads: seq<Load>)
    requires Filled(id)
    requires forall load :: load in loads ==> Filled(load.relative) && (load.isDir || ReadsOf(load.buffers))
    ensures forall m :: m in ItemsMessages(id, loads) ==> Defect(m) == None
  {
    hide Filled, Defect, ReadsOf, Chunks;
    if loads != [] {
      var load := loads[0];
      ValidExactly(Directory(id, load.relative));
      ValidExactly(FileStart(id, load.relative, load.size));
      ValidExactly(FileComplete(id));
      if !load.isDir {
        ChunksAreValid(id, 0, load.buffers);
      }
      ItemsAreValid(id, loads[1..]);
    }
  }

  /** Every message of the greeting, the manifest and the stream is valid. */
  lemma ScriptIsValid(p: Prepared, loads: seq<Load>)
    requires Sendable(p, loads)
    ensures forall m :: m in Script(p, loads) ==> Defect(m) == None
  {
    hide Filled, HexText, Defect, ReadsOf, ItemsMessages;
    ValidExactly(Hello(VERSION));
    ValidExactly(TransferManifest(p.key, p.folder, p.key, p.total, p.sha256));
    ValidExactly(TransferComplete(p.key));
    ItemsAreValid(p.key, loads);
  }

  /** A prepared hash is one, if the digest has 32 bytes. */
  lemma PreparedHash(sha: Digest, sources: seq<Child>, p: Prepared)
    requires Prepare(sha, p.key, p.folder, sources) == Ok(p) && |sha(HashInput(p.entries))| == 32
    ensures HexText(p.sha256)
  {
  }

  lemma {:induction false} ChunksAreFew(id: string, offset: nat, buffers: seq<seq<byte>>)
    requires ReadsOf(buffers)
    ensures |Chunks(id, offset, buffers)| <= |Flatten(buffers)|
    decreases |buffers|
  {
    hide ReadsOf, Chunks, Flatten;
    ChunkIsOne(id, offset, buffers);
    if buffers != [] {
      ChunksAreFew(id, offset + |buffers[0]|, buffers[1..]);
    }
  }

  lemma ChunkIsOne(id: string, offset: nat, buffers: seq<seq<byte>>)
    requires ReadsOf(buffers)
    ensures if buffers == [] then Chunks(id, offset, buffers) == [] && Flatten(buffers) == []
            else
              var first, rest := buffers[0], buffers[1..];
              && ReadsOf(rest) && |first| > 0
              && |Chunks(id, offset, buffers)| == 1 + |Chunks(id, offset + |first|, rest)|
              && |Flatten(buffers)| == |first| + |Flatten(rest)|
  {
  }

  lemma {:induction false} ItemsAreFew(id: string, loads: seq<Load>)
    requires forall load :: load in loads ==> load.isDir || ReadsOf(load.buffers)
    ensures |ItemsMessages(id, loads)| <= 2 * |loads| + StreamedBytes(loads)
  {
    hide ReadsOf, Flatten, Chunks;
    if loads != [] {
      if !loads[0].isDir {
        ChunksAreFew(id, 0, loads[0].buffers);
      }
      ItemsAreFew(id, loads[1..]);
    }
  }

  /** The sender's limits keep the script far below the last sequence number. */
  lemma ScriptIsShort(sha: Digest, sources: seq<Child>, p: Prepared, loads: seq<Load>)
    requires Prepare(sha, p.key, p.folder, sources) == Ok(p) && HonestLoads(loads, p.entries)
    ensures |Script(p, loads)| < 0xFFFF_FFFF_FFFF_FFFF
  {
    hide ItemsMessages, StreamedBytes, ByteSum, HashInput;
    LimitsAreWithin(p.entries);
    StreamedTotals(loads);
    assert forall load :: load in loads ==> load.isDir || ReadsOf(load.buffers);
    ItemsAreFew(p.key, loads);
    assert |loads| == |p.entries|;
  }

  function Seals(ms: seq<Message>, ciphertexts: seq<seq<byte>>): (xs: seq<Chan.Action>)
    requires |ciphertexts| == |ms|
    ensures |xs| == |ms|
  {
    seq(|ms|, i requires 0 <= i < |ms| => Chan.SealAtA(ms[i], ciphertexts[i]))
  }

  lemma {:induction false} SealsOffer(ms: seq<Message>, ciphertexts: seq<seq<byte>>)
    requires |ciphertexts| == |ms| && forall m :: m in ms ==> Defect(m) == None
    ensures Chan.Offered(Seals(ms, ciphertexts), true) == ms
    decreases |ms|
  {
    hide Defect;
    if ms != [] {
      assert Seals(ms, ciphertexts)[1..] == Seals(ms[1..], ciphertexts[1..]);
      SealsOffer(ms[1..], ciphertexts[1..]);
    }
  }

  lemma {:induction false} SealsLeaveFarEnd(prim: Chan.Primitives, net: Chan.Net, ms: seq<Message>,
                                            ciphertexts: seq<seq<byte>>)
    requires |ciphertexts| == |ms|
    ensures Chan.ActAll(prim, net, Seals(ms, ciphertexts)).b == net.b
    decreases |ms|
  {
    hide Chan.SealStep;
    if ms != [] {
      var xs := Seals(ms, ciphertexts);
      assert xs[1..] == Seals(ms[1..], ciphertexts[1..]);
      SealsLeaveFarEnd(prim, Chan.Act(prim, net, xs[0]), ms[1..], ciphertexts[1..]);
    }
  }

  /** Sealing valid messages and delivering their frames in order opens exactly them at the far end. */
  lemma SealedAndDelivered(prim: Chan.Primitives, table: Chan.Table, a: string, b: string, secret: seq<byte>,
                           ms: seq<Message>, ciphertexts: seq<seq<byte>>)
    requires Chan.Faithful(prim) && Chan.ShortIds(a, b) && Chan.Unused(table, a, b)
    requires Chan.NewChannel(prim, a, b, secret).Ok? && Chan.NewChannel(prim, b, a, secret).Ok?
    requires |ciphertexts| == |ms| < 0xFFFF_FFFF_FFFF_FFFF && forall m :: m in ms ==> Defect(m) == None
    ensures var start, xs := Chan.Connected(prim, table, a, b, secret), Seals(ms, ciphertexts);
            var net, frames := Chan.ActAll(prim, start, xs), Chan.FramesOf(prim, start, xs, true);
            net.sealedA == ms && Chan.ActAll(prim, net, Chan.Deliveries(frames)).openedB == ms
  {
    hide Defect, Chan.ActAll, Chan.FramesOf, Chan.Faithful, Chan.Unused, Chan.Offered, Seals;
    var start, xs := Chan.Connected(prim, table, a, b, secret), Seals(ms, ciphertexts);
    SealsOffer(ms, ciphertexts);
    Chan.SealedIsOffered(prim, start, xs, true);
    SealsLeaveFarEnd(prim, start, ms, ciphertexts);
    Chan.PendingFramesOpen(prim, table, a, b, secret, xs);
    var frames := Chan.FramesOf(prim, start, xs, true);
    assert frames[0..] == frames && [] + ms == ms;
  }

  /** The transfer the whole system is for. Sent over a channel that delivers, from unchanging sources
      with nothing blank, to a destination where the direct copy would succeed: the far end opens the
      whole script, commits the copy, and the sender returns the outcome it holds. */
  lemma UndisturbedTransferCommits(
      prim: Chan.Primitives, table: Chan.Table, a: string, b: string, secret: seq<byte>,
      ciphertexts: seq<seq<byte>>, sha: Digest, folders: map<string, Folder>, e: Conn.Engine, sources: seq<Child>,
      p: Prepared, loads: seq<Load>, stamps: seq<string>)
    requires Chan.Faithful(prim) && Chan.ShortIds(a, b) && Chan.Unused(table, a, b)
    requires Chan.NewChannel(prim, a, b, secret).Ok? && Chan.NewChannel(prim, b, a, secret).Ok?
    requires WellFormed(e.fs) && p.folder in folders && p.key !in e.completed
    requires sources != [] && Prepare(sha, p.key, p.folder, sources) == Ok(p)
    requires HonestLoads(loads, p.entries) && |stamps| == |loads| && Sendable(p, loads)
    requires Loopback(sha, folders, e, p.key, p.folder, sources, stamps).1.Ok?
    requires |ciphertexts| == |Script(p, loads)|
    ensures var start, xs := Chan.Connected(prim, table, a, b, secret), Seals(Script(p, loads), ciphertexts);
            var frames := Chan.FramesOf(prim, start, xs, true);
            var delivered := Chan.ActAll(prim, Chan.ActAll(prim, start, xs), Chan.Deliveries(frames)).openedB;
            var c := HonestConnection(p, loads, stamps);
            var served := Conn.Serve(sha, folders, e, c);
            var own := Outcome(StreamedBytes(loads), StreamedFiles(loads), p.sha256);
            && ReceivedAs(delivered, c) && MessagesOf(c.inbox) == delivered[2..]
            && served.engine == Loopback(sha, folders, e, p.key, p.folder, sources, stamps).0
            && Conn.SenderResult(p.key, served.replies, Some(own)) == Ok(own)
  {
    hide Chan.ActAll, Chan.FramesOf, Chan.Faithful, Chan.Unused, Conn.Serve, Loopback, Sendable, HonestLoads, Prepare,
      Conn.SenderResult, StreamEvents, StreamMessages, Seals, WellFormed;
    ScriptIsShort(sha, sources, p, loads);
    ScriptIsValid(p, loads);
    SealedAndDelivered(prim, table, a, b, secret, Script(p, loads), ciphertexts);
    HonestSenderSucceeds(sha, folders, e, p.key, p.folder, sources, p, loads, stamps);
    StreamRefinesLoopback(sha, folders, e, p.key, p.folder, sources, p, loads, stamps);
    StreamIsCarried(p, loads, stamps);
    assert Script(p, loads)[2..] == StreamMessages(p.key, loads);
  }

  lemma StreamIsCarried(p: Prepared, loads: seq<Load>, stamps: seq<string>)
    requires |stamps| == |loads|
    ensures MessagesOf(StreamEvents(p.key, loads, stamps)) == StreamMessages(p.key, loads)
  {
    hide ItemsMessages, ItemsEvents;
    EventsCarryStream(p.key, loads, stamps);
  }
}
