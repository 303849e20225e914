/** The sending side's view of what is to be sent: source trees, and the flat list of entries a
    transfer is prepared from. */
module Sources {
  import opened Base
  import opened Text
  import opened Protocol
  import PathPolicy

  /** A source as it is found under a read capability. `Unusable` is an entry that cannot be sent:
      a special file, or one whose lookup fails or escapes the capability. */
  datatype Tree =
    | FileNode(content: seq<byte>)
    | DirNode(children: seq<Child>)
    | Unusable(why: TransferError)

  /** Children are listed in file-name order. */
  datatype Child = Child(name: string, node: Tree)

  /** One item of a transfer: a file with its contents, or a directory. */
  datatype Entry = Entry(relative: string, isDir: bool, content: seq<byte>)

  /** Reading a file under a path that does not end in a name fails. */
  const NOT_A_DIRECTORY := Policy(PathPolicy.PathUnavailable)

  /** Depth-first, each directory after everything in it. */
  function Collect(node: Tree, relative: string): Result<seq<Entry>, TransferError>
    decreases node, 0
  {
    match node
    case FileNode(content) =>
      if PathPolicy.EndingOf(relative).InName? then Ok([Entry(relative, false, content)]) else Err(NOT_A_DIRECTORY)
    case Unusable(why) => Err(why)
    case DirNode(children) =>
      match CollectChildren(children, relative)
      case Err(e) => Err(e)
      case Ok(inner) => Ok(inner + [Entry(relative, true, [])])
  }

  function CollectChildren(children: seq<Child>, relative: string): Result<seq<Entry>, TransferError>
    decreases children, 1
  {
    if children == [] then Ok([])
    else match Collect(children[0].node, PathPolicy.Join(relative, children[0].name))
      case Err(e) => Err(e)
      case Ok(first) =>
        match CollectChildren(children[1..], relative)
        case Err(e) => Err(e)
        case Ok(rest) => Ok(first + rest)
  }

  /** The named sources of one request, collected in order. */
  function CollectSources(sources: seq<Child>): Result<seq<Entry>, TransferError> {
    if sources == [] then Ok([])
    else match Collect(sources[0].node, sources[0].name)
      case Err(e) => Err(e)
      case Ok(first) =>
        match CollectSources(sources[1..])
        case Err(e) => Err(e)
        case Ok(rest) => Ok(first + rest)
  }

  lemma {:induction false} CollectChildrenSnoc(children: seq<Child>, last: Child, relative: string)
    ensures CollectChildren(children + [last], relative)
         == match CollectChildren(children, relative)
            case Err(e) => Err(e)
            case Ok(before) =>
              match Collect(last.node, PathPolicy.Join(relative, last.name))
              case Err(e) => Err(e)
              case Ok(more) => Ok(before + more)
    decreases |children|
  {
    hide Collect, PathPolicy.Join;
    var all := children + [last];
    if children == [] {
      assert all[1..] == [];
      match Collect(last.node, PathPolicy.Join(relative, last.name))
      case Err(_) =>
      case Ok(more) => assert more + [] == [] + more;
    } else {
      assert all[0] == children[0] && all[1..] == children[1..] + [last];
      CollectChildrenSnoc(children[1..], last, relative);
      match Collect(children[0].node, PathPolicy.Join(relative, children[0].name))
      case Err(_) =>
      case Ok(first) =>
        match CollectChildren(children[1..], relative)
        case Err(_) =>
        case Ok(rest) =>
          match Collect(last.node, PathPolicy.Join(relative, last.name))
          case Err(_) =>
          case Ok(more) => assert first + (rest + more) == (first + rest) + more;
    }
  }

  /** The source pushes into one growing vector. */
  method CollectItems(node: Tree, relative: string, out: seq<Entry>)
    returns (out': seq<Entry>, r: Result<(), TransferError>)
    ensures match Collect(node, relative)
            case Ok(items) => r.Ok? && out' == out + items
            case Err(e) => r == Err(e)
    decreases node
  {
    match node
    case FileNode(content) =>
      if !PathPolicy.EndingOf(relative).InName? {
        return out, Err(NOT_A_DIRECTORY);
      }
      return out + [Entry(relative, false, content)], Ok(());
    case Unusable(why) => return out, Err(why);
    case DirNode(children) =>
      out', r := CollectEntries(children, relative, out);
      if r.Ok? {
        assert out + CollectChildren(children, relative).value + [Entry(relative, true, [])]
            == out + (CollectChildren(children, relative).value + [Entry(relative, true, [])]);
        out' := out' + [Entry(relative, true, [])];
      }
  }

  lemma NoChildren(relative: string)
    ensures CollectChildren([], relative) == Ok([])
  {
  }

  /** The loop over one directory's entries. */
  method CollectEntries(children: seq<Child>, relative: string, out: seq<Entry>)
    returns (out': seq<Entry>, r: Result<(), TransferError>)
    ensures match CollectChildren(children, relative)
            case Ok(items) => r.Ok? && out' == out + items
            case Err(e) => r == Err(e)
    decreases children
  {
    hide Collect, CollectChildren, PathPolicy.Join;
    out' := out;
    ghost var collected: seq<Entry> := [];
    NoChildren(relative);
    assert children[..0] == [];
    for i := 0 to |children|
      invariant CollectChildren(children[..i], relative) == Ok(collected)
      invariant out' == out + collected
    {
      CollectChildrenSnoc(children[..i], children[i], relative);
      assert children[..i] + [children[i]] == children[..i + 1];
      out', r := CollectItems(children[i].node, PathPolicy.Join(relative, children[i].name), out');
      if r.Err? {
        FailedChildFailsAll(children, i + 1, relative);
        return;
      }
      collected := CollectChildren(children[..i + 1], relative).value;
    }
    assert children[..|children|] == children;
    r := Ok(());
  }

  lemma {:induction false} FailedChildFailsAll(children: seq<Child>, k: nat, relative: string)
    requires k <= |children| && CollectChildren(children[..k], relative).Err?
    ensures CollectChildren(children, relative) == CollectChildren(children[..k], relative)
    decreases |children|
  {
    if k == |children| {
      assert children[..k] == children;
    } else {
      var shorter := children[..|children| - 1];
      assert shorter[..k] == children[..k];
      FailedChildFailsAll(shorter, k, relative);
      CollectChildrenSnoc(shorter, children[|children| - 1], relative);
      assert shorter + [children[|children| - 1]] == children;
    }
  }

  /** Everything in a tree that keeps it from being collected, in the order it is walked. */
  function Complaints(node: Tree, relative: string): seq<TransferError>
    decreases node, 0
  {
    match node
    case FileNode(_) => if PathPolicy.EndingOf(relative).InName? then [] else [Policy(PathPolicy.PathUnavailable)]
    case Unusable(why) => [why]
    case DirNode(children) => ChildComplaints(children, relative)
  }

  function ChildComplaints(children: seq<Child>, relative: string): seq<TransferError>
    decreases children, 1
  {
    if children == [] then []
    else Complaints(children[0].node, PathPolicy.Join(relative, children[0].name))
         + ChildComplaints(children[1..], relative)
  }

  /** Collecting fails exactly when there is something to complain of, and with the first of it. */
  lemma {:induction false} FirstComplaint(node: Tree, relative: string)
    ensures var r, complaints := Collect(node, relative), Complaints(node, relative);
            if complaints == [] then r.Ok? else r == Err(complaints[0])
    decreases node, 0
  {
    hide PathPolicy.EndingOf, PathPolicy.Join;
    if node.DirNode? {
      FirstChildComplaint(node.children, relative);
    }
  }

  lemma {:induction false} FirstChildComplaint(children: seq<Child>, relative: string)
    ensures var r, complaints := CollectChildren(children, relative), ChildComplaints(children, relative);
            if complaints == [] then r.Ok? else r == Err(complaints[0])
    decreases children, 1
  {
    hide PathPolicy.EndingOf, PathPolicy.Join;
    if children != [] {
      FirstComplaint(children[0].node, PathPolicy.Join(relative, children[0].name));
      FirstChildComplaint(children[1..], relative);
    }
  }

  // ---------- totals and limits ----------

  function ByteSum(entries: seq<Entry>): nat {
    if entries == [] then 0 else |entries[0].content| + ByteSum(entries[1..])
  }

  function FileCount(entries: seq<Entry>): (n: nat)
    ensures n <= |entries|
  {
    if entries == [] then 0 else (if entries[0].isDir then 0 else 1) + FileCount(entries[1..])
  }

  /** Everything the hash sees: the files' contents, joined in order. */
  function HashInput(entries: seq<Entry>): seq<byte> {
    if entries == [] then []
    else (if entries[0].isDir then [] else entries[0].content) + HashInput(entries[1..])
  }

  /** A directory item has no bytes of its own. */
  predicate DirsAreEmpty(entries: seq<Entry>) {
    forall i :: 0 <= i < |entries| && entries[i].isDir ==> entries[i].content == []
  }

  /** The source's checked addition over item sizes. */
  method TransferTotalBytes(entries: seq<Entry>) returns (r: Result<nat, TransferError>)
    ensures r == if ByteSum(entries) < U64_LIMIT then Ok(ByteSum(entries)) else Err(SizeLimitExceeded)
  {
    var total := 0;
    for i := 0 to |entries|
      invariant total < U64_LIMIT && total + ByteSum(entries[i..]) == ByteSum(entries)
    {
      assert entries[i..][0] == entries[i] && entries[i..][1..] == entries[i + 1..];
      if total + |entries[i].content| >= U64_LIMIT {
        return Err(SizeLimitExceeded);
      }
      total := total + |entries[i].content|;
    }
    return Ok(total);
  }

  predicate WithinLimits(entries: seq<Entry>) {
    ByteSum(entries) <= MAX_TRANSFER_BYTES && |entries| <= MAX_TRANSFER_FILES
  }

  /** Which limit a transfer breaks. Counting files adds nothing to counting entries. */
  function LimitError(entries: seq<Entry>): Option<TransferError> {
    if ByteSum(entries) > MAX_TRANSFER_BYTES then Some(SizeLimitExceeded)
    else if |entries| > MAX_TRANSFER_FILES || FileCount(entries) > MAX_TRANSFER_FILES
    then Some(FileCountLimitExceeded)
    else None
  }

  lemma LimitsAreWithin(entries: seq<Entry>)
    ensures LimitError(entries) == None <==> WithinLimits(entries)
    ensures LimitError(entries) == Some(SizeLimitExceeded) <==> ByteSum(entries) > 4_294_967_296
    ensures LimitError(entries) == Some(FileCountLimitExceeded)
       <==> ByteSum(entries) <= 4_294_967_296 && |entries| > 10_000
  {
  }

  /** The buffers successive reads of one file return: never empty, never more than a chunk. */
  predicate ReadsOf(buffers: seq<seq<byte>>) {
    forall b :: b in buffers ==> 0 < |b| <= CHUNK_SIZE
  }

  /** Reads one file to its end, feeding the hash. */
  method HashFile(hashed: seq<byte>, buffers: seq<seq<byte>>) returns (hashed': seq<byte>)
    ensures hashed' == hashed + Flatten(buffers)
  {
    hashed' := hashed;
    for k := 0 to |buffers|
      invariant hashed' == hashed + Flatten(buffers[..k])
    {
      assert buffers[..k + 1] == buffers[..k] + [buffers[k]];
      FlattenSnoc(buffers[..k], buffers[k]);
      hashed' := hashed' + buffers[k];
    }
    assert buffers[..|buffers|] == buffers;
  }

  lemma NothingHashed()
    ensures HashInput([]) == []
  {
  }

  lemma HashInputSnoc(entries: seq<Entry>, i: nat)
    requires i < |entries|
    ensures HashInput(entries[..i + 1])
         == if entries[i].isDir then HashInput(entries[..i]) else HashInput(entries[..i]) + entries[i].content
  {
    var one := [entries[i]];
    assert entries[..i + 1] == entries[..i] + one;
    SumsAppend(entries[..i], one);
    assert one[1..] == [];
    assert HashInput(one) == (if entries[i].isDir then [] else entries[i].content) + HashInput([]);
  }

  /** What reading one item's file returns, buffer by buffer; nothing when opening or reading it fails. */
  type Reading = Option<seq<seq<byte>>>

  /** Whatever can be read is the file's content. */
  predicate ReadsEntries(readings: seq<Reading>, entries: seq<Entry>) {
    && |readings| == |entries|
    && forall i :: 0 <= i < |entries| && !entries[i].isDir && readings[i].Some? ==>
         ReadsOf(readings[i].value) && Flatten(readings[i].value) == entries[i].content
  }

  predicate SomeReadFails(readings: seq<Reading>, entries: seq<Entry>)
    requires |readings| == |entries|
  {
    exists i :: 0 <= i < |entries| && !entries[i].isDir && readings[i].None?
  }

  /** Hashes the files in order, however short the reads. */
  method HashItems(sha: Digest, entries: seq<Entry>, readings: seq<Reading>) returns (r: Result<string, TransferError>)
    requires ReadsEntries(readings, entries)
    ensures r == if SomeReadFails(readings, entries) then Err(Io) else Ok(ToHex(sha(HashInput(entries))))
  {
    hide HashInput, Flatten, ReadsOf;
    var hashed: seq<byte> := [];
    NothingHashed();
    assert entries[..0] == [];
    for i := 0 to |entries|
      invariant forall k :: 0 <= k < i && !entries[k].isDir ==> readings[k].Some?
      invariant hashed == HashInput(entries[..i])
    {
      HashInputSnoc(entries, i);
      if !entries[i].isDir {
        if readings[i].None? {
          return Err(Io);
        }
        hashed := HashFile(hashed, readings[i].value);
      }
    }
    assert entries[..|entries|] == entries;
    r := Ok(ToHex(sha(hashed)));
  }

  /** A prepared transfer's manifest. */
  datatype Prepared = Prepared(key: string, folder: string, total: nat, sha256: string, entries: seq<Entry>)

  function Prepare(sha: Digest, key: string, folder: string, sources: seq<Child>): Result<Prepared, TransferError> {
    match CollectSources(sources)
    case Err(e) => Err(e)
    case Ok(entries) =>
      match LimitError(entries)
      case Some(e) => Err(e)
      case None => Ok(Prepared(key, folder, ByteSum(entries), ToHex(sha(HashInput(entries))), entries))
  }

  lemma {:induction false} SourcesAreChildren(sources: seq<Child>)
    ensures CollectSources(sources) == CollectChildren(sources, "")
  {
    if sources != [] {
      assert "" + sources[0].name == sources[0].name;
      SourcesAreChildren(sources[1..]);
    }
  }

  /** Why a named source does not resolve for reading, if it does not. */
  function Unresolved(source: Child): Option<TransferError> {
    match source.node
    case Unusable(Policy(e)) => Some(Policy(e))
    case FileNode(_) => if PathPolicy.EndingOf(source.name).InName? then None else Some(NOT_A_DIRECTORY)
    case _ => None
  }

  /** The first named source that does not resolve, before anything is collected. */
  function SubmissionError(sources: seq<Child>): Option<TransferError> {
    if sources == [] then None
    else if Unresolved(sources[0]).Some? then Unresolved(sources[0])
    else SubmissionError(sources[1..])
  }

  /** The source is refused by path resolution itself, or is a file named like a directory. */
  predicate NotFound(source: Child, why: TransferError) {
    || (source.node == Unusable(why) && why.Policy?)
    || (source.node.FileNode? && !PathPolicy.EndingOf(source.name).InName? && why == Policy(PathPolicy.PathUnavailable))
  }

  /** The answer is the reason of the first source that is not found, if one is not. */
  lemma {:induction false} SubmissionExactly(sources: seq<Child>)
    ensures match SubmissionError(sources)
            case None => forall s, why :: s in sources ==> !NotFound(s, why)
            case Some(why) =>
              exists i :: 0 <= i < |sources| && NotFound(sources[i], why)
                && forall j, other :: 0 <= j < i ==> !NotFound(sources[j], other)
  {
    hide PathPolicy.EndingOf;
    if sources != [] {
      SubmissionExactly(sources[1..]);
      if Unresolved(sources[0]) == None && SubmissionError(sources[1..]).Some? {
        var why, rest := SubmissionError(sources[1..]).value, sources[1..];
        var i :| 0 <= i < |rest| && NotFound(rest[i], why)
                   && forall j, other :: 0 <= j < i ==> !NotFound(rest[j], other);
        assert sources[i + 1] == rest[i];
        assert forall j :: 0 < j < i + 1 ==> sources[j] == rest[j - 1];
      }
    }
  }

  /** `validate_submission`. */
  method ValidateSubmission(sources: seq<Child>) returns (r: Option<TransferError>)
    ensures r == SubmissionError(sources)
  {
    assert sources[0..] == sources;
    for i := 0 to |sources|
      invariant SubmissionError(sources[i..]) == SubmissionError(sources)
    {
      assert sources[i..][0] == sources[i] && sources[i..][1..] == sources[i + 1..];
      if Unresolved(sources[i]).Some? {
        return Unresolved(sources[i]);
      }
    }
    r := None;
  }

  /** What can be prepared always passes the check made beforehand. */
  lemma {:induction false} PreparedIsSubmitted(sources: seq<Child>)
    requires CollectSources(sources).Ok?
    ensures SubmissionError(sources) == None
  {
    if sources != [] {
      PreparedIsSubmitted(sources[1..]);
    }
  }

  /** The loop over the named sources. */
  method CollectRequest(sources: seq<Child>) returns (r: Result<seq<Entry>, TransferError>)
    ensures r == CollectSources(sources)
  {
    hide Collect, CollectChildren, CollectSources, PathPolicy.Join;
    SourcesAreChildren(sources);
    var items: seq<Entry> := [];
    NoChildren("");
    assert sources[..0] == [];
    for i := 0 to |sources|
      invariant CollectChildren(sources[..i], "") == Ok(items)
    {
      CollectChildrenSnoc(sources[..i], sources[i], "");
      assert sources[..i] + [sources[i]] == sources[..i + 1];
      assert PathPolicy.Join("", sources[i].name) == sources[i].name by { JoinNothing(sources[i].name); }
      var collected;
      items, collected := CollectItems(sources[i].node, sources[i].name, items);
      if collected.Err? {
        FailedChildFailsAll(sources, i + 1, "");
        return Err(collected.error);
      }
    }
    assert sources[..|sources|] == sources;
    r := Ok(items);
  }

  lemma JoinNothing(name: string)
    ensures PathPolicy.Join("", name) == name
  {
    assert "" + name == name;
  }

  /** `prepare_outbound`: checks that every named source resolves, collects them one by one, adds up
      and checks, then hashes. */
  method PrepareOutbound(sha: Digest, key: string, folder: string, sources: seq<Child>, readings: seq<Reading>)
    returns (r: Result<Prepared, TransferError>)
    requires CollectSources(sources).Ok? ==> ReadsEntries(readings, CollectSources(sources).value)
    ensures r == match SubmissionError(sources)
                 case Some(e) => Err(e)
                 case None =>
                   match Prepare(sha, key, folder, sources)
                   case Err(e) => Err(e)
                   case Ok(p) => if SomeReadFails(readings, p.entries) then Err(Io) else Ok(p)
  {
    hide CollectSources, SubmissionError, HashInput, ByteSum, SomeReadFails, ReadsEntries;
    var refused := ValidateSubmission(sources);
    if refused.Some? {
      return Err(refused.value);
    }
    var collected := CollectRequest(sources);
    if collected.Err? {
      return Err(collected.error);
    }
    var items := collected.value;
    var total := TransferTotalBytes(items);
    if total.Err? {
      return Err(total.error);
    }
    if total.value > MAX_TRANSFER_BYTES {
      return Err(SizeLimitExceeded);
    }
    if |items| > MAX_TRANSFER_FILES || FileCount(items) > MAX_TRANSFER_FILES {
      return Err(FileCountLimitExceeded);
    }
    var hex := HashItems(sha, items, readings);
    if hex.Err? {
      return Err(hex.error);
    }
    r := Ok(Prepared(key, folder, total.value, hex.value, items));
  }

  // ---------- list facts ----------

  lemma {:induction false} SumsAppend(a: seq<Entry>, b: seq<Entry>)
    ensures ByteSum(a + b) == ByteSum(a) + ByteSum(b)
    ensures FileCount(a + b) == FileCount(a) + FileCount(b)
    ensures HashInput(a + b) == HashInput(a) + HashInput(b)
  {
    if a == [] {
      assert a + b == b;
    } else {
      assert (a + b)[0] == a[0] && (a + b)[1..] == a[1..] + b;
      SumsAppend(a[1..], b);
    }
  }

  lemma {:induction false} HashInputLength(entries: seq<Entry>)
    requires DirsAreEmpty(entries)
    ensures |HashInput(entries)| == ByteSum(entries)
  {
    if entries != [] {
      assert DirsAreEmpty(entries[1..]);
      HashInputLength(entries[1..]);
    }
  }

  lemma CollectedIsNotEmpty(node: Tree, relative: string)
    ensures Collect(node, relative).Ok? ==> Collect(node, relative).value != []
  {
  }

  lemma {:induction false} CollectedDirsAreEmpty(node: Tree, relative: string)
    requires Collect(node, relative).Ok?
    ensures DirsAreEmpty(Collect(node, relative).value)
    decreases node, 0
  {
    if node.DirNode? {
      ChildrenDirsAreEmpty(node.children, relative);
    }
  }

  /** Every file is streamed under a path that ends in its name. */
  predicate FilesEndInNames(entries: seq<Entry>) {
    forall i :: 0 <= i < |entries| && !entries[i].isDir ==> PathPolicy.EndingOf(entries[i].relative).InName?
  }

  lemma {:induction false} CollectedFilesEndInNames(node: Tree, relative: string)
    requires Collect(node, relative).Ok?
    ensures FilesEndInNames(Collect(node, relative).value)
    decreases node, 0
  {
    hide PathPolicy.EndingOf;
    if node.DirNode? {
      ChildrenFilesEndInNames(node.children, relative);
    }
  }

  lemma {:induction false} ChildrenFilesEndInNames(children: seq<Child>, relative: string)
    requires CollectChildren(children, relative).Ok?
    ensures FilesEndInNames(CollectChildren(children, relative).value)
    decreases children, 1
  {
    hide PathPolicy.EndingOf;
    if children != [] {
      CollectedFilesEndInNames(children[0].node, PathPolicy.Join(relative, children[0].name));
      ChildrenFilesEndInNames(children[1..], relative);
    }
  }

  lemma SourcesFilesEndInNames(sources: seq<Child>)
    requires CollectSources(sources).Ok?
    ensures FilesEndInNames(CollectSources(sources).value)
  {
    SourcesAreChildren(sources);
    ChildrenFilesEndInNames(sources, "");
  }

  lemma {:induction false} ChildrenDirsAreEmpty(children: seq<Child>, relative: string)
    requires CollectChildren(children, relative).Ok?
    ensures DirsAreEmpty(CollectChildren(children, relative).value)
    decreases children, 1
  {
    if children != [] {
      CollectedDirsAreEmpty(children[0].node, PathPolicy.Join(relative, children[0].name));
      ChildrenDirsAreEmpty(children[1..], relative);
    }
  }

  lemma {:induction false} SourcesDirsAreEmpty(sources: seq<Child>)
    requires CollectSources(sources).Ok?
    ensures DirsAreEmpty(CollectSources(sources).value)
  {
    if sources != [] {
      CollectedDirsAreEmpty(sources[0].node, sources[0].name);
      SourcesDirsAreEmpty(sources[1..]);
    }
  }
}
