# agent-send: a verified model of paired-peer transfer

agent-send's daemon moves files between paired devices. A sender flattens source trees into items,
hashes them and streams a manifest and bounded chunks through a sequence-numbered authenticated
channel; a receiver writes each file to a temporary sibling, renames it, and either commits the whole
transfer under its idempotency key or rolls it back. Pairing decides which peers are trusted with
which secret, and a ledger decides when an agent's submission may be delivered.

This project models that in Dafny and proves what it is for:

- **All or nothing.** Over any sequence of connections, each cut, cancelled, refused or hit by a
  system fault anywhere, the destination holds its initial files unchanged and the files of exactly
  the connections that committed, which share none, plus only the temporary files of a condition
  stated exactly (`Connections.HistoryIsAllOrNothing`, `Connections.CommitsAreApart`).
- **Exactly once.** A key commits at most once, its outcome never changes, and every `Ok` a sender
  returns is the outcome the receiver holds; a retry is given it
  (`Connections.CommitsOnce`, `Connections.SenderOkIsHeld`, `Connections.RetryReturnsStored`).
- **The stream refines the direct copy**, and directory trees survive the trip
  (`Refinement.StreamRefinesLoopback`, `Trees.TreeRoundTrip`). Conversely, whatever a peer sends, a
  run that commits was a well-formed stream (`Refinement.CommittedRunIsAStream`).
- **It goes through.** From unchanging sources over a channel that delivers, a transfer whose direct copy
  would succeed is sealed, opened, committed and acknowledged (`EndToEnd.UndisturbedTransferCommits`);
  what is accepted, answered, refused and why is stated exactly, by operation
  (`Connections.FirstReply`, `Connections.SecondReply`, `Receiver.ErrorsExactly`,
  `Channel.SealedIsOffered`, `Trust.RequestExactly`, `Ledger.RecordsWereAllowed`).
- **Snapshot integrity**, across an adversarial network and any system faults at the receiver; and
  for each connection of a pair, an `Ok` computed from what the sender opened is what the receiver
  holds (`EndToEnd.CommitDeliversSnapshot`, `EndToEnd.SendSocketTransfer`,
  `EndToEnd.SenderOkIsHeldAcross`).
- **The channel returns prefixes.** What one end opened is a prefix of what the other end sealed,
  whatever the network does; frames are numbered without repetition, and those not yet opened still
  open in order (`Channel.OpenedIsPrefixOfSealed`, `Channel.SealedFramesAreDistinct`,
  `Channel.PendingFramesOpen`).
- **Trust traces**, persistence and restart (`Trust.TrustTrace`, `Trust.StoreAgreesIff`,
  `Trust.RestartRestoresTrust`).
- **Containment** under symbolic links, dangling ones included: an accepted read is beneath the
  root, and everything an accepted write makes, places or replaces is too
  (`PathPolicy.ReadContainment`, `LinkedWrites.WriteLandsBeneathRoot`,
  `LinkedWrites.WritesStayBeneathRoot`).

## How it is laid out

| file | what it holds |
|---|---|
| `Base.dfy`, `Text.dfy`, `Protocol.dfy` | shared types, hexadecimal and decimal text, messages and limits |
| `PathPolicy.dfy`, `LinkedWrites.dfy`, `FileSystem.dfy` | capability paths over a filesystem with links; what accepted writes do there; the link-free destination tree |
| `Receiver.dfy`, `Connections.dfy`, `Incoming.dfy` | the receiving state machine, whole connections and histories, and the classes that run it |
| `Sources.dfy`, `Streaming.dfy` | collecting, limits and hashing; the sending side |
| `Copying.dfy`, `Refinement.dfy`, `Trees.dfy` | the loopback copy, the refinement between it and the stream, tree round trips |
| `Wire.dfy`, `FrameBound.dfy`, `Channel.dfy`, `EndToEnd.dfy` | framing and encodings, frame sizes, the secure channel, everything together |
| `Trust.dfy`, `PairingCode.dfy`, `Ledger.dfy` | pairing, trust and its store; pairing codes; agent submissions |

Code that updates state in place is a class whose methods are proved equal to step functions
(`Receiver.FileStartStep` for `Incoming.IncomingTransfer.FileStart`, and so on); the theorems are about
those functions and the runs built from them.

The environment is universally quantified: clock stamps, short reads, system faults and how far a
failing call got (`FileSystem.Fault`, `Copying.CopyFault`, `Trust.SaveFault`), what each look at the
cancellation flag sees, which reads fail and which sends are lost (`Streaming.Sender`), ciphertexts and
every action of the network (`Channel.Action`), and random draws (`Trust.Random`) are all parameters.
SHA-256 is an arbitrary function; no lemma assumes it has no collisions, and snapshot integrity, which
needs it, says so about just the two byte strings compared (`Refinement.NoCollision`). The cipher
(ChaCha20-Poly1305, section 2.8 of RFC 8439) is ideal: decryption succeeds exactly on what was encrypted
with the same key, nonce and associated data. Key derivation (section 2.3 of RFC 5869) is an arbitrary
function of info and secret. System calls on paths behave as on Linux where the text of a path matters:
a path that ends in a separator or in "." exists only as a directory, no file is renamed to one, and no
directory is made under a final ".".

## Where the code falls short, exactly

- When flushing or renaming a whole file fails, the receiver has already forgotten its temporary
  file, which stays behind. The rename always fails when the file's path does not end in a name: a
  peer that starts "x/" gets its temporary file opened, even over an existing file "x", and can never
  complete it. `Connections.RefusedRestores` says exactly when a temporary file is left,
  `Connections.FlushFailureLeavesATemp` and, without any fault, `Connections.SeparatorLeavesATemp` give
  instances, and `Connections.HistoryIsAllOrNothing` accounts for exactly those files.
- An empty directory sent under a name that ends in "." after another name cannot be made where it is
  missing. `Trees.TreeRoundTrip` says that this is the only way a request with room fails,
  `Trees.FinalDotIsRefused` gives an instance.
- A file may take the name of a dangling link in the destination; rolling it back removes the file and
  does not bring the link back (`LinkedWrites.RollbackLosesLink`, `LinkedWrites.DanglingLinkIsLost`).
- `docs/ARCHITECTURE.md` calls the peer store an atomic file. Setting the file's permissions happens
  after the rename, so its failure is reported as a failed save although the contents changed, and
  memory is rolled back. `Trust.StoreAgreesIff` says from the state before which operations this
  makes store and memory disagree, `Trust.ChmodFailureDisagrees` gives an instance,
  `Trust.NextSaveRepairs` the way out.
- A loopback copy whose temporary name is already taken removes the file holding that name.
  `Copying.LoopbackKeepsFilesIff` gives the exact condition for a whole transfer,
  `Copying.CopyKeepsFilesIff` for one file, `Copying.ClashRemovesAFile` an instance. The streamed
  receiver does not do this.

## Model

| member | source | states |
|---|---|---|
| PathPolicy.ValidateRelative | crates/agent-send-core/src/path_policy.rs:64-82 | a relative path is refused for the first applicable reason among empty, NUL, absolute and traversal, and accepted otherwise |
| PathPolicy.ValidateComponents | crates/agent-send-core/src/path_policy.rs:72-80 | the early-returning walk reports a root before a parent step and accepts exactly the sequences with neither |
| PathPolicy.RefusedExactly | crates/agent-send-core/src/path_policy.rs:64-82 | the reason told from the text: empty, a NUL anywhere, a leading separator, ".." standing between separators or at an end; nothing else is refused |
| PathPolicy.NamesExactly | crates/agent-send-core/src/path_policy.rs:72-80 | the names of a path are its pieces between separators, in order, without empty and dotted ones |
| PathPolicy.EndingExactly | crates/agent-send-core/src/path_policy.rs:137-143 | which texts end in a name, in a separator or in ".", on which it depends what exists under them |
| PathPolicy.JoinDescends | crates/agent-send-daemon/src/transfer.rs:656-657 | joining a directory entry's name keeps a path acceptable, appends exactly that name, whatever trailing separators the path had, and ends in it |
| PathPolicy.CanonicalIsFixed | crates/agent-send-core/src/path_policy.rs:97-107 | canonical paths are fixed points of link-following lookup |
| PathPolicy.FindNearestExisting | crates/agent-send-core/src/path_policy.rs:137-143 | the climbing loop terminates with the path itself if it is found as written, or else its longest existing ancestor, following links |
| PathPolicy.NearestFound | crates/agent-send-core/src/path_policy.rs:137-143 | what is found exists, no longer ancestor does, and the path itself is passed over exactly when it is not found as its text is written |
| PathPolicy.NearestExisting | crates/agent-send-core/src/path_policy.rs:137-143 | the prefix found exists and no longer prefix does; none is found only if no prefix exists |
| PathPolicy.ReadContainment | crates/agent-send-core/src/path_policy.rs:104-109 | an accepted read is an existing entry beneath the canonical root, named through no link |
| PathPolicy.WriteContainment | crates/agent-send-core/src/path_policy.rs:84-117 | for an accepted write the ancestor found is at or below the root, its canonical form is beneath the root, and the remaining names only descend |
| PathPolicy.ReadExactly | crates/agent-send-core/src/path_policy.rs:88-117 | which reads are accepted, as exactly where the path leads, and the reason of each refusal in the order of the checks |
| PathPolicy.WriteExactly | crates/agent-send-core/src/path_policy.rs:88-117 | which writes are accepted, as the path below the root, and the reason of each refusal in the order of the checks |
| LinkedWrites.CreateBelow | crates/agent-send-daemon/src/transfer.rs:437-440 | making directories below an existing ancestor makes exactly the steps below where the ancestor leads, stops at the first name already taken, even by a dangling link, and succeeds exactly when none is |
| LinkedWrites.DirectoryLandsBeneathRoot | crates/agent-send-core/src/path_policy.rs:110-117 | whatever links stand in the way, all that an accepted directory makes is beneath the canonical root, and if it is made its path leads to a directory there |
| LinkedWrites.WriteLandsBeneathRoot | crates/agent-send-daemon/src/transfer.rs:458-478 | whatever links stand in the way, all that an accepted new file changes is beneath the canonical root; exactly when it can be placed, its path ending in a name, its entry is in the directory its path leads to, and a link of that name is replaced, not followed |
| LinkedWrites.WritesStayBeneathRoot | crates/agent-send-daemon/src/transfer.rs:423-479 | over any sequence of accepted and refused writes, links replaced or not, all that changed is beneath the one canonical root and no file or directory there was is touched |
| LinkedWrites.RollbackLosesLink | crates/agent-send-daemon/src/transfer.rs:588-599 | removing a placed file leaves exactly the directories made, and takes away a link whose name it had taken |
| LinkedWrites.DanglingLinkIsLost | crates/agent-send-daemon/src/transfer.rs:588-599 | a concrete dangling link that is gone after the rollback of a file that took its name |
| FileSystem.WriteTargetIsResolve | crates/agent-send-core/src/path_policy.rs:88-118 | on a tree without links the full link-aware check and the transfer model's target computation agree, errors included |
| FileSystem.TempDiffers | crates/agent-send-daemon/src/transfer.rs:743-749 | a file's temporary sibling never has the file's own name, whatever extension or stamp |
| FileSystem.TempIsNamedAfter | crates/agent-send-daemon/src/transfer.rs:743-749 | for every name: the sibling is named after the part before the last dot, unless that dot comes first, then the stamp |
| Receiver.NewIsHealthy | crates/agent-send-daemon/src/transfer.rs:188-204 | a fresh incoming transfer within the size limit owns nothing and is healthy |
| Receiver.DirectoryKeeps | crates/agent-send-daemon/src/transfer.rs:423-441 | a directory message never changes a file, accepted or not, and keeps a transfer healthy when accepted |
| Receiver.FileStartKeeps | crates/agent-send-daemon/src/transfer.rs:443-479 | starting a file adds only its new empty temporary file, keeps everything removable, and reserves budget and target |
| Receiver.ChunkKeeps | crates/agent-send-daemon/src/transfer.rs:481-513 | an accepted chunk extends the open file and the hash by the same bytes within budget; a refused one leaves everything removable |
| Receiver.FileCompleteKeeps | crates/agent-send-daemon/src/transfer.rs:515-531 | completion turns the temporary file into the target, which did not exist, with the bytes received |
| Receiver.SecondSizeCheckIsDead | crates/agent-send-daemon/src/transfer.rs:502-510 | in a healthy transfer the second size check cannot fire and no 64-bit counter overflows |
| Receiver.AdmittedStart | crates/agent-send-daemon/src/transfer.rs:443-479 | when identifier, state, budget, limits, policy and target allow it, starting a file opens its temporary sibling |
| Receiver.RefusedStart | crates/agent-send-daemon/src/transfer.rs:443-462 | otherwise starting a file is an error and touches nothing on disk |
| Receiver.DirectoryAccepted | crates/agent-send-daemon/src/transfer.rs:423-441 | exactly which directories are accepted, and what is then on disk and counted |
| Receiver.FileStartAccepted | crates/agent-send-daemon/src/transfer.rs:443-479 | exactly which files are started, and what is then on disk, reserved and open |
| Receiver.ChunkAccepted | crates/agent-send-daemon/src/transfer.rs:481-513 | exactly which chunks are accepted, and what is then written, hashed and counted |
| Receiver.FileCompleteAccepted | crates/agent-send-daemon/src/transfer.rs:515-531 | exactly which completions are accepted, and that the file then has its target's name |
| Receiver.CompleteAccepted | crates/agent-send-daemon/src/transfer.rs:533-557 | exactly which transfers are completed, letters of the hash compared without case, and the outcome; nothing changes otherwise |
| Text.LowerAsciiIgnoresCase | crates/agent-send-daemon/src/transfer.rs:548 | two hashes compare equal exactly when they are so character by character, up to the case of letters |
| Receiver.OthersAreRefused | crates/agent-send-daemon/src/peer_transport.rs:616-617 | every other kind of message is an error and changes nothing |
| Receiver.ErrorsExactly | crates/agent-send-daemon/src/transfer.rs:423-577 | told from the error: for each there is, exactly which messages meet it, in whatever order the checks are made |
| Connections.DropRestores | crates/agent-send-daemon/src/transfer.rs:588-599 | dropping an uncommitted transfer leaves exactly the files there were before it |
| Connections.FileCompleteFails | crates/agent-send-daemon/src/transfer.rs:515-531 | after a failed completion the drop restores the initial files, except for exactly the temporary file of a whole file that could not be flushed or renamed, its path not ending in a name included |
| Connections.RefusedRestores | crates/agent-send-daemon/src/peer_transport.rs:619-629 | after any refused message the drop restores the initial files, up to such a temporary file |
| Connections.FlushFailureLeavesATemp | crates/agent-send-daemon/src/transfer.rs:517-527 | a concrete transfer of one empty file whose failed flush leaves its temporary file behind |
| Connections.SeparatorLeavesATemp | crates/agent-send-daemon/src/transfer.rs:458-527 | a concrete transfer, met by no fault, that starts "x/" over the file "x" and leaves its temporary file behind |
| Connections.AcceptedKeeps | crates/agent-send-daemon/src/transfer.rs:423-531 | every accepted message keeps the transfer healthy, and the files held plus those the remaining messages promise stay the same |
| Connections.ReachedIsHealthy | crates/agent-send-daemon/src/transfer.rs:455-512 | every state reached without an error satisfies the byte budget, entry counts, hash and ownership invariants |
| Connections.BytesAreConserved | crates/agent-send-daemon/src/transfer.rs:481-531 | the byte counter is the size of the committed files plus the open offset, at most the announced total and 4 GiB |
| Connections.CommitMatchesManifest | crates/agent-send-daemon/src/transfer.rs:533-557 | a transfer commits only with the manifest's byte count and hash, the hash being that of all chunk data received |
| Connections.RunIsAllOrNothing | crates/agent-send-daemon/src/peer_transport.rs:586-630 | a run over any messages and faults leaves the promised files exactly when it commits and the initial ones otherwise, up to a lost temporary file |
| Connections.ServeIsAllOrNothing | crates/agent-send-daemon/src/peer_transport.rs:549-631 | the same for a whole connection from its manifest, including repeated and refused manifests |
| Connections.ManifestsExactly | crates/agent-send-daemon/src/transfer.rs:164-205 | told from the answer: exactly which manifests are answered from memory, refused for which reason, or given a fresh transfer |
| Connections.FirstReply | crates/agent-send-daemon/src/peer_transport.rs:563-585 | a manifest with a new key is answered with ready exactly when its total is within 4 GiB and its folder exists, accepts writes and has a directory for a root; otherwise the rejection is the only reply and nothing happens |
| Connections.SecondReply | crates/agent-send-daemon/src/peer_transport.rs:586-630 | after ready and any accepted messages, a cancel or a lost peer is not answered, a refused message gets the rejection, a completion its result |
| Connections.HistoryIsAllOrNothing | crates/agent-send-daemon/src/lib.rs:863-876 | over any sequence of connections: initial files unchanged, plus the files of the connections that committed, plus only the temporary files lost to failed flushes or renames |
| Connections.CommittedFilesStay | crates/agent-send-daemon/src/lib.rs:863-876 | what a connection commits is still there byte for byte after any later connections |
| Connections.CommitsAreApart | crates/agent-send-daemon/src/lib.rs:863-876 | two connections that commit share no file |
| Connections.OutcomesAreStable | crates/agent-send-daemon/src/transfer.rs:172-180 | a remembered outcome is never changed or forgotten |
| Connections.CommitIsHeldFrom | crates/agent-send-daemon/src/transfer.rs:551-556 | a committed outcome is held under its key from that connection on |
| Connections.CommitsOnce | crates/agent-send-daemon/src/transfer.rs:172-180 | after a commit, any later connection with the key is answered with the stored outcome and changes nothing |
| Connections.SenderOkIsHeld | crates/agent-send-daemon/src/peer_transport.rs:498-544 | on any attempt and with any replies lost, an outcome the sender returns is the one the receiver holds for the key, then and later |
| Connections.RetryReturnsStored | crates/agent-send-daemon/src/peer_transport.rs:498-512 | a later connection with a committed key makes its sender return the stored outcome, whatever it would have streamed |
| Connections.RunReplies | crates/agent-send-daemon/src/peer_transport.rs:563-629 | a result is only ever sent for an outcome already remembered |
| Connections.RunNeedsComplete | crates/agent-send-daemon/src/peer_transport.rs:591-630 | messages without TransferComplete commit nothing |
| Incoming.TransferEngine.BeginIncoming | crates/agent-send-daemon/src/transfer.rs:164-205 | a manifest is answered from memory, refused, or given a fresh transfer, in the source's order of checks |
| Incoming.IncomingTransfer.constructor | crates/agent-send-daemon/src/transfer.rs:188-204 | the fresh transfer's whole state |
| Incoming.IncomingTransfer.ReserveEntry | crates/agent-send-daemon/src/transfer.rs:569-575 | reserves one entry below the limit, changing nothing otherwise |
| Incoming.IncomingTransfer.ReserveFile | crates/agent-send-daemon/src/transfer.rs:560-567 | reserves one file and one entry when both limits allow, changing nothing otherwise |
| Incoming.IncomingTransfer.Directory | crates/agent-send-daemon/src/transfer.rs:423-441 | in-place update equal to the step the directory theorems are about |
| Incoming.IncomingTransfer.FileStart | crates/agent-send-daemon/src/transfer.rs:443-479 | in-place update equal to the step the file-start theorems are about |
| Incoming.IncomingTransfer.OpenTempFile | crates/agent-send-daemon/src/transfer.rs:463-478 | makes the parent, opens a new sibling, and records the open file |
| Incoming.IncomingTransfer.Chunk | crates/agent-send-daemon/src/transfer.rs:481-513 | in-place update equal to the step the chunk theorems are about, partial writes included |
| Incoming.IncomingTransfer.FileComplete | crates/agent-send-daemon/src/transfer.rs:515-531 | in-place update equal to the step the completion theorems are about |
| Incoming.IncomingTransfer.Complete | crates/agent-send-daemon/src/transfer.rs:533-558 | checks count and hash, and remembers the outcome under the key exactly when it succeeds |
| Incoming.IncomingTransfer.Drop | crates/agent-send-daemon/src/transfer.rs:588-599 | removes the open temporary file and, unless completed, every committed target, and nothing else |
| Incoming.IncomingTransfer.HandleMessage | crates/agent-send-daemon/src/peer_transport.rs:591-618 | dispatch of one message to the step of its kind, all others being protocol errors |
| Incoming.ReceiveSocketTransfer | crates/agent-send-daemon/src/peer_transport.rs:549-631 | the receive loop leaves the tree, the remembered outcomes and the replies that the connection theorems speak about |
| Sources.CollectItems | crates/agent-send-daemon/src/transfer.rs:634-666 | pushes a source's items depth first, each directory after its contents, or stops with the first error |
| Sources.CollectEntries | crates/agent-send-daemon/src/transfer.rs:655-659 | the loop over one directory's entries |
| Sources.FirstComplaint | crates/agent-send-daemon/src/transfer.rs:634-666 | collecting fails exactly when the tree holds something to complain of, and with the first of it in walking order |
| Sources.TransferTotalBytes | crates/agent-send-daemon/src/transfer.rs:668-674 | checked addition yields the mathematical sum exactly when it fits 64 bits |
| Sources.LimitsAreWithin | crates/agent-send-daemon/src/transfer.rs:676-686 | the limit checks pass exactly within 4 GiB and 10000 items, and which limit is reported otherwise; the separate file count adds nothing |
| Sources.HashItems | crates/agent-send-daemon/src/transfer.rs:688-702 | the hash is that of all file contents joined in order, however short the reads, or the error of a file that cannot be read |
| Sources.HashFile | crates/agent-send-daemon/src/transfer.rs:692-699 | feeding one file's reads to the hash feeds its contents |
| Sources.PrepareOutbound | crates/agent-send-daemon/src/transfer.rs:139-162 | checking that all sources resolve, collecting, adding up, checking limits and hashing yield exactly the prepared transfer the stream theorems start from, or the first error in that order |
| Sources.PreparedIsSubmitted | crates/agent-send-daemon/src/transfer.rs:114-121 | a request that can be prepared always passes the check made before it |
| Sources.SubmissionExactly | crates/agent-send-daemon/src/transfer.rs:114-121 | the submission is refused with the reason of the first source that path resolution refuses, and only then |
| Sources.SourcesFilesEndInNames | crates/agent-send-daemon/src/transfer.rs:634-648 | every file that is collected is streamed under a path that ends in a name |
| Streaming.Sender.Stream | crates/agent-send-daemon/src/transfer.rs:317-388 | a finished stream sent the whole message sequence with matching counts, and it finishes exactly when no look at the cancellation flag sees one, no file fails and no send is lost; otherwise it stops at the first of these, a cancelled one after a proper prefix and a Cancel; progress strictly increases to the bytes sent |
| Streaming.Sender.StreamItem | crates/agent-send-daemon/src/transfer.rs:329-379 | one item's messages are attempted in order, wholly or up to the first cancel seen, failed read or lost send |
| Streaming.Sender.StreamFileItem | crates/agent-send-daemon/src/transfer.rs:344-378 | start, chunks and completion of one file, or a prefix of them up to the first such point |
| Streaming.Sender.StreamFile | crates/agent-send-daemon/src/transfer.rs:349-374 | the read loop sends gapless chunks whose joined bytes are what was read, looks for a cancel before each read, and stops at the first such point |
| Streaming.Sender.NextRead | crates/agent-send-daemon/src/transfer.rs:352-360 | a cancel that is seen is passed on and stops the stream, before the file is touched; a failing read breaks it |
| Streaming.Sender.SendChunk | crates/agent-send-daemon/src/transfer.rs:363-373 | a chunk is counted and reported exactly if it was sent, with the count after it |
| Streaming.ReportsIncrease | crates/agent-send-daemon/src/transfer.rs:368-373 | progress reports are pairwise strictly increasing and the last one is everything streamed |
| Streaming.ProperPrefixNeverCompletes | crates/agent-send-daemon/src/transfer.rs:327-382 | only the whole stream contains TransferComplete |
| Copying.Receive | crates/agent-send-daemon/src/transfer.rs:216-294 | the loopback leaves the specified engine and answer for what it read, changed since it was listed or not; it is stopped only by the first cancel it sees or a fault met before any, has then placed whole items only and remembered nothing, and succeeds only if it looked for a cancel at every point and saw none |
| Copying.StableLoopback | crates/agent-send-daemon/src/transfer.rs:216-294 | for unchanged sources this is the loopback the stream refines |
| Copying.LoopbackExactly | crates/agent-send-daemon/src/transfer.rs:216-294 | every answer of the loopback: a remembered key, an unknown folder, an uncollectable source and a broken limit change nothing; else the first item that fails, or size, count and hash of what was read, which alone is remembered |
| Copying.LoopbackIsRemembered | crates/agent-send-daemon/src/transfer.rs:225-235 | after a success, any later loopback or connection with the key, whatever it brings, is given the outcome and changes nothing |
| Copying.CopyOneExactly | crates/agent-send-daemon/src/transfer.rs:249-283 | for every item: the refusals in order, where it fails, and the tree when it succeeds |
| Copying.CopyAllStops | crates/agent-send-daemon/src/transfer.rs:248-283 | a list fails as its shortest failing part does, keeping what was copied before |
| Copying.CopyEntries | crates/agent-send-daemon/src/transfer.rs:248-283 | the item loop copies items one after another and stops at the first failure, cancel seen or system fault; to finish it looks before every item and every read |
| Copying.PlaceItem | crates/agent-send-daemon/src/transfer.rs:249-263 | one item is placed as specified, no cancel seen and no fault met, or stopped for the first of these with no file changed but a temporary file that could not be renamed |
| Copying.PlaceFile | crates/agent-send-daemon/src/transfer.rs:264-282 | a file appears under its target with the bytes read, or is stopped for the first cancel seen or fault met with no file changed but such a temporary file |
| Copying.CopyBuffers | crates/agent-send-daemon/src/transfer.rs:704-735 | the copy loop writes, hashes and counts the same bytes, looking for a cancel before each read; it stops exactly at the first cancel or fault, its temporary file then gone |
| Copying.CopyKeepsFilesIff | crates/agent-send-daemon/src/transfer.rs:264-280 | a loopback file copy leaves existing files alone exactly when its temporary name is not one of theirs, or the directory cannot be made |
| Copying.ClashRemovesAFile | crates/agent-send-daemon/src/transfer.rs:268-279 | a concrete existing file is removed by a refused copy of another file |
| Copying.LoopbackKeepsFilesIff | crates/agent-send-daemon/src/transfer.rs:248-283 | a whole loopback transfer leaves existing files alone exactly when no item it reaches has a temporary name that is one of theirs; one that succeeds always does |
| Refinement.DirItemRun | crates/agent-send-daemon/src/transfer.rs:337-343 | a streamed directory item is accepted exactly when the direct copy of it succeeds, with the same tree |
| Refinement.FileItemRun | crates/agent-send-daemon/src/transfer.rs:344-378 | a streamed file is accepted exactly when the direct copy of what was read succeeds and its length is as announced and within budget, with the same tree |
| Refinement.ItemsRun | crates/agent-send-daemon/src/transfer.rs:329-379 | a streamed list of items is accepted exactly when copying them succeeds and every length is as announced |
| Refinement.HonestRun | crates/agent-send-daemon/src/transfer.rs:380-387 | an honest stream ends in the copied tree, outcome and result message exactly when the copy succeeds |
| Refinement.StreamRefinesLoopback | crates/agent-send-daemon/src/transfer.rs:216-294 | a transfer the sender's limits admit commits exactly when the loopback succeeds, with the same tree, outcome and remembered key; no limit, offset, size or hash check ever rejects it |
| Refinement.HonestSenderSucceeds | crates/agent-send-daemon/src/peer_transport.rs:521-536 | when the copy would succeed the sender's own counts match the reply and it returns the receiver's outcome |
| Refinement.HonestReportsEndAtTotal | crates/agent-send-daemon/src/transfer.rs:366-373 | a finished honest stream's reports strictly increase to exactly the total, and there are none exactly when there are no bytes |
| Refinement.StampsDoNotMatter | crates/agent-send-daemon/src/transfer.rs:743-749 | the clock stamps in temporary names do not influence a successful copy's result |
| Refinement.HashInputPinsContents | crates/agent-send-daemon/src/transfer.rs:688-702 | equal joined contents and equal sizes mean equal files |
| Refinement.CommitMetNoFault | crates/agent-send-daemon/src/transfer.rs:423-558 | a run that commits is, whatever faults were thrown and whatever the clock said elsewhere, the run without any fault |
| Refinement.CommittedStreamIsTheSnapshot | crates/agent-send-daemon/src/transfer.rs:146-161 | if files changed after hashing, a commit still means every delivered file is the prepared one, under any faults and stamps, absent a collision on the two strings compared |
| Refinement.CommittedRunIsAStream | crates/agent-send-daemon/src/transfer.rs:423-558 | whatever a peer sends, a committed run's messages were exactly a stream of items of this transfer, each file gapless, complete and of its announced length |
| Refinement.AcceptedShape | crates/agent-send-daemon/src/transfer.rs:428-577 | an accepted message belongs to this transfer and is legal for the open file's offset and size |
| Refinement.FaultFreeRunsDoNotLeak | crates/agent-send-daemon/src/transfer.rs:517-527 | without system faults, and with every file started under a path that ends in a name, no temporary file is ever left |
| Trees.CopyTree | crates/agent-send-daemon/src/transfer.rs:634-666 | copying a collected tree into a vacant place adds exactly its files, contents and directories there, empty directories included |
| Trees.CopiedSources | crates/agent-send-daemon/src/transfer.rs:216-294 | whatever stood at the destination, a request whose copy succeeded has grown exactly its source trees there |
| Trees.CollectsExactly | crates/agent-send-daemon/src/transfer.rs:634-666 | a tree can be collected exactly when nothing in it is unusable and a file's own path ends in its name |
| Trees.PreparesExactly | crates/agent-send-daemon/src/transfer.rs:139-162 | a request can be prepared exactly when its sources can be collected and keep within 4 GiB and 10000 items; its total and hash are then those of its items, and otherwise the limit broken or the source's error is reported |
| Trees.CollectedInOrder | crates/agent-send-daemon/src/transfer.rs:634-666 | every item is at or below what is collected, and no directory comes before anything in it |
| Trees.ChildrenInOrder | crates/agent-send-daemon/src/transfer.rs:655-659 | a directory's children are collected one after the other, as they are listed |
| Trees.CloseDirectory | crates/agent-send-daemon/src/transfer.rs:660-664 | the directory item after a directory's contents completes it, and creates it when it is empty |
| Trees.CopySources | crates/agent-send-daemon/src/transfer.rs:146-150 | several sources, none at or below another, are all placed without disturbing each other, unless one is an empty directory under a final "." |
| Trees.TreeRoundTrip | crates/agent-send-daemon/src/transfer.rs:317-388 | with room, collecting, streaming and replaying source trees commits and rebuilds exactly those trees, exactly unless one is an empty directory under a final "." that is not there yet |
| Trees.FinalDotIsRefused | crates/agent-send-daemon/src/transfer.rs:428-440 | a concrete empty directory "d/." that cannot be made |
| Wire.BigEndianRoundTrip | crates/agent-send-daemon/src/peer_transport.rs:440-453 | fixed-width big-endian numbers read back as written |
| Wire.FirstOctet | crates/agent-send-daemon/src/peer_transport.rs:440-441 | the first octet of a number is its most significant |
| Wire.FramingRoundTrip | crates/agent-send-daemon/src/peer_transport.rs:435-462 | frames written back to back parse to the same payloads |
| Wire.TruncatedFrames | crates/agent-send-daemon/src/peer_transport.rs:446-462 | the bytes of any frames cut anywhere parse to exactly the frames that arrived whole |
| Wire.ParsesExactly | crates/agent-send-daemon/src/peer_transport.rs:446-462 | for every announced length and every rest: the payload, too large, broken, or the end, with the 2 MiB limit |
| Wire.Socket.ReadExact | crates/agent-send-daemon/src/peer_transport.rs:448-458 | returns the next bytes of the stream however reads split them, or fails at its end |
| Wire.Socket.Receive | crates/agent-send-daemon/src/peer_transport.rs:446-462 | what is received depends only on the bytes, not their segmentation, and consumes one frame |
| Wire.Socket.Send | crates/agent-send-daemon/src/peer_transport.rs:435-444 | writes one whole frame; beyond the limit nothing; on a connection that breaks, exactly the part of the frame it took |
| Wire.ReceiveAll | crates/agent-send-daemon/src/peer_transport.rs:446-462 | repeated receives yield the parse of the whole byte stream under any segmentation |
| Wire.Utf8Injective | crates/agent-send-daemon/src/peer_transport.rs:709-713 | distinct identifiers have distinct bytes |
| Wire.AssociatedDataInjective | crates/agent-send-daemon/src/peer_transport.rs:704-716 | associated data determines version, sender, recipient and sequence |
| Wire.KeyInfoInjective | crates/agent-send-daemon/src/peer_transport.rs:685-696 | derivation info is equal exactly for equal ordered pairs, so the two directions differ |
| Wire.NonceInjective | crates/agent-send-daemon/src/peer_transport.rs:698-702 | nonces are equal exactly for equal sequence numbers |
| Wire.LaidOut | crates/agent-send-daemon/src/peer_transport.rs:685-716 | octet by octet, what a frame is bound to: domain, version, identifiers after their lengths, sequence number; and the nonce |
| FrameBound.ItemsLength | crates/agent-send-daemon/src/peer_transport.rs:36-39 | a JSON number list of n bytes takes at most 4n-1 characters between its brackets |
| FrameBound.ChunkFrameFits | crates/agent-send-daemon/src/peer_transport.rs:435-439 | every sealed chunk fits one frame when 24 times the transfer id's length plus 6 times the peer ids' lengths is at most 1048000 |
| Channel.SecurePeerChannel.Create | crates/agent-send-daemon/src/peer_transport.rs:261-279 | refuses blank or equal identifiers and otherwise starts both counters at zero with one key per direction |
| Channel.SecurePeerChannel.Seal | crates/agent-send-daemon/src/peer_transport.rs:281-313 | in-place update equal to the sealing step of the theorems |
| Channel.SecurePeerChannel.Open | crates/agent-send-daemon/src/peer_transport.rs:315-351 | in-place update equal to the opening step; a failed open changes nothing |
| Channel.NewExactly | crates/agent-send-daemon/src/peer_transport.rs:261-279 | refused exactly for a blank or shared identifier; otherwise one key per direction, each the far end's other one, and both counters at zero |
| Channel.SealExactly | crates/agent-send-daemon/src/peer_transport.rs:281-313 | a message is sealed exactly when it is valid and the counter below 2^64 - 1, under that number; otherwise refused for just that, changing nothing |
| Channel.OpenExactly | crates/agent-send-daemon/src/peer_transport.rs:315-351 | a frame opens exactly when it is of this version, between these peers, next in order, authentic, readable and valid; otherwise the first of these is the error and nothing changes |
| Channel.SealedIsOffered | crates/agent-send-daemon/src/peer_transport.rs:281-313 | over any run, what an end has sealed is exactly the valid messages it was asked to seal, up to the last sequence number |
| Protocol.ValidExactly | crates/agent-send-daemon/src/peer_transport.rs:165-221 | exactly which messages are valid: version 1, no required text blank, hashes of 64 hexadecimal digits, chunks of at most 64 KiB; and which of these each other message misses |
| Channel.SealKeeps | crates/agent-send-daemon/src/peer_transport.rs:281-313 | sealing extends what is bound to this direction by exactly the next sequence number |
| Channel.OpenKeeps | crates/agent-send-daemon/src/peer_transport.rs:315-351 | any frame that opens is the next one sealed at the other end; failures leave the counter; the exhaustion branch is unreachable |
| Channel.OpenedIsPrefixOfSealed | crates/agent-send-daemon/src/peer_transport.rs:251-352 | over any network behaviour, what each end opened is a prefix of what the other sealed, all of it valid |
| Channel.SealThenOpen | crates/agent-send-daemon/src/peer_transport.rs:281-351 | a valid message is sealed while the counter lasts, and the next frame in order opens to it |
| Channel.FramesAreNumbered | crates/agent-send-daemon/src/peer_transport.rs:281-313 | the frames one end seals over any run are numbered from its counter without gap or repetition, and the cipher still holds each |
| Channel.SealedFramesAreDistinct | crates/agent-send-daemon/src/peer_transport.rs:283-287 | no two frames one end seals over any run share a sequence number or nonce |
| Channel.PendingFramesOpen | crates/agent-send-daemon/src/peer_transport.rs:315-351 | after any network behaviour, handing over the frames not yet opened, in order, makes the far end open everything sealed |
| EndToEnd.CommitDeliversSnapshot | crates/agent-send-daemon/src/peer_transport.rs:549-631 | over any network behaviour and any faults and stamps at the receiver, a connection that commits carried exactly the sender's stream, leaves exactly the prepared snapshot, which for proper trees is those trees grown at the destination, and remembers it under the sender's key, absent a hash collision |
| EndToEnd.SendSocketTransfer | crates/agent-send-daemon/src/peer_transport.rs:480-545 | for every cancel, failing file, lost send and reply: what goes out follows the script, the whole of it exactly when it is let in and nothing disturbs it; and what is returned, a stored result given at once included |
| EndToEnd.StreamFollowsScript | crates/agent-send-daemon/src/peer_transport.rs:493-523 | whatever a stream leaves attempted follows the script the end-to-end theorems assume |
| EndToEnd.SenderOkIsHeldAcross | crates/agent-send-daemon/src/peer_transport.rs:480-545 | for one connection of a pair and over any network behaviour, an outcome the sender returns is what the receiver holds under its key, then and later |
| EndToEnd.ScriptIsValid | crates/agent-send-daemon/src/peer_transport.rs:493-523 | the greeting, the manifest and the stream of a transfer with no blank key, folder or path are all valid messages |
| EndToEnd.PreparedHash | crates/agent-send-daemon/src/transfer.rs:146-161 | what is prepared with a digest of 32 bytes has a hash that the manifest may carry |
| EndToEnd.SealedAndDelivered | crates/agent-send-daemon/src/peer_transport.rs:281-351 | valid messages sealed and delivered in order are opened, exactly they, at the far end |
| EndToEnd.UndisturbedTransferCommits | crates/agent-send-daemon/src/peer_transport.rs:480-631 | sent over a channel that delivers, from unchanging sources to where the direct copy succeeds, the whole script is opened, the copy is committed and the sender returns the outcome held |
| EndToEnd.CancelledCommitsNothing | crates/agent-send-daemon/src/transfer.rs:330-335 | a cancelled stream commits nothing however much of it arrived |
| Trust.FromHex | crates/agent-send-daemon/src/peer_transport.rs:60-70 | accepts exactly 64 hexadecimal digits of either case and fills the 32 bytes they denote |
| Trust.SecretRoundTrip | crates/agent-send-daemon/src/peer_transport.rs:56-70 | a secret's text reads back as the secret |
| Trust.SecretsExactly | crates/agent-send-daemon/src/peer_transport.rs:60-70 | exactly the texts of 64 hexadecimal digits are secrets, and one reads back as its text with letters lowered |
| Trust.PeerRegistry.Advertise | crates/agent-send-daemon/src/lib.rs:230-240 | in-place update equal to the advertising step |
| Trust.PeerRegistry.RequestPairing | crates/agent-send-daemon/src/lib.rs:250-282 | in-place update equal to the requesting step, a code drawn when none is supplied, errors after advertising included |
| Trust.PeerRegistry.ConfirmPairing | crates/agent-send-daemon/src/lib.rs:284-307 | in-place update equal to the confirming step |
| Trust.PeerRegistry.Revoke | crates/agent-send-daemon/src/lib.rs:309-316 | in-place update equal to the revoking step |
| Trust.PeerRegistry.StoredTrust | crates/agent-send-daemon/src/lib.rs:322-332 | lists one record per trusted peer with its record and secret, leaving none out |
| Trust.PeerRegistry.RestoreTrusted | crates/agent-send-daemon/src/lib.rs:334-350 | the restoring loop equals the specified restore, error for error |
| Trust.PeerTrustStore.Save | crates/agent-send-daemon/src/peer_storage.rs:97-130 | whichever step of the save fails, the store holds the old contents or all of the new, no temporary file stays, and success is reported exactly when every step succeeded |
| Trust.Daemon.ConfirmPairing | crates/agent-send-daemon/src/lib.rs:597-608 | confirms and saves, or restores the whole registry and reports the failure |
| Trust.Daemon.RevokePeer | crates/agent-send-daemon/src/lib.rs:610-621 | revokes and saves, or restores the whole registry and reports the failure |
| Trust.ConfirmKeeps | crates/agent-send-daemon/src/lib.rs:284-307 | confirming keeps flags equal to trust, and trusted and pending peers known and named |
| Trust.RequestKeeps | crates/agent-send-daemon/src/lib.rs:250-282 | requesting keeps the same consistency, every pending code being six digits |
| Trust.RevokeKeeps | crates/agent-send-daemon/src/lib.rs:309-316 | revoking keeps the same consistency |
| Trust.AdvertiseExactly | crates/agent-send-daemon/src/lib.rs:230-240 | an advertisement replaces the record, its flag being what trust says, and nothing else |
| Trust.RequestExactly | crates/agent-send-daemon/src/lib.rs:250-282 | a request is accepted exactly for a named peer with a six-digit code supplied, or a draw below the limit and a secret; it then leaves pending, and answers with, the supplied pair, or the padded remainder of the first such draw and the secret drawn |
| Trust.ConfirmExactly | crates/agent-send-daemon/src/lib.rs:284-307 | a confirmation succeeds exactly for a pending code that matches in time and makes that peer trusted with its secret; a late one only ends the pairing |
| Trust.RevokeExactly | crates/agent-send-daemon/src/lib.rs:309-316 | a revocation drops the pending code, the trust and the flag of that peer alone, and answers whether it was trusted |
| Trust.AnswersExactly | crates/agent-send-daemon/src/lib.rs:597-621 | the daemon answers no change, a change, or a storage failure, exactly by what the operation would change and whether the save succeeded |
| Trust.MatchingCodeConfirms | crates/agent-send-daemon/src/lib.rs:294-306 | a live matching code always confirms, so the unknown-peer branch and the failing constructor are unreachable |
| Trust.TrustTrace | crates/agent-send-daemon/src/lib.rs:230-316 | after any history with any saves failing, a peer is trusted exactly when its last settled confirmation or revocation was a confirmation, with the secret that the latest accepted request before it asked for, confirmed in time with the code it asked for; and what is pending is what the latest accepted request asked for, exactly until a confirmation, in time or late, or a revocation drops it |
| Trust.OneSuccessPerRequest | crates/agent-send-daemon/src/lib.rs:294-297 | between two successful confirmations of a peer lies an accepted request |
| Trust.ListingSavesSecrets | crates/agent-send-daemon/src/lib.rs:322-332 | saving the listed records makes the store's secrets the registry's |
| Trust.RestartRestoresTrust | crates/agent-send-daemon/src/lib.rs:1436-1440 | restarting from a saved listing rebuilds exactly the trusted peers and forgets pending codes |
| Trust.RestoreAcceptsExactly | crates/agent-send-daemon/src/lib.rs:334-350 | stored contents load exactly when every record is trusted, readable, named and unique, and then yield a consistent registry |
| Trust.LoadedExactly | crates/agent-send-daemon/src/lib.rs:334-350 | what is loaded is each record with its own secret under its own peer, and nothing else changes |
| Trust.StoreAgreesIff | crates/agent-send-daemon/src/lib.rs:597-621 | from agreement, an operation makes store and memory disagree exactly when only setting permissions fails and it revokes a trusted peer or confirms, in time and with the right code, a secret not already trusted |
| Trust.ChmodFailureDisagrees | crates/agent-send-daemon/src/peer_storage.rs:118-129 | a concrete revocation after which memory trusts a peer the store no longer has |
| Trust.StoreAgreesThroughout | crates/agent-send-daemon/src/lib.rs:1049-1088 | while no permission change fails, store and memory agree over every history |
| Trust.FailedSaveChangesNothing | crates/agent-send-daemon/src/lib.rs:602-605 | a storage failure leaves the whole registry, pending codes included, as it was |
| Trust.NextSaveRepairs | crates/agent-send-daemon/src/lib.rs:597-621 | the next successful save restores agreement from any disagreement |
| PairingCode.NewPairingCode | crates/agent-send-daemon/src/lib.rs:361-372 | returns the code of the first draw below the limit, always six digits, or fails exactly when no draw is |
| PairingCode.CodeIsFirstDraw | crates/agent-send-daemon/src/lib.rs:361-372 | a code is the padded remainder of the first draw below 4294000000, and there is one exactly when there is such a draw |
| PairingCode.PaddedDigits | crates/agent-send-daemon/src/lib.rs:369 | digit by digit, a code is its number |
| PairingCode.CodesAreUniform | crates/agent-send-daemon/src/lib.rs:362-369 | each code has exactly 4294 accepted draws |
| PairingCode.CodesAreValidAndDistinct | crates/agent-send-daemon/src/lib.rs:353-359 | every number below a million prints as a valid code, distinct numbers as distinct codes |
| Ledger.AgentTransfers.Submit | crates/agent-send-daemon/src/automation.rs:288-317 | answers a known key with its record and otherwise adds one under a new identifier |
| Ledger.AgentTransfers.Lookup | crates/agent-send-daemon/src/automation.rs:297-301 | finds an actor's record for a key exactly when there is one |
| Ledger.AgentTransfers.UpdateResult | crates/agent-send-daemon/src/automation.rs:367-385 | settles the owner's submitted record and leaves any other as it was |
| Ledger.AgentTransfers.Cancel | crates/agent-send-daemon/src/automation.rs:350-365 | cancels the owner's submitted record and leaves any other as it was |
| Ledger.AgentTransfers.SendTransfer | crates/agent-send-daemon/src/lib.rs:1237-1261 | submits and, for a record still submitted, attempts one delivery and records its result |
| Ledger.RefusedDoesNothing | crates/agent-send-daemon/src/automation.rs:295 | a call that authorisation refuses answers just that, leaves the ledger as it was and attempts nothing |
| Ledger.SubmitExactly | crates/agent-send-daemon/src/automation.rs:296-317 | an allowed submission files the actor's record for the key, or a new one under the next identifier, and answers its status |
| Ledger.SendExactly | crates/agent-send-daemon/src/lib.rs:1237-1261 | an allowed sending files its record; still submitted, it is attempted once and settled by the answer, and otherwise its status is the answer |
| Ledger.CancelExactly | crates/agent-send-daemon/src/automation.rs:340-365 | only the owner's record is found; it is cancelled if still submitted, and asking for it changes nothing |
| Ledger.HandleKeeps | crates/agent-send-daemon/src/automation.rs:288-400 | every call keeps one record per actor and key, never reuses an identifier, keeps terminal records and other actors' records unchanged |
| Ledger.FreshId | crates/agent-send-daemon/src/automation.rs:302-304 | the next identifier is new while fewer than 2^64 have been issued |
| Ledger.TerminalIsForever | crates/agent-send-daemon/src/automation.rs:380-383 | a terminal record is the same after any further calls |
| Ledger.AtMostOneAttempt | crates/agent-send-daemon/src/lib.rs:1243-1260 | over any history an actor's key is delivered at most once |
| Ledger.CompletedWasDelivered | crates/agent-send-daemon/src/lib.rs:1258-1259 | a completed record was completed by an attempt for its own actor and key that answered Ok |
| Ledger.RecordsWereAllowed | crates/agent-send-daemon/src/automation.rs:288-317 | over any history every record comes from a call of its own actor and key that authorisation allowed |
| Ledger.AttemptsWereAllowed | crates/agent-send-daemon/src/lib.rs:1237-1248 | over any history every attempt comes from an allowed call |

## Left out

- Trust.PeerRegistry.StoredTrust: the order of the listed records is arbitrary instead of sorted by peer; nothing downstream depends on it.
- Sources.CollectItems: children come already listed in file-name order, so the sort is not modelled; the theorems hold for any order.
- Sources.CollectEntries: each entry's lookup under the capability and its metadata are part of the tree it is given, an entry that fails either being an unusable node.
- Copying.Receive: the loopback's progress reports are not modelled; those of the stream are. Items keep their kind between listing and copying.
- Connections.CommitsOnce: one engine instance, since remembered outcomes are not persisted across a restart.
- Channel.OpenedIsPrefixOfSealed: speaks of one pair of channel instances and no earlier traffic of that pair, because counters restart at zero for each channel.
- Channel.PendingFramesOpen: the same, of one pair of channel instances.
- EndToEnd.CommitDeliversSnapshot: the same, of one connection of a pair; retries are covered by the connection theorems, which do not depend on the channel.
- EndToEnd.SenderOkIsHeldAcross: the same; `Connections.SenderOkIsHeld` holds on any attempt.
- Ledger.FreshId: identifiers are new for fewer than 2^64 submissions; the counter's wrap-around is modelled, repetition after it is not excluded.
- FrameBound.ChunkFrameFits: the bound on identifier lengths is explicit because the source sets none; other message kinds are not bounded.
- Connections.SenderOkIsHeld: a reply that fails to arrive, decode or authenticate counts as not arriving.
- Incoming.IncomingTransfer.Drop: its own file removals are taken to succeed; the source ignores their failures.
- Trust.PeerTrustStore.Save: the removal of the temporary file after a failed step is taken to succeed; the source ignores its failure.
- LinkedWrites.WriteLandsBeneathRoot: the engine is the only writer between the check and the write, and the temporary file's name is any single name.
- Symbolic links inside a destination during a transfer's hash, budget and rollback accounting, which runs on link-free trees; for those the capability check is proved to be the same.
- Windows path prefixes, and file names that are not Unicode text.
- Failure of encryption or of message encoding, which the source maps to errors but which cannot occur for these messages.
- The greeting and peer lookup before a manifest, and connections that never send a manifest: they change nothing.
- Sockets, timeouts, threads, discovery and HTTP routing; the HTTP handlers for pairing repeat the daemon methods modelled here.
- Concurrent loopback and socket use of one engine, and other processes writing to the destination.
- Agent tokens, scopes, audit records and request-shape validation: single checks whose outcome is a parameter.
- JSON parsing: decoding is assumed to invert encoding where a lemma says so, and only rendered lengths are modelled.
