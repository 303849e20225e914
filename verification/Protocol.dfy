/** The peer protocol's messages and the limits both sides enforce. */
module Protocol {
  import opened Base
  import opened Text
  import PathPolicy

  const VERSION: nat := 1
  const CHUNK_SIZE: nat := 65536
  const MAX_TRANSFER_BYTES: nat := 4 * 1024 * 1024 * 1024
  const MAX_TRANSFER_FILES: nat := 10_000

  /** SHA-256, about which nothing is assumed. */
  type Digest = seq<byte> -> seq<byte>

  datatype Outcome = Outcome(bytes: nat, files: nat, sha256: string)

  datatype Message =
    | Hello(version: nat)
    | TransferManifest(id: string, folder: string, key: string, total: nat, sha256: string)
    | TransferReady(id: string)
    | Directory(id: string, relative: string)
    | FileStart(id: string, relative: string, size: nat)
    | FileChunk(id: string, offset: nat, data: seq<byte>)
    | FileComplete(id: string)
    | TransferComplete(id: string)
    | TransferResult(id: string, bytes: nat, files: nat, sha256: string)
    | TransferRejected(id: string)
    | Cancel(id: string)

  datatype ChannelError =
    | EmptyPeerId | SamePeer
    | UnsupportedVersion(version: nat)
    | WrongPeer
    | UnexpectedSequence(expected: nat, received: nat)
    | AuthenticationFailed | Serialization
    | MissingField
    | InvalidHash
    | ChunkTooLarge(size: nat)
    | SequenceExhausted | Random | InvalidPairingSecret

  datatype TransferError =
    | FolderNotFound(id: string)
    | Policy(reason: PathPolicy.PathError)
    | Io
    | Cancelled
    | DestinationExists(path: PathPolicy.Path)
    | ProtocolError(what: string)
    | SizeMismatch
    | SizeLimitExceeded
    | FileCountLimitExceeded
    | HashMismatch

  predicate IsSpace(c: char) {
    var n := c as int;
    9 <= n <= 13 || n == 0x20 || n == 0x85 || n == 0xA0 || n == 0x1680 || 0x2000 <= n <= 0x200A
    || n == 0x2028 || n == 0x2029 || n == 0x202F || n == 0x205F || n == 0x3000
  }

  /** Nothing is left of the text once trimmed. */
  predicate IsBlank(s: string) { forall c :: c in s ==> IsSpace(c) }

  predicate ValidHash(s: string) { |s| == 64 && forall c :: c in s ==> IsHexDigit(c) }

  /** What is wrong with a message, if anything. */
  function Defect(m: Message): Option<ChannelError> {
    match m
    case Hello(v) => if v != VERSION then Some(UnsupportedVersion(v)) else None
    case TransferManifest(id, folder, key, _, sha256) =>
      if IsBlank(id) || IsBlank(folder) || IsBlank(key) then Some(MissingField)
      else if !ValidHash(sha256) then Some(InvalidHash)
      else None
    case Directory(id, relative) => if IsBlank(id) || IsBlank(relative) then Some(MissingField) else None
    case FileStart(id, relative, _) => if IsBlank(id) || IsBlank(relative) then Some(MissingField) else None
    case FileChunk(id, _, data) =>
      if IsBlank(id) then Some(MissingField)
      else if |data| > CHUNK_SIZE then Some(ChunkTooLarge(|data|))
      else None
    case TransferResult(id, _, _, sha256) =>
      if IsBlank(id) then Some(MissingField) else if !ValidHash(sha256) then Some(InvalidHash) else None
    case _ => if IsBlank(m.id) then Some(MissingField) else None
  }

  function ResultMessage(id: string, o: Outcome): Message {
    TransferResult(id, o.bytes, o.files, o.sha256)
  }

  /** Some character is left when the text is trimmed. */
  predicate Filled(s: string) { exists c :: c in s && !IsSpace(c) }

  predicate HexText(s: string) {
    |s| == 64 && forall c :: c in s ==> '0' <= c <= '9' || 'a' <= c <= 'f' || 'A' <= c <= 'F'
  }

  /** Exactly which messages are valid: this protocol's version, nothing required left blank, hashes of
      64 hexadecimal digits, chunks of at most 64 KiB; and which of these is missed. */
  lemma ValidExactly(m: Message)
    ensures Defect(m) == None <==>
              match m
              case Hello(v) => v == 1
              case TransferManifest(id, folder, key, _, hash) =>
                Filled(id) && Filled(folder) && Filled(key) && HexText(hash)
              case Directory(id, relative) => Filled(id) && Filled(relative)
              case FileStart(id, relative, _) => Filled(id) && Filled(relative)
              case FileChunk(id, _, data) => Filled(id) && |data| <= 65536
              case TransferResult(id, _, _, hash) => Filled(id) && HexText(hash)
              case TransferReady(id) => Filled(id)
              case FileComplete(id) => Filled(id)
              case TransferComplete(id) => Filled(id)
              case TransferRejected(id) => Filled(id)
              case Cancel(id) => Filled(id)
    ensures forall v :: Defect(m) == Some(UnsupportedVersion(v)) <==> m == Hello(v) && v != 1
    ensures forall n :: Defect(m) == Some(ChunkTooLarge(n)) <==>
              m.FileChunk? && Filled(m.id) && |m.data| == n && n > 65536
    ensures Defect(m) == Some(InvalidHash) <==>
              match m
              case TransferManifest(id, folder, key, _, hash) =>
                Filled(id) && Filled(folder) && Filled(key) && !HexText(hash)
              case TransferResult(id, _, _, hash) => Filled(id) && !HexText(hash)
              case _ => false
    ensures Defect(m).Some? ==>
              var e := Defect(m).value;
              e.UnsupportedVersion? || e.ChunkTooLarge? || e == InvalidHash || e == MissingField
    ensures IsSpace(' ') && IsSpace('\t') && IsSpace('\n') && !IsSpace('0') && !IsSpace('a') && !IsSpace('/')
  {
  }
}
