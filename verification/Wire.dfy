/** Bytes on the wire: big-endian numbers, length-prefixed frames over a segmented socket, and the
    byte strings that bind a frame to its place in a channel. */
module Wire {
  import opened Base

  // ---------- big-endian numbers ----------

  function Pow256(width: nat): (p: nat)
    ensures p > 0
  {
    if width == 0 then 1 else 256 * Pow256(width - 1)
  }

  function BigEndian(n: nat, width: nat): (s: seq<byte>)
    ensures |s| == width
  {
    if width == 0 then [] else BigEndian(n / 256, width - 1) + [n % 256]
  }

  function FromBigEndian(s: seq<byte>): nat {
    if s == [] then 0 else 256 * FromBigEndian(s[..|s| - 1]) + s[|s| - 1]
  }

  lemma {:induction false} BigEndianRoundTrip(n: nat, width: nat)
    requires n < Pow256(width)
    ensures FromBigEndian(BigEndian(n, width)) == n
  {
    if width > 0 {
      BigEndianRoundTrip(n / 256, width - 1);
      var s := BigEndian(n, width);
      assert s[..|s| - 1] == BigEndian(n / 256, width - 1);
    }
  }

  /** The most significant octet comes first. */
  lemma {:induction false} FirstOctet(first: byte, rest: seq<byte>)
    ensures FromBigEndian([first] + rest) == first * Pow256(|rest|) + FromBigEndian(rest)
    decreases |rest|
  {
    var s := [first] + rest;
    if rest == [] {
      assert s[..0] == [] && s[0] == first;
    } else {
      var shorter := rest[..|rest| - 1];
      FirstOctet(first, shorter);
      assert s[..|s| - 1] == [first] + shorter;
      TimesBase(first, Pow256(|shorter|));
    }
  }

  lemma TimesBase(a: nat, p: nat)
    ensures 256 * (a * p) == a * (256 * p)
  {
  }

  lemma Widths()
    ensures Pow256(4) == 0x1_0000_0000 && Pow256(8) == U64_LIMIT
  {
    assert Pow256(1) == 256;
    assert Pow256(2) == 256 * Pow256(1);
    assert Pow256(3) == 256 * Pow256(2);
    assert Pow256(4) == 256 * Pow256(3);
    assert Pow256(5) == 256 * Pow256(4);
    assert Pow256(6) == 256 * Pow256(5);
    assert Pow256(7) == 256 * Pow256(6);
    assert Pow256(8) == 256 * Pow256(7);
  }

  // ---------- frames ----------

  const MAX_FRAME_BYTES: nat := 2 * 1024 * 1024

  datatype Received = Frame(payload: seq<byte>) | End | TooLarge | Broken

  predicate SendableFrame(payload: seq<byte>) { 0 < |payload| <= MAX_FRAME_BYTES }

  function EncodeFrame(payload: seq<byte>): (s: seq<byte>)
    ensures |s| == 4 + |payload|
  {
    BigEndian(|payload|, 4) + payload
  }

  function EncodeAll(payloads: seq<seq<byte>>): seq<byte> {
    if payloads == [] then [] else EncodeFrame(payloads[0]) + EncodeAll(payloads[1..])
  }

  /** What one receive makes of the bytes still to come. A stream that ends inside the length
      prefix counts as closed; one that ends inside the payload is an error. */
  function ParseFrame(bytes: seq<byte>): Received {
    if |bytes| < 4 then End
    else
      var length := FromBigEndian(bytes[..4]);
      if length == 0 || length > MAX_FRAME_BYTES then TooLarge
      else if |bytes| - 4 < length then Broken
      else Frame(bytes[4..4 + length])
  }

  /** The payloads received until the connection ends one way or another. */
  function ParseAll(bytes: seq<byte>): seq<seq<byte>>
    decreases |bytes|
  {
    match ParseFrame(bytes)
    case Frame(payload) => [payload] + ParseAll(bytes[4 + |payload|..])
    case _ => []
  }

  /** How many frames lie entirely within the first `k` bytes. */
  function WholeFrames(payloads: seq<seq<byte>>, k: nat): (n: nat)
    ensures n <= |payloads|
  {
    if payloads == [] || k < 4 + |payloads[0]| then 0
    else 1 + WholeFrames(payloads[1..], k - 4 - |payloads[0]|)
  }

  lemma FrameHead(payload: seq<byte>, rest: seq<byte>)
    requires SendableFrame(payload)
    ensures ParseFrame(EncodeFrame(payload) + rest) == Frame(payload)
    ensures (EncodeFrame(payload) + rest)[4 + |payload|..] == rest
  {
    Widths();
    BigEndianRoundTrip(|payload|, 4);
    var bytes := EncodeFrame(payload) + rest;
    assert bytes[..4] == BigEndian(|payload|, 4);
    assert bytes[4..4 + |payload|] == payload;
  }

  /** Exactly what one receive makes of any bytes: with `n` the number in the first four of them, the
      next `n` bytes if there are so many and `n` is from 1 to 2 MiB; too large for any other `n`, broken
      for a payload that is cut short, and the end for fewer than four bytes. */
  lemma ParsesExactly(n: nat, rest: seq<byte>, cut: seq<byte>)
    requires n < 0x1_0000_0000 && |cut| < 4
    ensures ParseFrame(BigEndian(n, 4) + rest)
         == (if n == 0 || n > 2_097_152 then TooLarge
             else if |rest| < n then Broken
             else Frame(rest[..n]))
    ensures ParseFrame(cut) == End
  {
    hide BigEndian, FromBigEndian;
    Widths();
    BigEndianRoundTrip(n, 4);
    var bytes := BigEndian(n, 4) + rest;
    assert bytes[..4] == BigEndian(n, 4);
    assert n <= |rest| ==> bytes[4..4 + n] == rest[..n];
  }

  lemma CutFrame(payload: seq<byte>, k: nat)
    requires SendableFrame(payload) && k < 4 + |payload|
    ensures !ParseFrame(EncodeFrame(payload)[..k]).Frame?
  {
    Widths();
    BigEndianRoundTrip(|payload|, 4);
    if k >= 4 {
      assert EncodeFrame(payload)[..k][..4] == BigEndian(|payload|, 4);
    }
  }

  /** Cutting the bytes of any frames anywhere yields exactly the frames that arrived whole. */
  lemma {:induction false} TruncatedFrames(payloads: seq<seq<byte>>, k: nat)
    requires (forall p :: p in payloads ==> SendableFrame(p)) && k <= |EncodeAll(payloads)|
    ensures ParseAll(EncodeAll(payloads)[..k]) == payloads[..WholeFrames(payloads, k)]
  {
    if payloads != [] {
      var first, rest := payloads[0], payloads[1..];
      var bytes := EncodeAll(payloads);
      if k < 4 + |first| {
        CutFrame(first, k);
        assert bytes[..k] == EncodeFrame(first)[..k];
      } else {
        var j := k - 4 - |first|;
        assert bytes[..k] == EncodeFrame(first) + EncodeAll(rest)[..j];
        FrameHead(first, EncodeAll(rest)[..j]);
        TruncatedFrames(rest, j);
        assert [first] + rest[..WholeFrames(rest, j)] == payloads[..1 + WholeFrames(rest, j)];
      }
    }
  }

  lemma {:induction false} AllFramesWhole(payloads: seq<seq<byte>>)
    ensures WholeFrames(payloads, |EncodeAll(payloads)|) == |payloads|
  {
    if payloads != [] {
      AllFramesWhole(payloads[1..]);
    }
  }

  /** Frames written back to back are read back as they were. */
  lemma FramingRoundTrip(payloads: seq<seq<byte>>)
    requires forall p :: p in payloads ==> SendableFrame(p)
    ensures ParseAll(EncodeAll(payloads)) == payloads
  {
    var bytes := EncodeAll(payloads);
    TruncatedFrames(payloads, |bytes|);
    AllFramesWhole(payloads);
    assert bytes[..|bytes|] == bytes && payloads[..|payloads|] == payloads;
  }

  datatype SendEnd = Sent | TooLong | WriteFailed

  /** A connected socket: what its peer wrote, in the pieces successive reads return. */
  class Socket {
    var segments: seq<seq<byte>>
    var written: seq<byte>

    constructor (segments: seq<seq<byte>>)
      ensures this.segments == segments && written == []
    {
      this.segments, written := segments, [];
    }

    ghost predicate Valid()
      reads this
    {
      forall s :: s in segments ==> s != []
    }

    /** Some bytes, at most `want`; none only at the end of the stream. */
    method Read(want: nat) returns (got: seq<byte>)
      requires Valid() && want > 0
      modifies this`segments
      ensures Valid() && |got| <= want
      ensures Flatten(old(segments)) == got + Flatten(segments)
      ensures got == [] <==> old(segments) == []
      ensures got == [] ==> segments == []
    {
      if segments == [] {
        return [];
      }
      var first, rest := segments[0], segments[1..];
      assert first in segments && forall s :: s in rest ==> s in segments;
      if |first| <= want {
        got, segments := first, rest;
      } else {
        got := first[..want];
        segments := [first[want..]] + rest;
        assert segments[1..] == rest;
        assert first == got + first[want..];
      }
    }

    /** read_exact: keeps reading until `n` bytes arrived or the stream ended. */
    method ReadExact(n: nat) returns (r: Option<seq<byte>>)
      requires Valid()
      modifies this`segments
      ensures Valid()
      ensures var all := Flatten(old(segments));
              if n <= |all| then r == Some(all[..n]) && Flatten(segments) == all[n..]
              else r.None? && segments == []
    {
      ghost var all := Flatten(segments);
      var got: seq<byte> := [];
      while |got| < n
        invariant Valid() && |got| <= n && all == got + Flatten(segments)
        decreases n - |got|
      {
        var more := Read(n - |got|);
        if more == [] {
          return None;
        }
        got := got + more;
      }
      return Some(got);
    }

    /** SocketPeerTransport::receive up to decoding the payload. */
    method Receive() returns (r: Received)
      requires Valid()
      modifies this`segments
      ensures Valid() && r == ParseFrame(Flatten(old(segments)))
      ensures r.Frame? ==> Flatten(segments) == Flatten(old(segments))[4 + |r.payload|..]
    {
      ghost var all := Flatten(segments);
      var prefix := ReadExact(4);
      if prefix.None? {
        return End;
      }
      var length := FromBigEndian(prefix.value);
      if length == 0 || length > MAX_FRAME_BYTES {
        return TooLarge;
      }
      var payload := ReadExact(length);
      if payload.None? {
        return Broken;
      }
      return Frame(payload.value);
    }

    /** write_all over a connection that takes `room` more bytes before it breaks. */
    method WriteAll(bytes: seq<byte>, room: nat) returns (ok: bool)
      modifies this`written
      ensures ok <==> |bytes| <= room
      ensures written == old(written) + if ok then bytes else bytes[..room]
    {
      ok := |bytes| <= room;
      written := written + if ok then bytes else bytes[..room];
    }

    /** SocketPeerTransport::send after encoding the frame. */
    method Send(payload: seq<byte>, room: nat) returns (r: SendEnd)
      modifies this`written
      ensures r == if |payload| > MAX_FRAME_BYTES then TooLong
                   else if |EncodeFrame(payload)| > room then WriteFailed
                   else Sent
      ensures written == old(written) + match r
                                        case TooLong => []
                                        case WriteFailed => EncodeFrame(payload)[..room]
                                        case Sent => EncodeFrame(payload)
    {
      if |payload| > MAX_FRAME_BYTES {
        return TooLong;
      }
      ghost var before := written;
      var prefix := BigEndian(|payload|, 4);
      var ok := WriteAll(prefix, room);
      if ok {
        assert before + prefix + payload == before + EncodeFrame(payload);
        assert room < |EncodeFrame(payload)| ==>
            before + prefix + payload[..room - 4] == before + EncodeFrame(payload)[..room];
        ok := WriteAll(payload, room - 4);
      } else {
        assert prefix[..room] == EncodeFrame(payload)[..room];
      }
      r := if ok then Sent else WriteFailed;
    }
  }

  lemma ParseNext(bytes: seq<byte>)
    ensures match ParseFrame(bytes)
            case Frame(payload) =>
              4 + |payload| <= |bytes| && ParseAll(bytes) == [payload] + ParseAll(bytes[4 + |payload|..])
            case _ => ParseAll(bytes) == []
  {
  }

  /** Receives until the connection ends: the frames do not depend on how reads were split. */
  method ReceiveAll(socket: Socket) returns (payloads: seq<seq<byte>>)
    requires socket.Valid()
    modifies socket`segments
    ensures payloads == ParseAll(Flatten(old(socket.segments)))
  {
    hide ParseAll, ParseFrame, Flatten;
    payloads := [];
    ghost var all := Flatten(socket.segments);
    while true
      invariant socket.Valid()
      invariant payloads + ParseAll(Flatten(socket.segments)) == ParseAll(all)
      decreases |Flatten(socket.segments)|
    {
      ghost var left := Flatten(socket.segments);
      var r := socket.Receive();
      ParseNext(left);
      if !r.Frame? {
        assert payloads + [] == payloads;
        return;
      }
      assert payloads + ([r.payload] + ParseAll(left[4 + |r.payload|..]))
          == (payloads + [r.payload]) + ParseAll(Flatten(socket.segments));
      payloads := payloads + [r.payload];
    }
  }

  // ---------- text as bytes ----------

  /** UTF-8. */
  function Utf8Char(c: char): (s: seq<byte>)
    ensures 1 <= |s| <= 4
  {
    var n := c as int;
    if n < 0x80 then [n]
    else if n < 0x800 then [0xC0 + n / 64, 0x80 + n % 64]
    else if n < 0x10000 then [0xE0 + n / 4096, 0x80 + n / 64 % 64, 0x80 + n % 64]
    else [0xF0 + n / 262144, 0x80 + n / 4096 % 64, 0x80 + n / 64 % 64, 0x80 + n % 64]
  }

  function Utf8(s: string): seq<byte> {
    if s == "" then [] else Utf8Char(s[0]) + Utf8(s[1..])
  }

  /** The code point at the head of an encoding. */
  function HeadCode(bytes: seq<byte>): int {
    if bytes == [] then -1
    else
      var lead: int := bytes[0];
      if lead < 0x80 then lead
      else if lead < 0xE0 && |bytes| >= 2 then (lead - 0xC0) * 64 + (bytes[1] as int - 0x80)
      else if lead < 0xF0 && |bytes| >= 3 then
        (lead - 0xE0) * 4096 + (bytes[1] as int - 0x80) * 64 + (bytes[2] as int - 0x80)
      else if |bytes| >= 4 then
        (lead - 0xF0) * 262144 + (bytes[1] as int - 0x80) * 4096 + (bytes[2] as int - 0x80) * 64
        + (bytes[3] as int - 0x80)
      else -1
  }

  lemma HeadOfChar(c: char, rest: seq<byte>)
    ensures HeadCode(Utf8Char(c) + rest) == c as int
  {
    var n := c as int;
    assert n == n / 64 * 64 + n % 64;
    assert n / 64 == n / 4096 * 64 + n / 64 % 64;
    assert n / 4096 == n / 262144 * 64 + n / 4096 % 64;
  }

  lemma {:induction false} Utf8Injective(a: string, b: string)
    requires Utf8(a) == Utf8(b)
    ensures a == b
  {
    if a != "" && b != "" {
      HeadOfChar(a[0], Utf8(a[1..]));
      HeadOfChar(b[0], Utf8(b[1..]));
      var n := |Utf8Char(a[0])|;
      assert Utf8(a)[n..] == Utf8(a[1..]) && Utf8(b)[n..] == Utf8(b[1..]);
      Utf8Injective(a[1..], b[1..]);
      assert a == [a[0]] + a[1..] && b == [b[0]] + b[1..];
    }
  }

  // ---------- what binds a frame to its place ----------

  const AAD_DOMAIN: string := "agent-send peer frame v1"

  /** A value preceded by its length. */
  function Prefixed(s: seq<byte>): seq<byte> { BigEndian(|s|, 8) + s }

  /** Reads one length-prefixed value. */
  function SplitPrefixed(bytes: seq<byte>): Option<(seq<byte>, seq<byte>)> {
    if |bytes| < 8 then None
    else
      var n := FromBigEndian(bytes[..8]);
      if |bytes| - 8 < n then None else Some((bytes[8..8 + n], bytes[8 + n..]))
  }

  lemma SplitOfPrefixed(s: seq<byte>, rest: seq<byte>)
    requires |s| < U64_LIMIT
    ensures SplitPrefixed(Prefixed(s) + rest) == Some((s, rest))
  {
    Widths();
    BigEndianRoundTrip(|s|, 8);
    var bytes := Prefixed(s) + rest;
    assert bytes[..8] == BigEndian(|s|, 8);
    assert bytes[8..8 + |s|] == s && bytes[8 + |s|..] == rest;
  }

  /** Key-derivation info of one direction. */
  function KeyInfo(sender: string, recipient: string): seq<byte> {
    Prefixed(Utf8(sender)) + Prefixed(Utf8(recipient))
  }

  function AssociatedData(version: nat, sender: string, recipient: string, sequence: nat): seq<byte> {
    Utf8(AAD_DOMAIN) + (BigEndian(version,
                                  4) + (Prefixed(Utf8(sender)) + (Prefixed(Utf8(recipient)) + BigEndian(sequence, 8))))
  }

  function Nonce(sequence: nat): seq<byte> { [0, 0, 0, 0] + BigEndian(sequence, 8) }

  /** Identifiers short enough for their 8-byte length prefix. */
  predicate ShortId(id: string) { |Utf8(id)| < U64_LIMIT }

  lemma PrefixedPairInjective(a: seq<byte>, b: seq<byte>, c: seq<byte>, d: seq<byte>, x: seq<byte>, y: seq<byte>)
    requires |a| < U64_LIMIT && |b| < U64_LIMIT && |c| < U64_LIMIT && |d| < U64_LIMIT
    requires Prefixed(a) + (Prefixed(b) + x) == Prefixed(c) + (Prefixed(d) + y)
    ensures a == c && b == d && x == y
  {
    SplitOfPrefixed(a, Prefixed(b) + x);
    SplitOfPrefixed(c, Prefixed(d) + y);
    SplitOfPrefixed(b, x);
    SplitOfPrefixed(d, y);
  }

  /** ASCII text is its own bytes. */
  lemma {:induction false} AsciiBytes(s: string)
    requires forall i :: 0 <= i < |s| ==> s[i] as int < 0x80
    ensures |Utf8(s)| == |s| && forall i :: 0 <= i < |s| ==> Utf8(s)[i] == s[i] as int
  {
    if s != "" {
      var rest := s[1..];
      assert forall i :: 0 <= i < |rest| ==> rest[i] == s[i + 1];
      AsciiBytes(rest);
      assert Utf8(s) == [s[0] as int] + Utf8(rest);
    }
  }

  /** What binds a frame, laid out: the domain's 24 ASCII characters, the version in 4 octets, each
      identifier after its length in 8, and the sequence number in 8; the nonce is that number's 8 octets
      after four zeros. */
  lemma LaidOut(version: nat, sender: string, recipient: string, sequence: nat)
    ensures var domain := "agent-send peer frame v1";
            var s, r := Utf8(sender), Utf8(recipient);
            && |Utf8(domain)| == 24 && (forall i :: 0 <= i < 24 ==> Utf8(domain)[i] == domain[i] as int)
            && AssociatedData(version, sender, recipient, sequence)
               == Utf8(domain) + BigEndian(version, 4) + BigEndian(|s|, 8) + s + BigEndian(|r|, 8) + r
                  + BigEndian(sequence, 8)
            && KeyInfo(sender, recipient) == BigEndian(|s|, 8) + s + BigEndian(|r|, 8) + r
            && |Nonce(sequence)| == 12 && Nonce(sequence)[4..] == BigEndian(sequence, 8)
            && forall i :: 0 <= i < 4 ==> Nonce(sequence)[i] == 0
  {
    hide Utf8, BigEndian;
    AsciiBytes("agent-send peer frame v1");
  }

  lemma BigEndianInjective(m: nat, n: nat, width: nat)
    requires m < Pow256(width) && n < Pow256(width) && BigEndian(m, width) == BigEndian(n, width)
    ensures m == n
  {
    BigEndianRoundTrip(m, width);
    BigEndianRoundTrip(n, width);
  }

  /** Associated data determines version, direction and sequence. */
  lemma AssociatedDataInjective(v: nat, s: string, r: string, q: nat, v': nat, s': string, r': string, q': nat)
    requires v < 0x1_0000_0000 && v' < 0x1_0000_0000 && q < U64_LIMIT && q' < U64_LIMIT
    requires ShortId(s) && ShortId(r) && ShortId(s') && ShortId(r')
    requires AssociatedData(v, s, r, q) == AssociatedData(v', s', r', q')
    ensures v == v' && s == s' && r == r' && q == q'
  {
    hide Utf8;
    var a, b := AssociatedData(v, s, r, q), AssociatedData(v', s', r', q');
    var n := |Utf8(AAD_DOMAIN)|;
    assert a[n..n + 4] == BigEndian(v, 4) && b[n..n + 4] == BigEndian(v', 4);
    assert a[n + 4..] == Prefixed(Utf8(s)) + (Prefixed(Utf8(r)) + BigEndian(q, 8));
    assert b[n + 4..] == Prefixed(Utf8(s')) + (Prefixed(Utf8(r')) + BigEndian(q', 8));
    PrefixedPairInjective(Utf8(s), Utf8(r), Utf8(s'), Utf8(r'), BigEndian(q, 8), BigEndian(q', 8));
    Utf8Injective(s, s');
    Utf8Injective(r, r');
    Widths();
    BigEndianInjective(v, v', 4);
    BigEndianInjective(q, q', 8);
  }

  /** Key info determines the ordered pair of peers, so the two directions of a channel differ. */
  lemma KeyInfoInjective(s: string, r: string, s': string, r': string)
    requires ShortId(s) && ShortId(r) && ShortId(s') && ShortId(r')
    ensures KeyInfo(s, r) == KeyInfo(s', r') <==> s == s' && r == r'
  {
    hide Utf8;
    if KeyInfo(s, r) == KeyInfo(s', r') {
      assert Prefixed(Utf8(s)) + (Prefixed(Utf8(r)) + []) == KeyInfo(s, r);
      assert Prefixed(Utf8(s')) + (Prefixed(Utf8(r')) + []) == KeyInfo(s', r');
      PrefixedPairInjective(Utf8(s), Utf8(r), Utf8(s'), Utf8(r'), [], []);
      Utf8Injective(s, s');
      Utf8Injective(r, r');
    }
  }

  lemma NonceInjective(a: nat, b: nat)
    requires a < U64_LIMIT && b < U64_LIMIT
    ensures Nonce(a) == Nonce(b) <==> a == b
  {
    Widths();
    assert Nonce(a)[4..] == BigEndian(a, 8) && Nonce(b)[4..] == BigEndian(b, 8);
    if Nonce(a) == Nonce(b) {
      BigEndianInjective(a, b, 8);
    }
  }
}
