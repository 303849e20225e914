/** The JSON rendering of an encrypted file chunk, and why it fits one wire frame. */
module FrameBound {
  import opened Base
  import opened Text
  import opened Wire
  import opened Protocol

  /** Length in bytes the authenticated cipher adds (section 2.8 of RFC 8439). */
  const TAG_BYTES: nat := 16

  // ---------- compact JSON ----------

  function HexOf(n: nat): seq<byte>
    requires n < 16
  {
    Utf8([HexDigit(n)])
  }

  /** One character inside a JSON string: quote, backslash and control characters are escaped. */
  function JsonChar(c: char): seq<byte> {
    if c == '"' then Utf8("\\\"")
    else if c == '\\' then Utf8("\\\\")
    else if c as int == 8 then Utf8("\\b")
    else if c as int == 9 then Utf8("\\t")
    else if c as int == 10 then Utf8("\\n")
    else if c as int == 12 then Utf8("\\f")
    else if c as int == 13 then Utf8("\\r")
    else if c as int < 0x20 then Utf8("\\u00") + HexOf(c as int / 16) + HexOf(c as int % 16)
    else Utf8Char(c)
  }

  function JsonChars(s: string): seq<byte> {
    if s == "" then [] else JsonChar(s[0]) + JsonChars(s[1..])
  }

  function JsonString(s: string): seq<byte> { Utf8("\"") + JsonChars(s) + Utf8("\"") }

  function JsonNumber(n: nat): seq<byte> { Utf8(Decimal(n)) }

  function JsonItems(data: seq<byte>): seq<byte> {
    if data == [] then []
    else if |data| == 1 then JsonNumber(data[0])
    else JsonNumber(data[0]) + Utf8(",") + JsonItems(data[1..])
  }

  /** A byte vector is a list of numbers. */
  function JsonArray(data: seq<byte>): seq<byte> { Utf8("[") + JsonItems(data) + Utf8("]") }

  const CHUNK_HEAD: string := "{\"type\":\"file_chunk\",\"transfer_id\":"
  const CHUNK_OFFSET: string := ",\"offset\":"
  const CHUNK_BYTES: string := ",\"bytes\":"

  function ChunkJson(id: string, offset: nat, data: seq<byte>): seq<byte> {
    Utf8(CHUNK_HEAD) + JsonString(id) + Utf8(CHUNK_OFFSET) + JsonNumber(offset)
    + Utf8(CHUNK_BYTES) + JsonArray(data) + Utf8("}")
  }

  const FRAME_HEAD: string := "{\"version\":"
  const FRAME_SENDER: string := ",\"sender_id\":"
  const FRAME_RECIPIENT: string := ",\"recipient_id\":"
  const FRAME_SEQUENCE: string := ",\"sequence\":"
  const FRAME_CIPHERTEXT: string := ",\"ciphertext\":"

  function FrameJson(version: nat, sender: string, recipient: string, sequence: nat, ciphertext: seq<byte>): seq<byte> {
    Utf8(FRAME_HEAD) + JsonNumber(version) + Utf8(FRAME_SENDER) + JsonString(sender)
    + Utf8(FRAME_RECIPIENT) + JsonString(recipient) + Utf8(FRAME_SEQUENCE) + JsonNumber(sequence)
    + Utf8(FRAME_CIPHERTEXT) + JsonArray(ciphertext) + Utf8("}")
  }

  // ---------- lengths ----------

  lemma {:induction false} AsciiLength(s: string)
    requires forall c :: c in s ==> c as int < 0x80
    ensures |Utf8(s)| == |s|
  {
    if s != "" {
      assert s[0] in s && forall c :: c in s[1..] ==> c in s;
      AsciiLength(s[1..]);
    }
  }

  lemma NumberLength(n: nat, digits: nat)
    requires digits > 0 && n < Pow10(digits)
    ensures 0 < |JsonNumber(n)| <= digits
  {
    AsciiLength(Decimal(n));
    DecimalLength(n, digits);
  }

  lemma ByteLength(b: byte)
    ensures 0 < |JsonNumber(b)| <= 3
  {
    assert Pow10(1) == 10 * Pow10(0);
    assert Pow10(2) == 10 * Pow10(1);
    assert Pow10(3) == 10 * Pow10(2);
    NumberLength(b, 3);
  }

  /** A JSON number list takes at most four characters per byte, less the last comma. */
  lemma {:induction false} ItemsLength(data: seq<byte>)
    ensures data == [] ==> |JsonItems(data)| == 0
    ensures data != [] ==> |JsonItems(data)| <= 4 * |data| - 1
  {
    hide JsonNumber;
    if data != [] {
      ByteLength(data[0]);
      AsciiLength(",");
      if |data| > 1 {
        ItemsLength(data[1..]);
      }
    }
  }

  lemma ArrayLength(data: seq<byte>)
    ensures |JsonArray(data)| <= 4 * |data| + 2
    ensures data != [] ==> |JsonArray(data)| <= 4 * |data| + 1
  {
    ItemsLength(data);
    AsciiLength("[");
    AsciiLength("]");
  }

  lemma CharLength(c: char)
    ensures |JsonChar(c)| <= 6
  {
    AsciiLength("\\\"");
    AsciiLength("\\\\");
    AsciiLength("\\b");
    AsciiLength("\\t");
    AsciiLength("\\n");
    AsciiLength("\\f");
    AsciiLength("\\r");
    AsciiLength("\\u00");
    if c as int < 0x20 {
      AsciiLength([HexDigit(c as int / 16)]);
      AsciiLength([HexDigit(c as int % 16)]);
    }
  }

  lemma {:induction false} StringLength(s: string)
    ensures |JsonChars(s)| <= 6 * |s|
  {
    hide JsonChar;
    if s != "" {
      CharLength(s[0]);
      StringLength(s[1..]);
    }
  }

  lemma QuotedLength(s: string)
    ensures |JsonString(s)| <= 6 * |s| + 2
  {
    StringLength(s);
    AsciiLength("\"");
  }

  lemma U64Length(n: nat)
    requires n < U64_LIMIT
    ensures |JsonNumber(n)| <= 20
  {
    assert Pow10(20) > U64_LIMIT by {
      TenToTheTen();
      assert Pow10(11) == 10 * Pow10(10) && Pow10(12) == 10 * Pow10(11) && Pow10(13) == 10 * Pow10(12)
        && Pow10(14) == 10 * Pow10(13) && Pow10(15) == 10 * Pow10(14) && Pow10(16) == 10 * Pow10(15)
        && Pow10(17) == 10 * Pow10(16) && Pow10(18) == 10 * Pow10(17) && Pow10(19) == 10 * Pow10(18)
        && Pow10(20) == 10 * Pow10(19);
    }
    NumberLength(n, 20);
  }

  lemma TenToTheTen()
    ensures Pow10(10) == 10_000_000_000
  {
    assert Pow10(1) == 10 * Pow10(0) && Pow10(2) == 10 * Pow10(1) && Pow10(3) == 10 * Pow10(2)
      && Pow10(4) == 10 * Pow10(3) && Pow10(5) == 10 * Pow10(4) && Pow10(6) == 10 * Pow10(5)
      && Pow10(7) == 10 * Pow10(6) && Pow10(8) == 10 * Pow10(7) && Pow10(9) == 10 * Pow10(8)
      && Pow10(10) == 10 * Pow10(9);
  }

  lemma ChunkJsonLength(id: string, offset: nat, data: seq<byte>)
    requires offset < U64_LIMIT
    ensures |ChunkJson(id, offset, data)| <= 4 * |data| + 6 * |id| + 80
  {
    hide JsonString, JsonNumber, JsonArray, Utf8;
    AsciiLength(CHUNK_HEAD);
    AsciiLength(CHUNK_OFFSET);
    AsciiLength(CHUNK_BYTES);
    AsciiLength("}");
    QuotedLength(id);
    U64Length(offset);
    ArrayLength(data);
  }

  lemma FrameJsonLength(sender: string, recipient: string, sequence: nat, ciphertext: seq<byte>)
    requires sequence < U64_LIMIT
    ensures |FrameJson(VERSION, sender, recipient, sequence, ciphertext)|
         <= 4 * |ciphertext| + 6 * |sender| + 6 * |recipient| + 120
  {
    hide JsonString, JsonNumber, JsonArray, Utf8;
    AsciiLength(FRAME_HEAD);
    AsciiLength(FRAME_SENDER);
    AsciiLength(FRAME_RECIPIENT);
    AsciiLength(FRAME_SEQUENCE);
    AsciiLength(FRAME_CIPHERTEXT);
    AsciiLength("}");
    QuotedLength(sender);
    QuotedLength(recipient);
    U64Length(VERSION);
    U64Length(sequence);
    ArrayLength(ciphertext);
  }

  /** Every chunk a channel agrees to seal fits one frame, for identifiers up to the stated size:
      the socket never refuses it as too large, whatever the bytes are. */
  lemma ChunkFrameFits(id: string, offset: nat, data: seq<byte>, sender: string, recipient: string, sequence: nat,
                       ciphertext: seq<byte>)
    requires Defect(FileChunk(id, offset, data)) == None && offset < U64_LIMIT && sequence < U64_LIMIT
    requires |ciphertext| == |ChunkJson(id, offset, data)| + TAG_BYTES
    requires 24 * |id| + 6 * |sender| + 6 * |recipient| <= 1_048_000
    ensures |FrameJson(VERSION, sender, recipient, sequence, ciphertext)| <= MAX_FRAME_BYTES
  {
    hide FrameJson, ChunkJson;
    ChunkJsonLength(id, offset, data);
    FrameJsonLength(sender, recipient, sequence, ciphertext);
  }
}
