/** Textual encodings: lower-case hexadecimal, decimal numbers and '/'-separated paths. */
module Text {
  import opened Base

  // ---------- hexadecimal ----------

  function HexDigit(n: nat): char
    requires n < 16
  {
    if n < 10 then '0' + n as char else 'a' + (n - 10) as char
  }

  predicate IsHexDigit(c: char) {
    '0' <= c <= '9' || 'a' <= c <= 'f' || 'A' <= c <= 'F'
  }

  /** Value of one hexadecimal digit of either case. */
  function HexValue(c: char): (v: nat)
    requires IsHexDigit(c)
    ensures v < 16
  {
    if '0' <= c <= '9' then c as int - '0' as int
    else if 'a' <= c <= 'f' then c as int - 'a' as int + 10
    else c as int - 'A' as int + 10
  }

  function ToHex(bytes: seq<byte>): (s: string)
    ensures |s| == 2 * |bytes| && forall c :: c in s ==> IsHexDigit(c)
  {
    if bytes == [] then ""
    else [HexDigit(bytes[0] / 16), HexDigit(bytes[0] % 16)] + ToHex(bytes[1..])
  }

  /** Reads pairs of hexadecimal digits. */
  function DecodeHex(s: string): (bytes: seq<byte>)
    requires |s| % 2 == 0 && forall c :: c in s ==> IsHexDigit(c)
    ensures |bytes| == |s| / 2
  {
    if s == "" then [] else [16 * HexValue(s[0]) + HexValue(s[1])] + DecodeHex(s[2..])
  }

  lemma {:induction false} HexRoundTrip(bytes: seq<byte>)
    ensures DecodeHex(ToHex(bytes)) == bytes
  {
    if bytes != [] {
      var s := ToHex(bytes);
      assert s[2..] == ToHex(bytes[1..]);
      HexRoundTrip(bytes[1..]);
    }
  }

  lemma HexInjective(a: seq<byte>, b: seq<byte>)
    requires ToHex(a) == ToHex(b)
    ensures a == b
  {
    HexRoundTrip(a);
    HexRoundTrip(b);
  }

  lemma {:induction false} DecodeHexSnoc(s: string, c: char, d: char)
    requires |s| % 2 == 0 && (forall x :: x in s ==> IsHexDigit(x)) && IsHexDigit(c) && IsHexDigit(d)
    ensures DecodeHex(s + [c, d]) == DecodeHex(s) + [16 * HexValue(c) + HexValue(d)]
  {
    if s == "" {
      assert s + [c, d] == [c, d];
      assert DecodeHex([c, d][2..]) == [];
    } else {
      assert (s + [c, d])[2..] == s[2..] + [c, d];
      DecodeHexSnoc(s[2..], c, d);
    }
  }

  function LowerAscii(s: string): (t: string)
    ensures |t| == |s|
  {
    seq(|s|, i requires 0 <= i < |s| => if 'A' <= s[i] <= 'Z' then s[i] - 'A' + 'a' else s[i])
  }

  /** Equal, or the same letter in the other case. */
  predicate SameLetter(c: char, d: char) {
    || c == d
    || ('A' <= c <= 'Z' && d as int == c as int + 32)
    || ('A' <= d <= 'Z' && c as int == d as int + 32)
  }

  /** Equal up to the case of letters, character by character. */
  lemma LowerAsciiIgnoresCase(s: string, t: string)
    ensures LowerAscii(s) == LowerAscii(t) <==> |s| == |t| && forall i :: 0 <= i < |s| ==> SameLetter(s[i], t[i])
  {
    var a, b := LowerAscii(s), LowerAscii(t);
    if |s| == |t| {
      forall i | 0 <= i < |s| ensures a[i] == b[i] <==> SameLetter(s[i], t[i]) {}
      if a == b {
        forall i | 0 <= i < |s| ensures SameLetter(s[i], t[i]) {
          assert a[i] == b[i];
        }
      }
    }
  }

  /** Two digits a byte, the high one first, in lower case. */
  lemma {:induction false} HexDigits(bytes: seq<byte>, i: nat)
    requires i < |bytes|
    ensures ToHex(bytes)[2 * i] == "0123456789abcdef"[bytes[i] / 16]
    ensures ToHex(bytes)[2 * i + 1] == "0123456789abcdef"[bytes[i] % 16]
  {
    if i > 0 {
      HexDigits(bytes[1..], i - 1);
      assert ToHex(bytes)[2..] == ToHex(bytes[1..]);
    }
  }

  lemma OneByteReadsBack(c: char, d: char)
    requires IsHexDigit(c) && IsHexDigit(d)
    ensures var b := 16 * HexValue(c) + HexValue(d);
            [HexDigit(b / 16), HexDigit(b % 16)] == LowerAscii([c, d])
  {
    var b := 16 * HexValue(c) + HexValue(d);
    assert b / 16 == HexValue(c) && b % 16 == HexValue(d);
  }

  lemma LowerSplits(s: string)
    requires |s| >= 2
    ensures LowerAscii(s) == LowerAscii([s[0], s[1]]) + LowerAscii(s[2..])
  {
  }

  lemma ToHexStep(b: byte, rest: seq<byte>)
    ensures ToHex([b] + rest) == [HexDigit(b / 16), HexDigit(b % 16)] + ToHex(rest)
  {
    assert ([b] + rest)[1..] == rest;
  }

  /** What decodes reads back as the same text, its letters lowered. */
  lemma {:induction false} DecodedReadsBack(s: string)
    requires |s| % 2 == 0 && forall c :: c in s ==> IsHexDigit(c)
    ensures ToHex(DecodeHex(s)) == LowerAscii(s)
  {
    hide HexDigit, HexValue, IsHexDigit, LowerAscii, ToHex;
    if s != "" {
      assert s[0] in s && s[1] in s && forall c :: c in s[2..] ==> c in s;
      DecodedReadsBack(s[2..]);
      OneByteReadsBack(s[0], s[1]);
      LowerSplits(s);
      ToHexStep(16 * HexValue(s[0]) + HexValue(s[1]), DecodeHex(s[2..]));
    }
  }

  lemma {:induction false} HexIsLower(bytes: seq<byte>)
    ensures LowerAscii(ToHex(bytes)) == ToHex(bytes)
  {
    if bytes != [] {
      HexIsLower(bytes[1..]);
      var s := ToHex(bytes);
      forall i | 0 <= i < |s| ensures !('A' <= s[i] <= 'Z') {
        if i >= 2 {
          assert s[i] == ToHex(bytes[1..])[i - 2] == LowerAscii(ToHex(bytes[1..]))[i - 2];
        }
      }
    }
  }

  // ---------- decimal ----------

  predicate IsDigit(c: char) { '0' <= c <= '9' }

  function Decimal(n: nat): (s: string)
    ensures s != "" && forall c :: c in s ==> IsDigit(c)
  {
    if n < 10 then ['0' + n as char] else Decimal(n / 10) + ['0' + (n % 10) as char]
  }

  function ParseDecimal(s: string): nat
    requires forall c :: c in s ==> IsDigit(c)
  {
    if s == "" then 0
    else
      assert IsDigit(s[|s| - 1]);
      10 * ParseDecimal(s[..|s| - 1]) + (s[|s| - 1] as int - '0' as int)
  }

  lemma {:induction false} DecimalRoundTrip(n: nat)
    ensures ParseDecimal(Decimal(n)) == n
  {
    if n < 10 {
      assert Decimal(n)[..0] == "";
    } else {
      DecimalRoundTrip(n / 10);
      var s := Decimal(n);
      assert s[..|s| - 1] == Decimal(n / 10);
    }
  }

  lemma DecimalInjective(m: nat, n: nat)
    requires Decimal(m) == Decimal(n)
    ensures m == n
  {
    DecimalRoundTrip(m);
    DecimalRoundTrip(n);
  }

  function Pow10(k: nat): (p: nat)
    ensures p > 0
  {
    if k == 0 then 1 else 10 * Pow10(k - 1)
  }

  /** A number below ten to the k has at most k digits. */
  lemma {:induction false} DecimalLength(n: nat, k: nat)
    requires k > 0 && n < Pow10(k)
    ensures |Decimal(n)| <= k
  {
    if n >= 10 {
      assert Pow10(1) == 10 * Pow10(0) == 10;
      DecimalLength(n / 10, k - 1);
    }
  }

  // ---------- '/'-separated text ----------

  /** The pieces between separators; a text without one is a single piece. */
  function Split(s: string): (pieces: seq<string>)
    ensures pieces != []
  {
    if s == "" then [""]
    else
      var rest := Split(s[1..]);
      if s[0] == '/' then [""] + rest else [[s[0]] + rest[0]] + rest[1..]
  }

  lemma SplitStep(c: char, s: string)
    ensures Split("") == [""]
    ensures Split([c] + s) == if c == '/' then [""] + Split(s) else [[c] + Split(s)[0]] + Split(s)[1..]
  {
    assert ([c] + s)[1..] == s;
  }

  lemma GrowsAtHead(c: char, pieces: seq<string>, more: seq<string>)
    requires pieces != []
    ensures [[c] + (pieces + more)[0]] + (pieces + more)[1..] == [[c] + pieces[0]] + pieces[1..] + more
    ensures [""] + (pieces + more) == [""] + pieces + more
  {
    assert (pieces + more)[1..] == pieces[1..] + more;
  }

  lemma {:induction false} SplitJoin(a: string, b: string)
    ensures Split(a + "/" + b) == Split(a) + Split(b)
  {
    hide Split;
    if a == "" {
      assert a + "/" + b == ['/'] + b;
      SplitStep('/', b);
    } else {
      var c, rest := a[0], a[1..];
      assert a == [c] + rest && a + "/" + b == [c] + (rest + "/" + b);
      SplitJoin(rest, b);
      SplitStep(c, rest + "/" + b);
      SplitStep(c, rest);
      GrowsAtHead(c, Split(rest), Split(b));
    }
  }

  lemma {:induction false} SplitSingle(s: string)
    requires '/' !in s
    ensures Split(s) == [s]
  {
    if s != "" {
      SplitSingle(s[1..]);
      assert [s[0]] + s[1..] == s;
    }
  }

  /** The first piece ends at the first separator. */
  lemma {:induction false} SplitFirst(s: string) returns (k: nat)
    ensures k <= |s| && '/' !in s[..k] && (k == |s| || s[k] == '/')
    ensures Split(s) == if k == |s| then [s] else [s[..k]] + Split(s[k + 1..])
  {
    k := 0;
    while k < |s| && s[k] != '/'
      invariant k <= |s| && '/' !in s[..k]
    {
      k := k + 1;
    }
    SplitSingle(s[..k]);
    if k < |s| {
      SplitJoin(s[..k], s[k + 1..]);
      assert s == s[..k] + "/" + s[k + 1..];
    } else {
      assert s[..k] == s;
    }
  }

  /** The text `piece` stands at position `i` of `s`, between separators or the ends. */
  predicate StandsAt(s: string, piece: string, i: nat) {
    var j := i + |piece|;
    j <= |s| && s[i..j] == piece && (i == 0 || s[i - 1] == '/') && (j == |s| || s[j] == '/')
  }

  lemma FirstStands(s: string, k: nat)
    requires k < |s| && s[k] == '/'
    ensures StandsAt(s, s[..k], 0)
  {
  }

  lemma LaterStands(s: string, piece: string, i: nat, k: nat)
    requires k < |s| && s[k] == '/' && StandsAt(s[k + 1..], piece, i)
    ensures StandsAt(s, piece, k + 1 + i)
  {
    var rest := s[k + 1..];
    assert s[k + 1 + i..k + 1 + i + |piece|] == rest[i..i + |piece|];
  }

  /** The pieces of a text are exactly what stands between its separators. */
  lemma {:induction false} PiecesStand(s: string, piece: string)
    requires '/' !in piece
    ensures piece in Split(s) <==> exists i: nat :: StandsAt(s, piece, i)
    decreases |s|
  {
    hide Split, StandsAt;
    var k := SplitFirst(s);
    if k == |s| {
      LastPieceStands(s, piece, k);
    } else {
      PiecesStand(s[k + 1..], piece);
      if piece == s[..k] {
        FirstStands(s, k);
      } else if piece in Split(s) {
        assert piece in Split(s[k + 1..]);
        var i: nat :| StandsAt(s[k + 1..], piece, i);
        LaterStands(s, piece, i, k);
      }
      if i: nat :| StandsAt(s, piece, i) {
        StandsInOnePart(s, piece, i, k);
      }
    }
  }

  lemma LastPieceStands(s: string, piece: string, k: nat)
    requires '/' !in piece && '/' !in s && Split(s) == [s]
    ensures piece in Split(s) <==> exists i: nat :: StandsAt(s, piece, i)
  {
    if piece == s {
      assert StandsAt(s, piece, 0);
    }
    forall x | 0 <= x < |s| ensures s[x] != '/' {
      assert s[x] in s;
    }
    assert s[0..|s|] == s;
  }

  lemma StandsInOnePart(s: string, piece: string, i: nat, k: nat)
    requires StandsAt(s, piece, i) && '/' !in piece && k < |s| && s[k] == '/' && '/' !in s[..k]
    ensures if i <= k then piece == s[..k] else StandsAt(s[k + 1..], piece, i - (k + 1))
  {
    var j := i + |piece|;
    forall x | 0 <= x < k ensures s[x] != '/' {
      assert s[x] == s[..k][x];
    }
    forall x | i <= x < j ensures s[x] != '/' {
      assert s[x] == s[i..j][x - i];
    }
    if i > k {
      assert s[k + 1..][i - (k + 1)..j - (k + 1)] == s[i..j];
    }
  }
}
