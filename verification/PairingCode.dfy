/** Six-digit pairing codes drawn without bias from 32-bit random numbers. */
module PairingCode {
  import opened Base
  import opened Text
  import opened Protocol

  const RANGE: nat := 1_000_000
  const U32_MAX: nat := 0xFFFF_FFFF
  const LIMIT: nat := U32_MAX - U32_MAX % RANGE

  /** What four random bytes denote. */
  type u32 = x: int | 0 <= x <= 0xFFFF_FFFF

  predicate ValidCode(code: string) { |code| == 6 && forall c :: c in code ==> IsDigit(c) }

  function Zeros(k: nat): (s: string)
    ensures |s| == k && forall c :: c in s ==> c == '0'
  {
    if k == 0 then "" else Zeros(k - 1) + "0"
  }

  /** Zero-padded to six digits. */
  function Padded(n: nat): string {
    var s := Decimal(n);
    if |s| >= 6 then s else Zeros(6 - |s|) + s
  }

  lemma {:induction false} LeadingZeros(k: nat, s: string)
    requires forall c :: c in s ==> IsDigit(c)
    ensures forall c :: c in Zeros(k) + s ==> IsDigit(c)
    ensures ParseDecimal(Zeros(k) + s) == ParseDecimal(s)
    decreases |s|, k
  {
    var all := Zeros(k) + s;
    if s == "" {
      assert all == Zeros(k);
      if k > 0 {
        LeadingZeros(k - 1, "");
        assert Zeros(k - 1) + "" == Zeros(k - 1);
        assert all[..|all| - 1] == Zeros(k - 1);
      }
    } else {
      var shorter := s[..|s| - 1];
      assert forall c :: c in shorter ==> c in s;
      LeadingZeros(k, shorter);
      assert all[..|all| - 1] == Zeros(k) + shorter;
    }
  }

  /** Every code is six digits, and distinct numbers have distinct codes. */
  lemma CodesAreValidAndDistinct(m: nat, n: nat)
    requires m < RANGE && n < RANGE
    ensures ValidCode(Padded(m))
    ensures Padded(m) == Padded(n) <==> m == n
  {
    SixDigits(m);
    SixDigits(n);
  }

  lemma MillionIsAPowerOfTen()
    ensures Pow10(6) == RANGE
  {
    assert Pow10(1) == 10 * Pow10(0) && Pow10(2) == 10 * Pow10(1) && Pow10(3) == 10 * Pow10(2)
      && Pow10(4) == 10 * Pow10(3) && Pow10(5) == 10 * Pow10(4) && Pow10(6) == 10 * Pow10(5);
  }

  lemma SixDigits(n: nat)
    requires n < RANGE
    ensures ValidCode(Padded(n)) && ParseDecimal(Padded(n)) == n
  {
    hide Decimal, ParseDecimal, Pow10, Zeros;
    MillionIsAPowerOfTen();
    DecimalLength(n, 6);
    DecimalRoundTrip(n);
    LeadingZeros(6 - |Decimal(n)|, Decimal(n));
    assert |Zeros(0)| == 0 && Zeros(0) + Decimal(n) == Decimal(n);
  }

  lemma {:induction false} DigitAt(n: nat, k: nat)
    requires k < |Decimal(n)|
    ensures Decimal(n)[|Decimal(n)| - 1 - k] as int - '0' as int == n / Pow10(k) % 10
    decreases n
  {
    if k == 0 {
      assert Pow10(0) == 1;
    } else {
      var s := Decimal(n);
      assert n >= 10;
      DigitAt(n / 10, k - 1);
      assert s[..|s| - 1] == Decimal(n / 10);
      assert s[|s| - 1 - k] == Decimal(n / 10)[|Decimal(n / 10)| - 1 - (k - 1)];
      DivideTwice(n, Pow10(k - 1));
      assert Pow10(k) == 10 * Pow10(k - 1);
    }
  }

  lemma DivideTwice(n: nat, p: nat)
    requires p > 0
    ensures n / 10 / p == n / (10 * p)
  {
    var q := n / (10 * p);
    var r := n - q * (10 * p);
    assert 0 <= r < 10 * p;
    assert n / 10 == q * p + r / 10 by {
      assert n == 10 * (q * p) + r;
    }
    assert 0 <= r / 10 < p;
    QuotientOf(n / 10, p, q, r / 10);
  }

  lemma QuotientOf(n: nat, p: nat, q: nat, r: nat)
    requires p > 0 && n == q * p + r && r < p
    ensures n / p == q
  {
    var d := n / p - q;
    assert d * p == r - n % p;
    NonzeroMultiple(d, p);
  }

  lemma NonzeroMultiple(d: int, p: int)
    requires p > 0
    ensures d >= 1 ==> d * p >= p
    ensures d <= -1 ==> d * p <= -p
  {
  }

  lemma {:induction false} BelowPower(n: nat)
    ensures n < Pow10(|Decimal(n)|)
  {
    if n < 10 {
      assert Pow10(1) == 10 * Pow10(0);
    } else {
      BelowPower(n / 10);
      assert Pow10(|Decimal(n)|) == 10 * Pow10(|Decimal(n)| - 1);
    }
  }

  lemma {:induction false} PowersGrow(j: nat, k: nat)
    requires j <= k
    ensures Pow10(j) <= Pow10(k)
    decreases k - j
  {
    if j < k {
      PowersGrow(j, k - 1);
    }
  }

  lemma NoMoreDigits(n: nat, k: nat)
    requires k >= |Decimal(n)|
    ensures n / Pow10(k) == 0
  {
    hide Decimal, Pow10;
    BelowPower(n);
    PowersGrow(|Decimal(n)|, k);
    QuotientOf(n, Pow10(k), 0, n);
  }

  lemma PaddedIs(n: nat)
    requires n < RANGE
    ensures |Decimal(n)| <= 6 && |Padded(n)| == 6 && Padded(n) == Zeros(6 - |Decimal(n)|) + Decimal(n)
  {
    hide Decimal, Pow10, Zeros;
    MillionIsAPowerOfTen();
    DecimalLength(n, 6);
    assert |Zeros(0)| == 0 && Zeros(0) + Decimal(n) == Decimal(n);
  }

  /** A code's digits are its number's: the last is the units, the one before it the tens, and so on. */
  lemma PaddedDigits(n: nat, k: nat)
    requires n < RANGE && k < 6
    ensures |Padded(n)| == 6 && Padded(n)[5 - k] as int - '0' as int == n / Pow10(k) % 10
  {
    hide Decimal, Pow10, Zeros, Padded;
    PaddedIs(n);
    var s := Decimal(n);
    var zeros := Zeros(6 - |s|);
    if k < |s| {
      DigitAt(n, k);
      assert Padded(n)[5 - k] == s[|s| - 1 - k];
    } else {
      NoMoreDigits(n, k);
      assert zeros[5 - k] in zeros && Padded(n)[5 - k] == zeros[5 - k];
    }
  }

  /** The numbers below `blocks` whole ranges that give `code`. */
  function Preimage(code: nat, blocks: nat): set<nat> {
    set v: nat | 0 <= v < blocks * RANGE && v % RANGE == code
  }

  lemma {:induction false} PreimageSize(code: nat, blocks: nat)
    requires code < RANGE
    ensures |Preimage(code, blocks)| == blocks
  {
    if blocks == 0 {
      assert Preimage(code, 0) == {};
    } else {
      var last := (blocks - 1) * RANGE + code;
      PreimageSize(code, blocks - 1);
      forall v ensures v in Preimage(code, blocks) <==> v in Preimage(code, blocks - 1) || v == last {
        if v in Preimage(code, blocks) && v !in Preimage(code, blocks - 1) {
          assert 0 <= v - (blocks - 1) * RANGE < RANGE;
          assert v == v / RANGE * RANGE + code;
        }
        if v == last {
          assert v % RANGE == code;
        }
      }
      assert Preimage(code, blocks) == Preimage(code, blocks - 1) + {last};
    }
  }

  /** Of the numbers the generator accepts, each code is given by exactly 4294. */
  lemma CodesAreUniform(code: nat)
    requires code < RANGE
    ensures LIMIT == 4294 * RANGE
    ensures |Preimage(code, 4294)| == 4294
    ensures forall v: nat :: v in Preimage(code, 4294) <==> v < LIMIT && v % RANGE == code
  {
    PreimageSize(code, 4294);
  }

  /** The code of the first draw below the limit; running out of draws is the random source failing. */
  function CodeFrom(draws: seq<u32>): (r: Result<string, ChannelError>)
    ensures r.Ok? ==> ValidCode(r.value)
    ensures r.Err? <==> forall v :: v in draws ==> v >= LIMIT
    ensures r.Err? ==> r == Err(Random)
  {
    if draws == [] then Err(Random)
    else if draws[0] < LIMIT then
      SixDigits(draws[0] % RANGE);
      assert draws[0] in draws;
      Ok(Padded(draws[0] % RANGE))
    else
      assert forall v :: v in draws <==> v == draws[0] || v in draws[1..];
      CodeFrom(draws[1..])
  }

  /** The first draw below 4294000000 gives this code. */
  ghost predicate FirstDraw(draws: seq<u32>, code: string) {
    exists k :: 0 <= k < |draws| && draws[k] < 4_294_000_000 && code == Padded(draws[k] % 1_000_000)
                && forall i :: 0 <= i < k ==> draws[i] >= 4_294_000_000
  }

  lemma {:induction false} CodeIsFirstDraw(draws: seq<u32>)
    ensures CodeFrom(draws).Ok? ==> FirstDraw(draws, CodeFrom(draws).value)
    ensures CodeFrom(draws).Ok? <==> exists k :: 0 <= k < |draws| && draws[k] < 4_294_000_000
  {
    hide Padded, ValidCode;
    if draws != [] {
      if draws[0] < LIMIT {
        assert FirstDraw(draws, CodeFrom(draws).value);
      } else {
        var rest := draws[1..];
        CodeIsFirstDraw(rest);
        if CodeFrom(rest).Ok? {
          var k :| 0 <= k < |rest| && rest[k] < 4_294_000_000 && CodeFrom(rest).value == Padded(rest[k] % 1_000_000)
                   && forall i :: 0 <= i < k ==> rest[i] >= 4_294_000_000;
          assert draws[k + 1] == rest[k];
          forall i | 0 <= i < k + 1 ensures draws[i] >= 4_294_000_000 {
            assert i > 0 ==> draws[i] == rest[i - 1];
          }
          assert FirstDraw(draws, CodeFrom(draws).value);
        } else {
          forall k | 0 <= k < |draws| ensures draws[k] >= 4_294_000_000 {
            assert k > 0 ==> draws[k] == rest[k - 1];
          }
        }
      }
    }
  }

  /** Draws until a number below the limit comes up. */
  method NewPairingCode(draws: seq<u32>) returns (r: Result<string, ChannelError>)
    ensures r == CodeFrom(draws)
    ensures r.Ok? ==> exists k :: 0 <= k < |draws| && draws[k] < LIMIT && r.value == Padded(draws[k] % RANGE)
                                  && forall i :: 0 <= i < k ==> draws[i] >= LIMIT
  {
    hide ValidCode, Padded;
    assert draws[0..] == draws;
    for k := 0 to |draws|
      invariant forall i :: 0 <= i < k ==> draws[i] >= LIMIT
      invariant CodeFrom(draws[k..]) == CodeFrom(draws)
    {
      assert draws[k..][0] == draws[k] && draws[k..][1..] == draws[k + 1..];
      if draws[k] < LIMIT {
        return Ok(Padded(draws[k] % RANGE));
      }
    }
    return Err(Random);
  }
}
