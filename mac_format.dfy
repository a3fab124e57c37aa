/**
 * `format_mac`: six ", "-separated decimal octets in, the canonical
 * colon-separated upper-case hexadecimal hardware address out.
 */
module MacFormat {
  import opened Wrappers
  import opened Text

  /** A Rust `u8`. */
  type Byte = x: int | 0 <= x < 256

  // ---------------------------------------------------------------------
  // Decimal digits and Rust's `str::parse::<u8>`
  // ---------------------------------------------------------------------

  /** ASCII '0'..'9' (the model's reading of a decimal digit). */
  predicate IsDigit(c: char) {
    '0' <= c <= '9'
  }

  predicate AllDigits(s: string) {
    forall i :: 0 <= i < |s| ==> IsDigit(s[i])
  }

  /** One or more decimal digits. */
  predicate IsDigits(s: string) {
    |s| > 0 && AllDigits(s)
  }

  function DigitValue(c: char): (v: nat)
    requires IsDigit(c)
    ensures v < 10
  {
    c as int - '0' as int
  }

  function DigitChar(v: nat): (c: char)
    requires v < 10
    ensures IsDigit(c) && DigitValue(c) == v
  {
    ('0' as int + v) as char
  }

  /** The number a string of decimal digits denotes, read most significant digit first. */
  function DecValue(s: string): nat
    requires AllDigits(s)
    decreases |s|
  {
    if |s| == 0 then 0 else 10 * DecValue(s[..|s| - 1]) + DigitValue(s[|s| - 1])
  }

  /** Digits only, with the value in range: no overflow under Rust's checked accumulation. */
  function ParseUnsigned(d: string): Option<Byte>
  {
    if IsDigits(d) && DecValue(d) < 256 then Some(DecValue(d)) else None
  }

  /**
   * `b.parse::<u8>().ok()`: an optional leading '+', then one or more
   * decimal digits whose value is at most 255. The empty string, a lone '+',
   * a '-' sign, any other character and any value above 255 give `None`;
   * leading zeros are accepted.
   */
  function ParseU8(p: string): Option<Byte>
  {
    if |p| > 0 && p[0] == '+' then ParseUnsigned(p[1..]) else ParseUnsigned(p)
  }

  /** The shortest decimal rendering of `n` (Rust's `Display` and `Debug` for integers). */
  function Decimal(n: nat): (s: string)
    ensures IsDigits(s)
    decreases n
  {
    if n < 10 then [DigitChar(n)] else Decimal(n / 10) + [DigitChar(n % 10)]
  }

  /** `k` zero characters. */
  function Zeros(k: nat): (s: string)
    ensures |s| == k && AllDigits(s)
  {
    if k == 0 then "" else "0" + Zeros(k - 1)
  }

  // ---------------------------------------------------------------------
  // Upper-case hexadecimal, `{:02X}`
  // ---------------------------------------------------------------------

  /** '0'..'9' or 'A'..'F': the digits `{:X}` produces. */
  predicate IsUpperHex(c: char) {
    '0' <= c <= '9' || 'A' <= c <= 'F'
  }

  function HexDigitValue(c: char): (v: nat)
    requires IsUpperHex(c)
    ensures v < 16
  {
    if c <= '9' then c as int - '0' as int else c as int - 'A' as int + 10
  }

  function HexChar(v: nat): (c: char)
    requires v < 16
    ensures IsUpperHex(c) && HexDigitValue(c) == v
  {
    if v < 10 then ('0' as int + v) as char else ('A' as int + v - 10) as char
  }

  /** `format!("{:02X}", b)`: exactly two upper-case hex digits, zero-padded. */
  function Hex2(b: Byte): (h: string)
    ensures |h| == 2 && IsUpperHex(h[0]) && IsUpperHex(h[1])
    ensures 16 * HexDigitValue(h[0]) + HexDigitValue(h[1]) == b
  {
    [HexChar(b / 16), HexChar(b % 16)]
  }

  // ---------------------------------------------------------------------
  // The canonical text form of a hardware address
  // ---------------------------------------------------------------------

  /** The hex pairs of `bytes`, one per octet, in order. */
  function HexPairs(bytes: seq<Byte>): seq<string>
  {
    seq(|bytes|, k requires 0 <= k < |bytes| => Hex2(bytes[k]))
  }

  /** The hex pairs of `bytes` joined with ':'. */
  function Canonical(bytes: seq<Byte>): string
  {
    Join(HexPairs(bytes), ":")
  }

  /** The value of the `k`-th two-digit group of a canonical address. */
  function PairValue(t: string, k: nat): nat
    requires 3 * k + 1 < |t| && IsUpperHex(t[3 * k]) && IsUpperHex(t[3 * k + 1])
  {
    16 * HexDigitValue(t[3 * k]) + HexDigitValue(t[3 * k + 1])
  }

  /**
   * The shape of a canonical address: 17 characters, six pairs of upper-case
   * hex digits at offsets 0, 3, ..., 15, and ':' at offsets 2, 5, ..., 14.
   */
  predicate IsCanonical(t: string) {
    |t| == 17 &&
    (forall k :: 0 <= k < 6 ==> IsUpperHex(t[3 * k]) && IsUpperHex(t[3 * k + 1])) &&
    (forall k :: 0 <= k < 5 ==> t[3 * k + 2] == ':')
  }

  /**
   * Reads a canonical address text back into its six octets. It succeeds on
   * canonical texts only, and the octets it reads render back to the same
   * text, so no two canonical texts read as the same octets.
   */
  function ParseCanonical(t: string): (r: Option<seq<Byte>>)
    ensures r.Some? <==> IsCanonical(t)
    ensures r.Some? ==> |r.value| == 6 && Canonical(r.value) == t
  {
    if IsCanonical(t) then
      var bytes := seq(6, k requires 0 <= k < 6 => PairValue(t, k) as Byte);
      CanonicalOfPairs(t, bytes);
      Some(bytes)
    else None
  }

  // ---------------------------------------------------------------------
  // format_mac
  // ---------------------------------------------------------------------

  /**
   * `.map(|b| b.parse::<u8>().ok()).collect::<Option<Vec<_>>>()`: every piece
   * parsed, stopping at the first failure.
   */
  function ParseAll(pieces: seq<string>): (r: Option<seq<Byte>>)
    ensures r.Some? <==> forall k :: 0 <= k < |pieces| ==> ParseU8(pieces[k]).Some?
    ensures r.Some? ==>
              |r.value| == |pieces| &&
              forall k :: 0 <= k < |pieces| ==> r.value[k] == ParseU8(pieces[k]).value
    decreases |pieces|
  {
    if |pieces| == 0 then Some([])
    else match ParseU8(pieces[0])
      case None => None
      case Some(b) =>
        match ParseAll(pieces[1..])
        case None => None
        case Some(rest) => Some([b] + rest)
  }

  /**
   * `format_mac(numbers)`. It succeeds exactly when the input splits into six
   * pieces that all parse as `u8`; the result is then a canonical address
   * whose `k`-th hex pair reads back as the value of the `k`-th piece.
   */
  function FormatMac(numbers: string): (r: Option<string>)
    ensures r.Some? <==>
              |Split(numbers)| == 6 &&
              forall k :: 0 <= k < 6 ==> ParseU8(Split(numbers)[k]).Some?
    ensures r.Some? ==> IsCanonical(r.value)
    ensures r.Some? ==>
              forall k :: 0 <= k < 6 ==> PairValue(r.value, k) == ParseU8(Split(numbers)[k]).value
  {
    var pieces := Split(numbers);
    if |pieces| != 6 then None
    else match ParseAll(pieces)
      case None => None
      case Some(bytes) =>
        CanonicalLayout(bytes);
        Some(Canonical(bytes))
  }

  /** The `Debug` rendering of an octet array without its brackets: "1, 2, 3, 4, 5, 6". */
  function DebugList(bytes: seq<Byte>): string
  {
    Join(seq(|bytes|, k requires 0 <= k < |bytes| => Decimal(bytes[k])), Sep)
  }

  // ---------------------------------------------------------------------
  // Properties
  // ---------------------------------------------------------------------

  /**
   * Layout of `Canonical`: 3n - 1 characters, the two digits of octet `k` at
   * offsets 3k and 3k + 1, and ':' at every offset 3k + 2 between pairs.
   */
  lemma {:induction false} CanonicalLayout(bytes: seq<Byte>)
    requires |bytes| >= 1
    ensures |Canonical(bytes)| == 3 * |bytes| - 1
    ensures forall k :: 0 <= k < |bytes| ==>
              Canonical(bytes)[3 * k] == Hex2(bytes[k])[0] &&
              Canonical(bytes)[3 * k + 1] == Hex2(bytes[k])[1]
    ensures forall k :: 0 <= k < |bytes| - 1 ==> Canonical(bytes)[3 * k + 2] == ':'
    decreases |bytes|
  {
    if |bytes| > 1 {
      var rest := bytes[1..];
      CanonicalLayout(rest);
      assert HexPairs(bytes)[1..] == HexPairs(rest);
      var t := Canonical(bytes);
      assert t == Hex2(bytes[0]) + ":" + Canonical(rest);
      forall k | 1 <= k < |bytes|
        ensures t[3 * k] == Hex2(bytes[k])[0] && t[3 * k + 1] == Hex2(bytes[k])[1]
      {
        assert t[3 * k] == Canonical(rest)[3 * (k - 1)];
        assert t[3 * k + 1] == Canonical(rest)[3 * (k - 1) + 1];
      }
      forall k | 1 <= k < |bytes| - 1
        ensures t[3 * k + 2] == ':'
      {
        assert t[3 * k + 2] == Canonical(rest)[3 * (k - 1) + 2];
      }
    }
  }

  /** The canonical text of six octets reads back as those octets. */
  lemma CanonicalRoundTrip(bytes: seq<Byte>)
    requires |bytes| == 6
    ensures ParseCanonical(Canonical(bytes)) == Some(bytes)
  {
    CanonicalLayout(bytes);
    var t := Canonical(bytes);
    forall k | 0 <= k < 6
      ensures IsUpperHex(t[3 * k]) && IsUpperHex(t[3 * k + 1]) && PairValue(t, k) == bytes[k]
    {
      var h := Hex2(bytes[k]);
      assert t[3 * k] == h[0] && t[3 * k + 1] == h[1];
    }
    assert IsCanonical(t);
    var r := ParseCanonical(t);
    assert r.value == bytes;
  }

  /** A hex digit is the digit of its own value. */
  lemma HexCharOfValue(c: char)
    requires IsUpperHex(c)
    ensures HexChar(HexDigitValue(c)) == c
  {
  }

  /** Two hex digits are the `{:02X}` rendering of the value they spell. */
  lemma Hex2Of(b: Byte, h0: char, h1: char)
    requires IsUpperHex(h0) && IsUpperHex(h1)
    requires b == 16 * HexDigitValue(h0) + HexDigitValue(h1)
    ensures Hex2(b) == [h0, h1]
  {
    var x, y := HexDigitValue(h0), HexDigitValue(h1);
    assert b / 16 == x && b % 16 == y;
    HexCharOfValue(h0);
    HexCharOfValue(h1);
  }

  /** A canonical text is the canonical form of the octets its hex pairs spell. */
  lemma CanonicalOfPairs(t: string, bytes: seq<Byte>)
    requires IsCanonical(t) && |bytes| == 6
    requires forall k :: 0 <= k < 6 ==> bytes[k] == PairValue(t, k)
    ensures Canonical(bytes) == t
  {
    CanonicalLayout(bytes);
    var c := Canonical(bytes);
    forall k | 0 <= k < 6
      ensures c[3 * k] == t[3 * k] && c[3 * k + 1] == t[3 * k + 1]
    {
      Hex2Of(bytes[k], t[3 * k], t[3 * k + 1]);
    }
    forall i | 0 <= i < 17
      ensures c[i] == t[i]
    {
      var k := i / 3;
      assert i == 3 * k + i % 3;
    }
  }

  /** Reading the rendered digits of a number gives back the number. */
  lemma {:induction false} DecValueOfDecimal(n: nat)
    ensures DecValue(Decimal(n)) == n
    decreases n
  {
    if n >= 10 {
      DecValueOfDecimal(n / 10);
      var s := Decimal(n);
      assert s[..|s| - 1] == Decimal(n / 10);
    }
  }

  /** A leading zero does not change the value of a digit string. */
  lemma {:induction false} DecValueLeadingZero(d: string)
    requires AllDigits(d)
    ensures DecValue("0" + d) == DecValue(d)
    decreases |d|
  {
    if |d| > 0 {
      var init := d[..|d| - 1];
      DecValueLeadingZero(init);
      assert ("0" + d)[..|d|] == "0" + init;
    }
  }

  /** Any number of leading zeros does not change the value of a digit string. */
  lemma {:induction false} DecValueLeadingZeros(z: nat, d: string)
    requires AllDigits(d)
    ensures AllDigits(Zeros(z) + d) && DecValue(Zeros(z) + d) == DecValue(d)
    decreases z
  {
    if z > 0 {
      var tail := Zeros(z - 1) + d;
      DecValueLeadingZeros(z - 1, d);
      assert Zeros(z) + d == "0" + tail;
      DecValueLeadingZero(tail);
      assert DecValue("0" + tail) == DecValue(d);
    } else {
      assert Zeros(z) + d == d;
    }
  }

  /** Every octet's decimal rendering parses back as that octet. */
  lemma ParseU8Decimal(b: Byte)
    ensures ParseU8(Decimal(b)) == Some(b)
  {
    DecValueOfDecimal(b);
  }

  /** Leading zeros are accepted: "007" parses as 7. */
  lemma ParseU8LeadingZeros(z: nat, b: Byte)
    ensures ParseU8(Zeros(z) + Decimal(b)) == Some(b)
  {
    DecValueLeadingZeros(z, Decimal(b));
    DecValueOfDecimal(b);
  }

  /** A digit string whose value exceeds 255 does not parse, however it is padded. */
  lemma ParseU8Overflow(z: nat, n: nat)
    requires n > 255
    ensures ParseU8(Zeros(z) + Decimal(n)) == None
  {
    DecValueLeadingZeros(z, Decimal(n));
    DecValueOfDecimal(n);
  }

  /** Concrete pieces `u8` parsing accepts: leading zeros, the maximum, a '+' sign. */
  lemma ParseU8Accepts()
    ensures ParseU8("007") == Some(7)
    ensures ParseU8("255") == Some(255)
    ensures ParseU8("+12") == Some(12)
  {
    assert "007"[..2] == "00" && "00"[..1] == "0" && "0"[..0] == "";
    assert DecValue("0") == 0 && DecValue("00") == 0 && DecValue("007") == 7;
    assert "255"[..2] == "25" && "25"[..1] == "2" && "2"[..0] == "";
    assert DecValue("2") == 2 && DecValue("25") == 25 && DecValue("255") == 255;
    assert "+12"[1..] == "12" && "12"[..1] == "1" && "1"[..0] == "";
    assert DecValue("1") == 1 && DecValue("12") == 12;
  }

  /** Concrete pieces `u8` parsing rejects: over the maximum, empty, a bare sign, a minus, a letter. */
  lemma ParseU8Rejects()
    ensures ParseU8("256") == None
    ensures ParseU8("") == None
    ensures ParseU8("+") == None
    ensures ParseU8("-1") == None
    ensures ParseU8("1a") == None
  {
    assert "256"[..2] == "25" && "25"[..1] == "2" && "2"[..0] == "";
    assert DecValue("2") == 2 && DecValue("25") == 25 && DecValue("256") == 256;
    assert !IsDigit('a') && !IsDigit('-');
  }

  /**
   * The `Debug` list of six octets, which is what the extractor captures,
   * always formats, and formats to the canonical text of those octets.
   */
  lemma FormatMacOfDebugList(bytes: seq<Byte>)
    requires |bytes| == 6
    ensures FormatMac(DebugList(bytes)) == Some(Canonical(bytes))
  {
    var pieces := seq(|bytes|, k requires 0 <= k < |bytes| => Decimal(bytes[k]));
    forall k | 0 <= k < 6
      ensures NoComma(pieces[k]) && ParseU8(pieces[k]) == Some(bytes[k])
    {
      ParseU8Decimal(bytes[k]);
    }
    SplitJoin(pieces);
    var parsed := ParseAll(pieces);
    assert parsed.Some?;
    assert parsed.value == bytes;
  }
}
