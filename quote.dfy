/** Percent-encoding of a path segment as `urllib.parse.quote(s)` does it with
    its default `safe='/'`: the string is encoded as UTF-8, and every byte
    that is not an unreserved ASCII character (section 2.3 of RFC 3986) or
    `/` becomes `%` and two upper-case hexadecimal digits (section 2.1).
    Strings here hold Unicode scalar values only; a lone surrogate, on which
    Python's encoder raises, cannot occur. */
module Quote {
  import opened Results

  type Byte = b: int | 0 <= b < 256

  // ----- UTF-8 -----

  /** The UTF-8 encoding of one Unicode scalar value (RFC 3629, section 3). */
  function Utf8(c: char): (r: seq<Byte>)
    ensures 1 <= |r| <= 4
  {
    var cp := c as int;
    if cp < 0x80 then [cp]
    else if cp < 0x800 then [0xC0 + cp / 64, 0x80 + cp % 64]
    else if cp < 0x10000 then [0xE0 + cp / 4096, 0x80 + cp / 64 % 64, 0x80 + cp % 64]
    else [0xF0 + cp / 262144, 0x80 + cp / 4096 % 64, 0x80 + cp / 64 % 64, 0x80 + cp % 64]
  }

  /** `s.encode('utf-8')`. */
  function Encode(s: string): seq<Byte>
    decreases |s|
  {
    if s == [] then [] else Utf8(s[0]) + Encode(s[1..])
  }

  predicate IsContinuation(b: Byte) {
    0x80 <= b < 0xC0
  }

  /** The number of bytes of the sequence a lead byte starts, or 0 when it
      cannot start one. */
  function SequenceLength(lead: Byte): nat {
    if lead < 0x80 then 1
    else if 0xC0 <= lead < 0xE0 then 2
    else if 0xE0 <= lead < 0xF0 then 3
    else if 0xF0 <= lead < 0xF8 then 4
    else 0
  }

  /** The code point the first `n` bytes of `bs` encode, ignoring overlong forms. */
  function CodePoint(bs: seq<Byte>, n: nat): int
    requires 1 <= n <= 4 && n <= |bs|
  {
    var b0 := bs[0] as int;
    if n == 1 then b0
    else
      var b1 := bs[1] as int - 0x80;
      if n == 2 then (b0 - 0xC0) * 64 + b1
      else
        var b2 := bs[2] as int - 0x80;
        if n == 3 then (b0 - 0xE0) * 4096 + b1 * 64 + b2
        else (b0 - 0xF0) * 262144 + b1 * 4096 + b2 * 64 + (bs[3] as int - 0x80)
  }

  predicate IsScalar(cp: int) {
    0 <= cp < 0xD800 || 0xE000 <= cp < 0x11_0000
  }

  /** Decoding of UTF-8 that inverts `Encode`; `None` for a byte sequence that
      is not a run of well-shaped sequences of scalar values. */
  function Decode(bs: seq<Byte>): Option<string>
    decreases |bs|
  {
    if bs == [] then Some([])
    else
      var n := SequenceLength(bs[0]);
      if n == 0 || |bs| < n || exists j :: 1 <= j < n && !IsContinuation(bs[j]) then None
      else
        var cp := CodePoint(bs, n);
        if !IsScalar(cp) then None
        else match Decode(bs[n..])
          case None => None
          case Some(rest) => Some([cp as char] + rest)
  }

  lemma Digits2(cp: int)
    requires 0x80 <= cp < 0x800
    ensures 2 <= cp / 64 < 32 && cp / 64 * 64 + cp % 64 == cp
  {
  }

  lemma Digits3(cp: int)
    requires 0x800 <= cp < 0x10000
    ensures 0 <= cp / 4096 < 16 && cp / 4096 * 4096 + cp / 64 % 64 * 64 + cp % 64 == cp
  {
    assert cp / 64 == cp / 4096 * 64 + cp / 64 % 64;
  }

  lemma Digits4(cp: int)
    requires 0x10000 <= cp < 0x11_0000
    ensures 0 <= cp / 262144 < 5
    ensures cp / 262144 * 262144 + cp / 4096 % 64 * 4096 + cp / 64 % 64 * 64 + cp % 64 == cp
  {
    assert cp / 64 == cp / 4096 * 64 + cp / 64 % 64;
    assert cp / 4096 == cp / 262144 * 64 + cp / 4096 % 64;
  }

  /** The lead byte of an encoded character announces its length, the other
      bytes are continuation bytes, and together they give the code point back. */
  lemma Utf8Shape(c: char)
    ensures var bs := Utf8(c); var n := |bs|;
      && SequenceLength(bs[0]) == n
      && (forall j :: 1 <= j < n ==> IsContinuation(bs[j]))
      && CodePoint(bs, n) == c as int
  {
    var cp := c as int;
    if cp < 0x80 {
    } else if cp < 0x800 {
      Digits2(cp);
    } else if cp < 0x10000 {
      Digits3(cp);
    } else {
      Digits4(cp);
    }
  }

  /** One encoded character is decoded back, whatever follows it. */
  lemma DecodeUtf8(c: char, rest: seq<Byte>)
    ensures Decode(Utf8(c) + rest) == match Decode(rest) case None => None case Some(t) => Some([c] + t)
  {
    var u := Utf8(c);
    var bs := u + rest;
    Utf8Shape(c);
    assert bs[|u|..] == rest;
    assert forall j :: 0 <= j < |u| ==> bs[j] == u[j];
    assert CodePoint(bs, |u|) == CodePoint(u, |u|);
  }

  /** UTF-8 decoding inverts encoding. */
  lemma {:induction false} DecodeEncode(s: string)
    ensures Decode(Encode(s)) == Some(s)
    decreases |s|
  {
    if s != [] {
      DecodeEncode(s[1..]);
      DecodeUtf8(s[0], Encode(s[1..]));
      assert [s[0]] + s[1..] == s;
    }
  }

  // ----- Percent-encoding -----

  /** Python's always-safe characters (letters, digits, `_.-~`) and `/`. */
  predicate IsSafe(c: char) {
    ('A' <= c <= 'Z') || ('a' <= c <= 'z') || ('0' <= c <= '9') || c in "_.-~/"
  }

  const HexDigits := "0123456789ABCDEF"

  /** One byte of the encoded string, written out. */
  function QuoteByte(b: Byte): (r: string)
    ensures |r| == 1 || |r| == 3
  {
    if b < 128 && IsSafe(b as char) then [b as char]
    else ['%', HexDigits[b / 16], HexDigits[b % 16]]
  }

  function QuoteBytes(bs: seq<Byte>): string
    decreases |bs|
  {
    if bs == [] then [] else QuoteByte(bs[0]) + QuoteBytes(bs[1..])
  }

  /** `quote(s)`, with `safe='/'`. */
  function Quote(s: string): string {
    QuoteBytes(Encode(s))
  }

  function HexValue(c: char): int {
    if '0' <= c <= '9' then c as int - '0' as int
    else if 'A' <= c <= 'F' then c as int - 'A' as int + 10
    else if 'a' <= c <= 'f' then c as int - 'a' as int + 10
    else -1
  }

  /** Percent-decoding (section 2.1 of RFC 3986) to bytes; `None` for a
      malformed escape or a non-ASCII character. */
  function Unquote(t: string): Option<seq<Byte>>
    decreases |t|
  {
    if t == [] then Some([])
    else if t[0] == '%' then
      if |t| < 3 || HexValue(t[1]) < 0 || HexValue(t[2]) < 0 then None
      else match Unquote(t[3..])
        case None => None
        case Some(rest) => Some([HexValue(t[1]) * 16 + HexValue(t[2])] + rest)
    else if t[0] as int < 128 then
      match Unquote(t[1..])
      case None => None
      case Some(rest) => Some([t[0] as int] + rest)
    else None
  }

  lemma UnquoteByte(b: Byte, t: string)
    ensures Unquote(QuoteByte(b) + t) == match Unquote(t) case None => None case Some(rest) => Some([b] + rest)
  {
    if b < 128 && IsSafe(b as char) {
      var q := [b as char] + t;
      assert q[1..] == t;
    } else {
      UnquoteEscape(b / 16, b % 16, t);
      assert b / 16 * 16 + b % 16 == b;
    }
  }

  /** An escape `%XY` is read back as the byte it writes. */
  lemma UnquoteEscape(hi: int, lo: int, t: string)
    requires 0 <= hi < 16 && 0 <= lo < 16
    ensures Unquote(['%', HexDigits[hi], HexDigits[lo]] + t)
      == match Unquote(t) case None => None case Some(rest) => Some([hi * 16 + lo] + rest)
  {
    var q := ['%', HexDigits[hi], HexDigits[lo]] + t;
    assert q[3..] == t;
    HexDigitValue(hi);
    HexDigitValue(lo);
  }

  /** The digit written for `n` is read back as `n`. */
  lemma HexDigitValue(n: int)
    requires 0 <= n < 16
    ensures HexValue(HexDigits[n]) == n
  { }

  /** A safe byte is written as itself; any other byte as `%` and the two
      hexadecimal digits of its value, high digit first. */
  lemma QuoteByteShape(b: Byte)
    ensures |QuoteByte(b)| == 1 <==> b < 128 && IsSafe(b as char)
    ensures |QuoteByte(b)| == 1 ==> QuoteByte(b)[0] == b as char
    ensures |QuoteByte(b)| == 3 ==>
      && QuoteByte(b)[0] == '%'
      && QuoteByte(b)[1] in HexDigits && QuoteByte(b)[2] in HexDigits
      && HexValue(QuoteByte(b)[1]) * 16 + HexValue(QuoteByte(b)[2]) == b
  {
    if !(b < 128 && IsSafe(b as char)) {
      HexDigitValue(b / 16);
      HexDigitValue(b % 16);
    }
  }

  /** Percent-decoding inverts the byte encoding. */
  lemma {:induction false} UnquoteQuoteBytes(bs: seq<Byte>)
    ensures Unquote(QuoteBytes(bs)) == Some(bs)
    decreases |bs|
  {
    if bs != [] {
      UnquoteQuoteBytes(bs[1..]);
      UnquoteByte(bs[0], QuoteBytes(bs[1..]));
      assert [bs[0]] + bs[1..] == bs;
    }
  }

  /** Decoding the percent-encoded form gives back the UTF-8 bytes, and
      decoding those gives back the string. */
  lemma QuoteRoundTrip(s: string)
    ensures Unquote(Quote(s)) == Some(Encode(s))
    ensures Decode(Unquote(Quote(s)).value) == Some(s)
  {
    UnquoteQuoteBytes(Encode(s));
    DecodeEncode(s);
  }

  /** Distinct ids are quoted to distinct strings. */
  lemma QuoteInjective(a: string, b: string)
    requires Quote(a) == Quote(b)
    ensures a == b
  {
    QuoteRoundTrip(a);
    QuoteRoundTrip(b);
  }

  /** The quoted string holds only safe characters, `%` and upper-case hex digits. */
  lemma {:induction false} QuoteAlphabet(bs: seq<Byte>)
    ensures forall j :: 0 <= j < |QuoteBytes(bs)| ==>
      IsSafe(QuoteBytes(bs)[j]) || QuoteBytes(bs)[j] == '%' || QuoteBytes(bs)[j] in HexDigits
    decreases |bs|
  {
    if bs != [] {
      QuoteAlphabet(bs[1..]);
      var q := QuoteBytes(bs);
      var h := QuoteByte(bs[0]);
      assert forall j :: |h| <= j < |q| ==> q[j] == QuoteBytes(bs[1..])[j - |h|];
    }
  }

  /** A string made only of safe characters is left as it is. */
  lemma {:induction false} QuoteSafe(s: string)
    requires forall j :: 0 <= j < |s| ==> IsSafe(s[j])
    ensures Quote(s) == s
    decreases |s|
  {
    if s != [] {
      QuoteSafe(s[1..]);
      assert Encode(s) == [s[0] as int] + Encode(s[1..]);
      assert Encode(s)[1..] == Encode(s[1..]);
    }
  }
}
