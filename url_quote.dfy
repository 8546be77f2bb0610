/**
 * Python's `urllib.parse.quote(text)` with its default `safe="/"`: the text is
 * encoded as UTF-8 (RFC 3629) and every byte outside the unreserved set of
 * section 2.3 of RFC 3986, other than '/', is written as a percent-encoded
 * octet "%" HEXDIG HEXDIG (section 2.1 of RFC 3986, upper-case digits).
 * Each encoding comes with its decoder and a round-trip lemma.
 */
module UrlQuote {
  import opened Wrappers

  type Byte = b: int | 0 <= b < 256

  // ---------------------------------------------------------------- UTF-8

  /** A continuation byte 10xxxxxx. */
  predicate IsContinuation(b: Byte)
  {
    0x80 <= b < 0xC0
  }

  /** A Unicode scalar value: a code point that is not a surrogate. */
  predicate IsScalar(n: int)
  {
    (0 <= n < 0xD800) || (0xE000 <= n < 0x11_0000)
  }

  /** The UTF-8 encoding of one character: one byte for ASCII, lead byte plus continuation bytes otherwise. */
  function EncodeChar(c: char): (r: seq<Byte>)
    ensures 1 <= |r| <= 4
    ensures |r| == 1 <==> (c as int) < 0x80
    ensures |r| == 1 ==> r[0] == c as int
    ensures forall k :: 0 <= k < |r| && |r| > 1 ==> r[k] >= 0x80
  {
    var n := c as int;
    if n < 0x80 then [n]
    else if n < 0x800 then [0xC0 + n / 64, 0x80 + n % 64]
    else if n < 0x1_0000 then [0xE0 + n / 4096, 0x80 + (n / 64) % 64, 0x80 + n % 64]
    else [0xF0 + n / 262144, 0x80 + (n / 4096) % 64, 0x80 + (n / 64) % 64, 0x80 + n % 64]
  }

  /** The UTF-8 encoding of a string, character by character. */
  function Utf8Encode(s: string): (r: seq<Byte>)
    ensures |s| <= |r| <= 4 * |s|
  {
    if s == [] then [] else EncodeChar(s[0]) + Utf8Encode(s[1..])
  }

  /** Decodes the character at the head of `bs` and says how many bytes it took; None for an ill-formed head. */
  function DecodeHead(bs: seq<Byte>): (r: Option<(char, nat)>)
    requires |bs| > 0
    ensures r.Some? ==> 1 <= r.value.1 <= |bs|
  {
    var b0: int := bs[0];
    var b1: int := if |bs| > 1 then bs[1] else 0;
    var b2: int := if |bs| > 2 then bs[2] else 0;
    var b3: int := if |bs| > 3 then bs[3] else 0;
    if b0 < 0x80 then
      Some((b0 as char, 1))
    else if 0xC0 <= b0 < 0xE0 && |bs| >= 2 && IsContinuation(bs[1]) then
      var n: int := (b0 - 0xC0) * 64 + (b1 - 0x80);
      if 0x80 <= n then Some((n as char, 2)) else None
    else if 0xE0 <= b0 < 0xF0 && |bs| >= 3 && IsContinuation(bs[1]) && IsContinuation(bs[2]) then
      var n: int := (b0 - 0xE0) * 4096 + (b1 - 0x80) * 64 + (b2 - 0x80);
      if 0x800 <= n && IsScalar(n) then Some((n as char, 3)) else None
    else if 0xF0 <= b0 < 0xF8 && |bs| >= 4 && IsContinuation(bs[1]) && IsContinuation(bs[2]) && IsContinuation(bs[3]) then
      var n: int := (b0 - 0xF0) * 262144 + (b1 - 0x80) * 4096 + (b2 - 0x80) * 64 + (b3 - 0x80);
      if 0x1_0000 <= n && IsScalar(n) then Some((n as char, 4)) else None
    else
      None
  }

  /** The UTF-8 decoder: None when `bs` is not well-formed UTF-8. */
  function Utf8Decode(bs: seq<Byte>): (r: Option<string>)
    ensures r.Some? ==> |r.value| <= |bs|
    decreases |bs|
  {
    if bs == [] then Some([])
    else
      match DecodeHead(bs)
      case None => None
      case Some((c, len)) =>
        match Utf8Decode(bs[len..])
        case None => None
        case Some(rest) => Some([c] + rest)
  }

  lemma DecodeTwoBytes(n: int, rest: seq<Byte>)
    requires 0x80 <= n < 0x800
    ensures DecodeHead([0xC0 + n / 64, 0x80 + n % 64] + rest) == Some((n as char, 2))
  {
    var bs: seq<Byte> := [0xC0 + n / 64, 0x80 + n % 64] + rest;
    assert bs[0] == 0xC0 + n / 64 && bs[1] == 0x80 + n % 64;
  }

  lemma DecodeThreeBytes(n: int, rest: seq<Byte>)
    requires 0x800 <= n < 0x1_0000 && IsScalar(n)
    ensures DecodeHead([0xE0 + n / 4096, 0x80 + (n / 64) % 64, 0x80 + n % 64] + rest) == Some((n as char, 3))
  {
    var bs: seq<Byte> := [0xE0 + n / 4096, 0x80 + (n / 64) % 64, 0x80 + n % 64] + rest;
    var hi, mid, lo := n / 4096, (n / 64) % 64, n % 64;
    assert n / 64 == hi * 64 + mid;
    assert n == hi * 4096 + mid * 64 + lo;
    assert bs[0] == 0xE0 + hi && bs[1] == 0x80 + mid && bs[2] == 0x80 + lo;
  }

  lemma DecodeFourBytes(n: int, rest: seq<Byte>)
    requires 0x1_0000 <= n < 0x11_0000
    ensures DecodeHead([0xF0 + n / 262144, 0x80 + (n / 4096) % 64, 0x80 + (n / 64) % 64, 0x80 + n % 64] + rest)
         == Some((n as char, 4))
  {
    var bs: seq<Byte> := [0xF0 + n / 262144, 0x80 + (n / 4096) % 64, 0x80 + (n / 64) % 64, 0x80 + n % 64] + rest;
    var top, hi, mid, lo := n / 262144, (n / 4096) % 64, (n / 64) % 64, n % 64;
    assert n / 4096 == top * 64 + hi;
    assert n / 64 == (n / 4096) * 64 + mid;
    assert n == top * 262144 + hi * 4096 + mid * 64 + lo;
    assert bs[0] == 0xF0 + top && bs[1] == 0x80 + hi && bs[2] == 0x80 + mid && bs[3] == 0x80 + lo;
  }

  /** Decoding the encoding of `c` followed by anything yields `c` and consumes exactly its bytes. */
  lemma DecodeHeadOfEncodeChar(c: char, rest: seq<Byte>)
    ensures DecodeHead(EncodeChar(c) + rest) == Some((c, |EncodeChar(c)|))
  {
    var n := c as int;
    if n < 0x80 {
    } else if n < 0x800 {
      DecodeTwoBytes(n, rest);
    } else if n < 0x1_0000 {
      DecodeThreeBytes(n, rest);
    } else {
      DecodeFourBytes(n, rest);
    }
  }

  /** UTF-8 decoding inverts UTF-8 encoding. */
  lemma {:induction false} Utf8RoundTrip(s: string)
    ensures Utf8Decode(Utf8Encode(s)) == Some(s)
  {
    if s != [] {
      var e := EncodeChar(s[0]);
      var rest := Utf8Encode(s[1..]);
      DecodeHeadOfEncodeChar(s[0], rest);
      assert (e + rest)[|e|..] == rest;
      Utf8RoundTrip(s[1..]);
      assert [s[0]] + s[1..] == s;
    }
  }

  /** An ASCII string encodes to its own character codes, one byte each. */
  lemma {:induction false} Utf8OfAscii(s: string)
    requires forall k :: 0 <= k < |s| ==> (s[k] as int) < 0x80
    ensures |Utf8Encode(s)| == |s|
    ensures forall k :: 0 <= k < |s| ==> Utf8Encode(s)[k] == s[k] as int
  {
    if s != [] {
      Utf8OfAscii(s[1..]);
    }
  }

  // ------------------------------------------------------ percent-encoding

  /** The unreserved characters of section 2.3 of RFC 3986: ALPHA / DIGIT / "-" / "." / "_" / "~". */
  predicate IsUnreserved(c: char)
  {
    ('A' <= c <= 'Z') || ('a' <= c <= 'z') || ('0' <= c <= '9') || c == '-' || c == '.' || c == '_' || c == '~'
  }

  /** The characters `quote` leaves as they are: the unreserved set plus its default `safe="/"`. */
  predicate IsQuoteSafe(c: char)
  {
    IsUnreserved(c) || c == '/'
  }

  /** An upper-case hexadecimal digit, as `quote` writes them. */
  predicate IsUpperHexDigit(c: char)
  {
    ('0' <= c <= '9') || ('A' <= c <= 'F')
  }

  /** The characters that can appear in the output of `quote`. */
  predicate IsQuoteOutput(c: char)
  {
    IsQuoteSafe(c) || c == '%' || IsUpperHexDigit(c)
  }

  function HexDigit(d: int): (c: char)
    requires 0 <= d < 16
    ensures IsUpperHexDigit(c)
  {
    if d < 10 then ('0' as int + d) as char else ('A' as int + d - 10) as char
  }

  /** The value of a hexadecimal digit of either case (section 2.1 of RFC 3986 makes them equivalent). */
  function HexValue(c: char): (r: Option<int>)
    ensures r.Some? ==> 0 <= r.value < 16
  {
    if '0' <= c <= '9' then Some(c as int - '0' as int)
    else if 'A' <= c <= 'F' then Some(c as int - 'A' as int + 10)
    else if 'a' <= c <= 'f' then Some(c as int - 'a' as int + 10)
    else None
  }

  /** One octet: kept as its character when that is safe, otherwise "%" followed by two upper-case hex digits. */
  function QuoteByte(b: Byte): (r: string)
    ensures |r| == 1 || |r| == 3
    ensures forall c :: c in r ==> IsQuoteOutput(c)
    ensures (b < 0x80 && IsQuoteSafe(b as char)) <==> r == [b as char]
    ensures |r| == 3 ==>
      && r[0] == '%' && IsUpperHexDigit(r[1]) && IsUpperHexDigit(r[2])
      && HexValue(r[1]) == Some(b / 16) && HexValue(r[2]) == Some(b % 16)
  {
    if b < 0x80 && IsQuoteSafe(b as char) then [b as char]
    else ['%', HexDigit(b / 16), HexDigit(b % 16)]
  }

  /** Percent-encoding of a byte sequence, octet by octet: each octet takes one or three characters. */
  function PercentEncode(bs: seq<Byte>): (r: string)
    ensures |bs| <= |r| <= 3 * |bs|
  {
    if bs == [] then [] else QuoteByte(bs[0]) + PercentEncode(bs[1..])
  }

  /** Octets whose characters are safe are never quoted: they come out as those characters. */
  lemma {:induction false} PercentEncodeKeepsSafe(bs: seq<Byte>)
    requires forall i :: 0 <= i < |bs| ==> bs[i] < 0x80 && IsQuoteSafe(bs[i] as char)
    ensures PercentEncode(bs) == seq(|bs|, i requires 0 <= i < |bs| => bs[i] as char)
  {
    if bs != [] {
      PercentEncodeKeepsSafe(bs[1..]);
    }
  }

  /** Python's `urllib.parse.quote(s)`: UTF-8 then percent-encoding; the result uses only the quote alphabet and percent-decodes to the UTF-8 of `s`. */
  function Quote(s: string): (r: string)
    ensures forall c :: c in r ==> IsQuoteOutput(c)
    ensures PercentDecode(r) == Some(Utf8Encode(s))
  {
    PercentEncodeAlphabet(Utf8Encode(s));
    PercentRoundTrip(Utf8Encode(s));
    PercentEncode(Utf8Encode(s))
  }

  /** A text made of unreserved characters and '/' is its own quoting: letters, digits, "-._~" and '/' are never escaped. */
  lemma QuoteOfSafeText(s: string)
    requires forall i :: 0 <= i < |s| ==> IsQuoteSafe(s[i])
    ensures Quote(s) == s
  {
    Utf8OfAscii(s);
    PercentEncodeKeepsSafe(Utf8Encode(s));
  }

  /** The percent-decoder of section 2.1 of RFC 3986: "%" HEXDIG HEXDIG is one octet, any other ASCII character stands for itself. */
  function PercentDecode(s: string): (r: Option<seq<Byte>>)
    ensures r.Some? ==> |r.value| <= |s|
    decreases |s|
  {
    if s == [] then Some([])
    else if s[0] == '%' then
      if |s| >= 3 && HexValue(s[1]).Some? && HexValue(s[2]).Some? then
        match PercentDecode(s[3..])
        case None => None
        case Some(rest) => Some([HexValue(s[1]).value * 16 + HexValue(s[2]).value] + rest)
      else None
    else if (s[0] as int) < 0x80 then
      match PercentDecode(s[1..])
      case None => None
      case Some(rest) => Some([s[0] as int] + rest)
    else None
  }

  lemma HexValueOfDigit(d: int)
    requires 0 <= d < 16
    ensures HexValue(HexDigit(d)) == Some(d)
  {
  }

  /** Decoding the encoding of one octet followed by anything yields that octet, then decodes the rest. */
  lemma DecodeQuoteByte(b: Byte, rest: string)
    ensures PercentDecode(QuoteByte(b) + rest) ==
      match PercentDecode(rest)
      case None => None
      case Some(r) => Some([b] + r)
  {
    var s := QuoteByte(b) + rest;
    if b < 0x80 && IsQuoteSafe(b as char) {
      assert s[0] == b as char && s[1..] == rest;
    } else {
      HexValueOfDigit(b / 16);
      HexValueOfDigit(b % 16);
      assert s[0] == '%' && s[1] == HexDigit(b / 16) && s[2] == HexDigit(b % 16) && s[3..] == rest;
    }
  }

  /** Percent-decoding inverts percent-encoding. */
  lemma {:induction false} PercentRoundTrip(bs: seq<Byte>)
    ensures PercentDecode(PercentEncode(bs)) == Some(bs)
  {
    if bs != [] {
      DecodeQuoteByte(bs[0], PercentEncode(bs[1..]));
      PercentRoundTrip(bs[1..]);
      assert [bs[0]] + bs[1..] == bs;
    }
  }

  /** The encoded text uses only unreserved characters, '/', '%' and upper-case hex digits. */
  lemma {:induction false} PercentEncodeAlphabet(bs: seq<Byte>)
    ensures forall c :: c in PercentEncode(bs) ==> IsQuoteOutput(c)
  {
    if bs != [] {
      PercentEncodeAlphabet(bs[1..]);
    }
  }

  /** `quote` inverts: percent-decoding and then UTF-8 decoding gives back the text. */
  lemma QuoteRoundTrip(s: string)
    ensures PercentDecode(Quote(s)) == Some(Utf8Encode(s))
    ensures Utf8Decode(PercentDecode(Quote(s)).value) == Some(s)
  {
    PercentRoundTrip(Utf8Encode(s));
    Utf8RoundTrip(s);
  }
}
