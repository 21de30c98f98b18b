/** `encodeURIComponent` (section 19.2.6.5 of ECMA-262) on strings of Unicode scalar
    values: an unreserved character is kept, every other character is written as the
    percent-escaped bytes of its UTF-8 encoding, with upper-case hexadecimal digits.
    `Decode` is the matching `decodeURIComponent`, which states what the escaping
    preserves. */
module UriEncoding {
  import opened Wrappers

  type Byte = b: int | 0 <= b < 256

  /** The characters `encodeURIComponent` leaves as they are. */
  predicate Unreserved(c: char)
  {
    || ('A' <= c <= 'Z') || ('a' <= c <= 'z') || ('0' <= c <= '9')
    || c == '-' || c == '_' || c == '.' || c == '!' || c == '~' || c == '*' || c == '\'' || c == '(' || c == ')'
  }

  /** An upper-case hexadecimal digit. */
  function HexDigit(d: nat): (c: char)
    requires d < 16
    ensures Unreserved(c)
    ensures HexValue(c) == Some(d)
  {
    if d < 10 then (d + '0' as int) as char else (d - 10 + 'A' as int) as char
  }

  /** The value of a hexadecimal digit of either case. */
  function HexValue(c: char): Option<nat>
  {
    if '0' <= c <= '9' then Some(c as int - '0' as int)
    else if 'A' <= c <= 'F' then Some(c as int - 'A' as int + 10)
    else if 'a' <= c <= 'f' then Some(c as int - 'a' as int + 10)
    else None
  }

  /** The UTF-8 encoding of one character. */
  function Utf8(c: char): (bs: seq<Byte>)
    ensures 1 <= |bs| <= 4
  {
    var cp := c as int;
    if cp < 0x80 then [cp]
    else if cp < 0x800 then [0xC0 + cp / 64, 0x80 + cp % 64]
    else if cp < 0x10000 then [0xE0 + cp / 64 / 64, 0x80 + cp / 64 % 64, 0x80 + cp % 64]
    else [0xF0 + cp / 64 / 64 / 64, 0x80 + cp / 64 / 64 % 64, 0x80 + cp / 64 % 64, 0x80 + cp % 64]
  }

  /** `%XY` for one byte. */
  function PercentByte(b: Byte): (s: string)
    ensures |s| == 3 && s[0] == '%'
  {
    ['%', HexDigit(b / 16), HexDigit(b % 16)]
  }

  function PercentBytes(bs: seq<Byte>): (s: string)
    ensures |s| == 3 * |bs|
  {
    if bs == [] then [] else PercentByte(bs[0]) + PercentBytes(bs[1..])
  }

  function EncodeChar(c: char): (s: string)
    ensures |s| >= 1
    ensures Unreserved(c) ==> s == [c]
    ensures !Unreserved(c) ==> s[0] == '%'
  {
    if Unreserved(c) then [c] else PercentBytes(Utf8(c))
  }

  /** `encodeURIComponent(s)`. */
  function Encode(s: string): (e: string)
    ensures |e| >= |s|
  {
    if s == [] then [] else EncodeChar(s[0]) + Encode(s[1..])
  }

  /** Every character is unreserved or the escape mark `%`: the text holds no `&`,
      `=`, `#`, `?`, space or line break of its own. */
  predicate UriSafe(s: string)
  {
    forall i :: 0 <= i < |s| ==> Unreserved(s[i]) || s[i] == '%'
  }

  lemma UriSafeAppend(a: string, b: string)
    requires UriSafe(a) && UriSafe(b)
    ensures UriSafe(a + b)
  {
    forall i | 0 <= i < |a + b| ensures Unreserved((a + b)[i]) || (a + b)[i] == '%' {
      if i >= |a| {
        assert (a + b)[i] == b[i - |a|];
      }
    }
  }

  /** The encoding of any string is URI-safe. */
  lemma {:induction false} EncodeIsUriSafe(s: string)
    ensures UriSafe(Encode(s))
  {
    if s != [] {
      EncodeIsUriSafe(s[1..]);
      if !Unreserved(s[0]) {
        PercentBytesSafe(Utf8(s[0]));
      }
      UriSafeAppend(EncodeChar(s[0]), Encode(s[1..]));
    }
  }

  lemma {:induction false} PercentBytesSafe(bs: seq<Byte>)
    ensures UriSafe(PercentBytes(bs))
  {
    if bs != [] {
      PercentBytesSafe(bs[1..]);
      UriSafeAppend(PercentByte(bs[0]), PercentBytes(bs[1..]));
    }
  }

  /** Reads `%XY` at the start of `s`. */
  function ReadByte(s: string): (r: Option<Byte>)
  {
    if |s| < 3 || s[0] != '%' then None
    else
      var hi :- HexValue(s[1]);
      var lo :- HexValue(s[2]);
      if hi < 16 && lo < 16 then Some(16 * hi + lo) else None
  }

  /** Reads `n` escaped bytes at the start of `s`. */
  function ReadBytes(s: string, n: nat): (r: Option<seq<Byte>>)
    ensures r.Some? ==> |r.value| == n && 3 * n <= |s|
  {
    if n == 0 then Some([])
    else
      var b :- ReadByte(s);
      var rest :- ReadBytes(s[3..], n - 1);
      Some([b] + rest)
  }

  /** How many bytes a UTF-8 sequence with this leading byte has. */
  function SequenceLength(lead: Byte): Option<nat>
  {
    if lead < 0x80 then Some(1)
    else if 0xC0 <= lead < 0xE0 then Some(2)
    else if 0xE0 <= lead < 0xF0 then Some(3)
    else if 0xF0 <= lead < 0xF8 then Some(4)
    else None
  }

  predicate Continuation(b: Byte)
  {
    0x80 <= b < 0xC0
  }

  /** Decodes one complete UTF-8 sequence, refusing overlong forms, surrogates and
      values past U+10FFFF, as `decodeURIComponent` does. */
  function Utf8Decode(bs: seq<Byte>): Option<char>
  {
    if |bs| == 1 && bs[0] < 0x80 then Some(bs[0] as char)
    else if |bs| == 2 && 0xC0 <= bs[0] < 0xE0 && Continuation(bs[1]) then
      var cp := (bs[0] as int - 0xC0) * 64 + (bs[1] as int - 0x80);
      if cp >= 0x80 then Some(cp as char) else None
    else if |bs| == 3 && 0xE0 <= bs[0] < 0xF0 && Continuation(bs[1]) && Continuation(bs[2]) then
      var cp := ((bs[0] as int - 0xE0) * 64 + (bs[1] as int - 0x80)) * 64 + (bs[2] as int - 0x80);
      if cp >= 0x800 && !(0xD800 <= cp < 0xE000) then Some(cp as char) else None
    else if |bs| == 4 && 0xF0 <= bs[0] < 0xF8 && Continuation(bs[1]) && Continuation(bs[2]) && Continuation(bs[3]) then
      var cp := (((bs[0] as int - 0xF0) * 64 + (bs[1] as int - 0x80)) * 64 + (bs[2] as int - 0x80)) * 64 + (bs[3] as int - 0x80);
      if 0x10000 <= cp < 0x110000 then Some(cp as char) else None
    else None
  }

  /** `decodeURIComponent(s)`; `None` where it would throw a URIError. */
  function Decode(s: string): (r: Option<string>)
    decreases |s|
  {
    if s == [] then Some([])
    else if s[0] != '%' then
      var rest :- Decode(s[1..]);
      Some([s[0]] + rest)
    else
      var lead :- ReadByte(s);
      var n :- SequenceLength(lead);
      var bs :- ReadBytes(s, n);
      var c :- Utf8Decode(bs);
      var rest :- Decode(s[3 * n..]);
      Some([c] + rest)
  }

  lemma Utf8RoundTrip(c: char)
    ensures SequenceLength(Utf8(c)[0]) == Some(|Utf8(c)|)
    ensures Utf8Decode(Utf8(c)) == Some(c)
  {
    var cp := c as int;
    if cp < 0x80 {
    } else if cp < 0x800 {
      assert (cp / 64) * 64 + cp % 64 == cp;
    } else if cp < 0x10000 {
      assert (cp / 64 / 64) * 64 + cp / 64 % 64 == cp / 64;
      assert (cp / 64) * 64 + cp % 64 == cp;
    } else {
      assert (cp / 64 / 64 / 64) * 64 + cp / 64 / 64 % 64 == cp / 64 / 64;
      assert (cp / 64 / 64) * 64 + cp / 64 % 64 == cp / 64;
      assert (cp / 64) * 64 + cp % 64 == cp;
    }
  }

  lemma ReadByteRoundTrip(b: Byte, rest: string)
    ensures ReadByte(PercentByte(b) + rest) == Some(b)
  {
    var s := PercentByte(b) + rest;
    assert s[0] == '%' && s[1] == HexDigit(b / 16) && s[2] == HexDigit(b % 16);
  }

  lemma {:induction false} ReadBytesRoundTrip(bs: seq<Byte>, rest: string)
    ensures ReadBytes(PercentBytes(bs) + rest, |bs|) == Some(bs)
  {
    if bs != [] {
      var t := PercentBytes(bs[1..]) + rest;
      var s := PercentBytes(bs) + rest;
      assert s == PercentByte(bs[0]) + t;
      assert s[3..] == t;
      ReadByteRoundTrip(bs[0], t);
      ReadBytesRoundTrip(bs[1..], rest);
      ReadBytesStep(s, |bs|, bs[0], bs[1..]);
      assert [bs[0]] + bs[1..] == bs;
    }
  }

  /** One step of `ReadBytes`. */
  lemma ReadBytesStep(s: string, n: nat, b: Byte, tail: seq<Byte>)
    requires n >= 1 && |s| >= 3
    requires ReadByte(s) == Some(b)
    requires ReadBytes(s[3..], n - 1) == Some(tail)
    ensures ReadBytes(s, n) == Some([b] + tail)
  {
  }

  /** Decoding reads back one encoded character and continues after it. */
  lemma DecodeEncodedChar(c: char, rest: string)
    ensures Decode(EncodeChar(c) + rest) == (match Decode(rest) case None => None case Some(t) => Some([c] + t))
  {
    if Unreserved(c) {
      assert (EncodeChar(c) + rest)[1..] == rest;
    } else {
      DecodeEscapedChar(c, rest);
    }
  }

  lemma DecodeEscapedChar(c: char, rest: string)
    requires !Unreserved(c)
    ensures Decode(PercentBytes(Utf8(c)) + rest) == (match Decode(rest) case None => None case Some(t) => Some([c] + t))
  {
    Utf8RoundTrip(c);
    DecodeEscapedBytes(Utf8(c), c, rest);
  }

  lemma DecodeEscapedBytes(bs: seq<Byte>, c: char, rest: string)
    requires |bs| >= 1
    requires SequenceLength(bs[0]) == Some(|bs|)
    requires Utf8Decode(bs) == Some(c)
    ensures Decode(PercentBytes(bs) + rest) == (match Decode(rest) case None => None case Some(t) => Some([c] + t))
  {
    var s := PercentBytes(bs) + rest;
    ReadBytesRoundTrip(bs, rest);
    var t := PercentBytes(bs[1..]) + rest;
    assert s == PercentByte(bs[0]) + t;
    ReadByteRoundTrip(bs[0], t);
    assert s[3 * |bs|..] == rest;
    DecodeEscapeStep(s, bs, c);
  }

  /** One step of `Decode` over an escaped character. */
  lemma DecodeEscapeStep(s: string, bs: seq<Byte>, c: char)
    requires |bs| >= 1 && |s| >= 3 * |bs| && s[0] == '%'
    requires ReadByte(s) == Some(bs[0])
    requires SequenceLength(bs[0]) == Some(|bs|)
    requires ReadBytes(s, |bs|) == Some(bs)
    requires Utf8Decode(bs) == Some(c)
    ensures Decode(s) == (match Decode(s[3 * |bs|..]) case None => None case Some(t) => Some([c] + t))
  {
  }

  /** `decodeURIComponent(encodeURIComponent(s)) == s`. */
  lemma {:induction false} DecodeEncode(s: string)
    ensures Decode(Encode(s)) == Some(s)
  {
    if s != [] {
      DecodeEncode(s[1..]);
      assert Encode(s) == EncodeChar(s[0]) + Encode(s[1..]);
      DecodeEncodedChar(s[0], Encode(s[1..]));
      assert [s[0]] + s[1..] == s;
    }
  }

  /** The line-break separator of the order message is itself escaped. */
  lemma EncodesPercentSeparator()
    ensures Encode("%0A") == "%250A"
  {
    assert Encode("A") == "A";
    assert Encode("0A") == "0A";
    assert Utf8('%') == [0x25];
    assert PercentBytes([0x25]) == "%25";
  }

  /** A character outside the Basic Multilingual Plane, such as the 👤 of the customer
      field, becomes four escaped UTF-8 bytes. */
  lemma EncodesEmoji()
    ensures Encode("👤") == "%F0%9F%91%A4"
  {
    EmojiBytes();
    EmojiEscapes();
    EncodeOne('👤');
    assert "👤" == ['👤'];
  }

  lemma EncodeOne(c: char)
    ensures Encode([c]) == EncodeChar(c)
  {
    assert Encode([c]) == EncodeChar(c) + Encode([]);
  }

  lemma EmojiBytes()
    ensures Utf8('👤') == [0xF0, 0x9F, 0x91, 0xA4]
  {
  }

  lemma EmojiEscapes()
    ensures PercentBytes([0xF0, 0x9F, 0x91, 0xA4]) == "%F0%9F%91%A4"
  {
    assert PercentByte(0xF0) == "%F0" && PercentByte(0x9F) == "%9F";
    assert PercentByte(0x91) == "%91" && PercentByte(0xA4) == "%A4";
    assert PercentBytes([0xA4]) == "%A4";
    assert PercentBytes([0x91, 0xA4]) == "%91%A4";
    assert PercentBytes([0x9F, 0x91, 0xA4]) == "%9F%91%A4";
  }
}
