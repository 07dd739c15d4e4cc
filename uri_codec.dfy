/**
 * encodeURIComponent as ECMA-262 defines it (section 19.2.6.5, with the
 * Encode operation of section 19.2.6.6 applied to an empty set of extra
 * unescaped characters), and a decodeURIComponent-style decoder as its
 * partner. Dafny characters are Unicode scalar values, so the lone
 * surrogates on which encodeURIComponent throws cannot occur: every string
 * here is encodable.
 */
module UriCodec {
  import opened Wrappers

  type Byte = b: int | 0 <= b < 256

  /** The characters encodeURIComponent copies unchanged: A-Z a-z 0-9 - _ . ! ~ * ' ( ) */
  predicate IsUnreserved(c: char)
  {
    ('A' <= c <= 'Z') || ('a' <= c <= 'z') || ('0' <= c <= '9') ||
    c == '-' || c == '_' || c == '.' || c == '!' || c == '~' || c == '*' ||
    c == '\'' || c == '(' || c == ')'
  }

  ghost predicate AllUnreserved(s: string)
  {
    forall i :: 0 <= i < |s| ==> IsUnreserved(s[i])
  }

  /** Upper-case hexadecimal digit for a value below 16. */
  function HexDigit(n: int): (c: char)
    requires 0 <= n < 16
    ensures IsUnreserved(c) && c != '%'
  {
    if n < 10 then ('0' as int + n) as char else ('A' as int + n - 10) as char
  }

  /** The value of a hexadecimal digit of either case. */
  function HexValue(c: char): (v: Option<int>)
    ensures v.Some? ==> 0 <= v.value < 16
  {
    if '0' <= c <= '9' then Some(c as int - '0' as int)
    else if 'A' <= c <= 'F' then Some(c as int - 'A' as int + 10)
    else if 'a' <= c <= 'f' then Some(c as int - 'a' as int + 10)
    else None
  }

  /** The UTF-8 encoding of one scalar value. */
  function Utf8(c: char): (bytes: seq<Byte>)
    ensures 1 <= |bytes| <= 4
  {
    var cp := c as int;
    var q1 := cp / 64;
    var q2 := q1 / 64;
    var q3 := q2 / 64;
    if cp < 0x80 then [cp]
    else if cp < 0x800 then [0xC0 + q1, 0x80 + cp % 64]
    else if cp < 0x10000 then [0xE0 + q2, 0x80 + q1 % 64, 0x80 + cp % 64]
    else [0xF0 + q3, 0x80 + q2 % 64, 0x80 + q1 % 64, 0x80 + cp % 64]
  }

  /** `%XY` for one byte. */
  function PercentEscape(b: Byte): string
  {
    ['%', HexDigit(b / 16), HexDigit(b % 16)]
  }

  function EscapeBytes(bytes: seq<Byte>): (s: string)
    ensures |s| == 3 * |bytes|
  {
    if bytes == [] then [] else PercentEscape(bytes[0]) + EscapeBytes(bytes[1..])
  }

  /** One character's contribution to encodeURIComponent. */
  function EncodeChar(c: char): string
  {
    if IsUnreserved(c) then [c] else EscapeBytes(Utf8(c))
  }

  /** encodeURIComponent, one character at a time. */
  function EncodeUriComponent(s: string): string
  {
    if s == [] then [] else EncodeChar(s[0]) + EncodeUriComponent(s[1..])
  }

  /** Every character of `s` is unreserved or `%`. */
  ghost predicate EscapedAlphabet(s: string)
  {
    forall i :: 0 <= i < |s| ==> IsUnreserved(s[i]) || s[i] == '%'
  }

  lemma AlphabetAppend(x: string, y: string)
    requires EscapedAlphabet(x) && EscapedAlphabet(y)
    ensures EscapedAlphabet(x + y)
  {
    assert forall i :: |x| <= i < |x + y| ==> (x + y)[i] == y[i - |x|];
  }

  /** The output of encodeURIComponent uses only unreserved characters and `%`. */
  lemma {:induction false} EncodeAlphabet(s: string)
    ensures EscapedAlphabet(EncodeUriComponent(s))
    decreases |s|
  {
    if s != [] {
      EncodeAlphabet(s[1..]);
      if !IsUnreserved(s[0]) {
        EscapeAlphabet(Utf8(s[0]));
      }
      AlphabetAppend(EncodeChar(s[0]), EncodeUriComponent(s[1..]));
    }
  }

  /** encodeURIComponent never shortens its input. */
  lemma {:induction false} EncodeLengthens(s: string)
    ensures |s| <= |EncodeUriComponent(s)|
    decreases |s|
  {
    if s != [] {
      EncodeLengthens(s[1..]);
    }
  }

  /** encodeURIComponent leaves a string of unreserved characters as it is. */
  lemma {:induction false} EncodeKeepsUnreserved(s: string)
    requires AllUnreserved(s)
    ensures EncodeUriComponent(s) == s
    decreases |s|
  {
    if s != [] {
      assert AllUnreserved(s[1..]) by {
        assert forall i :: 0 <= i < |s[1..]| ==> s[1..][i] == s[i + 1];
      }
      EncodeKeepsUnreserved(s[1..]);
      assert [s[0]] + s[1..] == s;
    }
  }

  /** The first character is encoded on its own, ahead of the rest. */
  lemma EncodeCons(c: char, rest: string)
    ensures EncodeUriComponent([c] + rest) == EncodeChar(c) + EncodeUriComponent(rest)
  {
    assert ([c] + rest)[0] == c && ([c] + rest)[1..] == rest;
  }

  /** Encoding works character by character, so it distributes over concatenation. */
  lemma {:induction false} EncodeAppend(s: string, t: string)
    ensures EncodeUriComponent(s + t) == EncodeUriComponent(s) + EncodeUriComponent(t)
    decreases |s|
  {
    if s != [] {
      var c, u := s[0], s[1..];
      assert s == [c] + u && s + t == [c] + (u + t);
      EncodeAppend(u, t);
      EncodeCons(c, u + t);
      EncodeCons(c, u);
    } else {
      assert s + t == t;
    }
  }

  /** Percent escapes use only `%` and upper-case hexadecimal digits. */
  lemma {:induction false} EscapeAlphabet(bytes: seq<Byte>)
    ensures EscapedAlphabet(EscapeBytes(bytes))
  {
    if bytes != [] {
      EscapeAlphabet(bytes[1..]);
      AlphabetAppend(PercentEscape(bytes[0]), EscapeBytes(bytes[1..]));
    }
  }

  /** Reads a `%XY` triplet at the start of `s`. */
  function ReadEscape(s: string): (b: Option<Byte>)
    ensures b.Some? ==> 3 <= |s|
  {
    if 3 <= |s| && s[0] == '%' then
      match (HexValue(s[1]), HexValue(s[2]))
      case (Some(hi), Some(lo)) => Some(16 * hi + lo)
      case _ => None
    else None
  }

  /** The payload of a UTF-8 continuation byte escaped at offset `i` of `s`. */
  function Continuation(s: string, i: nat): (x: Option<int>)
    ensures x.Some? ==> 0 <= x.value < 64 && i + 3 <= |s|
  {
    if i <= |s| then
      match ReadEscape(s[i..])
      case Some(b) => if 0x80 <= b < 0xC0 then Some(b - 0x80) else None
      case None => None
    else None
  }

  /**
   * Decodes the character at the start of `s`: either a literal character or
   * the escaped UTF-8 sequence of one scalar value, rejecting malformed,
   * overlong and surrogate sequences. Returns the character and how many
   * input characters it used.
   */
  function DecodeOne(s: string): (r: Option<(char, nat)>)
    requires |s| > 0
    ensures r.Some? ==> 1 <= r.value.1 <= |s|
  {
    if s[0] != '%' then Some((s[0], 1))
    else match ReadEscape(s)
      case None => None
      case Some(b0) =>
        if b0 < 0x80 then Some((b0 as char, 3))
        else if 0xC0 <= b0 < 0xE0 then
          match Continuation(s, 3)
          case None => None
          case Some(x1) =>
            var cp := (b0 - 0xC0) * 64 + x1;
            if 0x80 <= cp then Some((cp as char, 6)) else None
        else if 0xE0 <= b0 < 0xF0 then
          match (Continuation(s, 3), Continuation(s, 6))
          case (Some(x1), Some(x2)) =>
            var cp := (b0 - 0xE0) * 4096 + x1 * 64 + x2;
            if 0x800 <= cp && !(0xD800 <= cp < 0xE000) then Some((cp as char, 9)) else None
          case _ => None
        else if 0xF0 <= b0 < 0xF8 then
          match (Continuation(s, 3), Continuation(s, 6), Continuation(s, 9))
          case (Some(x1), Some(x2), Some(x3)) =>
            var cp := (b0 - 0xF0) * 262144 + x1 * 4096 + x2 * 64 + x3;
            if 0x10000 <= cp < 0x110000 then Some((cp as char, 12)) else None
          case _ => None
        else None
  }

  /** decodeURIComponent: `None` where the input is not a valid encoding. */
  function DecodeUriComponent(s: string): Option<string>
    decreases |s|
  {
    if s == [] then Some([])
    else match DecodeOne(s)
      case None => None
      case Some((c, n)) =>
        match DecodeUriComponent(s[n..])
        case None => None
        case Some(tail) => Some([c] + tail)
  }

  lemma ReadEscapeOf(b: Byte, rest: string)
    ensures ReadEscape(PercentEscape(b) + rest) == Some(b)
  {
    var s := PercentEscape(b) + rest;
    assert s[1] == HexDigit(b / 16) && s[2] == HexDigit(b % 16);
  }

  /** The `i`-th escape of an escaped byte sequence reads back as the `i`-th byte. */
  lemma {:induction false} ReadEscapeAt(bytes: seq<Byte>, rest: string, i: nat)
    requires i < |bytes|
    ensures 3 * i <= |EscapeBytes(bytes) + rest|
    ensures ReadEscape((EscapeBytes(bytes) + rest)[3 * i..]) == Some(bytes[i])
  {
    var tail := EscapeBytes(bytes[1..]) + rest;
    assert EscapeBytes(bytes) + rest == PercentEscape(bytes[0]) + tail;
    if i == 0 {
      ReadEscapeOf(bytes[0], tail);
    } else {
      ReadEscapeAt(bytes[1..], rest, i - 1);
      assert (EscapeBytes(bytes) + rest)[3 * i..] == tail[3 * (i - 1)..];
    }
  }

  /** The continuation bytes of an escaped sequence read back as their payloads. */
  lemma ContinuationAt(bytes: seq<Byte>, rest: string, i: nat)
    requires 0 < i < |bytes| && 0x80 <= bytes[i] < 0xC0
    ensures Continuation(EscapeBytes(bytes) + rest, 3 * i) == Some(bytes[i] - 0x80)
  {
    ReadEscapeAt(bytes, rest, i);
  }

  /** An escaped byte sequence starts with the escape of its first byte. */
  lemma LeadAt(bytes: seq<Byte>, rest: string)
    requires 0 < |bytes|
    ensures var s := EscapeBytes(bytes) + rest; |s| > 0 && s[0] == '%' && ReadEscape(s) == Some(bytes[0])
  {
    ReadEscapeAt(bytes, rest, 0);
    assert (EscapeBytes(bytes) + rest)[0..] == EscapeBytes(bytes) + rest;
  }

  lemma DecodeOneAscii(c: char, rest: string)
    requires !IsUnreserved(c) && c as int < 0x80
    ensures DecodeOne(EncodeChar(c) + rest) == Some((c, 3))
  {
    ReadEscapeAt(Utf8(c), rest, 0);
  }

  lemma DecodeOneTwoBytes(c: char, rest: string)
    requires 0x80 <= c as int < 0x800
    ensures DecodeOne(EncodeChar(c) + rest) == Some((c, 6))
  {
    var bytes := Utf8(c);
    var s := EscapeBytes(bytes) + rest;
    ReadEscapeAt(bytes, rest, 0);
    ContinuationAt(bytes, rest, 1);
    assert (bytes[0] as int - 0xC0) * 64 + (bytes[1] as int - 0x80) == c as int;
  }

  /** The three bytes of a code point in [U+0800, U+FFFF]: a lead byte, two continuations, and back. */
  lemma Utf8ThreeBytes(c: char)
    requires 0x800 <= c as int < 0x10000
    ensures var bytes := Utf8(c);
      |bytes| == 3 && 0xE0 <= bytes[0] < 0xF0 &&
      0x80 <= bytes[1] < 0xC0 && 0x80 <= bytes[2] < 0xC0 &&
      (bytes[0] as int - 0xE0) * 4096 + (bytes[1] as int - 0x80) * 64 + (bytes[2] as int - 0x80) == c as int
  {
  }

  /** A three-byte lead followed by two continuations decodes to the code point they assemble, if valid. */
  lemma DecodeThreeAt(s: string, b0: Byte, x1: int, x2: int)
    requires |s| > 0 && s[0] == '%' && ReadEscape(s) == Some(b0) && 0xE0 <= b0 < 0xF0
    requires Continuation(s, 3) == Some(x1) && Continuation(s, 6) == Some(x2)
    requires var cp := (b0 - 0xE0) * 4096 + x1 * 64 + x2; 0x800 <= cp && !(0xD800 <= cp < 0xE000)
    ensures DecodeOne(s) == Some((((b0 - 0xE0) * 4096 + x1 * 64 + x2) as char, 9))
  {
  }

  lemma DecodeOneThreeBytes(c: char, rest: string)
    requires 0x800 <= c as int < 0x10000
    ensures DecodeOne(EncodeChar(c) + rest) == Some((c, 9))
  {
    var bytes := Utf8(c);
    Utf8ThreeBytes(c);
    LeadAt(bytes, rest);
    ContinuationAt(bytes, rest, 1);
    ContinuationAt(bytes, rest, 2);
    DecodeThreeAt(EscapeBytes(bytes) + rest, bytes[0], bytes[1] - 0x80, bytes[2] - 0x80);
  }

  /** The four bytes of a code point from U+10000 on: a lead byte, three continuations, and back. */
  lemma Utf8FourBytes(c: char)
    requires 0x10000 <= c as int
    ensures var bytes := Utf8(c);
      |bytes| == 4 && 0xF0 <= bytes[0] < 0xF8 &&
      0x80 <= bytes[1] < 0xC0 && 0x80 <= bytes[2] < 0xC0 && 0x80 <= bytes[3] < 0xC0 &&
      (bytes[0] as int - 0xF0) * 262144 + (bytes[1] as int - 0x80) * 4096 +
      (bytes[2] as int - 0x80) * 64 + (bytes[3] as int - 0x80) == c as int
  {
  }

  /** A four-byte lead followed by three continuations decodes to the code point they assemble, if in range. */
  lemma DecodeFourAt(s: string, b0: Byte, x1: int, x2: int, x3: int)
    requires |s| > 0 && s[0] == '%' && ReadEscape(s) == Some(b0) && 0xF0 <= b0 < 0xF8
    requires Continuation(s, 3) == Some(x1) && Continuation(s, 6) == Some(x2) && Continuation(s, 9) == Some(x3)
    requires 0x10000 <= (b0 - 0xF0) * 262144 + x1 * 4096 + x2 * 64 + x3 < 0x110000
    ensures DecodeOne(s) == Some((((b0 - 0xF0) * 262144 + x1 * 4096 + x2 * 64 + x3) as char, 12))
  {
  }

  /** Four escaped bytes read back as a lead byte and three continuation payloads. */
  lemma FourEscapesRead(bytes: seq<Byte>, rest: string)
    requires |bytes| == 4
    requires 0x80 <= bytes[1] < 0xC0 && 0x80 <= bytes[2] < 0xC0 && 0x80 <= bytes[3] < 0xC0
    ensures var s := EscapeBytes(bytes) + rest;
      |s| > 0 && s[0] == '%' && ReadEscape(s) == Some(bytes[0]) &&
      Continuation(s, 3) == Some(bytes[1] - 0x80) && Continuation(s, 6) == Some(bytes[2] - 0x80) &&
      Continuation(s, 9) == Some(bytes[3] - 0x80)
  {
    LeadAt(bytes, rest);
    ContinuationAt(bytes, rest, 1);
    ContinuationAt(bytes, rest, 2);
    ContinuationAt(bytes, rest, 3);
  }

  /** Four escaped bytes, a lead byte and three continuations, decode to the code point they assemble. */
  lemma DecodeFourEscapes(bytes: seq<Byte>, rest: string, cp: int)
    requires |bytes| == 4 && 0xF0 <= bytes[0] < 0xF8
    requires 0x80 <= bytes[1] < 0xC0 && 0x80 <= bytes[2] < 0xC0 && 0x80 <= bytes[3] < 0xC0
    requires cp == (bytes[0] as int - 0xF0) * 262144 + (bytes[1] as int - 0x80) * 4096 +
                   (bytes[2] as int - 0x80) * 64 + (bytes[3] as int - 0x80)
    requires 0x10000 <= cp < 0x110000
    ensures DecodeOne(EscapeBytes(bytes) + rest) == Some((cp as char, 12))
  {
    var s := EscapeBytes(bytes) + rest;
    FourEscapesRead(bytes, rest);
    DecodeFourAt(s, bytes[0], bytes[1] - 0x80, bytes[2] - 0x80, bytes[3] - 0x80);
  }

  lemma DecodeOneFourBytes(c: char, rest: string)
    requires 0x10000 <= c as int
    ensures DecodeOne(EncodeChar(c) + rest) == Some((c, 12))
  {
    Utf8FourBytes(c);
    DecodeFourEscapes(Utf8(c), rest, c as int);
  }

  lemma DecodeOneOfEncoded(c: char, rest: string)
    ensures DecodeOne(EncodeChar(c) + rest) == Some((c, |EncodeChar(c)|))
  {
    var cp := c as int;
    if IsUnreserved(c) {
    } else if cp < 0x80 {
      DecodeOneAscii(c, rest);
    } else if cp < 0x800 {
      DecodeOneTwoBytes(c, rest);
    } else if cp < 0x10000 {
      DecodeOneThreeBytes(c, rest);
    } else {
      DecodeOneFourBytes(c, rest);
    }
  }

  /** Decoding an encoded character followed by anything decodes the character, then the rest. */
  lemma DecodeEncodedStep(c: char, tail: string, decodedTail: string)
    requires DecodeUriComponent(tail) == Some(decodedTail)
    ensures DecodeUriComponent(EncodeChar(c) + tail) == Some([c] + decodedTail)
  {
    DecodeOneOfEncoded(c, tail);
    assert (EncodeChar(c) + tail)[|EncodeChar(c)|..] == tail;
  }

  /** decodeURIComponent undoes encodeURIComponent. */
  lemma {:induction false} DecodeEncode(s: string)
    ensures DecodeUriComponent(EncodeUriComponent(s)) == Some(s)
    decreases |s|
  {
    if s != [] {
      DecodeEncode(s[1..]);
      DecodeEncodedStep(s[0], EncodeUriComponent(s[1..]), s[1..]);
      assert [s[0]] + s[1..] == s;
    }
  }

  /** Different strings encode differently. */
  lemma EncodeInjective(s: string, t: string)
    requires EncodeUriComponent(s) == EncodeUriComponent(t)
    ensures s == t
  {
    DecodeEncode(s);
    DecodeEncode(t);
  }

  /** Only the one character between two unreserved runs is subject to escaping. */
  lemma EncodeAround(a: string, c: char, b: string)
    requires AllUnreserved(a) && AllUnreserved(b)
    ensures EncodeUriComponent(a + [c] + b) == a + EncodeUriComponent([c]) + b
  {
    EncodeAppend(a, [c]);
    EncodeAppend(a + [c], b);
    EncodeKeepsUnreserved(a);
    EncodeKeepsUnreserved(b);
  }

  /** A reserved ASCII character encodes as one percent escape of its code. */
  lemma EncodeReservedAscii(c: char)
    requires !IsUnreserved(c) && c as int < 0x80
    ensures EncodeUriComponent([c]) == PercentEscape(c as int)
  {
    assert [c][1..] == [];
    assert EncodeChar(c) == EscapeBytes([c as int]);
    assert EscapeBytes([c as int]) == PercentEscape(c as int) + EscapeBytes([]);
  }
}
