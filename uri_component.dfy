/**
 * encodeURIComponent and decodeURIComponent (ECMA-262, section 19.2.6),
 * over strings of Unicode scalar values.  The encoder leaves ASCII
 * letters, digits and -_.!~*'() alone and writes every other character
 * as the %XY escapes (upper-case hexadecimal) of its UTF-8 bytes, the
 * percent-encoding of section 2.1 of RFC 3986.  The decoder accepts an
 * escape in either case and turns every well-formed escape sequence back
 * into its character; a malformed one is an error (a URIError in
 * ECMAScript, None here).
 */
module UriComponent {
  import opened Options
  import Utf8

  /** The characters encodeURIComponent copies unchanged: uriAlpha, DecimalDigit and uriMark. */
  predicate IsUnreserved(c: char)
  {
    ('A' <= c <= 'Z') || ('a' <= c <= 'z') || ('0' <= c <= '9') || c in "-_.!~*'()"
  }

  /** The value of a hexadecimal digit of either case. */
  function HexValue(c: char): (r: Option<int>)
    ensures r.Some? ==> 0 <= r.value < 16
    ensures r.Some? <==> ('0' <= c <= '9') || ('A' <= c <= 'F') || ('a' <= c <= 'f')
  {
    if '0' <= c <= '9' then Some(c as int - '0' as int)
    else if 'A' <= c <= 'F' then Some(c as int - 'A' as int + 10)
    else if 'a' <= c <= 'f' then Some(c as int - 'a' as int + 10)
    else None
  }

  /** The upper-case hexadecimal digit the encoder writes for a nibble. */
  function HexDigit(d: int): (c: char)
    requires 0 <= d < 16
    ensures IsUnreserved(c)
    ensures !('a' <= c <= 'z')
    ensures HexValue(c) == Some(d)
  {
    if d < 10 then ('0' as int + d) as char else ('A' as int + d - 10) as char
  }

  /** One byte as %XY. */
  function EscapeByte(b: Utf8.Byte): (s: string)
    ensures |s| == 3 && s[0] == '%'
  {
    ['%', HexDigit(b / 16), HexDigit(b % 16)]
  }

  function EscapeBytes(bs: seq<Utf8.Byte>): (s: string)
    ensures |s| == 3 * |bs|
    ensures forall i :: 0 <= i < |s| ==> IsUnreserved(s[i]) || s[i] == '%'
  {
    if bs == [] then [] else EscapeByte(bs[0]) + EscapeBytes(bs[1..])
  }

  /** The encoding of one character. */
  function EncodeChar(c: char): (s: string)
    ensures IsUnreserved(c) ==> s == [c]
    ensures !IsUnreserved(c) ==> |s| >= 3 && s[0] == '%'
    ensures forall i :: 0 <= i < |s| ==> IsUnreserved(s[i]) || s[i] == '%'
  {
    if IsUnreserved(c) then [c] else EscapeBytes(Utf8.EncodeScalar(c))
  }

  /**
   * encodeURIComponent.  The result is made of unreserved characters and
   * '%' only, so none of the query-string delimiters & = ? # or space
   * survives in it.
   */
  function Encode(s: string): (r: string)
    ensures |r| >= |s|
    ensures forall i :: 0 <= i < |r| ==> IsUnreserved(r[i]) || r[i] == '%'
    ensures '&' !in r && '=' !in r && '?' !in r && '#' !in r && ' ' !in r
  {
    if s == [] then []
    else
      var r := EncodeChar(s[0]) + Encode(s[1..]);
      assert forall i :: 0 <= i < |r| ==> IsUnreserved(r[i]) || r[i] == '%';
      DelimitersAreEscaped();
      r
  }

  /** None of the query-string delimiters is unreserved. */
  lemma DelimitersAreEscaped()
    ensures !IsUnreserved('&') && !IsUnreserved('=') && !IsUnreserved('?')
    ensures !IsUnreserved('#') && !IsUnreserved(' ')
  {
  }

  /** The byte spelled by the escape at the front of `s`. */
  function ReadEscapedByte(s: string): (r: Option<Utf8.Byte>)
  {
    if |s| >= 3 && s[0] == '%' then
      match (HexValue(s[1]), HexValue(s[2]))
      case (Some(hi), Some(lo)) => Some(hi * 16 + lo)
      case _ => None
    else None
  }

  /** The bytes spelled by `n` consecutive escapes at the front of `s`. */
  function ReadEscapedBytes(s: string, n: nat): (r: Option<seq<Utf8.Byte>>)
    ensures r.Some? ==> |r.value| == n && 3 * n <= |s|
  {
    if n == 0 then Some([])
    else
      match ReadEscapedByte(s)
      case None => None
      case Some(b) =>
        match ReadEscapedBytes(s[3..], n - 1)
        case None => None
        case Some(bs) => Some([b] + bs)
  }

  /**
   * Decodes the escape sequence at the front of `s` (which starts with '%'):
   * the leading byte announces how many escapes form one UTF-8 sequence.
   * Gives the character and the number of characters of `s` consumed.
   */
  function DecodeEscape(s: string): (r: Option<(char, nat)>)
    ensures r.Some? ==> 3 <= r.value.1 <= |s|
  {
    match ReadEscapedByte(s)
    case None => None
    case Some(b0) =>
      var n := Utf8.SequenceLength(b0);
      if n == 0 then None
      else
        match ReadEscapedBytes(s, n)
        case None => None
        case Some(bs) =>
          match Utf8.DecodeScalar(bs)
          case None => None
          case Some(c) => Some((c, 3 * n))
  }

  /** decodeURIComponent: every other character is copied, every escape sequence decoded. */
  function Decode(s: string): (r: Option<string>)
    decreases |s|
  {
    if s == [] then Some([])
    else if s[0] != '%' then
      match Decode(s[1..])
      case None => None
      case Some(t) => Some([s[0]] + t)
    else
      match DecodeEscape(s)
      case None => None
      case Some((c, k)) =>
        match Decode(s[k..])
        case None => None
        case Some(t) => Some([c] + t)
  }

  lemma ReadEscapedByteOfEscape(b: Utf8.Byte, rest: string)
    ensures ReadEscapedByte(EscapeByte(b) + rest) == Some(b)
  {
    var s := EscapeByte(b) + rest;
    assert s[1] == HexDigit(b / 16) && s[2] == HexDigit(b % 16);
  }

  lemma {:induction false} ReadEscapedBytesOfEscapes(bs: seq<Utf8.Byte>, rest: string)
    ensures ReadEscapedBytes(EscapeBytes(bs) + rest, |bs|) == Some(bs)
  {
    if bs != [] {
      var head := EscapeByte(bs[0]);
      var tail := EscapeBytes(bs[1..]) + rest;
      var s := EscapeBytes(bs) + rest;
      assert s == head + tail;
      ReadEscapedByteOfEscape(bs[0], tail);
      assert ReadEscapedByte(s) == Some(bs[0]);
      assert s[3..] == tail;
      ReadEscapedBytesOfEscapes(bs[1..], rest);
      assert ReadEscapedBytes(s[3..], |bs| - 1) == Some(bs[1..]);
      assert [bs[0]] + bs[1..] == bs;
    }
  }

  /** An escaped character is read back whole, whatever follows it. */
  lemma DecodeEscapeOfEncoded(c: char, rest: string)
    requires !IsUnreserved(c)
    ensures DecodeEscape(EncodeChar(c) + rest) == Some((c, |EncodeChar(c)|))
  {
    var bs := Utf8.EncodeScalar(c);
    var s := EncodeChar(c) + rest;
    assert s == EscapeByte(bs[0]) + (EscapeBytes(bs[1..]) + rest);
    ReadEscapedByteOfEscape(bs[0], EscapeBytes(bs[1..]) + rest);
    ReadEscapedBytesOfEscapes(bs, rest);
    Utf8.DecodeEncodeScalar(c);
  }

  /** Decoding one encoded character in front of a decodable string adds that character. */
  lemma DecodeEncodedCharThen(c: char, rest: string, t: string)
    requires Decode(rest) == Some(t)
    ensures Decode(EncodeChar(c) + rest) == Some([c] + t)
  {
    var e := EncodeChar(c) + rest;
    if IsUnreserved(c) {
      assert e[0] == c && e[0] != '%';
      assert e[1..] == rest;
    } else {
      DecodeEscapeOfEncoded(c, rest);
      assert e[|EncodeChar(c)|..] == rest;
    }
  }

  /** decodeURIComponent(encodeURIComponent(s)) == s. */
  lemma {:induction false} DecodeEncode(s: string)
    ensures Decode(Encode(s)) == Some(s)
  {
    if s != [] {
      DecodeEncode(s[1..]);
      assert Encode(s) == EncodeChar(s[0]) + Encode(s[1..]);
      DecodeEncodedCharThen(s[0], Encode(s[1..]), s[1..]);
      assert [s[0]] + s[1..] == s;
    }
  }

  /**
   * Unreserved characters pass through unchanged, and only they do: the
   * encoding leaves a string as it is exactly when every character of it
   * is unreserved.
   */
  lemma {:induction false} EncodeIsIdentityIffUnreserved(s: string)
    ensures Encode(s) == s <==> forall i :: 0 <= i < |s| ==> IsUnreserved(s[i])
  {
    if s != [] {
      EncodeIsIdentityIffUnreserved(s[1..]);
      var rest := Encode(s[1..]);
      assert Encode(s) == EncodeChar(s[0]) + rest;
      if IsUnreserved(s[0]) {
        assert Encode(s) == [s[0]] + rest;
        assert s == [s[0]] + s[1..];
        assert (forall i :: 0 <= i < |s| ==> IsUnreserved(s[i]))
          <==> (forall i :: 0 <= i < |s[1..]| ==> IsUnreserved(s[1..][i]));
      } else {
        assert |Encode(s)| >= |s| + 2;
      }
    }
  }
}
