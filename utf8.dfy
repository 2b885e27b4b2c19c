/**
 * UTF-8 encoding of a single Unicode scalar value (RFC 3629, section 3),
 * as used by encodeURIComponent and decodeURIComponent (ECMA-262,
 * section 19.2.6) to turn a code point into the bytes that are then
 * percent-escaped.  A Dafny `char` is a Unicode scalar value, so the
 * lone-surrogate error of the ECMAScript encoder cannot arise here.
 */
module Utf8 {
  import opened Options

  /** One octet. */
  type Byte = b: int | 0 <= b < 256

  /** The code points a `char` can hold: everything up to U+10FFFF but the surrogates. */
  predicate IsScalarValue(cp: int)
  {
    (0 <= cp < 0xD800) || (0xE000 <= cp < 0x11_0000)
  }

  /** A trailing byte of a multi-byte sequence: 10xxxxxx. */
  predicate IsContinuation(b: Byte)
  {
    0x80 <= b < 0xC0
  }

  /**
   * The length of the sequence a leading byte announces (its number of
   * leading one bits, or 1 for 0xxxxxxx); 0 when the byte cannot start a
   * sequence (a continuation byte, or five or more leading ones).
   */
  function SequenceLength(b: Byte): (n: nat)
    ensures n <= 4
  {
    if b < 0x80 then 1
    else if b < 0xC0 then 0
    else if b < 0xE0 then 2
    else if b < 0xF0 then 3
    else if b < 0xF8 then 4
    else 0
  }

  /** The least code point that needs a sequence of `n` bytes (shorter, overlong forms are invalid). */
  function MinimumFor(n: nat): int
  {
    if n <= 1 then 0 else if n == 2 then 0x80 else if n == 3 then 0x800 else 0x1_0000
  }

  predicate TailIsContinuation(bs: seq<Byte>)
  {
    forall i :: 1 <= i < |bs| ==> IsContinuation(bs[i])
  }

  /** The shortest UTF-8 form of a scalar value: one to four bytes, six payload bits per trailing byte. */
  function EncodeScalar(c: char): (bs: seq<Byte>)
    ensures 1 <= |bs| <= 4
    ensures |bs| == 1 <==> c as int < 0x80
    ensures SequenceLength(bs[0]) == |bs|
    ensures TailIsContinuation(bs)
    ensures MinimumFor(|bs|) <= c as int
  {
    var cp := c as int;
    var q1 := cp / 64;
    var q2 := q1 / 64;
    var q3 := q2 / 64;
    if cp < 0x80 then [cp]
    else if cp < 0x800 then [0xC0 + q1, 0x80 + cp % 64]
    else if cp < 0x1_0000 then [0xE0 + q2, 0x80 + q1 % 64, 0x80 + cp % 64]
    else [0xF0 + q3, 0x80 + q2 % 64, 0x80 + q1 % 64, 0x80 + cp % 64]
  }

  /** The code point a sequence spells, before any validity check. */
  function Payload(bs: seq<Byte>): int
    requires 1 <= |bs| <= 4
  {
    if |bs| == 1 then bs[0] as int
    else if |bs| == 2 then (bs[0] as int - 0xC0) * 64 + (bs[1] as int - 0x80)
    else if |bs| == 3 then ((bs[0] as int - 0xE0) * 64 + (bs[1] as int - 0x80)) * 64 + (bs[2] as int - 0x80)
    else (((bs[0] as int - 0xF0) * 64 + (bs[1] as int - 0x80)) * 64 + (bs[2] as int - 0x80)) * 64 + (bs[3] as int - 0x80)
  }

  /**
   * Decodes one complete sequence, rejecting a wrong leading byte, a bad
   * trailing byte, an overlong form, a surrogate and anything above
   * U+10FFFF.  It accepts exactly the sequences EncodeScalar produces.
   */
  function DecodeScalar(bs: seq<Byte>): (r: Option<char>)
    requires 1 <= |bs| <= 4
    ensures r.Some? ==> EncodeScalar(r.value) == bs
  {
    if SequenceLength(bs[0]) != |bs| || !TailIsContinuation(bs) then None
    else
      var cp := Payload(bs);
      if IsScalarValue(cp) && MinimumFor(|bs|) <= cp then
        var c := cp as char;
        EncodeOfPayload(bs, c);
        Some(c)
      else None
  }

  lemma DivMod64(h: int, l: int)
    requires 0 <= l < 64
    ensures (h * 64 + l) / 64 == h && (h * 64 + l) % 64 == l
  {
  }

  /** A well-formed sequence is the encoding of the value it spells. */
  lemma EncodeOfPayload(bs: seq<Byte>, c: char)
    requires 1 <= |bs| <= 4
    requires SequenceLength(bs[0]) == |bs| && TailIsContinuation(bs)
    requires c as int == Payload(bs) && MinimumFor(|bs|) <= c as int
    ensures EncodeScalar(c) == bs
  {
    if |bs| == 2 {
      EncodeOfPayload2(bs[0], bs[1], c);
    } else if |bs| == 3 {
      EncodeOfPayload3(bs[0], bs[1], bs[2], c);
    } else if |bs| == 4 {
      EncodeOfPayload4(bs[0], bs[1], bs[2], bs[3], c);
    }
  }

  lemma EncodeOfPayload2(b0: Byte, b1: Byte, c: char)
    requires 0xC0 <= b0 < 0xE0 && IsContinuation(b1)
    requires c as int == (b0 - 0xC0) * 64 + (b1 - 0x80) && 0x80 <= c as int
    ensures EncodeScalar(c) == [b0, b1]
  {
    DivMod64(b0 - 0xC0, b1 - 0x80);
  }

  lemma EncodeOfPayload3(b0: Byte, b1: Byte, b2: Byte, c: char)
    requires 0xE0 <= b0 < 0xF0 && IsContinuation(b1) && IsContinuation(b2)
    requires c as int == ((b0 - 0xE0) * 64 + (b1 - 0x80)) * 64 + (b2 - 0x80) && 0x800 <= c as int
    ensures EncodeScalar(c) == [b0, b1, b2]
  {
    var h1: int := (b0 - 0xE0) * 64 + (b1 - 0x80);
    DivMod64(h1, b2 - 0x80);
    DivMod64(b0 - 0xE0, b1 - 0x80);
  }

  lemma EncodeOfPayload4(b0: Byte, b1: Byte, b2: Byte, b3: Byte, c: char)
    requires 0xF0 <= b0 < 0xF8 && IsContinuation(b1) && IsContinuation(b2) && IsContinuation(b3)
    requires c as int == (((b0 - 0xF0) * 64 + (b1 - 0x80)) * 64 + (b2 - 0x80)) * 64 + (b3 - 0x80)
    requires 0x1_0000 <= c as int
    ensures EncodeScalar(c) == [b0, b1, b2, b3]
  {
    var h1: int := (b0 - 0xF0) * 64 + (b1 - 0x80);
    var h2: int := h1 * 64 + (b2 - 0x80);
    DivMod64(h2, b3 - 0x80);
    DivMod64(h1, b2 - 0x80);
    DivMod64(b0 - 0xF0, b1 - 0x80);
  }

  /** Decoding undoes encoding: the round trip of RFC 3629 for a single scalar value. */
  lemma DecodeEncodeScalar(c: char)
    ensures DecodeScalar(EncodeScalar(c)) == Some(c)
  {
    var bs := EncodeScalar(c);
    var cp := c as int;
    var q1 := cp / 64;
    var q2 := q1 / 64;
    var q3 := q2 / 64;
    DivMod64(q1, cp % 64);
    DivMod64(q2, q1 % 64);
    DivMod64(q3, q2 % 64);
    assert Payload(bs) == cp;
  }
}
