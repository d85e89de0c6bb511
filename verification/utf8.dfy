/**
 * UTF-8 encoding as defined in section 3 of RFC 3629, which is what Python's
 * `str.encode('utf-8')` produces for strings of Unicode scalar values.  The
 * relay's size gates measure text by the length of this encoding.
 */
module Utf8 {

  type byte = b: int | 0 <= b < 256

  /** True for bytes of the form 10xxxxxx, which continue a multi-byte sequence. */
  predicate IsContinuation(b: byte) {
    0x80 <= b < 0xC0
  }

  /**
   * The byte sequence for one scalar value, following the table of section 3
   * of RFC 3629:
   *   U+0000..U+007F     0xxxxxxx
   *   U+0080..U+07FF     110xxxxx 10xxxxxx
   *   U+0800..U+FFFF     1110xxxx 10xxxxxx 10xxxxxx
   *   U+10000..U+10FFFF  11110xxx 10xxxxxx 10xxxxxx 10xxxxxx
   */
  function EncodeChar(c: char): (r: seq<byte>)
    ensures 1 <= |r| <= 4
    ensures |r| == 1 <==> c as int < 0x80
    ensures |r| == 2 <==> 0x80 <= c as int < 0x800
    ensures |r| == 3 <==> 0x800 <= c as int < 0x10000
    ensures |r| == 4 <==> 0x10000 <= c as int
    ensures |r| == 1 ==> r[0] < 0x80
    ensures |r| == 2 ==> 0xC2 <= r[0] < 0xE0
    ensures |r| == 3 ==> 0xE0 <= r[0] < 0xF0
    ensures |r| == 4 ==> 0xF0 <= r[0] < 0xF5
    ensures forall k :: 1 <= k < |r| ==> IsContinuation(r[k])
  {
    var n := c as int;
    if n < 0x80 then
      [n]
    else if n < 0x800 then
      [0xC0 + n / 64, 0x80 + n % 64]
    else if n < 0x10000 then
      [0xE0 + n / 4096, 0x80 + (n / 64) % 64, 0x80 + n % 64]
    else
      [0xF0 + n / 262144, 0x80 + (n / 4096) % 64, 0x80 + (n / 64) % 64, 0x80 + n % 64]
  }

  /** The scalar value carried by one well-formed byte sequence of one to four bytes. */
  function DecodeSequence(bs: seq<byte>): int
    requires 1 <= |bs| <= 4
  {
    if |bs| == 1 then bs[0] as int
    else if |bs| == 2 then (bs[0] as int - 0xC0) * 64 + (bs[1] as int - 0x80)
    else if |bs| == 3 then (bs[0] as int - 0xE0) * 4096 + (bs[1] as int - 0x80) * 64 + (bs[2] as int - 0x80)
    else (bs[0] as int - 0xF0) * 262144 + (bs[1] as int - 0x80) * 4096 + (bs[2] as int - 0x80) * 64 + (bs[3] as int - 0x80)
  }

  lemma DivDiv64(n: nat)
    ensures n / 64 / 64 == n / 4096
    ensures n / 4096 / 64 == n / 262144
  {
  }

  /** Decoding the encoding of a character gives back its scalar value. */
  lemma EncodeCharRoundTrip(c: char)
    ensures DecodeSequence(EncodeChar(c)) == c as int
  {
    var n := c as int;
    var a := n / 64;
    var b := n / 4096;
    DivDiv64(n);
    assert n == 64 * a + n % 64;
    assert a == 64 * (a / 64) + a % 64;
    assert b == 64 * (b / 64) + b % 64;
  }

  /** `text.encode('utf-8')`: the concatenation of the encodings of its characters. */
  function Encode(text: string): (r: seq<byte>)
    ensures |text| <= |r| <= 4 * |text|
  {
    if |text| == 0 then [] else EncodeChar(text[0]) + Encode(text[1..])
  }

  /** The encoding of a concatenation is the concatenation of the encodings. */
  lemma {:induction false} EncodeAppend(s: string, t: string)
    ensures Encode(s + t) == Encode(s) + Encode(t)
    decreases |s|
  {
    if |s| > 0 {
      assert (s + t)[1..] == s[1..] + t;
      EncodeAppend(s[1..], t);
    } else {
      assert s + t == t;
    }
  }

  /** A text of code points below U+0080 encodes to exactly one byte per character. */
  lemma {:induction false} AsciiEncodedLength(text: string)
    requires forall k :: 0 <= k < |text| ==> text[k] as int < 0x80
    ensures |Encode(text)| == |text|
    decreases |text|
  {
    if |text| > 0 {
      AsciiEncodedLength(text[1..]);
    }
  }

  /** A prefix of a text never has a longer encoding than the text itself. */
  lemma PrefixEncodedLength(text: string, n: nat)
    requires n <= |text|
    ensures |Encode(text[..n])| <= |Encode(text)|
  {
    EncodeAppend(text[..n], text[n..]);
    assert text[..n] + text[n..] == text;
  }
}
