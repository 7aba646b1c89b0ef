/**
 * The UTF-8 encoding of text (section 3 of RFC 3629). A Rust `String` is stored
 * as its UTF-8 bytes, and the Base64 encoder is handed those bytes.
 */
module Utf8 {

  type Byte = b: int | 0 <= b < 256

  /** The bytes of one Unicode scalar value. */
  function EncodeChar(c: char): (r: seq<Byte>)
    ensures 1 <= |r| <= 4
    ensures |r| == 1 <==> c as int < 0x80
    ensures |r| == 1 ==> r[0] == c as int
    ensures |r| > 1 ==> forall i :: 0 <= i < |r| ==> r[i] >= 0x80
  {
    var cp := c as int;
    if cp < 0x80 then [cp]
    else if cp < 0x800 then [0xC0 + cp / 0x40, 0x80 + cp % 0x40]
    else if cp < 0x1_0000 then [0xE0 + cp / 0x1000, 0x80 + cp / 0x40 % 0x40, 0x80 + cp % 0x40]
    else [0xF0 + cp / 0x4_0000, 0x80 + cp / 0x1000 % 0x40, 0x80 + cp / 0x40 % 0x40, 0x80 + cp % 0x40]
  }

  /** The bytes of a string: the encodings of its characters, in order. */
  function Encode(s: string): (r: seq<Byte>)
    ensures |s| <= |r| <= 4 * |s|
  {
    if s == [] then [] else EncodeChar(s[0]) + Encode(s[1..])
  }

  /** Encoding distributes over concatenation. */
  lemma {:induction false} EncodeAppend(a: string, b: string)
    ensures Encode(a + b) == Encode(a) + Encode(b)
  {
    if a == [] {
      assert a + b == b;
    } else {
      assert (a + b)[1..] == a[1..] + b;
      EncodeAppend(a[1..], b);
    }
  }

  /**
   * An ASCII byte appears in the encoding exactly where its character appears in
   * the text: bytes of multi-byte sequences are all at least 0x80.
   */
  lemma {:induction false} AsciiByteIff(s: string, c: char)
    requires c as int < 0x80
    ensures (c as int) in Encode(s) <==> c in s
  {
    if s != [] {
      AsciiByteIff(s[1..], c);
      assert s == [s[0]] + s[1..];
    }
  }
}
