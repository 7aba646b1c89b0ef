/**
 * Base64 with the standard alphabet and `=` padding (section 4 of RFC 4648),
 * the encoding `BASE64_STANDARD` of the `base64` crate.
 */
module Base64 {
  import opened Wrappers
  import opened Utf8

  /** A 6-bit group. */
  type Sextet = v: int | 0 <= v < 64

  const Pad: char := '='

  /** Table 1 of RFC 4648: A-Z, a-z, 0-9, '+', '/'. */
  function CharOf(v: Sextet): (c: char)
    ensures c != Pad
  {
    if v < 26 then ('A' as int + v) as char
    else if v < 52 then ('a' as int + (v - 26)) as char
    else if v < 62 then ('0' as int + (v - 52)) as char
    else if v == 62 then '+'
    else '/'
  }

  /** The inverse of the table; `None` for any character outside the alphabet. */
  function ValueOf(c: char): (r: Option<Sextet>)
    ensures r.Some? ==> CharOf(r.value) == c
    ensures c == Pad ==> r == None
  {
    if 'A' <= c <= 'Z' then Some(c as int - 'A' as int)
    else if 'a' <= c <= 'z' then Some(c as int - 'a' as int + 26)
    else if '0' <= c <= '9' then Some(c as int - '0' as int + 52)
    else if c == '+' then Some(62)
    else if c == '/' then Some(63)
    else None
  }

  lemma ValueOfCharOf(v: Sextet)
    ensures ValueOf(CharOf(v)) == Some(v)
  {
  }

  predicate InAlphabet(c: char) {
    ValueOf(c).Some?
  }

  /** The four characters of one full 24-bit group `b0 b1 b2`. */
  function Group(b0: Byte, b1: Byte, b2: Byte): string {
    [CharOf(b0 / 4), CharOf(b0 % 4 * 16 + b1 / 16), CharOf(b1 % 16 * 4 + b2 / 64), CharOf(b2 % 64)]
  }

  /**
   * Encoding: full groups of three bytes become four characters; a final one or
   * two bytes are zero-filled to a whole sextet and padded with `=` (section 4,
   * cases 2 and 3).
   */
  function Encode(b: seq<Byte>): (s: string)
    ensures |s| == 4 * ((|b| + 2) / 3)
    ensures forall i :: 0 <= i < |s| ==> InAlphabet(s[i]) || s[i] == Pad
    decreases |b|
  {
    if |b| == 0 then ""
    else if |b| == 1 then [CharOf(b[0] / 4), CharOf(b[0] % 4 * 16), Pad, Pad]
    else if |b| == 2 then [CharOf(b[0] / 4), CharOf(b[0] % 4 * 16 + b[1] / 16), CharOf(b[1] % 16 * 4), Pad]
    else Group(b[0], b[1], b[2]) + Encode(b[3..])
  }

  /** The first byte carried by two sextets. */
  function Byte0(v0: Sextet, v1: Sextet): Byte { v0 * 4 + v1 / 16 }

  /** The second byte carried by the second and third sextets. */
  function Byte1(v1: Sextet, v2: Sextet): Byte { v1 % 16 * 16 + v2 / 4 }

  /** The third byte carried by the third and fourth sextets. */
  function Byte2(v2: Sextet, v3: Sextet): Byte { v2 % 4 * 64 + v3 }

  /**
   * Decoding: a sequence of four-character groups of which only the last may
   * end in one or two `=`; `None` for anything else.
   */
  function Decode(s: string): (r: Option<seq<Byte>>)
    decreases |s|
  {
    if s == [] then Some([])
    else if |s| < 4 || !InAlphabet(s[0]) || !InAlphabet(s[1]) then None
    else
      var v0, v1 := ValueOf(s[0]).value, ValueOf(s[1]).value;
      if |s| == 4 && s[2] == Pad && s[3] == Pad then Some([Byte0(v0, v1)])
      else if !InAlphabet(s[2]) then None
      else
        var v2 := ValueOf(s[2]).value;
        if |s| == 4 && s[3] == Pad then Some([Byte0(v0, v1), Byte1(v1, v2)])
        else if !InAlphabet(s[3]) then None
        else
          var v3 := ValueOf(s[3]).value;
          match Decode(s[4..])
          case Some(rest) => Some([Byte0(v0, v1), Byte1(v1, v2), Byte2(v2, v3)] + rest)
          case None => None
  }

  lemma Byte0Back(b0: Byte, b1: Byte)
    ensures Byte0(b0 / 4, b0 % 4 * 16 + b1 / 16) == b0
  {
    assert (b0 % 4 * 16 + b1 / 16) / 16 == b0 % 4;
  }

  lemma Byte1Back(b0: Byte, b1: Byte, b2: Byte)
    ensures Byte1(b0 % 4 * 16 + b1 / 16, b1 % 16 * 4 + b2 / 64) == b1
  {
    assert (b0 % 4 * 16 + b1 / 16) % 16 == b1 / 16;
    assert (b1 % 16 * 4 + b2 / 64) / 4 == b1 % 16;
  }

  lemma Byte2Back(b1: Byte, b2: Byte)
    ensures Byte2(b1 % 16 * 4 + b2 / 64, b2 % 64) == b2
  {
    assert (b1 % 16 * 4 + b2 / 64) % 4 == b2 / 64;
  }

  /** A group of four alphabet characters decodes to its three bytes, then the rest. */
  lemma DecodeFullGroup(v0: Sextet, v1: Sextet, v2: Sextet, v3: Sextet, t: string)
    ensures Decode([CharOf(v0), CharOf(v1), CharOf(v2), CharOf(v3)] + t)
         == if Decode(t).Some? then Some([Byte0(v0, v1), Byte1(v1, v2), Byte2(v2, v3)] + Decode(t).value) else None
  {
    var s := [CharOf(v0), CharOf(v1), CharOf(v2), CharOf(v3)] + t;
    ValueOfCharOf(v0);
    ValueOfCharOf(v1);
    ValueOfCharOf(v2);
    ValueOfCharOf(v3);
    assert s[4..] == t;
  }

  /** A final single byte: two characters and `==`. */
  lemma DecodeOne(b: seq<Byte>)
    requires |b| == 1
    ensures Decode(Encode(b)) == Some(b)
  {
    var s := Encode(b);
    assert s == [CharOf(b[0] / 4), CharOf(b[0] % 4 * 16), Pad, Pad];
    ValueOfCharOf(b[0] / 4);
    ValueOfCharOf(b[0] % 4 * 16);
    Byte0Back(b[0], 0);
    assert Decode(s) == Some([Byte0(b[0] / 4, b[0] % 4 * 16)]);
    assert b == [b[0]];
  }

  /** A final pair of bytes: three characters and `=`. */
  lemma DecodeTwo(b: seq<Byte>)
    requires |b| == 2
    ensures Decode(Encode(b)) == Some(b)
  {
    var v0, v1, v2 := b[0] / 4, b[0] % 4 * 16 + b[1] / 16, b[1] % 16 * 4;
    var s := Encode(b);
    assert s == [CharOf(v0), CharOf(v1), CharOf(v2), Pad];
    ValueOfCharOf(v0);
    ValueOfCharOf(v1);
    ValueOfCharOf(v2);
    Byte0Back(b[0], b[1]);
    Byte1Back(b[0], b[1], 0);
    assert Decode(s) == Some([Byte0(v0, v1), Byte1(v1, v2)]);
    assert b == [b[0], b[1]];
  }

  /** One full group in front of a tail that decodes to the remaining bytes. */
  lemma DecodeGroupThenTail(b: seq<Byte>, t: string)
    requires |b| >= 3
    requires Decode(t) == Some(b[3..])
    ensures Decode(Group(b[0], b[1], b[2]) + t) == Some(b)
  {
    var b0, b1, b2 := b[0], b[1], b[2];
    DecodeFullGroup(b0 / 4, b0 % 4 * 16 + b1 / 16, b1 % 16 * 4 + b2 / 64, b2 % 64, t);
    Byte0Back(b0, b1);
    Byte1Back(b0, b1, b2);
    Byte2Back(b1, b2);
    assert [b0, b1, b2] + b[3..] == b;
  }

  lemma EncodeFirstGroup(b: seq<Byte>)
    requires |b| >= 3
    ensures Encode(b) == Group(b[0], b[1], b[2]) + Encode(b[3..])
  {
  }

  /** Three or more bytes: the first group, then a tail that decodes back. */
  lemma DecodeLong(b: seq<Byte>)
    requires |b| >= 3
    requires Decode(Encode(b[3..])) == Some(b[3..])
    ensures Decode(Encode(b)) == Some(b)
  {
    EncodeFirstGroup(b);
    DecodeGroupThenTail(b, Encode(b[3..]));
  }

  /** Decoding undoes encoding, for every byte string. */
  lemma {:induction false} DecodeEncode(b: seq<Byte>)
    ensures Decode(Encode(b)) == Some(b)
    decreases |b|
  {
    if |b| == 1 {
      DecodeOne(b);
    } else if |b| == 2 {
      DecodeTwo(b);
    } else if |b| >= 3 {
      DecodeEncode(b[3..]);
      DecodeLong(b);
    }
  }
}
